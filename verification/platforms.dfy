/** The closed set of platforms the page offers. */
module Platforms {
  import opened Options

  datatype Platform = Win64 | Win32 {
    /** The value the radio group reports and the URL uses. */
    function Value(): string {
      match this
      case Win64 => "win64"
      case Win32 => "win32"
    }
  }

  /** The radio group's choices, in display order; the first is the default. */
  const AllPlatforms: seq<Platform> := [Win64, Win32]

  /** The platform whose value is `s`, if any. */
  function FromValue(s: string): (r: Option<Platform>)
    ensures r.Some? ==> r.value.Value() == s
    ensures r.None? ==> forall p: Platform :: p.Value() != s
  {
    if s == "win64" then Some(Win64)
    else if s == "win32" then Some(Win32)
    else None
  }

  /** Distinct platforms have distinct values, so a value names its platform. */
  lemma FromValueRoundTrip(p: Platform)
    ensures FromValue(p.Value()) == Some(p)
    ensures forall q: Platform :: q.Value() == p.Value() ==> q == p
  {
  }
}
