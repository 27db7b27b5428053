/** The download URL and file name derived from a version and a platform. */
module Download {
  import opened Options
  import opened Version
  import opened Platforms
  import opened TextMatch

  const BucketPrefix: string := "https://storage.googleapis.com/chrome-for-testing-public/"

  /** `getDownloadUrl(v, p)`: interpolates both verbatim, with no escaping. */
  function DownloadUrl(v: string, p: string): (url: string)
    ensures |url| == |BucketPrefix| + |v| + 2 * |p| + 19
    ensures url[..|BucketPrefix|] == BucketPrefix
    ensures url[|BucketPrefix|..|BucketPrefix| + |v|] == v
    ensures url[|BucketPrefix| + |v|..] == PlatformTail(p)
  {
    BucketPrefix + v + "/" + p + "/chromedriver-" + p + ".zip"
  }

  /** The part of the URL after the version. */
  function PlatformTail(p: string): string {
    "/" + p + "/chromedriver-" + p + ".zip"
  }

  /** Recovers the version and platform from a URL: the version is everything between
      the bucket prefix and the next `/`, and what follows must be one of the platform
      tails. */
  function ParseDownloadUrl(url: string): (r: Option<(string, Platform)>)
    ensures r.Some? ==> IsValidVersion(r.value.0)
  {
    if |url| < |BucketPrefix| || url[..|BucketPrefix|] != BucketPrefix then None
    else
      var rest := url[|BucketPrefix|..];
      match FirstIndexOf(rest, '/')
      case None => None
      case Some(i) =>
        var v := rest[..i];
        var tail := rest[i..];
        if !IsValidVersion(v) then None
        else
          match PlatformOfTail(tail)
          case None => None
          case Some(p) => Some((v, p))
  }

  /** The platform whose tail `tail` is, if any; no two platforms share a tail. */
  function PlatformOfTail(tail: string): (r: Option<Platform>)
    ensures r.Some? ==> PlatformTail(r.value.Value()) == tail
    ensures forall p: Platform :: PlatformTail(p.Value()) == tail ==> r == Some(p)
  {
    assert PlatformTail(Win64.Value())[4] != PlatformTail(Win32.Value())[4];
    if tail == PlatformTail(Win64.Value()) then Some(Win64)
    else if tail == PlatformTail(Win32.Value()) then Some(Win32)
    else None
  }

  lemma DownloadUrlShape(v: string, p: string)
    ensures DownloadUrl(v, p) == BucketPrefix + (v + PlatformTail(p))
    ensures PlatformTail(p)[0] == '/'
  {
  }

  /** With no `/` in `v`, the first `/` of `v + tail` is where `tail` starts. */
  lemma FirstSlashAfter(v: string, tail: string)
    requires '/' !in v && |tail| > 0 && tail[0] == '/'
    ensures FirstIndexOf(v + tail, '/') == Some(|v|)
    ensures (v + tail)[..|v|] == v && (v + tail)[|v|..] == tail
  {
    assert (v + tail)[|v|] == '/';
    assert (v + tail)[..|v|] == v;
  }

  lemma PrefixOf(url: string, rest: string)
    requires url == BucketPrefix + rest
    ensures |url| >= |BucketPrefix| && url[..|BucketPrefix|] == BucketPrefix
    ensures url[|BucketPrefix|..] == rest
  {
  }

  /** A valid version is recovered from its URL together with the platform. */
  lemma ParseDownloadUrlRoundTrip(v: string, p: Platform)
    requires IsValidVersion(v)
    ensures ParseDownloadUrl(DownloadUrl(v, p.Value())) == Some((v, p))
  {
    var tail := PlatformTail(p.Value());
    DownloadUrlShape(v, p.Value());
    PrefixOf(DownloadUrl(v, p.Value()), v + tail);
    ValidVersionCharacters(v);
    FirstSlashAfter(v, tail);
  }

  /** Whatever the parser accepts is exactly the URL of what it returns. */
  lemma ParseDownloadUrlSound(url: string)
    requires ParseDownloadUrl(url).Some?
    ensures var (v, p) := ParseDownloadUrl(url).value;
            IsValidVersion(v) && url == DownloadUrl(v, p.Value())
  {
    var n := |BucketPrefix|;
    var i := FirstIndexOf(url[n..], '/').value;
    var (v, p) := ParseDownloadUrl(url).value;
    SplitTwice(url, n, i);
    DownloadUrlShape(v, p.Value());
  }

  lemma SplitTwice(s: string, n: nat, i: nat)
    requires n + i <= |s|
    ensures s == s[..n] + (s[n..][..i] + s[n..][i..])
  {
  }

  /** Different (valid version, platform) pairs give different URLs. */
  lemma DownloadUrlInjective(v1: string, p1: Platform, v2: string, p2: Platform)
    requires IsValidVersion(v1) && IsValidVersion(v2)
    requires DownloadUrl(v1, p1.Value()) == DownloadUrl(v2, p2.Value())
    ensures v1 == v2 && p1 == p2
  {
    ParseDownloadUrlRoundTrip(v1, p1);
    ParseDownloadUrlRoundTrip(v2, p2);
  }

  /** The anchor's `download` attribute, `${version}_${platform}.zip`. */
  function DownloadFileName(v: string, p: Platform): (name: string)
    ensures |name| == |v| + |p.Value()| + 5
    ensures name[..|v|] == v && name[|v|] == '_'
    ensures name[|v| + 1..|name| - 4] == p.Value() && name[|name| - 4..] == ".zip"
  {
    v + "_" + p.Value() + ".zip"
  }

  /** The file name determines the version and platform it was built from, for any
      version text, since every platform value has the same length. */
  lemma DownloadFileNameInjective(v1: string, p1: Platform, v2: string, p2: Platform)
    requires DownloadFileName(v1, p1) == DownloadFileName(v2, p2)
    ensures v1 == v2 && p1 == p2
  {
    var n1, n2 := DownloadFileName(v1, p1), DownloadFileName(v2, p2);
    assert |v1| == |v2|;
    assert v1 == n1[..|v1|] && v2 == n2[..|v2|];
    assert p1.Value() == n1[|v1| + 1..|v1| + 6];
    assert p2.Value() == n2[|v2| + 1..|v2| + 6];
  }
}
