/** The page component's state and its transitions: typing a version, choosing a
    platform, applying the detected info and dismissing the error, plus the gate
    that decides whether the download link is rendered. */
module Resolver {
  import opened Options
  import opened Whitespace
  import opened Version
  import opened Platforms
  import opened Download
  import opened Detection

  /** The component's `useState` fields that the resolver logic reads or writes. */
  datatype State = State(version: string, platform: Platform, generated: bool, error: string)

  /** The download link is rendered only when the flag is set and the version is valid. */
  predicate ShowsDownload(st: State): (shown: bool)
    ensures shown ==> st.generated && st.version != [] && IsTrimmed(st.version)
  {
    if st.generated && IsValidVersion(st.version) then
      ValidVersionIsTrimmed(st.version);
      true
    else false
  }

  /** The state on first render: empty version, first platform, `generated` already
      set, no error. The gate still hides the link, because "" is not a version. */
  function Initial(): (st: State)
    ensures st.generated && st.error == ""
    ensures !ShowsDownload(st)
  {
    InvalidVersionExamples();
    State("", AllPlatforms[0], true, "")
  }

  /** `handleVersionChange`: keeps the trimmed input even when it is not a version,
      flags it, clears the error and leaves the platform alone. */
  function HandleVersionChange(st: State, raw: string): (r: State)
    ensures r.platform == st.platform && r.error == ""
    ensures r.version == Trim(raw) && IsTrimmed(r.version)
    ensures r.generated <==> IsFourDigitGroups(SplitDots(r.version))
    ensures ShowsDownload(r) <==> r.generated
  {
    var v := Trim(raw);
    ValidVersionIffFourGroups(v);
    State(v, st.platform, IsValidVersion(v), "")
  }

  /** `handlePlatformChange`: stores the platform and recomputes the flag from the
      version already held; the platform never makes a version invalid. */
  function HandlePlatformChange(st: State, p: Platform): (r: State)
    ensures r.version == st.version && r.platform == p && r.error == ""
    ensures r.generated == IsValidVersion(st.version)
    ensures ShowsDownload(r) <==> IsValidVersion(st.version)
  {
    State(st.version, p, IsValidVersion(st.version), "")
  }

  /** The platform `useDetectedInfo` picks for a bitness: "64" is 64-bit, any other
      value 32-bit. */
  function PlatformForBitness(b: string): (p: Platform)
    ensures p == Win64 <==> b == "64"
  {
    if b == "64" then Win64 else Win32
  }

  /** `useDetectedInfo`: adopts the detected version only when it is present and
      valid, adopts a platform only for a present bitness, and always clears the error. */
  function UseDetectedInfo(st: State, d: Detected): (r: State)
    ensures r.error == ""
    ensures Truthy(d.version) && IsValidVersion(d.version.value) ==> r.version == d.version.value && r.generated
    ensures !(Truthy(d.version) && IsValidVersion(d.version.value)) ==> r.version == st.version && r.generated == st.generated
    ensures r.platform == Win64 <==> (if Truthy(d.bitness) then d.bitness.value == "64" else st.platform == Win64)
    ensures !Truthy(d.bitness) ==> r.platform == st.platform
  {
    var withVersion :=
      if Truthy(d.version) && IsValidVersion(d.version.value)
      then st.(version := d.version.value, generated := true)
      else st;
    var withPlatform :=
      if Truthy(d.bitness) then withVersion.(platform := PlatformForBitness(d.bitness.value))
      else withVersion;
    withPlatform.(error := "")
  }

  /** `clearError`, the alert's Dismiss button. */
  function ClearError(st: State): (r: State)
    ensures r.error == "" && ShowsDownload(r) == ShowsDownload(st)
    ensures r.version == st.version && r.platform == st.platform && r.generated == st.generated
  {
    st.(error := "")
  }

  /** The anchor rendered under the gate: its `href` and its `download` file name. */
  function DownloadLink(st: State): (r: Option<(string, string)>)
    ensures r.Some? <==> ShowsDownload(st)
    ensures r.Some? ==> ParseDownloadUrl(r.value.0) == Some((st.version, st.platform))
  {
    if ShowsDownload(st) then
      ParseDownloadUrlRoundTrip(st.version, st.platform);
      Some((DownloadUrl(st.version, st.platform.Value()), DownloadFileName(st.version, st.platform)))
    else None
  }

  /** The URL `copyToClipboard` writes, built by its own copy of the template; that
      copy agrees with `getDownloadUrl`. */
  function ClipboardUrl(st: State): (url: string)
    ensures url == DownloadUrl(st.version, st.platform.Value())
  {
    "https://storage.googleapis.com/chrome-for-testing-public/" + st.version + "/"
      + st.platform.Value() + "/chromedriver-" + st.platform.Value() + ".zip"
  }

  /** The rendered link points at the URL that is copied and names the file
      `${version}_${platform}.zip`. */
  lemma DownloadLinkAgreesWithClipboard(st: State)
    requires ShowsDownload(st)
    ensures DownloadLink(st) == Some((ClipboardUrl(st), DownloadFileName(st.version, st.platform)))
  {
  }

  /** Choosing the same platform twice is the same as choosing it once. */
  lemma HandlePlatformChangeIdempotent(st: State, p: Platform)
    ensures HandlePlatformChange(HandlePlatformChange(st, p), p) == HandlePlatformChange(st, p)
  {
  }

  /** Re-entering the same text changes nothing further, and surrounding whitespace
      never matters. */
  lemma HandleVersionChangeIdempotent(st: State, raw: string)
    ensures HandleVersionChange(HandleVersionChange(st, raw), raw) == HandleVersionChange(st, raw)
    ensures HandleVersionChange(st, Trim(raw)) == HandleVersionChange(st, raw)
  {
    TrimIdempotent(raw);
  }

  /** Typing a version and choosing a platform commute: either order ends in the
      same state, so in particular the same `generated` flag and the same gate. */
  lemma VersionAndPlatformCommute(st: State, raw: string, p: Platform)
    ensures HandlePlatformChange(HandleVersionChange(st, raw), p)
         == HandleVersionChange(HandlePlatformChange(st, p), raw)
  {
  }

  /** Applying a detected valid version alone is the same as typing it. */
  lemma UseDetectedVersionIsTyping(st: State, v: string)
    requires IsValidVersion(v)
    ensures UseDetectedInfo(st, Detected(Some(v), None)) == HandleVersionChange(st, v)
  {
    ValidVersionIsTrimmed(v);
  }

  /** With nothing detected, applying the detected info only clears the error. */
  lemma UseDetectedInfoWithNothing(st: State, d: Detected)
    requires !Truthy(d.version) && !Truthy(d.bitness)
    ensures UseDetectedInfo(st, d) == ClearError(st)
  {
  }

  /** The user events that drive the component. */
  datatype Event =
    | VersionInput(raw: string)
    | PlatformInput(p: Platform)
    | ApplyDetected(d: Detected)
    | DismissError

  /** One event's handler. Each clears the error, and none leaves the flag down on a
      valid version unless that version and the lowered flag were already there. */
  function Step(st: State, e: Event): (r: State)
    ensures r.error == ""
    ensures IsValidVersion(r.version) && !r.generated ==> r.version == st.version && !st.generated
  {
    match e
    case VersionInput(raw) => HandleVersionChange(st, raw)
    case PlatformInput(p) => HandlePlatformChange(st, p)
    case ApplyDetected(d) => UseDetectedInfo(st, d)
    case DismissError => ClearError(st)
  }

  /** The state after the events, in order. */
  function Run(st: State, events: seq<Event>): (r: State)
    ensures events != [] ==> r.error == ""
    ensures Consistent(st) ==> Consistent(r)
    decreases |events|
  {
    if events == [] then st else Run(Step(st, events[0]), events[1..])
  }

  /** What every reachable state satisfies: the error text is never set (every write
      to it stores ""), and a valid version always has the flag raised. */
  ghost predicate Consistent(st: State) {
    st.error == "" && (IsValidVersion(st.version) ==> st.generated)
  }

  /** In every state the page can reach, no error is shown and the download link is
      rendered exactly when the version is valid: the `generated` flag never hides
      a valid version and never reveals an invalid one. */
  lemma ReachableStatesGateOnValidity(events: seq<Event>)
    ensures Run(Initial(), events).error == ""
    ensures ShowsDownload(Run(Initial(), events)) <==> IsValidVersion(Run(Initial(), events).version)
  {
  }

  /** A valid version is trimmed already: it starts and ends with a digit or a dot. */
  lemma ValidVersionIsTrimmed(v: string)
    requires IsValidVersion(v)
    ensures IsTrimmed(v) && Trim(v) == v
  {
    ValidVersionCharacters(v);
    TrimOfPadded([], v, []);
    assert [] + v + [] == v;
  }

  /** Surrounding whitespace is trimmed before validation: a valid version typed
      with any whitespace around it (` 131.0.6778.140 `, say) makes the link show. */
  lemma PaddedVersionIsReady(st: State, lead: string, v: string, trail: string)
    requires AllWhitespace(lead) && AllWhitespace(trail) && IsValidVersion(v)
    ensures HandleVersionChange(st, lead + v + trail).version == v
    ensures ShowsDownload(HandleVersionChange(st, lead + v + trail))
  {
    ValidVersionIsTrimmed(v);
    TrimOfPadded(lead, v, trail);
  }

  /** Applying a detected valid version on a 64-bit machine replaces the whole state
      but the error, which is cleared; a bare "32" changes only the platform. */
  lemma UseDetectedInfoSelectsBoth(st: State, v: string)
    requires IsValidVersion(v)
    ensures UseDetectedInfo(st, Detected(Some(v), Some("64"))) == State(v, Win64, true, "")
    ensures UseDetectedInfo(st, Detected(None, Some("32"))) == st.(platform := Win32, error := "")
  {
  }

  /** A user-agent capture that is not a dotted quad is shown but never applied: when
      the client hints yield no version, applying the detected info keeps the version
      and the flag, whatever the bitness does to the platform. */
  lemma UnusableDetectedVersionIsIgnored(st: State, high: Option<HighEntropy>, ua: string)
    requires !Truthy(HighEntropyFields(high).version)
    ensures DetectChromeInfo(high, ua).version == UaVersion(ua)
    ensures UaVersion(ua).Some? && !IsValidVersion(UaVersion(ua).value) ==>
              && UseDetectedInfo(st, DetectChromeInfo(high, ua)).version == st.version
              && UseDetectedInfo(st, DetectChromeInfo(high, ua)).generated == st.generated
  {
  }

  /** Such captures occur: `Chrome/1..2` with no client hints is one. */
  lemma UnusableDetectedVersionExample(st: State)
    ensures UseDetectedInfo(st, DetectChromeInfo(None, "Chrome/1..2")).version == st.version
  {
    UaVersionNeedNotBeValid();
    UnusableDetectedVersionIsIgnored(st, None, "Chrome/1..2");
  }
}
