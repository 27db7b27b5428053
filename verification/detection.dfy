/** `detectChromeInfo`: the browser version and bitness guessed from the
    high-entropy client hints, falling back to the user-agent string. The browser
    calls are not modelled; their results arrive as plain inputs. */
module Detection {
  import opened Options
  import opened TextMatch
  import opened Version

  /** One entry of `fullVersionList`. */
  datatype BrandVersion = BrandVersion(brand: string, version: string)

  /** What `getHighEntropyValues(["fullVersionList", "bitness"])` resolved to; a
      missing field is `None`. */
  datatype HighEntropy = HighEntropy(fullVersionList: Option<seq<BrandVersion>>, bitness: Option<string>)

  /** The detected version and bitness; `None` stands for `null`. */
  datatype Detected = Detected(version: Option<string>, bitness: Option<string>)

  /** `/Chrom(e|ium)/i.test(brand)`. */
  predicate IsChromeBrand(brand: string) {
    ContainsIgnoringCase(brand, "Chrome") || ContainsIgnoringCase(brand, "Chromium")
  }

  /** `fullVersionList.find(...)`, as the index of the first Chrome or Chromium entry
      at or after `from`. */
  function FindChromeEntry(list: seq<BrandVersion>, from: nat): (r: Option<nat>)
    ensures r.Some? ==> from <= r.value < |list| && IsChromeBrand(list[r.value].brand)
    ensures r.Some? ==> forall j :: from <= j < r.value ==> !IsChromeBrand(list[j].brand)
    ensures r.None? ==> forall j :: from <= j < |list| ==> !IsChromeBrand(list[j].brand)
    decreases |list| - from
  {
    if |list| <= from then None
    else if IsChromeBrand(list[from].brand) then Some(from)
    else FindChromeEntry(list, from + 1)
  }

  /** What the `try` block leaves in `dv` and `db`. No result at all (the API is
      missing or its promise rejects) leaves both `null`; so does a result without
      `fullVersionList`, because `.find` throws before the bitness is read. */
  function HighEntropyFields(high: Option<HighEntropy>): (r: Detected)
    ensures r.bitness.Some? ==> Truthy(r.bitness)
  {
    match high
    case None => Detected(None, None)
    case Some(h) =>
      match h.fullVersionList
      case None => Detected(None, None)
      case Some(list) =>
        Detected(
          match FindChromeEntry(list, 0)
          case Some(k) => Some(list[k].version)
          case None => None,
          if Truthy(h.bitness) then h.bitness else None)
  }

  /** The high-entropy result offers the version `v`: it has a brand list whose first
      Chrome or Chromium entry carries the non-empty version `v`. */
  ghost predicate BrandListOffers(high: Option<HighEntropy>, v: string) {
    && high.Some?
    && high.value.fullVersionList.Some?
    && var list := high.value.fullVersionList.value;
       exists k :: 0 <= k < |list| && IsChromeBrand(list[k].brand)
                   && (forall j :: 0 <= j < k ==> !IsChromeBrand(list[j].brand))
                   && list[k].version == v && v != ""
  }

  predicate IsVersionChar(c: char) {
    IsDigit(c) || c == '.'
  }

  const ChromeToken: string := "Chrome/"

  /** `/Chrome\/([0-9.]+)/` can match at `i`: the literal token, then at least one
      digit or dot. */
  predicate ChromeMatchAt(ua: string, i: nat) {
    OccursAt(ua, i, ChromeToken) && i + |ChromeToken| < |ua| && IsVersionChar(ua[i + |ChromeToken|])
  }

  /** The leftmost position at or after `from` where the pattern matches. */
  function FindChromeMatch(ua: string, from: nat): (r: Option<nat>)
    ensures r.Some? ==> from <= r.value && ChromeMatchAt(ua, r.value)
    ensures r.Some? ==> forall j :: from <= j < r.value ==> !ChromeMatchAt(ua, j)
    ensures r.None? ==> forall j :: from <= j ==> !ChromeMatchAt(ua, j)
    decreases |ua| - from
  {
    if |ua| <= from then None
    else if ChromeMatchAt(ua, from) then Some(from)
    else FindChromeMatch(ua, from + 1)
  }

  /** The greedy `[0-9.]+` run starting at `i` (possibly empty here). */
  function VersionCharRun(s: string, i: nat): (r: string)
    requires i <= |s|
    ensures i + |r| <= |s| && r == s[i..i + |r|]
    ensures forall k :: 0 <= k < |r| ==> IsVersionChar(r[k])
    ensures i + |r| == |s| || !IsVersionChar(s[i + |r|])
    decreases |s| - i
  {
    if i < |s| && IsVersionChar(s[i]) then [s[i]] + VersionCharRun(s, i + 1) else ""
  }

  /** `v` is the capture of the greedy run starting at `at`: non-empty, all digits and
      dots, and not followed by another digit or dot. */
  ghost predicate CapturedAt(s: string, at: nat, v: string) {
    && |v| > 0
    && at + |v| <= |s|
    && s[at..at + |v|] == v
    && (forall k :: 0 <= k < |v| ==> IsVersionChar(v[k]))
    && (at + |v| == |s| || !IsVersionChar(s[at + |v|]))
  }

  /** `navigator.userAgent.match(/Chrome\/([0-9.]+)/)`, group 1: the digits and dots
      after the leftmost `Chrome/` that is followed by one. Not necessarily a
      dotted quad. */
  function UaVersion(ua: string): (r: Option<string>)
    ensures r.None? <==> forall i: nat :: !ChromeMatchAt(ua, i)
    ensures r.Some? ==> exists i: nat :: && ChromeMatchAt(ua, i)
                                          && (forall j :: 0 <= j < i ==> !ChromeMatchAt(ua, j))
                                          && CapturedAt(ua, i + |ChromeToken|, r.value)
  {
    match FindChromeMatch(ua, 0)
    case None => None
    case Some(i) =>
      MatchCaptures(ua, i);
      Some(VersionCharRun(ua, i + |ChromeToken|))
  }

  /** Wherever the pattern matches, the greedy run after the token is a capture. */
  lemma MatchCaptures(ua: string, i: nat)
    requires ChromeMatchAt(ua, i)
    ensures CapturedAt(ua, i + |ChromeToken|, VersionCharRun(ua, i + |ChromeToken|))
  {
    var v := VersionCharRun(ua, i + |ChromeToken|);
    assert v[0] == ua[i + |ChromeToken|];
  }

  const Markers64: seq<string> := ["WOW64", "Win64", "x64"]
  const Markers32: seq<string> := ["Win32", "i686", "x86"]

  /** `ua` contains one of `markers`, ignoring ASCII case. */
  ghost predicate MentionsAny(ua: string, markers: seq<string>) {
    exists k: nat, i: nat :: k < |markers| && OccursAtIgnoringCase(ua, i, markers[k])
  }

  /** The user-agent bitness guess: `/WOW64|Win64|x64/i` gives "64", tested before
      `/Win32|i686|x86/i`, which gives "32". */
  function UaBitness(ua: string): (r: Option<string>)
    ensures r == Some("64") <==> MentionsAny(ua, Markers64)
    ensures r == Some("32") <==> !MentionsAny(ua, Markers64) && MentionsAny(ua, Markers32)
    ensures r.None? <==> !MentionsAny(ua, Markers64) && !MentionsAny(ua, Markers32)
  {
    ContainsAnyIff(ua, Markers64);
    ContainsAnyIff(ua, Markers32);
    if ContainsIgnoringCase(ua, "WOW64") || ContainsIgnoringCase(ua, "Win64") || ContainsIgnoringCase(ua, "x64") then Some("64")
    else if ContainsIgnoringCase(ua, "Win32") || ContainsIgnoringCase(ua, "i686") || ContainsIgnoringCase(ua, "x86") then Some("32")
    else None
  }

  lemma ContainsAnyIff(ua: string, markers: seq<string>)
    requires |markers| == 3
    ensures MentionsAny(ua, markers) <==>
              ContainsIgnoringCase(ua, markers[0]) || ContainsIgnoringCase(ua, markers[1])
              || ContainsIgnoringCase(ua, markers[2])
  {
    ContainsIgnoringCaseIff(ua, markers[0]);
    ContainsIgnoringCaseIff(ua, markers[1]);
    ContainsIgnoringCaseIff(ua, markers[2]);
    if MentionsAny(ua, markers) {
      var k: nat, i: nat :| k < |markers| && OccursAtIgnoringCase(ua, i, markers[k]);
      assert k == 0 || k == 1 || k == 2;
    }
    forall k: nat | k < 3 && ContainsIgnoringCase(ua, markers[k]) ensures MentionsAny(ua, markers) {
      ContainsIgnoringCaseIff(ua, markers[k]);
      var i: nat :| OccursAtIgnoringCase(ua, i, markers[k]);
    }
  }

  /** The whole fallback chain. A field left falsy by the high-entropy step is taken
      from the user agent; the function is total, so nothing is ever thrown. */
  function DetectChromeInfo(high: Option<HighEntropy>, ua: string): (r: Detected)
    ensures r.version.Some? ==> Truthy(r.version)
    ensures r.bitness.Some? ==> Truthy(r.bitness)
  {
    var fromHigh := HighEntropyFields(high);
    Detected(
      if Truthy(fromHigh.version) then fromHigh.version else UaVersion(ua),
      if Truthy(fromHigh.bitness) then fromHigh.bitness else UaBitness(ua))
  }

  /** The brand list wins whenever its first Chrome or Chromium entry has a version. */
  lemma DetectVersionFromBrandList(high: Option<HighEntropy>, ua: string, v: string)
    requires BrandListOffers(high, v)
    ensures DetectChromeInfo(high, ua).version == Some(v)
  {
    var list := high.value.fullVersionList.value;
    var k :| 0 <= k < |list| && IsChromeBrand(list[k].brand)
             && (forall j :: 0 <= j < k ==> !IsChromeBrand(list[j].brand))
             && list[k].version == v;
    FirstChromeEntryIsFound(list, k);
  }

  /** The search stops at the first Chrome or Chromium entry. */
  lemma FirstChromeEntryIsFound(list: seq<BrandVersion>, k: nat)
    requires k < |list| && IsChromeBrand(list[k].brand)
    requires forall j :: 0 <= j < k ==> !IsChromeBrand(list[j].brand)
    ensures FindChromeEntry(list, 0) == Some(k)
  {
    match FindChromeEntry(list, 0)
    case Some(i) =>
      assert !(i < k) && !(k < i);
  }

  /** Otherwise the version comes from the user agent (and may be absent). */
  lemma DetectVersionFromUserAgent(high: Option<HighEntropy>, ua: string)
    requires forall v :: !BrandListOffers(high, v)
    ensures DetectChromeInfo(high, ua).version == UaVersion(ua)
  {
    if high.Some? && high.value.fullVersionList.Some? {
      var list := high.value.fullVersionList.value;
      match FindChromeEntry(list, 0)
      case Some(k) =>
        assert !BrandListOffers(high, list[k].version);
        assert list[k].version == "";
      case None =>
    }
  }

  /** A truthy high-entropy bitness wins when the brand list was present... */
  lemma DetectBitnessFromHighEntropy(h: HighEntropy, ua: string)
    requires h.fullVersionList.Some? && Truthy(h.bitness)
    ensures DetectChromeInfo(Some(h), ua).bitness == h.bitness
  {
  }

  /** ...and in every other case the bitness is the user-agent guess. */
  lemma DetectBitnessFromUserAgent(high: Option<HighEntropy>, ua: string)
    requires high.None? || high.value.fullVersionList.None? || !Truthy(high.value.bitness)
    ensures DetectChromeInfo(high, ua).bitness == UaBitness(ua)
  {
  }

  /** A result without `fullVersionList` throws inside the `try`, so even a bitness it
      carries is lost: the outcome is that of having no high-entropy result at all. */
  lemma MissingBrandListDiscardsBitness(h: HighEntropy, ua: string)
    requires h.fullVersionList.None?
    ensures DetectChromeInfo(Some(h), ua) == DetectChromeInfo(None, ua)
    ensures DetectChromeInfo(None, ua) == Detected(UaVersion(ua), UaBitness(ua))
  {
  }

  /** `x86_64` does not contain `x64`, so a user agent naming only that architecture
      is classed as 32-bit through `x86`. */
  lemma X86_64IsClassedAs32Bit()
    ensures UaBitness("x86_64") == Some("32")
  {
    var ua := "x86_64";
    assert OccursAtIgnoringCase(ua, 0, Markers32[2]);
    forall k: nat, i: nat | k < |Markers64| ensures !OccursAtIgnoringCase(ua, i, Markers64[k]) {
      if i + |Markers64[k]| <= |ua| {
        if k == 2 && i == 0 {
          assert LowerAscii(ua[1]) != LowerAscii(Markers64[2][1]);
        } else {
          assert i == 0 || i == 1 || i == 2 || i == 3;
          assert LowerAscii(ua[i]) != LowerAscii(Markers64[k][0]);
        }
      }
    }
  }

  /** The user-agent capture is any run of digits and dots, not necessarily a valid
      version. */
  lemma UaVersionNeedNotBeValid()
    ensures UaVersion("Chrome/1..2") == Some("1..2")
    ensures !IsValidVersion("1..2")
  {
    var ua := "Chrome/1..2";
    assert ua[0..7] == ChromeToken;
    assert ChromeMatchAt(ua, 0);
    assert FindChromeMatch(ua, 0) == Some(0);
    var v := VersionCharRun(ua, 7);
    assert forall k :: 7 <= k < 11 ==> IsVersionChar(ua[k]);
    assert |v| == 4;
    assert v == ua[7..11] == "1..2";
    var s := "1..2";
    assert s[1..] == "..2" && s[1..][1..] == ".2";
    assert !Scan(".2", 1, false);
  }
}
