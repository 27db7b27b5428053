/** The small pieces of regular-expression and string-search behaviour the page
    relies on: first index of a character, literal occurrence and ASCII
    case-insensitive occurrence. */
module TextMatch {
  import opened Options

  /** The first index of `c` in `s`; the download-URL parser uses it to find where
      the version ends. */
  function FirstIndexOf(s: string, c: char): (r: Option<nat>)
    ensures r.Some? ==> r.value < |s| && s[r.value] == c && c !in s[..r.value]
    ensures r.None? <==> c !in s
  {
    if s == [] then None
    else if s[0] == c then Some(0)
    else
      match FirstIndexOf(s[1..], c)
      case None => None
      case Some(k) =>
        assert s[..k + 1] == [s[0]] + s[1..][..k];
        Some(k + 1)
  }

  /** `pat` occurs in `s` starting at `i`, character for character. */
  predicate OccursAt(s: string, i: nat, pat: string) {
    i + |pat| <= |s| && s[i..i + |pat|] == pat
  }

  /** The case folding of a non-unicode `/i` regular expression, restricted to what
      matters for ASCII patterns: ASCII letters fold to lower case; no other character
      folds onto an ASCII one. */
  function LowerAscii(c: char): (r: char)
    ensures 'A' <= c <= 'Z' ==> r != c && r as int - c as int == 32
    ensures !('A' <= c <= 'Z') ==> r == c
  {
    if 'A' <= c <= 'Z' then (c as int + 32) as char else c
  }

  /** `pat` occurs in `s` at `i` ignoring ASCII case. */
  predicate OccursAtIgnoringCase(s: string, i: nat, pat: string) {
    i + |pat| <= |s| && forall j :: 0 <= j < |pat| ==> LowerAscii(s[i + j]) == LowerAscii(pat[j])
  }

  /** The leftmost position at or after `from` where `pat` occurs ignoring case:
      how `/pat/i` scans its subject. */
  function FindIgnoringCase(s: string, pat: string, from: nat): (r: Option<nat>)
    ensures r.Some? ==> from <= r.value && OccursAtIgnoringCase(s, r.value, pat)
    ensures r.Some? ==> forall j :: from <= j < r.value ==> !OccursAtIgnoringCase(s, j, pat)
    ensures r.None? ==> forall j :: from <= j ==> !OccursAtIgnoringCase(s, j, pat)
    decreases |s| + 1 - from
  {
    if |s| < from + |pat| then None
    else if OccursAtIgnoringCase(s, from, pat) then Some(from)
    else FindIgnoringCase(s, pat, from + 1)
  }

  /** `/pat/i.test(s)` for a literal pattern `pat`. */
  predicate ContainsIgnoringCase(s: string, pat: string) {
    FindIgnoringCase(s, pat, 0).Some?
  }

  /** The search reports an occurrence exactly when one exists somewhere. */
  lemma ContainsIgnoringCaseIff(s: string, pat: string)
    ensures ContainsIgnoringCase(s, pat) <==> exists i: nat :: OccursAtIgnoringCase(s, i, pat)
  {
  }
}
