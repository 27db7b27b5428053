/** `String.prototype.trim` as the version input handler uses it. */
module Whitespace {

  /** The ECMAScript WhiteSpace and LineTerminator code points: TAB, LF, VT, FF, CR,
      the space separators of Unicode category Zs, LS, PS and the byte-order mark. */
  predicate IsWhitespace(c: char) {
    || c == '\t' || c == '\n' || c == '\U{000B}' || c == '\U{000C}' || c == '\r'
    || c == ' ' || c == '\U{00A0}' || c == '\U{1680}' || ('\U{2000}' <= c <= '\U{200A}')
    || c == '\U{2028}' || c == '\U{2029}' || c == '\U{202F}' || c == '\U{205F}'
    || c == '\U{3000}' || c == '\U{FEFF}'
  }

  predicate AllWhitespace(s: string) {
    forall i :: 0 <= i < |s| ==> IsWhitespace(s[i])
  }

  /** Every character of `s` in [lo, hi) is whitespace. */
  predicate WhitespaceBetween(s: string, lo: nat, hi: nat)
    requires lo <= hi <= |s|
  {
    forall j :: lo <= j < hi ==> IsWhitespace(s[j])
  }

  /** Neither end of `s` is whitespace. */
  predicate IsTrimmed(s: string) {
    s == [] || (!IsWhitespace(s[0]) && !IsWhitespace(s[|s| - 1]))
  }

  /** The first index at or after `i` that is not whitespace (or the end). */
  function SkipForward(s: string, i: nat): (k: nat)
    requires i <= |s|
    ensures i <= k <= |s| && WhitespaceBetween(s, i, k)
    ensures k == |s| || !IsWhitespace(s[k])
    decreases |s| - i
  {
    if i < |s| && IsWhitespace(s[i]) then SkipForward(s, i + 1) else i
  }

  /** The index just after the last non-whitespace character in [lo, j) (or `lo`). */
  function SkipBackward(s: string, lo: nat, j: nat): (e: nat)
    requires lo <= j <= |s|
    ensures lo <= e <= j && WhitespaceBetween(s, e, j)
    ensures e == lo || !IsWhitespace(s[e - 1])
    decreases j
  {
    if lo < j && IsWhitespace(s[j - 1]) then SkipBackward(s, lo, j - 1) else j
  }

  /** Removes the whitespace from both ends: what is left is a slice of `s` with
      only whitespace before and after it, and starts and ends with something else. */
  function Trim(s: string): (r: string)
    ensures IsTrimmed(r)
    ensures exists lo: nat :: && lo + |r| <= |s| && s[lo..lo + |r|] == r
                              && WhitespaceBetween(s, 0, lo) && WhitespaceBetween(s, lo + |r|, |s|)
  {
    var start := SkipForward(s, 0);
    var end := SkipBackward(s, start, |s|);
    assert s[start..start + (end - start)] == s[start..end];
    s[start..end]
  }

  /** Trim is determined by its contract: padding a trimmed string with whitespace
      on either side and trimming gives the string back. */
  lemma TrimOfPadded(lead: string, t: string, trail: string)
    requires AllWhitespace(lead) && AllWhitespace(trail) && IsTrimmed(t)
    ensures Trim(lead + t + trail) == t
  {
    var s := lead + t + trail;
    var a, b := |lead|, |lead| + |t|;
    assert forall j :: 0 <= j < a ==> s[j] == lead[j - 0];
    assert forall j :: b <= j < |s| ==> s[j] == trail[j - b];
    assert forall j :: a <= j < b ==> s[j] == t[j - a];
    if t == [] {
      assert WhitespaceBetween(s, 0, |s|);
      assert SkipForward(s, 0) == |s|;
    } else {
      assert !IsWhitespace(s[a]) && !IsWhitespace(s[b - 1]);
      assert SkipForward(s, 0) == a;
      assert SkipBackward(s, a, |s|) == b;
      assert s[a..b] == t;
    }
  }

  /** A string that is already trimmed is left alone, so trimming twice is trimming once. */
  lemma TrimIdempotent(s: string)
    ensures Trim(Trim(s)) == Trim(s)
  {
    TrimOfPadded([], Trim(s), []);
    assert [] + Trim(s) + [] == Trim(s);
  }
}
