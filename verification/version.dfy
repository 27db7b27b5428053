/** The version-string check `isValidVersion`: exactly four non-empty runs of
    ASCII digits joined by single dots, nothing before or after. */
module Version {

  predicate IsDigit(c: char) {
    '0' <= c <= '9'
  }

  predicate AllDigits(s: string) {
    forall i :: 0 <= i < |s| ==> IsDigit(s[i])
  }

  /** One `[0-9]+` group. */
  predicate IsDigitRun(s: string) {
    |s| > 0 && AllDigits(s)
  }

  /** The recogniser for `^[0-9]+\.[0-9]+\.[0-9]+\.[0-9]+$`, scanning left to right.
      `dots` counts the dots already consumed and `inGroup` says whether the current
      group already holds a digit. */
  predicate Scan(s: string, dots: nat, inGroup: bool): (accepted: bool)
    ensures accepted ==> (s != [] && IsDigit(s[|s| - 1])) || (s == [] && inGroup)
    ensures accepted && !inGroup ==> s != [] && IsDigit(s[0])
    decreases |s|
  {
    if s == [] then dots == 3 && inGroup
    else if IsDigit(s[0]) then Scan(s[1..], dots, true)
    else if s[0] == '.' && inGroup && dots < 3 then Scan(s[1..], dots + 1, false)
    else false
  }

  predicate IsValidVersion(s: string): (valid: bool)
    ensures valid ==> s != [] && IsDigit(s[0]) && IsDigit(s[|s| - 1])
  {
    Scan(s, 0, false)
  }

  /** `s.split(".")`: the pieces between dots, empty pieces included. */
  function SplitDots(s: string): (groups: seq<string>)
    ensures |groups| >= 1
    ensures forall k :: 0 <= k < |groups| ==> '.' !in groups[k]
    decreases |s|
  {
    if s == [] then [""]
    else
      var rest := SplitDots(s[1..]);
      if s[0] == '.' then [""] + rest
      else [[s[0]] + rest[0]] + rest[1..]
  }

  /** `groups.join(".")`. */
  function JoinDots(groups: seq<string>): string
    requires |groups| >= 1
    decreases |groups|
  {
    if |groups| == 1 then groups[0] else groups[0] + "." + JoinDots(groups[1..])
  }

  /** The declarative reading of the pattern: splitting at dots gives four digit runs. */
  predicate IsFourDigitGroups(groups: seq<string>) {
    |groups| == 4 && forall k :: 0 <= k < 4 ==> IsDigitRun(groups[k])
  }

  /** Joining the pieces of a split restores the string. */
  lemma {:induction false} JoinSplitDots(s: string)
    ensures JoinDots(SplitDots(s)) == s
    decreases |s|
  {
    if s != [] {
      var rest := SplitDots(s[1..]);
      JoinSplitDots(s[1..]);
      if s[0] == '.' {
        assert SplitDots(s)[1..] == rest;
      } else {
        var g := SplitDots(s);
        assert g[1..] == rest[1..];
        if |rest| > 1 {
          assert JoinDots(rest) == rest[0] + "." + JoinDots(rest[1..]);
          assert JoinDots(g) == [s[0]] + rest[0] + "." + JoinDots(rest[1..]);
        }
        assert s == [s[0]] + s[1..];
      }
    }
  }

  /** Splitting dot-free `a` followed by `t` glues `a` onto the first piece of `t`. */
  lemma {:induction false} SplitDotsPrepend(a: string, t: string)
    requires '.' !in a
    ensures SplitDots(a + t) == [a + SplitDots(t)[0]] + SplitDots(t)[1..]
    decreases |a|
  {
    if a == [] {
      assert a + t == t;
      assert a + SplitDots(t)[0] == SplitDots(t)[0];
      assert SplitDots(t) == [SplitDots(t)[0]] + SplitDots(t)[1..];
    } else {
      assert (a + t)[0] == a[0] && a[0] != '.';
      assert (a + t)[1..] == a[1..] + t;
      SplitDotsPrepend(a[1..], t);
      var r := SplitDots(a[1..] + t);
      assert SplitDots(a + t) == [[a[0]] + r[0]] + r[1..];
      assert [a[0]] + (a[1..] + SplitDots(t)[0]) == a + SplitDots(t)[0];
    }
  }

  /** Splitting a join of dot-free pieces gives the pieces back. */
  lemma {:induction false} SplitJoinDots(groups: seq<string>)
    requires |groups| >= 1
    requires forall k :: 0 <= k < |groups| ==> '.' !in groups[k]
    ensures SplitDots(JoinDots(groups)) == groups
    decreases |groups|
  {
    if |groups| == 1 {
      SplitDotsPrepend(groups[0], "");
      assert groups[0] + "" == groups[0];
    } else {
      var t := JoinDots(groups[1..]);
      SplitJoinDots(groups[1..]);
      assert JoinDots(groups) == groups[0] + ("." + t);
      SplitDotsPrepend(groups[0], "." + t);
      assert ("." + t)[0] == '.' && ("." + t)[1..] == t;
      assert SplitDots("." + t) == [""] + groups[1..];
      assert groups[0] + "" == groups[0];
      assert groups == [groups[0]] + groups[1..];
    }
  }

  lemma AllDigitsCons(c: char, s: string)
    requires IsDigit(c)
    ensures AllDigits([c] + s) <==> AllDigits(s)
  {
    if AllDigits(s) {
      forall i | 0 <= i < |[c] + s| ensures IsDigit(([c] + s)[i]) {
        if i > 0 { assert ([c] + s)[i] == s[i - 1]; }
      }
    }
    if AllDigits([c] + s) {
      forall i | 0 <= i < |s| ensures IsDigit(s[i]) {
        assert s[i] == ([c] + s)[i + 1];
      }
    }
  }

  /** What the scan still accepts from state (`dots`, `inGroup`), in terms of the pieces
      of the remaining input. */
  ghost predicate ScanPieces(s: string, dots: nat, inGroup: bool) {
    var g := SplitDots(s);
    && dots <= 3
    && |g| == 4 - dots
    && AllDigits(g[0])
    && (inGroup || |g[0]| > 0)
    && forall k :: 1 <= k < |g| ==> IsDigitRun(g[k])
  }

  lemma {:induction false} ScanIffPieces(s: string, dots: nat, inGroup: bool)
    ensures Scan(s, dots, inGroup) <==> ScanPieces(s, dots, inGroup)
    decreases |s|
  {
    if s != [] {
      var rest := SplitDots(s[1..]);
      var g := SplitDots(s);
      if IsDigit(s[0]) {
        ScanIffPieces(s[1..], dots, true);
        AllDigitsCons(s[0], rest[0]);
        assert g[0] == [s[0]] + rest[0];
        assert forall k :: 1 <= k < |g| ==> g[k] == rest[k];
      } else if s[0] == '.' {
        assert g == [""] + rest;
        if inGroup && dots < 3 {
          ScanIffPieces(s[1..], dots + 1, false);
          assert forall k :: 1 <= k < |g| ==> g[k] == rest[k - 1];
          if forall k :: 1 <= k < |g| ==> IsDigitRun(g[k]) {
            forall k | 0 <= k < |rest| ensures IsDigitRun(rest[k]) {
              assert rest[k] == g[k + 1];
            }
          }
        }
      } else {
        assert g[0][0] == s[0];
      }
    }
  }

  /** The hand-coded recogniser agrees with the declarative reading of the pattern. */
  lemma ValidVersionIffFourGroups(s: string)
    ensures IsValidVersion(s) <==> IsFourDigitGroups(SplitDots(s))
  {
    ScanIffPieces(s, 0, false);
  }

  /** Every valid version is literally four digit runs joined by dots... */
  lemma ValidVersionIsFourRuns(s: string)
    requires IsValidVersion(s)
    ensures var g := SplitDots(s);
            IsFourDigitGroups(g) && s == g[0] + "." + g[1] + "." + g[2] + "." + g[3]
  {
    ValidVersionIffFourGroups(s);
    JoinSplitDots(s);
    JoinFour(SplitDots(s));
  }

  lemma JoinFour(g: seq<string>)
    requires |g| == 4
    ensures JoinDots(g) == g[0] + "." + g[1] + "." + g[2] + "." + g[3]
  {
    assert g[1..][1..][1..] == [g[3]];
    assert JoinDots(g[1..][1..]) == g[2] + "." + g[3];
    assert JoinDots(g[1..]) == g[1] + "." + (g[2] + "." + g[3]);
  }

  /** ...and four digit runs joined by dots always make a valid version. */
  lemma FourRunsAreValidVersion(a: string, b: string, c: string, d: string)
    requires IsDigitRun(a) && IsDigitRun(b) && IsDigitRun(c) && IsDigitRun(d)
    ensures IsValidVersion(a + "." + b + "." + c + "." + d)
  {
    var g := [a, b, c, d];
    forall k | 0 <= k < 4 ensures '.' !in g[k] {
      assert forall i :: 0 <= i < |g[k]| ==> IsDigit(g[k][i]);
    }
    JoinFour(g);
    SplitJoinDots(g);
    ValidVersionIffFourGroups(JoinDots(g));
  }

  /** A valid version holds only digits and dots. */
  lemma {:induction false} ScanCharacters(s: string, dots: nat, inGroup: bool)
    requires Scan(s, dots, inGroup)
    ensures forall i :: 0 <= i < |s| ==> IsDigit(s[i]) || s[i] == '.'
    decreases |s|
  {
    if s != [] {
      if IsDigit(s[0]) {
        ScanCharacters(s[1..], dots, true);
      } else {
        ScanCharacters(s[1..], dots + 1, false);
      }
      assert forall i :: 1 <= i < |s| ==> s[i] == s[1..][i - 1];
    }
  }

  lemma ValidVersionCharacters(s: string)
    requires IsValidVersion(s)
    ensures forall i :: 0 <= i < |s| ==> IsDigit(s[i]) || s[i] == '.'
  {
    ScanCharacters(s, 0, false);
  }

  /** The examples the page's placeholder and usage suggest. */
  lemma ValidVersionExample()
    ensures IsValidVersion("131.0.6778.140")
  {
    FourRunsAreValidVersion("131", "0", "6778", "140");
    assert "131.0.6778.140" == "131" + "." + "0" + "." + "6778" + "." + "140";
  }

  lemma InvalidVersionExamples()
    ensures !IsValidVersion("")
    ensures !IsValidVersion("131.0.6778")
    ensures !IsValidVersion("131.0.6778.140a")
  {
    ThreeGroupsInvalid();
    TrailingLetterInvalid();
  }

  lemma ThreeGroupsInvalid()
    ensures !IsValidVersion("131.0.6778")
  {
    var short := "131.0.6778";
    SplitJoinDots(["131", "0", "6778"]);
    assert JoinDots(["131", "0", "6778"]) == short;
    ValidVersionIffFourGroups(short);
  }

  lemma TrailingLetterInvalid()
    ensures !IsValidVersion("131.0.6778.140a")
  {
    var long := "131.0.6778.140a";
    if IsValidVersion(long) {
      ValidVersionCharacters(long);
    }
  }
}
