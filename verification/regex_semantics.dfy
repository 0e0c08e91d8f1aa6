/**
  What the patterns built by the filter mean. `TokensMatch` is the
  meaning of a token sequence matched against a whole string, as a
  regular expression of the dialect would match it; `Test` is
  `RegExp.prototype.test`, which succeeds when some substring matches.
  `Occurs` and `OccursSplit` are the plain-language readings the filter
  promises: a literal substring, or a prefix followed later on the same
  line by a suffix.
 */
module RegexSemantics {
  import opened Chars
  import opened QuerySource

  predicate NoLineTerminator(s: string) {
    forall i :: 0 <= i < |s| ==> !IsLineTerminator(s[i])
  }

  predicate AllSpace(s: string) {
    forall i :: 0 <= i < |s| ==> IsSpace(s[i])
  }

  /** `p` occurs in `t` at position `i`, character by character. */
  predicate LitsAt(t: string, p: string, i: int, ignoreCase: bool) {
    0 <= i && i + |p| <= |t| && forall k :: 0 <= k < |p| ==> CharEq(t[i + k], p[k], ignoreCase)
  }

  /** `p` is a substring of `t`. */
  predicate Occurs(t: string, p: string, ignoreCase: bool) {
    exists i | 0 <= i <= |t| :: LitsAt(t, p, i, ignoreCase)
  }

  /** `pre` occurs in `t`, and `suf` occurs after it with no line terminator in between. */
  predicate OccursSplit(t: string, pre: string, suf: string, ignoreCase: bool) {
    exists i, j | 0 <= i <= j <= |t| ::
      LitsAt(t, pre, i, ignoreCase) && LitsAt(t, suf, j, ignoreCase)
      && i + |pre| <= j && NoLineTerminator(t[i + |pre|..j])
  }

  /** Whether the tokens match the whole of `s`. */
  ghost predicate TokensMatch(ts: seq<Token>, s: string, ignoreCase: bool)
    decreases |ts|
  {
    if |ts| == 0 then |s| == 0
    else match ts[0]
      case Lit(c) => |s| > 0 && CharEq(s[0], c, ignoreCase) && TokensMatch(ts[1..], s[1..], ignoreCase)
      case AnyRun =>
        exists k | 0 <= k <= |s| :: NoLineTerminator(s[..k]) && TokensMatch(ts[1..], s[k..], ignoreCase)
  }

  /** `RegExp.prototype.test` of a compiled pattern against a text. */
  ghost predicate Test(p: Pattern, t: string, ignoreCase: bool) {
    match p
    case Blank => AllSpace(t)
    case Glob(ts) => exists a, b | 0 <= a <= b <= |t| :: TokensMatch(ts, t[a..b], ignoreCase)
  }

  /** Literal tokens consume exactly their own characters from the front of the string. */
  lemma {:induction false} LitsPrefix(p: string, rest: seq<Token>, s: string, ignoreCase: bool)
    ensures TokensMatch(Lits(p) + rest, s, ignoreCase)
        <==> LitsAt(s, p, 0, ignoreCase) && TokensMatch(rest, s[|p|..], ignoreCase)
  {
    if |p| == 0 {
      assert Lits(p) + rest == rest;
    } else {
      var ts := Lits(p) + rest;
      assert ts[0] == Lit(p[0]);
      assert ts[1..] == Lits(p[1..]) + rest;
      if 0 < |s| {
        LitsPrefix(p[1..], rest, s[1..], ignoreCase);
        if |p| <= |s| {
          assert s[1..][|p| - 1..] == s[|p|..];
        }
        if LitsAt(s, p, 0, ignoreCase) {
          assert forall k :: 0 <= k < |p| - 1 ==> s[1..][k] == s[k + 1] && p[1..][k] == p[k + 1];
          assert LitsAt(s[1..], p[1..], 0, ignoreCase);
        }
        if CharEq(s[0], p[0], ignoreCase) && LitsAt(s[1..], p[1..], 0, ignoreCase) {
          forall k | 0 <= k < |p|
            ensures CharEq(s[k], p[k], ignoreCase)
          {
            if k > 0 {
              assert s[1..][k - 1] == s[k] && p[1..][k - 1] == p[k];
            }
          }
        }
      }
    }
  }

  /** A trailing `.*` matches exactly the strings without a line terminator. */
  lemma TrailingRun(s: string, ignoreCase: bool)
    ensures TokensMatch([AnyRun], s, ignoreCase) <==> NoLineTerminator(s)
  {
    assert [AnyRun][1..] == [];
    if NoLineTerminator(s) {
      assert s[..|s|] == s;
      assert TokensMatch([], s[|s|..], ignoreCase);
    }
  }

  lemma LeadingRun(rest: seq<Token>, s: string, ignoreCase: bool)
    ensures TokensMatch([AnyRun] + rest, s, ignoreCase)
        <==> exists k | 0 <= k <= |s| :: NoLineTerminator(s[..k]) && TokensMatch(rest, s[k..], ignoreCase)
  {
    assert ([AnyRun] + rest)[0] == AnyRun;
    assert ([AnyRun] + rest)[1..] == rest;
  }

  /** `p` then `.*` matches a string that starts with `p` and has no line terminator after it. */
  lemma LitsThenRun(p: string, s: string, ignoreCase: bool)
    ensures TokensMatch(Lits(p) + [AnyRun], s, ignoreCase)
        <==> LitsAt(s, p, 0, ignoreCase) && NoLineTerminator(s[|p|..])
  {
    LitsPrefix(p, [AnyRun], s, ignoreCase);
    if |p| <= |s| {
      TrailingRun(s[|p|..], ignoreCase);
    }
  }

  /** A window of `t` starting at `a` reads like `t` shifted by `a`. */
  lemma LitsAtShift(t: string, p: string, a: int, b: int, ignoreCase: bool)
    requires 0 <= a <= b <= |t|
    ensures LitsAt(t[a..b], p, 0, ignoreCase) <==> LitsAt(t, p, a, ignoreCase) && a + |p| <= b
  {
    var w := t[a..b];
    assert forall m :: 0 <= m < |w| ==> w[m] == t[a + m];
  }

  /** Literal tokens against the window `t[x..b]`. */
  lemma WindowLits(p: string, rest: seq<Token>, t: string, x: int, b: int, ignoreCase: bool)
    requires 0 <= x <= b <= |t|
    ensures TokensMatch(Lits(p) + rest, t[x..b], ignoreCase)
        <==> x + |p| <= b && LitsAt(t, p, x, ignoreCase) && TokensMatch(rest, t[x + |p|..b], ignoreCase)
  {
    LitsPrefix(p, rest, t[x..b], ignoreCase);
    LitsAtShift(t, p, x, b, ignoreCase);
    if x + |p| <= b {
      assert t[x..b][|p|..] == t[x + |p|..b];
    }
  }

  /** A wildcard run against the window `t[x..b]`: it ends at some `y` on the same line. */
  lemma WindowRun(rest: seq<Token>, t: string, x: int, b: int, ignoreCase: bool)
    requires 0 <= x <= b <= |t|
    ensures TokensMatch([AnyRun] + rest, t[x..b], ignoreCase)
        <==> exists y | x <= y <= b :: NoLineTerminator(t[x..y]) && TokensMatch(rest, t[y..b], ignoreCase)
  {
    var s := t[x..b];
    LeadingRun(rest, s, ignoreCase);
    if TokensMatch([AnyRun] + rest, s, ignoreCase) {
      var k :| 0 <= k <= |s| && NoLineTerminator(s[..k]) && TokensMatch(rest, s[k..], ignoreCase);
      assert s[..k] == t[x..x + k] && s[k..] == t[x + k..b];
    }
    if exists y | x <= y <= b :: NoLineTerminator(t[x..y]) && TokensMatch(rest, t[y..b], ignoreCase) {
      var y :| x <= y <= b && NoLineTerminator(t[x..y]) && TokensMatch(rest, t[y..b], ignoreCase);
      assert s[..y - x] == t[x..y] && s[y - x..] == t[y..b];
    }
  }

  /** The pattern of a star-free query matches exactly the texts containing the query. */
  lemma TestWithoutStar(p: string, t: string, ignoreCase: bool)
    ensures Test(Glob([AnyRun] + Lits(p) + [AnyRun]), t, ignoreCase) <==> Occurs(t, p, ignoreCase)
  {
    var ts := [AnyRun] + (Lits(p) + [AnyRun]);
    assert [AnyRun] + Lits(p) + [AnyRun] == ts;
    if Occurs(t, p, ignoreCase) {
      var i :| 0 <= i <= |t| && LitsAt(t, p, i, ignoreCase);
      NoStarWitness(p, t, i, ignoreCase);
    }
    if Test(Glob(ts), t, ignoreCase) {
      var a, b :| 0 <= a <= b <= |t| && TokensMatch(ts, t[a..b], ignoreCase);
      NoStarSplit(p, t, a, b, ignoreCase);
    }
  }

  /** An occurrence of `p` at `i` is a window the star-free pattern matches. */
  lemma NoStarWitness(p: string, t: string, i: int, ignoreCase: bool)
    requires 0 <= i <= |t| && LitsAt(t, p, i, ignoreCase)
    ensures TokensMatch([AnyRun] + (Lits(p) + [AnyRun]), t[i..i + |p|], ignoreCase)
  {
    var tail := Lits(p) + [AnyRun];
    var b := i + |p|;
    TrailingRun(t[b..b], ignoreCase);
    WindowLits(p, [AnyRun], t, i, b, ignoreCase);
    assert TokensMatch(tail, t[i..b], ignoreCase);
    assert t[i..i] == [];
    WindowRun(tail, t, i, b, ignoreCase);
  }

  /** A window the star-free pattern matches holds an occurrence of `p`. */
  lemma NoStarSplit(p: string, t: string, a: int, b: int, ignoreCase: bool)
    requires 0 <= a <= b <= |t|
    requires TokensMatch([AnyRun] + (Lits(p) + [AnyRun]), t[a..b], ignoreCase)
    ensures Occurs(t, p, ignoreCase)
  {
    var tail := Lits(p) + [AnyRun];
    WindowRun(tail, t, a, b, ignoreCase);
    var y :| a <= y <= b && NoLineTerminator(t[a..y]) && TokensMatch(tail, t[y..b], ignoreCase);
    WindowLits(p, [AnyRun], t, y, b, ignoreCase);
    assert LitsAt(t, p, y, ignoreCase);
  }

  /** The pattern of a one-star query matches exactly when the prefix is followed on its line by the suffix. */
  lemma TestWithOneStar(pre: string, suf: string, t: string, ignoreCase: bool)
    ensures Test(Glob([AnyRun] + Lits(pre) + [AnyRun] + Lits(suf) + [AnyRun]), t, ignoreCase)
        <==> OccursSplit(t, pre, suf, ignoreCase)
  {
    var ts := [AnyRun] + (Lits(pre) + ([AnyRun] + (Lits(suf) + [AnyRun])));
    assert [AnyRun] + Lits(pre) + [AnyRun] + Lits(suf) + [AnyRun] == ts;
    if OccursSplit(t, pre, suf, ignoreCase) {
      var i, j :| 0 <= i <= j <= |t| && LitsAt(t, pre, i, ignoreCase) && LitsAt(t, suf, j, ignoreCase)
        && i + |pre| <= j && NoLineTerminator(t[i + |pre|..j]);
      OneStarWitness(pre, suf, t, i, j, ignoreCase);
    }
    if Test(Glob(ts), t, ignoreCase) {
      var a, b :| 0 <= a <= b <= |t| && TokensMatch(ts, t[a..b], ignoreCase);
      OneStarSplit(pre, suf, t, a, b, ignoreCase);
    }
  }

  lemma OneStarWitness(pre: string, suf: string, t: string, i: int, j: int, ignoreCase: bool)
    requires 0 <= i <= j <= |t| && LitsAt(t, pre, i, ignoreCase) && LitsAt(t, suf, j, ignoreCase)
    requires i + |pre| <= j && NoLineTerminator(t[i + |pre|..j])
    ensures TokensMatch([AnyRun] + (Lits(pre) + ([AnyRun] + (Lits(suf) + [AnyRun]))), t[i..j + |suf|], ignoreCase)
  {
    var body := Lits(pre) + ([AnyRun] + (Lits(suf) + [AnyRun]));
    var b := j + |suf|;
    OneStarMiddle(pre, suf, t, i, j, ignoreCase);
    assert t[i..i] == [];
    WindowRun(body, t, i, b, ignoreCase);
  }

  /** The suffix then a run match the window from the suffix's occurrence at `j` to its end. */
  lemma OneStarTail(suf: string, t: string, j: int, ignoreCase: bool)
    requires 0 <= j <= |t| && LitsAt(t, suf, j, ignoreCase)
    ensures TokensMatch(Lits(suf) + [AnyRun], t[j..j + |suf|], ignoreCase)
  {
    var b := j + |suf|;
    TrailingRun(t[b..b], ignoreCase);
    WindowLits(suf, [AnyRun], t, j, b, ignoreCase);
  }

  /** The prefix at `i`, the run up to `j` and the suffix at `j` match the window `t[i..j + |suf|]`. */
  lemma OneStarMiddle(pre: string, suf: string, t: string, i: int, j: int, ignoreCase: bool)
    requires 0 <= i <= j <= |t| && LitsAt(t, pre, i, ignoreCase) && LitsAt(t, suf, j, ignoreCase)
    requires i + |pre| <= j && NoLineTerminator(t[i + |pre|..j])
    ensures TokensMatch(Lits(pre) + ([AnyRun] + (Lits(suf) + [AnyRun])), t[i..j + |suf|], ignoreCase)
  {
    var tail := Lits(suf) + [AnyRun];
    var mid := [AnyRun] + tail;
    var b := j + |suf|;
    OneStarTail(suf, t, j, ignoreCase);
    WindowRun(tail, t, i + |pre|, b, ignoreCase);
    assert TokensMatch(mid, t[i + |pre|..b], ignoreCase);
    WindowLits(pre, mid, t, i, b, ignoreCase);
  }

  lemma OneStarSplit(pre: string, suf: string, t: string, a: int, b: int, ignoreCase: bool)
    requires 0 <= a <= b <= |t|
    requires TokensMatch([AnyRun] + (Lits(pre) + ([AnyRun] + (Lits(suf) + [AnyRun]))), t[a..b], ignoreCase)
    ensures OccursSplit(t, pre, suf, ignoreCase)
  {
    var body := Lits(pre) + ([AnyRun] + (Lits(suf) + [AnyRun]));
    WindowRun(body, t, a, b, ignoreCase);
    var i :| a <= i <= b && NoLineTerminator(t[a..i]) && TokensMatch(body, t[i..b], ignoreCase);
    SplitAfterStart(pre, suf, t, i, b, ignoreCase);
  }

  /** The prefix, the run and the suffix read from position `i` of `t`. */
  lemma SplitAfterStart(pre: string, suf: string, t: string, i: int, b: int, ignoreCase: bool)
    requires 0 <= i <= b <= |t|
    requires TokensMatch(Lits(pre) + ([AnyRun] + (Lits(suf) + [AnyRun])), t[i..b], ignoreCase)
    ensures OccursSplit(t, pre, suf, ignoreCase)
  {
    WindowLits(pre, [AnyRun] + (Lits(suf) + [AnyRun]), t, i, b, ignoreCase);
    var j := RunThenLits(suf, t, i + |pre|, b, ignoreCase);
    SplitWitness(pre, suf, t, i, j, ignoreCase);
  }

  /** A window matching `.*suf.*` has `suf` after a run of non-terminators from its start. */
  lemma RunThenLits(suf: string, t: string, x: int, b: int, ignoreCase: bool) returns (j: int)
    requires 0 <= x <= b <= |t|
    requires TokensMatch([AnyRun] + (Lits(suf) + [AnyRun]), t[x..b], ignoreCase)
    ensures x <= j <= |t| && NoLineTerminator(t[x..j]) && LitsAt(t, suf, j, ignoreCase)
  {
    var tail := Lits(suf) + [AnyRun];
    WindowRun(tail, t, x, b, ignoreCase);
    j :| x <= j <= b && NoLineTerminator(t[x..j]) && TokensMatch(tail, t[j..b], ignoreCase);
    WindowLits(suf, [AnyRun], t, j, b, ignoreCase);
  }

  lemma SplitWitness(pre: string, suf: string, t: string, i: int, j: int, ignoreCase: bool)
    requires 0 <= i <= j <= |t| && LitsAt(t, pre, i, ignoreCase) && LitsAt(t, suf, j, ignoreCase)
    requires i + |pre| <= j && NoLineTerminator(t[i + |pre|..j])
    ensures OccursSplit(t, pre, suf, ignoreCase)
  {
  }
}
