/**
  `FilterableCell.isMatch` (dist/jquery.filterable.js, lines 104-144):
  the decision whether one cell text matches a query, either through the
  caller's own predicate or through the regular expression built from
  the query.
 */
module Matcher {
  import opened Wrappers
  import opened Chars
  import opened QuerySource
  import opened RegexSemantics

  /** The options a cell reads: the `i` flag and the caller's own matching predicate, if any. */
  datatype MatchOptions = MatchOptions(ignoreCase: bool, isMatch: Option<(string, string) -> bool>)

  /** Default options: case-insensitive, no custom predicate. */
  const DefaultMatchOptions := MatchOptions(true, None)

  /**
    The queries the model covers: all of them when a custom predicate is
    set, otherwise those with at most one star.
   */
  predicate Supported(o: MatchOptions, q: string) {
    o.isMatch.Some? || CountStars(q) <= 1
  }

  /** The result of `regex.test(text)` for the expression built from `q`. */
  function IsMatch(q: string, text: string, ignoreCase: bool): (r: bool)
    requires CountStars(q) <= 1
    ensures q == NullQuery ==> (r <==> forall i :: 0 <= i < |text| ==> IsSpace(text[i]))
    ensures q == "" ==> r
  {
    if q == NullQuery then AllSpace(text)
    else match FirstStar(q)
      case None =>
        assert LitsAt(text, "", 0, ignoreCase);
        Occurs(text, q, ignoreCase)
      case Some(k) => OccursSplit(text, q[..k], q[k + 1..], ignoreCase)
  }

  /**
    The match flag a cell stores for a query: the caller's predicate
    decides when there is one, even for the null query; otherwise the flag
    is `RegExp.prototype.test` of the expression built from the query.
   */
  function CellMatches(o: MatchOptions, q: string, text: string): (r: bool)
    requires Supported(o, q)
    ensures o.isMatch.Some? ==> r == o.isMatch.value(text, q)
    ensures o.isMatch.None? ==> Compile(q).Some? && (r <==> Test(Compile(q).value, text, o.ignoreCase))
  {
    match o.isMatch
    case Some(hook) => hook(text, q)
    case None =>
      IsMatchIsRegexTest(q, text, o.ignoreCase);
      IsMatch(q, text, o.ignoreCase)
  }

  /**
    The matcher is `RegExp.prototype.test` of the expression `isMatch`
    builds: the plain reading of a query agrees with the regular
    expression semantics of its escaped, star-replaced source text.
   */
  lemma IsMatchIsRegexTest(q: string, text: string, ignoreCase: bool)
    requires CountStars(q) <= 1
    ensures Compile(q).Some?
    ensures IsMatch(q, text, ignoreCase) <==> Test(Compile(q).value, text, ignoreCase)
  {
    CompileDefined(q);
    if q != NullQuery {
      match FirstStar(q)
      case None =>
        SourceWithoutStar(q);
        TestWithoutStar(q, text, ignoreCase);
      case Some(k) =>
        SourceWithOneStar(q, k);
        TestWithOneStar(q[..k], q[k + 1..], text, ignoreCase);
    }
  }

  /** The `n` characters of `text` from position `i`. */
  function Window(text: string, i: nat, n: nat): string
    requires i + n <= |text|
  {
    text[i..i + n]
  }

  lemma WindowLitsAt(q: string, text: string, i: nat, ignoreCase: bool)
    requires i + |q| <= |text|
    ensures LitsAt(text, q, i, false) <==> Window(text, i, |q|) == q
    ensures LitsAt(text, q, i, true) <==> FoldString(Window(text, i, |q|)) == FoldString(q)
  {
    var w := Window(text, i, |q|);
    assert forall k :: 0 <= k < |q| ==> w[k] == text[i + k];
    if LitsAt(text, q, i, true) {
      forall k | 0 <= k < |q| ensures FoldString(w)[k] == FoldString(q)[k] { }
    }
    if FoldString(w) == FoldString(q) {
      forall k | 0 <= k < |q| ensures CharEq(text[i + k], q[k], true) {
        assert FoldString(w)[k] == FoldString(q)[k];
      }
    }
  }

  /** A query without a star, matched case-sensitively, matches exactly the texts holding it as a substring. */
  lemma LiteralQuery(q: string, text: string)
    requires q != NullQuery && CountStars(q) == 0
    ensures IsMatch(q, text, false) <==> exists i: nat | i + |q| <= |text| :: Window(text, i, |q|) == q
  {
    forall i: nat | i + |q| <= |text| ensures LitsAt(text, q, i, false) <==> Window(text, i, |q|) == q {
      WindowLitsAt(q, text, i, false);
    }
  }

  /** A query without a star, matched ignoring case, matches exactly the texts holding it as a case-folded substring. */
  lemma LiteralQueryIgnoringCase(q: string, text: string)
    requires q != NullQuery && CountStars(q) == 0
    ensures IsMatch(q, text, true)
        <==> exists i: nat | i + |q| <= |text| :: FoldString(Window(text, i, |q|)) == FoldString(q)
  {
    forall i: nat | i + |q| <= |text|
      ensures LitsAt(text, q, i, true) <==> FoldString(Window(text, i, |q|)) == FoldString(q)
    {
      WindowLitsAt(q, text, i, true);
    }
  }

  /** Metacharacters in a query stand for themselves: `a.b` does not match `axb`. */
  lemma EscapedDotIsLiteral()
    ensures IsMatch("a.b", "a.b", false)
    ensures !IsMatch("a.b", "axb", true)
  {
    assert LitsAt("a.b", "a.b", 0, false);
    assert !LitsAt("axb", "a.b", 0, true) by {
      assert !CharEq("axb"[1], "a.b"[1], true);
    }
  }

  /** The null query matches the empty and the blank text, and no text holding a letter. */
  lemma NullQueryExamples()
    ensures IsMatch(NullQuery, "", true) && IsMatch(NullQuery, "   ", true)
    ensures !IsMatch(NullQuery, "a", true) && !IsMatch(NullQuery, " a ", false)
  {
    assert !IsSpace("a"[0]);
    assert !IsSpace(" a "[1]);
  }

  /** `a*c` matches `abc`, `ac` and `xabcx`, and not `ab`. */
  lemma StarExamples()
    ensures IsMatch("a*c", "abc", true) && IsMatch("a*c", "ac", true) && IsMatch("a*c", "xabcx", true)
    ensures !IsMatch("a*c", "ab", true)
  {
    assert FirstStar("a*c") == Some(1);
    assert "a*c"[..1] == "a" && "a*c"[2..] == "c";
    assert LitsAt("abc", "a", 0, true) && LitsAt("abc", "c", 2, true) && "abc"[1..2] == "b";
    assert LitsAt("ac", "a", 0, true) && LitsAt("ac", "c", 1, true) && "ac"[1..1] == "";
    assert LitsAt("xabcx", "a", 1, true) && LitsAt("xabcx", "c", 3, true) && "xabcx"[2..3] == "b";
    assert forall j :: 0 <= j <= 2 ==> !LitsAt("ab", "c", j, true);
  }

  /** `joh*` matches `John` and `Johnny`, ignoring case, and not `Mark`. */
  lemma JohnQueryExamples()
    ensures IsMatch("joh*", "John", true) && IsMatch("joh*", "Johnny", true) && !IsMatch("joh*", "Mark", true)
  {
    assert FirstStar("joh*") == Some(3);
    assert "joh*"[..3] == "joh" && "joh*"[4..] == "";
    assert LitsAt("John", "joh", 0, true) && LitsAt("John", "", 3, true) && "John"[3..3] == "";
    assert LitsAt("Johnny", "joh", 0, true) && LitsAt("Johnny", "", 3, true) && "Johnny"[3..3] == "";
    assert forall i :: 0 <= i <= 4 ==> !LitsAt("Mark", "joh", i, true) by {
      assert !CharEq("Mark"[0], "joh"[0], true) && !CharEq("Mark"[1], "joh"[0], true);
    }
  }

  /** Stars survive folding, at the same positions. */
  lemma {:induction false} FoldKeepsStars(q: string)
    ensures CountStars(FoldString(q)) == CountStars(q)
    ensures FirstStar(FoldString(q)) == FirstStar(q)
  {
    if |q| > 0 {
      assert FoldString(q)[1..] == FoldString(q[1..]);
      FoldKeepsStars(q[1..]);
    }
  }

  lemma FoldedLitsAt(t: string, p: string, i: int)
    ensures LitsAt(t, p, i, true) <==> LitsAt(FoldString(t), FoldString(p), i, false)
  {
    if 0 <= i && i + |p| <= |t| {
      forall k | 0 <= k < |p|
        ensures CharEq(t[i + k], p[k], true) <==> CharEq(FoldString(t)[i + k], FoldString(p)[k], false)
      {
        CharEqFolded(t[i + k], p[k]);
      }
    }
  }

  lemma FoldedNoLineTerminator(t: string, x: int, y: int)
    requires 0 <= x <= y <= |t|
    ensures NoLineTerminator(t[x..y]) <==> NoLineTerminator(FoldString(t)[x..y])
  {
    forall m | x <= m < y
      ensures IsLineTerminator(t[m]) <==> IsLineTerminator(FoldString(t)[m])
    {
      FoldKeepsLineTerminator(t[m]);
    }
    assert forall m :: 0 <= m < y - x ==> t[x..y][m] == t[x + m] && FoldString(t)[x..y][m] == FoldString(t)[x + m];
  }

  lemma FoldedOccurs(p: string, text: string)
    ensures Occurs(text, p, true) <==> Occurs(FoldString(text), FoldString(p), false)
  {
    forall i | 0 <= i <= |text|
      ensures LitsAt(text, p, i, true) <==> LitsAt(FoldString(text), FoldString(p), i, false)
    {
      FoldedLitsAt(text, p, i);
    }
  }

  lemma FoldedOccursSplit(pre: string, suf: string, text: string)
    ensures OccursSplit(text, pre, suf, true)
        <==> OccursSplit(FoldString(text), FoldString(pre), FoldString(suf), false)
  {
    var ft, fpre, fsuf := FoldString(text), FoldString(pre), FoldString(suf);
    forall i, j | 0 <= i <= j <= |text|
      ensures (LitsAt(text, pre, i, true) && LitsAt(text, suf, j, true)
               && i + |pre| <= j && NoLineTerminator(text[i + |pre|..j]))
          <==> (LitsAt(ft, fpre, i, false) && LitsAt(ft, fsuf, j, false)
               && i + |fpre| <= j && NoLineTerminator(ft[i + |fpre|..j]))
    {
      FoldedLitsAt(text, pre, i);
      FoldedLitsAt(text, suf, j);
      if i + |pre| <= j {
        FoldedNoLineTerminator(text, i + |pre|, j);
      }
    }
  }

  /**
    Case-insensitive matching is case-sensitive matching of the folded
    query against the folded text. The null query is excluded: it is
    recognised before folding, so `\null` is an ordinary query.
   */
  lemma IgnoreCaseIsFolding(q: string, text: string)
    requires q != NullQuery && CountStars(q) <= 1
    ensures CountStars(FoldString(q)) <= 1
    ensures IsMatch(q, text, true) <==> IsMatch(FoldString(q), FoldString(text), false)
  {
    var fq := FoldString(q);
    FoldKeepsStars(q);
    FoldedIsNotNull(q);
    match FirstStar(q)
    case None =>
      FoldedOccurs(q, text);
    case Some(k) =>
      FoldedParts(q, k);
      FoldedOccursSplit(q[..k], q[k + 1..], text);
  }

  /** No folded query is the null query: folding lowers its `N`. */
  lemma FoldedIsNotNull(q: string)
    ensures FoldString(q) != NullQuery
  {
    if |q| == |NullQuery| {
      assert FoldString(q)[1] != NullQuery[1];
    }
  }

  lemma FoldedParts(q: string, k: nat)
    requires k < |q|
    ensures FoldString(q)[..k] == FoldString(q[..k]) && FoldString(q)[k + 1..] == FoldString(q[k + 1..])
  {
  }
}
