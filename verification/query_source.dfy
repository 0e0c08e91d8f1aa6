/**
  The regular-expression source text that `FilterableCell.isMatch` builds
  from a user query (dist/jquery.filterable.js, lines 116-127), and a
  tokenizer for the small regular-expression dialect that text is written
  in: escaped literals `\c`, the wildcard run `.*`, and plain characters.
  A second `*` in a query stays a bare quantifier in the source; the
  tokenizer rejects it, which is how queries with two or more stars fall
  outside the model.
 */
module QuerySource {
  import opened Wrappers

  /** The query that asks for empty cells; it is compared before any escaping. */
  const NullQuery: string := "\\NULL"

  /** The characters the query escaper prefixes with a backslash. */
  predicate IsMeta(c: char) {
    c in "-[]/{}()+?.\\^$|"
  }

  /** Number of `*` characters in a query. */
  function CountStars(q: string): nat
  {
    if |q| == 0 then 0 else (if q[0] == '*' then 1 else 0) + CountStars(q[1..])
  }

  function EscapeChar(c: char): string
  {
    if IsMeta(c) then ['\\', c] else [c]
  }

  /** Backslash-escapes every metacharacter; `*` is not among them. */
  function Escape(q: string): string
  {
    if |q| == 0 then "" else EscapeChar(q[0]) + Escape(q[1..])
  }

  /** Replaces the first `*` by `.*` and leaves any later one alone. */
  function ReplaceFirstStar(s: string): string
  {
    if |s| == 0 then ""
    else if s[0] == '*' then ".*" + s[1..]
    else [s[0]] + ReplaceFirstStar(s[1..])
  }

  /** The pattern handed to `new RegExp` for a query other than the null query. */
  function RegexSource(q: string): string
  {
    ".*" + ReplaceFirstStar(Escape(q)) + ".*"
  }

  /** One element of the dialect: a literal character or `.*`. */
  datatype Token = Lit(c: char) | AnyRun

  /** What a regular expression built by the filter means. */
  datatype Pattern =
    | Blank                       // `^\s*$`
    | Glob(tokens: seq<Token>)    // a sequence of literals and wildcard runs, searched for anywhere

  function Lits(p: string): (r: seq<Token>)
    ensures |r| == |p|
    ensures forall i :: 0 <= i < |p| ==> r[i] == Lit(p[i])
  {
    seq(|p|, i requires 0 <= i < |p| => Lit(p[i]))
  }

  function Prepend(ts: seq<Token>, o: Option<seq<Token>>): Option<seq<Token>>
  {
    match o
    case None => None
    case Some(rest) => Some(ts + rest)
  }

  /**
    Reads a pattern of the dialect; None when the text holds anything
    else, such as a quantifier `*` not preceded by `.`.
   */
  function Tokenize(s: string): Option<seq<Token>>
  {
    if |s| == 0 then Some([])
    else if s[0] == '\\' then
      if |s| >= 2 && IsMeta(s[1]) then Prepend([Lit(s[1])], Tokenize(s[2..])) else None
    else if s[0] == '.' then
      if |s| >= 2 && s[1] == '*' then Prepend([AnyRun], Tokenize(s[2..])) else None
    else if IsMeta(s[0]) || s[0] == '*' then None
    else Prepend([Lit(s[0])], Tokenize(s[1..]))
  }

  /** The pattern a query denotes, or None when it is outside the dialect. */
  function Compile(q: string): Option<Pattern>
  {
    if q == NullQuery then Some(Blank)
    else match Tokenize(RegexSource(q))
      case None => None
      case Some(ts) => Some(Glob(ts))
  }

  /** Position of the first `*` of a query, if any. */
  function FirstStar(q: string): (r: Option<nat>)
    ensures r.None? <==> CountStars(q) == 0
    ensures r.Some? ==> r.value < |q| && q[r.value] == '*' && CountStars(q[..r.value]) == 0
    ensures r.Some? ==> CountStars(q[r.value + 1..]) == CountStars(q) - 1
  {
    if |q| == 0 then None
    else if q[0] == '*' then Some(0)
    else match FirstStar(q[1..])
      case None => None
      case Some(k) =>
        assert q[1..][..k] == q[1..k + 1];
        assert q[..k + 1] == [q[0]] + q[1..k + 1];
        CountStarsAppend([q[0]], q[1..k + 1]);
        assert q[k + 2..] == q[1..][k + 1..];
        Some(k + 1)
  }

  lemma {:induction false} CountStarsAppend(a: string, b: string)
    ensures CountStars(a + b) == CountStars(a) + CountStars(b)
  {
    if |a| > 0 {
      assert (a + b)[1..] == a[1..] + b;
      CountStarsAppend(a[1..], b);
    } else {
      assert a + b == b;
    }
  }

  lemma {:induction false} EscapeAppend(a: string, b: string)
    ensures Escape(a + b) == Escape(a) + Escape(b)
  {
    if |a| == 0 {
      assert a + b == b;
    } else {
      assert (a + b)[1..] == a[1..] + b;
      EscapeAppend(a[1..], b);
    }
  }

  /** Escaping introduces no star. */
  lemma {:induction false} EscapeStarFree(p: string)
    requires CountStars(p) == 0
    ensures '*' !in Escape(p)
  {
    if |p| > 0 {
      EscapeStarFree(p[1..]);
    }
  }

  lemma {:induction false} ReplaceAfterStarFree(x: string, y: string)
    requires '*' !in x
    ensures ReplaceFirstStar(x + y) == x + ReplaceFirstStar(y)
  {
    if |x| == 0 {
      assert x + y == y;
    } else {
      assert (x + y)[1..] == x[1..] + y;
      ReplaceAfterStarFree(x[1..], y);
    }
  }

  lemma TokenizeEscapedChar(c: char, rest: string)
    requires c != '*'
    ensures Tokenize(EscapeChar(c) + rest) == Prepend([Lit(c)], Tokenize(rest))
  {
    var x := EscapeChar(c) + rest;
    if IsMeta(c) {
      assert x[0] == '\\' && x[1] == c && x[2..] == rest;
    } else {
      assert x[0] == c && x[1..] == rest;
    }
  }

  lemma PrependTwice(a: seq<Token>, b: seq<Token>, o: Option<seq<Token>>)
    ensures Prepend(a, Prepend(b, o)) == Prepend(a + b, o)
  {
    match o
    case None =>
    case Some(ts) => assert a + (b + ts) == (a + b) + ts;
  }

  /** Escaped text tokenizes to the literal characters of the query, whatever follows. */
  lemma {:induction false} TokenizeEscaped(p: string, rest: string)
    requires CountStars(p) == 0
    ensures Tokenize(Escape(p) + rest) == Prepend(Lits(p), Tokenize(rest))
  {
    if |p| == 0 {
      assert Escape(p) + rest == rest;
      match Tokenize(rest)
      case None =>
      case Some(ts) => assert Lits(p) + ts == ts;
    } else {
      var tail := Escape(p[1..]) + rest;
      assert Escape(p) + rest == EscapeChar(p[0]) + tail;
      TokenizeEscapedChar(p[0], tail);
      TokenizeEscaped(p[1..], rest);
      PrependTwice([Lit(p[0])], Lits(p[1..]), Tokenize(rest));
      assert [Lit(p[0])] + Lits(p[1..]) == Lits(p);
    }
  }

  /** Escaped text followed by text of known tokens. */
  lemma TokenizeEscapedThen(p: string, rest: string, ts: seq<Token>)
    requires CountStars(p) == 0 && Tokenize(rest) == Some(ts)
    ensures Tokenize(Escape(p) + rest) == Some(Lits(p) + ts)
  {
    TokenizeEscaped(p, rest);
  }

  lemma TokenizeAnyRun(rest: string)
    ensures Tokenize(".*" + rest) == Prepend([AnyRun], Tokenize(rest))
  {
    assert (".*" + rest)[2..] == rest;
  }

  lemma TokenizeAnyRunThen(rest: string, ts: seq<Token>)
    requires Tokenize(rest) == Some(ts)
    ensures Tokenize(".*" + rest) == Some([AnyRun] + ts)
  {
    TokenizeAnyRun(rest);
  }

  lemma TokenizeTrailingRun()
    ensures Tokenize(".*") == Some([AnyRun])
  {
    TokenizeAnyRun("");
    assert ".*" + "" == ".*";
    assert [AnyRun] + [] == [AnyRun];
  }

  /** A query without a star searches for its own characters, each taken literally. */
  lemma SourceWithoutStar(q: string)
    requires CountStars(q) == 0
    ensures Tokenize(RegexSource(q)) == Some([AnyRun] + Lits(q) + [AnyRun])
  {
    EscapeStarFree(q);
    assert Escape(q) + "" == Escape(q);
    ReplaceAfterStarFree(Escape(q), "");
    var tail := Escape(q) + ".*";
    assert RegexSource(q) == ".*" + tail;
    TokenizeTrailingRun();
    TokenizeEscapedThen(q, ".*", [AnyRun]);
    TokenizeAnyRunThen(tail, Lits(q) + [AnyRun]);
    assert [AnyRun] + (Lits(q) + [AnyRun]) == [AnyRun] + Lits(q) + [AnyRun];
  }

  /** A star splits the escaped query into the escaped text around it. */
  lemma EscapeAroundStar(q: string, k: nat)
    requires k < |q| && q[k] == '*'
    ensures Escape(q) == Escape(q[..k]) + ("*" + Escape(q[k + 1..]))
  {
    var pre, suf := q[..k], q[k + 1..];
    SplitAtStar(q, k);
    EscapeAppend(pre, "*" + suf);
    EscapeStarThen(suf);
  }

  lemma SplitAtStar(q: string, k: nat)
    requires k < |q| && q[k] == '*'
    ensures q == q[..k] + ("*" + q[k + 1..])
  {
    assert q[k..] == "*" + q[k + 1..];
    assert q == q[..k] + q[k..];
  }

  /** A star is escaped as itself. */
  lemma EscapeStarThen(suf: string)
    ensures Escape("*" + suf) == "*" + Escape(suf)
  {
    EscapeAppend("*", suf);
    assert Escape("*") == "*";
  }

  lemma ReplaceStarHead(x: string)
    ensures ReplaceFirstStar("*" + x) == ".*" + x
  {
    assert ("*" + x)[1..] == x;
  }

  /** Escaping then replacing the first star turns the first star, and only it, into `.*`. */
  lemma ReplaceAtFirstStar(q: string, k: nat)
    requires k < |q| && q[k] == '*' && CountStars(q[..k]) == 0
    ensures ReplaceFirstStar(Escape(q)) == Escape(q[..k]) + (".*" + Escape(q[k + 1..]))
  {
    EscapeAroundStar(q, k);
    EscapeStarFree(q[..k]);
    ReplaceAfterStarFree(Escape(q[..k]), "*" + Escape(q[k + 1..]));
    ReplaceStarHead(Escape(q[k + 1..]));
  }

  lemma Regroup(r: string, a: string, b: string)
    ensures r + (a + (r + b)) + r == r + (a + (r + (b + r)))
  {
  }

  lemma OneStarParts(q: string, k: nat)
    requires CountStars(q) == 1 && k < |q| && q[k] == '*'
    ensures CountStars(q[..k]) == 0 && CountStars(q[k + 1..]) == 0
  {
    assert q == q[..k] + ("*" + q[k + 1..]);
    CountStarsAppend(q[..k], "*" + q[k + 1..]);
    CountStarsAppend("*", q[k + 1..]);
  }

  /** Tokens of the source text built around a star-free prefix and suffix. */
  lemma TokenizeOneStarText(pre: string, suf: string)
    requires CountStars(pre) == 0 && CountStars(suf) == 0
    ensures Tokenize(".*" + (Escape(pre) + (".*" + (Escape(suf) + ".*"))))
         == Some([AnyRun] + Lits(pre) + [AnyRun] + Lits(suf) + [AnyRun])
  {
    var t3 := Escape(suf) + ".*";
    var t2 := ".*" + t3;
    var t1 := Escape(pre) + t2;
    var ts3 := Lits(suf) + [AnyRun];
    var ts2 := [AnyRun] + ts3;
    var ts1 := Lits(pre) + ts2;
    TokenizeTrailingRun();
    TokenizeEscapedThen(suf, ".*", [AnyRun]);
    TokenizeAnyRunThen(t3, ts3);
    TokenizeEscapedThen(pre, t2, ts2);
    TokenizeAnyRunThen(t1, ts1);
    RegroupTokens(Lits(pre), Lits(suf));
  }

  lemma RegroupTokens(a: seq<Token>, b: seq<Token>)
    ensures [AnyRun] + (a + ([AnyRun] + (b + [AnyRun]))) == [AnyRun] + a + [AnyRun] + b + [AnyRun]
  {
  }

  /** A query with one star at `k` searches for its prefix, a wildcard run, then its suffix. */
  lemma SourceWithOneStar(q: string, k: nat)
    requires CountStars(q) == 1 && k < |q| && q[k] == '*'
    ensures Tokenize(RegexSource(q))
         == Some([AnyRun] + Lits(q[..k]) + [AnyRun] + Lits(q[k + 1..]) + [AnyRun])
  {
    OneStarParts(q, k);
    ReplaceAtFirstStar(q, k);
    Regroup(".*", Escape(q[..k]), Escape(q[k + 1..]));
    TokenizeOneStarText(q[..k], q[k + 1..]);
  }

  /** Text starting with a bare `*` is outside the dialect, whatever escaped text precedes it. */
  lemma TokenizeBareStar(p: string, rest: string)
    requires CountStars(p) == 0
    ensures Tokenize(Escape(p) + ("*" + rest)) == None
  {
    TokenizeEscaped(p, "*" + rest);
  }

  /** The source text of a query whose text after the first star holds another star. */
  lemma SourceManyStarsText(q: string, k: nat, m: nat)
    requires k < |q| && q[k] == '*' && CountStars(q[..k]) == 0
    requires m < |q[k + 1..]| && q[k + 1..][m] == '*'
    ensures RegexSource(q)
         == ".*" + (Escape(q[..k]) + (".*" + (Escape(q[k + 1..][..m]) + ("*" + (Escape(q[k + 1..][m + 1..]) + ".*")))))
  {
    ReplaceAtFirstStar(q, k);
    EscapeAroundStar(q[k + 1..], m);
    Regroup5(".*", Escape(q[..k]), Escape(q[k + 1..][..m]), Escape(q[k + 1..][m + 1..]));
  }

  lemma Regroup5(r: string, a: string, b: string, c: string)
    ensures r + (a + (r + (b + ("*" + c)))) + r == r + (a + (r + (b + ("*" + (c + r)))))
  {
  }

  /** A query with two or more stars has a quantifier the dialect does not contain. */
  lemma SourceWithManyStars(q: string)
    requires CountStars(q) >= 2
    ensures Tokenize(RegexSource(q)) == None
  {
    var k := FirstStar(q).value;
    var rest := q[k + 1..];
    var m := FirstStar(rest).value;
    SourceManyStarsText(q, k, m);
    var t3 := Escape(rest[..m]) + ("*" + (Escape(rest[m + 1..]) + ".*"));
    var t2 := ".*" + t3;
    var t1 := Escape(q[..k]) + t2;
    TokenizeBareStar(rest[..m], Escape(rest[m + 1..]) + ".*");
    TokenizeAnyRun(t3);
    TokenizeEscaped(q[..k], t2);
    TokenizeAnyRun(t1);
  }

  /**
    Escaping keeps every star, at most doubles the length, and leaves a
    query without metacharacters as it is.
   */
  lemma {:induction false} EscapeProperties(q: string)
    ensures CountStars(Escape(q)) == CountStars(q)
    ensures |q| <= |Escape(q)| <= 2 * |q|
    ensures (forall i :: 0 <= i < |q| ==> !IsMeta(q[i])) ==> Escape(q) == q
  {
    if |q| > 0 {
      EscapeProperties(q[1..]);
      CountStarsAppend(EscapeChar(q[0]), Escape(q[1..]));
      assert forall i :: 0 <= i < |q[1..]| ==> q[1..][i] == q[i + 1];
      assert q == [q[0]] + q[1..];
    }
  }

  /** Replacing changes the first star, if any, into `.*` and keeps everything else. */
  lemma ReplaceFirstStarAt(s: string)
    ensures FirstStar(s).None? ==> ReplaceFirstStar(s) == s
    ensures FirstStar(s).Some? ==>
      var k := FirstStar(s).value;
      ReplaceFirstStar(s) == s[..k] + ".*" + s[k + 1..]
  {
    match FirstStar(s)
    case None => ReplaceWithoutStar(s);
    case Some(k) => ReplaceAtStar(s, k);
  }

  lemma ReplaceWithoutStar(s: string)
    requires CountStars(s) == 0
    ensures ReplaceFirstStar(s) == s
  {
    NoStarCounted(s);
    assert s + "" == s;
    ReplaceAfterStarFree(s, "");
  }

  lemma ReplaceAtStar(s: string, k: nat)
    requires k < |s| && s[k] == '*' && CountStars(s[..k]) == 0
    ensures ReplaceFirstStar(s) == s[..k] + ".*" + s[k + 1..]
  {
    NoStarCounted(s[..k]);
    SplitAtStar(s, k);
    ReplaceAfterStarFree(s[..k], "*" + s[k + 1..]);
    ReplaceStarHead(s[k + 1..]);
  }

  /** A text with no star counted holds no star. */
  lemma {:induction false} NoStarCounted(p: string)
    requires CountStars(p) == 0
    ensures '*' !in p
  {
    if |p| > 0 {
      NoStarCounted(p[1..]);
      assert p == [p[0]] + p[1..];
    }
  }

  /**
    The source text is the escaped query between two wildcard runs, with
    its first star, when it has one, turned into a third run.
   */
  lemma RegexSourceShape(q: string)
    ensures RegexSource(q)[..2] == ".*" && RegexSource(q)[|RegexSource(q)| - 2..] == ".*"
    ensures CountStars(q) == 0 ==> RegexSource(q) == ".*" + Escape(q) + ".*"
    ensures FirstStar(q).Some? ==>
      var k := FirstStar(q).value;
      RegexSource(q) == ".*" + Escape(q[..k]) + ".*" + Escape(q[k + 1..]) + ".*"
  {
    match FirstStar(q)
    case None => SourceWithoutStarText(q);
    case Some(k) => SourceAtStarText(q, k);
  }

  lemma SourceWithoutStarText(q: string)
    requires CountStars(q) == 0
    ensures RegexSource(q) == ".*" + Escape(q) + ".*"
  {
    EscapeStarFree(q);
    assert Escape(q) + "" == Escape(q);
    ReplaceAfterStarFree(Escape(q), "");
  }

  lemma SourceAtStarText(q: string, k: nat)
    requires k < |q| && q[k] == '*' && CountStars(q[..k]) == 0
    ensures RegexSource(q) == ".*" + Escape(q[..k]) + ".*" + Escape(q[k + 1..]) + ".*"
  {
    ReplaceAtFirstStar(q, k);
  }

  /** The queries the model covers are exactly those with at most one star. */
  lemma CompileDefined(q: string)
    ensures Compile(q).Some? <==> CountStars(q) <= 1
  {
    if q == NullQuery {
      assert CountStars(q) == 0;
    } else if CountStars(q) == 0 {
      SourceWithoutStar(q);
    } else if CountStars(q) == 1 {
      SourceWithOneStar(q, FirstStar(q).value);
    } else {
      SourceWithManyStars(q);
    }
  }
}
