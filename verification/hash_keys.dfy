/**
  The name under which a column's query is kept in the URL fragment
  (`Filterable.filterHash`, dist/jquery.filterable.js lines 488-502),
  with a reader that recovers the table id and column from a name.
 */
module HashKeys {
  import opened Wrappers

  /** The table's `id` attribute: absent (`undefined`) or a string, possibly empty. */
  datatype IdAttr = NoId | Id(value: string)

  predicate IsDigit(ch: char) {
    '0' <= ch <= '9'
  }

  predicate AllDigits(s: string) {
    forall i :: 0 <= i < |s| ==> IsDigit(s[i])
  }

  /** The decimal form JavaScript gives a column index when it is concatenated to a string. */
  function Decimal(n: nat): (r: string)
    ensures |r| > 0 && AllDigits(r)
  {
    if n < 10 then [('0' as int + n) as char]
    else Decimal(n / 10) + [('0' as int + n % 10) as char]
  }

  /** The number a non-empty digit string stands for. */
  function ParseDecimal(s: string): nat
    requires |s| > 0 && AllDigits(s)
  {
    var last := s[|s| - 1] as int - '0' as int;
    if |s| == 1 then last else ParseDecimal(s[..|s| - 1]) * 10 + last
  }

  lemma {:induction false} DecimalRoundTrip(n: nat)
    ensures ParseDecimal(Decimal(n)) == n
  {
    if n >= 10 {
      var d := Decimal(n);
      assert d[..|d| - 1] == Decimal(n / 10);
      DecimalRoundTrip(n / 10);
    }
  }

  /** What string concatenation makes of the id attribute: `undefined` when it is absent. */
  function IdText(id: IdAttr): string {
    match id
    case NoId => "undefined"
    case Id(s) => s
  }

  /** The URL-fragment key of column `col` of a table. */
  function FilterHash(id: IdAttr, col: nat): (r: string)
    ensures id == NoId ==> r == "filter_undefined_" + Decimal(col)
    ensures id == Id("") ==> r == "filter__" + Decimal(col)
    ensures id.Id? ==> r == "filter_" + id.value + "_" + Decimal(col)
  {
    // `attr('id')` gives `undefined` for a table without id, and `undefined != ''` holds
    if id != Id("") then "filter_" + IdText(id) + "_" + Decimal(col)
    else "filter_" + "_" + Decimal(col)
  }

  /** Position of the last `_` of a string. */
  function LastUnderscore(s: string): (r: Option<nat>)
    ensures r.None? ==> forall i :: 0 <= i < |s| ==> s[i] != '_'
    ensures r.Some? ==> r.value < |s| && s[r.value] == '_'
    ensures r.Some? ==> forall i :: r.value < i < |s| ==> s[i] != '_'
  {
    if |s| == 0 then None
    else if s[|s| - 1] == '_' then Some(|s| - 1)
    else LastUnderscore(s[..|s| - 1])
  }

  /** Reads a key back into the table id text and the column index. */
  function ParseFilterHash(key: string): Option<(string, nat)>
  {
    if |key| < 7 || key[..7] != "filter_" then None
    else
      var rest := key[7..];
      match LastUnderscore(rest)
      case None => None
      case Some(u) =>
        var digits := rest[u + 1..];
        if |digits| > 0 && AllDigits(digits) then Some((rest[..u], ParseDecimal(digits))) else None
  }

  lemma LastUnderscoreBeforeDigits(s: string, d: string)
    requires AllDigits(d)
    ensures LastUnderscore(s + "_" + d) == Some(|s|)
  {
    var x := s + "_" + d;
    var r := LastUnderscore(x);
    assert x[|s|] == '_';
    assert r.Some?;
  }

  lemma ParseBuiltKey(s: string, d: string)
    requires |d| > 0 && AllDigits(d)
    ensures ParseFilterHash("filter_" + s + "_" + d) == Some((s, ParseDecimal(d)))
  {
    var key := "filter_" + s + "_" + d;
    var rest := s + "_" + d;
    assert key == "filter_" + rest;
    assert key[..7] == "filter_" && key[7..] == rest;
    LastUnderscoreBeforeDigits(s, d);
    assert rest[|s| + 1..] == d && rest[..|s|] == s;
  }

  /**
    A key names its table's id text and its column: reading it back
    gives both. Keys of one table therefore differ for different columns.
   */
  lemma FilterHashRoundTrip(id: IdAttr, col: nat)
    ensures ParseFilterHash(FilterHash(id, col)) == Some((IdText(id), col))
  {
    assert FilterHash(id, col) == "filter_" + IdText(id) + "_" + Decimal(col);
    ParseBuiltKey(IdText(id), Decimal(col));
    DecimalRoundTrip(col);
  }

  /** Two columns of one table never share a key. */
  lemma FilterHashInjective(id: IdAttr, c1: nat, c2: nat)
    requires FilterHash(id, c1) == FilterHash(id, c2)
    ensures c1 == c2
  {
    FilterHashRoundTrip(id, c1);
    FilterHashRoundTrip(id, c2);
  }

  /** A table without id shares its keys with a table whose id is the text `undefined`. */
  lemma AbsentIdReadsUndefined(col: nat)
    ensures FilterHash(NoId, col) == FilterHash(Id("undefined"), col)
  {
  }
}
