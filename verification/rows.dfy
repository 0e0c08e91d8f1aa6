/**
  Per-row filter state (`FilterableCell` and `FilterableRow`,
  dist/jquery.filterable.js lines 48-144 and 236-400): a row is a
  sequence of slots, one per `td`, each either an excluded column or a
  cell with its text and a three-state match flag.
 */
module Rows {
  import opened Wrappers
  import opened Columns
  import opened Matcher

  /** A filterable cell: its text, and its match flag (None until first filtered). */
  datatype Cell = Cell(text: string, matchFlag: Option<bool>)

  /**
    A filterable row. `rowMatch` is the row's match/mismatch marking,
    None until the row is first filtered.
   */
  datatype Row = Row(slots: seq<Option<Cell>>, rowMatch: Option<bool>)

  /** A slot that holds a cell whose flag is strictly false. */
  predicate Mismatched(s: Option<Cell>) {
    s.Some? && s.value.matchFlag == Some(false)
  }

  /** `hasMismatch`: some cell of the row is explicitly a mismatch. */
  function HasMismatch(slots: seq<Option<Cell>>): (r: bool)
    ensures r <==> exists i :: 0 <= i < |slots| && Mismatched(slots[i])
  {
    if |slots| == 0 then false
    else if Mismatched(slots[0]) then true
    else
      var rest := HasMismatch(slots[1..]);
      assert forall i :: 1 <= i < |slots| ==> slots[i] == slots[1..][i - 1];
      rest
  }

  /** Whether `filter(query, col)` can run on the row: `cells[col]` exists and is not null. */
  predicate CanFilter(r: Row, col: nat) {
    col < |r.slots| && r.slots[col].Some?
  }

  /**
    `FilterableRow.filter`: the cell at `col` stores whether it matches
    the query, then the row is marked with the negation of `hasMismatch`.
   */
  function FilterRow(r: Row, o: MatchOptions, q: string, col: nat): (r': Row)
    requires CanFilter(r, col) && Supported(o, q)
    ensures |r'.slots| == |r.slots| && CanFilter(r', col)
    ensures r'.slots[col] == Some(Cell(r.slots[col].value.text, Some(CellMatches(o, q, r.slots[col].value.text))))
    ensures forall i :: 0 <= i < |r.slots| && i != col ==> r'.slots[i] == r.slots[i]
    ensures r'.rowMatch == Some(forall i :: 0 <= i < |r'.slots| ==> !Mismatched(r'.slots[i]))
  {
    var cell := r.slots[col].value;
    var slots := r.slots[col := Some(Cell(cell.text, Some(CellMatches(o, q, cell.text))))];
    Row(slots, Some(!HasMismatch(slots)))
  }

  /** The slots of a new row for the first `n` cell texts: null exactly at the ignored columns. */
  function NewSlots(tds: seq<string>, p: ColumnPolicy, n: nat): (r: seq<Option<Cell>>)
    requires n <= |tds|
    ensures |r| == n
    ensures forall i :: 0 <= i < n ==> (r[i].None? <==> Ignored(p, i))
    ensures forall i :: 0 <= i < n && r[i].Some? ==> r[i].value == Cell(tds[i], None)
  {
    if n == 0 then []
    else NewSlots(tds, p, n - 1) + [if Ignored(p, n - 1) then None else Some(Cell(tds[n - 1], None))]
  }

  /** `FilterableRow.init`: one slot per `td`, in order, none of them filtered yet. */
  function NewRow(tds: seq<string>, p: ColumnPolicy): (r: Row)
    ensures |r.slots| == |tds| && r.rowMatch == None
    ensures forall i :: 0 <= i < |tds| ==> (r.slots[i].None? <==> Ignored(p, i))
    ensures forall i :: 0 <= i < |tds| && r.slots[i].Some? ==> r.slots[i].value == Cell(tds[i], None)
    ensures !HasMismatch(r.slots)
  {
    Row(NewSlots(tds, p, |tds|), None)
  }

  /** Two rows with the same slots empty and the same text in every cell; flags and markings may differ. */
  predicate SameCells(a: Row, b: Row) {
    && |a.slots| == |b.slots|
    && forall i :: 0 <= i < |a.slots| ==>
         && (a.slots[i].None? <==> b.slots[i].None?)
         && (a.slots[i].Some? && b.slots[i].Some? ==> a.slots[i].value.text == b.slots[i].value.text)
  }

  lemma SameCellsTrans(a: Row, b: Row, c: Row)
    requires SameCells(a, b) && SameCells(b, c)
    ensures SameCells(a, c)
  {
  }

  /** Filtering changes only flags and the marking: the slots and texts stay, and the row is marked. */
  lemma FilterRowKeepsCells(r: Row, o: MatchOptions, q: string, col: nat)
    requires CanFilter(r, col) && Supported(o, q)
    ensures SameCells(FilterRow(r, o, q, col), r)
    ensures FilterRow(r, o, q, col).rowMatch.Some?
  {
  }

  /** Filtering a row twice with the same query changes nothing the second time. */
  lemma FilterRowIdempotent(r: Row, o: MatchOptions, q: string, col: nat)
    requires CanFilter(r, col) && Supported(o, q)
    ensures FilterRow(FilterRow(r, o, q, col), o, q, col) == FilterRow(r, o, q, col)
  {
    var r1 := FilterRow(r, o, q, col);
    var r2 := FilterRow(r1, o, q, col);
    assert r2.slots == r1.slots;
  }

  /** Filters on two different columns of a row give the same row in either order. */
  lemma FilterRowCommutes(r: Row, o: MatchOptions, q1: string, c1: nat, q2: string, c2: nat)
    requires CanFilter(r, c1) && CanFilter(r, c2) && c1 != c2
    requires Supported(o, q1) && Supported(o, q2)
    ensures FilterRow(FilterRow(r, o, q1, c1), o, q2, c2) == FilterRow(FilterRow(r, o, q2, c2), o, q1, c1)
  {
    var a := FilterRow(FilterRow(r, o, q1, c1), o, q2, c2);
    var b := FilterRow(FilterRow(r, o, q2, c2), o, q1, c1);
    assert a.slots == b.slots;
  }

  /** The first filter of a fresh row marks the row exactly as its one filtered cell. */
  lemma FirstFilterMarksRow(tds: seq<string>, p: ColumnPolicy, o: MatchOptions, q: string, col: nat)
    requires col < |tds| && !Ignored(p, col) && Supported(o, q)
    ensures CanFilter(NewRow(tds, p), col)
    ensures FilterRow(NewRow(tds, p), o, q, col).rowMatch == Some(CellMatches(o, q, tds[col]))
  {
    var r' := FilterRow(NewRow(tds, p), o, q, col);
    assert Mismatched(r'.slots[col]) <==> !CellMatches(o, q, tds[col]);
  }

  /**
    The aggregation examples: a row whose cells are matched, mismatched and
    excluded has a mismatch; one whose cells are matched, unfiltered and
    excluded has none.
   */
  lemma AggregationExamples()
    ensures HasMismatch([Some(Cell("a", Some(true))), Some(Cell("b", Some(false))), None])
    ensures !HasMismatch([Some(Cell("a", Some(true))), Some(Cell("b", None)), None])
  {
    assert Mismatched([Some(Cell("a", Some(true))), Some(Cell("b", Some(false))), None][1]);
  }
}
