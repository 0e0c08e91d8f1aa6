/**
  The table controller (`Filterable`, dist/jquery.filterable.js lines
  443-871): lazy row collection, the per-column filter sweep and query
  registry, autocomplete values, the guard run on a URL-fragment change,
  and the initial filters applied at start-up.
 */
module Tables {
  import opened Wrappers
  import opened Columns
  import opened Matcher
  import opened Rows
  import opened HashKeys

  /** The options the controller reads. */
  datatype Config = Config(policy: ColumnPolicy, matching: MatchOptions, useHash: bool)

  /**
    A filterable table. `trs` holds the `td` texts of every `tr` under the
    table's sections in document order; the first is the header row.
    `columns` is the number of header cells. `rows` is None until rows are
    first needed; `queries` maps a column to the last query applied to it.
   */
  datatype Table = Table(
    id: IdAttr,
    config: Config,
    columns: nat,
    trs: seq<seq<string>>,
    rows: Option<seq<Row>>,
    queries: map<nat, string>)

  /**
    The result of an operation that may stop with a TypeError: `Thrown`
    keeps the state reached when the error was raised, and the index of
    the data row whose cell could not be read.
   */
  datatype Outcome = Done(table: Table) | Thrown(table: Table, failedRow: nat)

  /** `initRows`: every `tr` but the first becomes a data row. */
  function DataRows(trs: seq<seq<string>>, p: ColumnPolicy): (rows: seq<Row>)
    ensures |rows| == if |trs| == 0 then 0 else |trs| - 1
    ensures forall j :: 0 <= j < |rows| ==> rows[j] == NewRow(trs[j + 1], p)
  {
    if |trs| <= 1 then []
    else DataRows(trs[..|trs| - 1], p) + [NewRow(trs[|trs| - 1], p)]
  }

  /** The data rows, collected now if they have not been yet. */
  function RowsOf(t: Table): seq<Row> {
    if t.rows.Some? then t.rows.value else DataRows(t.trs, t.config.policy)
  }

  /**
    `row.filter(query, col)` on rows `i..` in order. The second component
    is the index of the first row whose cell at `col` is missing, where the
    sweep stops with a TypeError.
   */
  function SweepFrom(rows: seq<Row>, o: MatchOptions, q: string, col: nat, i: nat): (r: (seq<Row>, Option<nat>))
    requires i <= |rows| && Supported(o, q)
    decreases |rows| - i
    ensures |r.0| == |rows|
    ensures r.1.None? ==> forall j :: i <= j < |rows| ==> CanFilter(rows[j], col)
    ensures r.1.Some? ==> i <= r.1.value < |rows| && !CanFilter(rows[r.1.value], col)
    ensures r.1.Some? ==> forall j :: i <= j < r.1.value ==> CanFilter(rows[j], col)
    ensures forall j :: 0 <= j < |rows| ==>
              r.0[j] == if i <= j < r.1.GetOr(|rows|) then FilterRow(rows[j], o, q, col) else rows[j]
  {
    if i == |rows| then (rows, None)
    else if !CanFilter(rows[i], col) then (rows, Some(i))
    else
      var rows' := rows[i := FilterRow(rows[i], o, q, col)];
      assert forall j :: i < j < |rows| ==> rows'[j] == rows[j];
      SweepFrom(rows', o, q, col, i + 1)
  }

  /**
    `Filterable.filter`: every data row is filtered at `col`, in order,
    and then `col`'s query is recorded. A row without a cell at `col`
    raises a TypeError: the rows before it stay filtered, the registry is
    not touched.
   */
  function Filter(t: Table, q: string, col: nat): (r: Outcome)
    requires Supported(t.config.matching, q)
    ensures r.table.id == t.id && r.table.config == t.config
    ensures r.table.columns == t.columns && r.table.trs == t.trs
    ensures r.table.rows.Some? && |r.table.rows.value| == |RowsOf(t)|
    ensures r.Done? <==> forall j :: 0 <= j < |RowsOf(t)| ==> CanFilter(RowsOf(t)[j], col)
    ensures r.Done? ==> forall j :: 0 <= j < |RowsOf(t)| ==>
              r.table.rows.value[j] == FilterRow(RowsOf(t)[j], t.config.matching, q, col)
    ensures r.Done? ==> (forall k :: k in r.table.queries <==> k in t.queries || k == col) && r.table.queries[col] == q
    ensures r.Done? ==> forall k :: k in t.queries && k != col ==> r.table.queries[k] == t.queries[k]
    ensures r.Thrown? ==> r.table.queries == t.queries
    ensures r.Thrown? ==> r.failedRow < |RowsOf(t)| && !CanFilter(RowsOf(t)[r.failedRow], col)
    ensures r.Thrown? ==> forall j :: 0 <= j < r.failedRow ==> CanFilter(RowsOf(t)[j], col)
    ensures r.Thrown? ==> forall j :: 0 <= j < |RowsOf(t)| ==>
              r.table.rows.value[j]
              == if j < r.failedRow then FilterRow(RowsOf(t)[j], t.config.matching, q, col) else RowsOf(t)[j]
  {
    var (rows, failed) := SweepFrom(RowsOf(t), t.config.matching, q, col, 0);
    match failed
    case None => Done(t.(rows := Some(rows), queries := t.queries[col := q]))
    case Some(k) => Thrown(t.(rows := Some(rows)), k)
  }

  // ---------------------------------------------------------------------
  // The state the controller keeps consistent

  /** The flag a cell at `col` should carry given the registry. */
  function Expected(o: MatchOptions, queries: map<nat, string>, col: nat, text: string): Option<bool>
  {
    if col in queries && Supported(o, queries[col]) then Some(CellMatches(o, queries[col], text)) else None
  }

  /** Every cell carries the result of its column's recorded query, and the row's marking agrees. */
  ghost predicate RowConsistent(r: Row, o: MatchOptions, queries: map<nat, string>) {
    && (forall i :: 0 <= i < |r.slots| && r.slots[i].Some? ==>
          r.slots[i].value.matchFlag == Expected(o, queries, i, r.slots[i].value.text))
    && (r.rowMatch.Some? ==> r.rowMatch.value == !HasMismatch(r.slots))
  }

  ghost predicate Consistent(t: Table) {
    && (forall c :: c in t.queries ==> Supported(t.config.matching, t.queries[c]))
    && (t.rows.None? ==> t.queries == map[])
    && (forall j :: 0 <= j < |RowsOf(t)| ==> RowConsistent(RowsOf(t)[j], t.config.matching, t.queries))
  }

  /**
    The rows in use are the data rows of `trs`: as many, each with the
    same empty slots and the same cell texts. Filtering changes only
    flags and markings, so none of the operations below drops, adds or
    rewrites a row.
   */
  ghost predicate RowsHoldCells(t: Table) {
    var data := DataRows(t.trs, t.config.policy);
    && |RowsOf(t)| == |data|
    && forall j :: 0 <= j < |data| ==> SameCells(RowsOf(t)[j], data[j])
  }

  /** Once a query has been recorded, every row carries a match marking. */
  ghost predicate RowsMarked(t: Table) {
    t.queries != map[] ==> forall j :: 0 <= j < |RowsOf(t)| ==> RowsOf(t)[j].rowMatch.Some?
  }

  /** A filter, complete or stopped by a TypeError, keeps the data rows and their markings. */
  lemma FilterKeepsRows(t: Table, q: string, col: nat)
    requires Supported(t.config.matching, q)
    ensures RowsHoldCells(t) ==> RowsHoldCells(Filter(t, q, col).table)
    ensures RowsMarked(t) ==> RowsMarked(Filter(t, q, col).table)
  {
    var o := t.config.matching;
    var r := Filter(t, q, col);
    var t' := r.table;
    assert RowsOf(t') == t'.rows.value;
    var data := DataRows(t.trs, t.config.policy);
    forall j | 0 <= j < |RowsOf(t)|
      ensures SameCells(RowsOf(t')[j], RowsOf(t)[j])
      ensures r.Done? || j < r.failedRow ==> RowsOf(t')[j].rowMatch.Some?
    {
      if r.Done? || j < r.failedRow {
        FilterRowKeepsCells(RowsOf(t)[j], o, q, col);
      }
    }
    if RowsHoldCells(t) {
      forall j | 0 <= j < |data|
        ensures SameCells(RowsOf(t')[j], data[j])
      {
        SameCellsTrans(RowsOf(t')[j], RowsOf(t)[j], data[j]);
      }
    }
  }

  /** No data row lacks a cell at column `c`, so a filter of `c` raises no TypeError. */
  predicate AllHaveCell(t: Table, c: nat) {
    forall j :: 0 <= j < |RowsOf(t)| ==> CanFilter(RowsOf(t)[j], c)
  }

  /** A filter, complete or not, never changes which cells exist. */
  lemma FilterKeepsCellSlots(t: Table, q: string, col: nat, c: nat)
    requires Supported(t.config.matching, q)
    ensures AllHaveCell(Filter(t, q, col).table, c) <==> AllHaveCell(t, c)
  {
    var r := Filter(t, q, col);
    var t' := r.table;
    assert RowsOf(t') == t'.rows.value;
    forall j | 0 <= j < |RowsOf(t)|
      ensures CanFilter(RowsOf(t')[j], c) <==> CanFilter(RowsOf(t)[j], c)
    {
      if r.Done? || j < r.failedRow {
        FilterRowKeepsCells(RowsOf(t)[j], t.config.matching, q, col);
      }
    }
  }

  /**
    For rows that are the data rows of `trs`, every row has a cell at `c`
    exactly when the column is not ignored and every `tr` after the first
    has a `td` there, or when there is no data row at all.
   */
  lemma CellsReachColumn(t: Table, c: nat)
    requires RowsHoldCells(t)
    ensures AllHaveCell(t, c) <==> forall j :: 1 <= j < |t.trs| ==> c < |t.trs[j]| && !Ignored(t.config.policy, c)
  {
    var data := DataRows(t.trs, t.config.policy);
    forall j | 0 <= j < |data|
      ensures CanFilter(RowsOf(t)[j], c) <==> c < |t.trs[j + 1]| && !Ignored(t.config.policy, c)
    {
      assert SameCells(RowsOf(t)[j], data[j]);
    }
    if AllHaveCell(t, c) {
      forall j | 1 <= j < |t.trs|
        ensures c < |t.trs[j]| && !Ignored(t.config.policy, c)
      {
        assert CanFilter(RowsOf(t)[j - 1], c);
      }
    }
  }

  lemma FreshRowsConsistent(t: Table)
    requires t.rows.None?
    ensures forall j :: 0 <= j < |RowsOf(t)| ==> RowConsistent(RowsOf(t)[j], t.config.matching, map[])
  {
  }

  /** A filter that completes keeps every cell in agreement with the registry. */
  lemma FilterPreservesConsistent(t: Table, q: string, col: nat)
    requires Consistent(t) && Supported(t.config.matching, q)
    requires Filter(t, q, col).Done?
    ensures Consistent(Filter(t, q, col).table)
  {
    var o := t.config.matching;
    var t' := Filter(t, q, col).table;
    if t.rows.None? {
      FreshRowsConsistent(t);
    }
    forall j | 0 <= j < |RowsOf(t')|
      ensures RowConsistent(RowsOf(t')[j], o, t'.queries)
    {
      var r, r' := RowsOf(t)[j], RowsOf(t')[j];
      assert RowConsistent(r, o, t.queries);
      forall i | 0 <= i < |r'.slots| && r'.slots[i].Some?
        ensures r'.slots[i].value.matchFlag == Expected(o, t'.queries, i, r'.slots[i].value.text)
      {
        if i != col {
          assert r'.slots[i] == r.slots[i];
        }
      }
    }
  }

  /**
    Filtering a column twice with the same query leaves every flag and the
    registry as the first time did, whether the first filter completed or
    stopped at a TypeError: the second one then stops at the same row.
   */
  lemma FilterIdempotent(t: Table, q: string, col: nat)
    requires Supported(t.config.matching, q)
    ensures Filter(Filter(t, q, col).table, q, col) == Filter(t, q, col)
  {
    var o := t.config.matching;
    var r1 := Filter(t, q, col);
    var t1 := r1.table;
    var t2 := Filter(t1, q, col);
    assert RowsOf(t1) == t1.rows.value;
    var stop := if r1.Done? then |RowsOf(t)| else r1.failedRow;
    forall j | 0 <= j < stop
      ensures CanFilter(RowsOf(t1)[j], col)
      ensures FilterRow(RowsOf(t1)[j], o, q, col) == RowsOf(t1)[j]
    {
      FilterRowIdempotent(RowsOf(t)[j], o, q, col);
    }
    if r1.Done? {
      assert t2.Done?;
      assert t2.table.rows.value == t1.rows.value;
      assert t2.table.queries == t1.queries;
    } else {
      assert RowsOf(t1)[stop] == RowsOf(t)[stop];
      assert !CanFilter(RowsOf(t1)[stop], col);
      assert t2.Thrown?;
      IdempotentStop(t1, q, col, stop, t2);
      assert t2.table.rows.value == t1.rows.value;
      SameTable(t2.table, t1);
    }
  }

  /** A sweep that stops at `stop` after rows a filter leaves as they are stops there and changes nothing. */
  lemma IdempotentStop(t1: Table, q: string, col: nat, stop: nat, t2: Outcome)
    requires Supported(t1.config.matching, q) && t2 == Filter(t1, q, col)
    requires t1.rows.Some? && stop < |t1.rows.value| && !CanFilter(t1.rows.value[stop], col)
    requires forall j :: 0 <= j < stop ==>
               CanFilter(t1.rows.value[j], col) && FilterRow(t1.rows.value[j], t1.config.matching, q, col) == t1.rows.value[j]
    ensures t2.Thrown? && t2.failedRow == stop && t2.table.rows.value == t1.rows.value
  {
    assert RowsOf(t1) == t1.rows.value;
  }

  /**
    Filters on two different columns give the same table in either order:
    the columns filter jointly, not one after the other.
   */
  lemma FilterCommutes(t: Table, q1: string, c1: nat, q2: string, c2: nat)
    requires c1 != c2
    requires Supported(t.config.matching, q1) && Supported(t.config.matching, q2)
    requires Filter(t, q1, c1).Done? && Filter(t, q2, c2).Done?
    ensures Filter(Filter(t, q1, c1).table, q2, c2) == Filter(Filter(t, q2, c2).table, q1, c1)
  {
    FilterTwice(t, q1, c1, q2, c2);
    FilterTwice(t, q2, c2, q1, c1);
    var a := Filter(Filter(t, q1, c1).table, q2, c2).table;
    var b := Filter(Filter(t, q2, c2).table, q1, c1).table;
    assert a.rows.value == b.rows.value by {
      forall j | 0 <= j < |RowsOf(t)|
        ensures a.rows.value[j] == b.rows.value[j]
      {
        FilterRowCommutes(RowsOf(t)[j], t.config.matching, q1, c1, q2, c2);
      }
    }
    assert a.queries == b.queries by {
      UpdatesCommute(t.queries, c1, q1, c2, q2);
    }
    SameTable(a, b);
  }

  lemma UpdatesCommute(m: map<nat, string>, c1: nat, q1: string, c2: nat, q2: string)
    requires c1 != c2
    ensures m[c1 := q1][c2 := q2] == m[c2 := q2][c1 := q1]
  {
  }

  lemma SameTable(a: Table, b: Table)
    requires a.id == b.id && a.config == b.config && a.columns == b.columns && a.trs == b.trs
    requires a.rows == b.rows && a.queries == b.queries
    ensures a == b
  {
  }

  /** What two completed filters in a row leave. */
  lemma FilterTwice(t: Table, q1: string, c1: nat, q2: string, c2: nat)
    requires Supported(t.config.matching, q1) && Supported(t.config.matching, q2)
    requires Filter(t, q1, c1).Done? && Filter(t, q2, c2).Done?
    ensures var r := Filter(Filter(t, q1, c1).table, q2, c2);
      && r.Done?
      && r.table.id == t.id && r.table.config == t.config && r.table.columns == t.columns && r.table.trs == t.trs
      && r.table.rows.Some? && |r.table.rows.value| == |RowsOf(t)|
      && (forall j :: 0 <= j < |RowsOf(t)| ==>
            r.table.rows.value[j]
            == FilterRow(FilterRow(RowsOf(t)[j], t.config.matching, q1, c1), t.config.matching, q2, c2))
      && r.table.queries == t.queries[c1 := q1][c2 := q2]
  {
    var o := t.config.matching;
    var t1 := Filter(t, q1, c1).table;
    assert RowsOf(t1) == t1.rows.value;
    forall j | 0 <= j < |RowsOf(t1)|
      ensures CanFilter(RowsOf(t1)[j], c2)
    {
      assert RowsOf(t1)[j] == FilterRow(RowsOf(t)[j], o, q1, c1);
      assert CanFilter(RowsOf(t)[j], c2);
    }
    assert Filter(t1, q2, c2).Done?;
  }

  /**
    In a consistent table a row has a mismatch exactly when one of its
    cells fails the query recorded for that cell's column.
   */
  lemma MismatchMeansSomeQueryFails(t: Table, j: nat)
    requires Consistent(t) && j < |RowsOf(t)|
    ensures var r := RowsOf(t)[j];
      HasMismatch(r.slots)
      <==> exists i :: 0 <= i < |r.slots| && r.slots[i].Some? && i in t.queries
             && !CellMatches(t.config.matching, t.queries[i], r.slots[i].value.text)
  {
    var r := RowsOf(t)[j];
    assert RowConsistent(r, t.config.matching, t.queries);
  }

  /**
    A table of a header and three data rows of three cells whose second
    column is ignored: filtering the first column with `joh*` marks the
    rows John, Johnny and Mark as matching, matching and mismatching.
   */
  lemma NamesScenario(t: Table)
    requires t.rows.None? && t.config.policy == ColumnPolicy([1], None) && t.config.matching == DefaultMatchOptions
    requires |t.trs| == 4 && forall j :: 0 <= j < 4 ==> |t.trs[j]| == 3
    requires t.trs[1][0] == "John" && t.trs[2][0] == "Johnny" && t.trs[3][0] == "Mark"
    ensures var r := Filter(t, "joh*", 0);
      && r.Done?
      && |r.table.rows.value| == 3
      && r.table.rows.value[0].rowMatch == Some(true)
      && r.table.rows.value[1].rowMatch == Some(true)
      && r.table.rows.value[2].rowMatch == Some(false)
  {
    var o := t.config.matching;
    assert !Ignored(t.config.policy, 0);
    NamesCells(o, t.trs[1][0], t.trs[2][0], t.trs[3][0]);
    FirstFilterMarksRows(t, "joh*", 0);
  }

  lemma NamesCells(o: MatchOptions, a: string, b: string, c: string)
    requires o == DefaultMatchOptions && a == "John" && b == "Johnny" && c == "Mark"
    ensures Supported(o, "joh*")
    ensures CellMatches(o, "joh*", a) && CellMatches(o, "joh*", b) && !CellMatches(o, "joh*", c)
  {
    JohnQueryExamples();
  }

  /** The first filter of a table marks every data row exactly as its cell in the filtered column. */
  lemma FirstFilterMarksRows(t: Table, q: string, col: nat)
    requires t.rows.None? && !Ignored(t.config.policy, col) && Supported(t.config.matching, q)
    requires forall j :: 1 <= j < |t.trs| ==> col < |t.trs[j]|
    ensures Filter(t, q, col).Done?
    ensures |Filter(t, q, col).table.rows.value| == |DataRows(t.trs, t.config.policy)|
    ensures forall j :: 0 <= j < |Filter(t, q, col).table.rows.value| ==>
              Filter(t, q, col).table.rows.value[j].rowMatch == Some(CellMatches(t.config.matching, q, t.trs[j + 1][col]))
  {
    forall j | 0 <= j < |RowsOf(t)|
      ensures CanFilter(RowsOf(t)[j], col)
      ensures FilterRow(RowsOf(t)[j], t.config.matching, q, col).rowMatch
              == Some(CellMatches(t.config.matching, q, t.trs[j + 1][col]))
    {
      FirstFilterMarksRow(t.trs[j + 1], t.config.policy, t.config.matching, q, col);
    }
  }

  // ---------------------------------------------------------------------
  // Autocomplete values

  /** A row contributes its text when it has no mismatch. */
  predicate Eligible(r: Row) {
    !HasMismatch(r.slots)
  }

  /**
    The texts at `col` of the eligible rows `i..`, added to `acc` unless
    already present. None when an eligible row has no cell at `col`.
   */
  function CollectFrom(rows: seq<Row>, col: nat, i: nat, acc: seq<string>): (r: Option<seq<string>>)
    requires i <= |rows|
    decreases |rows| - i
    ensures r.None? <==> exists j :: i <= j < |rows| && Eligible(rows[j]) && !CanFilter(rows[j], col)
    ensures r.Some? && NoDuplicates(acc) ==> NoDuplicates(r.value)
    ensures r.Some? ==> forall v :: v in r.value <==>
              v in acc || exists j :: i <= j < |rows| && Eligible(rows[j]) && rows[j].slots[col].value.text == v
  {
    if i == |rows| then Some(acc)
    else if !Eligible(rows[i]) then CollectFrom(rows, col, i + 1, acc)
    else if !CanFilter(rows[i], col) then None
    else
      var v := rows[i].slots[col].value.text;
      CollectFrom(rows, col, i + 1, if v in acc then acc else acc + [v])
  }

  /**
    `autocompleteValues`: the distinct texts at `col` of the rows without
    a mismatch, with the rows collected on the way if need be.
   */
  function AutocompleteValues(t: Table, col: nat): (r: (Table, Option<seq<string>>))
    ensures r.0 == t.(rows := Some(RowsOf(t)))
    ensures r.1.None? <==> exists j :: 0 <= j < |RowsOf(t)| && Eligible(RowsOf(t)[j]) && !CanFilter(RowsOf(t)[j], col)
    ensures r.1.Some? ==> NoDuplicates(r.1.value)
    ensures r.1.Some? ==> forall v :: v in r.1.value <==>
              exists j :: 0 <= j < |RowsOf(t)| && Eligible(RowsOf(t)[j]) && RowsOf(t)[j].slots[col].value.text == v
  {
    (t.(rows := Some(RowsOf(t))), CollectFrom(RowsOf(t), col, 0, []))
  }

  /**
    In a consistent table the suggestions for a column are the texts of
    the rows that pass every recorded query, on every column at once.
   */
  lemma SuggestionsPassEveryFilter(t: Table, col: nat, v: string)
    requires Consistent(t)
    requires AutocompleteValues(t, col).1.Some?
    ensures v in AutocompleteValues(t, col).1.value
        <==> exists j :: 0 <= j < |RowsOf(t)| && PassesAll(RowsOf(t)[j], t.config.matching, t.queries)
               && CanFilter(RowsOf(t)[j], col) && RowsOf(t)[j].slots[col].value.text == v
  {
    forall j | 0 <= j < |RowsOf(t)|
      ensures Eligible(RowsOf(t)[j]) <==> PassesAll(RowsOf(t)[j], t.config.matching, t.queries)
    {
      MismatchMeansSomeQueryFails(t, j);
    }
  }

  /** Every cell of the row matches the query recorded for its column. */
  predicate PassesAll(r: Row, o: MatchOptions, queries: map<nat, string>) {
    forall i :: 0 <= i < |r.slots| && r.slots[i].Some? && i in queries && Supported(o, queries[i]) ==>
      CellMatches(o, queries[i], r.slots[i].value.text)
  }

  // ---------------------------------------------------------------------
  // URL-fragment changes

  /** `getState(key) || ''`: the query the fragment holds under a key. */
  function HashQuery(hash: map<string, string>, key: string): string {
    if key in hash then hash[key] else ""
  }

  /**
    The queries the fragment holds under the keys of a table's filterable
    columns are covered by the model; no other entry is ever read.
   */
  predicate FragmentSupported(id: IdAttr, o: MatchOptions, p: ColumnPolicy, columns: nat, hash: map<string, string>) {
    forall c: nat {:trigger Supported(o, HashQuery(hash, FilterHash(id, c)))} ::
      c < columns && !Ignored(p, c) ==> Supported(o, HashQuery(hash, FilterHash(id, c)))
  }

  predicate TableFragmentSupported(t: Table, hash: map<string, string>) {
    FragmentSupported(t.id, t.config.matching, t.config.policy, t.columns, hash)
  }

  /** Start-up reads the fragment only when `useHash` is set. */
  predicate StartFragmentSupported(t: Table, hash: map<string, string>) {
    t.config.useHash ==> TableFragmentSupported(t, hash)
  }

  /**
    The handler reads the fragment only for filterable columns with a
    recorded query; those queries are covered by the model.
   */
  predicate HandlerFragmentSupported(t: Table, hash: map<string, string>) {
    forall c: nat {:trigger Supported(t.config.matching, HashQuery(hash, FilterHash(t.id, c)))} ::
      c < t.columns && !Ignored(t.config.policy, c) && c in t.queries ==>
      Supported(t.config.matching, HashQuery(hash, FilterHash(t.id, c)))
  }

  /** A filter keeps a consistent table consistent when it completes. */
  lemma FilterKeepsConsistent(t: Table, q: string, col: nat)
    requires Supported(t.config.matching, q)
    ensures Consistent(t) && Filter(t, q, col).Done? ==> Consistent(Filter(t, q, col).table)
  {
    if Consistent(t) && Filter(t, q, col).Done? {
      FilterPreservesConsistent(t, q, col);
    }
  }

  /**
    `hashChange` for one column: the fragment's query is applied only when
    the column already has a recorded query and the two differ.
   */
  function HashChange(t: Table, col: nat, hash: map<string, string>): (r: Outcome)
    requires col in t.queries ==> Supported(t.config.matching, HashQuery(hash, FilterHash(t.id, col)))
    ensures r.table.id == t.id && r.table.config == t.config && r.table.columns == t.columns
    ensures r.table.trs == t.trs
    ensures r.table.queries.Keys == t.queries.Keys
    ensures col !in t.queries ==> r == Done(t)
    ensures col in t.queries && HashQuery(hash, FilterHash(t.id, col)) == t.queries[col] ==> r == Done(t)
    ensures col in t.queries && HashQuery(hash, FilterHash(t.id, col)) != t.queries[col] ==>
              r == Filter(t, HashQuery(hash, FilterHash(t.id, col)), col)
    ensures col in t.queries && r.Done? ==> r.table.queries[col] == HashQuery(hash, FilterHash(t.id, col))
    ensures forall k :: k in t.queries && k != col ==> r.table.queries[k] == t.queries[k]
    ensures Consistent(t) && r.Done? ==> Consistent(r.table)
    ensures RowsHoldCells(t) ==> RowsHoldCells(r.table)
    ensures RowsMarked(t) ==> RowsMarked(r.table)
  {
    var q := HashQuery(hash, FilterHash(t.id, col));
    if col !in t.queries || q == t.queries[col] then Done(t)
    else
      FilterKeepsConsistent(t, q, col);
      FilterKeepsRows(t, q, col);
      Filter(t, q, col)
  }

  /** Once a fragment change has been applied, the same change again does nothing. */
  lemma HashChangeSettles(t: Table, col: nat, hash: map<string, string>)
    requires col in t.queries ==> Supported(t.config.matching, HashQuery(hash, FilterHash(t.id, col)))
    requires HashChange(t, col, hash).Done?
    ensures HashChange(HashChange(t, col, hash).table, col, hash) == HashChange(t, col, hash)
  {
  }

  /** Whether the `hashchange` handler visits column `c` when it starts at `from`. */
  predicate Visited(t: Table, from: nat, c: nat) {
    from <= c < t.columns && !Ignored(t.config.policy, c)
  }

  /**
    The `hashchange` handler: `hashChange` for every filterable column
    `from..`, in order. When it completes, every visited column that had a
    recorded query holds the fragment's query, every other record is as it
    was, and a consistent table stays consistent.
   */
  function HashChangeFrom(t: Table, hash: map<string, string>, from: nat): (r: Outcome)
    requires HandlerFragmentSupported(t, hash)
    decreases t.columns - from
    ensures r.table.id == t.id && r.table.config == t.config && r.table.columns == t.columns
    ensures r.table.trs == t.trs
    ensures r.table.queries.Keys == t.queries.Keys
    ensures r.Done? ==> forall c :: c in t.queries && Visited(t, from, c) ==>
              r.table.queries[c] == HashQuery(hash, FilterHash(t.id, c))
    ensures r.Done? ==> forall c :: c in t.queries && !Visited(t, from, c) ==> r.table.queries[c] == t.queries[c]
    ensures Consistent(t) && r.Done? ==> Consistent(r.table)
    ensures RowsHoldCells(t) ==> RowsHoldCells(r.table)
    ensures RowsMarked(t) ==> RowsMarked(r.table)
    ensures r.Done? <==> HandlerCellsExist(t, hash, from)
  {
    if from >= t.columns then Done(t)
    else if Ignored(t.config.policy, from) then
      assert forall c: nat :: Visited(t, from, c) <==> Visited(t, from + 1, c);
      HashChangeFrom(t, hash, from + 1)
    else match HashChange(t, from, hash)
      case Thrown(t', k) =>
        HandlerStepCells(t, hash, from);
        Thrown(t', k)
      case Done(t') =>
        VisitedShift(t, t', hash, from);
        HandlerShift(t, hash, from);
        HashChangeFrom(t', hash, from + 1)
  }

  /** Whether the handler filters column `c`: it has a recorded query and the fragment holds a different one. */
  predicate Refiltered(t: Table, hash: map<string, string>, c: nat) {
    c in t.queries && HashQuery(hash, FilterHash(t.id, c)) != t.queries[c]
  }

  /** Every column the handler filters from `from` on has a cell in every data row. */
  ghost predicate HandlerCellsExist(t: Table, hash: map<string, string>, from: nat) {
    forall c: nat :: Visited(t, from, c) && Refiltered(t, hash, c) ==> AllHaveCell(t, c)
  }

  /** After a completed step at `from`, the condition for the rest is the condition for `from..` less column `from`. */
  lemma HandlerShift(t: Table, hash: map<string, string>, from: nat)
    requires HandlerFragmentSupported(t, hash) && Visited(t, from, from)
    requires HashChange(t, from, hash).Done?
    ensures HandlerCellsExist(HashChange(t, from, hash).table, hash, from + 1) <==> HandlerCellsExist(t, hash, from)
  {
    var t' := HashChange(t, from, hash).table;
    VisitedShift(t, t', hash, from);
    HandlerStepRecords(t, hash, from);
    HandlerStepCells(t, hash, from);
    forall c: nat
      ensures (Visited(t', from + 1, c) && Refiltered(t', hash, c) ==> AllHaveCell(t', c))
          <==> (Visited(t, from, c) && Refiltered(t, hash, c) ==> AllHaveCell(t, c))
    {
      if c != from {
        assert Refiltered(t', hash, c) == Refiltered(t, hash, c);
      }
    }
  }

  /** The handler's step at a visited column leaves the records of the other columns, and so what it does there, unchanged. */
  lemma HandlerStepRecords(t: Table, hash: map<string, string>, from: nat)
    requires HandlerFragmentSupported(t, hash) && Visited(t, from, from)
    ensures !Refiltered(t, hash, from) ==> HashChange(t, from, hash) == Done(t)
    ensures forall c: nat :: c != from ==> Refiltered(HashChange(t, from, hash).table, hash, c) == Refiltered(t, hash, c)
  {
  }

  /** The handler's step at a visited column completes only when that column's cells exist, and keeps which cells exist. */
  lemma HandlerStepCells(t: Table, hash: map<string, string>, from: nat)
    requires HandlerFragmentSupported(t, hash) && Visited(t, from, from)
    ensures HashChange(t, from, hash).Done? <==> !Refiltered(t, hash, from) || AllHaveCell(t, from)
    ensures forall c: nat :: AllHaveCell(HashChange(t, from, hash).table, c) == AllHaveCell(t, c)
  {
    if Refiltered(t, hash, from) {
      var q := HashQuery(hash, FilterHash(t.id, from));
      assert HashChange(t, from, hash) == Filter(t, q, from);
      forall c: nat
        ensures AllHaveCell(Filter(t, q, from).table, c) == AllHaveCell(t, c)
      {
        FilterKeepsCellSlots(t, q, from, c);
      }
    }
  }

  /** After column `from`, the handler visits the same columns of a table with the same settings. */
  lemma VisitedShift(t: Table, t': Table, hash: map<string, string>, from: nat)
    requires t'.id == t.id && t'.config == t.config && t'.columns == t.columns
    requires t'.queries.Keys == t.queries.Keys
    ensures forall c: nat :: Visited(t', from + 1, c) <==> Visited(t, from, c) && c != from
    ensures HandlerFragmentSupported(t, hash) ==> HandlerFragmentSupported(t', hash)
  {
    assert forall c: nat :: Visited(t', from + 1, c) <==> Visited(t, from, c) && c != from;
    if HandlerFragmentSupported(t, hash) {
      forall c: nat | c < t'.columns && !Ignored(t'.config.policy, c) && c in t'.queries
        ensures Supported(t'.config.matching, HashQuery(hash, FilterHash(t'.id, c)))
      {
        assert c in t.queries.Keys;
        assert Supported(t.config.matching, HashQuery(hash, FilterHash(t.id, c)));
      }
    }
  }

  /** The window's `hashchange` event; it does nothing unless `useHash` is set. */
  function OnHashChange(t: Table, hash: map<string, string>): (r: Outcome)
    requires t.config.useHash ==> HandlerFragmentSupported(t, hash)
    ensures r.table.queries.Keys == t.queries.Keys
    ensures !t.config.useHash ==> r == Done(t)
    ensures t.config.useHash && r.Done? ==> forall c :: c in t.queries && Visited(t, 0, c) ==>
              r.table.queries[c] == HashQuery(hash, FilterHash(t.id, c))
    ensures r.Done? ==> forall c :: c in t.queries && !Visited(t, 0, c) ==> r.table.queries[c] == t.queries[c]
    ensures Consistent(t) && r.Done? ==> Consistent(r.table)
    ensures RowsHoldCells(t) ==> RowsHoldCells(r.table)
    ensures RowsMarked(t) ==> RowsMarked(r.table)
    ensures r.Done? <==> !t.config.useHash || HandlerCellsExist(t, hash, 0)
  {
    if t.config.useHash then HashChangeFrom(t, hash, 0) else Done(t)
  }

  // ---------------------------------------------------------------------
  // Start-up

  /** The initial query of a column at start-up: the fragment's, when `useHash` is set. */
  function InitialQuery(t: Table, hash: map<string, string>, col: nat): string {
    if t.config.useHash then HashQuery(hash, FilterHash(t.id, col)) else ""
  }

  /** Whether start-up filters column `col`. */
  predicate FilteredAtStart(t: Table, hash: map<string, string>, col: nat) {
    col < t.columns && !Ignored(t.config.policy, col) && InitialQuery(t, hash, col) != ""
  }

  /** The initial filters of columns `from..`, in order, stopping at a TypeError. */
  function InitialFilters(t: Table, hash: map<string, string>, from: nat): (r: Outcome)
    requires StartFragmentSupported(t, hash)
    decreases t.columns - from
    ensures r.table.id == t.id && r.table.config == t.config && r.table.columns == t.columns
    ensures r.table.trs == t.trs
    ensures forall c :: c in r.table.queries ==> c in t.queries || (from <= c && FilteredAtStart(t, hash, c))
    ensures r.Done? ==> forall c :: from <= c && FilteredAtStart(t, hash, c) ==>
              c in r.table.queries && r.table.queries[c] == InitialQuery(t, hash, c)
    ensures r.Done? ==> forall c :: c in t.queries && !(from <= c && FilteredAtStart(t, hash, c)) ==>
              c in r.table.queries && r.table.queries[c] == t.queries[c]
    ensures Consistent(t) && r.Done? ==> Consistent(r.table)
  {
    if from >= t.columns then Done(t)
    else if !FilteredAtStart(t, hash, from) then
      assert forall c :: from <= c && FilteredAtStart(t, hash, c) <==> from + 1 <= c && FilteredAtStart(t, hash, c);
      InitialFilters(t, hash, from + 1)
    else
      var q := InitialQuery(t, hash, from);
      FilterKeepsConsistent(t, q, from);
      match Filter(t, q, from)
      case Thrown(t', k) => Thrown(t', k)
      case Done(t') =>
        SameSettings(t, t', hash);
        var r := InitialFilters(t', hash, from + 1);
        StartStepRecords(t, t', r.table.queries, r.Done?, hash, from);
        r
  }

  /**
    The records after the start-up filter of column `from` and the filters
    of the columns after it are the records the filters of `from..` leave.
   */
  lemma StartStepRecords(t: Table, t': Table, queries: map<nat, string>, done: bool, hash: map<string, string>, from: nat)
    requires FilteredAtStart(t, hash, from)
    requires t'.id == t.id && t'.config == t.config && t'.columns == t.columns
    requires t'.queries == t.queries[from := InitialQuery(t, hash, from)]
    requires forall c :: c in queries ==> c in t'.queries || (from + 1 <= c && FilteredAtStart(t', hash, c))
    requires done ==> forall c :: from + 1 <= c && FilteredAtStart(t', hash, c) ==>
               c in queries && queries[c] == InitialQuery(t', hash, c)
    requires done ==> forall c :: c in t'.queries && !(from + 1 <= c && FilteredAtStart(t', hash, c)) ==>
               c in queries && queries[c] == t'.queries[c]
    ensures forall c :: c in queries ==> c in t.queries || (from <= c && FilteredAtStart(t, hash, c))
    ensures done ==> forall c :: from <= c && FilteredAtStart(t, hash, c) ==>
              c in queries && queries[c] == InitialQuery(t, hash, c)
    ensures done ==> forall c :: c in t.queries && !(from <= c && FilteredAtStart(t, hash, c)) ==>
              c in queries && queries[c] == t.queries[c]
  {
    SameSettings(t, t', hash);
  }

  /**
    The initial filters keep the data rows of `trs`, each with its empty
    slots and texts, and once a query is recorded every row is marked;
    this holds whether they complete or stop at a TypeError.
   */
  lemma {:induction false} InitialFiltersKeepRows(t: Table, hash: map<string, string>, from: nat)
    requires StartFragmentSupported(t, hash)
    decreases t.columns - from
    ensures RowsHoldCells(t) ==> RowsHoldCells(InitialFilters(t, hash, from).table)
    ensures RowsMarked(t) ==> RowsMarked(InitialFilters(t, hash, from).table)
  {
    if from >= t.columns {
    } else if !FilteredAtStart(t, hash, from) {
      InitialFiltersKeepRows(t, hash, from + 1);
    } else {
      var q := InitialQuery(t, hash, from);
      FilterKeepsRows(t, q, from);
      var f := Filter(t, q, from);
      if f.Done? {
        SameSettings(t, f.table, hash);
        InitialFiltersKeepRows(f.table, hash, from + 1);
      }
    }
  }

  /** Every column start-up filters from `from` on has a cell in every data row. */
  ghost predicate StartCellsExist(t: Table, hash: map<string, string>, from: nat) {
    forall c: nat :: from <= c && FilteredAtStart(t, hash, c) ==> AllHaveCell(t, c)
  }

  /**
    The start-up filters over columns `from..` complete exactly when every
    column they filter has a cell in every data row.
   */
  lemma {:induction false} InitialFiltersComplete(t: Table, hash: map<string, string>, from: nat)
    requires StartFragmentSupported(t, hash)
    decreases t.columns - from
    ensures InitialFilters(t, hash, from).Done? <==> StartCellsExist(t, hash, from)
  {
    if from >= t.columns {
    } else if !FilteredAtStart(t, hash, from) {
      InitialFiltersComplete(t, hash, from + 1);
      StartSkip(t, hash, from);
    } else {
      var f := Filter(t, InitialQuery(t, hash, from), from);
      if f.Done? {
        SameSettings(t, f.table, hash);
        InitialFiltersComplete(f.table, hash, from + 1);
        StartShift(t, hash, from);
      }
    }
  }

  /** A column start-up does not filter adds nothing to the condition for `from..`. */
  lemma StartSkip(t: Table, hash: map<string, string>, from: nat)
    requires !FilteredAtStart(t, hash, from)
    ensures StartCellsExist(t, hash, from + 1) <==> StartCellsExist(t, hash, from)
  {
    assert forall c: nat :: from <= c && FilteredAtStart(t, hash, c) <==> from + 1 <= c && FilteredAtStart(t, hash, c);
  }

  /** After the start-up filter of column `from` completes, the condition for the rest is the condition for `from..` less `from`. */
  lemma StartShift(t: Table, hash: map<string, string>, from: nat)
    requires StartFragmentSupported(t, hash)
    requires FilteredAtStart(t, hash, from)
    requires Filter(t, InitialQuery(t, hash, from), from).Done?
    ensures StartCellsExist(Filter(t, InitialQuery(t, hash, from), from).table, hash, from + 1)
        <==> StartCellsExist(t, hash, from)
  {
    var q := InitialQuery(t, hash, from);
    var t' := Filter(t, q, from).table;
    SameSettings(t, t', hash);
    assert AllHaveCell(t, from);
    forall c: nat
      ensures AllHaveCell(t', c) == AllHaveCell(t, c)
    {
      FilterKeepsCellSlots(t, q, from, c);
    }
  }

  /** Tables with the same id, options and header read the fragment alike. */
  lemma SameSettings(t: Table, t': Table, hash: map<string, string>)
    requires t'.id == t.id && t'.config == t.config && t'.columns == t.columns
    ensures forall c :: FilteredAtStart(t', hash, c) == FilteredAtStart(t, hash, c)
    ensures forall c :: InitialQuery(t', hash, c) == InitialQuery(t, hash, c)
    ensures StartFragmentSupported(t, hash) ==> StartFragmentSupported(t', hash)
  {
  }

  /** A table just set up, with no rows collected and no query recorded, is consistent and reads its data rows. */
  lemma FreshTableConsistent(t: Table)
    requires t.rows.None? && t.queries == map[]
    ensures Consistent(t) && RowsHoldCells(t) && RowsMarked(t)
  {
    FreshRowsConsistent(t);
  }

  /** The table `init` starts from: the header markers merged into the policy, no rows collected, no query recorded. */
  function FreshTable(id: IdAttr, config: Config, marks: seq<HeaderMarks>, trs: seq<seq<string>>): Table {
    Table(id, config.(policy := MergeMarks(config.policy, marks)), |marks|, trs, None, map[])
  }

  /**
    `Filterable.init`: the header markers are merged into the column
    policy, then every filterable column whose fragment holds a query is
    filtered with it. No rows are collected before the first filter.
    When it completes, every cell's flag is its column's start-up query's
    result and every row is marked accordingly.
   */
  function Init(id: IdAttr, config: Config, marks: seq<HeaderMarks>, trs: seq<seq<string>>, hash: map<string, string>): (r: Outcome)
    requires config.useHash ==> FragmentSupported(id, config.matching, MergeMarks(config.policy, marks), |marks|, hash)
    ensures r.table.config == config.(policy := MergeMarks(config.policy, marks))
    ensures r.table.columns == |marks| && r.table.trs == trs && r.table.id == id
    ensures forall c :: c in r.table.queries ==> FilteredAtStart(r.table, hash, c)
    ensures r.Done? ==> forall c :: FilteredAtStart(r.table, hash, c) ==>
              c in r.table.queries && r.table.queries[c] == InitialQuery(r.table, hash, c)
    ensures r.Done? ==> Consistent(r.table)
    ensures RowsHoldCells(r.table) && RowsMarked(r.table)
  {
    var t := FreshTable(id, config, marks, trs);
    FreshTableConsistent(t);
    InitialFiltersKeepRows(t, hash, 0);
    InitialFilters(t, hash, 0)
  }

  /**
    Start-up completes exactly when every `tr` after the first has a `td`
    at every column filtered at start-up; a missing one is the TypeError.
   */
  lemma InitCompletes(id: IdAttr, config: Config, marks: seq<HeaderMarks>, trs: seq<seq<string>>, hash: map<string, string>)
    requires config.useHash ==> FragmentSupported(id, config.matching, MergeMarks(config.policy, marks), |marks|, hash)
    ensures Init(id, config, marks, trs, hash).Done?
        <==> forall c: nat, j :: FilteredAtStart(FreshTable(id, config, marks, trs), hash, c) && 1 <= j < |trs| ==> c < |trs[j]|
  {
    var t := FreshTable(id, config, marks, trs);
    FreshTableConsistent(t);
    InitialFiltersComplete(t, hash, 0);
    assert InitialFilters(t, hash, 0).Done? <==> StartCellsExist(t, hash, 0);
    forall c: nat | FilteredAtStart(t, hash, c)
      ensures AllHaveCell(t, c) <==> forall j :: 1 <= j < |trs| ==> c < |trs[j]|
    {
      CellsReachColumn(t, c);
    }
  }
}
