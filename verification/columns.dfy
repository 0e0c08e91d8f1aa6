/**
  Which columns take part in filtering (dist/jquery.filterable.js,
  `ignoredColumn` at lines 328-341 and 469-482, and the header markers
  merged in `Filterable.init` at lines 716-750).
 */
module Columns {
  import opened Wrappers

  /**
    `onlyColumns` (an allow-list, absent by default) takes precedence
    over `ignoreColumns` (a deny-list, empty by default).
   */
  datatype ColumnPolicy = ColumnPolicy(ignoreColumns: seq<int>, onlyColumns: Option<seq<int>>)

  const DefaultPolicy := ColumnPolicy([], None)

  /** The per-header `data-ft-ignore` and `data-ft-filter` markers, read as booleans. */
  datatype HeaderMarks = HeaderMarks(ftIgnore: bool, ftFilter: bool)

  /** `$.inArray`: the first index of `x` in `s`, or -1. */
  function IndexOf(x: int, s: seq<int>): (r: int)
    ensures r == -1 <==> x !in s
    ensures r != -1 ==> 0 <= r < |s| && s[r] == x && forall i :: 0 <= i < r ==> s[i] != x
  {
    if |s| == 0 then -1
    else if s[0] == x then 0
    else
      var k := IndexOf(x, s[1..]);
      if k == -1 then -1 else k + 1
  }

  predicate NoDuplicates<T(==)>(s: seq<T>) {
    forall i, j :: 0 <= i < j < |s| ==> s[i] != s[j]
  }

  /**
    Whether a column is left out of filtering: an allow-list, when there
    is one, decides alone; otherwise the deny-list does.
   */
  predicate Ignored(p: ColumnPolicy, col: int) {
    match p.onlyColumns
    case Some(only) => col !in only
    case None => col in p.ignoreColumns
  }

  /**
    `ignoredColumn`, as written with `$.inArray`. It agrees with `Ignored`,
    which the rest of the model uses.
   */
  function IgnoredColumn(p: ColumnPolicy, col: int): (r: bool)
    ensures p.onlyColumns.Some? ==> (r <==> col !in p.onlyColumns.value)
    ensures p.onlyColumns.None? ==> (r <==> col in p.ignoreColumns)
    ensures r == Ignored(p, col)
  {
    match p.onlyColumns
    case Some(only) => IndexOf(col, only) == -1
    case None => IndexOf(col, p.ignoreColumns) != -1
  }

  /**
    `s` extends `base`, and every element appended after `base` differs
    from every element before it: nothing already present is added, and
    nothing is added twice.
   */
  predicate AppendsOnlyNew(base: seq<int>, s: seq<int>) {
    && base <= s
    && forall i, j :: 0 <= i < j < |s| && |base| <= j ==> s[i] != s[j]
  }

  lemma AppendsOnlyNewTrans(a: seq<int>, b: seq<int>, c: seq<int>)
    requires AppendsOnlyNew(a, b) && AppendsOnlyNew(b, c)
    ensures AppendsOnlyNew(a, c)
  {
    forall i, j | 0 <= i < j < |c| && |a| <= j
      ensures c[i] != c[j]
    {
      if j < |b| {
        assert c[i] == b[i] && c[j] == b[j];
      }
    }
  }

  /** Appends `x` unless it is already present. */
  function AddOnce(s: seq<int>, x: int): (r: seq<int>)
    ensures forall y :: y in r <==> y in s || y == x
    ensures x in s ==> r == s
    ensures x !in s ==> r == s + [x]
    ensures AppendsOnlyNew(s, r)
    ensures NoDuplicates(s) ==> NoDuplicates(r)
  {
    if IndexOf(x, s) == -1 then s + [x] else s
  }

  /** One header cell's markers applied to the policy. */
  function MarkColumn(p: ColumnPolicy, col: int, m: HeaderMarks): (r: ColumnPolicy)
    ensures forall y :: y in r.ignoreColumns <==> y in p.ignoreColumns || (m.ftIgnore && y == col)
    ensures AppendsOnlyNew(p.ignoreColumns, r.ignoreColumns)
    ensures r.onlyColumns.Some? <==> p.onlyColumns.Some? || m.ftFilter
    ensures r.onlyColumns.Some? ==> forall y :: y in r.onlyColumns.value <==>
              (p.onlyColumns.Some? && y in p.onlyColumns.value) || (m.ftFilter && y == col)
    ensures r.onlyColumns.Some? ==> AppendsOnlyNew(p.onlyColumns.GetOr([]), r.onlyColumns.value)
  {
    var ignore := if m.ftIgnore then AddOnce(p.ignoreColumns, col) else p.ignoreColumns;
    var only := if m.ftFilter then Some(AddOnce(p.onlyColumns.GetOr([]), col)) else p.onlyColumns;
    ColumnPolicy(ignore, only)
  }

  /** The header markers of columns `from..` applied in column order. */
  function MergeFrom(p: ColumnPolicy, marks: seq<HeaderMarks>, from: nat): (r: ColumnPolicy)
    requires from <= |marks|
    decreases |marks| - from
    ensures p.ignoreColumns <= r.ignoreColumns
    ensures forall x ::
              x in r.ignoreColumns <==> x in p.ignoreColumns || (from <= x < |marks| && marks[x].ftIgnore)
    ensures r.onlyColumns.Some?
        <==> p.onlyColumns.Some? || exists x :: from <= x < |marks| && marks[x].ftFilter
    ensures p.onlyColumns.Some? ==> r.onlyColumns.Some? && p.onlyColumns.value <= r.onlyColumns.value
    ensures r.onlyColumns.Some? ==>
              forall x :: x in r.onlyColumns.value <==>
                (p.onlyColumns.Some? && x in p.onlyColumns.value) || (from <= x < |marks| && marks[x].ftFilter)
    ensures NoDuplicates(p.ignoreColumns) ==> NoDuplicates(r.ignoreColumns)
    ensures p.onlyColumns.Some? && NoDuplicates(p.onlyColumns.value) ==> NoDuplicates(r.onlyColumns.value)
    ensures AppendsOnlyNew(p.ignoreColumns, r.ignoreColumns)
    ensures r.onlyColumns.Some? ==> AppendsOnlyNew(p.onlyColumns.GetOr([]), r.onlyColumns.value)
  {
    if from == |marks| then p
    else
      var p1 := MarkColumn(p, from, marks[from]);
      var r := MergeFrom(p1, marks, from + 1);
      ChainPolicies(p, p1, r);
      r
  }

  /** Appending only new indices, twice in a row, appends only new indices. */
  lemma ChainPolicies(p: ColumnPolicy, p1: ColumnPolicy, r: ColumnPolicy)
    requires AppendsOnlyNew(p.ignoreColumns, p1.ignoreColumns) && AppendsOnlyNew(p1.ignoreColumns, r.ignoreColumns)
    requires p.onlyColumns.Some? ==> p1.onlyColumns.Some?
    requires p1.onlyColumns.Some? ==> AppendsOnlyNew(p.onlyColumns.GetOr([]), p1.onlyColumns.value)
    requires r.onlyColumns.Some? ==> AppendsOnlyNew(p1.onlyColumns.GetOr([]), r.onlyColumns.value)
    ensures AppendsOnlyNew(p.ignoreColumns, r.ignoreColumns)
    ensures r.onlyColumns.Some? ==> AppendsOnlyNew(p.onlyColumns.GetOr([]), r.onlyColumns.value)
  {
    AppendsOnlyNewTrans(p.ignoreColumns, p1.ignoreColumns, r.ignoreColumns);
    if r.onlyColumns.Some? && p1.onlyColumns.Some? {
      AppendsOnlyNewTrans(p.onlyColumns.GetOr([]), p1.onlyColumns.value, r.onlyColumns.value);
    }
  }

  /** The policy after `Filterable.init` has read every header cell's markers. */
  function MergeMarks(p: ColumnPolicy, marks: seq<HeaderMarks>): ColumnPolicy
  {
    MergeFrom(p, marks, 0)
  }

  /**
    After the merge, a header column is filtered exactly when it is
    allowed by the merged allow-list if one exists, and otherwise when
    neither the configured deny-list nor its own marker excludes it.
   */
  lemma MergedPolicyDecides(p: ColumnPolicy, marks: seq<HeaderMarks>, col: nat)
    requires col < |marks|
    ensures var allowList := p.onlyColumns.Some? || exists x :: 0 <= x < |marks| && marks[x].ftFilter;
            (Ignored(MergeMarks(p, marks), col) <==>
              if allowList then !(marks[col].ftFilter || (p.onlyColumns.Some? && col in p.onlyColumns.value))
              else col in p.ignoreColumns || marks[col].ftIgnore)
  {
  }
}
