/**
 * What `aggregate_single` promises about its result: one row per distinct
 * value of the dimension, in ascending order; column totals kept; the
 * derived metrics present exactly when their roles resolve, each computed
 * from its group's totals. Also the drill-down page's use of it.
 */
module SingleMode {
  import opened Wrappers
  import opened Text
  import opened Tables
  import opened Grouping
  import opened GroupTables
  import opened DimensionExtractor
  import opened Aggregation

  /** A column name that no derived metric uses. */
  predicate NotMetricName(c: string) {
    forall m :: c != MetricName(m)
  }

  lemma EveryMetricListed()
    ensures forall m: Metric :: m in MetricOrder
  {
    forall m: Metric ensures m in MetricOrder {
      match m
      case CTR => assert MetricOrder[0] == m;
      case CPC => assert MetricOrder[1] == m;
      case ROAS => assert MetricOrder[2] == m;
      case ACoS => assert MetricOrder[3] == m;
      case CVR => assert MetricOrder[4] == m;
      case CPA => assert MetricOrder[5] == m;
    }
  }

  /** Two lists in which the same candidates are present resolve alike. */
  lemma {:induction false} FirstPresentAlike(names: seq<string>, a: seq<string>, b: seq<string>)
    requires forall i :: 0 <= i < |names| ==> (names[i] in a <==> names[i] in b)
    ensures FirstPresent(names, a) == FirstPresent(names, b)
  {
    if names != [] {
      FirstPresentAlike(names[1..], a, b);
    }
  }

  /** No candidate column is a dimension column or 'Campaign Name', so none is excluded from the sums. */
  lemma CandidatesAreSummed()
    ensures forall role, c :: c in Candidates(role) ==> c !in NotSummed
  {
  }

  /** Column lists in which the same candidates are present resolve the same roles. */
  lemma ResolvedAlike(a: seq<string>, b: seq<string>)
    requires forall role, c :: c in Candidates(role) ==> (c in a <==> c in b)
    ensures Resolved(a) == Resolved(b)
  {
    forall role ensures FirstPresent(Candidates(role), a) == FirstPresent(Candidates(role), b) {
      FirstPresentAlike(Candidates(role), a, b);
    }
    SameFirstPresentSameRoles(a, b);
  }

  lemma SameFirstPresentSameRoles(a: seq<string>, b: seq<string>)
    requires forall role :: FirstPresent(Candidates(role), a) == FirstPresent(Candidates(role), b)
    ensures Resolved(a) == Resolved(b)
  {
  }

  /** The roles of the grouped table are the roles of the input: grouping drops no candidate column. */
  lemma RolesOfGrouped(t: Table, dim: string)
    requires t.Valid() && dim in ValidDimensions
    ensures Resolved(SingleGrouped(t, dim).columns) == Resolved(t.columns)
  {
    CandidatesAreSummed();
    ResolvedAlike(SingleGrouped(t, dim).columns, t.columns);
  }

  /** A cell of the grouped table that no metric overwrites is kept by `WithMetrics`. */
  lemma WithMetricsKeeps(base: Table, actual: map<Role, string>, ms: seq<Metric>, i: nat, c: string)
    requires base.Valid() && RolesIn(actual, base.columns)
    requires i < |base.rows| && c in base.rows[i] && NotMetricName(c)
    ensures c in WithMetrics(base, actual, ms).rows[i]
    ensures WithMetrics(base, actual, ms).rows[i][c] == base.rows[i][c]
  {
    var names := Names(ActiveMetrics(actual, ms));
    assert c !in ColumnSet(names);
    assert c !in DerivedCells(base.rows[i], actual, ms);
  }

  /** Two row lists that agree on column `c` have the same total of `c`. */
  lemma {:induction false} TotalsAgree(a: seq<Row>, b: seq<Row>, c: string)
    requires |a| == |b|
    requires forall i :: 0 <= i < |a| ==> (c in a[i] <==> c in b[i]) && (c in a[i] ==> a[i][c] == b[i][c])
    ensures ColumnTotal(a, c) == ColumnTotal(b, c)
  {
    if a != [] {
      TotalsAgree(a[1..], b[1..], c);
    }
  }

  /**
   * Columns of the single-mode result: the dimension first, then the summed
   * columns, then each resolvable metric not already a column, in the order
   * CTR, CPC, ROAS, ACoS, CVR, CPA. A metric column is there exactly when both
   * of its roles resolve against the input (or the input already had it).
   */
  lemma SingleColumns(t: Table, dim: string)
    requires t.Valid() && dim in ValidDimensions && dim in t.columns && SumColumns(t.columns) != []
    ensures var r := SingleSummary(t, dim).value;
      var actual := Resolved(t.columns);
      && r.columns[0] == dim
      && r.columns == AppendMissing([dim] + SumColumns(t.columns), Names(ActiveMetrics(actual, MetricOrder)))
      && (forall c :: NotMetricName(c) ==> (c in r.columns <==> c == dim || c in SumColumns(t.columns)))
      && (forall m :: MetricName(m) in r.columns <==> Active(m, actual) || MetricName(m) in t.columns)
  {
    SingleSummaryIsWithMetrics(t, dim);
    RolesOfGrouped(t, dim);
    MetricColumns([dim] + SumColumns(t.columns), Resolved(t.columns));
    MetricNamesSummed(t.columns);
    DimensionsAreNotMetricNames();
  }

  /** A metric name is never excluded from the sums. */
  lemma MetricNamesSummed(columns: seq<string>)
    ensures forall m :: MetricName(m) in SumColumns(columns) <==> MetricName(m) in columns
  {
    forall m ensures MetricName(m) !in NotSummed {
    }
  }

  /** Appending the active metrics adds exactly the active metrics' names to the columns. */
  lemma MetricColumns(cols: seq<string>, actual: map<Role, string>)
    ensures var r := AppendMissing(cols, Names(ActiveMetrics(actual, MetricOrder)));
      && (forall c :: NotMetricName(c) ==> (c in r <==> c in cols))
      && (forall m :: MetricName(m) in r <==> Active(m, actual) || MetricName(m) in cols)
  {
    var act := ActiveMetrics(actual, MetricOrder);
    var names := Names(act);
    var r := AppendMissing(cols, names);
    assert ColumnSet(r) == ColumnSet(cols) + ColumnSet(names);
    EveryMetricListed();
    forall m ensures MetricName(m) in r <==> Active(m, actual) || MetricName(m) in cols {
      assert (MetricName(m) in r) == (MetricName(m) in ColumnSet(r));
      assert (MetricName(m) in cols) == (MetricName(m) in ColumnSet(cols));
      if Active(m, actual) {
        var k :| 0 <= k < |act| && act[k] == m;
        assert names[k] == MetricName(m);
        assert MetricName(m) in ColumnSet(names);
      }
      if MetricName(m) in ColumnSet(names) {
        var k :| 0 <= k < |names| && names[k] == MetricName(m);
        MetricNameInjective();
        assert act[k] == m;
      }
    }
    forall c | NotMetricName(c) ensures c in r <==> c in cols {
      assert (c in r) == (c in ColumnSet(r));
      assert (c in cols) == (c in ColumnSet(cols));
    }
  }

  /** None of the dimension columns is a derived metric's name. */
  lemma DimensionsAreNotMetricNames()
    ensures forall d :: d in ValidDimensions ==> NotMetricName(d)
  {
  }

  /** Row by row, the single-mode result is the grouped table with only derived-metric cells added or replaced. */
  lemma SingleRowsAreGrouped(t: Table, dim: string)
    requires t.Valid() && dim in ValidDimensions && dim in t.columns && SumColumns(t.columns) != []
    ensures var r := SingleSummary(t, dim).value;
      var base := SingleGrouped(t, dim);
      && |r.rows| == |base.rows|
      && forall i, c :: 0 <= i < |r.rows| && c in base.rows[i] && NotMetricName(c) ==> c in r.rows[i] && r.rows[i][c] == base.rows[i][c]
  {
    var base := SingleGrouped(t, dim);
    SingleSummaryIsWithMetrics(t, dim);
    var actual := Resolved(base.columns);
    forall i, c | 0 <= i < |base.rows| && c in base.rows[i] && NotMetricName(c)
      ensures c in WithMetrics(base, actual, MetricOrder).rows[i] && WithMetrics(base, actual, MetricOrder).rows[i][c] == base.rows[i][c]
    {
      WithMetricsKeeps(base, actual, MetricOrder, i, c);
    }
  }

  /** The dimension column of the single-mode result lists the group keys, in order. */
  lemma SingleKeyColumn(t: Table, dim: string)
    requires t.Valid() && dim in ValidDimensions && dim in t.columns && SumColumns(t.columns) != []
    ensures var r := SingleSummary(t, dim).value;
      var keys := GroupKeys(t.rows, [dim]);
      && |r.rows| == |keys|
      && forall i :: 0 <= i < |r.rows| ==> dim in r.rows[i] && r.rows[i][dim] == Str(keys[i][0])
  {
    KeyThenSummedDistinct(t.columns, [dim]);
    GroupedKeyCells(t.rows, [dim], SumColumns(t.columns));
    SingleRowsAreGrouped(t, dim);
    DimensionsAreNotMetricNames();
    var base := SingleGrouped(t, dim);
    assert forall i :: 0 <= i < |base.rows| ==> dim in base.rows[i] && base.rows[i][dim] == Str(GroupKeys(t.rows, [dim])[i][0]) by {
      assert [dim][0] == dim;
    }
  }

  /**
   * Rows of the single-mode result: one per distinct string value of the
   * dimension in the input, strictly ascending, every input value present;
   * an empty input gives an empty result.
   */
  lemma SingleGroups(t: Table, dim: string)
    requires t.Valid() && dim in ValidDimensions && dim in t.columns && SumColumns(t.columns) != []
    ensures var r := SingleSummary(t, dim).value;
      && AscendingBy(r.rows, dim)
      && SameValues(r.rows, t.rows, dim)
      && (t.rows == [] ==> r.rows == [])
  {
    SingleKeyColumn(t, dim);
    KeyedRows(t.rows, dim, SingleSummary(t, dim).value.rows);
  }

  /** Every row has a string in column `dim`, and these strings are strictly ascending. */
  predicate AscendingBy(out: seq<Row>, dim: string) {
    && (forall i :: 0 <= i < |out| ==> dim in out[i] && out[i][dim].Str?)
    && (forall i, j :: 0 <= i < j < |out| ==> StrLt(out[i][dim].s, out[j][dim].s))
  }

  /** The strings in column `dim` of `out` are exactly those of `rows`. */
  ghost predicate SameValues(out: seq<Row>, rows: seq<Row>, dim: string) {
    forall v :: (exists i :: 0 <= i < |out| && dim in out[i] && out[i][dim] == Str(v))
           <==> (exists i :: 0 <= i < |rows| && dim in rows[i] && rows[i][dim] == Str(v))
  }

  /**
   * Rows listing the one-column group keys of `rows` in order are strictly
   * ascending by that column and hold exactly the string values it has in
   * `rows`; there are none when `rows` is empty.
   */
  lemma KeyedRows(rows: seq<Row>, dim: string, out: seq<Row>)
    requires |out| == |GroupKeys(rows, [dim])|
    requires forall i :: 0 <= i < |out| ==> dim in out[i] && out[i][dim] == Str(GroupKeys(rows, [dim])[i][0])
    ensures AscendingBy(out, dim)
    ensures SameValues(out, rows, dim)
    ensures rows == [] ==> out == []
  {
    var keys := GroupKeys(rows, [dim]);
    forall i, j | 0 <= i < j < |out| ensures StrLt(out[i][dim].s, out[j][dim].s) {
      assert keys[i] == [keys[i][0]] && keys[j] == [keys[j][0]];
      KeyLtSingle(keys[i][0], keys[j][0]);
    }
    forall v ensures (exists i :: 0 <= i < |out| && dim in out[i] && out[i][dim] == Str(v))
                 <==> (exists i :: 0 <= i < |rows| && dim in rows[i] && rows[i][dim] == Str(v))
    {
      if i :| 0 <= i < |out| && out[i][dim] == Str(v) {
        assert keys[i] == [v];
        assert HasKey(rows, [dim], [v]);
        var l :| 0 <= l < |rows| && KeyOf(rows[l], [dim]) == Some([v]);
        KeyOfSingle(rows[l], dim);
      }
      if l :| 0 <= l < |rows| && dim in rows[l] && rows[l][dim] == Str(v) {
        KeyOfSingle(rows[l], dim);
        assert HasKey(rows, [dim], [v]);
        var i :| 0 <= i < |keys| && keys[i] == [v];
        assert out[i][dim] == Str(v);
      }
    }
    if rows == [] {
      assert keys == [];
    }
  }

  /**
   * Sum invariant of single mode: a summed column that no metric overwrites
   * has the same total over the groups as over the input rows whose
   * dimension value is a string (pandas drops the others).
   */
  lemma SingleSums(t: Table, dim: string, c: string)
    requires t.Valid() && dim in ValidDimensions && dim in t.columns
    requires c in SumColumns(t.columns) && NotMetricName(c)
    ensures ColumnTotal(SingleSummary(t, dim).value.rows, c) == KeyedTotal(t.rows, [dim], c)
  {
    var base := SingleGrouped(t, dim);
    SingleSummaryIsWithMetrics(t, dim);
    var actual := Resolved(base.columns);
    var r := SingleSummary(t, dim).value;
    KeyThenSummedDistinct(t.columns, [dim]);
    forall i | 0 <= i < |r.rows| ensures c in r.rows[i] && c in base.rows[i] && r.rows[i][c] == base.rows[i][c] {
      WithMetricsKeeps(base, actual, MetricOrder, i, c);
    }
    TotalsAgree(r.rows, base.rows, c);
    GroupedTotals(t.rows, [dim], SumColumns(t.columns), c);
  }

  /** On a table whose dimension column holds only strings, as after extraction, the totals are the input totals. */
  lemma SingleSumsOfStrings(t: Table, dim: string, c: string)
    requires t.Valid() && dim in ValidDimensions && dim in t.columns
    requires forall i :: 0 <= i < |t.rows| ==> t.rows[i][dim].Str?
    requires c in SumColumns(t.columns) && NotMetricName(c)
    ensures ColumnTotal(SingleSummary(t, dim).value.rows, c) == ColumnTotal(t.rows, c)
  {
    SingleSums(t, dim, c);
    KeyedTotalIsTotal(t.rows, [dim], c);
  }

  /**
   * Every derived cell is computed from its group's totals: metric `m` of
   * group `i` is the text of (total of its numerator column) over (total of
   * its denominator column), scaled by 100 for the percentages.
   */
  lemma SingleMetricCells(t: Table, dim: string, m: Metric, i: nat)
    requires t.Valid() && dim in ValidDimensions && dim in t.columns
    requires Active(m, Resolved(t.columns)) && i < |GroupKeys(t.rows, [dim])|
    ensures SingleSummary(t, dim).Ok?
    ensures var actual := Resolved(t.columns);
      var k := GroupKeys(t.rows, [dim])[i];
      var r := SingleSummary(t, dim).value;
      && i < |r.rows| && MetricName(m) in r.rows[i]
      && r.rows[i][MetricName(m)]
        == Str(MetricText(m, GroupSum(t.rows, [dim], k, actual[Def(m).numerator]),
                             GroupSum(t.rows, [dim], k, actual[Def(m).denominator])))
  {
    ActiveHasSumColumn(t.columns, m);
    var base := SingleGrouped(t, dim);
    SingleSummaryIsWithMetrics(t, dim);
    RolesOfGrouped(t, dim);
    var keys := GroupKeys(t.rows, [dim]);
    var actual := Resolved(t.columns);
    SingleGroupedRow(t, dim, i);
    MetricCellOf(base, actual, m, i);
    RoleColumnsAreCandidates(t.columns);
    CandidatesAreSummed();
    MetricOfGroupRow(t.rows, [dim], keys[i], SumColumns(t.columns), actual, m);
  }

  /** A frame with an active metric has its role columns to sum, so the `agg` call gets a column. */
  lemma ActiveHasSumColumn(columns: seq<string>, m: Metric)
    requires Active(m, Resolved(columns))
    ensures Resolved(columns)[Def(m).numerator] in SumColumns(columns)
    ensures SumColumns(columns) != []
  {
    RoleColumnsAreCandidates(columns);
    CandidatesAreSummed();
  }

  /** Row `i` of the grouped table is the group row of the `i`-th key. */
  lemma SingleGroupedRow(t: Table, dim: string, i: nat)
    requires t.Valid() && dim in ValidDimensions && i < |GroupKeys(t.rows, [dim])|
    ensures i < |SingleGrouped(t, dim).rows|
    ensures SingleGrouped(t, dim).rows[i] == GroupRow(t.rows, [dim], GroupKeys(t.rows, [dim])[i], SumColumns(t.columns))
  {
  }

  /** A metric on a group row divides the group sums of its two role columns. */
  lemma MetricOfGroupRow(rows: seq<Row>, dims: seq<string>, k: Key, sumCols: seq<string>, actual: map<Role, string>, m: Metric)
    requires Distinct(dims) && |k| == |dims| && Active(m, actual)
    requires actual[Def(m).numerator] in sumCols && actual[Def(m).denominator] in sumCols
    ensures MetricCell(GroupRow(rows, dims, k, sumCols), actual, m)
         == Str(MetricText(m, GroupSum(rows, dims, k, actual[Def(m).numerator]), GroupSum(rows, dims, k, actual[Def(m).denominator])))
  {
    GroupRowSums(rows, dims, k, sumCols);
  }

  /** A resolved role is bound to one of its candidates. */
  lemma RoleColumnsAreCandidates(columns: seq<string>)
    ensures forall role :: role in Resolved(columns) ==> Resolved(columns)[role] in Candidates(role) && Resolved(columns)[role] in columns
  {
    forall role | role in Resolved(columns)
      ensures Resolved(columns)[role] in Candidates(role)
    {
      var names := Candidates(role);
      var j :| 0 <= j < |names| && names[j] == FirstPresent(names, columns).value;
    }
  }

  /** The summed cells of a group row are its group sums. */
  lemma GroupRowSums(rows: seq<Row>, dims: seq<string>, k: Key, sumCols: seq<string>)
    requires Distinct(dims) && |k| == |dims|
    ensures forall c :: c in sumCols ==> GroupRow(rows, dims, k, sumCols)[c] == Num(GroupSum(rows, dims, k, c))
  {
  }

  /** In `WithMetrics`, the cell of an active metric is that metric's text on the grouped row. */
  lemma MetricCellOf(base: Table, actual: map<Role, string>, m: Metric, i: nat)
    requires base.Valid() && RolesIn(actual, base.columns) && Active(m, actual) && i < |base.rows|
    ensures var row := base.rows[i];
      && actual[Def(m).numerator] in row && actual[Def(m).denominator] in row
      && MetricName(m) in WithMetrics(base, actual, MetricOrder).rows[i]
      && WithMetrics(base, actual, MetricOrder).rows[i][MetricName(m)] == MetricCell(row, actual, m)
  {
    var row := base.rows[i];
    WithMetricsRow(base, actual, MetricOrder, i);
    DerivedCellOf(row, actual, m);
  }

  /** An active metric's cell in a row extended by the derived cells. */
  lemma DerivedCellOf(row: Row, actual: map<Role, string>, m: Metric)
    requires forall role :: role in actual ==> actual[role] in row
    requires Active(m, actual)
    ensures MetricName(m) in row + DerivedCells(row, actual, MetricOrder)
    ensures (row + DerivedCells(row, actual, MetricOrder))[MetricName(m)] == MetricCell(row, actual, m)
  {
    EveryMetricListed();
    var d := DerivedCells(row, actual, MetricOrder);
    assert d[MetricName(m)] == MetricCell(row, actual, m);
    assert MetricName(m) in d.Keys by {
      assert m in ActiveMetrics(actual, MetricOrder);
      var names := Names(ActiveMetrics(actual, MetricOrder));
      var j :| 0 <= j < |ActiveMetrics(actual, MetricOrder)| && ActiveMetrics(actual, MetricOrder)[j] == m;
      assert names[j] == MetricName(m);
    }
  }

  // ---------------------------------------------------------------------
  // The drill-down page: filter by one value, then aggregate
  // ---------------------------------------------------------------------

  /** `df[df[dim] == v]`: the rows whose dimension cell is the string `v`, in order. */
  function Filter(rows: seq<Row>, dim: string, v: string): (r: seq<Row>)
    ensures forall i :: 0 <= i < |r| ==> r[i] in rows && dim in r[i] && r[i][dim] == Str(v)
    ensures (exists i :: 0 <= i < |rows| && dim in rows[i] && rows[i][dim] == Str(v)) <==> r != []
  {
    if rows == [] then []
    else
      var rest := Filter(rows[1..], dim, v);
      assert forall i :: 0 <= i < |rows[1..]| ==> rows[1..][i] == rows[i + 1];
      if dim in rows[0] && rows[0][dim] == Str(v) then [rows[0]] + rest else rest
  }

  /** `df[df[dim] == v]` keeps the matching rows in input order, each as often as it occurs, and no other row. */
  lemma {:induction false} FilterKeepsMatches(rows: seq<Row>, dim: string, v: string)
    ensures Subsequence(Filter(rows, dim, v), rows)
    ensures forall x :: multiset(Filter(rows, dim, v))[x] == if dim in x && x[dim] == Str(v) then multiset(rows)[x] else 0
  {
    if rows != [] {
      var rest := Filter(rows[1..], dim, v);
      FilterKeepsMatches(rows[1..], dim, v);
      assert rows == [rows[0]] + rows[1..];
      SubsequenceCons(rest, rows[1..], rows[0]);
      assert multiset(rows) == multiset{rows[0]} + multiset(rows[1..]);
      if dim in rows[0] && rows[0][dim] == Str(v) {
        assert multiset([rows[0]] + rest) == multiset{rows[0]} + multiset(rest);
      }
    }
  }

  /** A column total over the selection is the group sum of the selected value over the whole frame. */
  lemma {:induction false} FilterTotal(rows: seq<Row>, dim: string, v: string, c: string)
    ensures ColumnTotal(Filter(rows, dim, v), c) == GroupSum(rows, [dim], [v], c)
  {
    if rows != [] {
      FilterTotal(rows[1..], dim, v, c);
      var k := KeyOf(rows[0], [dim]);
      assert k == Some([v]) <==> dim in rows[0] && rows[0][dim] == Str(v) by {
        if k.Some? {
          assert |k.value| == 1 && k.value[0] == rows[0][dim].s;
          assert k.value == [rows[0][dim].s];
        }
        if dim in rows[0] && rows[0][dim].Str? {
          assert k.Some?;
        }
      }
      var rest := Filter(rows[1..], dim, v);
      if dim in rows[0] && rows[0][dim] == Str(v) {
        ColumnTotalAppend([rows[0]], rest, c);
      }
    }
  }

  /**
   * The totals on the drill-down page: each summed column of the one
   * aggregated row adds up every row of the frame holding the selected
   * value, nothing else.
   */
  lemma DrillDownTotals(t: Table, dim: string, v: string, c: string)
    requires t.Valid() && dim in ValidDimensions && dim in t.columns
    requires c in SumColumns(t.columns) && NotMetricName(c)
    ensures Table(t.columns, Filter(t.rows, dim, v)).Valid()
    ensures SingleSummary(Table(t.columns, Filter(t.rows, dim, v)), dim).Ok?
    ensures ColumnTotal(SingleSummary(Table(t.columns, Filter(t.rows, dim, v)), dim).value.rows, c) == GroupSum(t.rows, [dim], [v], c)
  {
    var f := Table(t.columns, Filter(t.rows, dim, v));
    SingleSums(f, dim, c);
    forall i | 0 <= i < |f.rows| ensures KeyOf(f.rows[i], [dim]).Some? {
      assert dim in f.rows[i] && f.rows[i][dim].Str?;
    }
    KeyedTotalIsTotal(f.rows, [dim], c);
    FilterTotal(t.rows, dim, v, c);
  }

  /**
   * The drill-down on a non-empty selection gives exactly one group, the
   * selected value; on a frame without a column to sum, `aggregate_single`
   * raises instead.
   */
  lemma DrillDown(t: Table, dim: string, v: string)
    requires t.Valid() && dim in ValidDimensions && dim in t.columns
    requires Filter(t.rows, dim, v) != []
    ensures Table(t.columns, Filter(t.rows, dim, v)).Valid()
    ensures var r := SingleSummary(Table(t.columns, Filter(t.rows, dim, v)), dim);
      && (r.Ok? <==> SumColumns(t.columns) != [])
      && (r.Err? ==> r.error == NoObjectsToConcatenate)
      && (r.Ok? ==> |r.value.rows| == 1 && r.value.rows[0][dim] == Str(v))
  {
    var f := Table(t.columns, Filter(t.rows, dim, v));
    if SumColumns(t.columns) != [] {
      SelectionSummary(f, dim, v);
    }
  }

  /** Aggregating rows that all hold `v` by `dim` gives one row, holding `v`. */
  lemma SelectionSummary(f: Table, dim: string, v: string)
    requires f.Valid() && dim in ValidDimensions && dim in f.columns && SumColumns(f.columns) != []
    requires f.rows != [] && forall i :: 0 <= i < |f.rows| ==> dim in f.rows[i] && f.rows[i][dim] == Str(v)
    ensures SingleSummary(f, dim).Ok?
    ensures |SingleSummary(f, dim).value.rows| == 1 && SingleSummary(f, dim).value.rows[0][dim] == Str(v)
  {
    SingleGroups(f, dim);
    SingleValueRows(SingleSummary(f, dim).value.rows, f.rows, dim, v);
  }

  /**
   * Strictly ascending rows holding exactly the values of a non-empty list
   * of rows that all have value `v` are a single row with `v`.
   */
  lemma SingleValueRows(out: seq<Row>, rows: seq<Row>, dim: string, v: string)
    requires rows != [] && forall i :: 0 <= i < |rows| ==> dim in rows[i] && rows[i][dim] == Str(v)
    requires AscendingBy(out, dim) && SameValues(out, rows, dim)
    ensures |out| == 1 && out[0][dim] == Str(v)
  {
    assert rows[0][dim] == Str(v);
    forall i | 0 <= i < |out| ensures out[i][dim] == Str(v) {
      var w := out[i][dim].s;
      assert out[i][dim] == Str(w);
      var l :| 0 <= l < |rows| && dim in rows[l] && rows[l][dim] == Str(w);
    }
    if |out| > 1 {
      assert StrLt(out[0][dim].s, out[1][dim].s);
      StrLtIrreflexive(v);
    }
  }
}
