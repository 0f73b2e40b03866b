/**
 * `aggregate_single`: group by one dimension column, sum every other column,
 * and add the derived metrics whose source columns are present. The
 * dimension list and the summed columns are shared with `aggregate_cross`,
 * which module `CrossMode` models.
 */
module Aggregation {
  import opened Wrappers
  import opened Text
  import opened Tables
  import opened Formatting
  import opened Grouping
  import opened GroupTables
  import opened DimensionExtractor

  /** The columns one may group by. */
  const ValidDimensions: seq<string> := DimensionColumns

  /** The columns that are never summed. */
  const NotSummed: seq<string> := [CampaignName, ParentCodeColumn, PatternColumn, AttributeColumn]

  /** The summed columns: every column except those in `NotSummed`, in their original order. */
  function SumColumns(columns: seq<string>): (r: seq<string>)
    ensures forall c :: c in r <==> c in columns && c !in NotSummed
    ensures Distinct(columns) ==> Distinct(r)
  {
    if columns == [] then []
    else
      var rest := SumColumns(columns[1..]);
      assert Distinct(columns) ==> columns[0] !in columns[1..];
      (if columns[0] in NotSummed then [] else [columns[0]]) + rest
  }

  /** The summed columns keep the frame's column order. */
  lemma {:induction false} SumColumnsInOrder(columns: seq<string>)
    ensures Subsequence(SumColumns(columns), columns)
  {
    if columns != [] {
      var rest := SumColumns(columns[1..]);
      SumColumnsInOrder(columns[1..]);
      SubsequenceCons(rest, columns[1..], columns[0]);
      assert [columns[0]] + columns[1..] == columns && [] + rest == rest;
    }
  }

  /** A frame whose columns are all excluded has no column to sum. */
  lemma {:induction false} NothingSummed(columns: seq<string>)
    requires forall i :: 0 <= i < |columns| ==> columns[i] in NotSummed
    ensures SumColumns(columns) == []
  {
    if columns != [] {
      NothingSummed(columns[1..]);
    }
  }

  // ---------------------------------------------------------------------
  // Metric roles and the synonym table
  // ---------------------------------------------------------------------

  /** The five metric roles the derived columns are built from. */
  datatype Role = Impressions | Clicks | Spend | Sales | Conversions

  /** The roles in the order the synonym table lists them. */
  const RoleOrder: seq<Role> := [Impressions, Clicks, Spend, Sales, Conversions]

  /** The accepted column names of each role, most preferred first. */
  function Candidates(role: Role): seq<string> {
    match role
    case Impressions => ["Impressions", "曝光量", "展示"]
    case Clicks => ["Clicks", "Click", "点击", "点击数"]
    case Spend => ["Spend", "Spend ($)", "花费", "支出"]
    case Sales => ["Sales", "销售额", "销售"]
    case Conversions => ["Conversions", "转化", "转化数"]
  }

  /** Every role has at least one accepted name, none twice, and none of them is excluded from the sums. */
  lemma CandidateLists()
    ensures forall role :: Candidates(role) != [] && Distinct(Candidates(role))
    ensures forall role, i :: 0 <= i < |Candidates(role)| ==> Candidates(role)[i] !in NotSummed
  {
  }

  /** The first of `names` that is a column, if any. */
  function FirstPresent(names: seq<string>, columns: seq<string>): (r: Option<string>)
    ensures r.None? <==> forall i :: 0 <= i < |names| ==> names[i] !in columns
    ensures r.Some? ==> (r.value in columns &&
      exists j :: 0 <= j < |names| && names[j] == r.value && forall i :: 0 <= i < j ==> names[i] !in columns)
  {
    if names == [] then None
    else if names[0] in columns then Some(names[0])
    else
      var r := FirstPresent(names[1..], columns);
      if r.Some? then
        var j :| 0 <= j < |names[1..]| && names[1..][j] == r.value && forall i :: 0 <= i < j ==> names[1..][i] !in columns;
        assert names[j + 1] == r.value && forall i :: 0 <= i < j + 1 ==> names[i] !in columns;
        r
      else r
  }

  /** The role bindings for the roles in `roles`. */
  function ResolvedAmong(roles: seq<Role>, columns: seq<string>): map<Role, string> {
    map role | role in roles && FirstPresent(Candidates(role), columns).Some? :: FirstPresent(Candidates(role), columns).value
  }

  /** Each role bound to its first candidate that is a column; a role with none stays unbound. */
  function Resolved(columns: seq<string>): (actual: map<Role, string>)
    ensures forall role :: role in actual <==> FirstPresent(Candidates(role), columns).Some?
    ensures forall role :: role in actual ==> actual[role] == FirstPresent(Candidates(role), columns).value
  {
    EveryRoleListed();
    ResolvedAmong(RoleOrder, columns)
  }

  lemma EveryRoleListed()
    ensures forall role: Role :: role in RoleOrder
  {
    forall role: Role ensures role in RoleOrder {
      match role
      case Impressions => assert RoleOrder[0] == role;
      case Clicks => assert RoleOrder[1] == role;
      case Spend => assert RoleOrder[2] == role;
      case Sales => assert RoleOrder[3] == role;
      case Conversions => assert RoleOrder[4] == role;
    }
  }

  /** Adding one role to the scanned prefix binds it exactly when one of its candidates is present. */
  lemma ResolvedAmongStep(roles: seq<Role>, role: Role, columns: seq<string>)
    ensures ResolvedAmong(roles + [role], columns)
         == if FirstPresent(Candidates(role), columns).Some?
            then ResolvedAmong(roles, columns)[role := FirstPresent(Candidates(role), columns).value]
            else ResolvedAmong(roles, columns)
  {
    var fp := FirstPresent(Candidates(role), columns);
    var l, r0 := ResolvedAmong(roles + [role], columns), ResolvedAmong(roles, columns);
    var r := if fp.Some? then r0[role := fp.value] else r0;
    forall x ensures x in roles + [role] <==> x in roles || x == role {
    }
    assert l.Keys == r.Keys;
  }

  lemma FirstPresentAt(names: seq<string>, columns: seq<string>, j: nat)
    requires j < |names| && names[j] in columns
    requires forall i :: 0 <= i < j ==> names[i] !in columns
    ensures FirstPresent(names, columns) == Some(names[j])
  {
    var r := FirstPresent(names, columns);
    var k :| 0 <= k < |names| && names[k] == r.value && forall i :: 0 <= i < k ==> names[i] !in columns;
    assert k == j;
  }

  /**
   * The loop that builds `actual_columns`: for each role, scan its candidates
   * and bind the first present one.
   */
  method ResolveRoles(columns: seq<string>) returns (actual: map<Role, string>)
    ensures actual == Resolved(columns)
  {
    actual := map[];
    for i := 0 to |RoleOrder|
      invariant actual == ResolvedAmong(RoleOrder[..i], columns)
    {
      var role := RoleOrder[i];
      var found := ScanCandidates(Candidates(role), columns);
      if found.Some? {
        actual := actual[role := found.value];
      }
      PrefixStep(RoleOrder, i);
      ResolvedAmongStep(RoleOrder[..i], role, columns);
    }
    PrefixStep(RoleOrder, |RoleOrder|);
  }

  /** One more element of a fixed list: the prefix grows by that element; the full prefix is the list. */
  lemma PrefixStep<T>(s: seq<T>, i: nat)
    requires i <= |s|
    ensures i < |s| ==> s[..i + 1] == s[..i] + [s[i]]
    ensures i == |s| ==> s[..i] == s
  {
  }

  /** The inner loop: the first candidate that is a column, stopping there (`break`). */
  method ScanCandidates(names: seq<string>, columns: seq<string>) returns (found: Option<string>)
    ensures found == FirstPresent(names, columns)
  {
    found := None;
    for j := 0 to |names|
      invariant forall l :: 0 <= l < j ==> names[l] !in columns
    {
      if names[j] in columns {
        FirstPresentAt(names, columns, j);
        return Some(names[j]);
      }
    }
  }

  // ---------------------------------------------------------------------
  // Derived metrics
  // ---------------------------------------------------------------------

  datatype Metric = CTR | CPC | ROAS | ACoS | CVR | CPA

  /** The derived columns, in the order they are appended. */
  const MetricOrder: seq<Metric> := [CTR, CPC, ROAS, ACoS, CVR, CPA]

  /** A derived column: its name, numerator / denominator roles, whether it is scaled by 100, and its display kind. */
  datatype MetricDef = MetricDef(name: string, numerator: Role, denominator: Role, percent: bool, kind: Kind)

  /**
   * The formula of each derived column. Every formula divides two different
   * roles; exactly the percentages are scaled by 100; every kind has two decimals.
   */
  function Def(m: Metric): (d: MetricDef)
    ensures d.numerator != d.denominator
    ensures d.percent <==> d.kind == Percent
    ensures d.kind == Percent || d.kind == Currency || d.kind == Ratio
  {
    match m
    case CTR => MetricDef("CTR", Clicks, Impressions, true, Percent)
    case CPC => MetricDef("CPC", Spend, Clicks, false, Currency)
    case ROAS => MetricDef("ROAS", Sales, Spend, false, Ratio)
    case ACoS => MetricDef("ACoS", Spend, Sales, true, Percent)
    case CVR => MetricDef("CVR", Conversions, Clicks, true, Percent)
    case CPA => MetricDef("CPA", Spend, Conversions, false, Currency)
  }

  function MetricName(m: Metric): string {
    Def(m).name
  }

  /** A derived column is computed exactly when both of its roles are bound. */
  predicate Active(m: Metric, actual: map<Role, string>) {
    Def(m).numerator in actual && Def(m).denominator in actual
  }

  /** `numerator / denominator`, times 100 for the percentages. */
  function Quotient(m: Metric, num: real, den: real): Float {
    var q := Divide(num, den);
    if Def(m).percent then Times100(q) else q
  }

  /** How a display kind decorates a number's text. */
  function Decorated(kind: Kind, t: string): string {
    match kind
    case Percent => t + "%"
    case Currency => "¥" + t
    case Ratio => t + "x"
    case _ => t
  }

  /**
   * The display text of a derived cell, `format_value(x, kind) if pd.notna(x) else "-"`:
   * "-" exactly for 0/0; the rounded quotient for a non-zero denominator;
   * 'inf' or '-inf' for a non-zero value over zero.
   */
  function MetricText(m: Metric, num: real, den: real): (s: string)
    ensures s == "-" <==> num == 0.0 && den == 0.0
    ensures den != 0.0 ==> s == Decorated(Def(m).kind, Fixed2((if Def(m).percent then 100.0 else 1.0) * (num / den)))
    ensures den == 0.0 && num != 0.0 ==> s == Decorated(Def(m).kind, if num > 0.0 then "inf" else "-inf")
  {
    var q := Quotient(m, num, den);
    QuotientValue(m, num, den);
    if q.NaN? then "-"
    else
      DecoratedFormat(q, Def(m).kind);
      FormatValue(Number(q), Def(m).kind).value
  }

  /** The quotient is NaN only for 0/0, finite for a non-zero denominator, and a signed infinity otherwise. */
  lemma QuotientValue(m: Metric, num: real, den: real)
    ensures Quotient(m, num, den).NaN? <==> num == 0.0 && den == 0.0
    ensures den != 0.0 ==> Quotient(m, num, den) == Finite((if Def(m).percent then 100.0 else 1.0) * (num / den))
    ensures den == 0.0 && num != 0.0 ==> Quotient(m, num, den) == if num > 0.0 then PosInf else NegInf
  {
  }

  /** The three display kinds of the metrics format a non-NaN number as its decorated `.2f` text, never as "-". */
  lemma DecoratedFormat(f: Float, kind: Kind)
    requires !f.NaN? && kind != Integer && kind != Plain
    ensures FormatValue(Number(f), kind) == Ok(Decorated(kind, FloatFixed2(f)))
    ensures Decorated(kind, FloatFixed2(f)) != "-"
  {
    assert |FloatFixed2(f)| >= 3;
  }

  /** The metrics of `ms` whose roles are bound, in order. */
  function ActiveMetrics(actual: map<Role, string>, ms: seq<Metric>): (r: seq<Metric>)
    ensures forall m :: m in r <==> m in ms && Active(m, actual)
  {
    if ms == [] then []
    else
      var last := ms[|ms| - 1];
      ActiveMetrics(actual, ms[..|ms| - 1]) + (if Active(last, actual) then [last] else [])
  }

  /** The computed metrics keep the order of `ms`: CTR, CPC, ROAS, ACoS, CVR, CPA for `MetricOrder`. */
  lemma {:induction false} ActiveMetricsInOrder(actual: map<Role, string>, ms: seq<Metric>)
    ensures Subsequence(ActiveMetrics(actual, ms), ms)
  {
    if ms != [] {
      var init, last := ms[..|ms| - 1], ms[|ms| - 1];
      var r0 := ActiveMetrics(actual, init);
      ActiveMetricsInOrder(actual, init);
      SubsequenceSnoc(r0, init, last);
      assert init + [last] == ms && r0 + [] == r0;
    }
  }

  function Names(ms: seq<Metric>): (names: seq<string>)
    ensures |names| == |ms|
    ensures forall i :: 0 <= i < |ms| ==> names[i] == MetricName(ms[i])
  {
    seq(|ms|, i requires 0 <= i < |ms| => MetricName(ms[i]))
  }

  lemma MetricNameInjective()
    ensures forall m1, m2 :: MetricName(m1) == MetricName(m2) ==> m1 == m2
  {
    forall m1, m2 | MetricName(m1) == MetricName(m2) ensures m1 == m2 {
      var n1, n2 := MetricName(m1), MetricName(m2);
      assert n1[|n1| - 1] == n2[|n2| - 1] && n1[0] == n2[0] && |n1| == |n2|;
    }
  }

  /** No role's column is a derived column, so appending a metric never changes another metric's input. */
  lemma CandidatesAreNotMetricNames()
    ensures forall role, m :: MetricName(m) !in Candidates(role)
  {
  }

  /** The role columns of a table whose roles are resolved: present, and not derived columns. */
  predicate RolesIn(actual: map<Role, string>, columns: seq<string>) {
    forall role :: role in actual ==> actual[role] in columns && forall m :: actual[role] != MetricName(m)
  }

  /** The text cell of metric `m` on a row whose role columns hold the group totals. */
  function MetricCell(row: Row, actual: map<Role, string>, m: Metric): Cell
    requires Active(m, actual) && actual[Def(m).numerator] in row && actual[Def(m).denominator] in row
  {
    Str(MetricText(m, NumOf(row[actual[Def(m).numerator]]), NumOf(row[actual[Def(m).denominator]])))
  }

  /** The derived cells of one grouped row for the active metrics of `ms`. */
  function DerivedCells(row: Row, actual: map<Role, string>, ms: seq<Metric>): (d: map<string, Cell>)
    requires forall role :: role in actual ==> actual[role] in row
    ensures d.Keys == ColumnSet(Names(ActiveMetrics(actual, ms)))
    ensures forall m :: m in ms && Active(m, actual) ==> d[MetricName(m)] == MetricCell(row, actual, m)
  {
    if ms == [] then map[]
    else
      var init, last := ms[..|ms| - 1], ms[|ms| - 1];
      var d := DerivedCells(row, actual, init);
      var r := if Active(last, actual) then d[MetricName(last) := MetricCell(row, actual, last)] else d;
      ActiveNamesStep(actual, ms);
      MetricNameInjective();
      r
  }

  /** The names of the active metrics of `ms` are those of its prefix, plus the last one's when it is active. */
  lemma ActiveNamesStep(actual: map<Role, string>, ms: seq<Metric>)
    requires ms != []
    ensures var init, last := ms[..|ms| - 1], ms[|ms| - 1];
      ColumnSet(Names(ActiveMetrics(actual, ms)))
        == ColumnSet(Names(ActiveMetrics(actual, init))) + (if Active(last, actual) then {MetricName(last)} else {})
  {
    var init, last := ms[..|ms| - 1], ms[|ms| - 1];
    var n, n0 := Names(ActiveMetrics(actual, ms)), Names(ActiveMetrics(actual, init));
    assert n == n0 + (if Active(last, actual) then [MetricName(last)] else []);
  }

  /** `cols` with `a` and then `b` appended is `cols` with `a + b` appended. */
  lemma {:induction false} AppendMissingConcat(cols: seq<string>, a: seq<string>, b: seq<string>)
    ensures AppendMissing(cols, a + b) == AppendMissing(AppendMissing(cols, a), b)
    decreases a
  {
    if a != [] {
      assert (a + b)[1..] == a[1..] + b;
      AppendMissingConcat(if a[0] in cols then cols else cols + [a[0]], a[1..], b);
    } else {
      assert a + b == b;
    }
  }

  /**
   * The grouped table with the active metrics of `ms` added: new columns go
   * after the existing ones in the order of `ms`, an existing column of the
   * same name is overwritten in place.
   */
  function WithMetrics(base: Table, actual: map<Role, string>, ms: seq<Metric>): (t: Table)
    requires base.Valid() && RolesIn(actual, base.columns)
    ensures t.Valid() && |t.rows| == |base.rows|
    ensures t.columns == AppendMissing(base.columns, Names(ActiveMetrics(actual, ms)))
  {
    var cols := AppendMissing(base.columns, Names(ActiveMetrics(actual, ms)));
    Table(cols, seq(|base.rows|, i requires 0 <= i < |base.rows| => base.rows[i] + DerivedCells(base.rows[i], actual, ms)))
  }

  /** Row `i` of `WithMetrics`: the grouped row and its derived cells. */
  lemma WithMetricsRow(base: Table, actual: map<Role, string>, ms: seq<Metric>, i: nat)
    requires base.Valid() && RolesIn(actual, base.columns) && i < |base.rows|
    ensures forall role :: role in actual ==> actual[role] in base.rows[i]
    ensures WithMetrics(base, actual, ms).rows[i] == base.rows[i] + DerivedCells(base.rows[i], actual, ms)
  {
  }

  /** The `df[name] / df[other]` column of one derived metric, formatted. */
  function DerivedColumn(t: Table, m: Metric, actual: map<Role, string>): (col: seq<Cell>)
    requires t.Valid() && Active(m, actual) && RolesIn(actual, t.columns)
    ensures |col| == |t.rows|
    ensures forall i :: 0 <= i < |t.rows| ==> col[i] == MetricCell(t.rows[i], actual, m)
    ensures forall i :: 0 <= i < |t.rows| ==>
      (col[i] == Str("-") <==> NumOf(t.rows[i][actual[Def(m).numerator]]) == 0.0 && NumOf(t.rows[i][actual[Def(m).denominator]]) == 0.0)
  {
    seq(|t.rows|, i requires 0 <= i < |t.rows| =>
      Str(MetricText(m, NumOf(t.rows[i][actual[Def(m).numerator]]), NumOf(t.rows[i][actual[Def(m).denominator]]))))
  }

  /** Appending one more metric is one more `result[name] = ...` assignment, or nothing when it is inactive. */
  lemma WithMetricsStep(base: Table, actual: map<Role, string>, ms: seq<Metric>, m: Metric)
    requires base.Valid() && RolesIn(actual, base.columns)
    ensures RolesIn(actual, WithMetrics(base, actual, ms).columns)
    ensures var t := WithMetrics(base, actual, ms);
      WithMetrics(base, actual, ms + [m])
        == if Active(m, actual) then AssignColumn(t, MetricName(m), DerivedColumn(t, m, actual)) else t
  {
    WithMetricsColumnsStep(base, actual, ms, m);
    var t := WithMetrics(base, actual, ms);
    var w := WithMetrics(base, actual, ms + [m]);
    if Active(m, actual) {
      var u := AssignColumn(t, MetricName(m), DerivedColumn(t, m, actual));
      AssignMetric(t, m, actual);
      ActiveRowsStep(base, actual, ms, m, t.rows, u.rows);
    } else {
      InactiveRowsStep(base, actual, ms, m);
    }
  }

  /** `result[name] = ...` of an active metric sets that cell of every row to the metric's text. */
  lemma AssignMetric(t: Table, m: Metric, actual: map<Role, string>)
    requires t.Valid() && Active(m, actual) && RolesIn(actual, t.columns)
    ensures var u := AssignColumn(t, MetricName(m), DerivedColumn(t, m, actual));
      && |u.rows| == |t.rows|
      && forall i :: 0 <= i < |t.rows| ==> u.rows[i] == t.rows[i][MetricName(m) := MetricCell(t.rows[i], actual, m)]
  {
  }

  /** Assigning an active metric's column to every row of `WithMetrics(base, actual, ms)` gives the rows for `ms + [m]`. */
  lemma ActiveRowsStep(base: Table, actual: map<Role, string>, ms: seq<Metric>, m: Metric, rows: seq<Row>, next: seq<Row>)
    requires base.Valid() && RolesIn(actual, base.columns) && Active(m, actual)
    requires rows == WithMetrics(base, actual, ms).rows && |next| == |base.rows|
    requires forall i :: 0 <= i < |base.rows| ==> next[i] == rows[i][MetricName(m) := MetricCell(rows[i], actual, m)]
    ensures next == WithMetrics(base, actual, ms + [m]).rows
  {
    var w := WithMetrics(base, actual, ms + [m]);
    forall i | 0 <= i < |base.rows| ensures next[i] == w.rows[i] {
      DerivedRowStep(base.rows[i], actual, ms, m);
    }
  }

  /** An inactive metric adds no cells. */
  lemma InactiveRowsStep(base: Table, actual: map<Role, string>, ms: seq<Metric>, m: Metric)
    requires base.Valid() && RolesIn(actual, base.columns) && !Active(m, actual)
    ensures WithMetrics(base, actual, ms + [m]).rows == WithMetrics(base, actual, ms).rows
  {
    var ms' := ms + [m];
    assert ms'[..|ms'| - 1] == ms;
  }

  lemma WithMetricsColumnsStep(base: Table, actual: map<Role, string>, ms: seq<Metric>, m: Metric)
    requires base.Valid() && RolesIn(actual, base.columns)
    ensures var t := WithMetrics(base, actual, ms);
      WithMetrics(base, actual, ms + [m]).columns
        == if Active(m, actual) then AppendMissing(t.columns, [MetricName(m)]) else t.columns
  {
    var ms' := ms + [m];
    assert ms'[..|ms'| - 1] == ms && ms'[|ms'| - 1] == m;
    var act := ActiveMetrics(actual, ms);
    var act' := ActiveMetrics(actual, ms');
    assert act' == act + (if Active(m, actual) then [m] else []);
    if Active(m, actual) {
      assert Names(act') == Names(act) + [MetricName(m)];
      AppendMissingConcat(base.columns, Names(act), [MetricName(m)]);
    } else {
      assert Names(act') == Names(act);
    }
  }

  lemma DerivedRowStep(row: Row, actual: map<Role, string>, ms: seq<Metric>, m: Metric)
    requires forall role :: role in actual ==> actual[role] in row && forall m' :: actual[role] != MetricName(m')
    requires Active(m, actual)
    ensures var before := row + DerivedCells(row, actual, ms);
      row + DerivedCells(row, actual, ms + [m]) == before[MetricName(m) := MetricCell(before, actual, m)]
  {
    var ms' := ms + [m];
    assert ms'[..|ms'| - 1] == ms && ms'[|ms'| - 1] == m;
    var d := DerivedCells(row, actual, ms);
    var before := row + d;
    var c := MetricCell(row, actual, m);
    assert DerivedCells(row, actual, ms') == d[MetricName(m) := c];
    assert actual[Def(m).numerator] !in d && actual[Def(m).denominator] !in d;
    assert MetricCell(before, actual, m) == c;
    MapUnionUpdate(row, d, MetricName(m), c);
  }

  lemma MapUnionUpdate<K, V>(a: map<K, V>, b: map<K, V>, k: K, v: V)
    ensures a + b[k := v] == (a + b)[k := v]
  {
  }

  // ---------------------------------------------------------------------
  // aggregate_single
  // ---------------------------------------------------------------------

  /** The grouping column is never summed, so it and the summed columns are distinct. */
  lemma KeyThenSummedDistinct(columns: seq<string>, dims: seq<string>)
    requires Distinct(columns) && Distinct(dims)
    requires forall d :: d in dims ==> d in NotSummed
    ensures Distinct(dims + SumColumns(columns))
  {
    var s := SumColumns(columns);
    forall i, j | 0 <= i < j < |dims + s| ensures (dims + s)[i] != (dims + s)[j] {
      if j >= |dims| && i < |dims| {
        assert (dims + s)[j] in s;
      }
    }
  }

  /** The grouped table of single mode: the dimension column, then the summed columns' group totals. */
  function SingleGrouped(t: Table, dim: string): (g: Table)
    requires t.Valid() && dim in ValidDimensions
    ensures g.Valid() && g.columns == [dim] + SumColumns(t.columns)
  {
    KeyThenSummedDistinct(t.columns, [dim]);
    GroupedTable(t.rows, [dim], SumColumns(t.columns))
  }

  /** Role bindings resolved against a grouped table's columns satisfy `RolesIn`. */
  lemma ResolvedRolesIn(columns: seq<string>)
    ensures RolesIn(Resolved(columns), columns)
  {
    CandidatesAreNotMetricNames();
    forall role | role in Resolved(columns)
      ensures Resolved(columns)[role] in Candidates(role)
    {
      var names := Candidates(role);
      var j :| 0 <= j < |names| && names[j] == FirstPresent(names, columns).value
        && forall i :: 0 <= i < j ==> names[i] !in columns;
    }
  }

  /**
   * What `aggregate_single(df, dimension)` returns or raises: the dimension
   * check, pandas' KeyError for a missing grouping column, pandas' ValueError
   * when there is no column to sum, then the grouped table with the derived
   * metrics whose roles resolve, in the fixed order.
   */
  function SingleSummary(t: Table, dim: string): (r: Result<Table, Error>)
    requires t.Valid()
    ensures r == Err(InvalidDimension) <==> dim !in ValidDimensions
    ensures r == Err(MissingColumn(dim)) <==> dim in ValidDimensions && dim !in t.columns
    ensures r == Err(NoObjectsToConcatenate) <==> dim in ValidDimensions && dim in t.columns && SumColumns(t.columns) == []
    ensures r.Ok? <==> dim in ValidDimensions && dim in t.columns && SumColumns(t.columns) != []
  {
    if dim !in ValidDimensions then Err(InvalidDimension)
    else if dim !in t.columns then Err(MissingColumn(dim))
    else if SumColumns(t.columns) == [] then Err(NoObjectsToConcatenate)
    else
      var base := SingleGrouped(t, dim);
      ResolvedRolesIn(base.columns);
      Ok(WithMetrics(base, Resolved(base.columns), MetricOrder))
  }

  /** `[dimension] + [c for c in columns if c != dimension]`. */
  function DimensionFirst(columns: seq<string>, dim: string): (r: seq<string>)
    ensures Distinct(columns) && columns != [] && columns[0] == dim ==> r == columns
  {
    assert Distinct(columns) && columns != [] && columns[0] == dim ==> Without(columns[1..], dim) == columns[1..] by {
      if Distinct(columns) && columns != [] && columns[0] == dim {
        WithoutAbsent(columns[1..], dim);
      }
    }
    [dim] + Without(columns, dim)
  }

  function Without(columns: seq<string>, x: string): (r: seq<string>)
    ensures forall c :: c in r <==> c in columns && c != x
  {
    if columns == [] then []
    else (if columns[0] == x then [] else [columns[0]]) + Without(columns[1..], x)
  }

  lemma {:induction false} WithoutAbsent(columns: seq<string>, x: string)
    requires x !in columns
    ensures Without(columns, x) == columns
  {
    if columns != [] {
      WithoutAbsent(columns[1..], x);
    }
  }

  /**
   * `aggregate_single`: validate the dimension, group and sum, resolve the
   * roles, assign the derived columns one by one, put the dimension column
   * first and return the rows in ascending key order.
   */
  method AggregateSingle(df: Table, dim: string) returns (r: Result<Table, Error>)
    requires df.Valid()
    ensures r == SingleSummary(df, dim)
  {
    if dim !in ValidDimensions {
      return Err(InvalidDimension);
    }
    if dim !in df.columns {
      return Err(MissingColumn(dim));
    }
    if SumColumns(df.columns) == [] {
      return Err(NoObjectsToConcatenate);
    }
    var base := SingleGrouped(df, dim);
    var result := new Frame.Copy(base);
    var actual := ResolveRoles(result.columns);
    SingleSummaryIsWithMetrics(df, dim);
    AddDerivedColumns(result, actual);
    // The grouping column already comes first, so reordering the columns keeps them as they are;
    // the groups already come in ascending key order, so sorting by the key keeps the rows too.
    var cols := DimensionFirst(result.columns, dim);
    r := Ok(Table(cols, result.rows));
  }

  /** The successful summary is the grouped table with the resolved metrics, and its first column is the dimension. */
  lemma SingleSummaryIsWithMetrics(t: Table, dim: string)
    requires t.Valid() && dim in ValidDimensions && dim in t.columns && SumColumns(t.columns) != []
    ensures RolesIn(Resolved(SingleGrouped(t, dim).columns), SingleGrouped(t, dim).columns)
    ensures var base := SingleGrouped(t, dim);
      var final := WithMetrics(base, Resolved(base.columns), MetricOrder);
      SingleSummary(t, dim) == Ok(final) && final.columns[0] == dim && DimensionFirst(final.columns, dim) == final.columns
  {
    var base := SingleGrouped(t, dim);
    ResolvedRolesIn(base.columns);
    var final := WithMetrics(base, Resolved(base.columns), MetricOrder);
    assert final.columns[..|base.columns|] == base.columns;
    assert final.columns[0] == base.columns[0] == dim;
  }

  /** The six `if` blocks that add CTR, CPC, ROAS, ACoS, CVR and CPA, one assignment per active metric. */
  method AddDerivedColumns(result: Frame, actual: map<Role, string>)
    requires result.Value().Valid() && RolesIn(actual, result.columns)
    modifies result
    ensures result.Value() == WithMetrics(old(result.Value()), actual, MetricOrder)
  {
    ghost var base := result.Value();
    WithNoMetrics(base, actual);
    for i := 0 to |MetricOrder|
      invariant result.Value() == WithMetrics(base, actual, MetricOrder[..i])
    {
      AddMetric(result, actual, base, MetricOrder[..i], MetricOrder[i]);
      PrefixStep(MetricOrder, i);
    }
    PrefixStep(MetricOrder, |MetricOrder|);
  }

  /** One of the six `if` blocks: assign the column of `m` when both of its roles resolved. */
  method AddMetric(result: Frame, actual: map<Role, string>, ghost base: Table, ghost ms: seq<Metric>, m: Metric)
    requires base.Valid() && RolesIn(actual, base.columns)
    requires result.Value() == WithMetrics(base, actual, ms)
    modifies result
    ensures result.Value() == WithMetrics(base, actual, ms + [m])
  {
    WithMetricsStep(base, actual, ms, m);
    if Active(m, actual) {
      result.Assign(MetricName(m), DerivedColumn(result.Value(), m, actual));
    }
  }

  lemma WithNoMetrics(base: Table, actual: map<Role, string>)
    requires base.Valid() && RolesIn(actual, base.columns)
    ensures WithMetrics(base, actual, []) == base
  {
    var w := WithMetrics(base, actual, []);
    assert w.columns == base.columns;
    forall i | 0 <= i < |base.rows| ensures w.rows[i] == base.rows[i] {
      assert DerivedCells(base.rows[i], actual, []) == map[];
    }
    assert w.rows == base.rows;
  }
}
