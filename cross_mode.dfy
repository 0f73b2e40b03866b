/**
 * `aggregate_cross(df, dim1, dim2)`: group by an ordered pair of dimension
 * columns and sum every other column; no derived metrics.
 */
module CrossMode {
  import opened Wrappers
  import opened Text
  import opened Tables
  import opened Grouping
  import opened GroupTables
  import opened DimensionExtractor
  import opened Aggregation

  /**
   * What `aggregate_cross` returns or raises: both arguments must be
   * dimension columns (checked first), they must differ, both must be
   * columns of the frame (pandas' KeyError, first missing one named), and
   * there must be a column to sum (pandas' ValueError from `agg({})`).
   */
  function CrossSummary(t: Table, d1: string, d2: string): (r: Result<Table, Error>)
    requires t.Valid()
    ensures r == Err(InvalidDimension) <==> d1 !in ValidDimensions || d2 !in ValidDimensions
    ensures r == Err(DuplicateDimension) <==> d1 in ValidDimensions && d2 in ValidDimensions && d1 == d2
    ensures r.Err? && r.error.MissingColumn? <==>
      d1 in ValidDimensions && d2 in ValidDimensions && d1 != d2 && (d1 !in t.columns || d2 !in t.columns)
    ensures r.Err? && r.error.MissingColumn? ==> r.error.name == if d1 !in t.columns then d1 else d2
    ensures r == Err(NoObjectsToConcatenate) <==>
      d1 in ValidDimensions && d2 in ValidDimensions && d1 != d2 && d1 in t.columns && d2 in t.columns && SumColumns(t.columns) == []
    ensures r.Ok? ==> r.value.Valid() && r.value.columns == [d1, d2] + SumColumns(t.columns)
  {
    if d1 !in ValidDimensions || d2 !in ValidDimensions then Err(InvalidDimension)
    else if d1 == d2 then Err(DuplicateDimension)
    else if d1 !in t.columns then Err(MissingColumn(d1))
    else if d2 !in t.columns then Err(MissingColumn(d2))
    else if SumColumns(t.columns) == [] then Err(NoObjectsToConcatenate)
    else
      KeyThenSummedDistinct(t.columns, [d1, d2]);
      Ok(GroupedTable(t.rows, [d1, d2], SumColumns(t.columns)))
  }

  /** The cross result is the table grouped by the pair, with one row per group key. */
  lemma CrossIsGrouped(t: Table, d1: string, d2: string)
    requires t.Valid() && d1 in ValidDimensions && d2 in ValidDimensions && d1 != d2
    requires d1 in t.columns && d2 in t.columns && SumColumns(t.columns) != []
    ensures Distinct([d1, d2] + SumColumns(t.columns))
    ensures CrossSummary(t, d1, d2) == Ok(GroupedTable(t.rows, [d1, d2], SumColumns(t.columns)))
  {
    KeyThenSummedDistinct(t.columns, [d1, d2]);
  }

  /** On two-column keys the order is by the first value, then by the second. */
  lemma KeyLtPair(a1: string, a2: string, b1: string, b2: string)
    ensures KeyLt([a1, a2], [b1, b2]) <==> StrLt(a1, b1) || (a1 == b1 && StrLt(a2, b2))
  {
    assert [a1, a2][1..] == [a2] && [b1, b2][1..] == [b2];
    KeyLtSingle(a2, b2);
  }

  /** A two-column key is the pair of strings in those columns. */
  lemma KeyOfPair(row: Row, d1: string, d2: string)
    ensures KeyOf(row, [d1, d2])
         == if d1 in row && row[d1].Str? && d2 in row && row[d2].Str? then Some([row[d1].s, row[d2].s]) else None
  {
    assert [d1, d2][1..] == [d2];
    KeyOfSingle(row, d2);
    if d1 in row && row[d1].Str? && d2 in row && row[d2].Str? {
      assert [row[d1].s] + [row[d2].s] == [row[d1].s, row[d2].s];
    }
  }

  /** The key columns of the cross result list the group keys, in order. */
  lemma CrossKeyColumns(t: Table, d1: string, d2: string)
    requires t.Valid() && d1 in ValidDimensions && d2 in ValidDimensions && d1 != d2
    requires d1 in t.columns && d2 in t.columns && SumColumns(t.columns) != []
    ensures var r := CrossSummary(t, d1, d2).value;
      var keys := GroupKeys(t.rows, [d1, d2]);
      && |r.rows| == |keys|
      && forall i :: 0 <= i < |r.rows| ==>
           (d1 in r.rows[i] && d2 in r.rows[i] && r.rows[i][d1] == Str(keys[i][0]) && r.rows[i][d2] == Str(keys[i][1]))
  {
    CrossIsGrouped(t, d1, d2);
    GroupedKeyCells(t.rows, [d1, d2], SumColumns(t.columns));
    var dims := [d1, d2];
    assert dims[0] == d1 && dims[1] == d2;
  }

  /**
   * Rows of the cross result: strictly ascending by (dim1, dim2), and holding
   * exactly the pairs of string values that occur together in an input row;
   * an empty input gives an empty result.
   */
  lemma CrossGroups(t: Table, d1: string, d2: string)
    requires t.Valid() && d1 in ValidDimensions && d2 in ValidDimensions && d1 != d2
    requires d1 in t.columns && d2 in t.columns && SumColumns(t.columns) != []
    ensures var r := CrossSummary(t, d1, d2).value;
      && AscendingPairs(r.rows, d1, d2)
      && SamePairs(r.rows, t.rows, d1, d2)
      && (t.rows == [] ==> r.rows == [])
  {
    CrossKeyColumns(t, d1, d2);
    PairedRows(t.rows, d1, d2, CrossSummary(t, d1, d2).value.rows);
  }

  /** Every row has strings in `d1` and `d2`, and the rows are strictly ascending by `d1`, then by `d2`. */
  predicate AscendingPairs(out: seq<Row>, d1: string, d2: string) {
    && (forall i :: 0 <= i < |out| ==> d1 in out[i] && d2 in out[i] && out[i][d1].Str? && out[i][d2].Str?)
    && (forall i, j :: 0 <= i < j < |out| ==>
          StrLt(out[i][d1].s, out[j][d1].s) || (out[i][d1] == out[j][d1] && StrLt(out[i][d2].s, out[j][d2].s)))
  }

  /** The pairs of strings in columns `d1`, `d2` of `out` are exactly those of `rows`. */
  ghost predicate SamePairs(out: seq<Row>, rows: seq<Row>, d1: string, d2: string) {
    forall v1, v2 ::
      (exists i :: 0 <= i < |out| && d1 in out[i] && d2 in out[i] && out[i][d1] == Str(v1) && out[i][d2] == Str(v2))
      <==> (exists i :: 0 <= i < |rows| && d1 in rows[i] && d2 in rows[i] && rows[i][d1] == Str(v1) && rows[i][d2] == Str(v2))
  }

  /**
   * Rows listing the two-column group keys of `rows` in order are strictly
   * ascending by the pair and hold exactly the pairs `rows` has; there are
   * none when `rows` is empty.
   */
  lemma PairedRows(rows: seq<Row>, d1: string, d2: string, out: seq<Row>)
    requires |out| == |GroupKeys(rows, [d1, d2])|
    requires forall i :: 0 <= i < |out| ==>
      (d1 in out[i] && d2 in out[i] && out[i][d1] == Str(GroupKeys(rows, [d1, d2])[i][0]) && out[i][d2] == Str(GroupKeys(rows, [d1, d2])[i][1]))
    ensures AscendingPairs(out, d1, d2)
    ensures SamePairs(out, rows, d1, d2)
    ensures rows == [] ==> out == []
  {
    var keys := GroupKeys(rows, [d1, d2]);
    PairsAscending(out, keys, d1, d2);
    forall v1, v2 ensures (exists i :: 0 <= i < |out| && d1 in out[i] && d2 in out[i] && out[i][d1] == Str(v1) && out[i][d2] == Str(v2))
      <==> (exists i :: 0 <= i < |rows| && d1 in rows[i] && d2 in rows[i] && rows[i][d1] == Str(v1) && rows[i][d2] == Str(v2))
    {
      PairPresent(rows, d1, d2, out, v1, v2);
    }
    if rows == [] {
      assert keys == [];
    }
  }

  /** Rows holding strictly ascending pair keys, in order, are strictly ascending by the pair. */
  lemma PairsAscending(out: seq<Row>, keys: seq<Key>, d1: string, d2: string)
    requires StrictlySorted(keys) && |out| == |keys|
    requires forall i :: 0 <= i < |keys| ==> |keys[i]| == 2
    requires forall i :: 0 <= i < |out| ==>
      (d1 in out[i] && d2 in out[i] && out[i][d1] == Str(keys[i][0]) && out[i][d2] == Str(keys[i][1]))
    ensures AscendingPairs(out, d1, d2)
  {
    forall i, j | 0 <= i < j < |out|
      ensures StrLt(out[i][d1].s, out[j][d1].s) || (out[i][d1] == out[j][d1] && StrLt(out[i][d2].s, out[j][d2].s))
    {
      assert keys[i] == [keys[i][0], keys[i][1]] && keys[j] == [keys[j][0], keys[j][1]];
      KeyLtPair(keys[i][0], keys[i][1], keys[j][0], keys[j][1]);
    }
  }

  lemma PairPresent(rows: seq<Row>, d1: string, d2: string, out: seq<Row>, v1: string, v2: string)
    requires |out| == |GroupKeys(rows, [d1, d2])|
    requires forall i :: 0 <= i < |out| ==>
      (d1 in out[i] && d2 in out[i] && out[i][d1] == Str(GroupKeys(rows, [d1, d2])[i][0]) && out[i][d2] == Str(GroupKeys(rows, [d1, d2])[i][1]))
    ensures (exists i :: 0 <= i < |out| && d1 in out[i] && d2 in out[i] && out[i][d1] == Str(v1) && out[i][d2] == Str(v2))
      <==> (exists i :: 0 <= i < |rows| && d1 in rows[i] && d2 in rows[i] && rows[i][d1] == Str(v1) && rows[i][d2] == Str(v2))
  {
    var keys := GroupKeys(rows, [d1, d2]);
    if i :| 0 <= i < |out| && out[i][d1] == Str(v1) && out[i][d2] == Str(v2) {
      assert keys[i] == [v1, v2];
      assert HasKey(rows, [d1, d2], [v1, v2]);
      var l :| 0 <= l < |rows| && KeyOf(rows[l], [d1, d2]) == Some([v1, v2]);
      KeyOfPair(rows[l], d1, d2);
    }
    if l :| 0 <= l < |rows| && d1 in rows[l] && d2 in rows[l] && rows[l][d1] == Str(v1) && rows[l][d2] == Str(v2) {
      KeyOfPair(rows[l], d1, d2);
      assert HasKey(rows, [d1, d2], [v1, v2]);
      var i :| 0 <= i < |keys| && keys[i] == [v1, v2];
      assert out[i][d1] == Str(v1) && out[i][d2] == Str(v2);
    }
  }

  /**
   * Sum invariant of cross mode: each summed column has the same total over
   * the groups as over the input rows whose two dimension values are strings.
   */
  lemma CrossSums(t: Table, d1: string, d2: string, c: string)
    requires t.Valid() && d1 in ValidDimensions && d2 in ValidDimensions && d1 != d2
    requires d1 in t.columns && d2 in t.columns && c in SumColumns(t.columns)
    ensures ColumnTotal(CrossSummary(t, d1, d2).value.rows, c) == KeyedTotal(t.rows, [d1, d2], c)
  {
    CrossIsGrouped(t, d1, d2);
    GroupedTotals(t.rows, [d1, d2], SumColumns(t.columns), c);
  }

  /** On a table whose two dimension columns hold only strings, as after extraction, the totals are the input totals. */
  lemma CrossSumsOfStrings(t: Table, d1: string, d2: string, c: string)
    requires t.Valid() && d1 in ValidDimensions && d2 in ValidDimensions && d1 != d2
    requires d1 in t.columns && d2 in t.columns && c in SumColumns(t.columns)
    requires forall i :: 0 <= i < |t.rows| ==> t.rows[i][d1].Str? && t.rows[i][d2].Str?
    ensures ColumnTotal(CrossSummary(t, d1, d2).value.rows, c) == ColumnTotal(t.rows, c)
  {
    CrossSums(t, d1, d2, c);
    forall i | 0 <= i < |t.rows| ensures KeyOf(t.rows[i], [d1, d2]).Some? {
      KeyOfPair(t.rows[i], d1, d2);
    }
    KeyedTotalIsTotal(t.rows, [d1, d2], c);
  }
}
