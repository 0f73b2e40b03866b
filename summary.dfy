/**
 * `get_dimension_summary(df)`: how many distinct values each dimension
 * column holds.
 */
module DimensionSummary {
  import opened Wrappers
  import opened Tables
  import opened Grouping
  import opened DimensionExtractor

  datatype DimensionCounts = DimensionCounts(parentCodeCount: nat, patternCount: nat, attributeCount: nat)

  /** The distinct non-empty cells of column `c`; `nunique()` leaves NaN out. */
  function ValuesOf(t: Table, c: string): set<Cell>
    requires t.Valid() && c in t.columns
  {
    set i | 0 <= i < |t.rows| && t.rows[i][c] != Missing :: t.rows[i][c]
  }

  /**
   * The three distinct counts, or pandas' KeyError for the first dimension
   * column the frame lacks.
   */
  function Summary(t: Table): (r: Result<DimensionCounts, Error>)
    requires t.Valid()
    ensures r.Err? <==> exists d :: d in DimensionColumns && d !in t.columns
    ensures r.Err? ==> r.error.MissingColumn? && r.error.name in DimensionColumns && r.error.name !in t.columns
    ensures r.Ok? ==> && r.value.parentCodeCount == |ValuesOf(t, ParentCodeColumn)|
                      && r.value.patternCount == |ValuesOf(t, PatternColumn)|
                      && r.value.attributeCount == |ValuesOf(t, AttributeColumn)|
  {
    if ParentCodeColumn !in t.columns then Err(MissingColumn(ParentCodeColumn))
    else if PatternColumn !in t.columns then Err(MissingColumn(PatternColumn))
    else if AttributeColumn !in t.columns then Err(MissingColumn(AttributeColumn))
    else Ok(DimensionCounts(|ValuesOf(t, ParentCodeColumn)|, |ValuesOf(t, PatternColumn)|, |ValuesOf(t, AttributeColumn)|))
  }

  /** The string cells of the one-column keys `keys[lo..]`. */
  function KeyCellsFrom(keys: seq<Key>, lo: nat): set<Cell>
    requires lo <= |keys| && forall i :: 0 <= i < |keys| ==> |keys[i]| == 1
  {
    set i | lo <= i < |keys| :: Str(keys[i][0])
  }

  /** Distinct one-column keys give as many distinct cells as there are keys. */
  lemma {:induction false} KeyCellsCount(keys: seq<Key>, lo: nat)
    requires lo <= |keys| && Distinct(keys) && forall i :: 0 <= i < |keys| ==> |keys[i]| == 1
    ensures |KeyCellsFrom(keys, lo)| == |keys| - lo
    decreases |keys| - lo
  {
    if lo < |keys| {
      KeyCellsCount(keys, lo + 1);
      assert KeyCellsFrom(keys, lo) == {Str(keys[lo][0])} + KeyCellsFrom(keys, lo + 1);
      forall j | lo + 1 <= j < |keys| ensures keys[j][0] != keys[lo][0] {
        assert keys[j] == [keys[j][0]] && keys[lo] == [keys[lo][0]];
      }
    } else {
      assert KeyCellsFrom(keys, lo) == {};
    }
  }

  /**
   * On a table whose dimension column `d` holds only strings, as after
   * extraction, its distinct count is the number of groups, i.e. of rows
   * `aggregate_single(df, d)` returns.
   */
  lemma CountIsGroupCount(t: Table, d: string)
    requires t.Valid() && d in t.columns
    requires forall i :: 0 <= i < |t.rows| ==> t.rows[i][d].Str?
    ensures |ValuesOf(t, d)| == |GroupKeys(t.rows, [d])|
  {
    var keys := GroupKeys(t.rows, [d]);
    SortedIsDistinct(keys);
    KeyCellsCount(keys, 0);
    assert ValuesOf(t, d) == KeyCellsFrom(keys, 0) by {
      forall x | x in ValuesOf(t, d) ensures x in KeyCellsFrom(keys, 0) {
        var i :| 0 <= i < |t.rows| && t.rows[i][d] != Missing && t.rows[i][d] == x;
        KeyOfSingle(t.rows[i], d);
        assert HasKey(t.rows, [d], [x.s]);
        var j :| 0 <= j < |keys| && keys[j] == [x.s];
      }
      forall x | x in KeyCellsFrom(keys, 0) ensures x in ValuesOf(t, d) {
        var j :| 0 <= j < |keys| && x == Str(keys[j][0]);
        assert HasKey(t.rows, [d], keys[j]);
        var i :| 0 <= i < |t.rows| && KeyOf(t.rows[i], [d]) == Some(keys[j]);
        KeyOfSingle(t.rows[i], d);
      }
    }
  }

  /** After extraction the summary always succeeds, and each count is the number of groups of that dimension. */
  lemma ExtractedSummary(t: Table)
    requires t.Valid() && ExtractAll(t).Ok?
    ensures ExtractAll(t).value.Valid()
    ensures var e := ExtractAll(t).value;
      && Summary(e).Ok?
      && Summary(e).value == DimensionCounts(|GroupKeys(e.rows, [ParentCodeColumn])|,
                                             |GroupKeys(e.rows, [PatternColumn])|,
                                             |GroupKeys(e.rows, [AttributeColumn])|)
  {
    var col := CampaignColumn(t.columns).value;
    var e := Extracted(t, col);
    ExtractedDimensions(t, col);
    CountIsGroupCount(e, ParentCodeColumn);
    CountIsGroupCount(e, PatternColumn);
    CountIsGroupCount(e, AttributeColumn);
  }
}
