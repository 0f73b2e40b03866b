/**
 * The dimension extractor: three positional tokens of the campaign name
 * become the columns 'Parent Code', 'Pattern' and 'Attribute'.
 */
module DimensionExtractor {
  import opened Wrappers
  import opened Text
  import opened Tables

  /** The sentinel for an absent token or a non-string campaign name ("unclassified"). */
  const Unclassified: string := "未分类"

  const CampaignName: string := "Campaign Name"
  const CampaignNameZh: string := "广告活动"

  const ParentCodeColumn: string := "Parent Code"
  const PatternColumn: string := "Pattern"
  const AttributeColumn: string := "Attribute"

  /** The three dimension columns, in the order they are added. */
  const DimensionColumns: seq<string> := [ParentCodeColumn, PatternColumn, AttributeColumn]

  /**
   * Token `k` of the campaign name if the cell is a string with more than `k`
   * whitespace-separated tokens, the sentinel otherwise. The source also
   * checks `parts[k].strip()`; that check never fails, since every token of
   * `split()` has a non-whitespace character.
   */
  function ExtractToken(c: Cell, k: nat): (r: string)
    ensures IsToken(r)
    ensures c.Str? && k < |Split(c.s)| ==> r == Split(c.s)[k]
    ensures !(c.Str? && k < |Split(c.s)|) ==> r == Unclassified
  {
    if !c.Str? then Unclassified
    else
      var parts := Split(c.s);
      if |parts| > k && HasNonSpace(parts[k]) then parts[k] else Unclassified
  }

  /** `extract_parent_code`: the first token, or the sentinel. */
  function ParentCode(c: Cell): (r: string)
    ensures r == if c.Str? && Split(c.s) != [] then Split(c.s)[0] else Unclassified
  {
    ExtractToken(c, 0)
  }

  /** `extract_pattern`: the second token, or the sentinel. */
  function Pattern(c: Cell): (r: string)
    ensures r == if c.Str? && |Split(c.s)| > 1 then Split(c.s)[1] else Unclassified
  {
    ExtractToken(c, 1)
  }

  /** `extract_attribute`: the third token, or the sentinel. */
  function Attribute(c: Cell): (r: string)
    ensures r == if c.Str? && |Split(c.s)| > 2 then Split(c.s)[2] else Unclassified
  {
    ExtractToken(c, 2)
  }

  /** The campaign-name column: 'Campaign Name' if present, else '广告活动', else none. */
  function CampaignColumn(columns: seq<string>): (r: Option<string>)
    ensures r == Some(CampaignName) <==> CampaignName in columns
    ensures r == Some(CampaignNameZh) <==> CampaignName !in columns && CampaignNameZh in columns
    ensures r == None <==> CampaignName !in columns && CampaignNameZh !in columns
  {
    if CampaignName in columns then Some(CampaignName)
    else if CampaignNameZh in columns then Some(CampaignNameZh)
    else None
  }

  /** The dimension cells of a row whose campaign cell is `c`. */
  function DimensionCells(c: Cell): map<string, Cell> {
    map[ParentCodeColumn := Str(ParentCode(c)), PatternColumn := Str(Pattern(c)), AttributeColumn := Str(Attribute(c))]
  }

  /**
   * The extracted table, stated declaratively: the original columns followed
   * by whichever dimension columns were not yet there, and each row updated
   * with the three tokens of its own campaign cell.
   */
  function Extracted(t: Table, col: string): Table
    requires t.Valid() && col in t.columns
  {
    Table(AppendMissing(t.columns, DimensionColumns),
          seq(|t.rows|, i requires 0 <= i < |t.rows| => t.rows[i] + DimensionCells(t.rows[i][col])))
  }

  /** The extracted table is a well-formed frame: every row has the original columns plus the three dimension columns. */
  lemma ExtractedValid(t: Table, col: string)
    requires t.Valid() && col in t.columns
    ensures Extracted(t, col).Valid()
    ensures ColumnSet(Extracted(t, col).columns) == ColumnSet(t.columns) + ColumnSet(DimensionColumns)
  {
    var e := Extracted(t, col);
    forall i | 0 <= i < |t.rows| ensures e.rows[i].Keys == ColumnSet(e.columns) {
      DimensionCellsKeys(t.rows[i][col]);
    }
  }

  lemma DimensionCellsKeys(c: Cell)
    ensures DimensionCells(c).Keys == ColumnSet(DimensionColumns)
  {
  }

  /**
   * Shape of the extracted table: the same rows in the same order, the
   * original columns first and in their order, every cell outside the three
   * dimension columns unchanged, and each dimension cell the matching
   * extractor applied to that row's campaign cell.
   */
  lemma ExtractedShape(t: Table, col: string)
    requires t.Valid() && col in t.columns
    ensures var e := Extracted(t, col);
      && |e.rows| == |t.rows|
      && e.columns[..|t.columns|] == t.columns
      && (forall i, c :: 0 <= i < |t.rows| && c in t.rows[i] && c !in DimensionColumns ==> c in e.rows[i] && e.rows[i][c] == t.rows[i][c])
      && (forall i :: 0 <= i < |t.rows| ==>
           && e.rows[i][ParentCodeColumn] == Str(ParentCode(t.rows[i][col]))
           && e.rows[i][PatternColumn] == Str(Pattern(t.rows[i][col]))
           && e.rows[i][AttributeColumn] == Str(Attribute(t.rows[i][col])))
  {
    var e := Extracted(t, col);
    forall i | 0 <= i < |t.rows|
      ensures && e.rows[i][ParentCodeColumn] == Str(ParentCode(t.rows[i][col]))
              && e.rows[i][PatternColumn] == Str(Pattern(t.rows[i][col]))
              && e.rows[i][AttributeColumn] == Str(Attribute(t.rows[i][col]))
      ensures forall c :: c in t.rows[i] && c !in DimensionColumns ==> c in e.rows[i] && e.rows[i][c] == t.rows[i][c]
    {
      ExtractedRow(t, col, i);
      RowWithDimensions(t.rows[i], t.rows[i][col]);
    }
  }

  /** Every dimension cell of an extracted table is a string token: a non-empty run without whitespace. */
  lemma ExtractedDimensions(t: Table, col: string)
    requires t.Valid() && col in t.columns
    ensures Extracted(t, col).Valid()
    ensures forall d :: d in DimensionColumns ==> d in Extracted(t, col).columns
    ensures forall i, d :: 0 <= i < |t.rows| && d in DimensionColumns ==>
      d in Extracted(t, col).rows[i] && Extracted(t, col).rows[i][d].Str? && IsToken(Extracted(t, col).rows[i][d].s)
  {
    var e := Extracted(t, col);
    ExtractedValid(t, col);
    forall d | d in DimensionColumns ensures d in e.columns {
      assert d in ColumnSet(e.columns);
    }
    forall i, d | 0 <= i < |t.rows| && d in DimensionColumns ensures d in e.rows[i] && e.rows[i][d].Str? && IsToken(e.rows[i][d].s) {
      ExtractedRow(t, col, i);
      RowWithDimensions(t.rows[i], t.rows[i][col]);
    }
  }

  lemma ExtractedRow(t: Table, col: string, i: nat)
    requires t.Valid() && col in t.columns && i < |t.rows|
    ensures i < |Extracted(t, col).rows| && Extracted(t, col).rows[i] == t.rows[i] + DimensionCells(t.rows[i][col])
  {
  }

  /** A row with the dimension cells of `c` added: the three tokens, and every other cell as before. */
  lemma RowWithDimensions(row: Row, c: Cell)
    ensures var r := row + DimensionCells(c);
      && r[ParentCodeColumn] == Str(ParentCode(c))
      && r[PatternColumn] == Str(Pattern(c))
      && r[AttributeColumn] == Str(Attribute(c))
      && forall x :: x in row && x !in DimensionColumns ==> x in r && r[x] == row[x]
  {
  }

  /** What `extract_all_dimensions` returns or raises: the error exactly when no campaign column exists. */
  function ExtractAll(t: Table): (r: Result<Table, Error>)
    requires t.Valid()
    ensures r.Err? <==> CampaignColumn(t.columns).None?
    ensures r.Err? ==> r.error == MissingCampaignColumn
    ensures r.Ok? ==> r.value == Extracted(t, CampaignColumn(t.columns).value)
  {
    match CampaignColumn(t.columns)
    case None => Err(MissingCampaignColumn)
    case Some(col) => Ok(Extracted(t, col))
  }

  /** Adding names that are all present already changes nothing. */
  lemma {:induction false} AppendMissingPresent(cols: seq<string>, names: seq<string>)
    requires forall n :: n in names ==> n in cols
    ensures AppendMissing(cols, names) == cols
    decreases names
  {
    if names != [] {
      AppendMissingPresent(cols, names[1..]);
    }
  }

  /** Extraction is idempotent: extracting again from an extracted table gives the same table. */
  lemma ExtractIdempotent(t: Table)
    requires t.Valid() && ExtractAll(t).Ok?
    ensures ExtractAll(t).value.Valid()
    ensures ExtractAll(ExtractAll(t).value) == ExtractAll(t)
  {
    var col := CampaignColumn(t.columns).value;
    var e := Extracted(t, col);
    ExtractedValid(t, col);
    CampaignColumnKept(t.columns, e.columns);
    ExtractTwice(t, col);
  }

  /** Adding the dimension columns does not change which campaign column is chosen. */
  lemma CampaignColumnKept(cols: seq<string>, ext: seq<string>)
    requires ColumnSet(ext) == ColumnSet(cols) + ColumnSet(DimensionColumns)
    ensures CampaignColumn(ext) == CampaignColumn(cols)
  {
    assert CampaignName !in DimensionColumns && CampaignNameZh !in DimensionColumns;
    assert (CampaignName in ext) == (CampaignName in ColumnSet(ext));
    assert (CampaignNameZh in ext) == (CampaignNameZh in ColumnSet(ext));
    assert (CampaignName in cols) == (CampaignName in ColumnSet(cols));
    assert (CampaignNameZh in cols) == (CampaignNameZh in ColumnSet(cols));
  }

  lemma ExtractTwice(t: Table, col: string)
    requires t.Valid() && col in t.columns && col !in DimensionColumns
    ensures Extracted(t, col).Valid() && col in Extracted(t, col).columns
    ensures Extracted(Extracted(t, col), col) == Extracted(t, col)
  {
    var e := Extracted(t, col);
    ExtractedValid(t, col);
    assert col in e.columns by {
      assert e.columns[..|t.columns|] == t.columns;
    }
    var e2 := Extracted(e, col);
    forall n | n in DimensionColumns ensures n in e.columns {
      assert n in ColumnSet(e.columns);
    }
    AppendMissingPresent(e.columns, DimensionColumns);
    forall i | 0 <= i < |t.rows| ensures e2.rows[i] == e.rows[i] {
      ExtractTwiceRow(t, col, i);
    }
    assert e2.rows == e.rows;
  }

  lemma ExtractTwiceRow(t: Table, col: string, i: nat)
    requires t.Valid() && col in t.columns && col !in DimensionColumns && i < |t.rows|
    requires Extracted(t, col).Valid() && col in Extracted(t, col).columns
    ensures Extracted(Extracted(t, col), col).rows[i] == Extracted(t, col).rows[i]
  {
    var e := Extracted(t, col);
    ExtractedRow(t, col, i);
    ExtractedRow(e, col, i);
    RowWithDimensions(t.rows[i], t.rows[i][col]);
    ReextractRow(t.rows[i], t.rows[i][col]);
  }

  lemma ReextractRow(row: Row, c: Cell)
    ensures (row + DimensionCells(c)) + DimensionCells(c) == row + DimensionCells(c)
  {
  }

  /** Each token of the campaign column, as a new column of string cells. */
  function TokenColumn(values: seq<Cell>, k: nat): (col: seq<Cell>)
    ensures |col| == |values|
    ensures forall i :: 0 <= i < |values| ==> col[i] == Str(ExtractToken(values[i], k))
  {
    seq(|values|, i requires 0 <= i < |values| => Str(ExtractToken(values[i], k)))
  }

  /**
   * `extract_all_dimensions`: copy the frame, pick the campaign column, and
   * assign the three dimension columns one after another.
   */
  method ExtractAllDimensions(df: Table) returns (r: Result<Table, Error>)
    requires df.Valid()
    ensures r == ExtractAll(df)
  {
    var copy := new Frame.Copy(df);
    var col: string;
    if CampaignName in copy.columns {
      col := CampaignName;
    } else if CampaignNameZh in copy.columns {
      col := CampaignNameZh;
    } else {
      return Err(MissingCampaignColumn);
    }
    ghost var t0 := copy.Value();
    copy.Assign(ParentCodeColumn, TokenColumn(ColumnValues(copy.Value(), col), 0));
    ghost var t1 := copy.Value();
    assert t1 == AssignToken(t0, col, ParentCodeColumn, 0);
    copy.Assign(PatternColumn, TokenColumn(ColumnValues(copy.Value(), col), 1));
    ghost var t2 := copy.Value();
    assert t2 == AssignToken(t1, col, PatternColumn, 1);
    copy.Assign(AttributeColumn, TokenColumn(ColumnValues(copy.Value(), col), 2));
    assert copy.Value() == AssignToken(t2, col, AttributeColumn, 2);
    r := Ok(copy.Value());
    ThreeAssignsAreExtracted(df, col);
  }

  /** Assigning the `k`-th token column as `name`. */
  function AssignToken(t: Table, col: string, name: string, k: nat): (r: Table)
    requires t.Valid() && col in t.columns
    ensures r.Valid() && col in r.columns && |r.rows| == |t.rows|
    ensures r.columns == AppendMissing(t.columns, [name])
    ensures forall i :: 0 <= i < |t.rows| ==> r.rows[i] == t.rows[i][name := Str(ExtractToken(t.rows[i][col], k))]
  {
    AssignColumn(t, name, TokenColumn(ColumnValues(t, col), k))
  }

  /** The three column assignments of `ExtractAllDimensions` build `Extracted`. */
  lemma ThreeAssignsAreExtracted(t: Table, col: string)
    requires t.Valid() && col in t.columns && col !in DimensionColumns
    ensures
      var t1 := AssignToken(t, col, ParentCodeColumn, 0);
      var t2 := AssignToken(t1, col, PatternColumn, 1);
      AssignToken(t2, col, AttributeColumn, 2) == Extracted(t, col)
  {
    ThreeAssignsColumns(t, col);
    ThreeAssignsRows(t, col);
  }

  lemma ThreeAssignsColumns(t: Table, col: string)
    requires t.Valid() && col in t.columns && col !in DimensionColumns
    ensures
      var t1 := AssignToken(t, col, ParentCodeColumn, 0);
      var t2 := AssignToken(t1, col, PatternColumn, 1);
      AssignToken(t2, col, AttributeColumn, 2).columns == Extracted(t, col).columns
  {
    AppendMissingSteps(t.columns);
  }

  lemma ThreeAssignsRows(t: Table, col: string)
    requires t.Valid() && col in t.columns && col !in DimensionColumns
    ensures
      var t1 := AssignToken(t, col, ParentCodeColumn, 0);
      var t2 := AssignToken(t1, col, PatternColumn, 1);
      AssignToken(t2, col, AttributeColumn, 2).rows == Extracted(t, col).rows
  {
    var t1 := AssignToken(t, col, ParentCodeColumn, 0);
    var t2 := AssignToken(t1, col, PatternColumn, 1);
    var t3 := AssignToken(t2, col, AttributeColumn, 2);
    ChainRows(t, col, t1.rows, t2.rows, t3.rows);
  }

  /** Three token assignments, one after another, add the three dimension cells to every row. */
  lemma ChainRows(t: Table, col: string, rows1: seq<Row>, rows2: seq<Row>, rows3: seq<Row>)
    requires t.Valid() && col in t.columns && col !in DimensionColumns
    requires |rows1| == |t.rows| && |rows2| == |t.rows| && |rows3| == |t.rows|
    requires forall i :: 0 <= i < |t.rows| ==> rows1[i] == t.rows[i][ParentCodeColumn := Str(ExtractToken(t.rows[i][col], 0))]
    requires forall i :: 0 <= i < |t.rows| ==> col in rows1[i] && rows2[i] == rows1[i][PatternColumn := Str(ExtractToken(rows1[i][col], 1))]
    requires forall i :: 0 <= i < |t.rows| ==> col in rows2[i] && rows3[i] == rows2[i][AttributeColumn := Str(ExtractToken(rows2[i][col], 2))]
    ensures rows3 == Extracted(t, col).rows
  {
    var e := Extracted(t, col);
    forall i | 0 <= i < |t.rows|
      ensures rows3[i] == e.rows[i]
    {
      var c := t.rows[i][col];
      assert rows1[i][col] == c;
      assert rows2[i][col] == c;
      RowUpdates(t.rows[i], c);
    }
  }

  lemma AppendMissingSteps(cols: seq<string>)
    ensures AppendMissing(cols, DimensionColumns)
         == AppendMissing(AppendMissing(AppendMissing(cols, [ParentCodeColumn]), [PatternColumn]), [AttributeColumn])
  {
    assert DimensionColumns[1..] == [PatternColumn, AttributeColumn];
    assert DimensionColumns[1..][1..] == [AttributeColumn];
  }

  lemma RowUpdates(row: Row, c: Cell)
    ensures row[ParentCodeColumn := Str(ExtractToken(c, 0))][PatternColumn := Str(ExtractToken(c, 1))][AttributeColumn := Str(ExtractToken(c, 2))]
         == row + DimensionCells(c)
  {
  }
}
