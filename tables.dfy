/**
 * The data frame the engine works on: an ordered list of column names and
 * one row per record, each row mapping every column name to a cell.
 */
module Tables {

  /** A spreadsheet cell: text, a number (integers and floats alike), or empty/NaN. */
  datatype Cell = Str(s: string) | Num(n: real) | Missing

  type Row = map<string, Cell>

  /** The exceptions the core raises, as values. */
  datatype Error =
    | MissingCampaignColumn       // neither 'Campaign Name' nor '广告活动' is a column
    | InvalidDimension            // a dimension argument outside the three dimension columns
    | DuplicateDimension          // cross mode with the same dimension twice
    | MissingColumn(name: string) // pandas KeyError: the frame has no column of that name
    | NoObjectsToConcatenate      // pandas ValueError from `agg({})`: there is no column to sum

  predicate Distinct<T(==)>(s: seq<T>) {
    forall i, j :: 0 <= i < j < |s| ==> s[i] != s[j]
  }

  /** `a` is `b` with some elements left out: the elements of `a` occur in `b` in the same order. */
  predicate Subsequence<T(==)>(a: seq<T>, b: seq<T>)
    decreases |b|
  {
    if a == [] then true
    else if b == [] then false
    else (a[0] == b[0] && Subsequence(a[1..], b[1..])) || Subsequence(a, b[1..])
  }

  /** Appending the same element to both keeps a subsequence, as does appending it to `b` alone. */
  lemma {:induction false} SubsequenceSnoc<T>(a: seq<T>, b: seq<T>, x: T)
    requires Subsequence(a, b)
    ensures Subsequence(a + [x], b + [x]) && Subsequence(a, b + [x])
    decreases |b|
  {
    if b == [] {
      assert a == [];
      assert ([] + [x])[1..] == [] && ([x] + [])[1..] == [];
    } else {
      assert (b + [x])[1..] == b[1..] + [x];
      if a == [] {
        SubsequenceSnoc(a, b[1..], x);
        assert a + [x] == [x];
      } else {
        assert (a + [x])[1..] == a[1..] + [x];
        if a[0] == b[0] && Subsequence(a[1..], b[1..]) {
          SubsequenceSnoc(a[1..], b[1..], x);
        } else {
          SubsequenceSnoc(a, b[1..], x);
        }
      }
    }
  }

  /** Prepending the same element to both keeps a subsequence, as does prepending it to `b` alone. */
  lemma SubsequenceCons<T>(a: seq<T>, b: seq<T>, x: T)
    requires Subsequence(a, b)
    ensures Subsequence([x] + a, [x] + b) && Subsequence(a, [x] + b)
  {
    assert ([x] + a)[1..] == a && ([x] + b)[1..] == b;
  }

  function ColumnSet(columns: seq<string>): set<string> {
    set c | c in columns
  }

  datatype Table = Table(columns: seq<string>, rows: seq<Row>) {
    /** What every pandas frame satisfies here: distinct column names, and each row has exactly those columns. */
    predicate Valid() {
      && Distinct(columns)
      && forall i :: 0 <= i < |rows| ==> rows[i].Keys == ColumnSet(columns)
    }
  }

  /** `cols + [n for n in names if n not in cols]`, adding names one by one in order. */
  function AppendMissing(cols: seq<string>, names: seq<string>): (r: seq<string>)
    ensures Distinct(cols) ==> Distinct(r)
    ensures ColumnSet(r) == ColumnSet(cols) + ColumnSet(names)
    ensures |cols| <= |r| && r[..|cols|] == cols
    decreases names
  {
    if names == [] then cols
    else
      var next := if names[0] in cols then cols else cols + [names[0]];
      var r := AppendMissing(next, names[1..]);
      assert r[..|cols|] == r[..|next|][..|cols|];
      r
  }

  /**
   * `df[name] = values`: an existing column is overwritten where it stands,
   * a new one becomes the last column; no other cell changes.
   */
  function AssignColumn(t: Table, name: string, values: seq<Cell>): (r: Table)
    requires t.Valid() && |values| == |t.rows|
    ensures r.Valid()
    ensures r.columns == AppendMissing(t.columns, [name])
    ensures |r.rows| == |t.rows|
    ensures forall i :: 0 <= i < |r.rows| ==> r.rows[i] == t.rows[i][name := values[i]]
  {
    var cols := if name in t.columns then t.columns else t.columns + [name];
    assert AppendMissing(t.columns, [name]) == AppendMissing(cols, []);
    Table(cols, seq(|t.rows|, i requires 0 <= i < |t.rows| => t.rows[i][name := values[i]]))
  }

  /** The cells of one column, top to bottom: `df[name]`. */
  function ColumnValues(t: Table, name: string): (values: seq<Cell>)
    requires t.Valid() && name in t.columns
    ensures |values| == |t.rows|
    ensures forall i :: 0 <= i < |t.rows| ==> values[i] == t.rows[i][name]
  {
    seq(|t.rows|, i requires 0 <= i < |t.rows| => t.rows[i][name])
  }

  /** A pandas frame that the code updates in place by assigning whole columns. */
  class Frame {
    var columns: seq<string>
    var rows: seq<Row>

    function Value(): Table
      reads this
    {
      Table(columns, rows)
    }

    /** `df.copy()`: a new frame with the same contents. */
    constructor Copy(t: Table)
      ensures Value() == t
    {
      columns := t.columns;
      rows := t.rows;
    }

    /** `df[name] = values`. */
    method Assign(name: string, values: seq<Cell>)
      requires Value().Valid() && |values| == |rows|
      modifies this
      ensures Value() == AssignColumn(old(Value()), name, values)
    {
      var r := AssignColumn(Value(), name, values);
      columns, rows := r.columns, r.rows;
    }
  }

  /** The numeric value a cell contributes to a column sum: NaN/empty count as 0. */
  function NumOf(c: Cell): real {
    if c.Num? then c.n else 0.0
  }

  /** Sum of column `c` over `rows`, as `df[c].sum()` computes it on numeric cells. */
  function ColumnTotal(rows: seq<Row>, c: string): real {
    if rows == [] then 0.0
    else (if c in rows[0] then NumOf(rows[0][c]) else 0.0) + ColumnTotal(rows[1..], c)
  }

  /** A column total splits over consecutive blocks of rows; one row adds its numeric value, 0 for NaN or text. */
  lemma {:induction false} ColumnTotalAppend(a: seq<Row>, b: seq<Row>, c: string)
    ensures ColumnTotal(a + b, c) == ColumnTotal(a, c) + ColumnTotal(b, c)
    ensures |a| == 1 ==> ColumnTotal(a, c) == if c in a[0] && a[0][c].Num? then a[0][c].n else 0.0
  {
    if a != [] {
      assert (a + b)[0] == a[0] && (a + b)[1..] == a[1..] + b;
      ColumnTotalAppend(a[1..], b, c);
    } else {
      assert a + b == b;
    }
  }
}
