/**
 * `df.groupby(dims).agg({c: 'sum' ...})`: the distinct group keys in
 * ascending order, and the per-group sums of each column.
 */
module Grouping {
  import opened Wrappers
  import opened Text
  import opened Tables

  /** A group key: the string values of the grouping columns, in order. */
  type Key = seq<string>

  /** The lexicographic order pandas sorts multi-column keys by. */
  predicate KeyLt(a: Key, b: Key) {
    if a == [] then b != []
    else if b == [] then false
    else StrLt(a[0], b[0]) || (a[0] == b[0] && KeyLt(a[1..], b[1..]))
  }

  lemma {:induction false} KeyLtIrreflexive(a: Key)
    ensures !KeyLt(a, a)
  {
    if a != [] {
      StrLtIrreflexive(a[0]);
      KeyLtIrreflexive(a[1..]);
    }
  }

  lemma {:induction false} KeyLtTransitive(a: Key, b: Key, c: Key)
    requires KeyLt(a, b) && KeyLt(b, c)
    ensures KeyLt(a, c)
  {
    if a != [] && b != [] && c != [] {
      if StrLt(a[0], b[0]) && StrLt(b[0], c[0]) {
        StrLtTransitive(a[0], b[0], c[0]);
      } else if a[0] == b[0] && b[0] == c[0] {
        KeyLtTransitive(a[1..], b[1..], c[1..]);
      }
    }
  }

  lemma {:induction false} KeyLtTotal(a: Key, b: Key)
    ensures a == b || KeyLt(a, b) || KeyLt(b, a)
  {
    if a != [] && b != [] {
      StrLtTotal(a[0], b[0]);
      if a[0] == b[0] {
        KeyLtTotal(a[1..], b[1..]);
        if a[1..] == b[1..] {
          assert a == [a[0]] + a[1..] && b == [b[0]] + b[1..];
        }
      }
    }
  }

  /** On one-column keys the order is the string order. */
  lemma KeyLtSingle(a: string, b: string)
    ensures KeyLt([a], [b]) <==> StrLt(a, b)
  {
    assert [a][1..] == [] && [b][1..] == [];
  }

  predicate StrictlySorted(keys: seq<Key>) {
    forall i, j :: 0 <= i < j < |keys| ==> KeyLt(keys[i], keys[j])
  }

  lemma SortedIsDistinct(keys: seq<Key>)
    requires StrictlySorted(keys)
    ensures Distinct(keys)
  {
    forall i, j | 0 <= i < j < |keys|
      ensures keys[i] != keys[j]
    {
      if keys[i] == keys[j] {
        KeyLtIrreflexive(keys[i]);
      }
    }
  }

  /** The key of a row; none when some grouping cell is not a string (pandas drops NaN keys). */
  function KeyOf(row: Row, dims: seq<string>): (k: Option<Key>)
    ensures k.Some? ==> |k.value| == |dims|
    ensures k.Some? <==> forall i :: 0 <= i < |dims| ==> dims[i] in row && row[dims[i]].Str?
    ensures k.Some? ==> forall i :: 0 <= i < |dims| ==> k.value[i] == row[dims[i]].s
  {
    if dims == [] then Some([])
    else if dims[0] in row && row[dims[0]].Str? then
      match KeyOf(row, dims[1..])
      case None => None
      case Some(rest) => Some([row[dims[0]].s] + rest)
    else None
  }

  /** Inserts a key into a strictly ascending list unless it is already there. */
  function Insert(keys: seq<Key>, k: Key): (r: seq<Key>)
    requires StrictlySorted(keys)
    ensures StrictlySorted(r)
    ensures forall x :: x in r <==> x in keys || x == k
  {
    if keys == [] then [k]
    else if k == keys[0] then keys
    else if KeyLt(k, keys[0]) then
      forall j | 0 < j < |keys| ensures KeyLt(k, keys[j]) {
        KeyLtTransitive(k, keys[0], keys[j]);
      }
      [k] + keys
    else
      KeyLtTotal(k, keys[0]);
      var rest := Insert(keys[1..], k);
      assert forall x :: x in rest ==> KeyLt(keys[0], x) by {
        forall x | x in rest ensures KeyLt(keys[0], x) {
          if x != k {
            var j :| 0 <= j < |keys[1..]| && keys[1..][j] == x;
            assert keys[j + 1] == x;
          }
        }
      }
      [keys[0]] + rest
  }

  /** The key occurs in some row. */
  predicate HasKey(rows: seq<Row>, dims: seq<string>, k: Key) {
    exists i :: 0 <= i < |rows| && KeyOf(rows[i], dims) == Some(k)
  }

  /** The groups of `groupby(dims)`: every key of a row, once each, in ascending order. */
  function GroupKeys(rows: seq<Row>, dims: seq<string>): (keys: seq<Key>)
    ensures StrictlySorted(keys)
    ensures forall k :: k in keys <==> HasKey(rows, dims, k)
    ensures forall i :: 0 <= i < |keys| ==> |keys[i]| == |dims|
  {
    if rows == [] then []
    else
      var rest := GroupKeys(rows[1..], dims);
      var keys := match KeyOf(rows[0], dims)
        case None => rest
        case Some(k) => Insert(rest, k);
      assert forall k :: HasKey(rows, dims, k) <==> KeyOf(rows[0], dims) == Some(k) || HasKey(rows[1..], dims, k) by {
        forall k ensures HasKey(rows, dims, k) ==> KeyOf(rows[0], dims) == Some(k) || HasKey(rows[1..], dims, k) {
          if HasKey(rows, dims, k) {
            var i :| 0 <= i < |rows| && KeyOf(rows[i], dims) == Some(k);
            if i > 0 {
              assert rows[1..][i - 1] == rows[i];
            }
          }
        }
        forall k ensures HasKey(rows[1..], dims, k) ==> HasKey(rows, dims, k) {
          if HasKey(rows[1..], dims, k) {
            var i :| 0 <= i < |rows[1..]| && KeyOf(rows[1..][i], dims) == Some(k);
            assert rows[i + 1] == rows[1..][i];
          }
        }
      }
      assert forall i :: 0 <= i < |keys| ==> HasKey(rows, dims, keys[i]);
      keys
  }

  /** A one-column key is the string in that column. */
  lemma KeyOfSingle(row: Row, d: string)
    ensures KeyOf(row, [d]) == if d in row && row[d].Str? then Some([row[d].s]) else None
  {
    assert [d][1..] == [];
    if d in row && row[d].Str? {
      assert KeyOf(row, [d][1..]) == Some([]);
      assert [row[d].s] + [] == [row[d].s];
    }
  }

  /** The value a row contributes to the sum of column `c`. */
  function CellValue(row: Row, c: string): real {
    if c in row then NumOf(row[c]) else 0.0
  }

  /** The sum of column `c` over the rows of group `k`. */
  function GroupSum(rows: seq<Row>, dims: seq<string>, k: Key, c: string): real {
    if rows == [] then 0.0
    else (if KeyOf(rows[0], dims) == Some(k) then CellValue(rows[0], c) else 0.0) + GroupSum(rows[1..], dims, k, c)
  }

  /** A key no row has sums to 0 in every column. */
  lemma {:induction false} GroupSumAbsent(rows: seq<Row>, dims: seq<string>, k: Key, c: string)
    requires !HasKey(rows, dims, k)
    ensures GroupSum(rows, dims, k, c) == 0.0
  {
    if rows != [] {
      assert KeyOf(rows[0], dims) != Some(k);
      forall i | 0 <= i < |rows[1..]| ensures KeyOf(rows[1..][i], dims) != Some(k) {
        assert rows[1..][i] == rows[i + 1];
      }
      GroupSumAbsent(rows[1..], dims, k, c);
    }
  }

  /** The sum of column `c` over the rows that have a key, i.e. that some group takes in. */
  function KeyedTotal(rows: seq<Row>, dims: seq<string>, c: string): real {
    if rows == [] then 0.0
    else (if KeyOf(rows[0], dims).Some? then CellValue(rows[0], c) else 0.0) + KeyedTotal(rows[1..], dims, c)
  }

  /** The group sums of column `c` over a list of keys. */
  function SumOverKeys(keys: seq<Key>, rows: seq<Row>, dims: seq<string>, c: string): real {
    if keys == [] then 0.0 else GroupSum(rows, dims, keys[0], c) + SumOverKeys(keys[1..], rows, dims, c)
  }

  /** What one row adds to the group sums over distinct `keys`: its value if its key is among them. */
  lemma {:induction false} SumOverKeysCons(keys: seq<Key>, rows: seq<Row>, dims: seq<string>, c: string)
    requires rows != [] && Distinct(keys)
    ensures SumOverKeys(keys, rows, dims, c)
         == SumOverKeys(keys, rows[1..], dims, c)
          + (if KeyOf(rows[0], dims).Some? && KeyOf(rows[0], dims).value in keys then CellValue(rows[0], c) else 0.0)
  {
    if keys != [] {
      SumOverKeysCons(keys[1..], rows, dims, c);
      var k := KeyOf(rows[0], dims);
      if k == Some(keys[0]) {
        assert k.value !in keys[1..];
      }
    }
  }

  /** Sum invariant: the group sums over all keys add up to the total of the keyed rows. */
  lemma {:induction false} GroupSumsAddUp(keys: seq<Key>, rows: seq<Row>, dims: seq<string>, c: string)
    requires Distinct(keys)
    requires forall i :: 0 <= i < |rows| && KeyOf(rows[i], dims).Some? ==> KeyOf(rows[i], dims).value in keys
    ensures SumOverKeys(keys, rows, dims, c) == KeyedTotal(rows, dims, c)
  {
    if rows == [] {
      SumOverNoRows(keys, dims, c);
    } else {
      assert forall i :: 0 <= i < |rows[1..]| ==> rows[1..][i] == rows[i + 1];
      GroupSumsAddUp(keys, rows[1..], dims, c);
      SumOverKeysCons(keys, rows, dims, c);
    }
  }

  lemma {:induction false} SumOverNoRows(keys: seq<Key>, dims: seq<string>, c: string)
    ensures SumOverKeys(keys, [], dims, c) == 0.0
  {
    if keys != [] {
      SumOverNoRows(keys[1..], dims, c);
    }
  }

  /** When every row has a key, the keyed total is the whole column total. */
  lemma {:induction false} KeyedTotalIsTotal(rows: seq<Row>, dims: seq<string>, c: string)
    requires forall i :: 0 <= i < |rows| ==> KeyOf(rows[i], dims).Some?
    ensures KeyedTotal(rows, dims, c) == ColumnTotal(rows, c)
  {
    if rows != [] {
      assert forall i :: 0 <= i < |rows[1..]| ==> rows[1..][i] == rows[i + 1];
      KeyedTotalIsTotal(rows[1..], dims, c);
    }
  }
}

module GroupTables {
  import opened Wrappers
  import opened Tables
  import opened Grouping

  /** The key columns of one group's output row. */
  function KeyCells(dims: seq<string>, k: Key): (m: map<string, Cell>)
    requires Distinct(dims) && |k| == |dims|
    ensures m.Keys == ColumnSet(dims)
    ensures forall i :: 0 <= i < |dims| ==> m[dims[i]] == Str(k[i])
  {
    map i | 0 <= i < |dims| :: dims[i] := Str(k[i])
  }

  /** One output row of `groupby(dims).agg(sum).reset_index()`: the key, then each column's group sum. */
  function GroupRow(rows: seq<Row>, dims: seq<string>, k: Key, sumCols: seq<string>): (row: Row)
    requires Distinct(dims) && |k| == |dims|
    ensures row.Keys == ColumnSet(dims + sumCols)
  {
    KeyCells(dims, k) + map c | c in sumCols :: Num(GroupSum(rows, dims, k, c))
  }

  /** The grouped table: key columns first, then the summed columns; one row per group, keys ascending. */
  function GroupedTable(rows: seq<Row>, dims: seq<string>, sumCols: seq<string>): (g: Table)
    requires Distinct(dims + sumCols)
    ensures g.Valid()
    ensures g.columns == dims + sumCols
  {
    DimsNotSummed(dims, sumCols);
    var keys := GroupKeys(rows, dims);
    forall i | 0 <= i < |keys| ensures |keys[i]| == |dims| {
      assert HasKey(rows, dims, keys[i]);
    }
    Table(dims + sumCols, seq(|keys|, i requires 0 <= i < |keys| => GroupRow(rows, dims, keys[i], sumCols)))
  }

  /** Grouped rows: one per distinct key, in ascending key order, each carrying its key. */
  lemma GroupedRows(rows: seq<Row>, dims: seq<string>, sumCols: seq<string>)
    requires Distinct(dims + sumCols)
    ensures var g := GroupedTable(rows, dims, sumCols);
      && |g.rows| == |GroupKeys(rows, dims)|
      && forall i :: 0 <= i < |g.rows| ==> KeyOf(g.rows[i], dims) == Some(GroupKeys(rows, dims)[i])
  {
    var g := GroupedTable(rows, dims, sumCols);
    var keys := GroupKeys(rows, dims);
    DimsNotSummed(dims, sumCols);
    forall i | 0 <= i < |g.rows| ensures KeyOf(g.rows[i], dims) == Some(keys[i]) {
      assert HasKey(rows, dims, keys[i]);
      KeyOfGroupRow(rows, dims, keys[i], sumCols);
    }
  }

  /** The key columns of the grouped table hold each group's key, position by position. */
  lemma GroupedKeyCells(rows: seq<Row>, dims: seq<string>, sumCols: seq<string>)
    requires Distinct(dims + sumCols)
    ensures var g := GroupedTable(rows, dims, sumCols);
      var keys := GroupKeys(rows, dims);
      && |g.rows| == |keys|
      && forall i, j :: 0 <= i < |g.rows| && 0 <= j < |dims| ==> dims[j] in g.rows[i] && g.rows[i][dims[j]] == Str(keys[i][j])
  {
    var g := GroupedTable(rows, dims, sumCols);
    var keys := GroupKeys(rows, dims);
    DimsNotSummed(dims, sumCols);
    forall i, j | 0 <= i < |g.rows| && 0 <= j < |dims| ensures dims[j] in g.rows[i] && g.rows[i][dims[j]] == Str(keys[i][j]) {
      assert g.rows[i] == GroupRow(rows, dims, keys[i], sumCols);
      assert KeyCells(dims, keys[i])[dims[j]] == Str(keys[i][j]);
    }
  }

  lemma KeyOfGroupRow(rows: seq<Row>, dims: seq<string>, k: Key, sumCols: seq<string>)
    requires Distinct(dims) && |k| == |dims|
    requires forall j :: 0 <= j < |dims| ==> dims[j] !in sumCols
    ensures KeyOf(GroupRow(rows, dims, k, sumCols), dims) == Some(k)
  {
    var row := GroupRow(rows, dims, k, sumCols);
    forall j | 0 <= j < |dims| ensures dims[j] in row && row[dims[j]] == Str(k[j]) {
      assert KeyCells(dims, k)[dims[j]] == Str(k[j]);
    }
    KeyOfCells(row, dims, k);
  }

  /** A row whose key columns hold the strings of `k` has key `k`. */
  lemma KeyOfCells(row: Row, dims: seq<string>, k: Key)
    requires |k| == |dims|
    requires forall j :: 0 <= j < |dims| ==> dims[j] in row && row[dims[j]] == Str(k[j])
    ensures KeyOf(row, dims) == Some(k)
  {
    var x := KeyOf(row, dims);
    assert x.Some?;
    assert x.value == k;
  }

  lemma DimsNotSummed(dims: seq<string>, sumCols: seq<string>)
    requires Distinct(dims + sumCols)
    ensures Distinct(dims)
    ensures forall j :: 0 <= j < |dims| ==> dims[j] !in sumCols
  {
    forall i, j | 0 <= i < j < |dims| ensures dims[i] != dims[j] {
      assert (dims + sumCols)[i] == dims[i] && (dims + sumCols)[j] == dims[j];
    }
    forall j, l | 0 <= j < |dims| && 0 <= l < |sumCols| ensures dims[j] != sumCols[l] {
      assert (dims + sumCols)[|dims| + l] == sumCols[l] && (dims + sumCols)[j] == dims[j];
    }
  }

  /** The summed column of the grouped table adds up to the group sums over its keys. */
  lemma {:induction false} GroupedColumnTotal(rows: seq<Row>, dims: seq<string>, sumCols: seq<string>, c: string, keys: seq<Key>)
    requires Distinct(dims) && c in sumCols && c !in dims
    requires forall i :: 0 <= i < |keys| ==> |keys[i]| == |dims|
    ensures ColumnTotal(seq(|keys|, i requires 0 <= i < |keys| => GroupRow(rows, dims, keys[i], sumCols)), c)
         == SumOverKeys(keys, rows, dims, c)
  {
    var out := seq(|keys|, i requires 0 <= i < |keys| => GroupRow(rows, dims, keys[i], sumCols));
    if keys != [] {
      var tail := seq(|keys[1..]|, i requires 0 <= i < |keys[1..]| => GroupRow(rows, dims, keys[1..][i], sumCols));
      assert out[1..] == tail;
      GroupedColumnTotal(rows, dims, sumCols, c, keys[1..]);
      assert out[0][c] == Num(GroupSum(rows, dims, keys[0], c));
    }
  }

  /** Sum invariant of `groupby(...).agg(sum)`: each summed column's total over the groups is its total over the keyed rows. */
  lemma GroupedTotals(rows: seq<Row>, dims: seq<string>, sumCols: seq<string>, c: string)
    requires Distinct(dims + sumCols) && c in sumCols
    ensures ColumnTotal(GroupedTable(rows, dims, sumCols).rows, c) == KeyedTotal(rows, dims, c)
  {
    var keys := GroupKeys(rows, dims);
    var g := GroupedTable(rows, dims, sumCols);
    DimsNotSummed(dims, sumCols);
    forall i | 0 <= i < |keys| ensures |keys[i]| == |dims| {
      assert HasKey(rows, dims, keys[i]);
    }
    GroupedColumnTotal(rows, dims, sumCols, c, keys);
    SortedIsDistinct(keys);
    forall i | 0 <= i < |rows| && KeyOf(rows[i], dims).Some?
      ensures KeyOf(rows[i], dims).value in keys
    {
      assert HasKey(rows, dims, KeyOf(rows[i], dims).value);
    }
    GroupSumsAddUp(keys, rows, dims, c);
  }
}
