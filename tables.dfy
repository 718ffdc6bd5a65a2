/** A loaded JSON table as the dashboard sees it through pandas: an ordered
    list of column labels and rows of cells, one cell per label. Duplicate
    labels are allowed, as in pandas; a label is looked up at its first
    position. */
module Tables {
  import opened Wrappers
  import opened Seqs

  /** A cell: a JSON string, integer, floating-point number, list of strings,
      object of numbers (kept in key order) or a missing value (NaN/None). */
  datatype Value =
    | Str(s: string)
    | Int(i: int)
    | Real(r: real)
    | List(items: seq<string>)
    | Dict(entries: seq<(string, real)>)
    | Null

  type Row = seq<Value>

  datatype Table = Table(columns: seq<string>, rows: seq<Row>) {
    /** Every row has one cell per column label. */
    predicate Valid() {
      forall row :: row in rows ==> |row| == |columns|
    }
  }

  /** `row[c]`: the cell under the first label `c`, or `Null` if there is none. */
  function Cell(columns: seq<string>, row: Row, c: string): Value {
    var i := IndexOf(columns, c);
    if i < |row| then row[i] else Null
  }

  /** `dict.get(k, default)` on an object cell: the value of the first entry
      with key `k`, or `default`. */
  function DictGet(entries: seq<(string, real)>, k: string, default: real): (v: real)
    ensures (exists e :: e in entries && e.0 == k) ==> exists e :: e in entries && e.0 == k && e.1 == v
    ensures (forall e :: e in entries ==> e.0 != k) ==> v == default
  {
    if entries == [] then default
    else if entries[0].0 == k then entries[0].1
    else DictGet(entries[1..], k, default)
  }

  /** Overwriting the cell under the first label `col` changes what `col`
      reads and nothing else. */
  lemma CellAfterUpdate(columns: seq<string>, row: Row, col: string, v: Value)
    requires |row| == |columns| && col in columns
    ensures forall c :: Cell(columns, row[IndexOf(columns, col) := v], c) == if c == col then v else Cell(columns, row, c)
  {
    var k := IndexOf(columns, col);
    forall c ensures Cell(columns, row[k := v], c) == if c == col then v else Cell(columns, row, c) {
      if c != col && c in columns {
        assert columns[IndexOf(columns, c)] == c;
      }
    }
  }

  // ----- renaming a column -----

  function RenameIn(columns: seq<string>, from: string, to: string): (r: seq<string>)
    ensures |r| == |columns|
    ensures forall i :: 0 <= i < |r| ==> r[i] == if columns[i] == from then to else columns[i]
    ensures from != to ==> from !in r
    ensures from in columns ==> to in r
    ensures forall c :: c != from && c != to ==> (c in r <==> c in columns)
  {
    if columns == [] then []
    else [if columns[0] == from then to else columns[0]] + RenameIn(columns[1..], from, to)
  }

  /** `df.rename(columns={from: to})`: every label `from` becomes `to`; the rows
      are untouched. */
  function RenameColumn(t: Table, from: string, to: string): (r: Table)
    ensures r.rows == t.rows && |r.columns| == |t.columns|
    ensures forall i :: 0 <= i < |r.columns| ==> r.columns[i] == if t.columns[i] == from then to else t.columns[i]
    ensures from != to ==> from !in r.columns
    ensures from in t.columns ==> to in r.columns
    ensures forall c :: c != from && c != to ==> (c in r.columns <==> c in t.columns)
    ensures t.Valid() ==> r.Valid()
  {
    Table(RenameIn(t.columns, from, to), t.rows)
  }

  lemma {:induction false} RenameKeepsIndex(columns: seq<string>, from: string, to: string, c: string)
    requires c != from && c != to
    ensures IndexOf(RenameIn(columns, from, to), c) == IndexOf(columns, c)
  {
    if columns != [] {
      RenameKeepsIndex(columns[1..], from, to, c);
    }
  }

  lemma {:induction false} RenameMovesIndex(columns: seq<string>, from: string, to: string)
    requires to !in columns && from != to
    ensures IndexOf(RenameIn(columns, from, to), to) == IndexOf(columns, from)
  {
    if columns != [] {
      RenameMovesIndex(columns[1..], from, to);
    }
  }

  /** Renaming changes no cell: a column other than the two names reads as
      before, and when `to` was absent it reads what `from` held. */
  lemma RenameKeepsCells(t: Table, from: string, to: string, row: Row)
    ensures forall c :: c != from && c != to ==>
      Cell(RenameColumn(t, from, to).columns, row, c) == Cell(t.columns, row, c)
    ensures to !in t.columns && from != to ==>
      Cell(RenameColumn(t, from, to).columns, row, to) == Cell(t.columns, row, from)
  {
    forall c | c != from && c != to
      ensures Cell(RenameColumn(t, from, to).columns, row, c) == Cell(t.columns, row, c)
    {
      RenameKeepsIndex(t.columns, from, to, c);
    }
    if to !in t.columns && from != to {
      RenameMovesIndex(t.columns, from, to);
    }
  }

  // ----- selecting rows -----

  /** `df[mask]`: the rows satisfying `keep`, in order, under the same columns. */
  function Where(t: Table, keep: Row -> bool): (r: Table)
    ensures r.columns == t.columns
    ensures IsSubsequence(r.rows, t.rows)
    ensures forall row :: multiset(r.rows)[row] == if keep(row) then multiset(t.rows)[row] else 0
    ensures forall row :: row in r.rows <==> row in t.rows && keep(row)
    ensures t.Valid() ==> r.Valid()
  {
    Table(t.columns, Filter(t.rows, keep))
  }

  /** A sidebar selection: "All" selects everything, anything else
      `df[df[col] == selection]`. The same rule filters actor types in
      several views. */
  function SelectEqual(t: Table, col: string, selection: string): (r: Table)
    requires selection != "All" ==> col in t.columns
    ensures r.columns == t.columns
    ensures selection == "All" ==> r == t
    ensures IsSubsequence(r.rows, t.rows)
    ensures selection != "All" ==> forall row ::
      multiset(r.rows)[row] == if Cell(t.columns, row, col) == Str(selection) then multiset(t.rows)[row] else 0
    ensures selection != "All" ==> forall row :: row in r.rows ==> Cell(t.columns, row, col) == Str(selection)
    ensures t.Valid() ==> r.Valid()
  {
    if selection == "All" then
      SubsequenceReflexive(t.rows);
      t
    else
      Where(t, row => Cell(t.columns, row, col) == Str(selection))
  }

  /** `df.head(n)`. */
  function Head(t: Table, n: nat): (r: Table)
    ensures r.columns == t.columns
    ensures |r.rows| == if n < |t.rows| then n else |t.rows|
    ensures r.rows == t.rows[..|r.rows|]
  {
    Table(t.columns, if n < |t.rows| then t.rows[..n] else t.rows)
  }

  // ----- wide to long -----

  /** One row of `df.melt(...)`: the identifier cells of `row`, the name of the
      melted column and the row's cell under it. */
  function MeltedRow(columns: seq<string>, row: Row, idVars: seq<string>, col: string): (m: Row)
    ensures |m| == |idVars| + 2
    ensures forall k :: 0 <= k < |idVars| ==> m[k] == Cell(columns, row, idVars[k])
    ensures m[|idVars|] == Str(col) && m[|idVars| + 1] == Cell(columns, row, col)
  {
    seq(|idVars|, k requires 0 <= k < |idVars| => Cell(columns, row, idVars[k]))
      + [Str(col), Cell(columns, row, col)]
  }

  /** The long rows melted from one column, one per input row. */
  function MeltBlock(t: Table, idVars: seq<string>, col: string): (b: seq<Row>)
    ensures |b| == |t.rows|
    ensures forall i :: 0 <= i < |b| ==> b[i] == MeltedRow(t.columns, t.rows[i], idVars, col)
  {
    seq(|t.rows|, i requires 0 <= i < |t.rows| => MeltedRow(t.columns, t.rows[i], idVars, col))
  }

  /** The long rows: all rows for the first melted column, then all rows for
      the next, and so on. */
  function MeltRows(t: Table, idVars: seq<string>, valueVars: seq<string>): (rows: seq<Row>)
    ensures |rows| == Position(|valueVars|, |t.rows|, 0)
  {
    if valueVars == [] then []
    else
      MeltBlock(t, idVars, valueVars[0]) + MeltRows(t, idVars, valueVars[1..])
  }

  lemma {:induction false} MeltRowsVariables(t: Table, idVars: seq<string>, valueVars: seq<string>)
    ensures forall row: Row :: row in MeltRows(t, idVars, valueVars) ==>
      |row| == |idVars| + 2 && row[|idVars|].Str? && row[|idVars|].s in valueVars
  {
    if valueVars != [] {
      MeltRowsVariables(t, idVars, valueVars[1..]);
      var block := MeltBlock(t, idVars, valueVars[0]);
      var rest := MeltRows(t, idVars, valueVars[1..]);
      assert MeltRows(t, idVars, valueVars) == block + rest;
      forall row: Row | row in block + rest
        ensures |row| == |idVars| + 2 && row[|idVars|].Str? && row[|idVars|].s in valueVars
      {
        if row in rest {
          assert row[|idVars|].s in valueVars[1..];
        } else {
          var i :| 0 <= i < |block| && block[i] == row;
        }
      }
    }
  }

  /** Position of input row `i` within the block of melted column `j`,
      counted without multiplication. */
  function Position(j: nat, n: nat, i: nat): nat {
    if j == 0 then i else n + Position(j - 1, n, i)
  }

  lemma {:induction false} PositionIsOffset(j: nat, n: nat, i: nat)
    ensures Position(j, n, i) == j * n + i
  {
    if j > 0 {
      PositionIsOffset(j - 1, n, i);
    }
  }

  lemma {:induction false} MeltRowsAt(t: Table, idVars: seq<string>, valueVars: seq<string>, j: nat, i: nat)
    requires j < |valueVars| && i < |t.rows|
    ensures Position(j, |t.rows|, i) < |MeltRows(t, idVars, valueVars)|
    ensures MeltRows(t, idVars, valueVars)[Position(j, |t.rows|, i)] == MeltedRow(t.columns, t.rows[i], idVars, valueVars[j])
  {
    var n := |t.rows|;
    var block := MeltBlock(t, idVars, valueVars[0]);
    var rest := MeltRows(t, idVars, valueVars[1..]);
    assert MeltRows(t, idVars, valueVars) == block + rest;
    if j == 0 {
      assert Position(j, n, i) == i;
      assert (block + rest)[i] == block[i];
    } else {
      MeltRowsAt(t, idVars, valueVars[1..], j - 1, i);
      var p := Position(j - 1, n, i);
      assert Position(j, n, i) == n + p;
      assert (block + rest)[n + p] == rest[p];
      assert valueVars[j] == valueVars[1..][j - 1];
    }
  }

  /** `df.melt(id_vars, value_vars, var_name, value_name)`. The output has
      exactly the identifier columns followed by the variable and value
      columns, and one row per (melted column, input row) pair. */
  function Melt(t: Table, idVars: seq<string>, valueVars: seq<string>, varName: string, valueName: string): (r: Table)
    requires forall c :: c in idVars ==> c in t.columns
    requires forall c :: c in valueVars ==> c in t.columns
    ensures r.columns == idVars + [varName, valueName]
    ensures r.Valid()
    ensures |r.rows| == |valueVars| * |t.rows|
    ensures forall row: Row :: row in r.rows ==> row[|idVars|].Str? && row[|idVars|].s in valueVars
  {
    MeltRowsVariables(t, idVars, valueVars);
    PositionIsOffset(|valueVars|, |t.rows|, 0);
    Table(idVars + [varName, valueName], MeltRows(t, idVars, valueVars))
  }

  /** Row `j * n + i` of a melt carries input row `i`'s identifier cells, the
      name of melted column `j` and row `i`'s cell under that column. */
  lemma MeltAt(t: Table, idVars: seq<string>, valueVars: seq<string>, varName: string, valueName: string, j: int, i: int)
    requires forall c :: c in idVars ==> c in t.columns
    requires forall c :: c in valueVars ==> c in t.columns
    requires 0 <= j < |valueVars| && 0 <= i < |t.rows|
    ensures 0 <= j * |t.rows| + i < |Melt(t, idVars, valueVars, varName, valueName).rows|
    ensures Melt(t, idVars, valueVars, varName, valueName).rows[j * |t.rows| + i]
      == MeltedRow(t.columns, t.rows[i], idVars, valueVars[j])
  {
    var rows := MeltRows(t, idVars, valueVars);
    assert Melt(t, idVars, valueVars, varName, valueName).rows == rows;
    MeltRowsAt(t, idVars, valueVars, j, i);
    PositionIsOffset(j, |t.rows|, i);
    var p := Position(j, |t.rows|, i);
    assert p == j * |t.rows| + i && p < |rows|;
    assert rows[p] == MeltedRow(t.columns, t.rows[i], idVars, valueVars[j]);
  }

  // ----- ranking -----

  /** The sort key of a cell: its number, or nothing (pandas' NaN). */
  function NumKey(v: Value): Option<real> {
    match v
    case Int(i) => Some(i as real)
    case Real(x) => Some(x)
    case _ => None
  }

  /** `a` may stand before `b` in a descending order that puts missing
      values last. */
  predicate RanksBefore(a: Option<real>, b: Option<real>) {
    b.None? || (a.Some? && a.value >= b.value)
  }

  function KeyAt(row: Row, k: nat): Option<real> {
    if k < |row| then NumKey(row[k]) else None
  }

  predicate Descending(rows: seq<Row>, k: nat) {
    forall i, j :: 0 <= i < j < |rows| ==> RanksBefore(KeyAt(rows[i], k), KeyAt(rows[j], k))
  }

  /** A prefix of a descending list is descending, is part of the list, and
      ranks at or above everything after it. */
  lemma DescendingPrefix(rows: seq<Row>, m: nat, k: nat)
    requires m <= |rows| && Descending(rows, k)
    ensures Descending(rows[..m], k)
    ensures multiset(rows[..m]) <= multiset(rows)
    ensures forall row :: row in rows[..m] ==> row in rows
    ensures forall i, j :: 0 <= i < m <= j < |rows| ==> RanksBefore(KeyAt(rows[i], k), KeyAt(rows[j], k))
  {
    assert rows == rows[..m] + rows[m..];
    assert multiset(rows) == multiset(rows[..m]) + multiset(rows[m..]);
  }

  /** A row that ranks before every row of a descending list can lead it. */
  lemma DescendingCons(x: Row, s: seq<Row>, k: nat)
    requires Descending(s, k)
    requires forall y :: y in s ==> RanksBefore(KeyAt(x, k), KeyAt(y, k))
    ensures Descending([x] + s, k)
  {
    forall i, j | 0 <= i < j < |[x] + s|
      ensures RanksBefore(KeyAt(([x] + s)[i], k), KeyAt(([x] + s)[j], k))
    {
      assert ([x] + s)[j] == s[j - 1] && s[j - 1] in s;
      if i > 0 {
        assert ([x] + s)[i] == s[i - 1];
      }
    }
  }

  /** A row ranking before the head of a descending list ranks before all of it. */
  lemma RanksBeforeAll(x: Row, s: seq<Row>, k: nat)
    requires Descending(s, k) && s != [] && RanksBefore(KeyAt(x, k), KeyAt(s[0], k))
    ensures forall y :: y in s ==> RanksBefore(KeyAt(x, k), KeyAt(y, k))
  {
    forall y | y in s ensures RanksBefore(KeyAt(x, k), KeyAt(y, k)) {
      var j :| 0 <= j < |s| && s[j] == y;
      if j > 0 {
        assert RanksBefore(KeyAt(s[0], k), KeyAt(s[j], k));
      }
    }
  }

  /** When `row` does not rank before the head of a descending list, the
      head ranks before every row of the rest with `row` inserted. */
  lemma HeadRanksBeforeInsert(row: Row, rows: seq<Row>, tail: seq<Row>, k: nat)
    requires Descending(rows, k) && rows != [] && !RanksBefore(KeyAt(row, k), KeyAt(rows[0], k))
    requires multiset(tail) == multiset(rows[1..]) + multiset{row}
    ensures forall y :: y in tail ==> RanksBefore(KeyAt(rows[0], k), KeyAt(y, k))
  {
    forall y | y in tail ensures RanksBefore(KeyAt(rows[0], k), KeyAt(y, k)) {
      assert multiset(tail)[y] > 0;
      if y != row {
        assert y in rows[1..];
        var j :| 1 <= j < |rows| && rows[j] == y;
      }
    }
  }

  function InsertDescending(row: Row, rows: seq<Row>, k: nat): (r: seq<Row>)
    requires Descending(rows, k)
    ensures Descending(r, k)
    ensures multiset(r) == multiset(rows) + multiset{row}
  {
    if rows == [] then
      [row]
    else if RanksBefore(KeyAt(row, k), KeyAt(rows[0], k)) then
      RanksBeforeAll(row, rows, k);
      DescendingCons(row, rows, k);
      [row] + rows
    else
      assert Descending(rows[1..], k);
      var tail := InsertDescending(row, rows[1..], k);
      assert rows == [rows[0]] + rows[1..];
      HeadRanksBeforeInsert(row, rows, tail, k);
      DescendingCons(rows[0], tail, k);
      [rows[0]] + tail
  }

  /** `sort_values(ascending=False)`: a descending rearrangement of the rows. */
  function SortDescending(rows: seq<Row>, k: nat): (r: seq<Row>)
    ensures Descending(r, k)
    ensures multiset(r) == multiset(rows)
    ensures |r| == |rows|
  {
    if rows == [] then []
    else
      assert rows == [rows[0]] + rows[1..];
      var r := InsertDescending(rows[0], SortDescending(rows[1..], k), k);
      assert |r| == |multiset(r)|;
      r
  }

  /** `df.sort_values(c, ascending=False)`. pandas' default sort is not
      stable, so nothing is said about the order of rows with equal keys. */
  function SortByDescending(t: Table, c: string): (r: Table)
    requires c in t.columns
    ensures r.columns == t.columns
    ensures Descending(r.rows, IndexOf(t.columns, c))
    ensures multiset(r.rows) == multiset(t.rows)
    ensures t.Valid() ==> r.Valid()
  {
    var r := Table(t.columns, SortDescending(t.rows, IndexOf(t.columns, c)));
    assert forall row :: row in r.rows ==> row in t.rows by {
      forall row | row in r.rows ensures row in t.rows {
        assert multiset(r.rows)[row] > 0;
      }
    }
    r
  }
}
