/**
 * The aggregation steps of the pipeline: `create_pivot` (visit x patient
 * table of scores), `get_diffs` (first differences down each patient's
 * column, unstacked back to rows) and `agg_into_series` (a one-column
 * group-by reduction).
 */
module Aggregator {
  import opened Values
  import opened Keys
  import opened Tables
  import opened Grouping

  // ---------------------------------------------------------------------
  // create_pivot

  /** Strictly increasing cells: sorted axis labels without repeats. */
  predicate Increasing(vs: seq<Value>) {
    forall i, j :: 0 <= i < j < |vs| ==> ValueLt(vs[i], vs[j])
  }

  lemma SingletonKeyLt(a: Value, b: Value)
    ensures KeyLt([a], [b]) <==> ValueLt(a, b)
  {
    var e: Key := [];
    assert [a][1..] == e && [b][1..] == e;
    KeyLtIrreflexive(e);
  }

  /** The distinct cells of `vs` in increasing order: the labels of a pivot axis. */
  function Labels(vs: seq<Value>): (r: seq<Value>)
    ensures Increasing(r)
    ensures forall v :: v in r <==> v in vs
  {
    var singles := seq(|vs|, i requires 0 <= i < |vs| => [vs[i]]);
    var ks := SortedDistinct(singles);
    assert forall k :: k in ks ==> |k| == 1;
    var r := seq(|ks|, i requires 0 <= i < |ks| => ks[i][0]);
    assert forall i :: 0 <= i < |ks| ==> ks[i] == [r[i]];
    forall i, j | 0 <= i < j < |r| ensures ValueLt(r[i], r[j]) {
      SingletonKeyLt(r[i], r[j]);
    }
    forall v ensures v in r <==> v in vs {
      if v in r {
        var i :| 0 <= i < |r| && r[i] == v;
        assert [v] in singles;
        var j :| 0 <= j < |singles| && singles[j] == [v];
        assert vs[j] == v;
      }
      if v in vs {
        var j :| 0 <= j < |vs| && vs[j] == v;
        assert singles[j] == [v];
        assert [v] in ks;
        var i :| 0 <= i < |ks| && ks[i] == [v];
        assert r[i] == v;
      }
    }
    r
  }

  /** Rows that hold the three pivot columns. */
  predicate HasPivotColumns(rows: seq<Row>, index: string, columns: string, values: string) {
    forall j :: 0 <= j < |rows| ==> index in rows[j] && columns in rows[j] && values in rows[j]
  }

  /** Row `j` sits at the pivot position (a, b). */
  predicate At(rows: seq<Row>, index: string, columns: string, j: int, a: Value, b: Value)
    requires HasPivotColumns(rows, index, columns, columns) && 0 <= j < |rows|
  {
    rows[j][index] == a && rows[j][columns] == b
  }

  /** No two rows share an (index, columns) pair, which `pivot` demands. */
  predicate UniquePairs(rows: seq<Row>, index: string, columns: string)
    requires HasPivotColumns(rows, index, columns, columns)
  {
    forall i, j :: 0 <= i < j < |rows| ==>
      rows[i][index] != rows[j][index] || rows[i][columns] != rows[j][columns]
  }

  /** The value cell of the first row at position (a, b); NaN when no row is there. */
  function CellAt(rows: seq<Row>, index: string, columns: string, values: string, a: Value, b: Value): Value
    requires HasPivotColumns(rows, index, columns, values)
  {
    if rows == [] then Null
    else if rows[0][index] == a && rows[0][columns] == b then rows[0][values]
    else CellAt(rows[1..], index, columns, values, a, b)
  }

  /** The cell at (a, b) is missing when no row has those labels, and otherwise the value of one that has. */
  lemma {:induction false} CellAtFacts(rows: seq<Row>, index: string, columns: string, values: string, a: Value, b: Value)
    requires HasPivotColumns(rows, index, columns, values)
    ensures var v := CellAt(rows, index, columns, values, a, b);
      && ((forall j :: 0 <= j < |rows| ==> !(rows[j][index] == a && rows[j][columns] == b)) ==> v == Null)
      && ((exists j :: 0 <= j < |rows| && rows[j][index] == a && rows[j][columns] == b) ==>
            exists j :: 0 <= j < |rows| && rows[j][index] == a && rows[j][columns] == b && v == rows[j][values])
  {
    if rows != [] && !(rows[0][index] == a && rows[0][columns] == b) {
      CellAtFacts(rows[1..], index, columns, values, a, b);
      var v := CellAt(rows[1..], index, columns, values, a, b);
      assert forall j :: 1 <= j < |rows| ==> rows[j] == rows[1..][j - 1];
      if exists j :: 0 <= j < |rows| && rows[j][index] == a && rows[j][columns] == b {
        var j :| 0 <= j < |rows| && rows[j][index] == a && rows[j][columns] == b;
        assert rows[1..][j - 1][index] == a && rows[1..][j - 1][columns] == b;
      }
    }
  }

  /** A pivot table: row labels, column labels and `cells[r][c]` at (index[r], columns[c]). */
  datatype Pivot = Pivot(index: seq<Value>, columns: seq<Value>, cells: seq<seq<Value>>)

  predicate Shaped(p: Pivot) {
    && |p.cells| == |p.index|
    && forall r :: 0 <= r < |p.cells| ==> |p.cells[r]| == |p.columns|
  }

  /**
   * `df.pivot(index=index, columns=columns, values=values)`: row labels are
   * the distinct `index` cells, column labels the distinct `columns` cells,
   * both sorted; each cell holds the `values` cell of the row at that
   * position, NaN where no row is. A missing column raises KeyError; the
   * same label for `index` and `columns` makes the two levels of the
   * reshaped index share a name, which `unstack` refuses; a repeated
   * (index, columns) pair raises the duplicate-entries error.
   */
  /** The distinct labels of column `c`, increasing: `pivot` puts these on an axis. */
  function ColumnLabels(t: Table, c: string): (r: seq<Value>)
    requires WellFormed(t) && c in t.columns
    ensures Increasing(r)
    ensures forall a :: a in r <==> exists j :: 0 <= j < |t.rows| && t.rows[j][c] == a
  {
    var vs := Column(t, c);
    assert forall a :: a in vs <==> exists j :: 0 <= j < |t.rows| && t.rows[j][c] == a by {
      forall a | a in vs ensures exists j :: 0 <= j < |t.rows| && t.rows[j][c] == a {
        var j :| 0 <= j < |vs| && vs[j] == a;
      }
      forall a | exists j :: 0 <= j < |t.rows| && t.rows[j][c] == a ensures a in vs {
        var j :| 0 <= j < |t.rows| && t.rows[j][c] == a;
        assert vs[j] == a;
      }
    }
    Labels(vs)
  }

  /** The grid of a pivot: one cell per (row label, column label). */
  function PivotCells(rows: seq<Row>, index: string, columns: string, values: string, ri: seq<Value>, ci: seq<Value>)
    : (cells: seq<seq<Value>>)
    requires HasPivotColumns(rows, index, columns, values)
    ensures |cells| == |ri| && forall r :: 0 <= r < |cells| ==> |cells[r]| == |ci|
  {
    seq(|ri|, r requires 0 <= r < |ri| =>
      seq(|ci|, c requires 0 <= c < |ci| => CellAt(rows, index, columns, values, ri[r], ci[c])))
  }

  function CreatePivot(t: Table, index: string, columns: string, values: string): (r: Result<Pivot>)
    requires WellFormed(t)
    ensures r.Ok? <==>
      && index in t.columns && columns in t.columns && values in t.columns
      && index != columns
      && UniquePairs(t.rows, index, columns)
    ensures r.Err? ==> r.error == DuplicateEntries || r.error.KeyError? || r.error == ColumnConflict(index)
    ensures r.Ok? ==> Shaped(r.value) && Increasing(r.value.index) && Increasing(r.value.columns)
    ensures r.Ok? ==> forall a :: a in r.value.index <==> exists j :: 0 <= j < |t.rows| && t.rows[j][index] == a
    ensures r.Ok? ==> forall b :: b in r.value.columns <==> exists j :: 0 <= j < |t.rows| && t.rows[j][columns] == b
  {
    var missing := FirstMissing([index, columns, values], t);
    if missing.Some? then Err(KeyError(missing.value))
    else if index == columns then Err(ColumnConflict(index))
    else if !UniquePairs(t.rows, index, columns) then Err(DuplicateEntries)
    else
      var ri := ColumnLabels(t, index);
      var ci := ColumnLabels(t, columns);
      Ok(Pivot(ri, ci, PivotCells(t.rows, index, columns, values, ri, ci)))
  }


  /** With unique pairs, the cell at a row's position holds that row's value. */
  lemma PivotCellOfRow(t: Table, index: string, columns: string, values: string, r: int, c: int, j: int)
    requires WellFormed(t) && CreatePivot(t, index, columns, values).Ok?
    requires var p := CreatePivot(t, index, columns, values).value;
      0 <= r < |p.index| && 0 <= c < |p.columns| && 0 <= j < |t.rows|
      && t.rows[j][index] == p.index[r] && t.rows[j][columns] == p.columns[c]
    ensures CreatePivot(t, index, columns, values).value.cells[r][c] == t.rows[j][values]
  {
    var p := CreatePivot(t, index, columns, values).value;
    var a, b := p.index[r], p.columns[c];
    assert p.cells[r][c] == CellAt(t.rows, index, columns, values, a, b);
    CellAtFacts(t.rows, index, columns, values, a, b);
    var i :| 0 <= i < |t.rows| && t.rows[i][index] == a && t.rows[i][columns] == b
      && p.cells[r][c] == t.rows[i][values];
    assert i == j;
  }

  /** A position no row occupies holds NaN. */
  lemma PivotCellEmpty(t: Table, index: string, columns: string, values: string, r: int, c: int)
    requires WellFormed(t) && CreatePivot(t, index, columns, values).Ok?
    requires var p := CreatePivot(t, index, columns, values).value;
      && 0 <= r < |p.index| && 0 <= c < |p.columns|
      && forall j :: 0 <= j < |t.rows| ==> t.rows[j][index] != p.index[r] || t.rows[j][columns] != p.columns[c]
    ensures CreatePivot(t, index, columns, values).value.cells[r][c] == Null
  {
    var p := CreatePivot(t, index, columns, values).value;
    assert p.cells[r][c] == CellAt(t.rows, index, columns, values, p.index[r], p.columns[c]);
    CellAtFacts(t.rows, index, columns, values, p.index[r], p.columns[c]);
  }

  /** Every row lands at its own position of the pivot. */
  lemma PivotHoldsRow(t: Table, index: string, columns: string, values: string, j: int)
    requires WellFormed(t) && CreatePivot(t, index, columns, values).Ok? && 0 <= j < |t.rows|
    ensures var p := CreatePivot(t, index, columns, values).value;
      exists r, c :: 0 <= r < |p.index| && 0 <= c < |p.columns|
        && p.index[r] == t.rows[j][index] && p.columns[c] == t.rows[j][columns]
        && p.cells[r][c] == t.rows[j][values]
  {
    var p := CreatePivot(t, index, columns, values).value;
    assert t.rows[j][index] in p.index;
    assert t.rows[j][columns] in p.columns;
    var r :| 0 <= r < |p.index| && p.index[r] == t.rows[j][index];
    var c :| 0 <= c < |p.columns| && p.columns[c] == t.rows[j][columns];
    PivotCellOfRow(t, index, columns, values, r, c, j);
  }

  // ---------------------------------------------------------------------
  // get_diffs

  /** `DataFrame.diff()`: each cell minus the one above it in its column; the first row is NaN. */
  function Diff(p: Pivot): (d: Pivot)
    requires Shaped(p)
    ensures Shaped(d) && d.index == p.index && d.columns == p.columns
    ensures forall r, c :: 0 <= r < |p.index| && 0 <= c < |p.columns| ==>
      d.cells[r][c] == if r == 0 then Null else Sub(p.cells[r][c], p.cells[r - 1][c])
  {
    Pivot(p.index, p.columns, seq(|p.index|, r requires 0 <= r < |p.index| =>
      seq(|p.columns|, c requires 0 <= c < |p.columns| =>
        if r == 0 then Null else Sub(p.cells[r][c], p.cells[r - 1][c]))))
  }

  /**
   * `diff()` loses nothing it reports: the first row is NaN; below it a
   * cell is a number exactly when it and the one above it are, and then
   * adding it to the cell above gives back the original cell.
   */
  lemma DiffRecovers(p: Pivot, r: int, c: int)
    requires Shaped(p) && 0 <= r < |p.index| && 0 <= c < |p.columns|
    ensures r == 0 ==> Diff(p).cells[r][c] == Null
    ensures r > 0 ==> (Diff(p).cells[r][c].Num? <==> p.cells[r][c].Num? && p.cells[r - 1][c].Num?)
    ensures r > 0 && Diff(p).cells[r][c].Num? ==>
      p.cells[r][c] == Num(p.cells[r - 1][c].x + Diff(p).cells[r][c].x)
  {
  }

  /** One cell of an unstacked pivot: its column label, its row label and its value. */
  datatype Entry = Entry(col: Value, idx: Value, cell: Value)

  /** Entry (r, c) of a pivot. */
  function EntryAt(p: Pivot, r: int, c: int): Entry
    requires Shaped(p) && 0 <= r < |p.index| && 0 <= c < |p.columns|
  {
    Entry(p.columns[c], p.index[r], p.cells[r][c])
  }

  /** The order of the unstacked series: by column label, then by row label. */
  predicate EntryLt(e: Entry, f: Entry) {
    KeyLt([e.col, e.idx], [f.col, f.idx])
  }

  predicate EntriesSorted(es: seq<Entry>) {
    forall i, j :: 0 <= i < j < |es| ==> EntryLt(es[i], es[j])
  }

  lemma PairKeyLt(a0: Value, a1: Value, b0: Value, b1: Value)
    ensures KeyLt([a0, a1], [b0, b1]) <==> ValueLt(a0, b0) || (a0 == b0 && ValueLt(a1, b1))
  {
    assert [a0, a1][1..] == [a1] && [b0, b1][1..] == [b1];
    SingletonKeyLt(a1, b1);
  }

  /** Column `c` of the pivot, top to bottom. */
  function Block(p: Pivot, c: int): (es: seq<Entry>)
    requires Shaped(p) && 0 <= c < |p.columns|
    ensures |es| == |p.index|
    ensures forall r :: 0 <= r < |es| ==> es[r] == EntryAt(p, r, c)
  {
    seq(|p.index|, r requires 0 <= r < |p.index| => EntryAt(p, r, c))
  }

  /** `unstack()` of the pivot's columns from `c` on: column by column, each top to bottom. */
  function UnstackFrom(p: Pivot, c: nat): seq<Entry>
    requires Shaped(p) && c <= |p.columns|
    decreases |p.columns| - c
  {
    if c == |p.columns| then [] else Block(p, c) + UnstackFrom(p, c + 1)
  }

  /** Unstacking sorted labels gives entries sorted by column label, then row label. */
  lemma {:induction false} UnstackSorted(p: Pivot, c: nat)
    requires Shaped(p) && c <= |p.columns|
    ensures forall i :: 0 <= i < |UnstackFrom(p, c)| ==> UnstackFrom(p, c)[i].col in p.columns[c..]
    ensures Increasing(p.index) && Increasing(p.columns) ==> EntriesSorted(UnstackFrom(p, c))
    decreases |p.columns| - c
  {
    if c < |p.columns| {
      var head := Block(p, c);
      var tail := UnstackFrom(p, c + 1);
      UnstackSorted(p, c + 1);
      assert UnstackFrom(p, c) == head + tail;
      assert forall x :: x in p.columns[c + 1..] ==> x in p.columns[c..];
      if Increasing(p.index) && Increasing(p.columns) {
        forall i, j | 0 <= i < j < |head| ensures EntryLt(head[i], head[j]) {
          PairKeyLt(head[i].col, head[i].idx, head[j].col, head[j].idx);
        }
        forall i, j | 0 <= i < |head| && 0 <= j < |tail| ensures EntryLt(head[i], tail[j]) {
          var k :| c + 1 <= k < |p.columns| && p.columns[k] == tail[j].col;
          PairKeyLt(head[i].col, head[i].idx, tail[j].col, tail[j].idx);
        }
      }
    }
  }

  /** Entries of an unstacked pivot are exactly its cells. */
  lemma {:induction false} UnstackMembers(p: Pivot, c: nat, e: Entry)
    requires Shaped(p) && c <= |p.columns|
    ensures e in UnstackFrom(p, c) <==>
      exists r, k :: 0 <= r < |p.index| && c <= k < |p.columns| && e == EntryAt(p, r, k)
    decreases |p.columns| - c
  {
    if c < |p.columns| {
      UnstackMembers(p, c + 1, e);
      if e in Block(p, c) {
        var r :| 0 <= r < |p.index| && Block(p, c)[r] == e;
      }
      if exists r :: 0 <= r < |p.index| && e == EntryAt(p, r, c) {
        var r :| 0 <= r < |p.index| && e == EntryAt(p, r, c);
        assert Block(p, c)[r] == e;
      }
    }
  }

  /** No missing label or value. */
  predicate Complete(e: Entry) {
    e.col != Null && e.idx != Null && e.cell != Null
  }

  /** `dropna()`: the entries with no missing part, in order. */
  function DropNa(es: seq<Entry>): seq<Entry> {
    if es == [] then []
    else (if Complete(es[0]) then [es[0]] else []) + DropNa(es[1..])
  }

  /** `dropna()` keeps exactly the complete entries... */
  lemma {:induction false} DropNaMembers(es: seq<Entry>, e: Entry)
    ensures e in DropNa(es) <==> e in es && Complete(e)
  {
    if es != [] {
      DropNaMembers(es[1..], e);
      assert e in es <==> e == es[0] || e in es[1..];
    }
  }

  /** ... in their original order. */
  lemma {:induction false} DropNaSorted(es: seq<Entry>)
    requires EntriesSorted(es)
    ensures EntriesSorted(DropNa(es))
  {
    if es != [] {
      var rest := DropNa(es[1..]);
      DropNaSorted(es[1..]);
      forall e | e in rest ensures EntryLt(es[0], e) {
        DropNaMembers(es[1..], e);
        var j :| 1 <= j < |es| && es[j] == e;
      }
    }
  }

  /** The unstacked first differences; with `dropNull`, only the entries without NaN. */
  function DiffEntries(p: Pivot, dropNull: bool): seq<Entry>
    requires Shaped(p)
  {
    var all := UnstackFrom(Diff(p), 0);
    if dropNull then DropNa(all) else all
  }

  lemma DiffEntriesSorted(p: Pivot, dropNull: bool)
    requires Shaped(p) && Increasing(p.index) && Increasing(p.columns)
    ensures EntriesSorted(DiffEntries(p, dropNull))
  {
    UnstackSorted(Diff(p), 0);
    if dropNull {
      DropNaSorted(UnstackFrom(Diff(p), 0));
    }
  }

  /** An entry as a row of the result: column label, row label, then 'delta_score'. */
  function EntryRow(index: string, columns: string, e: Entry): Row {
    map[columns := e.col, index := e.idx, "delta_score" := e.cell]
  }

  /**
   * `get_diffs(df, index, columns, values, drop_null)`: pivot, `diff()`,
   * `unstack()` and `reset_index()` give the columns (columns, index,
   * 'delta_score'); `drop_null` then drops the rows holding NaN. Errors:
   * those of the pivot, a non-numeric values column, and labels that
   * clash once reset into columns.
   */
  function GetDiffs(t: Table, index: string, columns: string, values: string, dropNull: bool): (r: Result<Table>)
    requires WellFormed(t)
    ensures r.Ok? <==>
      && CreatePivot(t, index, columns, values).Ok?
      && NumericColumn(t.rows, values)
      && Distinct([columns, index, "delta_score"])
    ensures r.Ok? ==> WellFormed(r.value) && r.value.columns == [columns, index, "delta_score"]
  {
    var p :- CreatePivot(t, index, columns, values);
    if !NumericColumn(t.rows, values) then Err(NonNumeric(values))
    else if !Distinct([columns, index, "delta_score"]) then
      Err(ColumnConflict("delta_score"))
    else
      Ok(EntryTable(index, columns, DiffEntries(p, dropNull)))
  }

  /** The entries as a table with columns (columns, index, 'delta_score'). */
  function EntryTable(index: string, columns: string, es: seq<Entry>): (r: Table)
    requires Distinct([columns, index, "delta_score"])
    ensures WellFormed(r) && r.columns == [columns, index, "delta_score"] && |r.rows| == |es|
  {
    var cols := [columns, index, "delta_score"];
    assert ColumnSet(cols) == {columns, index, "delta_score"};
    Table(cols, seq(|es|, i requires 0 <= i < |es| => EntryRow(index, columns, es[i])))
  }

  /** Reading an entry back from its row. */
  lemma EntryRowCells(index: string, columns: string, e: Entry)
    requires Distinct([columns, index, "delta_score"])
    ensures var o := EntryRow(index, columns, e);
      o[columns] == e.col && o[index] == e.idx && o["delta_score"] == e.cell
  {
    assert [columns, index, "delta_score"][0] != [columns, index, "delta_score"][1];
    assert [columns, index, "delta_score"][0] != [columns, index, "delta_score"][2];
    assert [columns, index, "delta_score"][1] != [columns, index, "delta_score"][2];
  }

  /**
   * The result rows come ordered by the columns label, then by the index
   * label, with no (columns, index) pair twice.
   */
  lemma GetDiffsSorted(t: Table, index: string, columns: string, values: string, dropNull: bool)
    requires WellFormed(t) && GetDiffs(t, index, columns, values, dropNull).Ok?
    ensures var d := GetDiffs(t, index, columns, values, dropNull).value;
      forall i, j :: 0 <= i < j < |d.rows| ==>
        KeyLt([d.rows[i][columns], d.rows[i][index]], [d.rows[j][columns], d.rows[j][index]])
  {
    var d := GetDiffs(t, index, columns, values, dropNull).value;
    var p := CreatePivot(t, index, columns, values).value;
    var es := DiffEntries(p, dropNull);
    DiffEntriesSorted(p, dropNull);
    assert |d.rows| == |es|;
    forall i | 0 <= i < |es|
      ensures d.rows[i][columns] == es[i].col && d.rows[i][index] == es[i].idx
    {
      assert d.rows[i] == EntryRow(index, columns, es[i]);
      EntryRowCells(index, columns, es[i]);
    }
  }

  /** In an increasing sequence the smaller label sits at the smaller position. */
  lemma IncreasingPositions(s: seq<Value>, a: int, b: int)
    requires Increasing(s) && 0 <= a < |s| && 0 <= b < |s| && ValueLt(s[a], s[b])
    ensures a < b
  {
    if b < a {
      ValueLtTransitive(s[a], s[b], s[a]);
      ValueLtIrreflexive(s[a]);
    }
    if a == b {
      ValueLtIrreflexive(s[a]);
    }
  }

  /** Two labels of an increasing sequence with no label between them are neighbours. */
  lemma NextLabel(s: seq<Value>, a: int, b: int)
    requires Increasing(s) && 0 <= a < b < |s|
    requires forall q :: 0 <= q < |s| ==> !(ValueLt(s[a], s[q]) && ValueLt(s[q], s[b]))
    ensures a == b - 1
  {
    var left, prev, right := s[a], s[b - 1], s[b];
    assert ValueLt(prev, right);
    assert a < b - 1 ==> ValueLt(left, prev);
  }

  /** Cell (r, k) below the first row, with its cell and the one above it numbers, gives entry `e`. */
  predicate DeltaAt(p: Pivot, r: int, k: int, e: Entry)
    requires Shaped(p) && 1 <= r < |p.index| && 0 <= k < |p.columns|
  {
    && p.index[r] != Null && p.columns[k] != Null
    && p.cells[r][k].Num? && p.cells[r - 1][k].Num?
    && e == Entry(p.columns[k], p.index[r], Num(p.cells[r][k].x - p.cells[r - 1][k].x))
  }

  /** With `drop_null`, every entry is the difference of two vertically adjacent numbers... */
  lemma DiffEntrySound(p: Pivot, e: Entry)
    requires Shaped(p) && e in DiffEntries(p, true)
    ensures exists r, k :: 1 <= r < |p.index| && 0 <= k < |p.columns| && DeltaAt(p, r, k, e)
  {
    var d := Diff(p);
    DropNaMembers(UnstackFrom(d, 0), e);
    UnstackMembers(d, 0, e);
    var r, k :| 0 <= r < |d.index| && 0 <= k < |d.columns| && e == EntryAt(d, r, k);
    assert d.cells[r][k] != Null;
    assert r >= 1 && p.cells[r][k].Num? && p.cells[r - 1][k].Num?;
    assert DeltaAt(p, r, k, e);
  }

  /** ... and every such difference is an entry. */
  lemma DiffEntryComplete(p: Pivot, r: int, k: int, e: Entry)
    requires Shaped(p) && 1 <= r < |p.index| && 0 <= k < |p.columns| && DeltaAt(p, r, k, e)
    ensures e in DiffEntries(p, true)
  {
    var d := Diff(p);
    assert d.cells[r][k] == Sub(p.cells[r][k], p.cells[r - 1][k]);
    assert d.cells[r][k] == e.cell;
    assert e == EntryAt(d, r, k);
    UnstackMembers(d, 0, e);
    DropNaMembers(UnstackFrom(d, 0), e);
  }

  /** Two numbers one above the other, under non-missing labels, give an entry. */
  lemma DiffEntryOfCells(p: Pivot, r0: int, r: int, k: int, v1: Value, v0: Value)
    requires Shaped(p) && 0 <= r0 && r0 + 1 == r < |p.index| && 0 <= k < |p.columns|
    requires p.index[r] != Null && p.columns[k] != Null && v1.Num? && v0.Num?
    requires p.cells[r][k] == v1 && p.cells[r0][k] == v0
    ensures Entry(p.columns[k], p.index[r], Num(v1.x - v0.x)) in DiffEntries(p, true)
  {
    DiffEntryComplete(p, r, k, Entry(p.columns[k], p.index[r], Num(v1.x - v0.x)));
  }

  /**
   * Rows j0 and j1 hold the same (non-missing) columns label at successive
   * index labels: no row of the table has an index label strictly between
   * them. Both value cells are numbers.
   */
  predicate Successive(t: Table, index: string, columns: string, values: string, j0: int, j1: int)
    requires WellFormed(t) && index in t.columns && columns in t.columns && values in t.columns
    requires 0 <= j0 < |t.rows| && 0 <= j1 < |t.rows|
  {
    && t.rows[j0][columns] == t.rows[j1][columns] != Null
    && t.rows[j1][index] != Null
    && ValueLt(t.rows[j0][index], t.rows[j1][index])
    && (forall j :: 0 <= j < |t.rows| ==>
          !(ValueLt(t.rows[j0][index], t.rows[j][index]) && ValueLt(t.rows[j][index], t.rows[j1][index])))
    && t.rows[j0][values].Num? && t.rows[j1][values].Num?
  }

  /** The entry for the later row of a successive pair: its labels and the change in value. */
  function DeltaEntry(t: Table, index: string, columns: string, values: string, j0: int, j1: int): Entry
    requires WellFormed(t) && index in t.columns && columns in t.columns && values in t.columns
    requires 0 <= j0 < |t.rows| && 0 <= j1 < |t.rows|
    requires t.rows[j0][values].Num? && t.rows[j1][values].Num?
  {
    Entry(t.rows[j1][columns], t.rows[j1][index], Num(t.rows[j1][values].x - t.rows[j0][values].x))
  }

  /** A pivot of `t` on (index, columns, values), described label by label and cell by cell. */
  ghost predicate PivotOf(p: Pivot, t: Table, index: string, columns: string, values: string)
    requires WellFormed(t) && index in t.columns && columns in t.columns && values in t.columns
  {
    && Shaped(p) && Increasing(p.index) && Increasing(p.columns)
    && UniquePairs(t.rows, index, columns)
    && (forall a :: a in p.index <==> exists j :: 0 <= j < |t.rows| && t.rows[j][index] == a)
    && (forall b :: b in p.columns <==> exists j :: 0 <= j < |t.rows| && t.rows[j][columns] == b)
    && (forall r, k {:trigger p.cells[r][k]} :: 0 <= r < |p.index| && 0 <= k < |p.columns| ==>
          p.cells[r][k] == CellAt(t.rows, index, columns, values, p.index[r], p.columns[k]))
  }

  /** With unique pairs, the cell at a row's own position is that row's value. */
  lemma CellAtRow(rows: seq<Row>, index: string, columns: string, values: string, j: int)
    requires HasPivotColumns(rows, index, columns, values) && UniquePairs(rows, index, columns)
    requires 0 <= j < |rows|
    ensures CellAt(rows, index, columns, values, rows[j][index], rows[j][columns]) == rows[j][values]
  {
    CellAtFacts(rows, index, columns, values, rows[j][index], rows[j][columns]);
    var i :| 0 <= i < |rows| && rows[i][index] == rows[j][index] && rows[i][columns] == rows[j][columns]
      && CellAt(rows, index, columns, values, rows[j][index], rows[j][columns]) == rows[i][values];
    assert i == j;
  }

  lemma CreatePivotIsPivotOf(t: Table, index: string, columns: string, values: string)
    requires WellFormed(t) && CreatePivot(t, index, columns, values).Ok?
    ensures PivotOf(CreatePivot(t, index, columns, values).value, t, index, columns, values)
  {
  }

  /** Every diff entry of a pivot of `t` is the change between a successive pair of rows. */
  lemma PivotDiffSound(p: Pivot, t: Table, index: string, columns: string, values: string, e: Entry)
    requires WellFormed(t) && index in t.columns && columns in t.columns && values in t.columns
    requires PivotOf(p, t, index, columns, values) && e in DiffEntries(p, true)
    ensures exists j0, j1 ::
      && 0 <= j0 < |t.rows| && 0 <= j1 < |t.rows|
      && Successive(t, index, columns, values, j0, j1)
      && e == DeltaEntry(t, index, columns, values, j0, j1)
  {
    DiffEntrySound(p, e);
    var r, k :| 1 <= r < |p.index| && 0 <= k < |p.columns| && DeltaAt(p, r, k, e);
    var j0, j1 := SuccessiveOfDelta(p, t, index, columns, values, r, k, e);
  }

  /** The rows behind a pivot difference are successive and give the same entry. */
  lemma SuccessiveOfDelta(p: Pivot, t: Table, index: string, columns: string, values: string, r: int, k: int, e: Entry)
    returns (j0: int, j1: int)
    requires WellFormed(t) && index in t.columns && columns in t.columns && values in t.columns
    requires PivotOf(p, t, index, columns, values)
    requires 1 <= r < |p.index| && 0 <= k < |p.columns| && DeltaAt(p, r, k, e)
    ensures 0 <= j0 < |t.rows| && 0 <= j1 < |t.rows| && Successive(t, index, columns, values, j0, j1)
    ensures e == DeltaEntry(t, index, columns, values, j0, j1)
  {
    var c1, c0 := p.cells[r][k], p.cells[r - 1][k];
    assert c1.Num? && c0.Num? && e == Entry(p.columns[k], p.index[r], Num(c1.x - c0.x));
    j0, j1 := SuccessiveOfCells(p, t, index, columns, values, r - 1, r, k);
    SameEntry(e, DeltaEntry(t, index, columns, values, j0, j1));
  }


  /** Two vertically adjacent numeric cells of a pivot come from a successive pair of rows. */
  lemma SuccessiveOfCells(p: Pivot, t: Table, index: string, columns: string, values: string, r0: int, r: int, k: int)
    returns (j0: int, j1: int)
    requires WellFormed(t) && index in t.columns && columns in t.columns && values in t.columns
    requires PivotOf(p, t, index, columns, values)
    requires 0 <= r0 && r0 + 1 == r < |p.index| && 0 <= k < |p.columns|
    requires p.index[r] != Null && p.columns[k] != Null && p.cells[r][k].Num? && p.cells[r0][k].Num?
    ensures 0 <= j0 < |t.rows| && 0 <= j1 < |t.rows| && Successive(t, index, columns, values, j0, j1)
    ensures t.rows[j1][index] == p.index[r] && t.rows[j1][columns] == p.columns[k]
    ensures t.rows[j1][values] == p.cells[r][k] && t.rows[j0][values] == p.cells[r0][k]
  {
    j1 := RowOfCell(p, t, index, columns, values, r, k);
    j0 := RowOfCell(p, t, index, columns, values, r0, k);
    forall j | 0 <= j < |t.rows|
      ensures !(ValueLt(t.rows[j0][index], t.rows[j][index]) && ValueLt(t.rows[j][index], t.rows[j1][index]))
    {
      var q := PositionOfRow(p, t, index, columns, values, j);
      if ValueLt(p.index[r0], p.index[q]) && ValueLt(p.index[q], p.index[r]) {
        IncreasingPositions(p.index, r0, q);
        IncreasingPositions(p.index, q, r);
      }
    }
  }

  /** A non-missing cell of a pivot comes from a row at its labels. */
  lemma RowOfCell(p: Pivot, t: Table, index: string, columns: string, values: string, r: int, k: int)
    returns (j: int)
    requires WellFormed(t) && index in t.columns && columns in t.columns && values in t.columns
    requires PivotOf(p, t, index, columns, values)
    requires 0 <= r < |p.index| && 0 <= k < |p.columns| && p.cells[r][k] != Null
    ensures 0 <= j < |t.rows| && t.rows[j][index] == p.index[r] && t.rows[j][columns] == p.columns[k]
    ensures t.rows[j][values] == p.cells[r][k]
  {
    assert p.cells[r][k] == CellAt(t.rows, index, columns, values, p.index[r], p.columns[k]);
    CellAtFacts(t.rows, index, columns, values, p.index[r], p.columns[k]);
    j :| 0 <= j < |t.rows| && t.rows[j][index] == p.index[r] && t.rows[j][columns] == p.columns[k]
      && p.cells[r][k] == t.rows[j][values];
  }

  /** Every row's index label has a position in the pivot's index. */
  lemma PositionOfRow(p: Pivot, t: Table, index: string, columns: string, values: string, j: int)
    returns (q: int)
    requires WellFormed(t) && index in t.columns && columns in t.columns && values in t.columns
    requires PivotOf(p, t, index, columns, values) && 0 <= j < |t.rows|
    ensures 0 <= q < |p.index| && p.index[q] == t.rows[j][index]
  {
    assert t.rows[j][index] in p.index;
    q :| 0 <= q < |p.index| && p.index[q] == t.rows[j][index];
  }

  /** Every row's columns label has a position in the pivot's columns. */
  lemma ColumnOfRow(p: Pivot, t: Table, index: string, columns: string, values: string, j: int)
    returns (k: int)
    requires WellFormed(t) && index in t.columns && columns in t.columns && values in t.columns
    requires PivotOf(p, t, index, columns, values) && 0 <= j < |t.rows|
    ensures 0 <= k < |p.columns| && p.columns[k] == t.rows[j][columns]
  {
    assert t.rows[j][columns] in p.columns;
    k :| 0 <= k < |p.columns| && p.columns[k] == t.rows[j][columns];
  }

  /** The index labels of a successive pair of rows are neighbours in the pivot's index. */
  lemma SuccessiveAdjacent(p: Pivot, t: Table, index: string, columns: string, values: string,
                           j0: int, j1: int, r0: int, r: int)
    requires WellFormed(t) && index in t.columns && columns in t.columns && values in t.columns
    requires PivotOf(p, t, index, columns, values)
    requires 0 <= j0 < |t.rows| && 0 <= j1 < |t.rows| && Successive(t, index, columns, values, j0, j1)
    requires 0 <= r0 < |p.index| && p.index[r0] == t.rows[j0][index]
    requires 0 <= r < |p.index| && p.index[r] == t.rows[j1][index]
    ensures r0 + 1 == r
  {
    IncreasingPositions(p.index, r0, r);
    forall q | 0 <= q < |p.index|
      ensures !(ValueLt(p.index[r0], p.index[q]) && ValueLt(p.index[q], p.index[r]))
    {
      assert p.index[q] in p.index;
      var j :| 0 <= j < |t.rows| && t.rows[j][index] == p.index[q];
    }
    NextLabel(p.index, r0, r);
  }

  /** The pivot cell at a row's own labels holds that row's value. */
  lemma CellOfRow(p: Pivot, t: Table, index: string, columns: string, values: string, j: int, r: int, k: int)
    requires WellFormed(t) && index in t.columns && columns in t.columns && values in t.columns
    requires PivotOf(p, t, index, columns, values) && 0 <= j < |t.rows|
    requires 0 <= r < |p.index| && p.index[r] == t.rows[j][index]
    requires 0 <= k < |p.columns| && p.columns[k] == t.rows[j][columns]
    ensures p.cells[r][k] == t.rows[j][values]
  {
    CellAtRow(t.rows, index, columns, values, j);
  }

  /** Every successive pair of rows of `t` gives a diff entry of its pivot. */
  lemma PivotDiffComplete(p: Pivot, t: Table, index: string, columns: string, values: string, j0: int, j1: int)
    requires WellFormed(t) && index in t.columns && columns in t.columns && values in t.columns
    requires PivotOf(p, t, index, columns, values)
    requires 0 <= j0 < |t.rows| && 0 <= j1 < |t.rows| && Successive(t, index, columns, values, j0, j1)
    ensures DeltaEntry(t, index, columns, values, j0, j1) in DiffEntries(p, true)
  {
    var r0 := PositionOfRow(p, t, index, columns, values, j0);
    var r := PositionOfRow(p, t, index, columns, values, j1);
    var k := ColumnOfRow(p, t, index, columns, values, j1);
    SuccessiveAdjacent(p, t, index, columns, values, j0, j1, r0, r);
    CellOfRow(p, t, index, columns, values, j1, r, k);
    CellOfRow(p, t, index, columns, values, j0, r0, k);
    DiffEntryOfRows(p, t, index, columns, values, j0, j1, r0, r, k);
  }

  /** Two rows at neighbouring index labels and the same columns label give a diff entry. */
  lemma DiffEntryOfRows(p: Pivot, t: Table, index: string, columns: string, values: string,
                        j0: int, j1: int, r0: int, r: int, k: int)
    requires WellFormed(t) && index in t.columns && columns in t.columns && values in t.columns
    requires Shaped(p) && 0 <= j0 < |t.rows| && 0 <= j1 < |t.rows|
    requires t.rows[j0][values].Num? && t.rows[j1][values].Num?
    requires 0 <= r0 && r0 + 1 == r < |p.index| && 0 <= k < |p.columns|
    requires p.index[r] == t.rows[j1][index] && p.index[r] != Null
    requires p.columns[k] == t.rows[j1][columns] && p.columns[k] != Null
    requires p.cells[r][k] == t.rows[j1][values] && p.cells[r0][k] == t.rows[j0][values]
    ensures DeltaEntry(t, index, columns, values, j0, j1) in DiffEntries(p, true)
  {
    DiffEntryOfCells(p, r0, r, k, t.rows[j1][values], t.rows[j0][values]);
    SameEntry(DeltaEntry(t, index, columns, values, j0, j1),
      Entry(p.columns[k], p.index[r], Num(t.rows[j1][values].x - t.rows[j0][values].x)));
  }

  lemma SameEntry(e: Entry, f: Entry)
    requires e.col == f.col && e.idx == f.idx && e.cell == f.cell
    ensures e == f
  {
  }

  /** Every row of `get_diffs(..., drop_null=True)` is the change between a successive pair of rows. */
  lemma GetDiffsSound(t: Table, index: string, columns: string, values: string, i: int)
    requires WellFormed(t) && GetDiffs(t, index, columns, values, true).Ok?
    requires 0 <= i < |GetDiffs(t, index, columns, values, true).value.rows|
    ensures index in t.columns && columns in t.columns && values in t.columns
    ensures exists j0, j1 ::
      && 0 <= j0 < |t.rows| && 0 <= j1 < |t.rows|
      && Successive(t, index, columns, values, j0, j1)
      && GetDiffs(t, index, columns, values, true).value.rows[i] ==
           EntryRow(index, columns, DeltaEntry(t, index, columns, values, j0, j1))
  {
    var p := CreatePivot(t, index, columns, values).value;
    var es := DiffEntries(p, true);
    assert GetDiffs(t, index, columns, values, true) == Ok(EntryTable(index, columns, es));
    assert GetDiffs(t, index, columns, values, true).value.rows[i] == EntryRow(index, columns, es[i]);
    CreatePivotIsPivotOf(t, index, columns, values);
    PivotDiffSound(p, t, index, columns, values, es[i]);
  }

  /** Every successive pair of rows gives a row of `get_diffs(..., drop_null=True)`. */
  lemma GetDiffsComplete(t: Table, index: string, columns: string, values: string, j0: int, j1: int)
    requires WellFormed(t) && GetDiffs(t, index, columns, values, true).Ok?
    requires 0 <= j0 < |t.rows| && 0 <= j1 < |t.rows| && Successive(t, index, columns, values, j0, j1)
    ensures EntryRow(index, columns, DeltaEntry(t, index, columns, values, j0, j1))
      in GetDiffs(t, index, columns, values, true).value.rows
  {
    var p := CreatePivot(t, index, columns, values).value;
    var es := DiffEntries(p, true);
    var e := DeltaEntry(t, index, columns, values, j0, j1);
    assert GetDiffs(t, index, columns, values, true) == Ok(EntryTable(index, columns, es));
    CreatePivotIsPivotOf(t, index, columns, values);
    PivotDiffComplete(p, t, index, columns, values, j0, j1);
    var i :| 0 <= i < |es| && es[i] == e;
    assert EntryTable(index, columns, es).rows[i] == EntryRow(index, columns, e);
  }

  /**
   * `df.groupby(col).agg({keep: method})`: one row per distinct present value
   * of `col`, the group label then the reduced `keep` column.
   */
  function AggIntoSeries(t: Table, col: string, m: AggMethod, keep: string): (r: Result<Table>)
    requires WellFormed(t)
    ensures r.Ok? <==>
      && col in t.columns && keep in t.columns && col != keep
      && (m == Mean ==> NumericColumn(t.rows, keep))
    ensures r.Ok? ==> WellFormed(r.value) && r.value.columns == [col, keep]
  {
    assert [col] + [keep] == [col, keep];
    GroupAgg(t, [col], keep, m)
  }

  /** Every row of the series holds the `max` or `mean` of the `keep` cells of the input rows with its label. */
  lemma AggIntoSeriesValues(t: Table, col: string, m: AggMethod, keep: string)
    requires WellFormed(t) && AggIntoSeries(t, col, m, keep).Ok?
    ensures HasColumns(t.rows, [col] + [keep])
    ensures var g := AggIntoSeries(t, col, m, keep).value;
      forall i :: 0 <= i < |g.rows| ==>
        g.rows[i][keep] == Aggregate(m, GroupValues(t.rows, [col], keep, [g.rows[i][col]]))
  {
    var g := AggIntoSeries(t, col, m, keep).value;
    assert forall c :: c in [col] + [keep] ==> c in t.columns;
    GroupAggValues(t, [col], keep, m);
    assert forall i :: 0 <= i < |g.rows| ==> KeyOf(g.rows[i], [col]) == [g.rows[i][col]];
  }

  /** The labels of the series are strictly increasing, so each occurs once. */
  lemma AggIntoSeriesSorted(t: Table, col: string, m: AggMethod, keep: string)
    requires WellFormed(t) && AggIntoSeries(t, col, m, keep).Ok?
    ensures var g := AggIntoSeries(t, col, m, keep).value;
      forall i, j :: 0 <= i < j < |g.rows| ==> ValueLt(g.rows[i][col], g.rows[j][col])
  {
    var g := AggIntoSeries(t, col, m, keep).value;
    assert forall c :: c in [col] + [keep] ==> c in t.columns;
    GroupAggRows(t, [col], keep, m);
    var ks := KeysOf(g.rows, [col]);
    assert forall i :: 0 <= i < |g.rows| ==> ks[i] == [g.rows[i][col]];
    forall i, j | 0 <= i < j < |g.rows| ensures ValueLt(g.rows[i][col], g.rows[j][col]) {
      SingletonKeyLt(g.rows[i][col], g.rows[j][col]);
    }
  }

  /** Every label of the series is a present label of the input. */
  lemma AggIntoSeriesLabelsFromInput(t: Table, col: string, m: AggMethod, keep: string)
    requires WellFormed(t) && AggIntoSeries(t, col, m, keep).Ok?
    ensures col in t.columns
    ensures var g := AggIntoSeries(t, col, m, keep).value;
      forall i :: 0 <= i < |g.rows| ==>
        g.rows[i][col] != Null && exists j :: 0 <= j < |t.rows| && t.rows[j][col] == g.rows[i][col]
  {
    var g := AggIntoSeries(t, col, m, keep).value;
    GroupAggOrigins(t, [col], keep, m);
    forall i | 0 <= i < |g.rows|
      ensures g.rows[i][col] != Null && exists j :: 0 <= j < |t.rows| && t.rows[j][col] == g.rows[i][col]
    {
      var k := KeyOf(g.rows[i], [col]);
      assert k[0] == g.rows[i][col];
      var j :| 0 <= j < |t.rows| && KeyOf(t.rows[j], [col]) == k;
      assert t.rows[j][col] == KeyOf(t.rows[j], [col])[0];
    }
  }

  /** Every present (non-missing) label of the input has a row of the series. */
  lemma AggIntoSeriesCoversInput(t: Table, col: string, m: AggMethod, keep: string)
    requires WellFormed(t) && AggIntoSeries(t, col, m, keep).Ok?
    ensures col in t.columns
    ensures var g := AggIntoSeries(t, col, m, keep).value;
      forall j :: 0 <= j < |t.rows| && t.rows[j][col] != Null ==>
        exists i :: 0 <= i < |g.rows| && g.rows[i][col] == t.rows[j][col]
  {
    var g := AggIntoSeries(t, col, m, keep).value;
    assert forall c :: c in [col] + [keep] ==> c in t.columns;
    GroupAggRows(t, [col], keep, m);
    var ks := KeysOf(g.rows, [col]);
    assert forall i :: 0 <= i < |g.rows| ==> ks[i] == [g.rows[i][col]];
    forall j | 0 <= j < |t.rows| && t.rows[j][col] != Null
      ensures exists i :: 0 <= i < |g.rows| && g.rows[i][col] == t.rows[j][col]
    {
      var v := t.rows[j][col];
      assert KeyOf(t.rows[j], [col]) == [v];
      assert !HasNull([v]);
      assert [v] in ks;
      var i :| 0 <= i < |ks| && ks[i] == [v];
      assert g.rows[i][col] == v;
    }
  }
}
