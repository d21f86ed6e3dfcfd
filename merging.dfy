/**
 * `pd.merge(left, right, how='left', left_on=..., right_on=...)`: every left
 * row, in order, joined with each right row whose key equals its own (in
 * right order), or widened with missing cells when no right row matches.
 */
module Merging {
  import opened Values
  import opened Keys
  import opened Tables
  import opened Grouping

  /** A right key column paired with a left key column of the same label is not repeated in the result. */
  predicate Coalesced(c: string, leftOn: seq<string>, rightOn: seq<string>)
    requires |leftOn| == |rightOn|
  {
    exists i :: 0 <= i < |leftOn| && leftOn[i] == c && rightOn[i] == c
  }

  /** The right columns the join appends after the left ones, in right order. */
  function Appended(cols: seq<string>, leftOn: seq<string>, rightOn: seq<string>): (r: seq<string>)
    requires |leftOn| == |rightOn|
    ensures forall c :: c in r <==> c in cols && !Coalesced(c, leftOn, rightOn)
  {
    if cols == [] then []
    else (if Coalesced(cols[0], leftOn, rightOn) then [] else [cols[0]]) + Appended(cols[1..], leftOn, rightOn)
  }

  lemma {:induction false} AppendedDistinct(cols: seq<string>, leftOn: seq<string>, rightOn: seq<string>)
    requires |leftOn| == |rightOn| && Distinct(cols)
    ensures Distinct(Appended(cols, leftOn, rightOn))
  {
    if cols != [] {
      AppendedDistinct(cols[1..], leftOn, rightOn);
      assert cols[0] !in cols[1..];
    }
  }

  /** The first label of `cs` that is also in `ds`, if any. */
  function FirstShared(cs: seq<string>, ds: seq<string>): (r: Option<string>)
    ensures r.None? <==> forall c :: c in cs ==> c !in ds
    ensures r.Some? ==> r.value in cs && r.value in ds
  {
    if cs == [] then None
    else if cs[0] in ds then Some(cs[0])
    else FirstShared(cs[1..], ds)
  }

  /** A left row widened with the appended cells of a matching right row. */
  function Joined(l: Row, r: Row, extra: seq<string>): Row
    requires forall c :: c in extra ==> c in r
  {
    l + map c | c in extra :: r[c]
  }

  /** A left row widened with missing cells: no right row matched. */
  function Unmatched(l: Row, extra: seq<string>): Row {
    l + map c | c in extra :: Null
  }

  /** The right rows whose key is `k`, in right order. */
  function Matches(rows: seq<Row>, on: seq<string>, k: Key): seq<Row>
    requires HasColumns(rows, on)
  {
    if rows == [] then []
    else (if KeyOf(rows[0], on) == k then [rows[0]] else []) + Matches(rows[1..], on, k)
  }

  lemma {:induction false} MatchesFrom(rows: seq<Row>, on: seq<string>, k: Key)
    requires HasColumns(rows, on)
    ensures forall m :: m in Matches(rows, on, k) ==> m in rows && KeyOf(m, on) == k
  {
    if rows != [] {
      MatchesFrom(rows[1..], on, k);
    }
  }

  /** The result rows for one left row with key `k`: one per matching right row, or one unmatched row. */
  function JoinOne(l: Row, rights: seq<Row>, rightOn: seq<string>, k: Key, extra: seq<string>): seq<Row>
    requires HasColumns(rights, rightOn) && HasColumns(rights, extra)
  {
    var ms := Matches(rights, rightOn, k);
    MatchesFrom(rights, rightOn, k);
    assert forall i :: 0 <= i < |ms| ==> ms[i] in ms;
    if ms == [] then [Unmatched(l, extra)]
    else seq(|ms|, i requires 0 <= i < |ms| => Joined(l, ms[i], extra))
  }

  function JoinRows(lefts: seq<Row>, rights: seq<Row>, leftOn: seq<string>, rightOn: seq<string>,
                    extra: seq<string>): seq<Row>
    requires HasColumns(lefts, leftOn) && HasColumns(rights, rightOn) && HasColumns(rights, extra)
  {
    if lefts == [] then []
    else
      JoinOne(lefts[0], rights, rightOn, KeyOf(lefts[0], leftOn), extra)
      + JoinRows(lefts[1..], rights, leftOn, rightOn, extra)
  }

  /** Every joined row has the left row's columns and the appended ones. */
  lemma {:induction false} JoinRowsKeys(lefts: seq<Row>, rights: seq<Row>, leftOn: seq<string>,
                                         rightOn: seq<string>, extra: seq<string>, cols: set<string>)
    requires HasColumns(lefts, leftOn) && HasColumns(rights, rightOn) && HasColumns(rights, extra)
    requires forall i :: 0 <= i < |lefts| ==> lefts[i].Keys == cols
    ensures forall row :: row in JoinRows(lefts, rights, leftOn, rightOn, extra) ==>
      row.Keys == cols + ColumnSet(extra)
  {
    if lefts != [] {
      JoinRowsKeys(lefts[1..], rights, leftOn, rightOn, extra, cols);
      var k := KeyOf(lefts[0], leftOn);
      MatchesFrom(rights, rightOn, k);
      assert forall row :: row in JoinOne(lefts[0], rights, rightOn, k, extra) ==> row.Keys == cols + ColumnSet(extra);
    }
  }

  /** The joined table is well formed, with the left columns then the appended ones. */
  lemma JoinedTable(left: Table, right: Table, leftOn: seq<string>, rightOn: seq<string>, extra: seq<string>)
    requires WellFormed(left) && WellFormed(right) && |leftOn| == |rightOn|
    requires forall c :: c in leftOn ==> c in left.columns
    requires forall c :: c in rightOn ==> c in right.columns
    requires extra == Appended(right.columns, leftOn, rightOn)
    requires forall c :: c in extra ==> c !in left.columns
    ensures HasColumns(left.rows, leftOn) && HasColumns(right.rows, rightOn) && HasColumns(right.rows, extra)
    ensures WellFormed(Table(left.columns + extra, JoinRows(left.rows, right.rows, leftOn, rightOn, extra)))
  {
    var rows := JoinRows(left.rows, right.rows, leftOn, rightOn, extra);
    assert Distinct(left.columns + extra) by {
      AppendedDistinct(right.columns, leftOn, rightOn);
      DistinctAppend(left.columns, extra);
    }
    assert forall i :: 0 <= i < |rows| ==> rows[i].Keys == ColumnSet(left.columns + extra) by {
      JoinRowsKeys(left.rows, right.rows, leftOn, rightOn, extra, ColumnSet(left.columns));
      assert ColumnSet(left.columns + extra) == ColumnSet(left.columns) + ColumnSet(extra);
      assert forall i :: 0 <= i < |rows| ==> rows[i] in rows;
    }
  }

  /**
   * The left join. Errors: key lists of different lengths, a key column
   * missing on either side, and an appended right column whose label the
   * left table already has.
   */
  function Merge(left: Table, right: Table, leftOn: seq<string>, rightOn: seq<string>): (r: Result<Table>)
    requires WellFormed(left) && WellFormed(right)
    ensures r.Ok? <==>
      && |leftOn| == |rightOn|
      && (forall c :: c in leftOn ==> c in left.columns)
      && (forall c :: c in rightOn ==> c in right.columns)
      && (forall c :: c in Appended(right.columns, leftOn, rightOn) ==> c !in left.columns)
    ensures r.Ok? ==> WellFormed(r.value) && r.value.columns == left.columns + Appended(right.columns, leftOn, rightOn)
  {
    if |leftOn| != |rightOn| then Err(LengthMismatch)
    else if FirstMissing(leftOn, left).Some? then Err(KeyError(FirstMissing(leftOn, left).value))
    else if FirstMissing(rightOn, right).Some? then Err(KeyError(FirstMissing(rightOn, right).value))
    else
      var extra := Appended(right.columns, leftOn, rightOn);
      var clash := FirstShared(extra, left.columns);
      if clash.Some? then Err(ColumnConflict(clash.value))
      else
        JoinedTable(left, right, leftOn, rightOn, extra);
        Ok(Table(left.columns + extra, JoinRows(left.rows, right.rows, leftOn, rightOn, extra)))
  }

  /** No two rows share a key. */
  predicate UniqueKeys(rows: seq<Row>, on: seq<string>)
    requires HasColumns(rows, on)
  {
    forall i, j :: 0 <= i < j < |rows| ==> KeyOf(rows[i], on) != KeyOf(rows[j], on)
  }

  /** Among unique keys, a key matches no row, or exactly the one row that holds it. */
  lemma {:induction false} MatchesUnique(rows: seq<Row>, on: seq<string>, k: Key)
    requires HasColumns(rows, on) && UniqueKeys(rows, on)
    ensures (forall j :: 0 <= j < |rows| ==> KeyOf(rows[j], on) != k) ==> Matches(rows, on, k) == []
    ensures forall j :: 0 <= j < |rows| && KeyOf(rows[j], on) == k ==> Matches(rows, on, k) == [rows[j]]
  {
    if rows != [] {
      var tail := rows[1..];
      assert forall j :: 0 <= j < |tail| ==> tail[j] == rows[j + 1];
      MatchesUnique(tail, on, k);
      if KeyOf(rows[0], on) == k {
        assert forall j :: 0 <= j < |tail| ==> KeyOf(tail[j], on) != k;
      } else {
        forall j | 0 <= j < |rows| && KeyOf(rows[j], on) == k ensures Matches(rows, on, k) == [rows[j]] {
          assert tail[j - 1] == rows[j];
        }
      }
    }
  }

  /** Output row `out` is left row `l` joined with the one right row holding its key, or widened with missing cells when none does. */
  predicate LeftJoinedAt(l: Row, rights: seq<Row>, leftOn: seq<string>, rightOn: seq<string>, extra: seq<string>, out: Row)
    requires (forall c :: c in leftOn ==> c in l) && HasColumns(rights, rightOn) && HasColumns(rights, extra)
  {
    || (exists j :: 0 <= j < |rights| && KeyOf(rights[j], rightOn) == KeyOf(l, leftOn)
                                       && out == Joined(l, rights[j], extra))
    || ((forall j :: 0 <= j < |rights| ==> KeyOf(rights[j], rightOn) != KeyOf(l, leftOn))
        && out == Unmatched(l, extra))
  }

  /** Among unique right keys, a left row yields exactly one result row, joined or unmatched. */
  lemma JoinOneUnique(l: Row, rights: seq<Row>, leftOn: seq<string>, rightOn: seq<string>, extra: seq<string>)
    requires (forall c :: c in leftOn ==> c in l) && HasColumns(rights, rightOn) && HasColumns(rights, extra)
    requires UniqueKeys(rights, rightOn)
    ensures |JoinOne(l, rights, rightOn, KeyOf(l, leftOn), extra)| == 1
    ensures LeftJoinedAt(l, rights, leftOn, rightOn, extra, JoinOne(l, rights, rightOn, KeyOf(l, leftOn), extra)[0])
  {
    var k := KeyOf(l, leftOn);
    MatchesUnique(rights, rightOn, k);
    if exists j :: 0 <= j < |rights| && KeyOf(rights[j], rightOn) == k {
      var j :| 0 <= j < |rights| && KeyOf(rights[j], rightOn) == k;
      assert JoinOne(l, rights, rightOn, k, extra)[0] == Joined(l, rights[j], extra);
    }
  }

  lemma {:induction false} JoinRowsUnique(lefts: seq<Row>, rights: seq<Row>, leftOn: seq<string>,
                                           rightOn: seq<string>, extra: seq<string>)
    requires HasColumns(lefts, leftOn) && HasColumns(rights, rightOn) && HasColumns(rights, extra)
    requires UniqueKeys(rights, rightOn)
    ensures |JoinRows(lefts, rights, leftOn, rightOn, extra)| == |lefts|
    ensures forall i :: 0 <= i < |lefts| ==>
      LeftJoinedAt(lefts[i], rights, leftOn, rightOn, extra, JoinRows(lefts, rights, leftOn, rightOn, extra)[i])
  {
    if lefts != [] {
      var tail := lefts[1..];
      assert forall i :: 0 <= i < |tail| ==> tail[i] == lefts[i + 1];
      JoinRowsUnique(tail, rights, leftOn, rightOn, extra);
      JoinOneUnique(lefts[0], rights, leftOn, rightOn, extra);
      var head := JoinOne(lefts[0], rights, rightOn, KeyOf(lefts[0], leftOn), extra);
      var rest := JoinRows(tail, rights, leftOn, rightOn, extra);
      var out := JoinRows(lefts, rights, leftOn, rightOn, extra);
      assert out == head + rest;
      forall i | 0 <= i < |lefts|
        ensures LeftJoinedAt(lefts[i], rights, leftOn, rightOn, extra, out[i])
      {
        if i > 0 {
          assert out[i] == rest[i - 1];
        }
      }
    }
  }

  /** A successful merge joins the rows with the appended right columns. */
  lemma MergeRows(left: Table, right: Table, leftOn: seq<string>, rightOn: seq<string>)
    requires WellFormed(left) && WellFormed(right) && Merge(left, right, leftOn, rightOn).Ok?
    ensures HasColumns(left.rows, leftOn) && HasColumns(right.rows, rightOn)
    ensures HasColumns(right.rows, Appended(right.columns, leftOn, rightOn))
    ensures Merge(left, right, leftOn, rightOn).value.rows ==
      JoinRows(left.rows, right.rows, leftOn, rightOn, Appended(right.columns, leftOn, rightOn))
  {
    JoinedTable(left, right, leftOn, rightOn, Appended(right.columns, leftOn, rightOn));
  }

  /**
   * With unique right keys the left join keeps every left row exactly once
   * and in order: row i of the result is left row i joined with its match,
   * or widened with missing cells.
   */
  lemma MergeKeepsLeftRows(left: Table, right: Table, leftOn: seq<string>, rightOn: seq<string>)
    requires WellFormed(left) && WellFormed(right) && Merge(left, right, leftOn, rightOn).Ok?
    requires HasColumns(right.rows, rightOn) && UniqueKeys(right.rows, rightOn)
    ensures HasColumns(left.rows, leftOn) && HasColumns(right.rows, Appended(right.columns, leftOn, rightOn))
    ensures var out := Merge(left, right, leftOn, rightOn).value;
      && |out.rows| == |left.rows|
      && forall i :: 0 <= i < |left.rows| ==>
           LeftJoinedAt(left.rows[i], right.rows, leftOn, rightOn, Appended(right.columns, leftOn, rightOn), out.rows[i])
  {
    MergeRows(left, right, leftOn, rightOn);
    JoinRowsUnique(left.rows, right.rows, leftOn, rightOn, Appended(right.columns, leftOn, rightOn));
  }

  /** A joined or unmatched row keeps every cell of its left row. */
  lemma WidenedKeepsLeft(l: Row, r: Row, extra: seq<string>, c: string)
    requires forall d :: d in extra ==> d in r
    requires c in l && c !in extra
    ensures Joined(l, r, extra)[c] == l[c] && Unmatched(l, extra)[c] == l[c]
  {
  }

  /** The appended cells come from the matching right row, or are missing. */
  lemma WidenedCells(l: Row, r: Row, extra: seq<string>, c: string)
    requires forall d :: d in extra ==> d in r
    requires c in extra
    ensures Joined(l, r, extra)[c] == r[c] && Unmatched(l, extra)[c] == Null
  {
  }
}
