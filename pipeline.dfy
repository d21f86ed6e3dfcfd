/**
 * The pipeline's own use of `get_diffs`: on the table `clean_dataframe`
 * produces, `get_diffs(df, 'num_visit', 'patient_id', 'score', True)`
 * gives, for each patient, the change in score from one visit to the next.
 */
module Pipeline {
  import opened Values
  import opened Keys
  import opened Tables
  import opened Grouping
  import opened Cleaner
  import opened Aggregator
  import opened Merging

  /** A table holding the columns the pipeline pivots on. */
  predicate Labelled(c: Table) {
    && WellFormed(c)
    && "patient_id" in c.columns && "num_visit" in c.columns && "score" in c.columns
  }

  /** The columns the pipeline pivots on, numbered as `create_num_visits` numbers them. */
  predicate Numbered(c: Table) {
    Labelled(c) && VisitsCounted(c)
  }

  /** Rows `j0` and `j1` are visits n and n + 1 of one patient, both scored. */
  predicate ConsecutiveVisits(c: Table, j0: int, j1: int)
    requires Labelled(c) && 0 <= j0 < |c.rows| && 0 <= j1 < |c.rows|
  {
    && c.rows[j0]["patient_id"] == c.rows[j1]["patient_id"] != Null
    && c.rows[j0]["num_visit"].Num?
    && c.rows[j1]["num_visit"] == Num(c.rows[j0]["num_visit"].x + 1.0)
    && c.rows[j0]["score"].Num? && c.rows[j1]["score"].Num?
  }

  /** The 'num_visit' cell of a row: NaN without a patient, otherwise visit k, 1 <= k <= the patient's row count. */
  lemma VisitCell(c: Table, j: int) returns (k: int)
    requires Numbered(c) && 0 <= j < |c.rows|
    ensures c.rows[j]["patient_id"] == Null ==> c.rows[j]["num_visit"] == Null
    ensures c.rows[j]["patient_id"] != Null ==>
      && 1 <= k <= multiset(Column(c, "patient_id"))[c.rows[j]["patient_id"]]
      && c.rows[j]["num_visit"] == Visit(k)
  {
    var ids := Column(c, "patient_id");
    assert ids[j] == c.rows[j]["patient_id"];
    if ids[j] != Null {
      VisitNumberAt(ids, j);
      k := multiset(ids[..j + 1])[ids[j]];
    } else {
      k := 0;
    }
  }

  /** Visit numbers compare as the counts they hold. */
  lemma VisitLt(a: int, b: int)
    ensures ValueLt(Visit(a), Visit(b)) <==> a < b
    ensures Visit(a) == Visit(b) <==> a == b
  {
  }

  /** A pair the pivot takes as successive is a patient's visit and the visit right after it. */
  lemma SuccessiveIsConsecutive(c: Table, j0: int, j1: int)
    requires Numbered(c) && 0 <= j0 < |c.rows| && 0 <= j1 < |c.rows|
    requires Successive(c, "num_visit", "patient_id", "score", j0, j1)
    ensures ConsecutiveVisits(c, j0, j1)
  {
    var p := c.rows[j1]["patient_id"];
    var k0 := VisitCell(c, j0);
    var k1 := VisitCell(c, j1);
    var v0, v1 := c.rows[j0]["num_visit"], c.rows[j1]["num_visit"];
    assert v0 == Visit(k0) && v1 == Visit(k1);
    VisitLt(k0, k1);
    if k1 > k0 + 1 {
      // visit k1 - 1 of the same patient would lie strictly between
      CleanedVisitCovered(c, p, k1 - 1);
      assert false;
    }
  }

  /** A patient's visit and the visit right after it are a pair the pivot takes as successive. */
  lemma ConsecutiveIsSuccessive(c: Table, j0: int, j1: int)
    requires Numbered(c) && 0 <= j0 < |c.rows| && 0 <= j1 < |c.rows|
    requires ConsecutiveVisits(c, j0, j1)
    ensures Successive(c, "num_visit", "patient_id", "score", j0, j1)
  {
    var k0 := VisitCell(c, j0);
    var k1 := VisitCell(c, j1);
    var v0, v1 := c.rows[j0]["num_visit"], c.rows[j1]["num_visit"];
    assert v0 == Visit(k0) && v1 == Visit(k1);
    assert k1 == k0 + 1;
    VisitLt(k0, k1);
    forall j | 0 <= j < |c.rows|
      ensures !(ValueLt(v0, c.rows[j]["num_visit"]) && ValueLt(c.rows[j]["num_visit"], v1))
    {
      var k := VisitCell(c, j);
      if c.rows[j]["patient_id"] != Null {
        VisitLt(k0, k);
        VisitLt(k, k1);
      }
    }
  }

  /** The row `get_diffs` writes for visits `j0` and `j1`: the patient, the later visit, the change in score. */
  function DeltaRow(c: Table, j0: int, j1: int): Row
    requires Labelled(c) && 0 <= j0 < |c.rows| && 0 <= j1 < |c.rows|
    requires c.rows[j0]["score"].Num? && c.rows[j1]["score"].Num?
  {
    map["patient_id" := c.rows[j1]["patient_id"], "num_visit" := c.rows[j1]["num_visit"],
        "delta_score" := Num(c.rows[j1]["score"].x - c.rows[j0]["score"].x)]
  }

  /** The row `get_diffs` builds for a successive pair, in the pipeline's column roles. */
  lemma EntryRowIsDeltaRow(c: Table, j0: int, j1: int)
    requires Labelled(c) && 0 <= j0 < |c.rows| && 0 <= j1 < |c.rows|
    requires c.rows[j0]["score"].Num? && c.rows[j1]["score"].Num?
    ensures EntryRow("num_visit", "patient_id", DeltaEntry(c, "num_visit", "patient_id", "score", j0, j1))
      == DeltaRow(c, j0, j1)
  {
    var e := DeltaEntry(c, "num_visit", "patient_id", "score", j0, j1);
    assert e == Entry(c.rows[j1]["patient_id"], c.rows[j1]["num_visit"], Num(c.rows[j1]["score"].x - c.rows[j0]["score"].x));
    assert EntryRow("num_visit", "patient_id", e) == map["patient_id" := e.col, "num_visit" := e.idx, "delta_score" := e.cell];
  }

  /** The later of two consecutive visits is never a first visit. */
  lemma DeltaRowNotFirst(c: Table, j0: int, j1: int)
    requires Numbered(c) && 0 <= j0 < |c.rows| && 0 <= j1 < |c.rows| && ConsecutiveVisits(c, j0, j1)
    ensures DeltaRow(c, j0, j1)["num_visit"] != Visit(1)
  {
    var k0 := VisitCell(c, j0);
  }

  /**
   * Every row of the pipeline's `get_diffs` is the change in one patient's
   * score from visit n - 1 to visit n; no row is a first visit.
   */
  lemma CleanedDiffsSound(c: Table, i: int)
    requires Numbered(c) && GetDiffs(c, "num_visit", "patient_id", "score", true).Ok?
    requires 0 <= i < |GetDiffs(c, "num_visit", "patient_id", "score", true).value.rows|
    ensures exists j0, j1 ::
      && 0 <= j0 < |c.rows| && 0 <= j1 < |c.rows|
      && ConsecutiveVisits(c, j0, j1)
      && GetDiffs(c, "num_visit", "patient_id", "score", true).value.rows[i] == DeltaRow(c, j0, j1)
    ensures GetDiffs(c, "num_visit", "patient_id", "score", true).value.rows[i]["num_visit"] != Visit(1)
  {
    GetDiffsSound(c, "num_visit", "patient_id", "score", i);
    var j0, j1 :| 0 <= j0 < |c.rows| && 0 <= j1 < |c.rows|
      && Successive(c, "num_visit", "patient_id", "score", j0, j1)
      && GetDiffs(c, "num_visit", "patient_id", "score", true).value.rows[i] ==
           EntryRow("num_visit", "patient_id", DeltaEntry(c, "num_visit", "patient_id", "score", j0, j1));
    SuccessiveIsConsecutive(c, j0, j1);
    EntryRowIsDeltaRow(c, j0, j1);
    DeltaRowNotFirst(c, j0, j1);
  }

  /** Every pair of consecutive scored visits of a patient gives a row of the pipeline's `get_diffs`. */
  lemma CleanedDiffsComplete(c: Table, j0: int, j1: int)
    requires Numbered(c) && GetDiffs(c, "num_visit", "patient_id", "score", true).Ok?
    requires 0 <= j0 < |c.rows| && 0 <= j1 < |c.rows| && ConsecutiveVisits(c, j0, j1)
    ensures DeltaRow(c, j0, j1) in GetDiffs(c, "num_visit", "patient_id", "score", true).value.rows
  {
    ConsecutiveIsSuccessive(c, j0, j1);
    GetDiffsComplete(c, "num_visit", "patient_id", "score", j0, j1);
    EntryRowIsDeltaRow(c, j0, j1);
  }

  /**
   * On a cleaned table with numeric scores the pipeline's `get_diffs` call
   * succeeds: each patient's visit numbers strictly increase, so no
   * (visit, patient) pair repeats and the pivot finds no duplicate entry.
   */
  lemma CleanedDiffsOk(c: Table)
    requires PipelineCleaned(c) && NumericColumn(c.rows, "score")
    ensures Numbered(c)
    ensures GetDiffs(c, "num_visit", "patient_id", "score", true).Ok?
  {
    forall i, j | 0 <= i < j < |c.rows|
      ensures c.rows[i]["num_visit"] != c.rows[j]["num_visit"] || c.rows[i]["patient_id"] != c.rows[j]["patient_id"]
    {
      if c.rows[i]["patient_id"] == c.rows[j]["patient_id"] {
        CleanedVisitOrder(c, i, j);
        ValueLtIrreflexive(c.rows[i]["num_visit"]);
      }
    }
    assert UniquePairs(c.rows, "num_visit", "patient_id");
    var labels := ["patient_id", "num_visit", "delta_score"];
    assert labels[0] != labels[1] && labels[0] != labels[2] && labels[1] != labels[2];
  }

  /** The pipeline's `get_diffs` rows hold each (patient, visit) key at most once. */
  lemma CleanedDiffsKeysUnique(c: Table)
    requires PipelineCleaned(c) && NumericColumn(c.rows, "score")
    ensures GetDiffs(c, "num_visit", "patient_id", "score", true).Ok?
    ensures var d := GetDiffs(c, "num_visit", "patient_id", "score", true).value;
      HasColumns(d.rows, ["patient_id", "num_visit"]) && UniqueKeys(d.rows, ["patient_id", "num_visit"])
  {
    CleanedDiffsOk(c);
    GetDiffsSorted(c, "num_visit", "patient_id", "score", true);
    var d := GetDiffs(c, "num_visit", "patient_id", "score", true).value;
    assert forall i :: 0 <= i < |d.rows| ==> "patient_id" in d.rows[i] && "num_visit" in d.rows[i];
    SortedPairsUnique(d.rows, "patient_id", "num_visit");
  }

  /** Rows whose (a, b) cells strictly increase hold each (a, b) key at most once. */
  lemma SortedPairsUnique(rows: seq<Row>, a: string, b: string)
    requires forall i :: 0 <= i < |rows| ==> a in rows[i] && b in rows[i]
    requires forall i, j :: 0 <= i < j < |rows| ==> KeyLt([rows[i][a], rows[i][b]], [rows[j][a], rows[j][b]])
    ensures HasColumns(rows, [a, b]) && UniqueKeys(rows, [a, b])
  {
    var on := [a, b];
    forall i, j | 0 <= i < j < |rows| ensures KeyOf(rows[i], on) != KeyOf(rows[j], on) {
      assert KeyOf(rows[i], on) == [rows[i][a], rows[i][b]];
      assert KeyOf(rows[j], on) == [rows[j][a], rows[j][b]];
      KeyLtAsymmetric(KeyOf(rows[i], on), KeyOf(rows[j], on));
    }
  }

  /** A left join on (patient, visit) against a table of changes in score keyed uniquely by (patient, visit). */
  lemma MergeOnVisits(c: Table, d: Table)
    requires WellFormed(c) && WellFormed(d)
    requires "patient_id" in c.columns && "num_visit" in c.columns && "delta_score" !in c.columns
    requires d.columns == ["patient_id", "num_visit", "delta_score"]
    requires HasColumns(d.rows, ["patient_id", "num_visit"]) && UniqueKeys(d.rows, ["patient_id", "num_visit"])
    ensures var on := ["patient_id", "num_visit"];
      && Merge(c, d, on, on).Ok?
      && HasColumns(c.rows, on) && HasColumns(d.rows, Appended(d.columns, on, on))
      && |Merge(c, d, on, on).value.rows| == |c.rows|
      && forall i :: 0 <= i < |c.rows| ==>
           LeftJoinedAt(c.rows[i], d.rows, on, on, Appended(d.columns, on, on), Merge(c, d, on, on).value.rows[i])
  {
    var on := ["patient_id", "num_visit"];
    assert Coalesced("patient_id", on, on) && Coalesced("num_visit", on, on) by {
      assert on[0] == "patient_id" && on[1] == "num_visit";
    }
    assert forall x :: x in Appended(d.columns, on, on) ==> x == "delta_score";
    assert Merge(c, d, on, on).Ok?;
    MergeKeepsLeftRows(c, d, on, on);
  }

  /**
   * `merge_scores_and_diffs(df, diffs_df, ['patient_id', 'num_visit'], ...)`
   * as the pipeline calls it: with no 'delta_score' column in the cleaned
   * table the merge succeeds, and it keeps every cleaned row once, in order,
   * joined with its change in score or widened with NaN.
   */
  lemma CleanedMergeKeepsRows(c: Table)
    requires PipelineCleaned(c) && NumericColumn(c.rows, "score") && "delta_score" !in c.columns
    ensures GetDiffs(c, "num_visit", "patient_id", "score", true).Ok?
    ensures var d := GetDiffs(c, "num_visit", "patient_id", "score", true).value;
      var on := ["patient_id", "num_visit"];
      && Merge(c, d, on, on).Ok?
      && HasColumns(c.rows, on) && HasColumns(d.rows, on) && HasColumns(d.rows, Appended(d.columns, on, on))
      && |Merge(c, d, on, on).value.rows| == |c.rows|
      && forall i :: 0 <= i < |c.rows| ==>
           LeftJoinedAt(c.rows[i], d.rows, on, on, Appended(d.columns, on, on), Merge(c, d, on, on).value.rows[i])
  {
    CleanedDiffsKeysUnique(c);
    MergeOnVisits(c, GetDiffs(c, "num_visit", "patient_id", "score", true).value);
  }
}
