/**
 * One patient's summary over the cleaned table: whether the id occurs, the
 * patient's rows in date order, and the summary statistics (first and last
 * score, average and total change, share of visits at or above the cutoff).
 */
module Patients {
  import opened Values
  import opened Tables
  import opened Grouping

  /** A row of the cleaned table carries the four cells the summary reads. */
  predicate Record(x: Row) {
    "patient_id" in x && "date" in x && "score" in x && "num_visit" in x
  }

  predicate Records(rows: seq<Row>) {
    forall i :: 0 <= i < |rows| ==> Record(rows[i])
  }

  /** The cleaned table as read back from its file: well formed, with the four columns. */
  predicate PatientData(t: Table) {
    && WellFormed(t)
    && "patient_id" in t.columns && "date" in t.columns && "score" in t.columns && "num_visit" in t.columns
  }

  lemma PatientDataRecords(t: Table)
    requires PatientData(t)
    ensures Records(t.rows)
  {
  }

  /** `id in all_data.patient_id.values`: NaN equals nothing, not even NaN. */
  function IdPresent(rows: seq<Row>, id: Value): bool
    requires Records(rows)
  {
    if rows == [] then false
    else (id != Null && rows[0]["patient_id"] == id) || IdPresent(rows[1..], id)
  }

  lemma {:induction false} IdPresentMeans(rows: seq<Row>, id: Value)
    requires Records(rows)
    ensures IdPresent(rows, id) <==> id != Null && exists i :: 0 <= i < |rows| && rows[i]["patient_id"] == id
  {
    if rows != [] {
      IdPresentMeans(rows[1..], id);
      if id != Null && exists i :: 1 <= i < |rows| && rows[i]["patient_id"] == id {
        var i :| 1 <= i < |rows| && rows[i]["patient_id"] == id;
        assert rows[1..][i - 1] == rows[i];
      }
    }
  }

  /** `all_data[all_data['patient_id'] == id]`: the patient's rows in table order. */
  function RowsOf(rows: seq<Row>, id: Value): (r: seq<Row>)
    requires Records(rows)
    ensures Records(r)
  {
    if rows == [] then []
    else (if id != Null && rows[0]["patient_id"] == id then [rows[0]] else []) + RowsOf(rows[1..], id)
  }

  /** The patient's rows are exactly the matching rows, each as often as in the table. */
  lemma {:induction false} RowsOfCount(rows: seq<Row>, id: Value, x: Row)
    requires Records(rows)
    ensures multiset(RowsOf(rows, id))[x] ==
      if Record(x) && id != Null && x["patient_id"] == id then multiset(rows)[x] else 0
  {
    if rows != [] {
      RowsOfCount(rows[1..], id, x);
      assert rows == [rows[0]] + rows[1..];
    }
  }

  /** Ascending by date, ties in either order. */
  predicate DateSorted(h: seq<Row>)
    requires Records(h)
  {
    forall i, j :: 0 <= i < j < |h| ==> !ValueLt(h[j]["date"], h[i]["date"])
  }

  /** Inserts `x` after every row not later than it. */
  function InsertByDate(h: seq<Row>, x: Row): (r: seq<Row>)
    requires Records(h) && Record(x)
    ensures Records(r) && multiset(r) == multiset(h) + multiset{x}
  {
    if h == [] then [x]
    else if ValueLt(x["date"], h[0]["date"]) then [x] + h
    else
      assert h == [h[0]] + h[1..];
      [h[0]] + InsertByDate(h[1..], x)
  }

  /** `sort_values('date')`, as a stable insertion sort. */
  function SortByDate(h: seq<Row>): (r: seq<Row>)
    requires Records(h)
    ensures Records(r) && multiset(r) == multiset(h)
  {
    if h == [] then []
    else
      assert h == h[..|h| - 1] + [h[|h| - 1]];
      InsertByDate(SortByDate(h[..|h| - 1]), h[|h| - 1])
  }

  /** A row strictly earlier than the first of a sorted history can go in front. */
  lemma InsertAtFront(h: seq<Row>, x: Row)
    requires Records(h) && Record(x) && DateSorted(h) && h != [] && ValueLt(x["date"], h[0]["date"])
    ensures Records([x] + h) && DateSorted([x] + h)
  {
    var r := [x] + h;
    forall i, j | 0 <= i < j < |r| ensures !ValueLt(r[j]["date"], r[i]["date"]) {
      if i == 0 {
        if j > 1 {
          assert !ValueLt(h[j - 1]["date"], h[0]["date"]);
          if ValueLt(h[j - 1]["date"], x["date"]) {
            ValueLtTransitive(h[j - 1]["date"], x["date"], h[0]["date"]);
          }
        } else {
          ValueLtAsymmetric(x["date"], h[0]["date"]);
        }
      } else {
        assert r[i] == h[i - 1] && r[j] == h[j - 1];
      }
    }
  }

  /** A row no later than every row of a sorted history can go in front. */
  lemma PutFirst(y: Row, rest: seq<Row>)
    requires Records(rest) && Record(y) && DateSorted(rest)
    requires forall j :: 0 <= j < |rest| ==> !ValueLt(rest[j]["date"], y["date"])
    ensures Records([y] + rest) && DateSorted([y] + rest)
  {
    var r := [y] + rest;
    forall i, j | 0 <= i < j < |r| ensures !ValueLt(r[j]["date"], r[i]["date"]) {
      assert r[j] == rest[j - 1];
      if i > 0 {
        assert r[i] == rest[i - 1];
      }
    }
  }

  /** Inserting a row not earlier than the head into the tail keeps every row not earlier than the head. */
  lemma NotBeforeHead(h: seq<Row>, x: Row)
    requires Records(h) && Record(x) && DateSorted(h) && h != [] && !ValueLt(x["date"], h[0]["date"])
    ensures forall j :: 0 <= j < |InsertByDate(h[1..], x)| ==> !ValueLt(InsertByDate(h[1..], x)[j]["date"], h[0]["date"])
  {
    var tail := h[1..];
    var rest := InsertByDate(tail, x);
    forall j | 0 <= j < |rest| ensures !ValueLt(rest[j]["date"], h[0]["date"]) {
      assert rest[j] in multiset(rest);
      if rest[j] != x {
        assert rest[j] in multiset(tail);
        var k :| 0 <= k < |tail| && tail[k] == rest[j];
        assert h[k + 1] == rest[j];
      }
    }
  }

  lemma {:induction false} InsertByDateSorted(h: seq<Row>, x: Row)
    requires Records(h) && Record(x) && DateSorted(h)
    ensures DateSorted(InsertByDate(h, x))
  {
    if h == [] {
    } else if ValueLt(x["date"], h[0]["date"]) {
      InsertAtFront(h, x);
    } else {
      var tail := h[1..];
      assert DateSorted(tail) by {
        forall i, j | 0 <= i < j < |tail| ensures !ValueLt(tail[j]["date"], tail[i]["date"]) {
          assert tail[i] == h[i + 1] && tail[j] == h[j + 1];
        }
      }
      InsertByDateSorted(tail, x);
      NotBeforeHead(h, x);
      PutFirst(h[0], InsertByDate(tail, x));
    }
  }


  lemma ValueLtAsymmetric(a: Value, b: Value)
    requires ValueLt(a, b)
    ensures !ValueLt(b, a)
  {
    if ValueLt(b, a) {
      ValueLtTransitive(a, b, a);
      ValueLtIrreflexive(a);
    }
  }

  lemma {:induction false} SortByDateSorted(h: seq<Row>)
    requires Records(h)
    ensures DateSorted(SortByDate(h))
  {
    if h != [] {
      SortByDateSorted(h[..|h| - 1]);
      InsertByDateSorted(SortByDate(h[..|h| - 1]), h[|h| - 1]);
    }
  }

  /** Cutoff for further evaluation: a score of 10 or more. */
  const Cutoff: real := 10.0

  /** The score column, top to bottom. */
  function Scores(h: seq<Row>): (s: seq<Value>)
    requires Records(h)
    ensures |s| == |h| && forall i :: 0 <= i < |h| ==> s[i] == h[i]["score"]
  {
    seq(|h|, i requires 0 <= i < |h| => h[i]["score"])
  }

  /** `history['score'][history['num_visit'] == 1]`: the scores of first visits, in order. */
  function FirstVisitScores(h: seq<Row>): seq<Value>
    requires Records(h)
  {
    if h == [] then []
    else (if h[0]["num_visit"] == Num(1.0) then [h[0]["score"]] else []) + FirstVisitScores(h[1..])
  }

  /** `.item()` on the first-visit scores: the score when exactly one row is a first visit. */
  function InitialScore(h: seq<Row>): Result<Value>
    requires Records(h)
  {
    var s := FirstVisitScores(h);
    if |s| == 1 then Ok(s[0]) else Err(ItemError)
  }

  /** Row i is the one and only row recorded as a first visit. */
  predicate OnlyFirstVisit(h: seq<Row>, i: int)
    requires Records(h)
  {
    && 0 <= i < |h| && h[i]["num_visit"] == Num(1.0)
    && forall j :: 0 <= j < |h| && h[j]["num_visit"] == Num(1.0) ==> j == i
  }

  lemma {:induction false} NoFirstVisit(h: seq<Row>)
    requires Records(h)
    ensures FirstVisitScores(h) == [] <==> forall j :: 0 <= j < |h| ==> h[j]["num_visit"] != Num(1.0)
  {
    if h != [] {
      NoFirstVisit(h[1..]);
      assert forall j :: 1 <= j < |h| ==> h[1..][j - 1] == h[j];
    }
  }

  /** Exactly one first-visit score exactly when exactly one row is a first visit; it is that row's score. */
  lemma {:induction false} OneFirstVisit(h: seq<Row>)
    requires Records(h)
    ensures |FirstVisitScores(h)| == 1 <==> exists i :: OnlyFirstVisit(h, i)
    ensures forall i :: OnlyFirstVisit(h, i) ==> FirstVisitScores(h) == [h[i]["score"]]
  {
    if h != [] {
      var tail := h[1..];
      assert forall j :: 1 <= j < |h| ==> tail[j - 1] == h[j];
      OneFirstVisit(tail);
      NoFirstVisit(tail);
      if h[0]["num_visit"] == Num(1.0) {
        forall i | OnlyFirstVisit(h, i) ensures i == 0 { }
        if |FirstVisitScores(h)| == 1 {
          assert OnlyFirstVisit(h, 0);
        }
      } else {
        if |FirstVisitScores(h)| == 1 {
          var i :| OnlyFirstVisit(tail, i);
          assert OnlyFirstVisit(h, i + 1);
        }
        forall i | OnlyFirstVisit(h, i) ensures OnlyFirstVisit(tail, i - 1) {
          assert i != 0;
        }
      }
    }
  }

  /**
   * `initial_score`: succeeds exactly when one row is a first visit, and is
   * then that row's score; `.item()` fails on none or several.
   */
  lemma InitialScoreItem(h: seq<Row>)
    requires Records(h)
    ensures InitialScore(h).Ok? <==> exists i :: OnlyFirstVisit(h, i)
    ensures forall i :: OnlyFirstVisit(h, i) ==> InitialScore(h) == Ok(h[i]["score"])
    ensures InitialScore(h).Ok? ==> h != []
  {
    OneFirstVisit(h);
  }

  /** The position of the last row of `h[..n]` that has a date, or -1 when every date there is NaT. */
  function LastDated(h: seq<Row>, n: int): (k: int)
    requires Records(h) && 0 <= n <= |h|
    ensures -1 <= k < n
    ensures k >= 0 ==> h[k]["date"] != Null
    ensures forall j :: k < j < n ==> h[j]["date"] == Null
    decreases n
  {
    if n == 0 then -1
    else if h[n - 1]["date"] != Null then n - 1
    else LastDated(h, n - 1)
  }

  /**
   * The row `sort_values('date', ascending=False).head(1)` picks from a
   * history sorted by date. The descending sort still puts NaT last, so
   * this is the last row that has a date; when every date is NaT, the NaT
   * rows keep their order and the first one is picked.
   */
  function FinalRow(h: seq<Row>): (i: int)
    requires Records(h) && h != []
    ensures 0 <= i < |h|
  {
    var k := LastDated(h, |h|);
    if k < 0 then 0 else k
  }

  /** `final_score`: the score of the row `FinalRow` picks. */
  function FinalScore(h: seq<Row>): Value
    requires Records(h) && h != []
  {
    h[FinalRow(h)]["score"]
  }

  /**
   * On a date-sorted history `final_score` is the score of a dated row no
   * dated row is later than; only when every date is NaT does it come from
   * an undated row, and then from the first one.
   */
  lemma FinalIsLatest(h: seq<Row>)
    requires Records(h) && h != [] && DateSorted(h)
    ensures exists i ::
      && 0 <= i < |h| && FinalScore(h) == h[i]["score"]
      && (h[i]["date"] == Null ==> forall j :: 0 <= j < |h| ==> h[j]["date"] == Null)
      && forall j :: 0 <= j < |h| && h[j]["date"] != Null ==> !ValueLt(h[i]["date"], h[j]["date"])
    ensures (forall j :: 0 <= j < |h| ==> h[j]["date"] == Null) ==> FinalScore(h) == h[0]["score"]
  {
    var i := FinalRow(h);
    var k := LastDated(h, |h|);
    forall j | 0 <= j < |h| && h[j]["date"] != Null ensures !ValueLt(h[i]["date"], h[j]["date"]) {
      if j < i {
        assert !ValueLt(h[i]["date"], h[j]["date"]);
      } else if j == i {
        ValueLtIrreflexive(h[j]["date"]);
      }
    }
    assert FinalScore(h) == h[i]["score"];
  }

  /** `LastDated` looks only at the first `n` rows. */
  lemma {:induction false} LastDatedPrefix(h: seq<Row>, g: seq<Row>, n: int)
    requires Records(h) && Records(g) && 0 <= n <= |h| && n <= |g| && h[..n] == g[..n]
    ensures LastDated(h, n) == LastDated(g, n)
    decreases n
  {
    if n > 0 {
      assert h[n - 1] == h[..n][n - 1] == g[..n][n - 1] == g[n - 1];
      assert h[..n - 1] == h[..n][..n - 1] && g[..n - 1] == g[..n][..n - 1];
      LastDatedPrefix(h, g, n - 1);
    }
  }

  /**
   * A NaT-dated row after a dated one does not change `final_score`: the
   * descending sort puts it last.
   */
  lemma FinalIgnoresLateNaT(h: seq<Row>, x: Row)
    requires Records(h) && Record(x) && x["date"] == Null
    requires exists j :: 0 <= j < |h| && h[j]["date"] != Null
    ensures Records(h + [x])
    ensures FinalScore(h + [x]) == FinalScore(h)
  {
    var hx := h + [x];
    assert Records(hx) by {
      forall i | 0 <= i < |hx| ensures Record(hx[i]) {
        if i < |h| { assert hx[i] == h[i]; } else { assert hx[i] == x; }
      }
    }
    assert hx[..|h|] == h[..|h|];
    LastDatedPrefix(hx, h, |h|);
    assert hx[|h|]["date"] == Null;
    assert LastDated(hx, |hx|) == LastDated(hx, |h|);
    assert LastDated(h, |h|) >= 0;
  }

  /** `score.diff()`: each score minus the one before it; NaN first. */
  function ScoreDiffs(s: seq<Value>): (d: seq<Value>)
    ensures |d| == |s|
  {
    seq(|s|, i requires 0 <= i < |s| => if i == 0 then Null else Sub(s[i], s[i - 1]))
  }

  /** `score.diff().mean()`: NaN steps are skipped; NaN when no step is a number. */
  function AvgDelta(h: seq<Row>): Value
    requires Records(h)
  {
    MeanOf(ScoreDiffs(Scores(h)))
  }

  predicate AllNumbers(s: seq<Value>) {
    forall i :: 0 <= i < |s| ==> s[i].Num?
  }

  /** The steps from position k on add up to the last score minus the one before k. */
  lemma {:induction false} StepsTelescope(s: seq<Value>, k: nat)
    requires AllNumbers(s) && 1 <= k <= |s|
    ensures NumCount(ScoreDiffs(s)[k..]) == |s| - k
    ensures NumSum(ScoreDiffs(s)[k..]) == s[|s| - 1].x - s[k - 1].x
    decreases |s| - k
  {
    var d := ScoreDiffs(s);
    if k < |s| {
      StepsTelescope(s, k + 1);
      assert d[k..][1..] == d[k + 1..];
      assert d[k] == Num(s[k].x - s[k - 1].x);
    } else {
      assert d[k..] == [];
    }
  }

  /** The mean of the steps of n >= 2 numbers is (last - first) / (n - 1). */
  lemma MeanOfSteps(s: seq<Value>)
    requires AllNumbers(s) && |s| >= 2
    ensures MeanOf(ScoreDiffs(s)) == Num((s[|s| - 1].x - s[0].x) / (|s| - 1) as real)
  {
    var d := ScoreDiffs(s);
    StepsTelescope(s, 1);
    assert d[0] == Null;
    assert NumCount(d) == NumCount(d[1..]) && NumSum(d) == NumSum(d[1..]);
  }

  /**
   * With two or more numeric scores the average step telescopes to
   * (last - first) / (n - 1).
   */
  lemma AvgDeltaTelescopes(h: seq<Row>)
    requires Records(h) && |h| >= 2 && AllNumbers(Scores(h))
    ensures AvgDelta(h) == Num((h[|h| - 1]["score"].x - h[0]["score"].x) / (|h| - 1) as real)
  {
    MeanOfSteps(Scores(h));
  }

  /** With a single visit there is no step: the average is undefined (NaN). */
  lemma AvgDeltaSingleVisit(h: seq<Row>)
    requires Records(h) && |h| == 1
    ensures AvgDelta(h) == Null
  {
    var d := ScoreDiffs(Scores(h));
    assert d == [Null];
    assert NumCount(d[1..]) == 0;
  }

  /** `np.sum(score < 10)`: NaN is not below the cutoff. */
  function BelowCutoff(s: seq<Value>): nat {
    if s == [] then 0 else (if s[0].Num? && s[0].x < Cutoff then 1 else 0) + BelowCutoff(s[1..])
  }

  /** Scores at or above the cutoff, or NaN. */
  function AtOrAboveCutoff(s: seq<Value>): nat {
    if s == [] then 0 else (if s[0].Num? && s[0].x < Cutoff then 0 else 1) + AtOrAboveCutoff(s[1..])
  }

  lemma {:induction false} CutoffSplit(s: seq<Value>)
    ensures BelowCutoff(s) + AtOrAboveCutoff(s) == |s|
  {
    if s != [] {
      CutoffSplit(s[1..]);
    }
  }

  /** `100 - sum(score < 10) / len(history) * 100`. */
  function PctFurtherEval(h: seq<Row>): real
    requires Records(h) && h != []
  {
    100.0 - (BelowCutoff(Scores(h)) as real / |h| as real * 100.0)
  }

  lemma DivDistrib(x: real, y: real, n: real)
    requires n != 0.0
    ensures (x - y) / n == x / n - y / n
  {
  }

  lemma MulDiv(x: real, n: real)
    requires n != 0.0
    ensures x / n * 100.0 == x * 100.0 / n
  {
  }

  lemma SelfDiv(n: real)
    requires n != 0.0
    ensures n * 100.0 / n == 100.0
  {
  }

  /** 100 minus the share of b in n is the share of a = n - b, and lies in [0, 100]. */
  lemma ShareArith(a: real, b: real, n: real)
    requires n > 0.0 && a >= 0.0 && b >= 0.0 && a + b == n
    ensures 100.0 - b / n * 100.0 == a * 100.0 / n
    ensures 0.0 <= a * 100.0 / n <= 100.0
  {
    MulDiv(b, n);
    SelfDiv(n);
    DivDistrib(n * 100.0, b * 100.0, n);
    assert a * 100.0 == n * 100.0 - b * 100.0;
  }

  /**
   * `pct_further_eval` is the percentage of visits whose score is not below
   * the cutoff, and so lies in [0, 100].
   */
  lemma PctFurtherEvalIsShare(h: seq<Row>)
    requires Records(h) && h != []
    ensures PctFurtherEval(h) == AtOrAboveCutoff(Scores(h)) as real * 100.0 / |h| as real
    ensures 0.0 <= PctFurtherEval(h) <= 100.0
  {
    var s := Scores(h);
    CutoffSplit(s);
    ShareArith(AtOrAboveCutoff(s) as real, BelowCutoff(s) as real, |h| as real);
  }

  /** The summary `get_patient_stats` builds, or the error `.item()` raises. */
  function Summary(h: seq<Row>): (r: Result<map<string, Value>>)
    requires Records(h)
  {
    var initial :- InitialScore(h);
    InitialScoreItem(h);
    var final := FinalScore(h);
    Ok(map[
      "initial_score" := initial,
      "final_score" := final,
      "avg_delta" := AvgDelta(h),
      "total_change" := Sub(final, initial),
      "pct_further_eval" := Num(PctFurtherEval(h))])
  }

  /** The summary as a map display, once `.item()` has succeeded. */
  lemma SummaryFields(h: seq<Row>)
    requires Records(h) && InitialScore(h).Ok?
    ensures Summary(h) == Ok(map[
      "initial_score" := InitialScore(h).value,
      "final_score" := FinalScore(h),
      "avg_delta" := AvgDelta(h),
      "total_change" := Sub(FinalScore(h), InitialScore(h).value),
      "pct_further_eval" := Num(PctFurtherEval(h))])
  {
    InitialScoreItem(h);
  }

  lemma SummaryKeys(m: map<string, Value>, a: Value, b: Value, c: Value, d: Value, e: Value)
    requires m == map["initial_score" := a, "final_score" := b, "avg_delta" := c, "total_change" := d, "pct_further_eval" := e]
    ensures m.Keys == {"initial_score", "final_score", "avg_delta", "total_change", "pct_further_eval"}
    ensures m["initial_score"] == a && m["final_score"] == b && m["avg_delta"] == c
    ensures m["total_change"] == d && m["pct_further_eval"] == e
  {
  }

  /** When `.item()` succeeds the summary holds the five statistics. */
  lemma SummaryStats(h: seq<Row>)
    requires Records(h) && InitialScore(h).Ok?
    ensures Summary(h).Ok?
    ensures Summary(h).value.Keys == {"initial_score", "final_score", "avg_delta", "total_change", "pct_further_eval"}
    ensures Summary(h).value["initial_score"] == InitialScore(h).value
    ensures Summary(h).value["final_score"] == FinalScore(h)
    ensures Summary(h).value["avg_delta"] == AvgDelta(h)
    ensures Summary(h).value["total_change"] == Sub(FinalScore(h), InitialScore(h).value)
    ensures Summary(h).value["pct_further_eval"] == Num(PctFurtherEval(h))
  {
    SummaryFields(h);
    InitialScoreItem(h);
    SummaryKeys(Summary(h).value, InitialScore(h).value, FinalScore(h), AvgDelta(h),
      Sub(FinalScore(h), InitialScore(h).value), Num(PctFurtherEval(h)));
  }

  /** The summary's total change is `steps` times its average step. */
  predicate MeanStep(total: Value, avg: Value, steps: nat) {
    total.Num? && avg.Num? && total.x == steps as real * avg.x
  }

  lemma StepsTimesMean(first: Value, last: Value, total: Value, avg: Value, steps: nat)
    requires first.Num? && last.Num? && steps > 0
    requires total == Sub(last, first) && avg == Num((last.x - first.x) / steps as real)
    ensures MeanStep(total, avg, steps)
  {
  }

  /** Over numbers, the last minus the first is the number of steps times the mean step. */
  lemma SpanIsStepsTimesMean(s: seq<Value>)
    requires AllNumbers(s) && |s| >= 2
    ensures MeanStep(Sub(s[|s| - 1], s[0]), MeanOf(ScoreDiffs(s)), |s| - 1)
  {
    MeanOfSteps(s);
    StepsTimesMean(s[0], s[|s| - 1], Sub(s[|s| - 1], s[0]), MeanOf(ScoreDiffs(s)), |s| - 1);
  }

  /**
   * With every score a number, the change from the first to the last row of
   * the history is the number of steps times the average step. When the last
   * row has a date it is the final row, and when the first visit is the
   * first row this change is the summary's `total_change` (`SummaryStats`).
   */
  lemma TotalChangeIsStepsTimesAverage(h: seq<Row>)
    requires Records(h) && |h| >= 2 && AllNumbers(Scores(h))
    ensures MeanStep(Sub(h[|h| - 1]["score"], h[0]["score"]), AvgDelta(h), |h| - 1)
    ensures h[|h| - 1]["date"] != Null ==> FinalScore(h) == h[|h| - 1]["score"]
  {
    var s := Scores(h);
    SpanIsStepsTimesMean(s);
    assert s[0] == h[0]["score"] && s[|s| - 1] == h[|h| - 1]["score"];
  }

  /** A patient of the cleaned table. */
  class Patient {
    const patientId: Value
    const allData: Table
    var valid: bool
    var history: seq<Row>
    var stats: map<string, Value>
    /** The error `get_patient_stats` raised out of the constructor, if any. */
    var raised: Option<Error>

    /** `check_valid_id`: the id occurs in the table's patient_id column. */
    function CheckValidId(): (b: bool)
      requires PatientData(allData)
      ensures b <==> (patientId != Null &&
        exists i :: 0 <= i < |allData.rows| && allData.rows[i]["patient_id"] == patientId)
    {
      IdPresentMeans(allData.rows, patientId);
      IdPresent(allData.rows, patientId)
    }

    /** `get_history`: the patient's rows, sorted by date. */
    function GetHistory(): (h: seq<Row>)
      requires PatientData(allData)
      ensures Records(h) && DateSorted(h)
      ensures multiset(h) == multiset(RowsOf(allData.rows, patientId))
    {
      SortByDateSorted(RowsOf(allData.rows, patientId));
      SortByDate(RowsOf(allData.rows, patientId))
    }

    /**
     * `get_patient_stats`: starts from an empty dict and sets the five
     * entries one at a time; `.item()` on the first-visit score raises and
     * leaves the dict empty.
     */
    method GetPatientStats() returns (r: Result<map<string, Value>>)
      requires Records(history)
      modifies this
      ensures valid == old(valid) && history == old(history) && raised == old(raised)
      ensures r == Summary(history)
      ensures stats == if r.Ok? then r.value else map[]
    {
      stats := map[];
      var initial := InitialScore(history);
      if initial.Err? {
        return Err(initial.error);
      }
      InitialScoreItem(history);
      stats := stats["initial_score" := initial.value];
      stats := stats["final_score" := FinalScore(history)];
      stats := stats["avg_delta" := AvgDelta(history)];
      stats := stats["total_change" := Sub(stats["final_score"], stats["initial_score"])];
      stats := stats["pct_further_eval" := Num(PctFurtherEval(history))];
      r := Ok(stats);
    }

    /**
     * The table is given rather than read from its file. An unknown id
     * computes neither history nor statistics.
     */
    constructor (patientId: Value, allData: Table)
      requires PatientData(allData)
      ensures this.patientId == patientId && this.allData == allData
      ensures valid == CheckValidId()
      ensures valid ==> history == GetHistory()
      ensures valid ==> stats == (if Summary(history).Ok? then Summary(history).value else map[])
      ensures valid ==> raised == (if Summary(history).Ok? then None else Some(ItemError))
      ensures !valid ==> history == [] && stats == map[] && raised == None
    {
      this.patientId := patientId;
      this.allData := allData;
      history := [];
      stats := map[];
      raised := None;
      new;
      valid := CheckValidId();
      if valid {
        history := GetHistory();
        var r := GetPatientStats();
        if r.Err? {
          raised := Some(r.error);
        }
      }
    }
  }
}
