/**
 * The cleaning steps of `src/data_pipeline.py`: date normalisation, same-day
 * de-duplication, visit numbering and month/year buckets.
 *
 * The steps that assign columns of the caller's data frame (`df[col] = ...`)
 * are methods on a `Frame`; the step that builds a new frame
 * (`remove_dups_within_day`) is a function.
 */
module Cleaner {
  import opened Values
  import opened Keys
  import opened Tables
  import opened Grouping

  /** A pandas data frame that the pipeline updates in place. */
  class Frame {
    var columns: seq<string>
    var rows: seq<Row>

    function AsTable(): Table
      reads this
    {
      Table(columns, rows)
    }

    predicate Valid()
      reads this
    {
      WellFormed(AsTable())
    }

    constructor (t: Table)
      requires WellFormed(t)
      ensures Valid() && AsTable() == t
    {
      columns := t.columns;
      rows := t.rows;
    }

    /** `df[c] = vs`. */
    method SetColumn(c: string, vs: seq<Value>)
      requires Valid() && |vs| == |rows|
      modifies this
      ensures Valid()
      ensures AsTable() == WithColumn(old(AsTable()), c, vs)
    {
      var t := WithColumn(AsTable(), c, vs);
      columns, rows := t.columns, t.rows;
    }
  }

  // ---------------------------------------------------------------------
  // Reading cells as dates

  /** `pd.to_datetime` of one cell; `None` when the cell is not a date. */
  function ToDatetime(v: Value): Option<Value> {
    match v
    case Stamp(_, _) => Some(v)
    case Day(d) => Some(Stamp(d, 0))
    case Null => Some(Null)
    case _ => None
  }

  /** `DatetimeIndex(col).date` of one cell: the calendar date; NaT stays NaT. */
  function CalendarDate(v: Value): (r: Option<Value>)
    ensures r.Some? <==> ToDatetime(v).Some?
    ensures r.Some? && r.value != Null ==> (v.Day? || v.Stamp?) && r.value == Day(v.date)
  {
    match ToDatetime(v)
    case Some(Stamp(d, _)) => Some(Day(d))
    case Some(_) => Some(Null)
    case None => None
  }

  /** `DatetimeIndex(col).month`. */
  function MonthOf(v: Value): Option<Value> {
    match ToDatetime(v)
    case Some(Stamp(d, _)) => Some(Num(d.month as real))
    case Some(_) => Some(Null)
    case None => None
  }

  /** `DatetimeIndex(col).year`. */
  function YearOf(v: Value): Option<Value> {
    match ToDatetime(v)
    case Some(Stamp(d, _)) => Some(Num(d.year as real))
    case Some(_) => Some(Null)
    case None => None
  }

  /** `pd.to_datetime(col).dt.to_period('M')`. */
  function MonthPeriodOf(v: Value): Option<Value> {
    match ToDatetime(v)
    case Some(Stamp(d, _)) => Some(Period(d.year, d.month))
    case Some(_) => Some(Null)
    case None => None
  }

  /** The ways the pipeline reads a column of dates. */
  datatype Reading = AsTimestamp | AsCalendarDate | AsMonth | AsYear | AsMonthPeriod

  function Read(k: Reading, v: Value): Option<Value> {
    match k
    case AsTimestamp => ToDatetime(v)
    case AsCalendarDate => CalendarDate(v)
    case AsMonth => MonthOf(v)
    case AsYear => YearOf(v)
    case AsMonthPeriod => MonthPeriodOf(v)
  }

  /** Converts every cell of column `c`; the first cell that is not a date fails the whole column. */
  function ConvertCells(vs: seq<Value>, k: Reading, c: string): (r: Result<seq<Value>>)
    ensures r.Ok? <==> forall i :: 0 <= i < |vs| ==> Read(k, vs[i]).Some?
    ensures r.Err? ==> r.error == DateParseError(c)
    ensures r.Ok? ==> |r.value| == |vs| && forall i :: 0 <= i < |vs| ==> r.value[i] == Read(k, vs[i]).value
  {
    if vs == [] then Ok([])
    else if Read(k, vs[0]).None? then Err(DateParseError(c))
    else
      var rest := ConvertCells(vs[1..], k, c);
      if rest.Err? then rest
      else Ok([Read(k, vs[0]).value] + rest.value)
  }

  // ---------------------------------------------------------------------
  // date_time_cols

  /**
   * One pass of the loop in `date_time_cols`: column `col` is first parsed
   * (so an unreadable cell in it still raises), then overwritten by the
   * calendar date of the literal column 'date'.
   */
  function NormalizeStep(t: Table, col: string): (r: (Table, Option<Error>))
    requires WellFormed(t)
    ensures WellFormed(r.0)
  {
    if col !in t.columns then (t, Some(KeyError(col)))
    else
      var parsed := ConvertCells(Column(t, col), AsTimestamp, col);
      if parsed.Err? then (t, Some(parsed.error))
      else
        var t1 := WithColumn(t, col, parsed.value);
        if "date" !in t1.columns then (t1, Some(KeyError("date")))
        else
          var dates := ConvertCells(Column(t1, "date"), AsCalendarDate, "date");
          if dates.Err? then (t1, Some(dates.error))
          else (WithColumn(t1, col, dates.value), None)
  }

  /** The whole loop of `date_time_cols`; on an error the frame keeps the columns already rewritten. */
  function NormalizeDates(t: Table, cols: seq<string>): (r: (Table, Option<Error>))
    requires WellFormed(t)
    ensures WellFormed(r.0)
  {
    if cols == [] then (t, None)
    else
      var prev := NormalizeDates(t, cols[..|cols| - 1]);
      if prev.1.Some? then prev else NormalizeStep(prev.0, cols[|cols| - 1])
  }

  /** Once a pass has failed, the later passes never run. */
  lemma {:induction false} NormalizeDatesStops(t: Table, cols: seq<string>, k: nat)
    requires WellFormed(t) && k <= |cols|
    requires NormalizeDates(t, cols[..k]).1.Some?
    ensures NormalizeDates(t, cols) == NormalizeDates(t, cols[..k])
    decreases |cols| - k
  {
    if k < |cols| {
      var front := cols[..|cols| - 1];
      assert front[..k] == cols[..k];
      NormalizeDatesStops(t, front, k);
      var prev := NormalizeDates(t, front);
      assert prev.1.Some?;
      assert NormalizeDates(t, cols) == prev;
    } else {
      assert cols[..k] == cols;
    }
  }

  /** `date_time_cols(df, date_cols)`: rewrites the listed columns of the caller's frame. */
  method DateTimeCols(df: Frame, dateCols: seq<string>) returns (err: Option<Error>)
    requires df.Valid()
    modifies df
    ensures df.Valid()
    ensures (df.AsTable(), err) == NormalizeDates(old(df.AsTable()), dateCols)
  {
    ghost var t0 := df.AsTable();
    for k := 0 to |dateCols|
      invariant df.Valid()
      invariant NormalizeDates(t0, dateCols[..k]) == (df.AsTable(), None)
    {
      var col := dateCols[k];
      assert dateCols[..k + 1][..k] == dateCols[..k] && dateCols[..k + 1][k] == col;
      if col !in df.columns {
        NormalizeDatesStops(t0, dateCols, k + 1);
        return Some(KeyError(col));
      }
      var parsed := ConvertCells(Column(df.AsTable(), col), AsTimestamp, col);
      if parsed.Err? {
        NormalizeDatesStops(t0, dateCols, k + 1);
        return Some(parsed.error);
      }
      df.SetColumn(col, parsed.value);
      if "date" !in df.columns {
        NormalizeDatesStops(t0, dateCols, k + 1);
        return Some(KeyError("date"));
      }
      var dates := ConvertCells(Column(df.AsTable(), "date"), AsCalendarDate, "date");
      if dates.Err? {
        NormalizeDatesStops(t0, dateCols, k + 1);
        return Some(dates.error);
      }
      df.SetColumn(col, dates.value);
    }
    assert dateCols[..|dateCols|] == dateCols;
    return None;
  }

  lemma CalendarDateIdempotent(v: Value)
    requires CalendarDate(v).Some?
    ensures CalendarDate(CalendarDate(v).value) == CalendarDate(v)
  {
  }

  lemma CalendarDateOfParsed(v: Value)
    requires ToDatetime(v).Some?
    ensures CalendarDate(ToDatetime(v).value) == CalendarDate(v)
  {
  }

  /** One successful pass sets `col` to the calendar date of the 'date' cell it reads. */
  lemma NormalizeStepEffect(p: Table, col: string)
    requires WellFormed(p) && NormalizeStep(p, col).1.None?
    ensures var n := NormalizeStep(p, col).0;
      && |n.rows| == |p.rows| && n.columns == p.columns
      && col in p.columns && "date" in p.columns
      && forall i :: 0 <= i < |p.rows| ==>
           && CalendarDate(p.rows[i]["date"]).Some?
           && n.rows[i][col] == CalendarDate(p.rows[i]["date"]).value
           && forall c :: c in p.columns && c != col ==> n.rows[i][c] == p.rows[i][c]
  {
    var parsed := ConvertCells(Column(p, col), AsTimestamp, col).value;
    var t1 := WithColumn(p, col, parsed);
    var dates := ConvertCells(Column(t1, "date"), AsCalendarDate, "date").value;
    forall i | 0 <= i < |p.rows|
      ensures CalendarDate(p.rows[i]["date"]).Some?
      ensures CalendarDate(t1.rows[i]["date"]) == CalendarDate(p.rows[i]["date"])
    {
      assert Column(t1, "date")[i] == t1.rows[i]["date"];
      assert CalendarDate(t1.rows[i]["date"]).Some?;
      if col == "date" {
        CalendarDateOfParsed(p.rows[i]["date"]);
      }
    }
  }

  /**
   * After a successful `date_time_cols`, every listed column holds the
   * calendar date of the ORIGINAL 'date' column (not its own value), and
   * every other column is untouched.
   */
  lemma {:induction false} NormalizeDatesEffect(t: Table, cols: seq<string>)
    requires WellFormed(t)
    requires NormalizeDates(t, cols).1.None?
    ensures var n := NormalizeDates(t, cols).0;
      && |n.rows| == |t.rows|
      && n.columns == t.columns
      && (forall c :: c in cols ==> c in t.columns)
      && (cols != [] ==> "date" in t.columns)
      && forall i :: 0 <= i < |t.rows| ==>
           && (cols != [] ==> CalendarDate(t.rows[i]["date"]).Some?)
           && (forall c :: c in cols ==> n.rows[i][c] == CalendarDate(t.rows[i]["date"]).value)
           && (forall c :: c in t.columns && c !in cols ==> n.rows[i][c] == t.rows[i][c])
  {
    if cols != [] {
      var front := cols[..|cols| - 1];
      var col := cols[|cols| - 1];
      assert forall c :: c in cols <==> c in front || c == col;
      NormalizeDatesEffect(t, front);
      var p := NormalizeDates(t, front).0;
      var n := NormalizeDates(t, cols).0;
      assert n == NormalizeStep(p, col).0;
      NormalizeStepEffect(p, col);
      forall i | 0 <= i < |t.rows|
        ensures CalendarDate(t.rows[i]["date"]).Some?
        ensures CalendarDate(p.rows[i]["date"]) == CalendarDate(t.rows[i]["date"])
      {
        // the 'date' cell this pass reads has the calendar date of the original one
        if "date" in front {
          CalendarDateIdempotent(t.rows[i]["date"]);
        }
      }
    }
  }

  // ---------------------------------------------------------------------
  // remove_dups_within_day

  /**
   * `df.groupby(groupby_cols).agg({val_col: 'mean'}).reset_index()`: one row
   * per distinct key holding the mean value; every other column dropped.
   */
  function RemoveDupsWithinDay(t: Table, groupbyCols: seq<string>, valCol: string): (r: Result<Table>)
    requires WellFormed(t)
    ensures r.Ok? ==> WellFormed(r.value) && r.value.columns == groupbyCols + [valCol]
  {
    GroupAgg(t, groupbyCols, valCol, Mean)
  }

  // ---------------------------------------------------------------------
  // create_num_visits

  /** The cell holding visit number `k`. */
  function Visit(k: int): Value {
    Num(k as real)
  }

  /** `groupby('patient_id').cumcount() + 1`: the 1-based running count of each id; NaN ids get NaN. */
  function VisitNumbers(ids: seq<Value>): (vs: seq<Value>)
    ensures |vs| == |ids|
  {
    seq(|ids|, i requires 0 <= i < |ids| =>
      if ids[i] == Null then Null else Visit(multiset(ids[..i])[ids[i]] + 1))
  }

  /** Row `i` gets the number of rows with its id up to and including it. */
  lemma VisitNumberAt(ids: seq<Value>, i: int)
    requires 0 <= i < |ids| && ids[i] != Null
    ensures VisitNumbers(ids)[i] == Visit(multiset(ids[..i + 1])[ids[i]])
    ensures 1 <= multiset(ids[..i + 1])[ids[i]] <= multiset(ids)[ids[i]]
  {
    assert ids[..i + 1] == ids[..i] + [ids[i]];
    assert ids == ids[..i + 1] + ids[i + 1..];
  }

  /** A later row of the same id has seen more rows of that id. */
  lemma CountGrows(ids: seq<Value>, i: int, j: int)
    requires 0 <= i < j < |ids| && ids[i] == ids[j]
    ensures multiset(ids[..i + 1])[ids[i]] < multiset(ids[..j + 1])[ids[j]]
  {
    var p, between := ids[i], ids[i + 1..j + 1];
    assert ids[..j + 1] == ids[..i + 1] + between;
    assert multiset(ids[..j + 1]) == multiset(ids[..i + 1]) + multiset(between);
    assert p in between by {
      assert between[j - i - 1] == ids[j];
    }
  }

  /** Down the rows, one id's visit numbers strictly increase, so none repeats. */
  lemma VisitNumbersIncrease(ids: seq<Value>, i: int, j: int)
    requires 0 <= i < j < |ids| && ids[i] == ids[j] != Null
    ensures VisitNumbers(ids)[i].x < VisitNumbers(ids)[j].x
  {
    VisitNumberAt(ids, i);
    VisitNumberAt(ids, j);
    CountGrows(ids, i, j);
  }

  /** Appending a row leaves the numbers of the earlier rows alone. */
  lemma VisitNumbersPrefix(ids: seq<Value>, i: int)
    requires 0 <= i < |ids| - 1
    ensures VisitNumbers(ids)[i] == VisitNumbers(ids[..|ids| - 1])[i]
  {
    assert ids[..|ids| - 1][..i] == ids[..i];
  }

  /** Every number from 1 to the id's row count is given to one of its rows. */
  lemma {:induction false} VisitNumbersCover(ids: seq<Value>, p: Value, k: int)
    requires p != Null && 1 <= k <= multiset(ids)[p]
    ensures exists i :: 0 <= i < |ids| && ids[i] == p && VisitNumbers(ids)[i] == Visit(k)
  {
    var last := |ids| - 1;
    var front := ids[..last];
    assert ids == front + [ids[last]];
    assert multiset(ids)[p] == multiset(front)[p] + (if ids[last] == p then 1 else 0);
    if k <= multiset(front)[p] {
      VisitNumbersCover(front, p, k);
      var i :| 0 <= i < |front| && front[i] == p && VisitNumbers(front)[i] == Visit(k);
      VisitNumbersPrefix(ids, i);
      assert ids[i] == p;
    } else {
      assert ids[last] == p && k == multiset(front)[p] + 1;
      assert VisitNumbers(ids)[last] == Visit(multiset(ids[..last])[ids[last]] + 1);
    }
  }

  /**
   * Each id's rows are numbered 1, 2, ..., k in row order, where k is the
   * number of rows with that id: every number in 1..k occurs, and numbers
   * strictly increase down the rows (so none repeats).
   */
  lemma VisitNumbersContiguous(ids: seq<Value>, p: Value)
    requires p != Null
    ensures var vs := VisitNumbers(ids);
      && (forall i :: 0 <= i < |ids| && ids[i] == p ==>
            vs[i].Num? && 1.0 <= vs[i].x <= multiset(ids)[p] as real)
      && (forall i, j :: 0 <= i < j < |ids| && ids[i] == p && ids[j] == p ==> vs[i].x < vs[j].x)
      && (forall k :: 1 <= k <= multiset(ids)[p] ==>
            exists i :: 0 <= i < |ids| && ids[i] == p && vs[i] == Visit(k))
  {
    forall i | 0 <= i < |ids| && ids[i] == p {
      VisitNumberAt(ids, i);
    }
    forall i, j | 0 <= i < j < |ids| && ids[i] == p && ids[j] == p {
      VisitNumbersIncrease(ids, i, j);
    }
    forall k | 1 <= k <= multiset(ids)[p] {
      VisitNumbersCover(ids, p, k);
    }
  }

  /** The table `create_num_visits` leaves behind: column 'num_visit' added or replaced. */
  function AddNumVisits(t: Table): (r: Result<Table>)
    requires WellFormed(t)
    ensures r.Ok? <==> "patient_id" in t.columns
    ensures r.Err? ==> r.error == KeyError("patient_id")
    ensures r.Ok? ==> WellFormed(r.value) && r.value.columns == AddLabel(t.columns, "num_visit")
  {
    if "patient_id" !in t.columns then Err(KeyError("patient_id"))
    else Ok(WithColumn(t, "num_visit", VisitNumbers(Column(t, "patient_id"))))
  }

  /**
   * `create_num_visits(df, id_col)`. The source groups by the literal
   * column 'patient_id'; `idCol` is accepted and ignored, as there.
   */
  method CreateNumVisits(df: Frame, idCol: string) returns (err: Option<Error>)
    requires df.Valid()
    modifies df
    ensures df.Valid()
    ensures err.None? <==> AddNumVisits(old(df.AsTable())).Ok?
    ensures err.None? ==> df.AsTable() == AddNumVisits(old(df.AsTable())).value
    ensures err.Some? ==> err == Some(AddNumVisits(old(df.AsTable())).error) && df.AsTable() == old(df.AsTable())
  {
    if "patient_id" !in df.columns {
      return Some(KeyError("patient_id"));
    }
    df.SetColumn("num_visit", VisitNumbers(Column(df.AsTable(), "patient_id")));
    return None;
  }

  // ---------------------------------------------------------------------
  // create_month_year_cols

  /** One assignment of `create_month_year_cols`: read `df[date_col]` as `k`, store the result in `target`. */
  function AssignFrom(t: Table, dateCol: string, k: Reading, target: string): (r: Result<Table>)
    requires WellFormed(t) && dateCol in t.columns
    ensures r.Ok? <==> forall i :: 0 <= i < |t.rows| ==> Read(k, t.rows[i][dateCol]).Some?
    ensures r.Err? ==> r.error == DateParseError(dateCol)
    ensures r.Ok? ==> WellFormed(r.value) && r.value.columns == AddLabel(t.columns, target)
    ensures r.Ok? ==> |r.value.rows| == |t.rows|
    ensures r.Ok? ==> forall i :: 0 <= i < |t.rows| ==>
      r.value.rows[i] == t.rows[i][target := Read(k, t.rows[i][dateCol]).value]
  {
    var cells := Column(t, dateCol);
    assert forall i :: 0 <= i < |t.rows| ==> cells[i] == t.rows[i][dateCol];
    var vs :- ConvertCells(cells, k, dateCol);
    Ok(WithColumn(t, target, vs))
  }

  /**
   * `create_month_year_cols` step by step. Each of the three assignments
   * reads `df[date_col]` afresh, so when `date_col` is 'month' or 'year' a
   * later read sees the numbers an earlier assignment wrote there. The
   * frame keeps the columns assigned before the first read that fails.
   */
  function MonthYearSteps(t: Table, dateCol: string): (r: (Table, Option<Error>))
    requires WellFormed(t)
    ensures WellFormed(r.0) && |r.0.rows| == |t.rows|
    ensures r.1.Some? ==> r.1 == Some(KeyError(dateCol)) || r.1 == Some(DateParseError(dateCol))
  {
    if dateCol !in t.columns then (t, Some(KeyError(dateCol)))
    else
      var t1 := AssignFrom(t, dateCol, AsMonth, "month");
      if t1.Err? then (t, Some(t1.error))
      else
        var t2 := AssignFrom(t1.value, dateCol, AsYear, "year");
        if t2.Err? then (t1.value, Some(t2.error))
        else
          var t3 := AssignFrom(t2.value, dateCol, AsMonthPeriod, "month_year");
          if t3.Err? then (t2.value, Some(t3.error))
          else (t3.value, None)
  }

  /** The table `create_month_year_cols` returns, or the exception it raises. */
  function AddMonthYear(t: Table, dateCol: string): (r: Result<Table>)
    requires WellFormed(t)
    ensures r.Ok? ==> WellFormed(r.value) && |r.value.rows| == |t.rows|
    ensures r.Err? ==> r.error == KeyError(dateCol) || r.error == DateParseError(dateCol)
  {
    var steps := MonthYearSteps(t, dateCol);
    if steps.1.Some? then Err(steps.1.value) else Ok(steps.0)
  }

  /**
   * A month or a year written back into the date column is a number, and a
   * number does not read as a date: only NaT survives being read twice.
   */
  lemma NumbersAreNotDates(d: Value)
    requires ToDatetime(d).Some?
    ensures ToDatetime(MonthOf(d).value).Some? <==> d == Null
    ensures ToDatetime(YearOf(d).value).Some? <==> d == Null
    ensures d == Null ==> MonthOf(d) == Some(Null) && YearOf(d) == Some(Null)
  {
  }

  /**
   * Storing months or years leaves the date column as it was: either it is
   * another column, or it held only NaT and NaT is written back.
   */
  lemma AssignKeepsDates(t: Table, dateCol: string, k: Reading, target: string)
    requires WellFormed(t) && dateCol in t.columns
    requires forall i :: 0 <= i < |t.rows| ==> ToDatetime(t.rows[i][dateCol]).Some?
    requires k == AsMonth || k == AsYear
    requires target == dateCol ==> forall i :: 0 <= i < |t.rows| ==> t.rows[i][dateCol] == Null
    ensures AssignFrom(t, dateCol, k, target).Ok?
    ensures var u := AssignFrom(t, dateCol, k, target).value;
      && dateCol in u.columns && |u.rows| == |t.rows|
      && forall i :: 0 <= i < |t.rows| ==> u.rows[i][dateCol] == t.rows[i][dateCol]
  {
    forall i | 0 <= i < |t.rows| ensures Read(k, t.rows[i][dateCol]).Some? {
      ReadParses(k, t.rows[i][dateCol]);
      NumbersAreNotDates(t.rows[i][dateCol]);
    }
  }

  /**
   * When every cell parses, and a date column named 'month' or 'year' holds
   * only NaT, the three reads succeed and each sees the original cells.
   */
  lemma RereadSteps(t: Table, dateCol: string)
    requires WellFormed(t) && dateCol in t.columns
    requires forall i :: 0 <= i < |t.rows| ==> ToDatetime(t.rows[i][dateCol]).Some?
    requires dateCol == "month" || dateCol == "year" ==> forall i :: 0 <= i < |t.rows| ==> t.rows[i][dateCol] == Null
    ensures var t1 := AssignFrom(t, dateCol, AsMonth, "month");
      && t1.Ok? && dateCol in t1.value.columns
      && (forall i :: 0 <= i < |t.rows| ==> t1.value.rows[i][dateCol] == t.rows[i][dateCol])
      && var t2 := AssignFrom(t1.value, dateCol, AsYear, "year");
      && t2.Ok? && dateCol in t2.value.columns
      && (forall i :: 0 <= i < |t.rows| ==> t2.value.rows[i][dateCol] == t.rows[i][dateCol])
      && var t3 := AssignFrom(t2.value, dateCol, AsMonthPeriod, "month_year");
      && t3.Ok? && MonthYearSteps(t, dateCol) == (t3.value, None)
  {
    AssignKeepsDates(t, dateCol, AsMonth, "month");
    var t1 := AssignFrom(t, dateCol, AsMonth, "month").value;
    AssignKeepsDates(t1, dateCol, AsYear, "year");
    var t2 := AssignFrom(t1, dateCol, AsYear, "year").value;
    forall i | 0 <= i < |t2.rows| ensures Read(AsMonthPeriod, t2.rows[i][dateCol]).Some? {
      ReadParses(AsMonthPeriod, t.rows[i][dateCol]);
    }
  }

  /** Three assignments that each read the same date cell give its month, year and period. */
  lemma ComposeReads(r: Row, dateCol: string, r1: Row, r2: Row, r3: Row)
    requires dateCol in r && ToDatetime(r[dateCol]).Some?
    requires r1 == r["month" := Read(AsMonth, r[dateCol]).value]
    requires dateCol in r1 && r1[dateCol] == r[dateCol]
    requires r2 == r1["year" := Read(AsYear, r1[dateCol]).value]
    requires dateCol in r2 && r2[dateCol] == r[dateCol]
    requires r3 == r2["month_year" := Read(AsMonthPeriod, r2[dateCol]).value]
    ensures var d := r[dateCol];
      r3 == r["month" := MonthOf(d).value]["year" := YearOf(d).value]["month_year" := MonthPeriodOf(d).value]
  {
  }

  /** ... and then every row gains its original date's month, year and period. */
  lemma RereadSame(t: Table, dateCol: string)
    requires WellFormed(t) && dateCol in t.columns
    requires forall i :: 0 <= i < |t.rows| ==> ToDatetime(t.rows[i][dateCol]).Some?
    requires dateCol == "month" || dateCol == "year" ==> forall i :: 0 <= i < |t.rows| ==> t.rows[i][dateCol] == Null
    ensures MonthYearSteps(t, dateCol).1.None?
    ensures forall i :: 0 <= i < |t.rows| ==>
      var d := t.rows[i][dateCol];
      MonthYearSteps(t, dateCol).0.rows[i] ==
        t.rows[i]["month" := MonthOf(d).value]["year" := YearOf(d).value]["month_year" := MonthPeriodOf(d).value]
  {
    RereadSteps(t, dateCol);
    var t1 := AssignFrom(t, dateCol, AsMonth, "month").value;
    var t2 := AssignFrom(t1, dateCol, AsYear, "year").value;
    var t3 := AssignFrom(t2, dateCol, AsMonthPeriod, "month_year").value;
    forall i | 0 <= i < |t.rows|
      ensures t3.rows[i] == t.rows[i]["month" := MonthOf(t.rows[i][dateCol]).value]
        ["year" := YearOf(t.rows[i][dateCol]).value]["month_year" := MonthPeriodOf(t.rows[i][dateCol]).value]
    {
      ComposeReads(t.rows[i], dateCol, t1.rows[i], t2.rows[i], t3.rows[i]);
    }
  }

  /** A date column named 'month' holding a real date fails on the second read. */
  lemma MonthRereadFails(t: Table, j: int)
    requires WellFormed(t) && "month" in t.columns
    requires forall i :: 0 <= i < |t.rows| ==> ToDatetime(t.rows[i]["month"]).Some?
    requires 0 <= j < |t.rows| && t.rows[j]["month"] != Null
    ensures MonthYearSteps(t, "month").1 == Some(DateParseError("month"))
  {
    var d := t.rows[j]["month"];
    forall i | 0 <= i < |t.rows| ensures Read(AsMonth, t.rows[i]["month"]).Some? {
      ReadParses(AsMonth, t.rows[i]["month"]);
    }
    var t1 := AssignFrom(t, "month", AsMonth, "month").value;
    NumbersAreNotDates(d);
    var m := MonthOf(d).value;
    assert t1.rows[j]["month"] == m;
    ReadParses(AsYear, m);
    assert Read(AsYear, t1.rows[j]["month"]).None?;
  }

  /** A date column named 'year' holding a real date fails on the third read. */
  lemma YearRereadFails(t: Table, j: int)
    requires WellFormed(t) && "year" in t.columns
    requires forall i :: 0 <= i < |t.rows| ==> ToDatetime(t.rows[i]["year"]).Some?
    requires 0 <= j < |t.rows| && t.rows[j]["year"] != Null
    ensures MonthYearSteps(t, "year").1 == Some(DateParseError("year"))
  {
    var d := t.rows[j]["year"];
    AssignKeepsDates(t, "year", AsMonth, "month");
    var t1 := AssignFrom(t, "year", AsMonth, "month").value;
    forall i | 0 <= i < |t1.rows| ensures Read(AsYear, t1.rows[i]["year"]).Some? {
      ReadParses(AsYear, t.rows[i]["year"]);
    }
    var t2 := AssignFrom(t1, "year", AsYear, "year").value;
    NumbersAreNotDates(d);
    assert t1.rows[j]["year"] == d;
    var y := YearOf(d).value;
    assert t2.rows[j]["year"] == y;
    ReadParses(AsMonthPeriod, y);
    assert Read(AsMonthPeriod, t2.rows[j]["year"]).None?;
  }

  /** A date column named 'month' or 'year' holding a real date fails on the second or third read. */
  lemma RereadFails(t: Table, dateCol: string, j: int)
    requires WellFormed(t) && dateCol in t.columns
    requires forall i :: 0 <= i < |t.rows| ==> ToDatetime(t.rows[i][dateCol]).Some?
    requires dateCol == "month" || dateCol == "year"
    requires 0 <= j < |t.rows| && t.rows[j][dateCol] != Null
    ensures MonthYearSteps(t, dateCol).1 == Some(DateParseError(dateCol))
  {
    if dateCol == "month" {
      MonthRereadFails(t, j);
    } else {
      YearRereadFails(t, j);
    }
  }

  /** The step assigns the columns 'month', 'year' and 'month_year', in that order. */
  lemma AddMonthYearColumns(t: Table, dateCol: string)
    requires WellFormed(t) && AddMonthYear(t, dateCol).Ok?
    ensures AddMonthYear(t, dateCol).value.columns ==
      AddLabel(AddLabel(AddLabel(t.columns, "month"), "year"), "month_year")
  {
  }

  /** A cell that holds a real calendar date (or is not a date at all). */
  predicate ValidCell(v: Value) {
    (v.Day? || v.Stamp?) ==> ValidDate(v.date)
  }

  /** Every reading of a cell succeeds exactly when the cell parses as a date. */
  lemma ReadParses(k: Reading, v: Value)
    ensures Read(k, v).Some? <==> ToDatetime(v).Some?
  {
  }

  /**
   * The step fails exactly when the column is missing, holds a cell that is
   * not a date, or is itself named 'month' or 'year' and holds a real date
   * (the re-read then meets the numbers just written).
   */
  lemma AddMonthYearOk(t: Table, dateCol: string)
    requires WellFormed(t)
    ensures AddMonthYear(t, dateCol).Ok? <==>
      && dateCol in t.columns
      && (forall i :: 0 <= i < |t.rows| ==> ToDatetime(t.rows[i][dateCol]).Some?)
      && (dateCol == "month" || dateCol == "year" ==> forall i :: 0 <= i < |t.rows| ==> t.rows[i][dateCol] == Null)
  {
    if dateCol in t.columns {
      if forall i :: 0 <= i < |t.rows| ==> ToDatetime(t.rows[i][dateCol]).Some? {
        if j :| 0 <= j < |t.rows| && t.rows[j][dateCol] != Null && (dateCol == "month" || dateCol == "year") {
          RereadFails(t, dateCol, j);
        } else {
          RereadSame(t, dateCol);
        }
      } else {
        var i :| 0 <= i < |t.rows| && ToDatetime(t.rows[i][dateCol]).None?;
        assert Read(AsMonth, t.rows[i][dateCol]).None?;
      }
    }
  }

  /** Row `i` of `df[c] = vs` is row `i` with cell `c` set. */
  lemma WithColumnRow(t: Table, c: string, vs: seq<Value>, i: int)
    requires WellFormed(t) && |vs| == |t.rows| && 0 <= i < |t.rows|
    ensures WithColumn(t, c, vs).rows[i] == t.rows[i][c := vs[i]]
  {
  }

  /** Row `i` after the step: the three new cells, everything else as before. */
  lemma AddMonthYearRow(t: Table, dateCol: string, i: int)
    requires WellFormed(t) && AddMonthYear(t, dateCol).Ok? && 0 <= i < |t.rows|
    ensures dateCol in t.columns
    ensures var d := t.rows[i][dateCol];
      && MonthOf(d).Some? && YearOf(d).Some? && MonthPeriodOf(d).Some?
      && AddMonthYear(t, dateCol).value.rows[i] ==
           t.rows[i]["month" := MonthOf(d).value]["year" := YearOf(d).value]["month_year" := MonthPeriodOf(d).value]
  {
    AddMonthYearOk(t, dateCol);
    RereadSame(t, dateCol);
    ReadParses(AsMonth, t.rows[i][dateCol]);
  }

  /**
   * After `create_month_year_cols`: 'month' lies in 1..12, 'year' is the
   * date's year, 'month_year' is the (year, month) of the same date, NaT
   * gives NaN in all three, and no other column changes.
   */
  lemma MonthYearEffect(t: Table, dateCol: string, i: int)
    requires WellFormed(t) && AddMonthYear(t, dateCol).Ok? && 0 <= i < |t.rows|
    ensures dateCol in t.columns
    ensures var d := t.rows[i][dateCol];
      var row := AddMonthYear(t, dateCol).value.rows[i];
      && (d.Day? || d.Stamp? || d == Null)
      && (d == Null ==> row["month"] == Null && row["year"] == Null && row["month_year"] == Null)
      && (d != Null ==>
            && row["month"] == Num(d.date.month as real)
            && row["year"] == Num(d.date.year as real)
            && row["month_year"] == Period(d.date.year, d.date.month)
            && (ValidCell(d) ==> 1.0 <= row["month"].x <= 12.0))
      && forall c :: c in t.columns && c != "month" && c != "year" && c != "month_year" ==>
           row[c] == t.rows[i][c]
  {
    AddMonthYearRow(t, dateCol, i);
  }

  /**
   * `create_month_year_cols(df, date_col)`: adds 'month', 'year' and
   * 'month_year' to the caller's frame, reading the date column before
   * each assignment; on an exception the columns already assigned stay.
   */
  method CreateMonthYearCols(df: Frame, dateCol: string) returns (err: Option<Error>)
    requires df.Valid()
    modifies df
    ensures df.Valid()
    ensures (df.AsTable(), err) == MonthYearSteps(old(df.AsTable()), dateCol)
  {
    if dateCol !in df.columns {
      return Some(KeyError(dateCol));
    }
    var months := ConvertCells(Column(df.AsTable(), dateCol), AsMonth, dateCol);
    if months.Err? {
      return Some(months.error);
    }
    df.SetColumn("month", months.value);
    var years := ConvertCells(Column(df.AsTable(), dateCol), AsYear, dateCol);
    if years.Err? {
      return Some(years.error);
    }
    df.SetColumn("year", years.value);
    var periods := ConvertCells(Column(df.AsTable(), dateCol), AsMonthPeriod, dateCol);
    if periods.Err? {
      return Some(periods.error);
    }
    df.SetColumn("month_year", periods.value);
    return None;
  }

  // ---------------------------------------------------------------------
  // clean_dataframe

  /**
   * `clean_dataframe(df, date_cols, groupby_cols, val_col, id_col, date_col,
   * sim_age=False)` as a value: the frame each step leaves behind, or the
   * first exception. (`id_col` only reaches steps that ignore it.)
   */
  function Clean(t: Table, dateCols: seq<string>, groupbyCols: seq<string>, valCol: string, dateCol: string)
    : (r: Result<Table>)
    requires WellFormed(t)
    ensures r.Ok? ==> WellFormed(r.value)
  {
    var normalized := NormalizeDates(t, dateCols);
    if normalized.1.Some? then Err(normalized.1.value)
    else
      var deduped :- RemoveDupsWithinDay(normalized.0, groupbyCols, valCol);
      var numbered :- AddNumVisits(deduped);
      AddMonthYear(numbered, dateCol)
  }

  /**
   * `clean_dataframe`: the caller's frame keeps the rewritten date columns
   * (`date_time_cols` works in place); the result is a new frame.
   */
  method CleanDataframe(df: Frame, dateCols: seq<string>, groupbyCols: seq<string>, valCol: string,
                        idCol: string, dateCol: string)
    returns (r: Result<Frame>)
    requires df.Valid()
    modifies df
    ensures df.Valid() && df.AsTable() == NormalizeDates(old(df.AsTable()), dateCols).0
    ensures r.Ok? <==> Clean(old(df.AsTable()), dateCols, groupbyCols, valCol, dateCol).Ok?
    ensures r.Ok? ==> fresh(r.value) && r.value.Valid()
    ensures r.Ok? ==> r.value.AsTable() == Clean(old(df.AsTable()), dateCols, groupbyCols, valCol, dateCol).value
    ensures r.Err? ==> r.error == Clean(old(df.AsTable()), dateCols, groupbyCols, valCol, dateCol).error
  {
    var err := DateTimeCols(df, dateCols);
    if err.Some? {
      return Err(err.value);
    }
    var deduped := RemoveDupsWithinDay(df.AsTable(), groupbyCols, valCol);
    if deduped.Err? {
      return Err(deduped.error);
    }
    var out := new Frame(deduped.value);
    err := CreateNumVisits(out, idCol);
    if err.Some? {
      return Err(err.value);
    }
    err := CreateMonthYearCols(out, dateCol);
    if err.Some? {
      return Err(err.value);
    }
    return Ok(out);
  }

  /**
   * The cleaned frame's columns: the group key, the value column, and the
   * four added ones ('num_visit', 'month', 'year', 'month_year').
   */
  lemma CleanedColumns(t: Table, dateCols: seq<string>, groupbyCols: seq<string>, valCol: string, dateCol: string)
    requires WellFormed(t) && Clean(t, dateCols, groupbyCols, valCol, dateCol).Ok?
    ensures forall x :: x in Clean(t, dateCols, groupbyCols, valCol, dateCol).value.columns <==>
      x in groupbyCols || x == valCol || x in ["num_visit", "month", "year", "month_year"]
  {
    var g := RemoveDupsWithinDay(NormalizeDates(t, dateCols).0, groupbyCols, valCol).value;
    var c3 := AddNumVisits(g).value;
    AddMonthYearColumns(c3, dateCol);
    var l1 := AddLabel(c3.columns, "month");
    var l2 := AddLabel(l1, "year");
    forall x
      ensures x in AddLabel(l2, "month_year") <==>
        x in groupbyCols || x == valCol || x in ["num_visit", "month", "year", "month_year"]
    {
      assert x in g.columns <==> x in groupbyCols || x == valCol;
      assert x in c3.columns <==> x in g.columns || x == "num_visit";
      assert x in l1 <==> x in c3.columns || x == "month";
      assert x in l2 <==> x in l1 || x == "year";
    }
  }

  /** The column roles the pipeline runs with. */
  const DateCols: seq<string> := ["date", "patient_date_created"]
  const GroupbyCols: seq<string> := ["date", "patient_id", "patient_date_created"]

  /** With key [date, patient, date] ordering keys orders the dates. */
  lemma KeyOrderIsDateOrder(a: Value, p: Value, b: Value)
    requires KeyLt([a, p, a], [b, p, b])
    ensures ValueLt(a, b)
  {
    ValueLtIrreflexive(p);
    var e: Key := [];
    assert !KeyLt(e, e);
    assert [a, p, a][1..] == [p, a] && [b, p, b][1..] == [p, b];
    assert [p, a][1..] == [a] && [p, b][1..] == [b];
    assert [a][1..] == e && [b][1..] == e;
    assert KeyLt([a], [b]) ==> ValueLt(a, b);
    assert KeyLt([p, a], [p, b]) ==> ValueLt(a, b);
  }

  /**
   * When both 'date' and 'patient_date_created' are listed, both end up
   * holding the original 'date' as a calendar date (or NaT).
   */
  lemma DateColsAgree(t: Table, cols: seq<string>)
    requires WellFormed(t) && NormalizeDates(t, cols).1.None?
    requires "date" in cols && "patient_date_created" in cols
    ensures var n := NormalizeDates(t, cols).0;
      && n.columns == t.columns
      && "date" in n.columns && "patient_date_created" in n.columns
      && forall m :: 0 <= m < |n.rows| ==>
           && n.rows[m]["patient_date_created"] == n.rows[m]["date"]
           && (n.rows[m]["date"] == Null || n.rows[m]["date"].Day?)
  {
    var n := NormalizeDates(t, cols).0;
    NormalizeDatesEffect(t, cols);
    forall m | 0 <= m < |n.rows|
      ensures n.rows[m]["patient_date_created"] == n.rows[m]["date"]
      ensures n.rows[m]["date"] == Null || n.rows[m]["date"].Day?
    {
      var d := CalendarDate(t.rows[m]["date"]).value;
      assert n.rows[m]["date"] == d && n.rows[m]["patient_date_created"] == d;
    }
  }

  /** A grouped row of such a table: its key is (d, p, d) with d a calendar date. */
  lemma GroupedRowAt(n: Table, g: Table, groupbyCols: seq<string>, i: int)
    requires groupbyCols == GroupbyCols
    requires WellFormed(n) && "date" in n.columns && "patient_date_created" in n.columns
    requires HasColumns(n.rows, groupbyCols)
    requires forall m :: 0 <= m < |n.rows| ==>
      && n.rows[m]["patient_date_created"] == n.rows[m]["date"]
      && (n.rows[m]["date"] == Null || n.rows[m]["date"].Day?)
    requires HasColumns(g.rows, groupbyCols) && 0 <= i < |g.rows|
    requires !HasNull(KeyOf(g.rows[i], groupbyCols))
    requires exists j :: 0 <= j < |n.rows| && KeyOf(n.rows[j], groupbyCols) == KeyOf(g.rows[i], groupbyCols)
    ensures g.rows[i]["date"].Day?
    ensures g.rows[i]["patient_date_created"] == g.rows[i]["date"]
    ensures g.rows[i]["patient_id"] != Null
  {
    var k := KeyOf(g.rows[i], groupbyCols);
    var m :| 0 <= m < |n.rows| && KeyOf(n.rows[m], groupbyCols) == k;
    var r := n.rows[m];
    assert k[0] in k && k[1] in k;
    assert k[0] == r["date"] && k[2] == r["patient_date_created"];
  }

  /** Two grouped rows of one patient in key order are in date order. */
  lemma GroupedPairOrder(g: Table, groupbyCols: seq<string>, i: int, j: int)
    requires groupbyCols == GroupbyCols
    requires HasColumns(g.rows, groupbyCols) && StrictlySorted(KeysOf(g.rows, groupbyCols))
    requires 0 <= i < j < |g.rows|
    requires g.rows[i]["date"].Day? && g.rows[i]["patient_date_created"] == g.rows[i]["date"]
    requires g.rows[j]["date"].Day? && g.rows[j]["patient_date_created"] == g.rows[j]["date"]
    requires g.rows[i]["patient_id"] == g.rows[j]["patient_id"]
    ensures DateLt(g.rows[i]["date"].date, g.rows[j]["date"].date)
  {
    var ks := KeysOf(g.rows, groupbyCols);
    assert KeyLt(ks[i], ks[j]);
    var a, p, b := g.rows[i]["date"], g.rows[i]["patient_id"], g.rows[j]["date"];
    assert KeyOf(g.rows[i], groupbyCols) == [a, p, a];
    assert KeyOf(g.rows[j], groupbyCols) == [b, p, b];
    KeyOrderIsDateOrder(a, p, b);
  }

  /** Every row has a calendar date, a matching creation date and a patient. */
  predicate KeyCellsClean(t: Table)
    requires WellFormed(t)
    requires "date" in t.columns && "patient_id" in t.columns && "patient_date_created" in t.columns
  {
    forall i :: 0 <= i < |t.rows| ==>
      && t.rows[i]["date"].Day?
      && t.rows[i]["patient_date_created"] == t.rows[i]["date"]
      && t.rows[i]["patient_id"] != Null
  }

  /** Down the rows, each patient's dates strictly increase. */
  predicate DatesIncreasePerPatient(t: Table)
    requires WellFormed(t) && "date" in t.columns && "patient_id" in t.columns
  {
    forall i, j :: 0 <= i < j < |t.rows| && t.rows[i]["patient_id"] == t.rows[j]["patient_id"] ==>
      && t.rows[i]["date"].Day? && t.rows[j]["date"].Day?
      && DateLt(t.rows[i]["date"].date, t.rows[j]["date"].date)
  }

  /** Grouped rows in strictly increasing key order are in date order per patient. */
  lemma GroupedOrder(g: Table, groupbyCols: seq<string>)
    requires groupbyCols == GroupbyCols
    requires WellFormed(g) && g.columns == groupbyCols + ["score"]
    requires KeyCellsClean(g)
    requires HasColumns(g.rows, groupbyCols) && StrictlySorted(KeysOf(g.rows, groupbyCols))
    ensures DatesIncreasePerPatient(g)
  {
    forall i, j | 0 <= i < j < |g.rows| && g.rows[i]["patient_id"] == g.rows[j]["patient_id"]
      ensures DateLt(g.rows[i]["date"].date, g.rows[j]["date"].date)
    {
      GroupedPairOrder(g, groupbyCols, i, j);
    }
  }

  /** Grouping such a table leaves no key cell missing and both date columns agreeing. */
  lemma DedupedKeyCells(n: Table, groupbyCols: seq<string>)
    requires groupbyCols == GroupbyCols
    requires WellFormed(n) && "date" in n.columns && "patient_date_created" in n.columns
    requires forall m :: 0 <= m < |n.rows| ==>
      && n.rows[m]["patient_date_created"] == n.rows[m]["date"]
      && (n.rows[m]["date"] == Null || n.rows[m]["date"].Day?)
    requires RemoveDupsWithinDay(n, groupbyCols, "score").Ok?
    ensures var g := RemoveDupsWithinDay(n, groupbyCols, "score").value;
      && g.columns == GroupbyCols + ["score"]
      && KeyCellsClean(g)
  {
    var g := RemoveDupsWithinDay(n, groupbyCols, "score").value;
    GroupAggOrigins(n, groupbyCols, "score", Mean);
    assert groupbyCols[0] == "date" && groupbyCols[1] == "patient_id" && groupbyCols[2] == "patient_date_created";
    forall i | 0 <= i < |g.rows|
      ensures g.rows[i]["date"].Day?
      ensures g.rows[i]["patient_date_created"] == g.rows[i]["date"]
      ensures g.rows[i]["patient_id"] != Null
    {
      GroupedRowAt(n, g, groupbyCols, i);
    }
  }

  /**
   * Grouping such a table by (date, patient, date created): no key cell is
   * missing, both date columns agree, and each patient's rows come in
   * strictly increasing date order.
   */
  lemma DedupedRows(n: Table, groupbyCols: seq<string>)
    requires groupbyCols == GroupbyCols
    requires WellFormed(n) && "date" in n.columns && "patient_date_created" in n.columns
    requires forall m :: 0 <= m < |n.rows| ==>
      && n.rows[m]["patient_date_created"] == n.rows[m]["date"]
      && (n.rows[m]["date"] == Null || n.rows[m]["date"].Day?)
    requires RemoveDupsWithinDay(n, groupbyCols, "score").Ok?
    ensures var g := RemoveDupsWithinDay(n, groupbyCols, "score").value;
      && g.columns == GroupbyCols + ["score"]
      && KeyCellsClean(g)
      && DatesIncreasePerPatient(g)
  {
    var g := RemoveDupsWithinDay(n, groupbyCols, "score").value;
    DedupedKeyCells(n, groupbyCols);
    GroupAggOrigins(n, groupbyCols, "score", Mean);
    GroupedOrder(g, groupbyCols);
  }

  /** 'num_visit' holds the running count of 'patient_id', as `create_num_visits` sets it. */
  predicate VisitsCounted(t: Table)
    requires WellFormed(t) && "patient_id" in t.columns && "num_visit" in t.columns
  {
    forall i :: 0 <= i < |t.rows| ==> t.rows[i]["num_visit"] == VisitNumbers(Column(t, "patient_id"))[i]
  }

  /** Row `i` after numbering: as before, with 'num_visit' the running count. */
  lemma AddNumVisitsRow(g: Table, i: int)
    requires WellFormed(g) && AddNumVisits(g).Ok? && 0 <= i < |g.rows|
    ensures "patient_id" in g.columns
    ensures AddNumVisits(g).value.rows[i] == g.rows[i]["num_visit" := VisitNumbers(Column(g, "patient_id"))[i]]
  {
  }

  /** The cells a row keeps when 'num_visit', 'month', 'year' and 'month_year' are written into it. */
  lemma FourWritesKeep(r0: Row, n: Value, m: Value, y: Value, p: Value)
    ensures var r := r0["num_visit" := n]["month" := m]["year" := y]["month_year" := p];
      && (forall x :: x in r0 && x != "num_visit" && x != "month" && x != "year" && x != "month_year" ==>
            x in r && r[x] == r0[x])
      && "num_visit" in r && r["num_visit"] == n
  {
  }

  /** Row `i` after the last two steps: key cells as before, 'num_visit' the running count. */
  lemma NumberedRowAt(g: Table, i: int)
    requires WellFormed(g) && AddNumVisits(g).Ok? && AddMonthYear(AddNumVisits(g).value, "date").Ok?
    requires 0 <= i < |g.rows|
    ensures "patient_id" in g.columns
    ensures var c := AddMonthYear(AddNumVisits(g).value, "date").value;
      && |c.rows| == |g.rows|
      && (forall x :: x in g.columns && x != "num_visit" && x != "month" && x != "year" && x != "month_year" ==>
            x in c.rows[i] && c.rows[i][x] == g.rows[i][x])
      && "num_visit" in c.rows[i]
      && c.rows[i]["num_visit"] == VisitNumbers(Column(g, "patient_id"))[i]
    ensures var c := AddMonthYear(AddNumVisits(g).value, "date").value;
      forall x :: x in ["date", "patient_date_created", "patient_id"] && x in g.columns ==>
        x in c.rows[i] && c.rows[i][x] == g.rows[i][x]
  {
    var c3 := AddNumVisits(g).value;
    AddNumVisitsRow(g, i);
    AddMonthYearRow(c3, "date", i);
    var n := VisitNumbers(Column(g, "patient_id"))[i];
    var d := c3.rows[i]["date"];
    FourWritesKeep(g.rows[i], n, MonthOf(d).value, YearOf(d).value, MonthPeriodOf(d).value);
  }

  /** The columns of the cleaned table: the grouped ones and the four added. */
  lemma NumberedColumns(g: Table)
    requires WellFormed(g) && AddNumVisits(g).Ok? && AddMonthYear(AddNumVisits(g).value, "date").Ok?
    ensures forall x :: x in AddMonthYear(AddNumVisits(g).value, "date").value.columns <==>
      x in g.columns || x in ["num_visit", "month", "year", "month_year"]
  {
    var c3 := AddNumVisits(g).value;
    AddMonthYearColumns(c3, "date");
    var l1 := AddLabel(c3.columns, "month");
    var l2 := AddLabel(l1, "year");
    forall x
      ensures x in AddLabel(l2, "month_year") <==> x in g.columns || x in ["num_visit", "month", "year", "month_year"]
    {
      assert x in c3.columns <==> x in g.columns || x == "num_visit";
      assert x in l1 <==> x in c3.columns || x == "month";
      assert x in l2 <==> x in l1 || x == "year";
    }
  }

  /** A table whose key cells are those of `g` row by row, and whose 'num_visit' counts `g`'s patients. */
  lemma CarriedOver(g: Table, c: Table)
    requires WellFormed(g) && WellFormed(c) && |c.rows| == |g.rows|
    requires "date" in g.columns && "patient_id" in g.columns && "patient_date_created" in g.columns
    requires "date" in c.columns && "patient_id" in c.columns && "patient_date_created" in c.columns
    requires "num_visit" in c.columns
    requires forall i :: 0 <= i < |c.rows| ==>
      && c.rows[i]["date"] == g.rows[i]["date"]
      && c.rows[i]["patient_date_created"] == g.rows[i]["patient_date_created"]
      && c.rows[i]["patient_id"] == g.rows[i]["patient_id"]
      && c.rows[i]["num_visit"] == VisitNumbers(Column(g, "patient_id"))[i]
    requires KeyCellsClean(g) && DatesIncreasePerPatient(g)
    ensures KeyCellsClean(c) && DatesIncreasePerPatient(c) && VisitsCounted(c)
  {
    assert Column(c, "patient_id") == Column(g, "patient_id");
  }

  /** Row by row, the last two steps keep the key cells and add the running count. */
  lemma NumberedFacts(g: Table)
    requires WellFormed(g) && AddNumVisits(g).Ok? && AddMonthYear(AddNumVisits(g).value, "date").Ok?
    requires "date" in g.columns && "patient_date_created" in g.columns
    ensures var c := AddMonthYear(AddNumVisits(g).value, "date").value;
      && "patient_id" in g.columns
      && "date" in c.columns && "patient_id" in c.columns && "patient_date_created" in c.columns
      && "num_visit" in c.columns && (forall x :: x in g.columns ==> x in c.columns)
      && |c.rows| == |g.rows|
      && forall i :: 0 <= i < |c.rows| ==>
           && (forall x :: x in ["date", "patient_date_created", "patient_id"] ==>
                 x in c.rows[i] && c.rows[i][x] == g.rows[i][x])
           && "num_visit" in c.rows[i]
           && c.rows[i]["num_visit"] == VisitNumbers(Column(g, "patient_id"))[i]
  {
    var c := AddMonthYear(AddNumVisits(g).value, "date").value;
    NumberedColumns(g);
    assert "patient_id" in g.columns;
    assert "date" in c.columns && "patient_id" in c.columns && "patient_date_created" in c.columns;
    forall i | 0 <= i < |c.rows|
      ensures forall x :: x in ["date", "patient_date_created", "patient_id"] ==>
        x in c.rows[i] && c.rows[i][x] == g.rows[i][x]
      ensures "num_visit" in c.rows[i]
      ensures c.rows[i]["num_visit"] == VisitNumbers(Column(g, "patient_id"))[i]
    {
      NumberedRowAt(g, i);
    }
  }

  /** The last two steps keep the key cells and number each patient's visits. */
  lemma NumberedRows(g: Table)
    requires WellFormed(g) && g.columns == GroupbyCols + ["score"]
    requires KeyCellsClean(g) && DatesIncreasePerPatient(g)
    requires AddNumVisits(g).Ok? && AddMonthYear(AddNumVisits(g).value, "date").Ok?
    ensures var c := AddMonthYear(AddNumVisits(g).value, "date").value;
      && "date" in c.columns && "patient_id" in c.columns && "patient_date_created" in c.columns
      && "score" in c.columns && "num_visit" in c.columns
      && KeyCellsClean(c) && DatesIncreasePerPatient(c) && VisitsCounted(c)
  {
    var c := AddMonthYear(AddNumVisits(g).value, "date").value;
    assert "score" in g.columns;
    NumberedFacts(g);
    forall i | 0 <= i < |c.rows|
      ensures c.rows[i]["date"] == g.rows[i]["date"]
      ensures c.rows[i]["patient_date_created"] == g.rows[i]["patient_date_created"]
      ensures c.rows[i]["patient_id"] == g.rows[i]["patient_id"]
    {
      assert "date" in ["date", "patient_date_created", "patient_id"];
      assert "patient_date_created" in ["date", "patient_date_created", "patient_id"];
      assert "patient_id" in ["date", "patient_date_created", "patient_id"];
    }
    CarriedOver(g, c);
  }

  /**
   * The shape of a cleaned table with the pipeline's column roles: the
   * grouped columns and the four added ones; every row has a calendar date
   * (both date columns agree) and a patient; each patient's dates strictly
   * increase down the rows; 'num_visit' is the running count of the
   * patient's rows.
   */
  ghost predicate PipelineCleaned(c: Table) {
    && WellFormed(c)
    && "date" in c.columns && "patient_id" in c.columns && "patient_date_created" in c.columns
    && "score" in c.columns && "num_visit" in c.columns
    && KeyCellsClean(c) && DatesIncreasePerPatient(c) && VisitsCounted(c)
  }

  /** `clean_dataframe` with the pipeline's column roles yields a table of that shape. */
  lemma CleanedTable(t: Table, dateCols: seq<string>, groupbyCols: seq<string>)
    requires groupbyCols == GroupbyCols
    requires "date" in dateCols && "patient_date_created" in dateCols
    requires WellFormed(t) && Clean(t, dateCols, groupbyCols, "score", "date").Ok?
    ensures PipelineCleaned(Clean(t, dateCols, groupbyCols, "score", "date").value)
  {
    var n := NormalizeDates(t, dateCols).0;
    var g := RemoveDupsWithinDay(n, groupbyCols, "score").value;
    assert Clean(t, dateCols, groupbyCols, "score", "date") == AddMonthYear(AddNumVisits(g).value, "date");
    assert g.columns == GroupbyCols + ["score"] && KeyCellsClean(g) && DatesIncreasePerPatient(g) by {
      DateColsAgree(t, dateCols);
      DedupedRows(n, groupbyCols);
    }
    NumberedRows(g);
  }

  /** In a cleaned table, down one patient's rows both the visit number and the date strictly increase. */
  lemma CleanedVisitOrder(c: Table, i: int, j: int)
    requires WellFormed(c) && "patient_id" in c.columns && "num_visit" in c.columns && "date" in c.columns
    requires VisitsCounted(c) && DatesIncreasePerPatient(c)
    requires 0 <= i < j < |c.rows| && c.rows[i]["patient_id"] == c.rows[j]["patient_id"] != Null
    ensures ValueLt(c.rows[i]["num_visit"], c.rows[j]["num_visit"])
    ensures ValueLt(c.rows[i]["date"], c.rows[j]["date"])
  {
    var ids := Column(c, "patient_id");
    assert ids[i] == ids[j];
    VisitNumberAt(ids, i);
    VisitNumberAt(ids, j);
    VisitNumbersIncrease(ids, i, j);
  }

  /** In a cleaned table, a patient with k rows numbers each of them with some 1 <= n <= k... */
  lemma CleanedVisitInRange(c: Table, i: int)
    requires WellFormed(c) && "patient_id" in c.columns && "num_visit" in c.columns
    requires VisitsCounted(c) && 0 <= i < |c.rows| && c.rows[i]["patient_id"] != Null
    ensures var ids := Column(c, "patient_id");
      exists k :: 1 <= k <= multiset(ids)[ids[i]] && c.rows[i]["num_visit"] == Visit(k)
  {
    VisitNumberAt(Column(c, "patient_id"), i);
  }

  /** ... and every n in 1..k numbers one of them. */
  lemma CleanedVisitCovered(c: Table, p: Value, k: int)
    requires WellFormed(c) && "patient_id" in c.columns && "num_visit" in c.columns
    requires VisitsCounted(c) && p != Null
    requires 1 <= k <= multiset(Column(c, "patient_id"))[p]
    ensures exists i :: 0 <= i < |c.rows| && c.rows[i]["patient_id"] == p && c.rows[i]["num_visit"] == Visit(k)
  {
    var ids := Column(c, "patient_id");
    VisitNumbersCover(ids, p, k);
    var i :| 0 <= i < |ids| && ids[i] == p && VisitNumbers(ids)[i] == Visit(k);
    assert c.rows[i]["patient_id"] == p;
  }
}
