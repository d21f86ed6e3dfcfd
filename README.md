# Clinical-score pipeline, modelled in Dafny

This project models the core of a small pandas pipeline over repeated
clinical-score readings. Each reading has a `patient_id`, a `date`, a `score`
and a `patient_date_created`. The model has three parts:

- **Cleaning** (`src/data_pipeline.py`):
  - `date_time_cols`: normalises dates;
  - `remove_dups_within_day`: collapses same-day duplicates to their mean;
  - `create_num_visits`: numbers each patient's visits;
  - `create_month_year_cols`: adds month/year buckets;
  - `clean_dataframe`: chains the four steps.
- **Aggregation** (`src/data_pipeline.py`):
  - `create_pivot` and `get_diffs`: the visit-by-patient pivot and its first differences;
  - `merge_scores_and_diffs`: the left join;
  - `agg_into_series`: the group-by reduction.
- **The pipeline's diff table** (`pipeline.dfy`): on a table numbered by
  `create_num_visits`, `get_diffs` with the arguments of
  `src/data_pipeline.py:193-194` pairs each patient's visit n − 1 with visit n.
- **Per-patient summary** (`src/Patient.py`): the `Patient` class with
  `check_valid_id`, `get_history`, `get_patient_stats` and the validity
  short-circuit in its constructor.

## How tables are modelled

A data frame is a `Table`: a list of column labels and a list of rows. Each
row is a map from label to cell (`tables.dfy`). A cell is one of:

- `Num(real)`;
- `Day(date)`, a calendar date;
- `Stamp(date, seconds)`, a parsed timestamp;
- `Period(year, month)`;
- `Null`, which stands for both NaN and NaT.

Cells are sorted the way pandas sorts them, with missing values last
(`values.dfy`). Group keys are lists of cells, ordered lexicographically
(`keys.dfy`).

A pandas exception becomes an `Err` of the `Result` datatype:

- `KeyError` for a missing column;
- `NoGroupKeys` for a `groupby` of a non-empty frame on no column;
- `DateParseError` for a cell that is not a date;
- `NonNumeric` for the mean of a non-numeric column;
- `DuplicateEntries` for the pivot of a repeated pair;
- `ItemError` for `.item()` on anything but one cell;
- `ColumnConflict` and `LengthMismatch` for misuse of column labels.

The steps that assign columns of the caller's frame (`df[col] = ...`) are
methods on the class `Cleaner.Frame`. The steps that build a new frame are
functions.

### Behaviour the model keeps as the code has it

- `date_time_cols` (lines 19-21) overwrites every listed column with the
  calendar date of the literal column `'date'`, not with its own value. So
  after cleaning, `patient_date_created` always equals `date`
  (`Cleaner.DateColsAgree`).
- `create_num_visits` groups by the literal `'patient_id'` and ignores
  `id_col` (line 48). `Cleaner.AddNumVisits` fails with a `KeyError` on
  `'patient_id'` whatever `id_col` is.
- Visit numbers follow row order. They are in date order only because the
  preceding `groupby` sorts by a key that starts with `date`
  (`Cleaner.CleanedTable`, `Cleaner.CleanedVisitOrder`).
- `get_diffs` unstacks the differenced pivot (line 138), so the outer level
  of the result is the pivot's columns. The result has the columns
  (`columns`, `index`, `'delta_score'`), which is (patient, visit, delta)
  with the pipeline's arguments.
- `get_patient_stats` reads `initial_score` with `.item()` on the history
  rows whose `num_visit` is 1 (`src/Patient.py:53`). This raises unless
  exactly one such row exists, so a patient with no first-visit row, or with
  two, has no summary (`Patients.InitialScoreItem`, `Patients.SummaryStats`).
- `get_patient_stats` takes `final_score` from a descending sort by date
  (`src/Patient.py:54`), which still puts NaT last. A NaT-dated row gives the
  final score only when every date of the patient is NaT
  (`Patients.FinalIsLatest`, `Patients.FinalIgnoresLateNaT`).
- `create_month_year_cols` reads `df[date_col]` again before each of its
  three assignments (lines 61-63). A date column named `'month'` or
  `'year'` is therefore read back after it has been overwritten
  (`Cleaner.MonthYearSteps`, `Cleaner.AddMonthYearOk`).

## Model

| member | source | states |
|---|---|---|
| Cleaner.Frame.SetColumn | src/data_pipeline.py:20-21 | `df[c] = vs` replaces column `c`, or appends it when new; the frame stays well formed and nothing else changes |
| Cleaner.ConvertCells | src/data_pipeline.py:20-21 | converting a column succeeds iff every cell can be read; each result cell is the reading of the input cell; failure names the column |
| Cleaner.CalendarDate | src/data_pipeline.py:21 | the calendar date exists exactly when the cell parses; a non-missing result is the cell's own date with the time of day dropped |
| Cleaner.CalendarDateIdempotent | src/data_pipeline.py:21 | taking the calendar date of a calendar date changes nothing |
| Cleaner.CalendarDateOfParsed | src/data_pipeline.py:20-21 | parsing a cell first and then taking its calendar date gives the calendar date of the cell |
| Cleaner.DateTimeCols | src/data_pipeline.py:6-22 | the loop leaves the frame, and the first error, that the column-by-column definition `NormalizeDates` gives |
| Cleaner.NormalizeDatesStops | src/data_pipeline.py:19-21 | once a column raises, the later columns are not touched |
| Cleaner.NormalizeStepEffect | src/data_pipeline.py:20-21 | one successful pass sets the column to the calendar date of each row's `'date'` cell and leaves all other columns as they were |
| Cleaner.NormalizeDatesEffect | src/data_pipeline.py:19-22 | after a successful run every listed column holds the calendar date of the original `'date'` column; unlisted columns, the labels and the row count are unchanged |
| Cleaner.DateColsAgree | src/data_pipeline.py:19-21 | with `date` and `patient_date_created` both listed, the two columns agree in every row and hold a calendar date or NaT |
| Cleaner.RemoveDupsWithinDay | src/data_pipeline.py:36 | the de-duplicated frame has exactly the key columns then the value column, and every other column is dropped |
| Grouping.GroupKeys | src/data_pipeline.py:36 | a key takes part in grouping iff it holds no NaN and some input row has it |
| Grouping.GroupValues | src/data_pipeline.py:36 | the values of a group are exactly the value cells of the input rows with that key |
| Grouping.GroupValuesCount | src/data_pipeline.py:36 | each value cell occurs in its group's values once per input row with that key and that cell |
| Grouping.GroupValuesAppend | src/data_pipeline.py:36 | grouping two runs of rows collects the first run's values, then the second's |
| Grouping.MaxOf | src/data_pipeline.py:173 | `max` skips NaN: it is NaN iff every cell is NaN, and otherwise it is one of the cells and no other cell is larger |
| Grouping.MeanWithinBounds | src/data_pipeline.py:36 | the mean of a group lies between any lower and upper bound of its numeric cells |
| Grouping.GroupAgg | src/data_pipeline.py:36 | grouping succeeds iff some key column is given (or the frame is empty), all named columns exist, the key columns are distinct and exclude the value column, and `mean` gets a numeric column; the result has the key columns then the value column |
| Keys.SortedDistinct | src/data_pipeline.py:36 | the group keys come out strictly increasing, each distinct key exactly once |
| Keys.StrictlySortedUnique | src/data_pipeline.py:36 | two strictly sorted key lists with the same members are equal, so the grouped order is determined |
| Grouping.GroupAggKeys | src/data_pipeline.py:36 | the grouped rows carry, in order, the sorted distinct NaN-free keys of the input |
| Grouping.GroupAggRows | src/data_pipeline.py:36 | the grouped keys are strictly increasing, and a key appears iff it is NaN-free and occurs in the input |
| Grouping.GroupAggValues | src/data_pipeline.py:36 | each grouped row's value is the `max` or `mean` of the value cells of the input rows with its key |
| Grouping.GroupAggOrigins | src/data_pipeline.py:36 | each grouped row's key is NaN-free and taken from some input row |
| Cleaner.KeyOrderIsDateOrder | src/data_pipeline.py:178 | with the key (date, patient_id, date), keys of one patient are ordered by date |
| Cleaner.GroupedRowAt | src/data_pipeline.py:36 | a grouped row of a date-normalised frame has a calendar date, equal date columns and a patient id |
| Cleaner.GroupedPairOrder | src/data_pipeline.py:36 | two grouped rows of one patient, in key order, are in strictly increasing date order |
| Cleaner.GroupedOrder | src/data_pipeline.py:36 | down the grouped rows, each patient's dates strictly increase |
| Cleaner.DedupedKeyCells | src/data_pipeline.py:36 | after de-duplication no key cell is missing and the two date columns agree |
| Cleaner.DedupedRows | src/data_pipeline.py:36 | after de-duplication by (date, patient_id, patient_date_created), each patient's rows come in strictly increasing date order, so no (date, patient) pair repeats |
| Cleaner.VisitNumberAt | src/data_pipeline.py:48 | a row's visit number is k when it is the k-th row of its patient so far, and 1 <= k <= the patient's row count |
| Cleaner.VisitNumbersPrefix | src/data_pipeline.py:48 | a row's visit number depends only on the rows above it |
| Cleaner.CountGrows | src/data_pipeline.py:48 | a later row of the same patient has a larger running count |
| Cleaner.VisitNumbersIncrease | src/data_pipeline.py:48 | down one patient's rows the visit numbers strictly increase |
| Cleaner.VisitNumbersCover | src/data_pipeline.py:48 | every number from 1 to a patient's row count is the visit number of one of that patient's rows |
| Cleaner.VisitNumbersContiguous | src/data_pipeline.py:48 | one patient's visit numbers are exactly 1..k, in row order, without repeats |
| Cleaner.AddNumVisits | src/data_pipeline.py:48 | numbering succeeds iff the literal column `'patient_id'` exists, and otherwise fails with `KeyError('patient_id')`; it adds or replaces `'num_visit'` |
| Cleaner.AddNumVisitsRow | src/data_pipeline.py:48 | each row is kept, with `'num_visit'` set to its running count |
| Cleaner.CreateNumVisits | src/data_pipeline.py:38-49 | the caller's frame gets the numbered table, or stays unchanged and the error is the one `AddNumVisits` gives |
| Cleaner.AssignFrom | src/data_pipeline.py:61-63 | one assignment succeeds iff every cell of the date column can be read; each row gains the reading of its own date cell under the target label; failure names the date column |
| Cleaner.MonthYearSteps | src/data_pipeline.py:61-63 | the three assignments, each reading the date column afresh; the error, if any, is `KeyError` or a date-parse error on the date column |
| Cleaner.AddMonthYear | src/data_pipeline.py:61-63 | the bucketed frame is well formed and keeps the row count; the only errors are `KeyError` and a date-parse error on the date column |
| Cleaner.NumbersAreNotDates | src/data_pipeline.py:61-62 | a month or year written back into the date column reads as a date only when the original cell was NaT |
| Cleaner.RereadSame | src/data_pipeline.py:61-63 | when every cell parses, and a date column called `'month'` or `'year'` holds only NaT, no read fails and each row gains its original date's month, year and period |
| Cleaner.RereadFails | src/data_pipeline.py:61-63 | a date column called `'month'` or `'year'` that holds a real date fails on the second or third read |
| Cleaner.AddMonthYearColumns | src/data_pipeline.py:61-63 | the labels `'month'`, `'year'` and `'month_year'` are assigned, in that order |
| Cleaner.AddMonthYearOk | src/data_pipeline.py:61-63 | the step fails exactly when the date column is missing, holds a cell that is not a date, or is called `'month'` or `'year'` and holds a real date |
| Cleaner.AddMonthYearRow | src/data_pipeline.py:61-63 | each row gains its date's month, year and period, and is otherwise unchanged |
| Cleaner.MonthYearEffect | src/data_pipeline.py:61-63 | `month` is the date's month (in 1..12 for a real date), `year` is its year, `month_year` is (year, month); NaT gives NaN in all three; no other column changes |
| Cleaner.CreateMonthYearCols | src/data_pipeline.py:51-64 | the caller's frame and the error are those of `MonthYearSteps`: the three new columns, or on an error the columns assigned before the failing read |
| Cleaner.Clean | src/data_pipeline.py:100-103 | the cleaned table, when the chain succeeds, is well formed |
| Cleaner.CleanDataframe | src/data_pipeline.py:84-106 | the caller's frame keeps the rewritten date columns; the result is a new frame holding the chained steps' output, or exactly the error `Clean` gives |
| Cleaner.CleanedColumns | src/data_pipeline.py:100-103 | the cleaned columns are the key columns, the value column, `num_visit`, `month`, `year` and `month_year` |
| Cleaner.NumberedRowAt | src/data_pipeline.py:102-103 | after the last two steps a row keeps every earlier cell and carries its running count |
| Cleaner.NumberedColumns | src/data_pipeline.py:102-103 | the last two steps add exactly the four columns |
| Cleaner.CarriedOver | src/data_pipeline.py:102-103 | keeping the key cells row by row keeps the date order per patient and makes `num_visit` the running count |
| Cleaner.NumberedFacts | src/data_pipeline.py:102-103 | row by row the last two steps keep date, creation date and patient, and set the running count |
| Cleaner.NumberedRows | src/data_pipeline.py:102-103 | after numbering and bucketing, key cells are clean, dates increase per patient and visits are counted |
| Cleaner.CleanedTable | src/data_pipeline.py:100-103 | with the pipeline's column roles the cleaned table has a calendar date and a patient in every row, strictly increasing dates per patient, and `num_visit` as the running count |
| Cleaner.CleanedVisitOrder | src/data_pipeline.py:48 | in the cleaned table, down one patient's rows both `num_visit` and `date` strictly increase |
| Cleaner.CleanedVisitInRange | src/data_pipeline.py:48 | in the cleaned table each row's `num_visit` is some k with 1 <= k <= the patient's row count |
| Cleaner.CleanedVisitCovered | src/data_pipeline.py:48 | in the cleaned table every k in 1..(patient's row count) is the `num_visit` of one of that patient's rows |
| Aggregator.Labels | src/data_pipeline.py:121 | a pivot axis holds the distinct cells of its column, strictly increasing |
| Aggregator.ColumnLabels | src/data_pipeline.py:121 | the labels of an axis are strictly increasing and are exactly the cells found in that column |
| Aggregator.CellAtFacts | src/data_pipeline.py:121 | a pivot cell is NaN when no row has its labels, and otherwise the value of a row that has them |
| Aggregator.PivotCells | src/data_pipeline.py:121 | the pivot grid has one cell per (row label, column label) |
| Aggregator.CreatePivot | src/data_pipeline.py:109-121 | the pivot succeeds iff the three columns exist, `index` and `columns` differ, and no (index, columns) pair repeats; otherwise it fails with `KeyError`, a label clash or duplicate entries; both axes are sorted and hold exactly the labels present |
| Aggregator.PivotCellOfRow | src/data_pipeline.py:121 | the cell at a row's labels holds that row's value |
| Aggregator.PivotCellEmpty | src/data_pipeline.py:121 | a position no row occupies holds NaN |
| Aggregator.PivotHoldsRow | src/data_pipeline.py:121 | every input row appears in the pivot at its own labels |
| Aggregator.CreatePivotIsPivotOf | src/data_pipeline.py:121 | the computed pivot meets the label-by-label description of a pivot |
| Aggregator.CellAtRow | src/data_pipeline.py:121 | with unique pairs, the cell at a row's own position is that row's value |
| Aggregator.DiffRecovers | src/data_pipeline.py:137 | after `diff()` the first row is NaN; below it a cell is a number iff it and the one above were numbers, and the cell above plus the difference gives back the original cell |
| Aggregator.UnstackSorted | src/data_pipeline.py:138 | unstacking sorted axes yields entries ordered by column label, then row label |
| Aggregator.UnstackMembers | src/data_pipeline.py:138 | the unstacked entries are exactly the pivot's cells |
| Aggregator.DropNaMembers | src/data_pipeline.py:143 | `dropna()` keeps exactly the entries with no missing part |
| Aggregator.DropNaSorted | src/data_pipeline.py:143 | `dropna()` keeps the order of the entries |
| Aggregator.DiffEntriesSorted | src/data_pipeline.py:137-143 | the differenced, unstacked entries are sorted by (column label, row label) |
| Aggregator.EntryTable | src/data_pipeline.py:138-140 | the entries as a table with the columns (columns, index, `'delta_score'`), one row each |
| Aggregator.EntryRowCells | src/data_pipeline.py:140 | a row of that table reads back as its entry |
| Aggregator.GetDiffs | src/data_pipeline.py:124-144 | `get_diffs` succeeds iff the pivot succeeds, the values are numeric and neither `index` nor `columns` is `'delta_score'`; the result has the columns (columns, index, `'delta_score'`) |
| Aggregator.GetDiffsSorted | src/data_pipeline.py:137-143 | the result rows are ordered by patient, then by visit, with no (patient, visit) pair twice |
| Aggregator.DiffEntrySound | src/data_pipeline.py:137-143 | with `drop_null`, every entry is the difference of two vertically adjacent numbers under non-missing labels |
| Aggregator.DiffEntryComplete | src/data_pipeline.py:137-143 | every such difference is an entry |
| Aggregator.DiffEntryOfCells | src/data_pipeline.py:137-143 | two numbers one above the other give the entry holding their difference |
| Aggregator.PivotDiffSound | src/data_pipeline.py:137-143 | every diff entry of a pivot of the table is the change between two successive visits of one patient |
| Aggregator.SuccessiveOfDelta | src/data_pipeline.py:137-143 | the rows behind a pivot difference are successive visits and give the same entry |
| Aggregator.SuccessiveOfCells | src/data_pipeline.py:137-143 | two vertically adjacent numeric cells come from two successive visits of one patient |
| Aggregator.RowOfCell | src/data_pipeline.py:121 | a non-missing pivot cell comes from a row at its labels |
| Aggregator.PositionOfRow | src/data_pipeline.py:121 | every row's index label has a position on the pivot's index |
| Aggregator.ColumnOfRow | src/data_pipeline.py:121 | every row's columns label has a position on the pivot's columns |
| Aggregator.SuccessiveAdjacent | src/data_pipeline.py:137 | the visit labels of two successive visits are neighbours on the pivot's index |
| Aggregator.CellOfRow | src/data_pipeline.py:121 | the pivot cell at a row's own labels holds that row's value |
| Aggregator.PivotDiffComplete | src/data_pipeline.py:137-143 | every pair of successive visits of one patient gives a diff entry |
| Aggregator.DiffEntryOfRows | src/data_pipeline.py:137-143 | two rows at neighbouring visit labels and the same patient give a diff entry |
| Aggregator.GetDiffsSound | src/data_pipeline.py:137-143 | every row of `get_diffs(..., drop_null=True)` is (p, n, v(p, n) − v(p, m)) for two rows of p whose index labels m < n have no index label of the table between them |
| Aggregator.GetDiffsComplete | src/data_pipeline.py:137-143 | every such pair of rows with numeric values yields a row of `get_diffs(..., drop_null=True)` |
| Pipeline.VisitCell | src/data_pipeline.py:48 | a numbered row's visit is NaN without a patient, and otherwise visit k with 1 ≤ k ≤ the patient's row count |
| Pipeline.SuccessiveIsConsecutive | src/data_pipeline.py:193-194 | with the pipeline's arguments on a numbered table, two rows the pivot differences are visits n − 1 and n of one patient |
| Pipeline.ConsecutiveIsSuccessive | src/data_pipeline.py:193-194 | conversely, visits n − 1 and n of one patient, both scored, are differenced |
| Pipeline.CleanedDiffsSound | src/data_pipeline.py:137-143 | every row of the pipeline's `get_diffs` is (p, n, score(p, n) − score(p, n − 1)), and none is a first visit |
| Pipeline.CleanedDiffsComplete | src/data_pipeline.py:137-143 | every patient's scored visits n − 1 and n yield the row (p, n, score(p, n) − score(p, n − 1)) |
| Pipeline.CleanedDiffsOk | src/data_pipeline.py:193-194 | on a cleaned table with numeric scores the pipeline's `get_diffs` call succeeds: no (visit, patient) pair repeats |
| Pipeline.CleanedDiffsKeysUnique | src/data_pipeline.py:193-194 | the rows of that result hold each (patient, visit) key at most once |
| Pipeline.MergeOnVisits | src/data_pipeline.py:158 | a left join on (patient, visit) against changes in score keyed uniquely by (patient, visit) succeeds, appends only `delta_score`, and keeps every left row once, in order |
| Pipeline.CleanedMergeKeepsRows | src/data_pipeline.py:197-199 | the pipeline's merge of the cleaned table with its diffs succeeds and keeps every cleaned row once, in order, joined with its change in score or widened with NaN |
| Aggregator.AggIntoSeries | src/data_pipeline.py:161-173 | the reduction succeeds iff both columns exist and differ, and `mean` gets a numeric column; the result is (group label, reduced column) |
| Aggregator.AggIntoSeriesValues | src/data_pipeline.py:173 | each label's value is the `max` or `mean` of the kept cells of the input rows with that label |
| Aggregator.AggIntoSeriesSorted | src/data_pipeline.py:173 | labels strictly increase, so each occurs once |
| Aggregator.AggIntoSeriesLabelsFromInput | src/data_pipeline.py:173 | every label is a non-missing label found in the input |
| Aggregator.AggIntoSeriesCoversInput | src/data_pipeline.py:173 | every non-missing input label has a row |
| Merging.Appended | src/data_pipeline.py:158 | the right columns the join appends are those not coalesced with a left key of the same label |
| Merging.AppendedDistinct | src/data_pipeline.py:158 | the appended labels do not repeat |
| Merging.MatchesFrom | src/data_pipeline.py:158 | every match of a key is a right row holding that key |
| Merging.JoinRowsKeys | src/data_pipeline.py:158 | every joined row has the left columns plus the appended ones |
| Merging.JoinedTable | src/data_pipeline.py:158 | the joined table is well formed, with the left columns then the appended ones |
| Merging.Merge | src/data_pipeline.py:146-158 | the left join succeeds iff the key lists have equal length, all key columns exist, and no appended label clashes with a left label; the columns are the left ones then the appended ones |
| Merging.MatchesUnique | src/data_pipeline.py:158 | among unique right keys a key matches no row, or exactly the row that holds it |
| Merging.JoinOneUnique | src/data_pipeline.py:158 | among unique right keys, a left row yields exactly one result row, joined or filled with NaN |
| Merging.JoinRowsUnique | src/data_pipeline.py:158 | among unique right keys, row i of the join is left row i joined with its match, or filled with NaN |
| Merging.MergeRows | src/data_pipeline.py:158 | a successful merge's rows are the join of the left rows with the right rows |
| Merging.MergeKeepsLeftRows | src/data_pipeline.py:158 | with unique right keys the left join keeps every left row exactly once, in order, with the matching right cells or NaN |
| Merging.WidenedKeepsLeft | src/data_pipeline.py:158 | a joined or unmatched row keeps every cell of its left row |
| Merging.WidenedCells | src/data_pipeline.py:158 | the appended cells come from the matching right row, or are NaN |
| Patients.IdPresentMeans | src/Patient.py:22 | `id in patient_id.values` iff the id is not NaN and some row has it |
| Patients.Patient.CheckValidId | src/Patient.py:21-22 | the id is valid iff it is not NaN and occurs in the table's `patient_id` column |
| Patients.RowsOf | src/Patient.py:65 | the patient's rows are records of the table |
| Patients.RowsOfCount | src/Patient.py:65 | the selection holds each matching row as often as the table does, and no other row |
| Patients.InsertByDate | src/Patient.py:65 | insertion adds exactly the one row |
| Patients.SortByDate | src/Patient.py:65 | sorting is a permutation of its input |
| Patients.InsertByDateSorted | src/Patient.py:65 | inserting into a date-sorted history keeps it sorted |
| Patients.SortByDateSorted | src/Patient.py:65 | `sort_values('date')` yields ascending dates |
| Patients.Patient.GetHistory | src/Patient.py:64-65 | the history is a permutation of the patient's rows, sorted by ascending date |
| Patients.NoFirstVisit | src/Patient.py:53 | there is no first-visit score iff no row has `num_visit == 1` |
| Patients.OneFirstVisit | src/Patient.py:53 | there is exactly one first-visit score iff exactly one row is a first visit, and it is that row's score |
| Patients.InitialScoreItem | src/Patient.py:53 | `initial_score` succeeds iff exactly one row is a first visit, and is then that row's score; `.item()` fails on none or several |
| Patients.FinalIsLatest | src/Patient.py:54 | on a date-sorted history the final score is that of a dated row no dated row is later than; an undated row is picked only when every date is NaT, and then the first one |
| Patients.FinalIgnoresLateNaT | src/Patient.py:54 | a NaT-dated row after a dated row leaves `final_score` unchanged, since the descending sort puts NaT last |
| Patients.StepsTelescope | src/Patient.py:55 | the score steps from position k on add up to the last score minus the one before k |
| Patients.MeanOfSteps | src/Patient.py:55 | the mean of the steps of n >= 2 numbers is (last − first)/(n − 1) |
| Patients.AvgDeltaTelescopes | src/Patient.py:55 | with n >= 2 numeric scores, `avg_delta` = (last − first)/(n − 1) |
| Patients.AvgDeltaSingleVisit | src/Patient.py:55 | with a single visit `avg_delta` is NaN |
| Patients.SpanIsStepsTimesMean | src/Patient.py:55 | over numbers, last − first equals (n − 1) times the mean step |
| Patients.TotalChangeIsStepsTimesAverage | src/Patient.py:54-56 | with n >= 2 numeric scores, the last history row's score minus the first's is (n − 1) · `avg_delta`, and the last row gives `final_score` when it has a date |
| Patients.CutoffSplit | src/Patient.py:57 | every visit is either below the cutoff 10 or at/above it (NaN counted at/above) |
| Patients.PctFurtherEvalIsShare | src/Patient.py:57 | `100 − 100·#{score < 10}/n` is the percentage of visits at or above the cutoff, and lies in [0, 100] |
| Patients.SummaryStats | src/Patient.py:51-58 | the summary has exactly the five keys: the initial score, the final score, `avg_delta`, `total_change` = final − initial, and `pct_further_eval` |
| Patients.Patient.GetPatientStats | src/Patient.py:51-58 | the dict is built entry by entry and equals the summary; when `.item()` raises the dict is left empty; the other fields are unchanged |
| Patients.Patient.constructor | src/Patient.py:13-19 | the patient is valid iff `check_valid_id` holds; only a valid patient computes the history and the statistics |

## Left out

- Reading and writing CSV files and the `__main__` blocks
  (`src/data_pipeline.py:176-200`, `src/Patient.py:15` and `src/Patient.py:73-77`)
  are file I/O. The table is passed to `Patients.Patient.constructor` rather
  than read from its file.
- `simulate_age_col` and the `sim_age=True` branch of `clean_dataframe` draw
  random numbers. `Cleaner.Clean` and `Cleaner.CleanDataframe` model
  `sim_age=False`.
- `plot_progress`, `print_patient_stats`, `determine_risk` and
  `determine_stability` are not modelled. The first two only render or
  print; the stubs have no behaviour.
- String-to-date parsing is not modelled. A cell is already a `Day`, a
  `Stamp` or something that is not a date. Epoch numbers, which
  `pd.to_datetime` would accept, are treated as not dates. A pandas `Period`
  is the pair (year, month).
- After the cleaned table's CSV round-trip, `date` is a string. The
  `Patient` model takes it as a date cell, so `get_history`'s sort is a date
  sort.
- The extra `index` column that `reset_index()` adds after `dropna()`
  (`src/data_pipeline.py:143`) is left out. So is the index/column
  bookkeeping of `groupby` results; the group label is a plain column.
- Aggregator.GetDiffs: an `index` or `columns` label equal to
  `'delta_score'` makes pandas build a frame with a repeated column label,
  which a `Table` cannot hold; the model reports `ColumnConflict`.
- Cleaner.AddMonthYear: pandas would read the integers written to a date
  column called `'month'` or `'year'` as nanoseconds since 1970; the model
  treats them as not dates and reports a date-parse error.
- Aggregator.GetDiffs: pandas' `.diff()` turns a values column of dates
  into time spans; the model has no time-span value and reports `NonNumeric`
  for any values column holding something other than a number or NaN. The
  pipeline differences the numeric `score` column.
- Aggregator.GetDiffs: with `drop_null=False` the result is modelled, but
  only the `drop_null=True` rows are related to successive visits.
- Aggregator.GetDiffsSound: the count "k visits give k − 1 rows" is not
  stated as a number. It follows from the one-to-one correspondence with
  successive visit pairs (`GetDiffsSound`, `GetDiffsComplete`, no repeated
  pair by `GetDiffsSorted`).
- Merging.Merge: pandas renames clashing non-key columns with `_x`/`_y`
  suffixes. The model reports `ColumnConflict` instead. The pipeline's
  merge has no such clash.
- Merging.Merge: NaN keys match each other in pandas' merge; the model keeps
  that. Key cells of the two tables are compared as model values, with no
  int/float coercion.
- Aggregator.AggIntoSeries: `col_to_keep` equal to `groupby_col` is
  modelled as `ColumnConflict`. The only methods modelled are `max` and
  `mean`.
- Aggregator.CreatePivot: NaN labels are sorted last like any label; the
  pandas handling of NaN pivot labels is not modelled.
- Grouping.MeanWithinBounds: floating-point rounding is not modelled.
  Scores, means and differences are exact reals, so the mean bound and the
  telescoping identities hold exactly.
- Keys.SortedDistinct: cells of different kinds (numbers, dates, periods)
  are ordered by kind. pandas would refuse to sort such mixed keys.
- Patients.SortByDate: the sort is a stable insertion sort. pandas'
  default sort does not promise an order for ties.
- Patients.FinalIsLatest: `final_score` is the last dated row of the
  ascending history, or its first row when every date is NaT. On a tie for
  the latest date pandas may pick a different row. The cleaned table has no
  such ties (`Cleaner.DedupedRows`).
- Patients.TotalChangeIsStepsTimesAverage is stated over the first and last
  history rows rather than the first-visit row and the final row. The last
  row is the final row whenever it has a date. `SummaryStats` gives
  `total_change` = final − initial; the two coincide when the first visit is
  the earliest row, which `Cleaner.CleanedVisitOrder` guarantees for the
  cleaned table.
- Patients.Patient.constructor requires the table to have the four columns
  the summary reads (`PatientData`). A table without them would raise
  `KeyError` in pandas.
- Patients.SummaryStats: a Python dict keeps insertion order; the model's
  map does not. `GetPatientStats` still sets the entries in the source
  order.
