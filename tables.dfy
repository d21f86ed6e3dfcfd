/**
 * Data frames viewed as values: a list of column labels and a list of rows,
 * each row a map from label to cell. Errors are the exceptions pandas raises.
 */
module Tables {
  import opened Values
  import opened Keys

  type Row = map<string, Value>

  /** A data frame: its column labels in order and one row per record. */
  datatype Table = Table(columns: seq<string>, rows: seq<Row>)

  predicate Distinct<T(==)>(s: seq<T>) {
    forall i, j :: 0 <= i < j < |s| ==> s[i] != s[j]
  }

  lemma DistinctAppend<T>(a: seq<T>, b: seq<T>)
    requires Distinct(a) && Distinct(b) && forall x :: x in b ==> x !in a
    ensures Distinct(a + b)
  {
    forall i, j | 0 <= i < j < |a + b| ensures (a + b)[i] != (a + b)[j] {
      if j >= |a| && i < |a| {
        assert b[j - |a|] in b;
      }
    }
  }

  function ColumnSet(cs: seq<string>): set<string> {
    set c | c in cs
  }

  /** No label repeats and every row has exactly the table's columns. */
  predicate WellFormed(t: Table) {
    && Distinct(t.columns)
    && forall i :: 0 <= i < |t.rows| ==> t.rows[i].Keys == ColumnSet(t.columns)
  }

  /** The exceptions the pipeline can raise. */
  datatype Error =
    | KeyError(column: string)        // a named column does not exist
    | NoGroupKeys                     // groupby: no key column given for a non-empty frame
    | DateParseError(column: string)  // a cell cannot be read as a date
    | NonNumeric(column: string)      // arithmetic on a column holding non-numbers
    | DuplicateEntries                // pivot: a (row label, column label) pair occurs twice
    | ColumnConflict(column: string)  // the requested column labels clash
    | ItemError                       // `.item()` on a selection that is not exactly one cell
    | LengthMismatch                  // merge: `left_on` and `right_on` differ in length

  datatype Result<T> = Ok(value: T) | Err(error: Error) {
    predicate IsFailure() {
      Err?
    }

    function PropagateFailure<U>(): Result<U>
      requires Err?
    {
      Err(error)
    }

    function Extract(): T
      requires Ok?
    {
      value
    }
  }

  /** The first label of `cols` that `t` lacks, if any. */
  function FirstMissing(cols: seq<string>, t: Table): (r: Option<string>)
    ensures r.None? <==> forall c :: c in cols ==> c in t.columns
    ensures r.Some? ==> r.value in cols && r.value !in t.columns
  {
    if cols == [] then None
    else if cols[0] !in t.columns then Some(cols[0])
    else FirstMissing(cols[1..], t)
  }

  /** The cells of column `c`, top to bottom. */
  function Column(t: Table, c: string): seq<Value>
    requires WellFormed(t) && c in t.columns
  {
    seq(|t.rows|, i requires 0 <= i < |t.rows| => t.rows[i][c])
  }

  /** The group key of a row: its cells in the given columns. */
  function KeyOf(r: Row, cols: seq<string>): Key
    requires forall c :: c in cols ==> c in r
  {
    seq(|cols|, j requires 0 <= j < |cols| => r[cols[j]])
  }

  predicate HasNull(k: Key) {
    Null in k
  }

  /** The row holding key `k` in the key columns `cols`. */
  function KeyRow(cols: seq<string>, k: Key): (r: Row)
    requires |k| == |cols|
    ensures r.Keys == ColumnSet(cols)
  {
    if cols == [] then map[]
    else KeyRow(cols[..|cols| - 1], k[..|k| - 1])[cols[|cols| - 1] := k[|k| - 1]]
  }

  lemma {:induction false} KeyRowAt(cols: seq<string>, k: Key, j: int)
    requires |k| == |cols| && Distinct(cols) && 0 <= j < |cols|
    ensures KeyRow(cols, k)[cols[j]] == k[j]
    decreases |cols|
  {
    if j < |cols| - 1 {
      KeyRowAt(cols[..|cols| - 1], k[..|k| - 1], j);
    }
  }

  /** Reading back the key of a key row (with one more, non-key, cell) gives the key. */
  lemma KeyOfKeyRow(cols: seq<string>, k: Key, c: string, v: Value)
    requires |k| == |cols| && Distinct(cols) && c !in cols
    ensures forall d :: d in cols ==> d in KeyRow(cols, k)[c := v]
    ensures KeyOf(KeyRow(cols, k)[c := v], cols) == k
  {
    forall j | 0 <= j < |cols| ensures KeyOf(KeyRow(cols, k)[c := v], cols)[j] == k[j] {
      KeyRowAt(cols, k, j);
    }
  }

  /** The labels after assigning column `c`: unchanged if present, else `c` appended. */
  function AddLabel(cs: seq<string>, c: string): seq<string> {
    if c in cs then cs else cs + [c]
  }

  /** `df[c] = vs`: replaces column `c`, or appends it when it is new. */
  function WithColumn(t: Table, c: string, vs: seq<Value>): (r: Table)
    requires WellFormed(t) && |vs| == |t.rows|
    ensures WellFormed(r)
    ensures r.columns == AddLabel(t.columns, c)
    ensures |r.rows| == |t.rows|
  {
    var cols := AddLabel(t.columns, c);
    assert ColumnSet(cols) == ColumnSet(t.columns) + {c};
    var rows := seq(|t.rows|, i requires 0 <= i < |t.rows| => t.rows[i][c := vs[i]]);
    Table(cols, rows)
  }
}
