/**
 * `df.groupby(cols).agg({val: method})`: one row per distinct key, keys in
 * increasing order, keys holding a missing cell dropped, the value column
 * reduced by `max` or `mean`, every other column dropped.
 */
module Grouping {
  import opened Values
  import opened Keys
  import opened Tables

  datatype AggMethod = Max | Mean

  predicate HasColumns(rows: seq<Row>, cols: seq<string>) {
    forall i :: 0 <= i < |rows| ==> forall c :: c in cols ==> c in rows[i]
  }

  /** The keys that take part in grouping, in row order: keys holding NaN are dropped. */
  function GroupKeys(rows: seq<Row>, cols: seq<string>): (ks: seq<Key>)
    requires HasColumns(rows, cols)
    ensures forall k :: k in ks <==> !HasNull(k) && exists j :: 0 <= j < |rows| && KeyOf(rows[j], cols) == k
  {
    if rows == [] then []
    else
      var k := KeyOf(rows[0], cols);
      var rest := GroupKeys(rows[1..], cols);
      assert forall j :: 1 <= j < |rows| ==> rows[1..][j - 1] == rows[j];
      (if HasNull(k) then [] else [k]) + rest
  }

  /** The value cells of the rows whose key is `k`, in row order. */
  function GroupValues(rows: seq<Row>, cols: seq<string>, val: string, k: Key): (vs: seq<Value>)
    requires HasColumns(rows, cols + [val])
    ensures |vs| <= |rows|
    ensures forall v :: v in vs <==> exists r :: r in rows && KeyOf(r, cols) == k && r[val] == v
  {
    if rows == [] then []
    else
      assert rows == [rows[0]] + rows[1..];
      assert val in rows[0] && forall c :: c in cols ==> c in rows[0] by {
        assert (cols + [val])[|cols|] == val;
      }
      var rest := GroupValues(rows[1..], cols, val, k);
      (if KeyOf(rows[0], cols) == k then [rows[0][val]] else []) + rest
  }

  /** The positions of the rows whose key is `k` and whose value cell is `v`. */
  function Hits(rows: seq<Row>, cols: seq<string>, val: string, k: Key, v: Value): set<int>
    requires HasColumns(rows, cols + [val])
  {
    set i | 0 <= i < |rows| && KeyOf(rows[i], cols) == k && rows[i][val] == v
  }

  /** Two runs of rows that have the columns, joined, still have them. */
  lemma HasColumnsAppend(a: seq<Row>, b: seq<Row>, cols: seq<string>)
    requires HasColumns(a, cols) && HasColumns(b, cols)
    ensures HasColumns(a + b, cols)
  {
    forall i | 0 <= i < |a + b| ensures forall c :: c in cols ==> c in (a + b)[i] {
      if i < |a| { assert (a + b)[i] == a[i]; } else { assert (a + b)[i] == b[i - |a|]; }
    }
  }

  /** Grouping two runs of rows one after the other collects the values of the first run, then those of the second. */
  lemma {:induction false} GroupValuesAppend(a: seq<Row>, b: seq<Row>, cols: seq<string>, val: string, k: Key)
    requires HasColumns(a, cols + [val]) && HasColumns(b, cols + [val])
    ensures HasColumns(a + b, cols + [val])
    ensures GroupValues(a + b, cols, val, k) == GroupValues(a, cols, val, k) + GroupValues(b, cols, val, k)
  {
    HasColumnsAppend(a, b, cols + [val]);
    if a != [] {
      GroupValuesCons(a, cols, val, k);
      GroupValuesCons(a + b, cols, val, k);
      assert (a + b)[1..] == a[1..] + b;
      assert (a + b)[0] == a[0];
      GroupValuesAppend(a[1..], b, cols, val, k);
      var head := if KeyOf(a[0], cols) == k then [a[0][val]] else [];
      calc {
        GroupValues(a + b, cols, val, k);
        head + GroupValues(a[1..] + b, cols, val, k);
        head + (GroupValues(a[1..], cols, val, k) + GroupValues(b, cols, val, k));
        (head + GroupValues(a[1..], cols, val, k)) + GroupValues(b, cols, val, k);
        GroupValues(a, cols, val, k) + GroupValues(b, cols, val, k);
      }
    } else {
      assert a + b == b;
    }
  }

  /** The values of a group: the first row's cell if its key is `k`, then those of the other rows. */
  lemma GroupValuesCons(rows: seq<Row>, cols: seq<string>, val: string, k: Key)
    requires HasColumns(rows, cols + [val]) && rows != []
    ensures HasColumns(rows[1..], cols + [val])
    ensures val in rows[0]
    ensures GroupValues(rows, cols, val, k) ==
      (if KeyOf(rows[0], cols) == k then [rows[0][val]] else []) + GroupValues(rows[1..], cols, val, k)
  {
    forall i | 0 <= i < |rows[1..]| ensures forall c :: c in cols + [val] ==> c in rows[1..][i] {
      assert rows[1..][i] == rows[i + 1];
    }
    assert (cols + [val])[|cols|] == val;
  }

  /** The hits among `rows` are those among all rows but the last, plus the last row's position if it is one. */
  lemma HitsSnoc(rows: seq<Row>, cols: seq<string>, val: string, k: Key, v: Value)
    requires HasColumns(rows, cols + [val]) && rows != []
    ensures HasColumns(rows[..|rows| - 1], cols + [val])
    ensures val in rows[|rows| - 1] && forall c :: c in cols ==> c in rows[|rows| - 1]
    ensures var n := |rows| - 1;
      Hits(rows, cols, val, k, v) == Hits(rows[..n], cols, val, k, v)
        + (if KeyOf(rows[n], cols) == k && rows[n][val] == v then {n} else {})
    ensures |rows| - 1 !in Hits(rows[..|rows| - 1], cols, val, k, v)
  {
    var n := |rows| - 1;
    assert (cols + [val])[|cols|] == val;
    forall i | 0 <= i < n ensures rows[..n][i] == rows[i] { }
  }

  /** One row alone gives its value cell if its key is `k`, nothing otherwise. */
  lemma GroupValuesSingle(r: Row, cols: seq<string>, val: string, k: Key)
    requires HasColumns([r], cols + [val])
    ensures val in r && forall c :: c in cols ==> c in r
    ensures GroupValues([r], cols, val, k) == if KeyOf(r, cols) == k then [r[val]] else []
  {
    assert [r][0] == r;
    assert (cols + [val])[|cols|] == val;
    assert [r][1..] == [];
  }

  /**
   * A group keeps every value cell as often as it occurs: `v` appears in
   * the values of group `k` once for each row with key `k` and value `v`.
   */
  lemma {:induction false} GroupValuesCount(rows: seq<Row>, cols: seq<string>, val: string, k: Key, v: Value)
    requires HasColumns(rows, cols + [val])
    ensures multiset(GroupValues(rows, cols, val, k))[v] == |Hits(rows, cols, val, k, v)|
    decreases |rows|
  {
    if rows == [] {
      assert Hits(rows, cols, val, k, v) == {};
    } else {
      var n := |rows| - 1;
      HitsSnoc(rows, cols, val, k, v);
      assert rows == rows[..n] + [rows[n]];
      GroupValuesSingle(rows[n], cols, val, k);
      GroupValuesAppend(rows[..n], [rows[n]], cols, val, k);
      GroupValuesCount(rows[..n], cols, val, k, v);
    }
  }

  /** Number of numeric cells (NaN does not count, as in pandas). */
  function NumCount(vs: seq<Value>): nat {
    if vs == [] then 0 else (if vs[0].Num? then 1 else 0) + NumCount(vs[1..])
  }

  /** Sum of the numeric cells. */
  function NumSum(vs: seq<Value>): real {
    if vs == [] then 0.0 else (if vs[0].Num? then vs[0].x else 0.0) + NumSum(vs[1..])
  }

  /** pandas `mean`: NaN cells are skipped; with no numeric cell the mean is NaN. */
  function MeanOf(vs: seq<Value>): (r: Value)
    ensures r == Null || r.Num?
  {
    if NumCount(vs) == 0 then Null else Num(NumSum(vs) / NumCount(vs) as real)
  }

  /** pandas `max`: NaN cells are skipped; with no other cell the maximum is NaN. */
  function MaxOf(vs: seq<Value>): (r: Value)
    ensures r == Null <==> forall v :: v in vs ==> v == Null
    ensures r != Null ==> r in vs && forall v :: v in vs && v != Null ==> ValueLe(v, r)
  {
    if vs == [] then Null
    else
      var m := MaxOf(vs[1..]);
      assert forall v :: v in vs <==> v == vs[0] || v in vs[1..];
      assert vs[0] in vs;
      if vs[0] == Null then m
      else if m == Null then
        assert forall v :: v in vs[1..] ==> v == Null;
        vs[0]
      else if ValueLt(m, vs[0]) then
        assert forall v :: v in vs[1..] && v != Null ==> ValueLe(v, vs[0]) by {
          forall v | v in vs[1..] && v != Null ensures ValueLe(v, vs[0]) {
            if v != m { ValueLtTransitive(v, m, vs[0]); }
          }
        }
        vs[0]
      else if m == vs[0] then m
      else
        ValueLtTotal(m, vs[0]);
        m
  }

  function Aggregate(m: AggMethod, vs: seq<Value>): Value {
    match m
    case Max => MaxOf(vs)
    case Mean => MeanOf(vs)
  }

  /** A column `mean` can reduce: every cell is a number or NaN. */
  predicate NumericColumn(rows: seq<Row>, c: string)
    requires forall i :: 0 <= i < |rows| ==> c in rows[i]
  {
    forall i :: 0 <= i < |rows| ==> rows[i][c].Num? || rows[i][c] == Null
  }

  /** n copies of x added up. */
  function Times(n: nat, x: real): real
  {
    if n == 0 then 0.0 else x + Times(n - 1, x)
  }

  lemma {:induction false} TimesIsProduct(n: nat, x: real)
    ensures Times(n, x) == n as real * x
  {
    if n > 0 {
      TimesIsProduct(n - 1, x);
    }
  }

  /** Every numeric cell lies in [lo, hi]. */
  predicate NumbersWithin(vs: seq<Value>, lo: real, hi: real) {
    forall i :: 0 <= i < |vs| && vs[i].Num? ==> lo <= vs[i].x <= hi
  }

  /** When every numeric cell lies in [lo, hi], their sum lies between count times lo and count times hi. */
  lemma {:induction false} SumBounds(vs: seq<Value>, lo: real, hi: real)
    requires NumbersWithin(vs, lo, hi)
    ensures Times(NumCount(vs), lo) <= NumSum(vs) <= Times(NumCount(vs), hi)
  {
    if vs != [] {
      var rest := vs[1..];
      assert NumbersWithin(rest, lo, hi) by {
        forall i | 0 <= i < |rest| && rest[i].Num? ensures lo <= rest[i].x <= hi {
          assert rest[i] == vs[i + 1];
        }
      }
      SumBounds(rest, lo, hi);
    }
  }

  /** A sum of n numbers within [lo, hi], divided by n, lies within [lo, hi]. */
  lemma QuotientBound(n: real, sum: real, lo: real, hi: real)
    requires n > 0.0 && n * lo <= sum <= n * hi
    ensures lo <= sum / n <= hi
  {
    var q := sum / n;
    assert q * n == sum;
    assert (q - lo) * n >= 0.0 && (hi - q) * n >= 0.0;
  }

  /** The group mean lies between any bounds of the group's numeric cells. */
  lemma MeanWithinBounds(vs: seq<Value>, lo: real, hi: real)
    requires forall v: Value :: v in vs && v.Num? ==> lo <= v.x <= hi
    ensures MeanOf(vs).Num? ==> lo <= MeanOf(vs).x <= hi
  {
    assert NumbersWithin(vs, lo, hi) by {
      forall i | 0 <= i < |vs| && vs[i].Num? ensures lo <= vs[i].x <= hi {
        assert vs[i] in vs;
      }
    }
    SumBounds(vs, lo, hi);
    TimesIsProduct(NumCount(vs), lo);
    TimesIsProduct(NumCount(vs), hi);
    if NumCount(vs) > 0 {
      QuotientBound(NumCount(vs) as real, NumSum(vs), lo, hi);
    }
  }

  /** One row per key of `ks`: the key cells, then the reduction of that key's values. */
  function GroupRows(rows: seq<Row>, keys: seq<string>, val: string, m: AggMethod, ks: seq<Key>): (g: seq<Row>)
    requires HasColumns(rows, keys + [val])
    requires forall i :: 0 <= i < |ks| ==> |ks[i]| == |keys|
    ensures |g| == |ks|
    ensures forall i :: 0 <= i < |g| ==> g[i].Keys == ColumnSet(keys) + {val}
  {
    seq(|ks|, i requires 0 <= i < |ks| =>
      KeyRow(keys, ks[i])[val := Aggregate(m, GroupValues(rows, keys, val, ks[i]))])
  }

  /**
   * The grouped table: the key columns then the value column, one row per
   * distinct NaN-free key, keys increasing. Errors: no key column for a
   * non-empty frame, a missing column (KeyError), a key column repeated or
   * also the value column (the key cannot be put back as a column), `mean`
   * of a non-numeric column.
   */
  function GroupAgg(t: Table, keys: seq<string>, val: string, m: AggMethod): (r: Result<Table>)
    requires WellFormed(t)
    ensures r.Ok? <==>
      && (keys == [] ==> t.rows == [])
      && FirstMissing(keys + [val], t).None?
      && Distinct(keys) && val !in keys
      && (m == Mean ==> NumericColumn(t.rows, val))
    ensures r.Ok? ==> WellFormed(r.value) && r.value.columns == keys + [val]
  {
    var missing := FirstMissing(keys + [val], t);
    if keys == [] && t.rows != [] then Err(NoGroupKeys)
    else if missing.Some? then Err(KeyError(missing.value))
    else if !Distinct(keys) || val in keys then Err(ColumnConflict(val))
    else if m == Mean && !NumericColumn(t.rows, val) then Err(NonNumeric(val))
    else
      var ks := SortedDistinct(GroupKeys(t.rows, keys));
      assert forall i :: 0 <= i < |ks| ==> ks[i] in ks;
      assert HasColumns(t.rows, keys + [val]);
      var rows := GroupRows(t.rows, keys, val, m, ks);
      assert ColumnSet(keys + [val]) == ColumnSet(keys) + {val};
      assert Distinct(keys + [val]);
      Ok(Table(keys + [val], rows))
  }

  /** The key of every row of a grouped table. */
  function KeysOf(rows: seq<Row>, cols: seq<string>): seq<Key>
    requires HasColumns(rows, cols)
  {
    seq(|rows|, i requires 0 <= i < |rows| => KeyOf(rows[i], cols))
  }

  /** The grouped rows carry, in order, the distinct NaN-free keys of the input. */
  lemma GroupAggKeys(t: Table, keys: seq<string>, val: string, m: AggMethod)
    requires WellFormed(t) && GroupAgg(t, keys, val, m).Ok?
    ensures HasColumns(t.rows, keys + [val])
    ensures var g := GroupAgg(t, keys, val, m).value;
      && HasColumns(g.rows, keys + [val])
      && KeysOf(g.rows, keys) == SortedDistinct(GroupKeys(t.rows, keys))
  {
    var g := GroupAgg(t, keys, val, m).value;
    assert forall c :: c in keys + [val] ==> c in t.columns;
    var ks := SortedDistinct(GroupKeys(t.rows, keys));
    assert forall i :: 0 <= i < |ks| ==> ks[i] in ks;
    assert g.rows == GroupRows(t.rows, keys, val, m, ks);
    forall i | 0 <= i < |ks|
      ensures KeyOf(g.rows[i], keys) == ks[i]
    {
      KeyOfKeyRow(keys, ks[i], val, Aggregate(m, GroupValues(t.rows, keys, val, ks[i])));
    }
  }

  /**
   * The grouped rows carry exactly the NaN-free keys present in the input,
   * each once, in increasing order.
   */
  lemma GroupAggRows(t: Table, keys: seq<string>, val: string, m: AggMethod)
    requires WellFormed(t) && GroupAgg(t, keys, val, m).Ok?
    ensures HasColumns(t.rows, keys + [val])
    ensures var g := GroupAgg(t, keys, val, m).value;
      && HasColumns(g.rows, keys + [val])
      && StrictlySorted(KeysOf(g.rows, keys))
      && forall k :: k in KeysOf(g.rows, keys) <==>
           !HasNull(k) && exists j :: 0 <= j < |t.rows| && KeyOf(t.rows[j], keys) == k
  {
    GroupAggKeys(t, keys, val, m);
  }

  /** Each grouped row's value is the reduction of the value cells of the input rows with its key. */
  lemma GroupAggValues(t: Table, keys: seq<string>, val: string, m: AggMethod)
    requires WellFormed(t) && GroupAgg(t, keys, val, m).Ok?
    ensures HasColumns(t.rows, keys + [val])
    ensures var g := GroupAgg(t, keys, val, m).value;
      && HasColumns(g.rows, keys + [val])
      && forall i :: 0 <= i < |g.rows| ==>
           g.rows[i][val] == Aggregate(m, GroupValues(t.rows, keys, val, KeyOf(g.rows[i], keys)))
  {
    GroupAggKeys(t, keys, val, m);
    var g := GroupAgg(t, keys, val, m).value;
    var ks := SortedDistinct(GroupKeys(t.rows, keys));
    forall i | 0 <= i < |g.rows|
      ensures g.rows[i][val] == Aggregate(m, GroupValues(t.rows, keys, val, KeyOf(g.rows[i], keys)))
    {
      assert KeysOf(g.rows, keys)[i] == ks[i];
    }
  }

  /** Each grouped row comes from some input row with the same (NaN-free) key. */
  lemma GroupAggOrigins(t: Table, keys: seq<string>, val: string, m: AggMethod)
    requires WellFormed(t) && GroupAgg(t, keys, val, m).Ok?
    ensures HasColumns(t.rows, keys)
    ensures var g := GroupAgg(t, keys, val, m).value;
      && HasColumns(g.rows, keys)
      && StrictlySorted(KeysOf(g.rows, keys))
      && forall i :: 0 <= i < |g.rows| ==>
           && !HasNull(KeyOf(g.rows[i], keys))
           && exists j :: 0 <= j < |t.rows| && KeyOf(t.rows[j], keys) == KeyOf(g.rows[i], keys)
  {
    var g := GroupAgg(t, keys, val, m).value;
    GroupAggRows(t, keys, val, m);
    forall i | 0 <= i < |g.rows|
      ensures !HasNull(KeyOf(g.rows[i], keys))
      ensures exists j :: 0 <= j < |t.rows| && KeyOf(t.rows[j], keys) == KeyOf(g.rows[i], keys)
    {
      var k := KeysOf(g.rows, keys)[i];
      assert k in KeysOf(g.rows, keys);
    }
  }
}
