/**
 * Group keys (the values of several columns of one row) and the sorted,
 * duplicate-free list of keys that pandas' `groupby` and `pivot` produce.
 */
module Keys {
  import opened Values

  type Key = seq<Value>

  /** Lexicographic order on keys; a proper prefix comes first. */
  predicate KeyLt(a: Key, b: Key)
    decreases |a|
  {
    if |a| == 0 then |b| > 0
    else |b| > 0 && (ValueLt(a[0], b[0]) || (a[0] == b[0] && KeyLt(a[1..], b[1..])))
  }

  lemma {:induction false} KeyLtIrreflexive(a: Key)
    ensures !KeyLt(a, a)
    decreases |a|
  {
    if |a| > 0 {
      ValueLtIrreflexive(a[0]);
      KeyLtIrreflexive(a[1..]);
    }
  }

  lemma {:induction false} KeyLtTransitive(a: Key, b: Key, c: Key)
    requires KeyLt(a, b) && KeyLt(b, c)
    ensures KeyLt(a, c)
    decreases |a|
  {
    if |a| > 0 {
      if ValueLt(a[0], b[0]) && ValueLt(b[0], c[0]) {
        ValueLtTransitive(a[0], b[0], c[0]);
      } else if a[0] == b[0] && b[0] == c[0] {
        KeyLtTransitive(a[1..], b[1..], c[1..]);
      }
    }
  }

  lemma {:induction false} KeyLtTotal(a: Key, b: Key)
    requires a != b
    ensures KeyLt(a, b) || KeyLt(b, a)
    decreases |a|
  {
    if |a| > 0 && |b| > 0 {
      if a[0] != b[0] {
        ValueLtTotal(a[0], b[0]);
      } else {
        assert a == [a[0]] + a[1..] && b == [b[0]] + b[1..];
        KeyLtTotal(a[1..], b[1..]);
      }
    }
  }

  lemma KeyLtAsymmetric(a: Key, b: Key)
    requires KeyLt(a, b)
    ensures !KeyLt(b, a) && a != b
  {
    KeyLtIrreflexive(a);
    if KeyLt(b, a) {
      KeyLtTransitive(a, b, a);
    }
  }

  /** Strictly increasing, hence free of duplicates. */
  predicate StrictlySorted(s: seq<Key>) {
    forall i, j :: 0 <= i < j < |s| ==> KeyLt(s[i], s[j])
  }

  /** Adds `k` to a strictly sorted list unless it is already there. */
  function InsertKey(s: seq<Key>, k: Key): (r: seq<Key>)
    requires StrictlySorted(s)
    ensures StrictlySorted(r)
    ensures forall x :: x in r <==> x in s || x == k
    ensures |r| <= |s| + 1
  {
    if s == [] then [k]
    else if k == s[0] then s
    else if KeyLt(k, s[0]) then
      assert forall j :: 0 <= j < |s| ==> KeyLt(k, s[j]) by {
        forall j | 0 < j < |s| { KeyLtTransitive(k, s[0], s[j]); }
      }
      [k] + s
    else
      KeyLtTotal(k, s[0]);
      var tail := InsertKey(s[1..], k);
      assert forall x :: x in tail ==> KeyLt(s[0], x) by {
        forall x | x in tail ensures KeyLt(s[0], x) {
          if x != k {
            var j :| 0 <= j < |s[1..]| && s[1..][j] == x;
            assert s[j + 1] == x;
          }
        }
      }
      [s[0]] + tail
  }

  /** The distinct keys of `ks`, in increasing order. */
  function SortedDistinct(ks: seq<Key>): (r: seq<Key>)
    ensures StrictlySorted(r)
    ensures forall x :: x in r <==> x in ks
    ensures |r| <= |ks|
  {
    if ks == [] then []
    else
      var front := ks[..|ks| - 1];
      assert ks == front + [ks[|ks| - 1]];
      InsertKey(SortedDistinct(front), ks[|ks| - 1])
  }

  /** Two strictly sorted lists with the same members are the same list. */
  lemma {:induction false} StrictlySortedUnique(s: seq<Key>, t: seq<Key>)
    requires StrictlySorted(s) && StrictlySorted(t)
    requires forall x :: x in s <==> x in t
    ensures s == t
    decreases |s|
  {
    if s != [] {
      assert s[0] in s && s[0] in t;
    }
    if t != [] {
      assert t[0] in t && t[0] in s;
    }
    if s != [] {
      // each head occurs in the other list; if neither sat at the front,
      // the two heads would each be smaller than the other
      var k :| 0 <= k < |t| && t[k] == s[0];
      var m :| 0 <= m < |s| && s[m] == t[0];
      if k > 0 && m > 0 {
        KeyLtAsymmetric(t[0], t[k]);
      }
      assert s[0] == t[0];
      forall x ensures x in s[1..] <==> x in t[1..] {
        if x in s[1..] {
          var j :| 1 <= j < |s| && s[j] == x;
          KeyLtAsymmetric(s[0], s[j]);
          assert x in s;
          var i :| 0 <= i < |t| && t[i] == x;
          assert t[1..][i - 1] == x;
        }
        if x in t[1..] {
          var j :| 1 <= j < |t| && t[j] == x;
          KeyLtAsymmetric(t[0], t[j]);
          assert x in t;
          var i :| 0 <= i < |s| && s[i] == x;
          assert s[1..][i - 1] == x;
        }
      }
      StrictlySortedUnique(s[1..], t[1..]);
      assert s == [s[0]] + s[1..] && t == [t[0]] + t[1..];
    }
  }
}
