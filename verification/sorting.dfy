/** Sorting rows by a key. The analyzer relies on pandas' `sort_values`, whose
    default algorithm is not stable; the model describes a sort only by what any
    such sort guarantees (a permutation in ascending key order) and supplies
    one stable insertion sort as a concrete witness. */
module Sorting {
  import opened Tables

  /** `ys` is a reordering of `xs` in ascending order of `key`: the result any
      `sort_values(by=...)` call may produce. */
  predicate IsSortOf(xs: seq<Row>, ys: seq<Row>, key: SortKey)
  {
    multiset(ys) == multiset(xs) && SortedBy(ys, key)
  }

  /** Prepending an element whose key is no greater than any other keeps a sequence sorted. */
  lemma SortedCons(h: Row, t: seq<Row>, key: SortKey)
    requires SortedBy(t, key)
    requires forall k :: 0 <= k < |t| ==> KeyOf(h, key) <= KeyOf(t[k], key)
    ensures SortedBy([h] + t, key)
  {
  }

  /** Inserts `x` into a sorted sequence just before the first element whose
      key is not smaller than its own, so `x` goes ahead of rows with an equal key. */
  function Insert(x: Row, xs: seq<Row>, key: SortKey): (r: seq<Row>)
    requires SortedBy(xs, key)
    ensures SortedBy(r, key)
    ensures multiset(r) == multiset(xs) + multiset{x}
    ensures |r| == |xs| + 1
  {
    if |xs| == 0 then [x]
    else if KeyOf(x, key) <= KeyOf(xs[0], key) then
      SortedCons(x, xs, key);
      [x] + xs
    else
      assert xs == [xs[0]] + xs[1..];
      var tail := Insert(x, xs[1..], key);
      InsertHeadBound(x, xs, tail, key);
      SortedCons(xs[0], tail, key);
      [xs[0]] + tail
  }

  /** Every key in `tail` (a reordering of `xs[1..]` plus `x`) is at least the head key of sorted `xs`. */
  lemma InsertHeadBound(x: Row, xs: seq<Row>, tail: seq<Row>, key: SortKey)
    requires |xs| > 0 && SortedBy(xs, key)
    requires KeyOf(xs[0], key) <= KeyOf(x, key)
    requires multiset(tail) == multiset(xs[1..]) + multiset{x}
    ensures forall k :: 0 <= k < |tail| ==> KeyOf(xs[0], key) <= KeyOf(tail[k], key)
  {
    forall k | 0 <= k < |tail|
      ensures KeyOf(xs[0], key) <= KeyOf(tail[k], key)
    {
      assert tail[k] in multiset(tail);
      if tail[k] != x {
        assert tail[k] in multiset(xs[1..]);
        var m :| 0 <= m < |xs[1..]| && xs[1..][m] == tail[k];
        assert xs[m + 1] == tail[k];
      }
    }
  }

  /** An insertion sort: a sorted reordering of `xs`. Each row is inserted
      ahead of the later rows that share its key, so it is stable
      (`SortStable`). */
  function Sort(xs: seq<Row>, key: SortKey): (r: seq<Row>)
    ensures IsSortOf(xs, r, key)
    ensures |r| == |xs|
  {
    if |xs| == 0 then []
    else
      assert xs == [xs[0]] + xs[1..];
      Insert(xs[0], Sort(xs[1..], key), key)
  }

  /** The rows of `xs` whose key equals `v`, in their order in `xs`. */
  function WithKey(xs: seq<Row>, key: SortKey, v: real): seq<Row>
  {
    if |xs| == 0 then []
    else OwnKey(xs[0], key, v) + WithKey(xs[1..], key, v)
  }

  /** The rows with key `v` that `x` alone contributes. */
  function OwnKey(x: Row, key: SortKey, v: real): seq<Row>
  {
    if KeyOf(x, key) == v then [x] else []
  }

  lemma WithKeyCons(h: Row, t: seq<Row>, key: SortKey, v: real)
    ensures WithKey([h] + t, key, v) == OwnKey(h, key, v) + WithKey(t, key, v)
  {
    assert ([h] + t)[1..] == t;
  }

  /** Inserting `x` puts it ahead of every row that shares its key. */
  lemma {:induction false} InsertWithKey(x: Row, xs: seq<Row>, key: SortKey, v: real)
    requires SortedBy(xs, key)
    ensures WithKey(Insert(x, xs, key), key, v) == OwnKey(x, key, v) + WithKey(xs, key, v)
  {
    if |xs| == 0 {
      WithKeyCons(x, [], key, v);
    } else if KeyOf(x, key) <= KeyOf(xs[0], key) {
      WithKeyCons(x, xs, key, v);
    } else {
      InsertPastHead(x, xs, key);
      InsertWithKey(x, xs[1..], key, v);
      WithKeyCons(xs[0], Insert(x, xs[1..], key), key, v);
      SwapEmpty(OwnKey(xs[0], key, v), OwnKey(x, key, v), WithKey(xs[1..], key, v));
    }
  }

  /** Past a head with a smaller key, inserting into `xs` inserts into its tail. */
  lemma InsertPastHead(x: Row, xs: seq<Row>, key: SortKey)
    requires SortedBy(xs, key) && |xs| > 0 && KeyOf(xs[0], key) < KeyOf(x, key)
    ensures SortedBy(xs[1..], key)
    ensures Insert(x, xs, key) == [xs[0]] + Insert(x, xs[1..], key)
  {
  }

  /** Two pieces of which at most one is non-empty may trade places. */
  lemma SwapEmpty(a: seq<Row>, b: seq<Row>, rest: seq<Row>)
    requires a == [] || b == []
    ensures a + (b + rest) == b + (a + rest)
  {
  }

  /** `Sort` is stable: for every key value, the rows carrying it appear in
      the result in exactly the order they have in the input. */
  lemma {:induction false} SortStable(xs: seq<Row>, key: SortKey, v: real)
    ensures WithKey(Sort(xs, key), key, v) == WithKey(xs, key, v)
  {
    if |xs| > 0 {
      SortStable(xs[1..], key, v);
      InsertWithKey(xs[0], Sort(xs[1..], key), key, v);
    }
  }

  /** The value sort `SelectTides` performs keeps rows of equal value in the
      order they were read. */
  lemma ValueSortStable(xs: seq<Row>, mode: Mode, v: real)
    ensures WithKey(Sort(xs, ByValue(mode)), ByValue(mode), v) == WithKey(xs, ByValue(mode), v)
  {
    SortStable(xs, ByValue(mode), v);
  }

  /** No two positions of `xs` share a timestamp. */
  predicate DistinctTimes(xs: seq<Row>)
  {
    forall i, j :: 0 <= i < j < |xs| ==> xs[i].time != xs[j].time
  }

  /** When timestamps are pairwise distinct, sorting by time leaves no choice:
      any two time-sorted reorderings of the same rows are equal, so an
      unstable sort cannot change the outcome. */
  lemma {:induction false} TimeSortUnique(a: seq<Row>, b: seq<Row>)
    requires SortedBy(a, ByTime) && SortedBy(b, ByTime)
    requires multiset(a) == multiset(b)
    requires DistinctTimes(a)
    ensures a == b
  {
    if |a| == 0 {
      assert |multiset(b)| == 0;
    } else {
      assert |b| > 0 by {
        assert a[0] in multiset(b);
      }
      FirstIsEarliest(a, b);
      var a', b' := a[1..], b[1..];
      assert a == [a[0]] + a';
      assert b == [b[0]] + b';
      assert multiset(a) == multiset{a[0]} + multiset(a');
      assert multiset(b) == multiset{b[0]} + multiset(b');
      assert multiset(a') == multiset(a) - multiset{a[0]};
      assert multiset(b') == multiset(b) - multiset{b[0]};
      assert SortedBy(a', ByTime) && SortedBy(b', ByTime) && DistinctTimes(a') by {
        TailSorted(a, ByTime);
        TailSorted(b, ByTime);
      }
      TimeSortUnique(a', b');
    }
  }

  lemma TailSorted(xs: seq<Row>, key: SortKey)
    requires |xs| > 0 && SortedBy(xs, key)
    ensures SortedBy(xs[1..], key)
  {
  }

  /** The first rows of two time-sorted reorderings of the same distinct-time rows coincide. */
  lemma FirstIsEarliest(a: seq<Row>, b: seq<Row>)
    requires SortedBy(a, ByTime) && SortedBy(b, ByTime)
    requires multiset(a) == multiset(b)
    requires DistinctTimes(a)
    requires |a| > 0 && |b| > 0
    ensures a[0] == b[0]
  {
    assert a[0] in multiset(b);
    var k :| 0 <= k < |b| && b[k] == a[0];
    assert b[0] in multiset(a);
    var m :| 0 <= m < |a| && a[m] == b[0];
    assert KeyOf(a[0], ByTime) <= KeyOf(a[m], ByTime);
    assert KeyOf(b[0], ByTime) <= KeyOf(b[k], ByTime);
  }
}
