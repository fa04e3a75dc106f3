/** The tide picker `select_tides`: a greedy choice of the `n` most extreme rows
    such that any two chosen rows lie at least `min_gap_hours` apart in time,
    returned in time order.

    The value sort that starts the source's procedure is not computed here:
    every lemma takes an arbitrary `order` that is a value-sorted reordering of
    the input, because pandas' default sort is not stable and may break ties
    either way. `SelectTides` picks one such order (a stable sort). */
module TideSelection {
  import opened Tables
  import opened Sorting

  /** The two ways `select_tides` raises: sorting an empty selection by its
      time column (an empty frame has no "Date Time" column to sort by), and
      building `timedelta(hours=min_gap_hours)` for a gap whose day count a
      `timedelta` cannot hold. */
  datatype SelectError = EmptySelection | GapOverflow

  /** `timedelta(hours=h)` in the model's time unit. */
  function GapSeconds(minGapHours: int): int
  {
    minGapHours * SecondsPerHour
  }

  /** The largest number of days a `timedelta` holds, in either direction. */
  const MaxTimedeltaDays: int := 999999999

  /** `timedelta(hours=h)` normalises to `h // 24` whole days plus a
      non-negative remainder, and raises when that day count is out of range. */
  predicate GapRepresentable(minGapHours: int)
  {
    -MaxTimedeltaDays <= minGapHours / 24 <= MaxTimedeltaDays
  }

  /** A candidate may be accepted when its absolute time distance to every
      row accepted so far is at least `gap`. */
  predicate Clear(x: Row, acc: seq<Row>, gap: int)
  {
    forall s :: s in acc ==> Dist(x.time, s.time) >= gap
  }

  /** `x` lies strictly within `gap` of `s`, so `s` blocks `x`. */
  predicate Near(x: Row, s: Row, gap: int)
  {
    Dist(x.time, s.time) < gap
  }

  /** Any two different positions of `xs` hold rows at least `gap` apart in time. */
  predicate Separated(xs: seq<Row>, gap: int)
  {
    forall i, j :: 0 <= i < |xs| && 0 <= j < |xs| && i != j ==> Dist(xs[i].time, xs[j].time) >= gap
  }

  /** One iteration of the scan, before the length check: append the
      candidate when it is clear of everything accepted so far. */
  function Step(x: Row, acc: seq<Row>, gap: int): seq<Row>
  {
    if Clear(x, acc, gap) then acc + [x] else acc
  }

  lemma StepSeparated(x: Row, acc: seq<Row>, gap: int)
    ensures Separated(acc, gap) ==> Separated(Step(x, acc, gap), gap)
  {
  }

  /** The loop of `select_tides` over the value-sorted candidates, with the
      rows accepted so far in `acc`. After each candidate, accepted or not, the
      scan stops as soon as exactly `n` rows are held. */
  function Scan(cands: seq<Row>, n: int, gap: int, acc: seq<Row>): (r: seq<Row>)
    decreases |cands|
    ensures |acc| <= |r| && r[..|acc|] == acc
    ensures 1 <= n && |acc| < n ==> |r| <= n
  {
    if |cands| == 0 then acc
    else
      var next := Step(cands[0], acc, gap);
      assert next[..|acc|] == acc;
      if |next| == n then next
      else
        var r := Scan(cands[1..], n, gap, next);
        assert r[..|acc|] == r[..|next|][..|acc|];
        r
  }

  /** Every row the scan returns is drawn from the rows already held or from
      the candidates, and each candidate position is used at most once. */
  lemma {:induction false} ScanDrawsFromCandidates(cands: seq<Row>, n: int, gap: int, acc: seq<Row>)
    ensures multiset(Scan(cands, n, gap, acc)) <= multiset(acc) + multiset(cands)
  {
    if |cands| > 0 {
      var next := Step(cands[0], acc, gap);
      assert cands == [cands[0]] + cands[1..];
      assert multiset(next) <= multiset(acc) + multiset{cands[0]};
      if |next| != n {
        ScanDrawsFromCandidates(cands[1..], n, gap, next);
      }
    }
  }

  /** The scan keeps the rows it holds pairwise at least `gap` apart. */
  lemma {:induction false} ScanSeparated(cands: seq<Row>, n: int, gap: int, acc: seq<Row>)
    requires Separated(acc, gap)
    ensures Separated(Scan(cands, n, gap, acc), gap)
  {
    if |cands| > 0 {
      var next := Step(cands[0], acc, gap);
      StepSeparated(cands[0], acc, gap);
      if |next| != n {
        ScanSeparated(cands[1..], n, gap, next);
      }
    }
  }

  /** Reference definition: the same greedy scan without the count limit. */
  function Greedy(cands: seq<Row>, gap: int, acc: seq<Row>): (r: seq<Row>)
    decreases |cands|
    ensures |acc| <= |r| && r[..|acc|] == acc
  {
    if |cands| == 0 then acc
    else
      var next := Step(cands[0], acc, gap);
      assert next[..|acc|] == acc;
      var r := Greedy(cands[1..], gap, next);
      assert r[..|acc|] == r[..|next|][..|acc|];
      r
  }

  /** The first `n` elements of `xs`, or all of them when `n` is not positive. */
  function Trunc(xs: seq<Row>, n: int): seq<Row>
  {
    if 1 <= n < |xs| then xs[..n] else xs
  }

  /** The count limit only cuts the unbounded greedy short: for positive `n`
      the scan returns the first `n` rows the unbounded greedy accepts, and for
      `n <= 0` it never stops early (the length check only ever sees lengths
      of at least one, because the first candidate is always accepted). */
  lemma {:induction false} ScanIsTruncatedGreedy(cands: seq<Row>, n: int, gap: int, acc: seq<Row>)
    requires n <= 0 || |acc| < n
    ensures Scan(cands, n, gap, acc) == Trunc(Greedy(cands, gap, acc), n)
  {
    if |cands| > 0 {
      var next := Step(cands[0], acc, gap);
      var g := Greedy(cands, gap, acc);
      assert g == Greedy(cands[1..], gap, next);
      assert |next| >= 1;
      if |next| == n {
        assert g[..|next|] == next;
        if n < |g| {
          assert Trunc(g, n) == g[..n];
        } else {
          assert |g| == |next|;
          assert g == g[..|next|];
        }
      } else {
        ScanIsTruncatedGreedy(cands[1..], n, gap, next);
      }
    }
  }

  /** Every candidate the unbounded greedy sees is either accepted or lies
      strictly within `gap` of an accepted row. */
  lemma {:induction false} GreedyMaximal(cands: seq<Row>, gap: int, acc: seq<Row>)
    ensures forall x :: x in cands ==>
      x in Greedy(cands, gap, acc) || exists s :: s in Greedy(cands, gap, acc) && Near(x, s, gap)
    decreases |cands|
  {
    if |cands| > 0 {
      var c := cands[0];
      var next := Step(c, acc, gap);
      var g := Greedy(cands, gap, acc);
      assert g == Greedy(cands[1..], gap, next);
      GreedyMaximal(cands[1..], gap, next);
      assert forall s :: s in next ==> s in g by {
        forall s | s in next ensures s in g {
          var k :| 0 <= k < |next| && next[k] == s;
          assert g[..|next|][k] == s;
        }
      }
      assert c in g || exists s :: s in g && Near(c, s, gap) by {
        if !Clear(c, acc, gap) {
          var s :| s in acc && Dist(c.time, s.time) < gap;
          assert s in next;
        } else {
          assert c in next;
        }
      }
      assert cands == [c] + cands[1..];
    }
  }

  /** `x` was either accepted or blocked by an accepted row at least as extreme. */
  predicate Accounted(x: Row, r: seq<Row>, gap: int, mode: Mode)
  {
    x in r || exists s :: s in r && Near(x, s, gap) && AtLeastAsExtreme(s, x, mode)
  }

  /** Every row of `r` is at least as extreme as `x`. */
  predicate Outranked(x: Row, r: seq<Row>, mode: Mode)
  {
    forall s :: s in r ==> AtLeastAsExtreme(s, x, mode)
  }

  /** In a sorted concatenation, everything on the left comes no later in key order than everything on the right. */
  lemma SortedSplit(xs: seq<Row>, ys: seq<Row>, key: SortKey)
    requires SortedBy(xs + ys, key)
    ensures forall a, b :: a in xs && b in ys ==> KeyOf(a, key) <= KeyOf(b, key)
  {
    forall a, b | a in xs && b in ys
      ensures KeyOf(a, key) <= KeyOf(b, key)
    {
      var i :| 0 <= i < |xs| && xs[i] == a;
      var j :| 0 <= j < |ys| && ys[j] == b;
      assert (xs + ys)[i] == a && (xs + ys)[|xs| + j] == b;
    }
  }

  /** The scan over a value-sorted candidate list, with `done` the candidates
      already visited: every visited or remaining candidate ends up accepted,
      blocked by an accepted row at least as extreme, or (when the scan stopped
      early) no more extreme than anything accepted. */
  lemma {:induction false} ScanAccounts(cands: seq<Row>, done: seq<Row>, n: int, gap: int, acc: seq<Row>, mode: Mode)
    requires SortedBy(done + cands, ByValue(mode))
    requires forall s :: s in acc ==> s in done
    requires forall x :: x in done ==> Accounted(x, acc, gap, mode)
    ensures forall x :: x in done + cands ==>
      Accounted(x, Scan(cands, n, gap, acc), gap, mode) || Outranked(x, Scan(cands, n, gap, acc), mode)
  {
    var r := Scan(cands, n, gap, acc);
    if |cands| == 0 {
      assert done + cands == done;
    } else {
      var c := cands[0];
      var next := Step(c, acc, gap);
      var done' := done + [c];
      assert done + cands == done' + cands[1..];
      SortedSplit(done, cands, ByValue(mode));
      SortedSplit(done', cands[1..], ByValue(mode));
      assert forall s :: s in next ==> s in done';
      forall x | x in done'
        ensures Accounted(x, next, gap, mode)
      {
        if x in done {
          if x !in acc {
            var s :| s in acc && Near(x, s, gap) && AtLeastAsExtreme(s, x, mode);
            assert s in next;
          } else {
            assert x in next;
          }
        } else if Clear(c, acc, gap) {
          assert x in next;
        } else {
          var s :| s in acc && Dist(c.time, s.time) < gap;
          assert s in next && AtLeastAsExtreme(s, x, mode);
        }
      }
      if |next| == n {
        assert r == next;
        forall x | x in cands[1..]
          ensures Outranked(x, r, mode)
        {
        }
      } else {
        ScanAccounts(cands[1..], done', n, gap, next, mode);
      }
    }
  }

  /** Whether the scan ever tests a candidate against a non-empty selection:
      only then does the generator in the acceptance test build the gap
      `timedelta`. */
  predicate ComparesGap(cands: seq<Row>, n: int, gap: int, acc: seq<Row>)
    decreases |cands|
  {
    |cands| > 0 &&
      (|acc| > 0 || (var next := Step(cands[0], acc, gap); |next| != n && ComparesGap(cands[1..], n, gap, next)))
  }

  /** From an empty selection the gap is built exactly when a second candidate
      is tested: there are at least two candidates and the first acceptance did
      not already reach `n`. */
  lemma ComparesGapExactly(cands: seq<Row>, n: int, gap: int)
    ensures ComparesGap(cands, n, gap, []) <==> |cands| >= 2 && n != 1
  {
    if |cands| > 0 {
      var next := Step(cands[0], [], gap);
      assert next == [cands[0]];
      if n != 1 {
        assert ComparesGap(cands[1..], n, gap, next) <==> |cands| >= 2;
      }
    }
  }

  /** The first candidate is always accepted: nothing is selected yet to block it. */
  lemma FirstAccepted(cands: seq<Row>, n: int, gap: int)
    requires |cands| > 0
    ensures cands[0] in Scan(cands, n, gap, [])
  {
    assert Step(cands[0], [], gap) == [cands[0]];
  }

  lemma RepeatedCount(xs: seq<Row>, i: int, j: int)
    requires 0 <= i < j < |xs| && xs[i] == xs[j]
    ensures multiset(xs)[xs[i]] >= 2
  {
    var v := xs[i];
    assert xs == xs[..j] + [xs[j]] + xs[j + 1..];
    assert xs[..j][i] == v;
    assert v in multiset(xs[..j]);
  }

  lemma {:induction false} RepeatedIndices(xs: seq<Row>, v: Row)
    requires multiset(xs)[v] >= 2
    ensures exists p, q :: 0 <= p < q < |xs| && xs[p] == v && xs[q] == v
  {
    assert xs == [xs[0]] + xs[1..];
    if xs[0] == v {
      assert v in multiset(xs[1..]);
      var q :| 0 <= q < |xs[1..]| && xs[1..][q] == v;
      assert xs[0] == v && xs[q + 1] == v;
    } else {
      RepeatedIndices(xs[1..], v);
      var p, q :| 0 <= p < q < |xs[1..]| && xs[1..][p] == v && xs[1..][q] == v;
      assert xs[p + 1] == v && xs[q + 1] == v;
    }
  }

  /** Time separation is a property of the collection of rows, not of their order. */
  lemma SeparatedPermutation(a: seq<Row>, b: seq<Row>, gap: int)
    requires multiset(a) == multiset(b)
    requires Separated(a, gap)
    ensures Separated(b, gap)
  {
    forall i, j | 0 <= i < |b| && 0 <= j < |b| && i != j
      ensures Dist(b[i].time, b[j].time) >= gap
    {
      if b[i] == b[j] {
        if i < j { RepeatedCount(b, i, j); } else { RepeatedCount(b, j, i); }
        RepeatedIndices(a, b[i]);
        var p, q :| 0 <= p < q < |a| && a[p] == b[i] && a[q] == b[i];
        assert Dist(a[p].time, a[q].time) >= gap;
      } else {
        assert b[i] in multiset(a) && b[j] in multiset(a);
        var p :| 0 <= p < |a| && a[p] == b[i];
        var q :| 0 <= q < |a| && a[q] == b[j];
      }
    }
  }

  /** `order` is one way pandas may lay out `rows` after sorting by value. */
  predicate IsValueOrder(rows: seq<Row>, order: seq<Row>, mode: Mode)
  {
    IsSortOf(rows, order, ByValue(mode))
  }

  /** The rows the scan accepts, in the order it accepts them. */
  function Picked(order: seq<Row>, n: int, minGapHours: int): seq<Row>
  {
    Scan(order, n, GapSeconds(minGapHours), [])
  }

  /** `select_tides(df, n, min_gap_hours, high)` when the value sort produced `order`. */
  function SelectTidesFrom(rows: seq<Row>, order: seq<Row>, n: int, minGapHours: int, mode: Mode)
    : (r: Result<seq<Row>, SelectError>)
    requires IsValueOrder(rows, order, mode)
    ensures r == Failure(EmptySelection) <==> |rows| == 0
    ensures r == Failure(GapOverflow) <==> |rows| >= 2 && n != 1 && !GapRepresentable(minGapHours)
    ensures r.Success? ==> IsSortOf(Picked(order, n, minGapHours), r.value, ByTime)
    ensures r.Success? ==> multiset(r.value) <= multiset(rows)
    ensures r.Success? ==> Separated(r.value, GapSeconds(minGapHours))
    ensures r.Success? && 1 <= n ==> |r.value| <= n
  {
    var picked := Picked(order, n, minGapHours);
    ScanDrawsFromCandidates(order, n, GapSeconds(minGapHours), []);
    ScanSeparated(order, n, GapSeconds(minGapHours), []);
    assert |order| == |rows| by {
      assert |multiset(order)| == |multiset(rows)|;
    }
    assert |order| > 0 ==> |picked| > 0 by {
      if |order| > 0 {
        FirstAccepted(order, n, GapSeconds(minGapHours));
      }
    }
    ComparesGapExactly(order, n, GapSeconds(minGapHours));
    if |picked| == 0 then Failure(EmptySelection)
    else if ComparesGap(order, n, GapSeconds(minGapHours), []) && !GapRepresentable(minGapHours) then
      Failure(GapOverflow)
    else
      var sorted := Sort(picked, ByTime);
      SeparatedPermutation(picked, sorted, GapSeconds(minGapHours));
      Success(sorted)
  }

  /** `select_tides` with the value ties broken by input order. */
  function SelectTides(rows: seq<Row>, n: int, minGapHours: int, mode: Mode): (r: Result<seq<Row>, SelectError>)
    ensures r == Failure(EmptySelection) <==> |rows| == 0
    ensures r == Failure(GapOverflow) <==> |rows| >= 2 && n != 1 && !GapRepresentable(minGapHours)
    ensures r.Success? ==> SortedBy(r.value, ByTime) && multiset(r.value) <= multiset(rows)
    ensures r.Success? ==> Separated(r.value, GapSeconds(minGapHours))
    ensures r.Success? && 1 <= n ==> |r.value| <= n
  {
    SelectTidesFrom(rows, Sort(rows, ByValue(mode)), n, minGapHours, mode)
  }

  /** A row appears in `order` exactly when it appears in `rows`. */
  lemma SameMembers(rows: seq<Row>, order: seq<Row>)
    requires multiset(rows) == multiset(order)
    ensures forall x :: x in rows <==> x in order
  {
    forall x
      ensures x in rows <==> x in order
    {
      assert x in rows <==> x in multiset(rows);
      assert x in order <==> x in multiset(order);
    }
  }

  /** A successful result holds a most extreme row of the whole input: the
      highest value for crests, the lowest for troughs. */
  lemma SelectHasExtremum(rows: seq<Row>, order: seq<Row>, n: int, minGapHours: int, mode: Mode)
    requires IsValueOrder(rows, order, mode)
    ensures var r := SelectTidesFrom(rows, order, n, minGapHours, mode);
      r.Success? ==> exists s :: s in r.value && forall x :: x in rows ==> AtLeastAsExtreme(s, x, mode)
  {
    var r := SelectTidesFrom(rows, order, n, minGapHours, mode);
    var picked := Picked(order, n, minGapHours);
    if r.Success? {
      assert |order| > 0 by {
        assert |multiset(order)| == |multiset(rows)|;
      }
      var s := order[0];
      FirstAccepted(order, n, GapSeconds(minGapHours));
      assert s in r.value by {
        assert s in multiset(picked);
        assert multiset(picked) == multiset(r.value);
      }
      assert forall x :: x in rows ==> AtLeastAsExtreme(s, x, mode) by {
        SameMembers(rows, order);
        forall x | x in rows
          ensures AtLeastAsExtreme(s, x, mode)
        {
          var k :| 0 <= k < |order| && order[k] == x;
          if k > 0 {
            assert KeyOf(order[0], ByValue(mode)) <= KeyOf(order[k], ByValue(mode));
          }
        }
      }
    }
  }

  /** When fewer than `n` rows come back (or `n` is not positive), every input
      row was either chosen or lies strictly within the minimum gap of a
      chosen row. */
  lemma SelectMaximal(rows: seq<Row>, order: seq<Row>, n: int, minGapHours: int, mode: Mode)
    requires IsValueOrder(rows, order, mode)
    ensures var r := SelectTidesFrom(rows, order, n, minGapHours, mode);
      r.Success? && (n <= 0 || |r.value| < n) ==>
        forall x :: x in rows ==> x in r.value || exists s :: s in r.value && Near(x, s, GapSeconds(minGapHours))
  {
    var r := SelectTidesFrom(rows, order, n, minGapHours, mode);
    var gap := GapSeconds(minGapHours);
    var picked := Picked(order, n, minGapHours);
    if r.Success? && (n <= 0 || |r.value| < n) {
      ScanIsTruncatedGreedy(order, n, gap, []);
      var g := Greedy(order, gap, []);
      assert |r.value| == |picked| by {
        assert |multiset(r.value)| == |multiset(picked)|;
      }
      assert picked == g;
      GreedyMaximal(order, gap, []);
      SameMembers(rows, order);
      SameMembers(picked, r.value);
    }
  }

  /** Greedy dominance: a row left out although it is strictly more extreme
      than some chosen row was blocked by a chosen row, strictly within the
      minimum gap, that is at least as extreme as itself. */
  lemma SelectDominance(rows: seq<Row>, order: seq<Row>, n: int, minGapHours: int, mode: Mode)
    requires IsValueOrder(rows, order, mode)
    ensures var r := SelectTidesFrom(rows, order, n, minGapHours, mode);
      r.Success? ==>
        forall x, t :: x in rows && x !in r.value && t in r.value && !AtLeastAsExtreme(t, x, mode) ==>
          exists s :: s in r.value && Near(x, s, GapSeconds(minGapHours)) && AtLeastAsExtreme(s, x, mode)
  {
    var r := SelectTidesFrom(rows, order, n, minGapHours, mode);
    var gap := GapSeconds(minGapHours);
    var picked := Picked(order, n, minGapHours);
    if r.Success? {
      ScanAccounts(order, [], n, gap, [], mode);
      assert [] + order == order;
      SameMembers(rows, order);
      SameMembers(picked, r.value);
      forall x, t | x in rows && x !in r.value && t in r.value && !AtLeastAsExtreme(t, x, mode)
        ensures exists s :: s in r.value && Near(x, s, gap) && AtLeastAsExtreme(s, x, mode)
      {
        assert x in order && x !in picked && t in picked;
        assert !Outranked(x, picked, mode);
        assert Accounted(x, picked, gap, mode);
        var s :| s in picked && Near(x, s, gap) && AtLeastAsExtreme(s, x, mode);
        assert s in r.value;
      }
    }
  }

  /** With a positive gap the chosen rows have pairwise distinct times, so
      sorting them by time has exactly one possible outcome, whichever sort
      pandas uses. */
  lemma SeparatedTimeSortUnique(picked: seq<Row>, gap: int, ys: seq<Row>, zs: seq<Row>)
    requires gap > 0 && Separated(picked, gap)
    requires IsSortOf(picked, ys, ByTime) && IsSortOf(picked, zs, ByTime)
    ensures ys == zs
  {
    SeparatedPermutation(picked, ys, gap);
    assert DistinctTimes(ys) by {
      forall i, j | 0 <= i < j < |ys|
        ensures ys[i].time != ys[j].time
      {
        assert Dist(ys[i].time, ys[j].time) >= gap;
      }
    }
    TimeSortUnique(ys, zs);
  }

  /** The `for ... iterrows()` loop with its `break`, written as a loop. */
  method SelectLoop(cands: seq<Row>, n: int, gap: int) returns (picked: seq<Row>)
    ensures picked == Scan(cands, n, gap, [])
  {
    picked := [];
    var i := 0;
    while i < |cands|
      invariant 0 <= i <= |cands|
      invariant Scan(cands, n, gap, []) == Scan(cands[i..], n, gap, picked)
    {
      var row := cands[i];
      ghost var next := Step(row, picked, gap);
      assert Scan(cands[i..], n, gap, picked)
          == if |next| == n then next else Scan(cands[i + 1..], n, gap, next) by {
        assert cands[i..][0] == row && cands[i..][1..] == cands[i + 1..];
      }
      if Clear(row, picked, gap) {
        picked := picked + [row];
      }
      assert picked == next;
      if |picked| == n {
        return;
      }
      i := i + 1;
    }
  }
}
