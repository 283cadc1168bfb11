/**
 * The diameter of a sequence (src/clustering/diameter.rs): the largest pairwise
 * distance under a strict total order, a maximal one under a strict partial order.
 *
 * The distance type `T` is generic; its `PartialOrd` comparison `>` is the
 * parameter `greater`, so that what holds for any comparison and what needs
 * an order can be told apart.
 */
module PairwiseDiameter {
  import opened Wrappers

  /** `greater` is irreflexive and transitive, as `>` is on integers. */
  ghost predicate StrictPartialOrder<T(!new)>(greater: (T, T) -> bool)
  {
    && (forall a :: !greater(a, a))
    && (forall a, b, c :: greater(a, b) && greater(b, c) ==> greater(a, c))
  }

  /** In addition any two different values are comparable, so there is no NaN-like value. */
  ghost predicate StrictTotalOrder<T(!new)>(greater: (T, T) -> bool)
  {
    && StrictPartialOrder(greater)
    && (forall a, b :: a == b || greater(a, b) || greater(b, a))
  }

  /** Pair `(a, b)` comes strictly before pair `(i, j)` in the order the double loop visits pairs. */
  predicate Before(p: (int, int), q: (int, int))
  {
    p.0 < q.0 || (p.0 == q.0 && p.1 < q.1)
  }

  /** The pairs `(i, j)`, `j` from `j0` to `n - 1`: what the inner loop visits from `j0` on. */
  function RowPairs(i: int, j0: int, n: int): seq<(int, int)>
    decreases n - j0
  {
    if j0 >= n then [] else [(i, j0)] + RowPairs(i, j0 + 1, n)
  }

  /** The pairs visited by the rows `i0` to `n - 1` of the double loop, in order. */
  function PairsFrom(i0: int, n: int): seq<(int, int)>
    decreases n - i0
  {
    if i0 >= n then [] else RowPairs(i0, i0 + 1, n) + PairsFrom(i0 + 1, n)
  }

  /** The distances of the given pairs of `items`, in order. */
  function Distances<Item, T>(items: seq<Item>, distance: (Item, Item) -> T, ps: seq<(int, int)>): (ds: seq<T>)
    requires forall k :: 0 <= k < |ps| ==> 0 <= ps[k].0 < |items| && 0 <= ps[k].1 < |items|
    ensures |ds| == |ps|
    ensures forall k :: 0 <= k < |ps| ==> ds[k] == distance(items[ps[k].0], items[ps[k].1])
  {
    if ps == [] then [] else Distances(items, distance, ps[..|ps| - 1]) + [distance(items[ps[|ps| - 1].0], items[ps[|ps| - 1].1])]
  }

  /** The accumulator after seeing `d`: the first value seen, then each one strictly greater than it. */
  function Keep<T>(acc: Option<T>, d: T, greater: (T, T) -> bool): Option<T>
  {
    if acc.Some? && !greater(d, acc.value) then acc else Some(d)
  }

  /** The accumulator after seeing the values `ds` in order. */
  function Accumulate<T>(ds: seq<T>, greater: (T, T) -> bool): (r: Option<T>)
    ensures r.None? <==> ds == []
  {
    if ds == [] then None else Keep(Accumulate(ds[..|ds| - 1], greater), ds[|ds| - 1], greater)
  }

  /** The distances of all pairs, in the order `diameter` computes them. */
  function AllDistances<Item, T>(items: seq<Item>, distance: (Item, Item) -> T): seq<T>
  {
    PairsInRange(|items|);
    Distances(items, distance, PairsFrom(0, |items|))
  }

  /** What `diameter` returns. */
  function DiameterOf<Item, T>(items: seq<Item>, distance: (Item, Item) -> T, greater: (T, T) -> bool): Option<T>
  {
    Accumulate(AllDistances(items, distance), greater)
  }

  /** Every visited pair is a pair `i < j` of indices below `n`. */
  lemma PairsInRange(n: int)
    ensures forall p :: p in PairsFrom(0, n) ==> 0 <= p.0 < p.1 < n
  {
    PairsFromMembers(0, n);
  }

  lemma {:induction false} RowPairsMembers(i: int, j0: int, n: int)
    ensures forall p :: p in RowPairs(i, j0, n) <==> p.0 == i && j0 <= p.1 < n
    ensures |RowPairs(i, j0, n)| == if j0 < n then n - j0 else 0
    decreases n - j0
  {
    if j0 < n {
      RowPairsMembers(i, j0 + 1, n);
    }
  }

  /** The double loop visits exactly the pairs `i < j`, with `i` from `i0` on. */
  lemma {:induction false} PairsFromMembers(i0: int, n: int)
    requires 0 <= i0
    ensures forall p :: p in PairsFrom(i0, n) <==> i0 <= p.0 < p.1 < n
    decreases n - i0
  {
    if i0 < n {
      RowPairsMembers(i0, i0 + 1, n);
      PairsFromMembers(i0 + 1, n);
    }
  }

  /** The pairs are listed in strictly increasing order. */
  ghost predicate Increasing(ps: seq<(int, int)>)
  {
    forall k, k' :: 0 <= k < k' < |ps| ==> Before(ps[k], ps[k'])
  }

  lemma IncreasingAppend(xs: seq<(int, int)>, ys: seq<(int, int)>)
    requires Increasing(xs) && Increasing(ys)
    requires forall k, k' :: 0 <= k < |xs| && 0 <= k' < |ys| ==> Before(xs[k], ys[k'])
    ensures Increasing(xs + ys)
  {
    var ps := xs + ys;
    forall k, k' | 0 <= k < k' < |ps|
      ensures Before(ps[k], ps[k'])
    {
      if k' < |xs| {
        assert ps[k] == xs[k] && ps[k'] == xs[k'];
      } else if k < |xs| {
        assert ps[k] == xs[k] && ps[k'] == ys[k' - |xs|];
      } else {
        assert ps[k] == ys[k - |xs|] && ps[k'] == ys[k' - |xs|];
      }
    }
  }

  lemma {:induction false} RowPairsIncreasing(i: int, j0: int, n: int)
    ensures Increasing(RowPairs(i, j0, n))
    decreases n - j0
  {
    if j0 < n {
      RowPairsIncreasing(i, j0 + 1, n);
      RowPairsMembers(i, j0 + 1, n);
      var rest := RowPairs(i, j0 + 1, n);
      forall k' | 0 <= k' < |rest|
        ensures Before((i, j0), rest[k'])
      {
        assert rest[k'] in rest;
      }
      IncreasingAppend([(i, j0)], rest);
    }
  }

  /** The double loop visits pairs in strictly increasing order. */
  lemma {:induction false} PairsFromIncreasing(i0: int, n: int)
    requires 0 <= i0
    ensures Increasing(PairsFrom(i0, n))
    decreases n - i0
  {
    if i0 < n {
      var row := RowPairs(i0, i0 + 1, n);
      var rest := PairsFrom(i0 + 1, n);
      RowPairsIncreasing(i0, i0 + 1, n);
      RowPairsMembers(i0, i0 + 1, n);
      PairsFromIncreasing(i0 + 1, n);
      PairsFromMembers(i0 + 1, n);
      forall k, k' | 0 <= k < |row| && 0 <= k' < |rest|
        ensures Before(row[k], rest[k'])
      {
        assert row[k] in row && rest[k'] in rest;
      }
      IncreasingAppend(row, rest);
    }
  }

  /**
   * Where the accumulator's value was seen: no later value is strictly
   * greater than it (for any comparison); under a strict partial order no
   * value at all is, and under a strict total order every earlier value is
   * strictly less.
   */
  lemma {:induction false} AccumulateWitness<T(!new)>(ds: seq<T>, greater: (T, T) -> bool) returns (k: nat)
    requires ds != []
    ensures k < |ds| && Accumulate(ds, greater) == Some(ds[k])
    ensures forall k' :: k < k' < |ds| ==> !greater(ds[k'], ds[k])
    ensures StrictPartialOrder(greater) ==> forall k' :: 0 <= k' < |ds| ==> !greater(ds[k'], ds[k])
    ensures StrictTotalOrder(greater) ==> forall k' :: 0 <= k' < k ==> greater(ds[k], ds[k'])
  {
    var front := ds[..|ds| - 1];
    var d := ds[|ds| - 1];
    if front == [] {
      k := 0;
    } else {
      var k0 := AccumulateWitness(front, greater);
      var m := front[k0];
      assert m == ds[k0];
      if greater(d, m) {
        k := |ds| - 1;
        if StrictPartialOrder(greater) {
          forall k' | 0 <= k' < |ds|
            ensures !greater(ds[k'], d)
          {
            if k' < |front| {
              assert ds[k'] == front[k'];
            }
          }
        }
        if StrictTotalOrder(greater) {
          forall k' | 0 <= k' < k
            ensures greater(d, ds[k'])
          {
            assert ds[k'] == front[k'];
          }
        }
      } else {
        k := k0;
        forall k' | k < k' < |ds|
          ensures !greater(ds[k'], ds[k])
        {
          if k' < |front| {
            assert ds[k'] == front[k'];
          }
        }
        if StrictPartialOrder(greater) {
          forall k' | 0 <= k' < |ds|
            ensures !greater(ds[k'], ds[k])
          {
            if k' < |front| {
              assert ds[k'] == front[k'];
            }
          }
        }
        if StrictTotalOrder(greater) {
          forall k' | 0 <= k' < k
            ensures greater(ds[k], ds[k'])
          {
            assert ds[k'] == front[k'];
          }
        }
      }
    }
  }

  /** Starting row `i` of the double loop. */
  lemma RowEnter(calls: seq<(int, int)>, i: int, n: int)
    requires i < n
    ensures calls + PairsFrom(i, n) == calls + RowPairs(i, i + 1, n) + PairsFrom(i + 1, n)
  {
  }

  /** Finishing row `i` of the double loop. */
  lemma RowExit(calls: seq<(int, int)>, i: int, n: int)
    ensures calls + RowPairs(i, n, n) + PairsFrom(i + 1, n) == calls + PairsFrom(i + 1, n)
  {
  }

  /** Visiting pair `(i, j)` moves it from the pairs still to visit to the visited ones. */
  lemma RowStep(calls: seq<(int, int)>, i: int, j: int, n: int)
    requires j < n
    ensures calls + RowPairs(i, j, n) + PairsFrom(i + 1, n) == (calls + [(i, j)]) + RowPairs(i, j + 1, n) + PairsFrom(i + 1, n)
  {
    assert RowPairs(i, j, n) == [(i, j)] + RowPairs(i, j + 1, n);
  }

  /** Visiting pair `(i, j)` after the pairs `calls` feeds its distance to the accumulator. */
  lemma AccumulateStep<Item, T>(items: seq<Item>, distance: (Item, Item) -> T, greater: (T, T) -> bool,
                                calls: seq<(int, int)>, i: int, j: int, row: seq<(int, int)>, rest: seq<(int, int)>)
    requires calls + [(i, j)] + row + rest == PairsFrom(0, |items|)
    ensures 0 <= i < |items| && 0 <= j < |items|
    ensures |calls| < |AllDistances(items, distance)|
    ensures Accumulate(AllDistances(items, distance)[..|calls| + 1], greater)
         == Keep(Accumulate(AllDistances(items, distance)[..|calls|], greater), distance(items[i], items[j]), greater)
  {
    var ps := PairsFrom(0, |items|);
    assert ps[|calls|] == (i, j);
    DistanceAt(items, distance, |calls|);
    var ds := AllDistances(items, distance);
    assert ds[..|calls| + 1][..|calls|] == ds[..|calls|];
  }

  /**
   * The diameter: `diameter` applies `distance` exactly to
   * the pairs `i < j`, in the order `(0, 1), (0, 2), ..., (1, 2), ...`, and
   * keeps the first distance, replacing it by each later one that is
   * strictly greater.
   */
  method Diameter<Item, T>(items: seq<Item>, distance: (Item, Item) -> T, greater: (T, T) -> bool)
    returns (r: Option<T>, ghost calls: seq<(int, int)>)
    ensures calls == PairsFrom(0, |items|)
    ensures r == DiameterOf(items, distance, greater)
  {
    var n := |items|;
    r := None;
    calls := [];
    ghost var ds := AllDistances(items, distance);
    for i := 0 to n
      invariant calls + PairsFrom(i, n) == PairsFrom(0, n)
      invariant |calls| <= |ds|
      invariant r == Accumulate(ds[..|calls|], greater)
    {
      RowEnter(calls, i, n);
      for j := i + 1 to n
        invariant calls + RowPairs(i, j, n) + PairsFrom(i + 1, n) == PairsFrom(0, n)
        invariant |calls| <= |ds|
        invariant r == Accumulate(ds[..|calls|], greater)
      {
        var d := distance(items[i], items[j]);
        RowStep(calls, i, j, n);
        AccumulateStep(items, distance, greater, calls, i, j, RowPairs(i, j + 1, n), PairsFrom(i + 1, n));
        calls := calls + [(i, j)];
        if r.Some? {
          if greater(d, r.value) {
            r := Some(d);
          }
        } else {
          r := Some(d);
        }
      }
      RowExit(calls, i, n);
    }
    assert ds[..|calls|] == ds;
  }

  /** `diameter` returns `None` exactly when there is no pair, that is fewer than two items. */
  lemma DiameterNone<Item, T>(items: seq<Item>, distance: (Item, Item) -> T, greater: (T, T) -> bool)
    ensures DiameterOf(items, distance, greater).None? <==> |items| < 2
  {
    var ps := PairsFrom(0, |items|);
    PairsFromMembers(0, |items|);
    if |items| >= 2 {
      assert (0, 1) in ps;
    }
  }

  /** Where pair `(a, b)`, `a < b`, is visited. */
  lemma PairPosition(n: int, a: int, b: int) returns (k: nat)
    requires 0 <= a < b < n
    ensures k < |PairsFrom(0, n)| && PairsFrom(0, n)[k] == (a, b)
  {
    PairsFromMembers(0, n);
    assert (a, b) in PairsFrom(0, n);
    k :| 0 <= k < |PairsFrom(0, n)| && PairsFrom(0, n)[k] == (a, b);
  }

  /** A pair visited earlier comes before in the lexicographic order. */
  lemma PairsOrdered(n: int, k: int, k': int)
    requires 0 <= k < k' < |PairsFrom(0, n)|
    ensures Before(PairsFrom(0, n)[k], PairsFrom(0, n)[k'])
  {
    PairsFromIncreasing(0, n);
  }

  /** The distance of the pair visited at position `k`, which is a pair `i < j`. */
  lemma DistanceAt<Item, T>(items: seq<Item>, distance: (Item, Item) -> T, k: int)
    requires 0 <= k < |PairsFrom(0, |items|)|
    ensures var p := PairsFrom(0, |items|)[k];
      && 0 <= p.0 < p.1 < |items|
      && |AllDistances(items, distance)| == |PairsFrom(0, |items|)|
      && AllDistances(items, distance)[k] == distance(items[p.0], items[p.1])
  {
    PairsInRange(|items|);
    assert PairsFrom(0, |items|)[k] in PairsFrom(0, |items|);
  }

  /** A distance not exceeded by the one at any position is not exceeded by that of any pair. */
  lemma AtLeastEveryPair<Item, T>(items: seq<Item>, distance: (Item, Item) -> T, greater: (T, T) -> bool, x: T)
    requires forall k :: 0 <= k < |AllDistances(items, distance)| ==> !greater(AllDistances(items, distance)[k], x)
    ensures forall a, b :: 0 <= a < b < |items| ==> !greater(distance(items[a], items[b]), x)
  {
    forall a, b | 0 <= a < b < |items|
      ensures !greater(distance(items[a], items[b]), x)
    {
      var k := PairPosition(|items|, a, b);
      DistanceAt(items, distance, k);
    }
  }

  /** Where the diameter was found in the visiting order, with what the fold lemma gives there. */
  lemma DiameterWitness<Item, T(!new)>(items: seq<Item>, distance: (Item, Item) -> T, greater: (T, T) -> bool)
    returns (i: int, j: int)
    requires |items| >= 2
    ensures 0 <= i < j < |items|
    ensures DiameterOf(items, distance, greater) == Some(distance(items[i], items[j]))
    ensures forall a, b :: 0 <= a < b < |items| && Before((i, j), (a, b)) ==>
      !greater(distance(items[a], items[b]), distance(items[i], items[j]))
    ensures StrictPartialOrder(greater) ==> forall a, b :: 0 <= a < b < |items| ==>
      !greater(distance(items[a], items[b]), distance(items[i], items[j]))
    ensures StrictTotalOrder(greater) ==> forall a, b :: 0 <= a < b < |items| && Before((a, b), (i, j)) ==>
      greater(distance(items[i], items[j]), distance(items[a], items[b]))
  {
    var n := |items|;
    var ds := AllDistances(items, distance);
    var k0 := PairPosition(n, 0, 1);
    DistanceAt(items, distance, k0);
    var k := AccumulateWitness(ds, greater);
    DistanceAt(items, distance, k);
    i, j := PairsFrom(0, n)[k].0, PairsFrom(0, n)[k].1;
    PairsAround(items, distance, greater, k);
    if StrictPartialOrder(greater) {
      AtLeastEveryPair(items, distance, greater, ds[k]);
    }
    if StrictTotalOrder(greater) {
      AboveEarlierPairs(items, distance, greater, k);
    }
  }

  /** Pairs visited after position `k` and, given strict ones before it, pairs visited before. */
  lemma PairsAround<Item, T>(items: seq<Item>, distance: (Item, Item) -> T, greater: (T, T) -> bool, k: int)
    requires 0 <= k < |AllDistances(items, distance)| == |PairsFrom(0, |items|)|
    requires forall k' :: k < k' < |AllDistances(items, distance)| ==>
      !greater(AllDistances(items, distance)[k'], AllDistances(items, distance)[k])
    ensures var p := PairsFrom(0, |items|)[k];
      forall a, b :: 0 <= a < b < |items| && Before(p, (a, b)) ==>
        !greater(distance(items[a], items[b]), AllDistances(items, distance)[k])
  {
    var n := |items|;
    var ds := AllDistances(items, distance);
    var p := PairsFrom(0, n)[k];
    forall a, b | 0 <= a < b < n && Before(p, (a, b))
      ensures !greater(distance(items[a], items[b]), ds[k])
    {
      var k' := PairPosition(n, a, b);
      if k' < k {
        PairsOrdered(n, k', k);
      }
      DistanceAt(items, distance, k');
    }
  }

  /** A distance strictly above those at earlier positions is strictly above those of earlier pairs. */
  lemma AboveEarlierPairs<Item, T>(items: seq<Item>, distance: (Item, Item) -> T, greater: (T, T) -> bool, k: int)
    requires 0 <= k < |AllDistances(items, distance)| == |PairsFrom(0, |items|)|
    requires forall k' :: 0 <= k' < k ==>
      greater(AllDistances(items, distance)[k], AllDistances(items, distance)[k'])
    ensures var p := PairsFrom(0, |items|)[k];
      forall a, b :: 0 <= a < b < |items| && Before((a, b), p) ==>
        greater(AllDistances(items, distance)[k], distance(items[a], items[b]))
  {
    var n := |items|;
    var ds := AllDistances(items, distance);
    var p := PairsFrom(0, n)[k];
    forall a, b | 0 <= a < b < n && Before((a, b), p)
      ensures greater(ds[k], distance(items[a], items[b]))
    {
      var k' := PairPosition(n, a, b);
      if k < k' {
        PairsOrdered(n, k, k');
      }
      DistanceAt(items, distance, k');
    }
  }
}
