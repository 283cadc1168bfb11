/**
 * The scenarios of the tests in src/search/tabu.rs, with integer costs,
 * proved for every iteration budget large enough rather than run once.
 */
module TabuTests {
  import opened Wrappers
  import opened Tabu

  /** The states one below, equal to and one above `s`, in that order, keeping the non-negative ones. */
  function NonNegativeNeighbours(s: int): seq<int>
  {
    (if s - 1 >= 0 then [s - 1] else []) + (if s >= 0 then [s] else []) + (if s + 1 >= 0 then [s + 1] else [])
  }

  /** The same three states, keeping those between 0 and 10. */
  function BoundedNeighbours(s: int): seq<int>
  {
    (if 0 <= s - 1 <= 10 then [s - 1] else []) + (if 0 <= s <= 10 then [s] else []) + (if 0 <= s + 1 <= 10 then [s + 1] else [])
  }

  function Identity(s: int): int { s }

  /** The integers `lo, ..., hi - 1`, as a set. */
  function Upto(lo: int, hi: int): set<int>
    decreases hi - lo
  {
    if hi <= lo then {} else Upto(lo, hi - 1) + {hi - 1}
  }

  lemma {:induction false} UptoHas(lo: int, hi: int, x: int)
    ensures x in Upto(lo, hi) <==> lo <= x < hi
    decreases hi - lo
  {
    if lo < hi {
      UptoHas(lo, hi - 1, x);
    }
  }

  /** `Upto` also grows at its lower end. */
  lemma {:induction false} UptoFromBelow(lo: int, hi: int)
    requires lo < hi
    ensures Upto(lo, hi) == {lo} + Upto(lo + 1, hi)
    decreases hi - lo
  {
    if lo + 1 < hi {
      UptoFromBelow(lo, hi - 1);
    }
  }

  /** The cost of the "cross barrier" test: an inverted V peaked at 3, falling away on both sides. */
  function Barrier(s: int): int { if s < 3 then s - 3 else 3 - s }

  /** One iteration of the descent: from `c >= 1`, with everything above `c` tabu, the walk moves down to `c - 1`, its new best. */
  lemma LinearStep(s0: nat, c: int)
    requires 1 <= c <= s0
    ensures Iterate(Walk(c, c, c, Upto(c + 1, s0 + 1)), NonNegativeNeighbours, Identity, None) ==
            Completed(Walk(c - 1, c - 1, c - 1, Upto(c, s0 + 1)))
  {
    var w: Walk<int> := Walk(c, c, c, Upto(c + 1, s0 + 1));
    var ds := NonNegativeNeighbours(c);
    assert ds == [c - 1, c, c + 1];
    UptoHas(c + 1, s0 + 1, c - 1);
    assert IsFirstMin(ds, w.tabu + {c}, Identity, 0);
    IterateMoves(w, NonNegativeNeighbours, Identity, None, 0);
    UptoFromBelow(c, s0 + 1);
  }

  /** Descending from `s0`, after `k` iterations the walk stands at `s0 - k` and everything above it is tabu. */
  lemma {:induction false} LinearWalk(s0: nat, k: nat)
    requires k <= s0
    ensures Run(Start<int>(s0, Identity), NonNegativeNeighbours, Identity, None, k) ==
            Completed(Walk(s0 - k, s0 - k, s0 - k, Upto(s0 - k + 1, s0 + 1)))
  {
    if k > 0 {
      LinearWalk(s0, k - 1);
      var c := s0 - (k - 1);
      RunStep(Start<int>(s0, Identity), NonNegativeNeighbours, Identity, None, k - 1, Walk(c, c, c, Upto(c + 1, s0 + 1)));
      LinearStep(s0, c);
    }
  }

  /**
   * Starting from `s0 >= 1` with neighbours `s - 1, s, s + 1` kept when
   * non-negative and cost the state itself, the search returns 0 once it may
   * run `s0` iterations.
   */
  lemma LinearFindsZero(s0: nat, n: nat)
    requires 1 <= s0 <= n
    ensures SearchResult<int>(s0, NonNegativeNeighbours, Identity, n, None) == 0
  {
    var start := Start<int>(s0, Identity);
    var w0: Walk<int> := Walk(0, 0, 0, Upto(1, s0 + 1));
    LinearWalk(s0, s0);
    assert Run(start, NonNegativeNeighbours, Identity, None, s0) == Completed(w0);
    if n > s0 {
      var w1: Walk<int> := Walk(0, 0, 0, Upto(0, s0 + 1));
      LinearStall(s0);
      RunStep(start, NonNegativeNeighbours, Identity, None, s0, w0);
      StallIsFinal(start, NonNegativeNeighbours, Identity, None, s0 + 1, w1, n - s0 - 1);
      assert Run(start, NonNegativeNeighbours, Identity, None, n) == Completed(w1);
    }
  }

  /** At 0 both neighbours are tabu: the walk stalls there, and stalls again once 0 itself is tabu. */
  lemma LinearStall(s0: nat)
    requires 1 <= s0
    ensures var w0: Walk<int>, w1: Walk<int> := Walk(0, 0, 0, Upto(1, s0 + 1)), Walk(0, 0, 0, Upto(0, s0 + 1));
      && Iterate(w0, NonNegativeNeighbours, Identity, None) == Completed(w1)
      && Iterate(w1, NonNegativeNeighbours, Identity, None) == Completed(w1)
  {
    var w0: Walk<int> := Walk(0, 0, 0, Upto(1, s0 + 1));
    var w1: Walk<int> := Walk(0, 0, 0, Upto(0, s0 + 1));
    assert NonNegativeNeighbours(0) == [0, 1];
    UptoHas(1, s0 + 1, 1);
    UptoFromBelow(0, s0 + 1);
    IterateStalls(w0, NonNegativeNeighbours, Identity, None);
    assert w1.tabu + {0} == w1.tabu;
    IterateStalls(w1, NonNegativeNeighbours, Identity, None);
  }

  /** test_tabu_search_linear: start 20, 100 iterations, result 0. */
  lemma TestLinear()
    ensures SearchResult<int>(20, NonNegativeNeighbours, Identity, 100, None) == 0
  {
    LinearFindsZero(20, 100);
  }

  /** The best of the first `k` states 0, 1, ..., k - 1, k of the barrier walk. */
  function BarrierBest(k: int): int { if k < 7 then 0 else k }

  /** One iteration of the climb: from `c < 10`, with everything below `c` tabu, the walk moves up to `c + 1`. */
  lemma BarrierStep(c: int)
    requires 0 <= c < 10
    ensures Iterate(Walk(c, BarrierBest(c), Barrier(BarrierBest(c)), Upto(0, c)), BoundedNeighbours, Barrier, None) ==
            Completed(Walk(c + 1, BarrierBest(c + 1), Barrier(BarrierBest(c + 1)), Upto(0, c + 1)))
  {
    var w: Walk<int> := Walk(c, BarrierBest(c), Barrier(BarrierBest(c)), Upto(0, c));
    var ds := BoundedNeighbours(c);
    var m := if c == 0 then 1 else 2;
    assert c == 0 ==> ds == [0, 1];
    assert c > 0 ==> ds == [c - 1, c, c + 1];
    UptoHas(0, c, c + 1);
    if c > 0 {
      UptoHas(0, c, c - 1);
    }
    assert IsFirstMin(ds, w.tabu + {c}, Barrier, m);
    IterateMoves(w, BoundedNeighbours, Barrier, None, m);
  }

  /** Climbing from 0, after `k` iterations the walk stands at `k`, everything below it is tabu, and the best is `BarrierBest(k)`. */
  lemma {:induction false} BarrierWalk(k: nat)
    requires k <= 10
    ensures Run(Start<int>(0, Barrier), BoundedNeighbours, Barrier, None, k) ==
            Completed(Walk(k, BarrierBest(k), Barrier(BarrierBest(k)), Upto(0, k)))
  {
    if k > 0 {
      BarrierWalk(k - 1);
      var c := k - 1;
      RunStep(Start<int>(0, Barrier), BoundedNeighbours, Barrier, None, c, Walk(c, BarrierBest(c), Barrier(BarrierBest(c)), Upto(0, c)));
      BarrierStep(c);
    }
  }

  /**
   * test_tabu_search_cross_barier: from 0 on the states 0..10 with the
   * cost peaked at 3 (an inverted V), the walk climbs over the worse states around 3 and the
   * search returns 10 once it may run 10 iterations.
   */
  lemma BarrierFindsTen(n: nat)
    requires 10 <= n
    ensures SearchResult<int>(0, BoundedNeighbours, Barrier, n, None) == 10
  {
    BarrierFindsTop(10, n);
  }

  /** The same, with the upper end of the states a variable so that the solver does not unroll the run. */
  lemma BarrierFindsTop(top: int, n: nat)
    requires top == 10 && top <= n
    ensures SearchResult<int>(0, BoundedNeighbours, Barrier, n, None) == top
  {
    BarrierWalk(top);
    if n > top {
      BarrierStaysAtTop(top, n);
    }
  }

  /** After ten iterations the walk stands at 10, which is also the best state. */
  lemma BarrierAtTop(top: int)
    requires top == 10
    ensures Run(Start<int>(0, Barrier), BoundedNeighbours, Barrier, None, top) ==
            Completed(Walk(top, top, Barrier(top), Upto(0, top)))
  {
    BarrierWalk(top);
  }

  /** Past the tenth iteration the run no longer changes. */
  lemma BarrierStaysAtTop(top: int, n: nat)
    requires top == 10 && top < n
    ensures Run(Start<int>(0, Barrier), BoundedNeighbours, Barrier, None, n) ==
            Completed(Walk(top, top, Barrier(top), Upto(0, top + 1)))
  {
    var start := Start<int>(0, Barrier);
    var w0: Walk<int> := Walk(top, top, Barrier(top), Upto(0, top));
    var w1: Walk<int> := Walk(top, top, Barrier(top), Upto(0, top + 1));
    BarrierAtTop(top);
    BarrierStall(top);
    RunStep(start, BoundedNeighbours, Barrier, None, top, w0);
    StallIsFinal(start, BoundedNeighbours, Barrier, None, top + 1, w1, n - top - 1);
  }

  /** At the upper end 10 both neighbours are tabu: the walk stalls there for good. */
  lemma BarrierStall(top: int)
    requires top == 10
    ensures var w0: Walk<int>, w1: Walk<int> := Walk(top, top, Barrier(top), Upto(0, top)), Walk(top, top, Barrier(top), Upto(0, top + 1));
      && Iterate(w0, BoundedNeighbours, Barrier, None) == Completed(w1)
      && Iterate(w1, BoundedNeighbours, Barrier, None) == Completed(w1)
  {
    var w0: Walk<int> := Walk(top, top, Barrier(top), Upto(0, top));
    var w1: Walk<int> := Walk(top, top, Barrier(top), Upto(0, top + 1));
    assert BoundedNeighbours(top) == [top - 1, top];
    UptoHas(0, top, top - 1);
    IterateStalls(w0, BoundedNeighbours, Barrier, None);
    assert w1.tabu + {top} == w1.tabu;
    IterateStalls(w1, BoundedNeighbours, Barrier, None);
  }

  /** The budget of the source's test: 100 iterations. */
  lemma TestCrossBarrier()
    ensures SearchResult<int>(0, BoundedNeighbours, Barrier, 100, None) == 10
  {
    BarrierFindsTen(100);
  }
}
