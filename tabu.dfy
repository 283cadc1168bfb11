/**
 * Generic tabu-search minimisation (src/search/tabu.rs).
 *
 * A state type `S` only needs equality (the source asks for `Hash + Clone + Eq`
 * so that states fit in a hash set). The neighbour generator and the cost are
 * total functions; costs are integers, and the `f64::INFINITY` sentinel of the
 * source is replaced by an absent best descendant.
 */
module Tabu {
  import opened Wrappers

  /** The state the search carries from one iteration to the next. */
  datatype Walk<S> = Walk(current: S, best: S, bestCost: int, tabu: set<S>)

  /** Either a descendant beat the stopping cost, or the iterations ran out. */
  datatype Outcome<S> = Exited(found: S) | Completed(walk: Walk<S>)

  /** `m` is the first index of `ds`, in order, that is not tabu and has the least cost among the non-tabu ones. */
  ghost predicate IsFirstMin<S>(ds: seq<S>, tabu: set<S>, cost: S -> int, m: int)
  {
    0 <= m < |ds| && ds[m] !in tabu &&
    (forall i :: 0 <= i < m && ds[i] !in tabu ==> cost(ds[m]) < cost(ds[i])) &&
    (forall i :: m < i < |ds| && ds[i] !in tabu ==> cost(ds[m]) <= cost(ds[i]))
  }

  /** `k` is the first index of `ds` that is not tabu and costs strictly less than `sc`. */
  ghost predicate IsFirstBelow<S>(ds: seq<S>, tabu: set<S>, cost: S -> int, sc: int, k: int)
  {
    0 <= k < |ds| && ds[k] !in tabu && cost(ds[k]) < sc &&
    forall i :: 0 <= i < k && ds[i] !in tabu ==> sc <= cost(ds[i])
  }

  /** The descendant on which the scan of one iteration returns early, if any. */
  function FirstBelow<S>(ds: seq<S>, tabu: set<S>, cost: S -> int, sc: int): (r: Option<nat>)
    ensures r.Some? ==> r.value < |ds|
  {
    if ds == [] then None
    else if ds[0] !in tabu && cost(ds[0]) < sc then Some(0)
    else match FirstBelow(ds[1..], tabu, cost, sc)
      case None => None
      case Some(k) => Some(k + 1)
  }

  /** `FirstBelow` names the first non-tabu descendant under `sc`, and finds none only when there is none. */
  lemma {:induction false} FirstBelowSpec<S>(ds: seq<S>, tabu: set<S>, cost: S -> int, sc: int)
    ensures var r := FirstBelow(ds, tabu, cost, sc);
      && (r.Some? ==> IsFirstBelow(ds, tabu, cost, sc, r.value))
      && (r.None? ==> forall i :: 0 <= i < |ds| && ds[i] !in tabu ==> sc <= cost(ds[i]))
  {
    if ds != [] {
      FirstBelowSpec(ds[1..], tabu, cost, sc);
    }
  }

  /** The descendant the scan of one iteration keeps as `best_descendant`, if any. */
  function FirstMin<S>(ds: seq<S>, tabu: set<S>, cost: S -> int): (r: Option<nat>)
    ensures r.Some? ==> r.value < |ds|
  {
    if ds == [] then None
    else match FirstMin(ds[1..], tabu, cost)
      case None => if ds[0] in tabu then None else Some(0)
      case Some(k) =>
        if ds[0] !in tabu && cost(ds[0]) <= cost(ds[k + 1]) then Some(0) else Some(k + 1)
  }

  /** `FirstMin` finds nothing exactly when every descendant is tabu, and otherwise the first cheapest non-tabu one. */
  lemma {:induction false} FirstMinSpec<S>(ds: seq<S>, tabu: set<S>, cost: S -> int)
    ensures var r := FirstMin(ds, tabu, cost);
      && (r.None? <==> forall i :: 0 <= i < |ds| ==> ds[i] in tabu)
      && (r.Some? ==> IsFirstMin(ds, tabu, cost, r.value))
  {
    if ds != [] {
      FirstMinSpec(ds[1..], tabu, cost);
    }
  }

  /** The first minimal non-tabu descendant is determined by its defining property. */
  lemma FirstMinUnique<S>(ds: seq<S>, tabu: set<S>, cost: S -> int, m: int)
    requires IsFirstMin(ds, tabu, cost, m)
    ensures FirstMin(ds, tabu, cost) == Some(m)
  {
    FirstMinSpec(ds, tabu, cost);
  }

  /** The first non-tabu descendant under the stopping cost is determined by its defining property. */
  lemma FirstBelowUnique<S>(ds: seq<S>, tabu: set<S>, cost: S -> int, sc: int, k: int)
    requires IsFirstBelow(ds, tabu, cost, sc, k)
    ensures FirstBelow(ds, tabu, cost, sc) == Some(k)
  {
    FirstBelowSpec(ds, tabu, cost, sc);
  }

  /**
   * The best descendant the scan holds after looking at the first `k`
   * descendants: a later one replaces it only when strictly cheaper.
   */
  function ScanPrefix<S>(ds: seq<S>, tabu: set<S>, cost: S -> int, k: nat): (r: Option<nat>)
    requires k <= |ds|
    ensures r.Some? ==> r.value < k
  {
    if k == 0 then None
    else
      var p := ScanPrefix(ds, tabu, cost, k - 1);
      if ds[k - 1] in tabu then p
      else if p.None? || cost(ds[k - 1]) < cost(ds[p.value]) then Some(k - 1)
      else p
  }

  /** After the first `k` descendants the scan holds the first cheapest non-tabu one among them, or none if all are tabu. */
  lemma {:induction false} ScanPrefixIsFirstMin<S>(ds: seq<S>, tabu: set<S>, cost: S -> int, k: nat)
    requires k <= |ds|
    ensures var r := ScanPrefix(ds, tabu, cost, k);
      && (r.None? <==> forall j :: 0 <= j < k ==> ds[j] in tabu)
      && (r.Some? ==> IsFirstMin(ds[..k], tabu, cost, r.value))
  {
    if k > 0 {
      ScanPrefixIsFirstMin(ds, tabu, cost, k - 1);
      assert forall j :: 0 <= j < k - 1 ==> ds[..k][j] == ds[..k - 1][j];
    }
  }

  /** A complete scan keeps exactly the descendant `FirstMin` names. */
  lemma ScanIsFirstMin<S>(ds: seq<S>, tabu: set<S>, cost: S -> int)
    ensures ScanPrefix(ds, tabu, cost, |ds|) == FirstMin(ds, tabu, cost)
  {
    ScanPrefixIsFirstMin(ds, tabu, cost, |ds|);
    FirstMinSpec(ds, tabu, cost);
    assert ds[..|ds|] == ds;
    var r := ScanPrefix(ds, tabu, cost, |ds|);
    if r.Some? {
      FirstMinUnique(ds, tabu, cost, r.value);
    }
  }

  /** The elements of `s` that are not tabu, in order. */
  function NonTabu<S>(s: seq<S>, tabu: set<S>): (r: seq<S>)
    ensures |r| <= |s|
  {
    if s == [] then []
    else NonTabu(s[..|s| - 1], tabu) + (if s[|s| - 1] in tabu then [] else [s[|s| - 1]])
  }

  /** `NonTabu` keeps exactly the elements of `s` that are not tabu. */
  lemma {:induction false} NonTabuMembers<S>(s: seq<S>, tabu: set<S>)
    ensures forall k :: 0 <= k < |NonTabu(s, tabu)| ==> NonTabu(s, tabu)[k] in s && NonTabu(s, tabu)[k] !in tabu
    ensures forall k :: 0 <= k < |s| && s[k] !in tabu ==> s[k] in NonTabu(s, tabu)
  {
    if s != [] {
      var front := s[..|s| - 1];
      NonTabuMembers(front, tabu);
      assert s == front + [s[|s| - 1]];
    }
  }

  /** Reading one more element of `ds` adds it to the non-tabu ones unless it is tabu. */
  lemma NonTabuSnoc<S>(ds: seq<S>, tabu: set<S>, k: nat)
    requires k < |ds|
    ensures NonTabu(ds[..k + 1], tabu) == NonTabu(ds[..k], tabu) + (if ds[k] in tabu then [] else [ds[k]])
  {
    assert ds[..k + 1][..k] == ds[..k];
  }

  /** How far the scan of one iteration reads `ds`: through its early-exit descendant, or to the end. */
  function ScanEnd<S>(ds: seq<S>, tabu: set<S>, cost: S -> int, stoppingCost: Option<int>): (e: nat)
    ensures e <= |ds|
  {
    var below := if stoppingCost.Some? then FirstBelow(ds, tabu, cost, stoppingCost.value) else None;
    if below.Some? then below.value + 1 else |ds|
  }

  /** The descendants whose cost the scan of one iteration computes, in the order it computes them. */
  function Scanned<S>(ds: seq<S>, tabu: set<S>, cost: S -> int, stoppingCost: Option<int>): seq<S>
  {
    NonTabu(ds[..ScanEnd(ds, tabu, cost, stoppingCost)], tabu)
  }

  /**
   * A scan that does not exit keeps a descendant no dearer than any
   * descendant it computed the cost of.
   */
  lemma ScannedNoCheaper<S>(ds: seq<S>, tabu: set<S>, cost: S -> int, stoppingCost: Option<int>)
    requires stoppingCost.Some? ==> FirstBelow(ds, tabu, cost, stoppingCost.value).None?
    ensures var m, scanned := FirstMin(ds, tabu, cost), Scanned(ds, tabu, cost, stoppingCost);
      && (m.None? <==> scanned == [])
      && (m.Some? ==> ds[m.value] in scanned && forall t :: 0 <= t < |scanned| ==> cost(ds[m.value]) <= cost(scanned[t]))
  {
    FirstMinSpec(ds, tabu, cost);
    assert ds[..|ds|] == ds;
    NonTabuMembers(ds, tabu);
    var m, scanned := FirstMin(ds, tabu, cost), Scanned(ds, tabu, cost, stoppingCost);
    if m.Some? {
      forall t | 0 <= t < |scanned|
        ensures cost(ds[m.value]) <= cost(scanned[t])
      {
        var j :| 0 <= j < |ds| && ds[j] == scanned[t];
      }
    }
    if scanned != [] {
      var j :| 0 <= j < |ds| && ds[j] == scanned[0];
      assert ds[j] !in tabu;
    }
  }

  /** The walk before the first iteration: the initial state is both current and best, nothing is tabu. */
  function Start<S>(state: S, cost: S -> int): Walk<S>
  {
    Walk(state, state, cost(state), {})
  }

  /**
   * One iteration of the outer loop: make `current` tabu, scan its descendants,
   * return early on the first non-tabu one under the stopping cost, otherwise
   * move to the first cheapest non-tabu one and record it as best if it is
   * strictly cheaper than the best so far.
   */
  function Iterate<S>(w: Walk<S>, descendants: S -> seq<S>, cost: S -> int, stoppingCost: Option<int>): Outcome<S>
  {
    var tabu := w.tabu + {w.current};
    var ds := descendants(w.current);
    var exit := if stoppingCost.Some? then FirstBelow(ds, tabu, cost, stoppingCost.value) else None;
    if exit.Some? then Exited(ds[exit.value])
    else match FirstMin(ds, tabu, cost)
      case None => Completed(w.(tabu := tabu))
      case Some(m) =>
        var d := ds[m];
        if cost(d) < w.bestCost then Completed(Walk(d, d, cost(d), tabu))
        else Completed(Walk(d, w.best, w.bestCost, tabu))
  }

  /**
   * What one iteration can produce: an early exit returns a non-tabu
   * descendant under the stopping cost; otherwise the current state joins the
   * tabu set, and the walk stays where it is or moves to a non-tabu descendant.
   */
  lemma IterateFacts<S>(w: Walk<S>, descendants: S -> seq<S>, cost: S -> int, stoppingCost: Option<int>)
    ensures var r := Iterate(w, descendants, cost, stoppingCost);
      && (r.Exited? ==>
            && stoppingCost.Some? && cost(r.found) < stoppingCost.value
            && r.found in descendants(w.current) && r.found !in w.tabu + {w.current})
      && (r.Completed? ==>
            && r.walk.tabu == w.tabu + {w.current}
            && (r.walk.current == w.current ||
                (r.walk.current in descendants(w.current) && r.walk.current !in r.walk.tabu)))
  {
    var ds, tabu := descendants(w.current), w.tabu + {w.current};
    if stoppingCost.Some? {
      FirstBelowSpec(ds, tabu, cost, stoppingCost.value);
    }
    FirstMinSpec(ds, tabu, cost);
  }

  /**
   * How one iteration decides: it exits exactly when some non-tabu descendant
   * beats the stopping cost, and then on the first one in enumeration order;
   * otherwise it stalls when every descendant is tabu, and else moves to the
   * first cheapest non-tabu descendant whatever its cost, which becomes
   * `best` only when strictly cheaper than `best_cost`.
   */
  lemma IterateChoice<S>(w: Walk<S>, descendants: S -> seq<S>, cost: S -> int, stoppingCost: Option<int>)
    ensures var r, ds, tabu := Iterate(w, descendants, cost, stoppingCost), descendants(w.current), w.tabu + {w.current};
      && (r.Exited? <==> stoppingCost.Some? && exists i :: 0 <= i < |ds| && ds[i] !in tabu && cost(ds[i]) < stoppingCost.value)
      && (r.Exited? ==> exists k :: IsFirstBelow(ds, tabu, cost, stoppingCost.value, k) && r.found == ds[k])
      && (r.Completed? && (forall i :: 0 <= i < |ds| ==> ds[i] in tabu) ==> r.walk == w.(tabu := tabu))
      && (r.Completed? && (exists i :: 0 <= i < |ds| && ds[i] !in tabu) ==>
            exists m :: IsFirstMin(ds, tabu, cost, m) && r.walk.current == ds[m] &&
              (cost(ds[m]) < w.bestCost ==> r.walk.best == ds[m] && r.walk.bestCost == cost(ds[m])) &&
              (w.bestCost <= cost(ds[m]) ==> r.walk.best == w.best && r.walk.bestCost == w.bestCost))
  {
    var ds, tabu := descendants(w.current), w.tabu + {w.current};
    if stoppingCost.Some? {
      FirstBelowSpec(ds, tabu, cost, stoppingCost.value);
    }
    FirstMinSpec(ds, tabu, cost);
  }

  /** An iteration whose scan meets a non-tabu descendant under the stopping cost returns the first such. */
  lemma IterateExits<S>(w: Walk<S>, descendants: S -> seq<S>, cost: S -> int, stoppingCost: Option<int>, k: nat)
    requires stoppingCost.Some?
    requires IsFirstBelow(descendants(w.current), w.tabu + {w.current}, cost, stoppingCost.value, k)
    ensures Iterate(w, descendants, cost, stoppingCost) == Exited(descendants(w.current)[k])
  {
    FirstBelowUnique(descendants(w.current), w.tabu + {w.current}, cost, stoppingCost.value, k);
  }

  /** An iteration with no early exit whose first cheapest non-tabu descendant is at `m` moves there. */
  lemma IterateMoves<S>(w: Walk<S>, descendants: S -> seq<S>, cost: S -> int, stoppingCost: Option<int>, m: nat)
    requires var ds, tabu := descendants(w.current), w.tabu + {w.current};
      stoppingCost.Some? ==> forall j :: 0 <= j < |ds| && ds[j] !in tabu ==> stoppingCost.value <= cost(ds[j])
    requires IsFirstMin(descendants(w.current), w.tabu + {w.current}, cost, m)
    ensures var d, tabu := descendants(w.current)[m], w.tabu + {w.current};
      Iterate(w, descendants, cost, stoppingCost) ==
        if cost(d) < w.bestCost then Completed(Walk(d, d, cost(d), tabu)) else Completed(Walk(d, w.best, w.bestCost, tabu))
  {
    if stoppingCost.Some? {
      FirstBelowSpec(descendants(w.current), w.tabu + {w.current}, cost, stoppingCost.value);
    }
    FirstMinUnique(descendants(w.current), w.tabu + {w.current}, cost, m);
  }

  /** An iteration in which every descendant is tabu only makes the current state tabu. */
  lemma IterateStalls<S>(w: Walk<S>, descendants: S -> seq<S>, cost: S -> int, stoppingCost: Option<int>)
    requires var ds, tabu := descendants(w.current), w.tabu + {w.current};
      forall j :: 0 <= j < |ds| ==> ds[j] in tabu
    ensures Iterate(w, descendants, cost, stoppingCost) == Completed(w.(tabu := w.tabu + {w.current}))
  {
    var ds, tabu := descendants(w.current), w.tabu + {w.current};
    if stoppingCost.Some? {
      FirstBelowSpec(ds, tabu, cost, stoppingCost.value);
    }
    FirstMinSpec(ds, tabu, cost);
  }

  /** The first `n` iterations of a run that starts from walk `w`. */
  function Run<S>(w: Walk<S>, descendants: S -> seq<S>, cost: S -> int, stoppingCost: Option<int>, n: nat): Outcome<S>
  {
    if n == 0 then Completed(w)
    else match Run(w, descendants, cost, stoppingCost, n - 1)
      case Exited(s) => Exited(s)
      case Completed(v) => Iterate(v, descendants, cost, stoppingCost)
  }

  /** What `tabu_search` returns: the early-exit descendant, or the best state once the iterations run out. */
  function SearchResult<S(==)>(state: S, descendants: S -> seq<S>, cost: S -> int, maxIterations: nat, stoppingCost: Option<int>): S
  {
    match Run(Start(state, cost), descendants, cost, stoppingCost, maxIterations)
    case Exited(s) => s
    case Completed(w) => w.best
  }

  /**
   * The states `tabu_search` applies `cost` to during its first `n`
   * iterations, in order: the initial state, then what each iteration scans.
   */
  function Evaluated<S(==)>(state: S, descendants: S -> seq<S>, cost: S -> int, stoppingCost: Option<int>, n: nat): seq<S>
  {
    if n == 0 then [state]
    else match Run(Start(state, cost), descendants, cost, stoppingCost, n - 1)
      case Exited(_) => Evaluated(state, descendants, cost, stoppingCost, n - 1)
      case Completed(v) =>
        Evaluated(state, descendants, cost, stoppingCost, n - 1) +
        Scanned(descendants(v.current), v.tabu + {v.current}, cost, stoppingCost)
  }

  /** The walk invariant: `best_cost` is the cost of `best`, and no state that has been current is cheaper. */
  ghost predicate Consistent<S>(w: Walk<S>, cost: S -> int)
  {
    && w.bestCost == cost(w.best)
    && w.bestCost <= cost(w.current)
    && (w.best == w.current || w.best in w.tabu)
    && forall t :: t in w.tabu ==> w.bestCost <= cost(t)
  }

  /** Once a run has exited early, further iterations do not change its outcome. */
  lemma {:induction false} ExitedSticks<S>(w: Walk<S>, descendants: S -> seq<S>, cost: S -> int, stoppingCost: Option<int>, n: nat, n': nat)
    requires n <= n'
    requires Run(w, descendants, cost, stoppingCost, n).Exited?
    ensures Run(w, descendants, cost, stoppingCost, n') == Run(w, descendants, cost, stoppingCost, n)
    decreases n' - n
  {
    if n < n' {
      ExitedSticks(w, descendants, cost, stoppingCost, n, n' - 1);
    }
  }

  /**
   * Across the iterations of a run: the walk invariant is kept, `best_cost`
   * never increases, `best` only changes to something strictly cheaper, and
   * the tabu set only grows, by the states that were current.
   */
  lemma {:induction false} RunKeepsInvariant<S>(w: Walk<S>, descendants: S -> seq<S>, cost: S -> int, stoppingCost: Option<int>, n: nat)
    requires Consistent(w, cost)
    requires Run(w, descendants, cost, stoppingCost, n).Completed?
    ensures var v := Run(w, descendants, cost, stoppingCost, n).walk;
      && Consistent(v, cost)
      && v.bestCost <= w.bestCost
      && (v.best == w.best || v.bestCost < w.bestCost)
      && w.tabu <= v.tabu
      && (n > 0 ==> w.current in v.tabu)
  {
    if n > 0 {
      RunKeepsInvariant(w, descendants, cost, stoppingCost, n - 1);
      var u := Run(w, descendants, cost, stoppingCost, n - 1).walk;
      var v := Run(w, descendants, cost, stoppingCost, n).walk;
      assert Iterate(u, descendants, cost, stoppingCost) == Completed(v);
      if n - 1 > 0 {
        assert w.current in u.tabu;
      } else {
        assert u == w;
      }
    }
  }

  /** `t` was the current state at the start of one of the first `n` iterations. */
  ghost predicate Visited<S>(w: Walk<S>, descendants: S -> seq<S>, cost: S -> int, stoppingCost: Option<int>, n: nat, t: S)
  {
    exists k :: 0 <= k < n && Run(w, descendants, cost, stoppingCost, k).Completed? &&
      t == Run(w, descendants, cost, stoppingCost, k).walk.current
  }

  /**
   * The tabu set after `n` iterations holds exactly the states that were
   * current at the start of one of those iterations (besides the ones it
   * started with).
   */
  lemma {:induction false} TabuIsVisited<S>(w: Walk<S>, descendants: S -> seq<S>, cost: S -> int, stoppingCost: Option<int>, n: nat)
    requires Run(w, descendants, cost, stoppingCost, n).Completed?
    ensures var v := Run(w, descendants, cost, stoppingCost, n).walk;
      && (forall k :: 0 <= k < n ==>
            Run(w, descendants, cost, stoppingCost, k).Completed? &&
            Run(w, descendants, cost, stoppingCost, k).walk.current in v.tabu)
      && (forall t :: t in v.tabu ==> t in w.tabu || Visited(w, descendants, cost, stoppingCost, n, t))
  {
    if n > 0 {
      TabuIsVisited(w, descendants, cost, stoppingCost, n - 1);
      var u := Run(w, descendants, cost, stoppingCost, n - 1).walk;
      var v := Run(w, descendants, cost, stoppingCost, n).walk;
      assert v.tabu == u.tabu + {u.current};
      forall t | t in v.tabu
        ensures t in w.tabu || Visited(w, descendants, cost, stoppingCost, n, t)
      {
        if t == u.current {
          assert Run(w, descendants, cost, stoppingCost, n - 1).walk.current == t;
        } else {
          assert t in w.tabu || Visited(w, descendants, cost, stoppingCost, n - 1, t);
        }
      }
    }
  }

  /** Without a stopping cost, or when no state costs less than it, a run never exits early. */
  lemma {:induction false} NoExitBelowFloor<S>(w: Walk<S>, descendants: S -> seq<S>, cost: S -> int, stoppingCost: Option<int>, n: nat)
    requires stoppingCost.Some? ==> forall s :: stoppingCost.value <= cost(s)
    ensures Run(w, descendants, cost, stoppingCost, n).Completed?
  {
    if n > 0 {
      NoExitBelowFloor(w, descendants, cost, stoppingCost, n - 1);
      IterateFacts(Run(w, descendants, cost, stoppingCost, n - 1).walk, descendants, cost, stoppingCost);
    }
  }

  /** Once `best_cost` is a lower bound of every cost, `best` never changes again. */
  lemma BestAtFloorStays<S>(w: Walk<S>, descendants: S -> seq<S>, cost: S -> int, stoppingCost: Option<int>, n: nat)
    requires Consistent(w, cost)
    requires forall s :: w.bestCost <= cost(s)
    requires Run(w, descendants, cost, stoppingCost, n).Completed?
    ensures Run(w, descendants, cost, stoppingCost, n).walk.best == w.best
  {
    RunKeepsInvariant(w, descendants, cost, stoppingCost, n);
  }

  /**
   * Once a run stands, after `k` iterations, on a best state whose cost is a
   * lower bound of every cost, and the stopping cost cannot be undercut,
   * `tabu_search` returns that state for every budget of at least `k`.
   */
  lemma FloorIsFinal<S>(state: S, descendants: S -> seq<S>, cost: S -> int, stoppingCost: Option<int>, k: nat, v: Walk<S>, n: nat)
    requires k <= n
    requires Run(Start(state, cost), descendants, cost, stoppingCost, k) == Completed(v)
    requires Consistent(v, cost) && forall s :: v.bestCost <= cost(s)
    requires stoppingCost.Some? ==> forall s :: stoppingCost.value <= cost(s)
    ensures SearchResult(state, descendants, cost, n, stoppingCost) == v.best
  {
    RunSplit(Start(state, cost), descendants, cost, stoppingCost, k, v, n - k);
    NoExitBelowFloor(v, descendants, cost, stoppingCost, n - k);
    BestAtFloorStays(v, descendants, cost, stoppingCost, n - k);
  }

  /** A walk on which an iteration changes nothing stays the same for every later iteration. */
  lemma {:induction false} StallIsFinal<S>(w: Walk<S>, descendants: S -> seq<S>, cost: S -> int, stoppingCost: Option<int>, k: nat, v: Walk<S>, m: nat)
    requires Run(w, descendants, cost, stoppingCost, k) == Completed(v)
    requires Iterate(v, descendants, cost, stoppingCost) == Completed(v)
    ensures Run(w, descendants, cost, stoppingCost, k + m) == Completed(v)
  {
    if m > 0 {
      StallIsFinal(w, descendants, cost, stoppingCost, k, v, m - 1);
    }
  }

  /**
   * When every iteration completes, `tabu_search` returns the best state:
   * no dearer than the initial state, and no dearer than any state that was
   * ever current, which it is itself one of.
   */
  lemma SearchWithoutExit<S>(state: S, descendants: S -> seq<S>, cost: S -> int, maxIterations: nat, stoppingCost: Option<int>)
    requires Run(Start(state, cost), descendants, cost, stoppingCost, maxIterations).Completed?
    ensures var r, v := SearchResult(state, descendants, cost, maxIterations, stoppingCost),
                        Run(Start(state, cost), descendants, cost, stoppingCost, maxIterations).walk;
      && cost(r) <= cost(state)
      && (r == v.current || r in v.tabu)
      && (forall t :: t in v.tabu ==> cost(r) <= cost(t))
      && cost(r) <= cost(v.current)
  {
    RunKeepsInvariant(Start(state, cost), descendants, cost, stoppingCost, maxIterations);
  }

  /** A run that completes `n` iterations completed each earlier one. */
  lemma {:induction false} CompletedBefore<S>(w: Walk<S>, descendants: S -> seq<S>, cost: S -> int, stoppingCost: Option<int>, k: nat, n: nat)
    requires k <= n
    requires Run(w, descendants, cost, stoppingCost, n).Completed?
    ensures Run(w, descendants, cost, stoppingCost, k).Completed?
    decreases n - k
  {
    if k < n {
      assert Run(w, descendants, cost, stoppingCost, n - 1).Completed?;
      CompletedBefore(w, descendants, cost, stoppingCost, k, n - 1);
    }
  }

  /**
   * An iteration that completes scans every non-tabu descendant, and leaves
   * `best_cost` no higher than before and no higher than the cost of any of them.
   */
  lemma IterateBelowDescendants<S>(w: Walk<S>, descendants: S -> seq<S>, cost: S -> int, stoppingCost: Option<int>)
    requires Iterate(w, descendants, cost, stoppingCost).Completed?
    ensures var v, ds, tabu := Iterate(w, descendants, cost, stoppingCost).walk, descendants(w.current), w.tabu + {w.current};
      && Scanned(ds, tabu, cost, stoppingCost) == NonTabu(ds, tabu)
      && v.bestCost <= w.bestCost
      && forall i :: 0 <= i < |ds| && ds[i] !in tabu ==> v.bestCost <= cost(ds[i])
  {
    var ds, tabu := descendants(w.current), w.tabu + {w.current};
    if stoppingCost.Some? {
      FirstBelowSpec(ds, tabu, cost, stoppingCost.value);
    }
    FirstMinSpec(ds, tabu, cost);
    assert ds[..|ds|] == ds;
  }

  /** One more iteration of a run that has not exited: its outcome and what it evaluates. */
  lemma LoopStep<S>(state: S, descendants: S -> seq<S>, cost: S -> int, stoppingCost: Option<int>, n: nat, w: Walk<S>,
                    exit: Option<S>, w': Walk<S>, before: seq<S>, scanned: seq<S>)
    requires Run(Start(state, cost), descendants, cost, stoppingCost, n) == Completed(w)
    requires Iterate(w, descendants, cost, stoppingCost) == if exit.Some? then Exited(exit.value) else Completed(w')
    requires before == Evaluated(state, descendants, cost, stoppingCost, n)
    requires scanned == Scanned(descendants(w.current), w.tabu + {w.current}, cost, stoppingCost)
    ensures Run(Start(state, cost), descendants, cost, stoppingCost, n + 1) == if exit.Some? then Exited(exit.value) else Completed(w')
    ensures Evaluated(state, descendants, cost, stoppingCost, n + 1) == before + scanned
  {
  }

  /**
   * The states evaluated start with the initial state and always include
   * the state the search would return: the early-exit descendant, or `best`.
   */
  lemma {:induction false} ResultIsEvaluated<S>(state: S, descendants: S -> seq<S>, cost: S -> int, stoppingCost: Option<int>, n: nat)
    ensures var e := Evaluated(state, descendants, cost, stoppingCost, n);
      && |e| >= 1 && e[0] == state
      && match Run(Start(state, cost), descendants, cost, stoppingCost, n)
         case Exited(x) => x in e
         case Completed(v) => v.best in e
  {
    if n > 0 {
      ResultIsEvaluated(state, descendants, cost, stoppingCost, n - 1);
      var o := Run(Start(state, cost), descendants, cost, stoppingCost, n - 1);
      if o.Completed? {
        var u := o.walk;
        var ds, tabu := descendants(u.current), u.tabu + {u.current};
        var end := ScanEnd(ds, tabu, cost, stoppingCost);
        if stoppingCost.Some? {
          FirstBelowSpec(ds, tabu, cost, stoppingCost.value);
        }
        FirstMinSpec(ds, tabu, cost);
        NonTabuMembers(ds[..end], tabu);
        var before := Evaluated(state, descendants, cost, stoppingCost, n - 1);
        assert Evaluated(state, descendants, cost, stoppingCost, n) == before + Scanned(ds, tabu, cost, stoppingCost);
        match Iterate(u, descendants, cost, stoppingCost)
        case Exited(x) =>
          assert ds[end - 1] == x;
        case Completed(v) =>
          if v.best != u.best {
            var m := FirstMin(ds, tabu, cost).value;
            assert ds[..end][m] == v.best;
          }
      }
    }
  }

  /** After an early exit no further state is evaluated. */
  lemma {:induction false} EvaluatedSticks<S>(state: S, descendants: S -> seq<S>, cost: S -> int, stoppingCost: Option<int>, n: nat, n': nat)
    requires n <= n'
    requires Run(Start(state, cost), descendants, cost, stoppingCost, n).Exited?
    ensures Evaluated(state, descendants, cost, stoppingCost, n') == Evaluated(state, descendants, cost, stoppingCost, n)
    decreases n' - n
  {
    if n < n' {
      EvaluatedSticks(state, descendants, cost, stoppingCost, n, n' - 1);
      ExitedSticks(Start(state, cost), descendants, cost, stoppingCost, n, n' - 1);
    }
  }

  /** After an early exit, neither the result nor the evaluated states change. */
  lemma ExitSettles<S>(state: S, descendants: S -> seq<S>, cost: S -> int, stoppingCost: Option<int>, n: nat, maxIterations: nat, x: S)
    requires n <= maxIterations
    requires Run(Start(state, cost), descendants, cost, stoppingCost, n) == Exited(x)
    ensures Run(Start(state, cost), descendants, cost, stoppingCost, maxIterations) == Exited(x)
    ensures SearchResult(state, descendants, cost, maxIterations, stoppingCost) == x
    ensures Evaluated(state, descendants, cost, stoppingCost, maxIterations) == Evaluated(state, descendants, cost, stoppingCost, n)
  {
    ExitedSticks(Start(state, cost), descendants, cost, stoppingCost, n, maxIterations);
    EvaluatedSticks(state, descendants, cost, stoppingCost, n, maxIterations);
  }

  /** In a run that completes, every state evaluated so far costs at least the current `best_cost`. */
  lemma {:induction false} EvaluatedAboveBest<S>(state: S, descendants: S -> seq<S>, cost: S -> int, stoppingCost: Option<int>, n: nat)
    requires Run(Start(state, cost), descendants, cost, stoppingCost, n).Completed?
    ensures var v := Run(Start(state, cost), descendants, cost, stoppingCost, n).walk;
      forall e :: e in Evaluated(state, descendants, cost, stoppingCost, n) ==> v.bestCost <= cost(e)
  {
    if n > 0 {
      var start := Start(state, cost);
      CompletedBefore(start, descendants, cost, stoppingCost, n - 1, n);
      EvaluatedAboveBest(state, descendants, cost, stoppingCost, n - 1);
      var u := Run(start, descendants, cost, stoppingCost, n - 1).walk;
      var v := Run(start, descendants, cost, stoppingCost, n).walk;
      assert Iterate(u, descendants, cost, stoppingCost) == Completed(v);
      IterateBelowDescendants(u, descendants, cost, stoppingCost);
      var ds, tabu := descendants(u.current), u.tabu + {u.current};
      NonTabuMembers(ds, tabu);
      forall e | e in Scanned(ds, tabu, cost, stoppingCost)
        ensures v.bestCost <= cost(e)
      {
        var i :| 0 <= i < |ds| && ds[i] == e;
      }
    }
  }

  /**
   * When every iteration completes, `tabu_search` returns a state no dearer
   * than any state it applied `cost` to.
   */
  lemma SearchIsCheapestEvaluated<S>(state: S, descendants: S -> seq<S>, cost: S -> int, maxIterations: nat, stoppingCost: Option<int>)
    requires Run(Start(state, cost), descendants, cost, stoppingCost, maxIterations).Completed?
    ensures var r := SearchResult(state, descendants, cost, maxIterations, stoppingCost);
      forall e :: e in Evaluated(state, descendants, cost, stoppingCost, maxIterations) ==> cost(r) <= cost(e)
  {
    EvaluatedAboveBest(state, descendants, cost, stoppingCost, maxIterations);
    RunKeepsInvariant(Start(state, cost), descendants, cost, stoppingCost, maxIterations);
  }

  /** In a run that completes, the state returned costs no more than `best_cost` after any earlier iteration. */
  lemma BestCostNeverRises<S>(state: S, descendants: S -> seq<S>, cost: S -> int, maxIterations: nat, stoppingCost: Option<int>, k: nat, v: Walk<S>)
    requires k <= maxIterations
    requires Run(Start(state, cost), descendants, cost, stoppingCost, k) == Completed(v)
    requires Run(Start(state, cost), descendants, cost, stoppingCost, maxIterations).Completed?
    ensures cost(SearchResult(state, descendants, cost, maxIterations, stoppingCost)) <= v.bestCost
  {
    var start := Start(state, cost);
    RunKeepsInvariant(start, descendants, cost, stoppingCost, k);
    var m := maxIterations - k;
    RunSplit(start, descendants, cost, stoppingCost, k, v, m);
    assert k + m == maxIterations;
    RunKeepsInvariant(v, descendants, cost, stoppingCost, m);
  }

  /**
   * What `tabu_search` evaluates and returns: the initial state is evaluated
   * first, the state returned is among those evaluated, zero iterations
   * return the initial state having evaluated only it, and without an early
   * exit no evaluated state is cheaper than the one returned.
   */
  lemma SearchFacts<S>(state: S, descendants: S -> seq<S>, cost: S -> int, maxIterations: nat, stoppingCost: Option<int>)
    ensures var r, e := SearchResult(state, descendants, cost, maxIterations, stoppingCost),
                        Evaluated(state, descendants, cost, stoppingCost, maxIterations);
      && |e| >= 1 && e[0] == state && r in e
      && (maxIterations == 0 ==> r == state && e == [state])
      && (Run(Start(state, cost), descendants, cost, stoppingCost, maxIterations).Completed? ==>
            forall x :: x in e ==> cost(r) <= cost(x))
  {
    ResultIsEvaluated(state, descendants, cost, stoppingCost, maxIterations);
    if Run(Start(state, cost), descendants, cost, stoppingCost, maxIterations).Completed? {
      SearchIsCheapestEvaluated(state, descendants, cost, maxIterations, stoppingCost);
    }
  }

  /**
   * When every iteration completes, `tabu_search` returns a state no dearer
   * than any descendant that was not tabu when one of its iterations reached it.
   */
  lemma SearchBeatsDescendants<S>(state: S, descendants: S -> seq<S>, cost: S -> int, maxIterations: nat, stoppingCost: Option<int>, k: nat, d: S)
    requires Run(Start(state, cost), descendants, cost, stoppingCost, maxIterations).Completed?
    requires k < maxIterations && Run(Start(state, cost), descendants, cost, stoppingCost, k).Completed?
    requires var u := Run(Start(state, cost), descendants, cost, stoppingCost, k).walk;
      d in descendants(u.current) && d !in u.tabu + {u.current}
    ensures cost(SearchResult(state, descendants, cost, maxIterations, stoppingCost)) <= cost(d)
  {
    var start := Start(state, cost);
    CompletedBefore(start, descendants, cost, stoppingCost, k + 1, maxIterations);
    var u := Run(start, descendants, cost, stoppingCost, k).walk;
    var v := Run(start, descendants, cost, stoppingCost, k + 1).walk;
    assert Iterate(u, descendants, cost, stoppingCost) == Completed(v);
    IterateBelowDescendants(u, descendants, cost, stoppingCost);
    var ds := descendants(u.current);
    var i :| 0 <= i < |ds| && ds[i] == d;
    assert v.bestCost <= cost(d);
    BestCostNeverRises(state, descendants, cost, maxIterations, stoppingCost, k + 1, v);
  }

  /**
   * When `tabu_search` returns early, stopping cost `sc` was given, and the
   * state returned is a descendant of the current state of some iteration,
   * was not tabu in it, and costs strictly less than `sc`.
   */
  lemma {:induction false} SearchWithExit<S>(state: S, descendants: S -> seq<S>, cost: S -> int, maxIterations: nat, stoppingCost: Option<int>)
    requires Run(Start(state, cost), descendants, cost, stoppingCost, maxIterations).Exited?
    ensures var r := SearchResult(state, descendants, cost, maxIterations, stoppingCost);
      && stoppingCost.Some? && cost(r) < stoppingCost.value
      && exists k :: 0 <= k < maxIterations && Run(Start(state, cost), descendants, cost, stoppingCost, k).Completed? &&
           var v := Run(Start(state, cost), descendants, cost, stoppingCost, k).walk;
           r in descendants(v.current) && r !in v.tabu + {v.current}
  {
    var start := Start(state, cost);
    var n := maxIterations;
    var r := SearchResult(state, descendants, cost, maxIterations, stoppingCost);
    while Run(start, descendants, cost, stoppingCost, n - 1).Exited?
      invariant 0 < n <= maxIterations
      invariant Run(start, descendants, cost, stoppingCost, n) == Exited(r)
      decreases n
    {
      n := n - 1;
    }
    var v := Run(start, descendants, cost, stoppingCost, n - 1).walk;
    assert Iterate(v, descendants, cost, stoppingCost) == Exited(r);
    IterateFacts(v, descendants, cost, stoppingCost);
  }

  /**
   * A property of states that holds of the initial state and that every
   * descendant inherits from its parent holds of the state `tabu_search`
   * returns.
   */
  lemma {:induction false} SearchKeeps<S>(state: S, descendants: S -> seq<S>, cost: S -> int, maxIterations: nat, stoppingCost: Option<int>, P: S -> bool)
    requires P(state)
    requires forall s, d :: P(s) && d in descendants(s) ==> P(d)
    ensures P(SearchResult(state, descendants, cost, maxIterations, stoppingCost))
  {
    var start := Start(state, cost);
    var o := Run(start, descendants, cost, stoppingCost, maxIterations);
    RunKeeps(start, descendants, cost, stoppingCost, maxIterations, P);
  }

  lemma {:induction false} RunKeeps<S>(w: Walk<S>, descendants: S -> seq<S>, cost: S -> int, stoppingCost: Option<int>, n: nat, P: S -> bool)
    requires P(w.current) && P(w.best)
    requires forall s, d :: P(s) && d in descendants(s) ==> P(d)
    ensures match Run(w, descendants, cost, stoppingCost, n)
      case Exited(s) => P(s)
      case Completed(v) => P(v.current) && P(v.best)
  {
    if n > 0 {
      RunKeeps(w, descendants, cost, stoppingCost, n - 1, P);
    }
  }

  /** A run of `n + m` iterations that has not exited after `n` is `m` more iterations from where it stands. */
  lemma {:induction false} RunSplit<S>(w: Walk<S>, descendants: S -> seq<S>, cost: S -> int, stoppingCost: Option<int>, n: nat, v: Walk<S>, m: nat)
    requires Run(w, descendants, cost, stoppingCost, n) == Completed(v)
    ensures Run(w, descendants, cost, stoppingCost, n + m) == Run(v, descendants, cost, stoppingCost, m)
  {
    if m > 0 {
      RunSplit(w, descendants, cost, stoppingCost, n, v, m - 1);
    }
  }

  /** The descendant at index `k` of `ds`, when there is an index. */
  function At<S>(ds: seq<S>, k: Option<nat>): Option<S>
    requires k.Some? ==> k.value < |ds|
  {
    if k.Some? then Some(ds[k.value]) else None
  }

  /** One more iteration of a run that has not exited is one more `Iterate`. */
  lemma RunStep<S>(w: Walk<S>, descendants: S -> seq<S>, cost: S -> int, stoppingCost: Option<int>, n: nat, v: Walk<S>)
    requires Run(w, descendants, cost, stoppingCost, n) == Completed(v)
    ensures Run(w, descendants, cost, stoppingCost, n + 1) == Iterate(v, descendants, cost, stoppingCost)
  {
  }

  /** An iteration in terms of what the scan of its descendants yields. */
  lemma IterateByScan<S>(w: Walk<S>, descendants: S -> seq<S>, cost: S -> int, stoppingCost: Option<int>, exit: Option<S>, pick: Option<S>)
    requires var ds, tabu := descendants(w.current), w.tabu + {w.current};
      && exit == At(ds, if stoppingCost.Some? then FirstBelow(ds, tabu, cost, stoppingCost.value) else None)
      && (exit.None? ==> pick == At(ds, FirstMin(ds, tabu, cost)))
    ensures Iterate(w, descendants, cost, stoppingCost) ==
      if exit.Some? then Exited(exit.value)
      else if pick.None? then Completed(w.(tabu := w.tabu + {w.current}))
      else if cost(pick.value) < w.bestCost then Completed(Walk(pick.value, pick.value, cost(pick.value), w.tabu + {w.current}))
      else Completed(Walk(pick.value, w.best, w.bestCost, w.tabu + {w.current}))
  {
  }

  /**
   * The inner loop of `tabu_search`: scan the descendants `ds` of the current
   * state, skipping tabu ones, and either exit on the first one under the
   * stopping cost or keep the first cheapest one. The ghost `scanned` lists,
   * in order, the descendants whose cost was computed.
   */
  method ScanDescendants<S(==)>(ds: seq<S>, tabu: set<S>, cost: S -> int, stoppingCost: Option<int>)
    returns (exit: Option<S>, bestDescendant: Option<S>, bestDescendantCost: int, ghost scanned: seq<S>)
    ensures var below := if stoppingCost.Some? then FirstBelow(ds, tabu, cost, stoppingCost.value) else None;
      exit == At(ds, below)
    ensures exit.None? ==> bestDescendant == At(ds, FirstMin(ds, tabu, cost))
    ensures scanned == Scanned(ds, tabu, cost, stoppingCost)
    ensures exit.None? && bestDescendant.Some? ==> bestDescendantCost == cost(bestDescendant.value)
    ensures exit.Some? ==> exit.value in scanned
    ensures exit.None? && bestDescendant.Some? ==> bestDescendant.value in scanned
    ensures exit.None? && scanned != [] ==> bestDescendant.Some?
  {
    bestDescendant := None;
    bestDescendantCost := 0;
    ghost var m: Option<nat> := None;
    scanned := [];

    var k := 0;
    while k < |ds|
      invariant 0 <= k <= |ds|
      invariant stoppingCost.Some? ==> forall j :: 0 <= j < k && ds[j] !in tabu ==> stoppingCost.value <= cost(ds[j])
      invariant scanned == NonTabu(ds[..k], tabu)
      invariant m == ScanPrefix(ds, tabu, cost, k)
      invariant bestDescendant == At(ds, m)
      invariant m.Some? ==> bestDescendantCost == cost(ds[m.value]) && ds[m.value] in scanned
      invariant scanned != [] ==> m.Some?
    {
      var descendant := ds[k];
      NonTabuSnoc(ds, tabu, k);
      if descendant in tabu {
        k := k + 1;
        continue;
      }

      var descendantCost := cost(descendant);
      scanned := scanned + [descendant];
      if stoppingCost.Some? && descendantCost < stoppingCost.value {
        FirstBelowUnique(ds, tabu, cost, stoppingCost.value, k);
        return Some(descendant), bestDescendant, bestDescendantCost, scanned;
      }

      if bestDescendant.None? || descendantCost < bestDescendantCost {
        bestDescendant := Some(descendant);
        bestDescendantCost := descendantCost;
      }
      m := ScanPrefix(ds, tabu, cost, k + 1);
      k := k + 1;
    }
    ScanIsFirstMin(ds, tabu, cost);
    if stoppingCost.Some? {
      FirstBelowSpec(ds, tabu, cost, stoppingCost.value);
    }
    assert ds[..|ds|] == ds;
    exit := None;
  }

  /**
   * The body of the outer loop of `tabu_search`: make `current` tabu, scan
   * its descendants, then return early or move to the best descendant found,
   * recording it as best if it is strictly cheaper. The ghost `scanned` lists
   * the descendants whose cost was computed.
   */
  method Advance<S(==)>(current: S, best: S, bestCost: int, tabu: set<S>, descendants: S -> seq<S>, cost: S -> int, stoppingCost: Option<int>)
    returns (exit: Option<S>, current': S, best': S, bestCost': int, tabu': set<S>, ghost scanned: seq<S>)
    ensures Iterate(Walk(current, best, bestCost, tabu), descendants, cost, stoppingCost) ==
      if exit.Some? then Exited(exit.value) else Completed(Walk(current', best', bestCost', tabu'))
    ensures scanned == Scanned(descendants(current), tabu + {current}, cost, stoppingCost)
    ensures exit.Some? ==> exit.value in scanned
    ensures exit.None? ==> (best' == best && bestCost' == bestCost) || (best' in scanned && bestCost' == cost(best'))
  {
    ghost var w := Walk(current, best, bestCost, tabu);
    tabu' := tabu + {current};
    var ds := descendants(current);
    var bestDescendant, bestDescendantCost;
    exit, bestDescendant, bestDescendantCost, scanned := ScanDescendants(ds, tabu', cost, stoppingCost);
    IterateByScan(w, descendants, cost, stoppingCost, exit, bestDescendant);
    current', best', bestCost' := current, best, bestCost;
    if exit.Some? {
      return;
    }

    if bestDescendant.Some? {
      var descendant := bestDescendant.value;
      if bestDescendantCost < bestCost {
        best' := descendant;
        bestCost' := bestDescendantCost;
      }
      current' := descendant;
    }
  }

  /**
   * `tabu_search`: minimise `cost` from `state` for at most `maxIterations`
   * iterations. The ghost `evaluated` lists, in order, every state `cost` was
   * applied to.
   */
  method TabuSearch<S(==)>(state: S, descendants: S -> seq<S>, cost: S -> int, maxIterations: nat, stoppingCost: Option<int>)
    returns (r: S, ghost evaluated: seq<S>)
    ensures r == SearchResult(state, descendants, cost, maxIterations, stoppingCost)
    ensures evaluated == Evaluated(state, descendants, cost, stoppingCost, maxIterations)
    ensures |evaluated| >= 1 && evaluated[0] == state && r in evaluated
    ensures maxIterations == 0 ==> r == state && evaluated == [state]
    ensures Run(Start(state, cost), descendants, cost, stoppingCost, maxIterations).Completed? ==>
              forall e :: e in evaluated ==> cost(r) <= cost(e)
  {
    var tabu: set<S> := {};
    var best := state;
    var bestCost := cost(best);
    evaluated := [best];
    var current := best;

    var i := 0;
    while i < maxIterations
      invariant 0 <= i <= maxIterations
      invariant Run(Start(state, cost), descendants, cost, stoppingCost, i) == Completed(Walk(current, best, bestCost, tabu))
      invariant evaluated == Evaluated(state, descendants, cost, stoppingCost, i)
    {
      ghost var w := Walk(current, best, bestCost, tabu);
      var exit;
      ghost var scanned;
      exit, current, best, bestCost, tabu, scanned := Advance(current, best, bestCost, tabu, descendants, cost, stoppingCost);
      LoopStep(state, descendants, cost, stoppingCost, i, w, exit, Walk(current, best, bestCost, tabu), evaluated, scanned);
      evaluated := evaluated + scanned;
      if exit.Some? {
        ExitSettles(state, descendants, cost, stoppingCost, i + 1, maxIterations, exit.value);
        SearchFacts(state, descendants, cost, maxIterations, stoppingCost);
        return exit.value, evaluated;
      }
      i := i + 1;
    }
    r := best;
    SearchFacts(state, descendants, cost, maxIterations, stoppingCost);
  }
}
