/**
 * The "quadratic" scenario of the tests in src/search/tabu.rs: on the integer
 * grid, with the point and its eight neighbours as descendants and the
 * squared distance to (5, 5) as cost, the search walks one step toward
 * (5, 5) per iteration. Proved for every starting point and every budget of
 * at least its Chebyshev distance to (5, 5); the stopping cost 0 is never
 * undercut.
 */
module BowlTests {
  import opened Wrappers
  import opened Tabu

  type Point = (int, int)

  function Square(a: int): int { a * a }

  /** The squared distance to (5, 5). */
  function Bowl(p: Point): int { Square(p.0 - 5) + Square(p.1 - 5) }

  /** The points at offsets -1, 0, 1 along each axis, the first offset varying slowest. */
  function GridNeighbours(p: Point): seq<Point>
  {
    var (x, y) := p;
    [(x - 1, y - 1), (x - 1, y), (x - 1, y + 1),
     (x, y - 1), (x, y), (x, y + 1),
     (x + 1, y - 1), (x + 1, y), (x + 1, y + 1)]
  }

  lemma SquareNonNegative(a: int)
    ensures Square(a) >= 0
  {
  }

  lemma BowlNonNegative()
    ensures forall p :: 0 <= Bowl(p)
  {
    forall p: Point
      ensures 0 <= Bowl(p)
    {
      SquareNonNegative(p.0 - 5);
      SquareNonNegative(p.1 - 5);
    }
  }

  function Sign(a: int): int { if a < 0 then -1 else if a > 0 then 1 else 0 }

  /** The neighbour one step closer to (5, 5) along each axis, and its position among the neighbours. */
  function Toward(p: Point): Point { (p.0 + Sign(5 - p.0), p.1 + Sign(5 - p.1)) }

  function TowardIndex(p: Point): nat { 3 * (Sign(5 - p.0) + 1) + (Sign(5 - p.1) + 1) }

  /** The Chebyshev distance to (5, 5): the number of steps the descent needs. */
  function Dist(p: Point): nat
  {
    var dx, dy := if p.0 < 5 then 5 - p.0 else p.0 - 5, if p.1 < 5 then 5 - p.1 else p.1 - 5;
    if dx < dy then dy else dx
  }

  /** Along one axis, stepping toward 5 is the cheapest of the three moves, and strictly so. */
  lemma SquareToward(a: int, d: int)
    requires -1 <= d <= 1
    ensures Square(a + Sign(-a)) <= Square(a + d)
    ensures d != Sign(-a) ==> Square(a + Sign(-a)) < Square(a + d)
  {
    assert Square(a + d) == a * a + 2 * a * d + d * d;
    assert Square(a + Sign(-a)) == a * a + 2 * a * Sign(-a) + Sign(-a) * Sign(-a);
  }

  lemma NeighbourAt(p: Point, i: int)
    requires 0 <= i < 9
    ensures GridNeighbours(p)[i] == (p.0 + i / 3 - 1, p.1 + i % 3 - 1)
  {
  }

  /** `Toward(p)` is strictly cheaper than every other neighbour of `p`. */
  lemma TowardCheapest(p: Point, i: int)
    requires 0 <= i < 9 && i != TowardIndex(p)
    ensures GridNeighbours(p)[TowardIndex(p)] == Toward(p)
    ensures Bowl(Toward(p)) < Bowl(GridNeighbours(p)[i])
  {
    NeighbourAt(p, TowardIndex(p));
    NeighbourAt(p, i);
    SquareToward(p.0 - 5, i / 3 - 1);
    SquareToward(p.1 - 5, i % 3 - 1);
  }

  /** Unless tabu, `Toward(p)` is the first cheapest non-tabu neighbour of `p`. */
  lemma TowardIsFirstMin(p: Point, tabu: set<Point>)
    requires Toward(p) !in tabu
    ensures GridNeighbours(p)[TowardIndex(p)] == Toward(p)
    ensures IsFirstMin(GridNeighbours(p), tabu, Bowl, TowardIndex(p))
  {
    NeighbourAt(p, TowardIndex(p));
    forall i | 0 <= i < 9 && i != TowardIndex(p)
      ensures Bowl(Toward(p)) < Bowl(GridNeighbours(p)[i])
    {
      TowardCheapest(p, i);
    }
  }

  /** Away from (5, 5), stepping toward it lowers the distance by one and the cost strictly. */
  lemma TowardCloser(p: Point)
    requires 0 < Dist(p)
    ensures Dist(Toward(p)) == Dist(p) - 1
    ensures Toward(p) != p && Bowl(Toward(p)) < Bowl(p)
  {
    SquareToward(p.0 - 5, 0);
    SquareToward(p.1 - 5, 0);
  }

  /** The point reached after `k` steps toward (5, 5) from `p0`. */
  function Path(p0: Point, k: nat): Point
  {
    if k == 0 then p0 else Toward(Path(p0, k - 1))
  }

  /** The points the walk has left after `k` steps: the tabu set. */
  function Trail(p0: Point, k: nat): set<Point>
  {
    if k == 0 then {} else Trail(p0, k - 1) + {Path(p0, k - 1)}
  }

  lemma {:induction false} PathDist(p0: Point, k: nat)
    requires k <= Dist(p0)
    ensures Dist(Path(p0, k)) == Dist(p0) - k
  {
    if k > 0 {
      PathDist(p0, k - 1);
      TowardCloser(Path(p0, k - 1));
    }
  }

  /** Every point left behind is farther from (5, 5) than the current one. */
  lemma {:induction false} TrailFarther(p0: Point, k: nat)
    requires k <= Dist(p0)
    ensures forall t :: t in Trail(p0, k) ==> Dist(Path(p0, k)) < Dist(t)
  {
    if k > 0 {
      TrailFarther(p0, k - 1);
      PathDist(p0, k - 1);
      PathDist(p0, k);
    }
  }

  /** Short of (5, 5), the next point of the descent is not tabu. */
  lemma TowardFresh(p0: Point, k: nat)
    requires k < Dist(p0)
    ensures 0 < Dist(Path(p0, k)) && Toward(Path(p0, k)) !in Trail(p0, k)
  {
    PathDist(p0, k);
    TrailFarther(p0, k);
    TowardCloser(Path(p0, k));
  }

  /** The walk after `k` steps toward (5, 5) from `p0`: each point is the best so far, and the points behind it are tabu. */
  function DescentAt(p0: Point, k: nat): Walk<Point>
  {
    Walk(Path(p0, k), Path(p0, k), Bowl(Path(p0, k)), Trail(p0, k))
  }

  /** One iteration short of (5, 5): the walk moves toward it, its new best, since that point is not tabu. */
  lemma StepToward(p0: Point, k: nat)
    requires k < Dist(p0)
    requires Run(Start(p0, Bowl), GridNeighbours, Bowl, Some(0), k) == Completed(DescentAt(p0, k))
    ensures Run(Start(p0, Bowl), GridNeighbours, Bowl, Some(0), k + 1) == Completed(DescentAt(p0, k + 1))
  {
    var p := Path(p0, k);
    TowardFresh(p0, k);
    TowardCloser(p);
    TowardIsFirstMin(p, Trail(p0, k) + {p});
    BowlNonNegative();
    IterateMoves(DescentAt(p0, k), GridNeighbours, Bowl, Some(0), TowardIndex(p));
  }

  /** From any starting point, for the first `Dist(p0)` iterations the walk steps toward (5, 5). */
  lemma {:induction false} DescentWalk(p0: Point, k: nat)
    requires k <= Dist(p0)
    ensures Run(Start(p0, Bowl), GridNeighbours, Bowl, Some(0), k) == Completed(DescentAt(p0, k))
  {
    if k > 0 {
      DescentWalk(p0, k - 1);
      StepToward(p0, k - 1);
    }
  }

  /**
   * From every starting point, with the stopping cost 0 that no state
   * undercuts, the search returns (5, 5) once it may run `Dist(p0)`
   * iterations.
   */
  lemma BowlFindsCentre(p0: Point, n: nat)
    requires Dist(p0) <= n
    ensures SearchResult(p0, GridNeighbours, Bowl, n, Some(0)) == (5, 5)
  {
    var k := Dist(p0);
    DescentWalk(p0, k);
    PathDist(p0, k);
    var c := Path(p0, k);
    assert c == (5, 5);
    BowlNonNegative();
    FloorIsFinal(p0, GridNeighbours, Bowl, Some(0), k, DescentAt(p0, k), n);
  }

  /** test_tabu_search_quadratic: from each of the four starting points, 100 iterations find (5, 5). */
  lemma TestQuadratic()
    ensures SearchResult((10, 10), GridNeighbours, Bowl, 100, Some(0)) == (5, 5)
    ensures SearchResult((0, 0), GridNeighbours, Bowl, 100, Some(0)) == (5, 5)
    ensures SearchResult((7, 0), GridNeighbours, Bowl, 100, Some(0)) == (5, 5)
    ensures SearchResult((6, 5), GridNeighbours, Bowl, 100, Some(0)) == (5, 5)
  {
    BowlFindsCentre((10, 10), 100);
    BowlFindsCentre((0, 0), 100);
    BowlFindsCentre((7, 0), 100);
    BowlFindsCentre((6, 5), 100);
  }
}
