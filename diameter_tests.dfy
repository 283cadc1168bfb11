/**
 * The two scenarios of the unit tests of src/clustering/diameter.rs, and
 * what `diameter` does when a distance is incomparable to the others.
 */
module DiameterTests {
  import opened Wrappers
  import opened PairwiseDiameter

  function Greater(a: int, b: int): bool
  {
    a > b
  }

  function AbsDistance(x: int, y: int): int
  {
    if x >= y then x - y else y - x
  }

  function SquaredDistance(x: int, y: int): int
  {
    (x - y) * (x - y)
  }

  lemma GreaterIsTotal()
    ensures StrictTotalOrder(Greater)
  {
  }

  /** Every pair of `[1, 2, 3, 4]` is at most 3 apart, and the first and last are exactly 3 apart. */
  method AbsDiameterOfOneToFour() returns (d: Option<int>)
    ensures d == Some(3)
  {
    var items := [1, 2, 3, 4];
    ghost var calls;
    d, calls := Diameter(items, AbsDistance, Greater);
    GreaterIsTotal();
    var i, j := DiameterWitness(items, AbsDistance, Greater);
    assert !Greater(AbsDistance(items[0], items[3]), AbsDistance(items[i], items[j]));
  }

  /** With the squared difference as distance the diameter of `[1, 2, 3, 4]` is 9. */
  method SquaredDiameterOfOneToFour() returns (d: Option<int>)
    ensures d == Some(9)
  {
    var items := [1, 2, 3, 4];
    ghost var calls;
    d, calls := Diameter(items, SquaredDistance, Greater);
    GreaterIsTotal();
    var i, j := DiameterWitness(items, SquaredDistance, Greater);
    assert !Greater(SquaredDistance(items[0], items[3]), SquaredDistance(items[i], items[j]));
    assert 1 <= items[i] <= 4 && 1 <= items[j] <= 4;
  }

  /** `f64`'s `>`, with `None` standing for NaN: NaN is neither greater nor smaller than anything. */
  function FloatGreater(a: Option<int>, b: Option<int>): bool
  {
    a.Some? && b.Some? && a.value > b.value
  }

  /** A distance that is NaN for every pair whose first item is 0. */
  function NaNFromZero(x: int, y: int): Option<int>
  {
    if x == 0 then None else Some(y - x)
  }

  /**
   * `>` on `f64` is a strict partial order, yet a NaN first distance is never
   * replaced: the diameter of `[0, 1, 3]` is NaN although the pair `(1, 2)`
   * is 2 apart. Under a partial order the result is maximal, not largest.
   */
  lemma NaNFirstDistanceStays()
    ensures StrictPartialOrder(FloatGreater)
    ensures DiameterOf([0, 1, 3], NaNFromZero, FloatGreater) == Some(None)
    ensures NaNFromZero([0, 1, 3][1], [0, 1, 3][2]) == Some(2)
  {
    var items := [0, 1, 3];
    assert PairsFrom(0, 3) == [(0, 1), (0, 2), (1, 2)];
    var ds := AllDistances(items, NaNFromZero);
    assert ds == [None, None, Some(2)];
    assert ds[..2][..1] == ds[..1] == [None];
    assert Accumulate(ds[..1], FloatGreater) == Some(None);
    assert Accumulate(ds[..2], FloatGreater) == Some(None);
    assert Accumulate(ds, FloatGreater) == Keep(Some(None), Some(2), FloatGreater);
  }
}
