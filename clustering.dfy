/**
 * Clustering by tabu search (src/clustering/cluster_tabu.rs).
 *
 * A state is the sequence of clusters, each a sequence of items. A
 * neighbour of a state moves one item from its cluster `i` to a different
 * cluster `j`: every copy of the item is removed from cluster `i` and one
 * copy is appended to cluster `j`.
 */
module Clustering {
  import opened Wrappers
  import Tabu

  type Clusters<Item> = seq<seq<Item>>

  /** All items of all clusters, cluster after cluster. */
  function Flatten<Item>(c: Clusters<Item>): seq<Item>
  {
    if c == [] then [] else c[0] + Flatten(c[1..])
  }

  /** Every item occurs at most once. */
  ghost predicate Distinct<Item>(s: seq<Item>)
  {
    forall k :: 0 <= k < |s| ==> multiset(s)[s[k]] == 1
  }

  /** `s` with every element equal to `x` dropped (`Vec::retain` with `x != item`). */
  function RemoveAll<Item(==)>(s: seq<Item>, x: Item): seq<Item>
  {
    if s == [] then [] else (if s[0] == x then [] else [s[0]]) + RemoveAll(s[1..], x)
  }

  /** `retain` drops every copy of `x` and keeps every other element as often as it occurs. */
  lemma {:induction false} RemoveAllCounts<Item>(s: seq<Item>, x: Item)
    ensures multiset(RemoveAll(s, x)) == multiset(s)[x := 0]
  {
    if s != [] {
      RemoveAllCounts(s[1..], x);
      assert s == [s[0]] + s[1..];
    }
  }

  /**
   * `retain` keeps the surviving elements in their original order: it works piecewise on a
   * concatenation and leaves a sequence without `x` exactly as it was.
   */
  lemma {:induction false} RemoveAllOrder<Item>(a: seq<Item>, b: seq<Item>, x: Item)
    ensures RemoveAll(a + b, x) == RemoveAll(a, x) + RemoveAll(b, x)
    ensures x !in a ==> RemoveAll(a, x) == a
  {
    if a == [] {
      assert a + b == b;
    } else {
      RemoveAllOrder(a[1..], b, x);
      var head := if a[0] == x then [] else [a[0]];
      assert (a + b)[0] == a[0] && (a + b)[1..] == a[1..] + b;
      assert RemoveAll(a + b, x) == head + (RemoveAll(a[1..], x) + RemoveAll(b, x));
    }
  }

  /** The neighbour that moves item `x` from cluster `i` to cluster `j`. */
  function Move<Item(==)>(c: Clusters<Item>, i: nat, x: Item, j: nat): Clusters<Item>
    requires i < |c| && j < |c| && i != j
  {
    c[i := RemoveAll(c[i], x)][j := c[j] + [x]]
  }

  /** The moves of item `x` out of cluster `i` to the clusters `j0, j0 + 1, ...` other than `i`. */
  function TargetMoves<Item(==)>(c: Clusters<Item>, i: nat, x: Item, j0: nat): seq<Clusters<Item>>
    requires i < |c|
    decreases |c| - j0
  {
    if j0 >= |c| then []
    else if j0 == i then TargetMoves(c, i, x, j0 + 1)
    else [Move(c, i, x, j0)] + TargetMoves(c, i, x, j0 + 1)
  }

  /** The moves of the items at positions `t0, t0 + 1, ...` of cluster `i`. */
  function ItemMoves<Item(==)>(c: Clusters<Item>, i: nat, t0: nat): seq<Clusters<Item>>
    requires i < |c|
    decreases |c[i]| - t0
  {
    if t0 >= |c[i]| then [] else TargetMoves(c, i, c[i][t0], 0) + ItemMoves(c, i, t0 + 1)
  }

  /** The moves of the items of clusters `i0, i0 + 1, ...`. */
  function ClusterMoves<Item(==)>(c: Clusters<Item>, i0: nat): seq<Clusters<Item>>
    decreases |c| - i0
  {
    if i0 >= |c| then [] else ItemMoves(c, i0, 0) + ClusterMoves(c, i0 + 1)
  }

  /** The descendants of a state, in the order the local `descendants` lists them. */
  function Neighbours<Item(==)>(c: Clusters<Item>): seq<Clusters<Item>>
  {
    ClusterMoves(c, 0)
  }

  // Steps of the three nested loops of `Descendants`: the moves still to be
  // listed, split the way the loops split them.

  lemma ClusterEnter<Item>(c: Clusters<Item>, ds: seq<Clusters<Item>>, i: nat)
    requires i < |c|
    ensures ds + ClusterMoves(c, i) == ds + ItemMoves(c, i, 0) + ClusterMoves(c, i + 1)
  {
  }

  lemma ItemEnter<Item>(c: Clusters<Item>, ds: seq<Clusters<Item>>, i: nat, t: nat, rest: seq<Clusters<Item>>)
    requires i < |c| && t < |c[i]|
    ensures ds + ItemMoves(c, i, t) + rest == ds + TargetMoves(c, i, c[i][t], 0) + ItemMoves(c, i, t + 1) + rest
  {
  }

  lemma ItemExit<Item>(c: Clusters<Item>, ds: seq<Clusters<Item>>, i: nat, rest: seq<Clusters<Item>>)
    requires i < |c|
    ensures ds + ItemMoves(c, i, |c[i]|) + rest == ds + rest
  {
  }

  lemma TargetSkip<Item>(c: Clusters<Item>, ds: seq<Clusters<Item>>, i: nat, x: Item)
    requires i < |c|
    ensures ds + TargetMoves(c, i, x, i) == ds + TargetMoves(c, i, x, i + 1)
  {
  }

  lemma TargetStep<Item>(c: Clusters<Item>, ds: seq<Clusters<Item>>, i: nat, x: Item, j: nat)
    requires i < |c| && j < |c| && i != j
    ensures ds + TargetMoves(c, i, x, j) == ds + [Move(c, i, x, j)] + TargetMoves(c, i, x, j + 1)
  {
    assert TargetMoves(c, i, x, j) == [Move(c, i, x, j)] + TargetMoves(c, i, x, j + 1);
  }

  lemma TargetExit<Item>(c: Clusters<Item>, ds: seq<Clusters<Item>>, i: nat, x: Item)
    requires i < |c|
    ensures ds + TargetMoves(c, i, x, |c|) == ds
  {
  }

  /**
   * The innermost loop of the local `descendants`: for each cluster `j`
   * other than `i`, push a copy of the clusters with `item` moved from `i`
   * to `j`.
   */
  method PushItemMoves<Item(==)>(c: Clusters<Item>, i: nat, item: Item, ds0: seq<Clusters<Item>>)
    returns (ds: seq<Clusters<Item>>)
    requires i < |c|
    ensures ds == ds0 + TargetMoves(c, i, item, 0)
  {
    ds := ds0;
    for j := 0 to |c|
      invariant ds + TargetMoves(c, i, item, j) == ds0 + TargetMoves(c, i, item, 0)
    {
      if i == j {
        TargetSkip(c, ds, i, item);
        continue;
      }
      var newClusters := c;
      newClusters := newClusters[i := RemoveAll(newClusters[i], item)];
      newClusters := newClusters[j := newClusters[j] + [item]];
      TargetStep(c, ds, i, item, j);
      ds := ds + [newClusters];
    }
    TargetExit(c, ds, i, item);
  }

  /**
   * The local `descendants`: for each cluster `i`, each item of cluster `i`
   * and each other cluster `j`, a copy of the clusters with the item moved
   * from `i` to `j`.
   */
  method Descendants<Item(==)>(c: Clusters<Item>) returns (ds: seq<Clusters<Item>>)
    ensures ds == Neighbours(c)
  {
    ds := [];
    for i := 0 to |c|
      invariant ds + ClusterMoves(c, i) == Neighbours(c)
    {
      var cluster := c[i];
      ClusterEnter(c, ds, i);
      for t := 0 to |cluster|
        invariant ds + ItemMoves(c, i, t) + ClusterMoves(c, i + 1) == Neighbours(c)
      {
        var item := cluster[t];
        ItemEnter(c, ds, i, t, ClusterMoves(c, i + 1));
        ds := PushItemMoves(c, i, item, ds);
      }
      ItemExit(c, ds, i, ClusterMoves(c, i + 1));
    }
  }

  /**
   * What a move does to the clusters: their number is kept, cluster `j`
   * gains `x` at its end, cluster `i` loses every copy of `x` and keeps the
   * rest, and every other cluster is unchanged.
   */
  lemma MoveEffect<Item>(c: Clusters<Item>, i: nat, x: Item, j: nat)
    requires i < |c| && j < |c| && i != j
    ensures var d := Move(c, i, x, j);
      && |d| == |c|
      && d[j] == c[j] + [x]
      && x !in d[i]
      && (forall y :: y != x ==> multiset(d[i])[y] == multiset(c[i])[y])
      && (forall k :: 0 <= k < |c| && k != i && k != j ==> d[k] == c[k])
  {
    var d := Move(c, i, x, j);
    RemoveAllCounts(c[i], x);
    assert multiset(d[i])[x] == 0;
  }

  lemma {:induction false} FlattenAppend<Item>(a: Clusters<Item>, b: Clusters<Item>)
    ensures Flatten(a + b) == Flatten(a) + Flatten(b)
  {
    if a == [] {
      assert a + b == b;
    } else {
      var ab := a + b;
      assert ab[0] == a[0];
      assert ab[1..] == a[1..] + b;
      FlattenAppend(a[1..], b);
      assert Flatten(ab) == a[0] + (Flatten(a[1..]) + Flatten(b));
    }
  }

  lemma AddOnLeft<Item>(p: multiset<Item>, a: multiset<Item>, q: multiset<Item>, b: multiset<Item>, r: multiset<Item>)
    requires a + q == b + r
    ensures p + a + q == p + b + r
  {
    forall y
      ensures (p + a + q)[y] == (p + b + r)[y]
    {
      assert (a + q)[y] == (b + r)[y];
    }
  }

  /** Replacing one cluster replaces its items in the multiset of all items. */
  lemma {:induction false} FlattenUpdate<Item>(c: Clusters<Item>, i: nat, s: seq<Item>)
    requires i < |c|
    ensures multiset(Flatten(c[i := s])) + multiset(c[i]) == multiset(Flatten(c)) + multiset(s)
  {
    var c' := c[i := s];
    var b := multiset(Flatten(c[1..]));
    assert multiset(Flatten(c)) == multiset(c[0]) + b;
    if i > 0 {
      FlattenUpdate(c[1..], i - 1, s);
      assert c'[1..] == c[1..][i - 1 := s];
      var a := multiset(Flatten(c'[1..]));
      assert multiset(Flatten(c')) == multiset(c[0]) + a;
      AddOnLeft(multiset(c[0]), a, multiset(c[i]), b, multiset(s));
    } else {
      assert c'[1..] == c[1..];
      assert multiset(Flatten(c')) == multiset(s) + b;
      assert multiset(s) + b + multiset(c[0]) == multiset(c[0]) + b + multiset(s);
    }
  }

  /** The items of cluster `k` are among all items. */
  lemma {:induction false} ClusterInFlatten<Item>(c: Clusters<Item>, k: nat)
    requires k < |c|
    ensures multiset(c[k]) <= multiset(Flatten(c))
  {
    if k > 0 {
      ClusterInFlatten(c[1..], k - 1);
    }
  }

  /** Removing an item that occurs once removes exactly that occurrence. */
  lemma RemoveOnce<Item>(s: seq<Item>, x: Item)
    requires multiset(s)[x] == 1
    ensures multiset(RemoveAll(s, x)) + multiset{x} == multiset(s)
  {
    var r := RemoveAll(s, x);
    RemoveAllCounts(s, x);
    assert forall y :: (multiset(r) + multiset{x})[y] == multiset(s)[y];
  }

  lemma MultisetCancel<Item>(a: multiset<Item>, b: multiset<Item>, r: multiset<Item>)
    requires a + r == b + r
    ensures a == b
  {
    forall y
      ensures a[y] == b[y]
    {
      assert (a + r)[y] == a[y] + r[y] && (b + r)[y] == b[y] + r[y];
    }
  }

  /** A sequence with the same multiset as one without repeated items has none either. */
  lemma DistinctByMultiset<Item>(s: seq<Item>, t: seq<Item>)
    requires multiset(s) == multiset(t) && Distinct(t)
    ensures Distinct(s)
  {
    forall k | 0 <= k < |s|
      ensures multiset(s)[s[k]] == 1
    {
      assert s[k] in multiset(t);
      var k' :| 0 <= k' < |t| && t[k'] == s[k];
    }
  }

  /** An item at position `t` of cluster `i` occurs once in cluster `i` when no item occurs twice overall. */
  lemma OnceInCluster<Item>(c: Clusters<Item>, i: nat, t: nat)
    requires i < |c| && t < |c[i]|
    requires Distinct(Flatten(c))
    ensures multiset(c[i])[c[i][t]] == 1
  {
    var x := c[i][t];
    var all := Flatten(c);
    ClusterInFlatten(c, i);
    assert x in multiset(c[i]);
    assert x in multiset(all);
    var k :| 0 <= k < |all| && all[k] == x;
  }

  /**
   * Moving an item that is present keeps the multiset of all items when no
   * item occurs twice; with duplicates `retain` would drop the other copies.
   */
  lemma MoveKeepsItems<Item>(c: Clusters<Item>, i: nat, t: nat, j: nat)
    requires i < |c| && j < |c| && i != j && t < |c[i]|
    requires Distinct(Flatten(c))
    ensures multiset(Flatten(Move(c, i, c[i][t], j))) == multiset(Flatten(c))
    ensures Distinct(Flatten(Move(c, i, c[i][t], j)))
  {
    var x := c[i][t];
    OnceInCluster(c, i, t);
    var removed := RemoveAll(c[i], x);
    RemoveOnce(c[i], x);
    var c1 := c[i := removed];
    FlattenUpdate(c, i, removed);
    MultisetCancel(multiset(Flatten(c1)) + multiset{x}, multiset(Flatten(c)), multiset(removed));
    var c2 := c1[j := c1[j] + [x]];
    FlattenUpdate(c1, j, c1[j] + [x]);
    MultisetCancel(multiset(Flatten(c2)), multiset(Flatten(c1)) + multiset{x}, multiset(c1[j]));
    assert c2 == Move(c, i, x, j);
    DistinctByMultiset(Flatten(c2), Flatten(c));
  }

  /** The position of target cluster `j` among the targets `0, 1, ...` other than `i`. */
  function TargetIndex(i: nat, j: nat): nat
  {
    if j <= i then j else j - 1
  }

  lemma Distribute(a: int, b: int, m: int)
    ensures (a + b) * m == a * m + b * m
  {
  }

  lemma SubtractProduct(a: int, b: int, m: int)
    ensures a * m - (a - b) * m == b * m
  {
  }

  lemma {:induction false} TargetMovesLength<Item>(c: Clusters<Item>, i: nat, x: Item, j0: nat)
    requires i < |c| && j0 <= |c|
    ensures |TargetMoves(c, i, x, j0)| == |c| - 1 - TargetIndex(i, j0)
    decreases |c| - j0
  {
    if j0 < |c| {
      TargetMovesLength(c, i, x, j0 + 1);
    }
  }

  lemma {:induction false} TargetMovesAt<Item>(c: Clusters<Item>, i: nat, x: Item, j0: nat, j: nat)
    requires i < |c| && j0 <= j < |c| && j != i
    ensures TargetIndex(i, j0) <= TargetIndex(i, j) < |c| - 1
    ensures var ms, k := TargetMoves(c, i, x, j0), TargetIndex(i, j) - TargetIndex(i, j0);
      k < |ms| && ms[k] == Move(c, i, x, j)
    decreases j - j0
  {
    TargetMovesLength(c, i, x, j0);
    if j0 < j {
      TargetMovesAt(c, i, x, j0 + 1, j);
    }
  }

  lemma {:induction false} ItemMovesLength<Item>(c: Clusters<Item>, i: nat, t0: nat)
    requires i < |c| && t0 <= |c[i]|
    ensures |ItemMoves(c, i, t0)| == (|c[i]| - t0) * (|c| - 1)
    decreases |c[i]| - t0
  {
    if t0 < |c[i]| {
      TargetMovesLength(c, i, c[i][t0], 0);
      ItemMovesLength(c, i, t0 + 1);
      Distribute(1, |c[i]| - (t0 + 1), |c| - 1);
    }
  }

  /** The moves of the item at position `t` come after those of the items before it. */
  lemma {:induction false} ItemMovesAt<Item>(c: Clusters<Item>, i: nat, t0: nat, t: nat, j: nat)
    requires i < |c| && t0 <= t < |c[i]| && j < |c| && j != i
    ensures var ms, k := ItemMoves(c, i, t0), |ItemMoves(c, i, t0)| - |ItemMoves(c, i, t)| + TargetIndex(i, j);
      0 <= k < |ms| && ms[k] == Move(c, i, c[i][t], j)
    decreases t - t0
  {
    var first, rest := TargetMoves(c, i, c[i][t0], 0), ItemMoves(c, i, t0 + 1);
    assert ItemMoves(c, i, t0) == first + rest;
    if t == t0 {
      TargetMovesAt(c, i, c[i][t], 0, j);
      assert (first + rest)[TargetIndex(i, j)] == first[TargetIndex(i, j)];
    } else {
      ItemMovesAt(c, i, t0 + 1, t, j);
      var k' := |rest| - |ItemMoves(c, i, t)| + TargetIndex(i, j);
      assert (first + rest)[|first| + k'] == rest[k'];
    }
  }

  lemma {:induction false} FlattenFrom<Item>(c: Clusters<Item>, i0: nat, i: nat)
    requires i0 < i <= |c|
    ensures |Flatten(c[i0..i])| == |c[i0]| + |Flatten(c[i0 + 1..i])|
  {
    assert c[i0..i][0] == c[i0];
    assert c[i0..i][1..] == c[i0 + 1..i];
  }

  lemma {:induction false} ClusterMovesLength<Item>(c: Clusters<Item>, i0: nat)
    requires i0 <= |c|
    ensures |ClusterMoves(c, i0)| == |Flatten(c[i0..])| * (|c| - 1)
    decreases |c| - i0
  {
    if i0 < |c| {
      ItemMovesLength(c, i0, 0);
      ClusterMovesLength(c, i0 + 1);
      assert c[i0..] == c[i0..|c|] && c[i0 + 1..] == c[i0 + 1..|c|];
      FlattenFrom(c, i0, |c|);
      Distribute(|c[i0]|, |Flatten(c[i0 + 1..])|, |c| - 1);
    }
  }

  /** The moves of the items of cluster `i` come after those of the items of the clusters before it. */
  lemma {:induction false} ClusterMovesAt<Item>(c: Clusters<Item>, i0: nat, i: nat, t: nat, j: nat)
    requires i0 <= i < |c| && t < |c[i]| && j < |c| && j != i
    ensures var ms, k := ClusterMoves(c, i0),
                         |ClusterMoves(c, i0)| - |ClusterMoves(c, i)| + |ItemMoves(c, i, 0)| - |ItemMoves(c, i, t)| + TargetIndex(i, j);
      0 <= k < |ms| && ms[k] == Move(c, i, c[i][t], j)
    decreases i - i0
  {
    var first, rest := ItemMoves(c, i0, 0), ClusterMoves(c, i0 + 1);
    assert ClusterMoves(c, i0) == first + rest;
    if i == i0 {
      ItemMovesAt(c, i, 0, t, j);
      var k := |ItemMoves(c, i, 0)| - |ItemMoves(c, i, t)| + TargetIndex(i, j);
      assert (first + rest)[k] == first[k];
    } else {
      ClusterMovesAt(c, i0 + 1, i, t, j);
      var k' := |rest| - |ClusterMoves(c, i)| + |ItemMoves(c, i, 0)| - |ItemMoves(c, i, t)| + TargetIndex(i, j);
      assert (first + rest)[|first| + k'] == rest[k'];
    }
  }

  /**
   * The order of the descendants: moving the item at position `t` of
   * cluster `i` to cluster `j` comes after every move of an item of an
   * earlier cluster, after the moves of the earlier items of cluster `i`,
   * and after the moves of the same item to the targets before `j`.
   */
  lemma NeighbourAt<Item>(c: Clusters<Item>, i: nat, t: nat, j: nat)
    requires i < |c| && t < |c[i]| && j < |c| && j != i
    ensures var ms, k := Neighbours(c), |Flatten(c[..i])| * (|c| - 1) + t * (|c| - 1) + TargetIndex(i, j);
      0 <= k < |ms| && ms[k] == Move(c, i, c[i][t], j)
  {
    ClusterMovesAt(c, 0, i, t, j);
    EarlierClustersCount(c, i);
    EarlierItemsCount(c, i, t);
  }

  /** Moves of the items of the clusters before `i`: one per item and other cluster. */
  lemma EarlierClustersCount<Item>(c: Clusters<Item>, i: nat)
    requires i < |c|
    ensures |ClusterMoves(c, 0)| - |ClusterMoves(c, i)| == |Flatten(c[..i])| * (|c| - 1)
  {
    ClusterMovesLength(c, 0);
    ClusterMovesLength(c, i);
    assert c[0..] == c[..i] + c[i..];
    FlattenAppend(c[..i], c[i..]);
    Distribute(|Flatten(c[..i])|, |Flatten(c[i..])|, |c| - 1);
  }

  /** Moves of the items before position `t` of cluster `i`. */
  lemma EarlierItemsCount<Item>(c: Clusters<Item>, i: nat, t: nat)
    requires i < |c| && t <= |c[i]|
    ensures |ItemMoves(c, i, 0)| - |ItemMoves(c, i, t)| == t * (|c| - 1)
  {
    ItemMovesLength(c, i, 0);
    ItemMovesLength(c, i, t);
    SubtractProduct(|c[i]|, t, |c| - 1);
  }

  /** There is one descendant per item and per cluster other than the item's own. */
  lemma NeighboursCount<Item>(c: Clusters<Item>)
    ensures |Neighbours(c)| == |Flatten(c)| * (|c| - 1)
  {
    assert c[0..] == c;
    ClusterMovesLength(c, 0);
  }

  /** `d` moves one item of `c` out of its cluster into another. */
  ghost predicate IsMove<Item>(c: Clusters<Item>, d: Clusters<Item>)
  {
    exists i: nat, t: nat, j: nat :: i < |c| && t < |c[i]| && j < |c| && i != j && d == Move(c, i, c[i][t], j)
  }

  lemma {:induction false} TargetMovesAreMoves<Item>(c: Clusters<Item>, i: nat, t: nat, j0: nat)
    requires i < |c| && t < |c[i]|
    ensures forall d :: d in TargetMoves(c, i, c[i][t], j0) ==> IsMove(c, d)
    decreases |c| - j0
  {
    if j0 < |c| {
      TargetMovesAreMoves(c, i, t, j0 + 1);
    }
  }

  lemma {:induction false} ItemMovesAreMoves<Item>(c: Clusters<Item>, i: nat, t0: nat)
    requires i < |c|
    ensures forall d :: d in ItemMoves(c, i, t0) ==> IsMove(c, d)
    decreases |c[i]| - t0
  {
    if t0 < |c[i]| {
      TargetMovesAreMoves(c, i, t0, 0);
      ItemMovesAreMoves(c, i, t0 + 1);
    }
  }

  lemma {:induction false} ClusterMovesAreMoves<Item>(c: Clusters<Item>, i0: nat)
    ensures forall d :: d in ClusterMoves(c, i0) ==> IsMove(c, d)
    decreases |c| - i0
  {
    if i0 < |c| {
      ItemMovesAreMoves(c, i0, 0);
      ClusterMovesAreMoves(c, i0 + 1);
    }
  }

  /** The descendants are exactly the single-item moves between two different clusters. */
  lemma NeighboursAreMoves<Item>(c: Clusters<Item>)
    ensures forall d :: d in Neighbours(c) <==> IsMove(c, d)
  {
    ClusterMovesAreMoves(c, 0);
    forall d | IsMove(c, d)
      ensures d in Neighbours(c)
    {
      var i: nat, t: nat, j: nat :| i < |c| && t < |c[i]| && j < |c| && i != j && d == Move(c, i, c[i][t], j);
      NeighbourAt(c, i, t, j);
    }
  }

  /**
   * Every descendant has as many clusters as its parent and, when no item
   * occurs twice, the same items, still each at most once.
   */
  lemma NeighboursKeepPartition<Item>(c: Clusters<Item>, d: Clusters<Item>)
    requires d in Neighbours(c)
    ensures |d| == |c|
    ensures Distinct(Flatten(c)) ==> multiset(Flatten(d)) == multiset(Flatten(c)) && Distinct(Flatten(d))
  {
    NeighboursAreMoves(c);
    var i: nat, t: nat, j: nat :| i < |c| && t < |c[i]| && j < |c| && i != j && d == Move(c, i, c[i][t], j);
    if Distinct(Flatten(c)) {
      MoveKeepsItems(c, i, t, j);
    }
  }

  /** The initial state: every item in cluster 0, followed by `nClusters - 1` empty clusters. */
  function InitialClusters<Item>(items: seq<Item>, nClusters: nat): Clusters<Item>
    requires nClusters >= 1
  {
    [items] + seq(nClusters - 1, _ => [])
  }

  lemma {:induction false} FlattenEmpty<Item>(m: nat)
    ensures Flatten(seq<seq<Item>>(m, _ => [])) == []
  {
    if m > 0 {
      var e := seq<seq<Item>>(m, _ => []);
      assert e[1..] == seq<seq<Item>>(m - 1, _ => []);
      FlattenEmpty<Item>(m - 1);
    }
  }

  /** The initial state has `nClusters` clusters and holds exactly the items, in their order. */
  lemma InitialPartition<Item>(items: seq<Item>, nClusters: nat)
    requires nClusters >= 1
    ensures |InitialClusters(items, nClusters)| == nClusters
    ensures InitialClusters(items, nClusters)[0] == items
    ensures forall k :: 1 <= k < nClusters ==> InitialClusters(items, nClusters)[k] == []
    ensures Flatten(InitialClusters(items, nClusters)) == items
  {
    var c := InitialClusters(items, nClusters);
    assert c[1..] == seq<seq<Item>>(nClusters - 1, _ => []);
    FlattenEmpty<Item>(nClusters - 1);
    assert Flatten(c) == items + [];
  }

  /** What the search keeps: the number of clusters and, for distinct items, the items themselves. */
  ghost predicate KeepsPartition<Item>(items: seq<Item>, nClusters: nat, c: Clusters<Item>)
  {
    && |c| == nClusters
    && (Distinct(items) ==> multiset(Flatten(c)) == multiset(items) && Distinct(Flatten(c)))
  }

  /**
   * `cluster_tabu`: with one cluster the answer is all items together and
   * nothing is evaluated; otherwise it is the state the tabu search reaches
   * from the initial state, and it costs no more than the initial state or
   * any other evaluated state when no iteration stops early. Either way there are `nClusters` clusters
   * and, when the items are distinct, they are partitioned among them.
   */
  method ClusterTabu<Item(==)>(items: seq<Item>, cost: Clusters<Item> -> int, nClusters: nat,
                               maxIterations: nat, stoppingCost: Option<int>)
    returns (r: Clusters<Item>, ghost evaluated: seq<Clusters<Item>>)
    requires nClusters >= 1
    ensures nClusters == 1 ==> r == [items] && evaluated == []
    ensures nClusters != 1 ==>
      && r == Tabu.SearchResult(InitialClusters(items, nClusters), Neighbours, cost, maxIterations, stoppingCost)
      && evaluated == Tabu.Evaluated(InitialClusters(items, nClusters), Neighbours, cost, stoppingCost, maxIterations)
      && |evaluated| >= 1 && evaluated[0] == InitialClusters(items, nClusters) && r in evaluated
    ensures nClusters != 1 && Tabu.Run(Tabu.Start(InitialClusters(items, nClusters), cost), Neighbours, cost, stoppingCost, maxIterations).Completed? ==>
      cost(r) <= cost(InitialClusters(items, nClusters)) && forall e :: e in evaluated ==> cost(r) <= cost(e)
    ensures |r| == nClusters
    ensures Distinct(items) ==> multiset(Flatten(r)) == multiset(items) && Distinct(Flatten(r))
  {
    if nClusters == 1 {
      return [items], [];
    }
    var initial := InitialClusters(items, nClusters);
    r, evaluated := Tabu.TabuSearch(initial, Neighbours, cost, maxIterations, stoppingCost);
    InitialPartition(items, nClusters);
    var keeps := c => KeepsPartition(items, nClusters, c);
    forall s, d | keeps(s) && d in Neighbours(s)
      ensures keeps(d)
    {
      NeighboursKeepPartition(s, d);
    }
    Tabu.SearchKeeps(initial, Neighbours, cost, maxIterations, stoppingCost, keeps);
    if Tabu.Run(Tabu.Start(initial, cost), Neighbours, cost, stoppingCost, maxIterations).Completed? {
      Tabu.SearchWithoutExit(initial, Neighbours, cost, maxIterations, stoppingCost);
    }
  }
}
