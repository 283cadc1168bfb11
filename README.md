# tabu — a Dafny model of tabu search and tabu-search clustering

The `tabu` crate minimises a cost over states with tabu search. It also
clusters items by running that search over partitions of the items. This
project models three parts of it:

- `tabu_search` (src/search/tabu.rs). The search keeps a current state, a best
  state with its cost, and a tabu set of the states that have been current.
  Each iteration makes the current state tabu and scans its descendants in
  order, skipping tabu ones. It returns at once the first descendant that
  costs strictly less than the stopping cost, if one was given. Otherwise it
  moves to the first cheapest non-tabu descendant, which becomes the best
  state only when it is strictly cheaper than the best so far. When the
  iterations run out it returns the best state.
- `cluster_tabu` and its local `descendants` (src/clustering/cluster_tabu.rs).
  The states are lists of clusters. A descendant moves one item from cluster
  `i` to a different cluster `j`: `retain` removes every copy of the item from
  cluster `i`, and one copy is appended to cluster `j`. The initial state holds
  every item in cluster 0, followed by `n_clusters - 1` empty clusters.
- `diameter` (src/clustering/diameter.rs). It folds the pairwise distances,
  over the pairs `i < j` taken in row order. A later distance replaces the
  current diameter only when strictly greater under the caller's `>`. Under
  a strict total order this is the largest pairwise distance; under a strict
  partial order, such as `>` on `f64`, it is only a maximal one.

Module layout:

- `Tabu` (tabu.dfy) models the search in two forms:
  - a specification: one iteration is the function `Iterate`, and the first
    `n` iterations are `Run`;
  - the imperative method `TabuSearch`, which has the source's two loops and
    is proved equal to the specification.
- `Clustering` (clustering.dfy) models the clustering:
  - `Neighbours` is the list of descendants, specified as a function;
  - `Descendants` is the source's triple loop, proved to build exactly that
    list;
  - `ClusterTabu` hands `Neighbours` to `Tabu.TabuSearch`.
- `PairwiseDiameter` (diameter.dfy): the method `Diameter` has the source's
  nested loops. It is proved equal to a fold (`Accumulate`) over all pairwise
  distances.
- `TabuTests`, `BowlTests` and `DiameterTests` restate the unit tests of
  src/search/tabu.rs and src/clustering/diameter.rs as lemmas and methods. For the search they are proved for every
  budget large enough, and in the quadratic case for every starting point.
- `Wrappers` holds the `Option` type.

Costs are modelled as `int` rather than `f64`.

Where the documentation and the code disagree, the model follows the code.
The doc comment on `stopping_cost` says the search stops when the cost of the
current state no longer exceeds the stopping cost. The code instead returns
the first scanned non-tabu descendant whose cost is strictly below it
(src/search/tabu.rs:46-50).

## Model

| member | source | states |
|---|---|---|
| Tabu.FirstBelow | src/search/tabu.rs:38-50 | The index of the descendant a scan exits on, if any (characterised by `FirstBelowSpec` and `FirstBelowUnique`). It is always a valid index. |
| Tabu.FirstMin | src/search/tabu.rs:38-57 | The index of the descendant a complete scan keeps, if any (characterised by `FirstMinSpec`, `FirstMinUnique` and `ScanIsFirstMin`). It is always a valid index. |
| Tabu.Start | src/search/tabu.rs:23-26 | The walk before the first iteration: the initial state is current and best, its cost is `best_cost`, and nothing is tabu (its consequences are stated by `RunKeepsInvariant` and `SearchWithoutExit`). |
| Tabu.Iterate | src/search/tabu.rs:30-68 | One iteration of the outer loop, as a function of the walk (characterised by `IterateFacts`, `IterateChoice`, `IterateExits`, `IterateMoves` and `IterateStalls`). |
| Tabu.Run | src/search/tabu.rs:29 | The first `n` iterations, stopping at an early return (characterised by `ExitedSticks`, `RunKeepsInvariant`, `TabuIsVisited` and `RunSplit`). |
| Tabu.SearchResult | src/search/tabu.rs:29-71 | What `tabu_search` returns: the early-exit descendant, or `best` once the iterations run out (characterised by `SearchWithoutExit`, `SearchWithExit`, `SearchKeeps` and `SearchFacts`). |
| Tabu.NonTabu | src/search/tabu.rs:38-42 | The descendants the scan does not skip, in order; never longer than the descendants. |
| Tabu.NonTabuMembers | src/search/tabu.rs:38-42 | Every element kept is a descendant and not tabu, and every non-tabu descendant is kept. |
| Tabu.ScanEnd | src/search/tabu.rs:38-50 | Where the scan stops: just after the early-exit descendant, or at the end of the descendants. It is never past the end. |
| Tabu.Scanned | src/search/tabu.rs:38-50 | The descendants whose cost one scan computes, in order: the non-tabu ones up to where it stops (characterised by `ScannedNoCheaper` and `IterateBelowDescendants`). |
| Tabu.ScannedNoCheaper | src/search/tabu.rs:38-57 | When the scan does not exit, it scans some descendant exactly when it keeps one. The one it keeps is among the scanned descendants and no dearer than any of them. |
| Tabu.Evaluated | src/search/tabu.rs:25-68 | The states `cost` is applied to in the first `n` iterations: the initial state, then each iteration's `Scanned` until one returns early (characterised by `ResultIsEvaluated`, `EvaluatedSticks` and `EvaluatedAboveBest`). |
| Tabu.FirstBelowSpec | src/search/tabu.rs:38-50 | The early exit of a scan names the first non-tabu descendant, in order, that costs strictly less than the stopping cost; when there is none, every non-tabu descendant costs at least the stopping cost. |
| Tabu.FirstMinSpec | src/search/tabu.rs:38-57 | The descendant a complete scan keeps is absent exactly when every descendant is tabu. Otherwise it is the first non-tabu descendant of least cost: strictly cheaper than every non-tabu one before it, and no dearer than any after it. |
| Tabu.FirstMinUnique | src/search/tabu.rs:52-56 | That property determines the kept descendant uniquely. |
| Tabu.FirstBelowUnique | src/search/tabu.rs:44-50 | The exit descendant is determined uniquely by its property. |
| Tabu.ScanPrefixIsFirstMin | src/search/tabu.rs:38-57 | After the first `k` descendants the scan's `best_descendant` is none exactly when all of them were tabu. Otherwise it is the first cheapest non-tabu one among them: it is replaced only by something strictly cheaper. |
| Tabu.ScanIsFirstMin | src/search/tabu.rs:38-57 | The step-by-step scan and the order-based definition of the kept descendant agree. |
| Tabu.IterateFacts | src/search/tabu.rs:35-68 | An early exit returns a non-tabu descendant of the current state that costs strictly less than the stopping cost. Otherwise the current state joins the tabu set, and the walk either stays put or moves to a non-tabu descendant. |
| Tabu.IterateChoice | src/search/tabu.rs:35-68 | One iteration exits exactly when some non-tabu descendant beats the stopping cost, and then on the first one. It stalls, changing only the tabu set, when every descendant is tabu. Otherwise it moves to the first cheapest non-tabu descendant, which replaces `best` exactly when strictly cheaper than `best_cost`. |
| Tabu.IterateExits | src/search/tabu.rs:44-50 | An iteration whose scan meets a qualifying descendant returns that one. |
| Tabu.IterateMoves | src/search/tabu.rs:52-68 | An iteration without an exit moves to the first cheapest non-tabu descendant, updating `best` and `best_cost` only when strictly cheaper. |
| Tabu.IterateStalls | src/search/tabu.rs:35-42 | With every descendant tabu, an iteration only adds the current state to the tabu set. |
| Tabu.ExitedSticks | src/search/tabu.rs:44-50 | Once the search has returned early, more iterations do not change the result. |
| Tabu.RunKeepsInvariant | src/search/tabu.rs:23-69 | The loop invariant holds after any number of iterations: `best_cost` is the cost of `best`; `best` is current or tabu; it is no dearer than any current or tabu state. `best_cost` never increases, `best` changes only to a strictly cheaper state, and the tabu set only grows. |
| Tabu.TabuIsVisited | src/search/tabu.rs:29-35 | The tabu set after `n` iterations holds exactly the states that were current at the start of one of them. |
| Tabu.NoExitBelowFloor | src/search/tabu.rs:44-50 | Without a stopping cost, or when no state costs less than it, the search never returns early. |
| Tabu.BestAtFloorStays | src/search/tabu.rs:59-68 | Once `best_cost` is a lower bound of every cost, `best` never changes again. |
| Tabu.FloorIsFinal | src/search/tabu.rs:29-71 | Further iterations cannot change the result once the walk stands on such a lower bound, provided the stopping cost cannot be undercut. |
| Tabu.StallIsFinal | src/search/tabu.rs:29-69 | A walk that an iteration leaves unchanged stays unchanged for every later iteration. |
| Tabu.RunSplit | src/search/tabu.rs:29 | Running `n + m` iterations is running `m` more iterations from where the first `n` left the walk. |
| Tabu.SearchWithoutExit | src/search/tabu.rs:59-71 | When the search does not return early, its result is no dearer than the initial state, nor than any state that was ever current. The result is itself one of those states. |
| Tabu.SearchWithExit | src/search/tabu.rs:44-50 | When it returns early, a stopping cost was given and the result costs strictly less. The result is a non-tabu descendant of the current state of some iteration. |
| Tabu.SearchKeeps | src/search/tabu.rs:11-72 | Suppose a property holds of the initial state and every descendant inherits it from its parent. Then the property holds of the returned state. |
| Tabu.RunKeeps | src/search/tabu.rs:29-69 | The same property holds, iteration by iteration, of the current state, of the best state and of an early-exit state. |
| Tabu.CompletedBefore | src/search/tabu.rs:29-69 | A run of `n` iterations that has not returned early had not returned after any `k <= n` of them. |
| Tabu.IterateBelowDescendants | src/search/tabu.rs:38-68 | An iteration without an early exit scans every non-tabu descendant. It leaves `best_cost` no higher than before and no higher than the cost of any of them. |
| Tabu.ResultIsEvaluated | src/search/tabu.rs:25-68 | The evaluated states start with the initial state and include the state the search would return after `n` iterations: the early-exit descendant or `best`. |
| Tabu.EvaluatedSticks | src/search/tabu.rs:44-50 | After an early return, no further state is evaluated. |
| Tabu.EvaluatedAboveBest | src/search/tabu.rs:25-68 | While no iteration returns early, every state evaluated so far costs at least the current `best_cost`. |
| Tabu.SearchIsCheapestEvaluated | src/search/tabu.rs:29-71 | When no iteration returns early, the result is no dearer than any state `cost` was applied to. |
| Tabu.SearchFacts | src/search/tabu.rs:23-71 | The evaluated states begin with the initial state and include the result. With zero iterations the result is the initial state, the only one evaluated. Without an early return the result is no dearer than any evaluated state. |
| Tabu.BestCostNeverRises | src/search/tabu.rs:59-71 | Without an early return, the result costs no more than `best_cost` after any earlier iteration. |
| Tabu.SearchBeatsDescendants | src/search/tabu.rs:38-71 | Without an early return, the result is no dearer than any non-tabu descendant of the current state of any iteration. |
| Tabu.ScanDescendants | src/search/tabu.rs:31-57 | The inner loop exits on the first non-tabu descendant under the stopping cost. Otherwise it keeps the descendant `FirstMin` names, with its cost. The ghost `scanned` is exactly `Scanned`, the non-tabu descendants up to where the scan stopped. The exit or kept descendant is among them, and one is kept whenever one was scanned; with `ScannedNoCheaper`, the kept one is the cheapest of them. |
| Tabu.Advance | src/search/tabu.rs:30-68 | The body of the outer loop performs exactly one `Iterate` on the walk, and its ghost `scanned` is that iteration's `Scanned`. An exit is among the scanned descendants. Without one, `best` either stays or becomes a scanned descendant with `best_cost` its cost. |
| Tabu.TabuSearch | src/search/tabu.rs:11-72 | The method returns what the specification `SearchResult` returns, so every lemma above applies to it. Its ghost `evaluated` is exactly `Evaluated`: the initial state, then each iteration's scanned descendants. The initial state is evaluated first and the result is among the evaluated states. With zero iterations it returns the initial state. Without an early exit the result is no dearer than any evaluated state. |
| TabuTests.LinearFindsZero | src/search/tabu.rs:78-89 | On the non-negative integers with cost the state itself, from any start `s0 >= 1` the search returns 0 once it may run `s0` iterations. |
| TabuTests.TestLinear | src/search/tabu.rs:79-88 | From 20 with 100 iterations the result is 0. |
| TabuTests.BarrierFindsTen | src/search/tabu.rs:92-102 | On 0..10 with the cost peaked at 3 (an inverted V), from 0 the walk climbs over the dearer states around 3, and the search returns 10 for every budget of at least 10. |
| TabuTests.TestCrossBarrier | src/search/tabu.rs:93-102 | From 0 with 100 iterations the result is 10. |
| BowlTests.TowardIsFirstMin | src/search/tabu.rs:109-115 | On the grid with cost the squared distance to (5, 5), the neighbour one step toward (5, 5) on each axis is, when not tabu, the first cheapest non-tabu neighbour. |
| BowlTests.DescentWalk | src/search/tabu.rs:105-127 | From any starting point, for as many iterations as its Chebyshev distance to (5, 5), the walk steps toward (5, 5). Each point is the best so far, and the points behind it are tabu. |
| BowlTests.BowlFindsCentre | src/search/tabu.rs:105-127 | From every starting point, with stopping cost 0, the search returns (5, 5) once it may run as many iterations as that distance. |
| BowlTests.TestQuadratic | src/search/tabu.rs:106-127 | From (10, 10), (0, 0), (7, 0) and (6, 5) with 100 iterations the result is (5, 5). |
| Clustering.RemoveAll | src/clustering/cluster_tabu.rs:54 | `retain(x != item)` on a list (characterised by `RemoveAllCounts` and `RemoveAllOrder`). |
| Clustering.RemoveAllCounts | src/clustering/cluster_tabu.rs:54 | `retain(x != item)` drops every copy of the item and keeps every other element as often as it occurred. |
| Clustering.RemoveAllOrder | src/clustering/cluster_tabu.rs:54 | `retain` keeps the surviving elements in order: it works piecewise on a concatenation, and leaves a list without the item unchanged. |
| Clustering.Move | src/clustering/cluster_tabu.rs:53-55 | The descendant that moves an item from cluster `i` to cluster `j` (characterised by `MoveEffect` and `MoveKeepsItems`). |
| Clustering.TargetMoves | src/clustering/cluster_tabu.rs:46-61 | The moves of one item to the clusters from `j0` on, other than its own (counted by `TargetMovesLength`, ordered by `NeighbourAt`). |
| Clustering.ItemMoves | src/clustering/cluster_tabu.rs:44-62 | The moves of the items of one cluster from position `t0` on (counted by `ItemMovesLength`, ordered by `NeighbourAt`). |
| Clustering.ClusterMoves | src/clustering/cluster_tabu.rs:42-63 | The moves out of the clusters from `i0` on (counted by `ClusterMovesLength`, ordered by `NeighbourAt`). |
| Clustering.Neighbours | src/clustering/cluster_tabu.rs:42-63 | The list of descendants the local `descendants` builds (characterised by `NeighboursCount`, `NeighboursAreMoves`, `NeighbourAt` and `NeighboursKeepPartition`). |
| Clustering.MoveEffect | src/clustering/cluster_tabu.rs:53-55 | A move keeps the number of clusters and appends the item to target cluster `j`. It removes the item from source cluster `i` while keeping the multiplicity of every other item there, and leaves every other cluster as it was. |
| Clustering.MoveKeepsItems | src/clustering/cluster_tabu.rs:53-55 | When no item occurs twice, moving an item of cluster `i` keeps the multiset of all items, and no item then occurs twice. |
| Clustering.PushItemMoves | src/clustering/cluster_tabu.rs:46-61 | The innermost loop appends, for each cluster `j` other than `i` in increasing order, the state with the item moved from `i` to `j`. |
| Clustering.Descendants | src/clustering/cluster_tabu.rs:30-67 | The triple loop produces exactly `Neighbours`, the ordered list of all moves. |
| Clustering.NeighbourAt | src/clustering/cluster_tabu.rs:42-63 | The order of the descendants: moving the item at position `t` of cluster `i` to cluster `j` appears at this position. It comes after one move per item of an earlier cluster and other cluster, and after the moves of the earlier items of cluster `i`. Among the moves of that item, it takes the rank of `j` among the targets other than `i`. |
| Clustering.NeighboursCount | src/clustering/cluster_tabu.rs:42-63 | A state has one descendant per item and per other cluster. |
| Clustering.NeighboursAreMoves | src/clustering/cluster_tabu.rs:42-63 | A state is a descendant exactly when it moves some item of some cluster `i` to some cluster `j` other than `i`. |
| Clustering.NeighboursKeepPartition | src/clustering/cluster_tabu.rs:30-67 | Every descendant has as many clusters as its parent. When no item occurs twice, it holds the same items, still with none occurring twice. |
| Clustering.InitialClusters | src/clustering/cluster_tabu.rs:70-75 | The initial state (characterised by `InitialPartition`). |
| Clustering.InitialPartition | src/clustering/cluster_tabu.rs:70-75 | The initial state has `n_clusters` clusters: all the items, in order, in cluster 0, and the others empty. |
| Clustering.ClusterTabu | src/clustering/cluster_tabu.rs:11-86 | With one cluster the result is `[items]` and nothing is evaluated. Otherwise the result is the search's result from the initial state, and `evaluated` is the search's `Evaluated`. Without an early exit the result is no dearer than the initial state or any evaluated state. It always has `n_clusters` clusters. When no item occurs twice, it holds exactly the items, none of them twice. |
| PairwiseDiameter.RowPairs | src/clustering/diameter.rs:12 | The pairs `(i, j)` of row `i`, from column `j0` to the end (characterised with `PairsFrom` by `PairsFromMembers` and `PairsFromIncreasing`). |
| PairwiseDiameter.PairsFrom | src/clustering/diameter.rs:11-12 | The pairs the nested loops visit from row `i0` on (characterised by `PairsFromMembers` and `PairsFromIncreasing`). |
| PairwiseDiameter.Distances | src/clustering/diameter.rs:11-13 | One distance per pair, in the order of the pairs, each being the distance between the two items of its pair. |
| PairwiseDiameter.Keep | src/clustering/diameter.rs:14-20 | The update rule: the first distance is taken, and a later one replaces the diameter only when strictly greater (characterised through `Accumulate` by `AccumulateWitness`). |
| PairwiseDiameter.Accumulate | src/clustering/diameter.rs:14-20 | The fold of the update rule yields none exactly for an empty list of distances. |
| PairwiseDiameter.PairsFromMembers | src/clustering/diameter.rs:11-12 | The loops visit exactly the index pairs `i < j` of the items. |
| PairwiseDiameter.PairsFromIncreasing | src/clustering/diameter.rs:11-12 | The loops visit each pair once, in lexicographic order. |
| PairwiseDiameter.AccumulateWitness | src/clustering/diameter.rs:14-20 | The fold returns one of the distances, and no later distance is greater than it. Under a strict partial order no distance at all is greater; under a strict total order every earlier distance is strictly smaller. |
| PairwiseDiameter.Diameter | src/clustering/diameter.rs:5-25 | The nested loops call `distance` on exactly the pairs `i < j`, in row order, and return the fold of the update rule over those distances. |
| PairwiseDiameter.DiameterOf | src/clustering/diameter.rs:9-24 | The diameter as a function: the fold of `Keep` over all pairwise distances (characterised by `DiameterNone` and `DiameterWitness`). |
| PairwiseDiameter.DiameterNone | src/clustering/diameter.rs:9-24 | The diameter is `None` exactly when there are fewer than two items. |
| PairwiseDiameter.DiameterWitness | src/clustering/diameter.rs:5-25 | With two or more items the diameter is the distance of some pair `i < j`, and no later pair has a greater distance. Under a strict partial order no pairwise distance is greater than it; it can be incomparable to the others, as a NaN first distance is (see `NaNFirstDistanceStays`). Under a strict total order it is the first pair of largest distance. |
| DiameterTests.AbsDiameterOfOneToFour | src/clustering/diameter.rs:32-37 | The diameter of `[1, 2, 3, 4]` under the absolute difference is 3. |
| DiameterTests.NaNFirstDistanceStays | src/clustering/diameter.rs:7-20 | With `f64`'s `>` modelled as a strict partial order and NaN as `None`, a NaN first distance is never replaced: the diameter of `[0, 1, 3]` is NaN although the pair `(1, 2)` is 2 apart. |
| DiameterTests.SquaredDiameterOfOneToFour | src/clustering/diameter.rs:39-50 | Under the squared difference it is 9. |

## Left out

- Costs are `int`, not `f64`. NaN, infinities and rounding are not modelled. The `f64::INFINITY` that starts `best_descendant_cost` (src/search/tabu.rs:32) is modelled by `best_descendant` being `None`, which makes the first non-tabu descendant always taken. That is what the source does for every finite cost.
- The `HashSet` tabu list is a mathematical set. Hashing and `Clone` are not modelled.
- The `descendants` iterator is a finite sequence, produced in full before the scan. The model cannot express laziness or infinite iterators.
- `cluster_tabu` passes the search the function `Neighbours`, because a method cannot be passed as a function value. `Descendants` is the source's loop, proved to produce exactly that list.
- The `State` wrapper struct (src/clustering/cluster_tabu.rs:25-28) is dropped: a state is its list of clusters.
- The cost closure passed to the search (src/clustering/cluster_tabu.rs:80) is the caller's cost applied to that list.
- The model takes `n_clusters >= 1` as a precondition of `ClusterTabu`. With `n_clusters == 0` the source computes `n_clusters - 1` on a `usize` (src/clustering/cluster_tabu.rs:73), which panics or wraps around.
- Clustering.MoveKeepsItems, Clustering.NeighboursKeepPartition and Clustering.ClusterTabu prove that items are kept only when no item occurs twice. With duplicates, `retain` removes every copy from the source cluster while `push` adds one, so items can be lost.
- `diameter` is documented as the largest pairwise distance (src/clustering/diameter.rs:1), but `T: PartialOrd` (line 7) admits incomparable values such as NaN. The model does not promise a largest distance then, only a maximal one: `PairwiseDiameter.DiameterWitness` states the largest distance only under a strict total order.
- `diameter`'s `>` is a parameter. Its properties (strict partial or total order) are hypotheses of the lemmas, as `PartialOrd` does not guarantee them. `Copy` is not modelled.
- The test of src/clustering/cluster_tabu.rs:94-124 (items 1..10 in two clusters under the largest-diameter cost) is not modelled. It runs a concrete search of 100 iterations over a large state space.
- In the squared-diameter test, `OrderedFloat<f64>` is modelled by `int`.
- src/clustering/metrics.rs (an older `f64` diameter) and src/lib.rs (module declarations) are not part of this model.
- The ghost outputs `evaluated` of `Tabu.TabuSearch` and `Clustering.ClusterTabu`, `scanned` of `Tabu.ScanDescendants` and `Tabu.Advance`, and `calls` of `PairwiseDiameter.Diameter` list, in order, the states or pairs the cost or distance function is applied to. Their contracts tie them to `Tabu.Evaluated`, `Tabu.Scanned` and `PairwiseDiameter.PairsFrom`. They have no counterpart in the source's return values.
