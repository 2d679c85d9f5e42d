# PROCLUS and the pair comparators, in Dafny

This project models the core of ELKI's PROCLUS subspace clustering algorithm
(`PROCLUS.java`) and the pair comparators of `PairUtil.java`, and proves
properties of the model.

PROCLUS runs in three phases:

- **Initialization.** `greedy` picks a superset `M` of medoid candidates by
  farthest-point ("piercing") selection. `initialSet` then draws the first
  `k` current medoids from `M`.
- **Iteration.** Each round does the following:
  - The medoid form of `findDimensions` selects, for each current medoid, the
    dimensions along which its locality is tightest. The selection takes the
    `max(k * l, 2)` smallest z-scores.
  - `assignPoints` gives every point to its nearest medoid under the
    Manhattan segmental distance.
  - `evaluateClusters` scores the result.
  - A strictly better score makes the current set the best one and computes
    its bad medoids (`computeBadMedoids`).
  - `computeM_current` replaces the bad medoids of the best set by random
    fresh candidates.
  - The loop ends once the round counter reaches 10. The counter restarts on
    every strict improvement.
- **Refinement.** The cluster form of `findDimensions` runs on the last
  round's clusters. `finalAssignment` then assigns every point to the
  nearest refined centroid.

The model files:

| file | module | contents |
|---|---|---|
| `outcomes.dfy` | `Outcomes` | `Option`, `Result` and the exceptions the Java code can throw |
| `vectors.dfy` | `Vectors` | ids, vectors, the relation, `DoubleDistance` with NaN, sums, the segmental distance |
| `pair_util.dfy` | `PairUtil` | the comparators of `PairUtil` |
| `medoid_selection.dfy` | `MedoidSelection` | `greedy`, `initialSet`, `computeM_current`, the locality radius of `getLocalities` |
| `dimension_selection.dfy` | `DimensionSelection` | z-score triples, their sort, the top-`max(k * l, 2)` selection, both forms of `findDimensions` |
| `assignment.dfy` | `Assignment` | argmin assignment, `assignPoints`, `finalAssignment`, centroids |
| `evaluation.dfy` | `Evaluation` | `evaluateClusters`, `avgDistance`, `computeBadMedoids` |
| `iteration.dfy` | `Iteration` | one round, the loop with its counter, refinement, the whole of `run` |

Modelling choices:

- **Randomness.** `java.util.Random` becomes an oracle `rnd: nat -> nat` and a
  cursor. `random.nextInt(n)` is `rnd(cursor) % n`, so every outcome of a draw
  is reachable. `nextInt(0)` throws, and the model returns
  `Err(RandomBoundNotPositive)`.
- **Sets and maps.** Identifier sets and hash maps are sequences in their
  iteration order. That order decides ties in `assignPoints` and the order of
  the replacement draws. The order-independent results are proved as lemmas
  (`EvaluateOrderFree`, `SegmentalDistanceOrderFree`).
- **Exceptions.** Each exception is a `Result` error:
  - `IllegalStateException` when the dimensionality is below `l`;
  - `IndexOutOfBoundsException` when `z_ijs.get(m)` runs past the triple list
    or `greedy` runs out of candidates;
  - `IllegalArgumentException` from `nextInt(0)`;
  - the failed `assert minDist != null` of `getLocalities` when there is a
    single current medoid (`NullRadius`).

Where the Java code departs from a plain reading of the algorithm, the model
follows the code:

- **Stop rule.** An improving round sets `loops` to 0 and then increments
  it. So the loop ends after nine further rounds without improvement, not
  ten.
- **Objective.** `evaluateClusters` divides `w_i` by the number of medoids
  (`dimensions.keySet().size()`), not by `|D_i|`.
- **Bad medoids.** Only medoids whose cluster is non-empty are examined, so
  a medoid that attracted no point is never replaced.
- **Refinement input.** Refinement works on the clusters of the last round,
  not those of the best medoid set.
- **Refinement failure.** The refinement `findDimensions` throws
  `IndexOutOfBoundsException` when the surviving clusters offer fewer than
  `max(k * l, 2)` (cluster, dimension) pairs.
- **`computeM_current` with `m_i = 1`.** When `m_i = 1`, the candidate pool
  `M \ m_best` is empty. Any bad medoid then makes `computeM_current` call
  `nextInt(0)`.

## Model

| member | source | states |
|---|---|---|
| PairUtil.NaturalNullPlacement | src/main/java/de/lmu/ifi/dbs/elki/utilities/pairs/PairUtil.java:159-187 | a non-null component sorts before null (-1), null after non-null (+1), two nulls tie and defer to the second component |
| PairUtil.NaturalIsLexicographic | src/main/java/de/lmu/ifi/dbs/elki/utilities/pairs/PairUtil.java:159-187 | `CompareNatural` is the first-component verdict when that is non-zero, and otherwise the second-component verdict |
| PairUtil.NaturalTransitive | src/main/java/de/lmu/ifi/dbs/elki/utilities/pairs/PairUtil.java:159-187 | with antisymmetric, transitive component orders, "at most" under `CompareNatural` is transitive |
| PairUtil.ComponentAntisymmetric | src/main/java/de/lmu/ifi/dbs/elki/utilities/pairs/PairUtil.java:161-171 | null-aware comparison of one component is antisymmetric when the component order is |
| PairUtil.ComponentTransitive | src/main/java/de/lmu/ifi/dbs/elki/utilities/pairs/PairUtil.java:161-171 | null-aware comparison of one component keeps transitivity, and ties chain |
| PairUtil.SingleComponentIgnoresOther | src/main/java/de/lmu/ifi/dbs/elki/utilities/pairs/PairUtil.java:205-253 | pairs with equal first components tie under `CompareNaturalFirst` whatever their seconds, and pairs with equal seconds tie under `CompareNaturalSecond` whatever their firsts |
| PairUtil.NaturalSwappedIsNaturalOfSwap | src/main/java/de/lmu/ifi/dbs/elki/utilities/pairs/PairUtil.java:271-299 | `CompareNaturalSwapped` equals `CompareNatural` on the component-swapped pairs |
| PairUtil.CompareTransitive | src/main/java/de/lmu/ifi/dbs/elki/utilities/pairs/PairUtil.java:343-349 | with antisymmetric, transitive `fcomparator` and `scomparator`, "at most" under `Compare` is transitive |
| PairUtil.SwappedIsCompareOfSwap | src/main/java/de/lmu/ifi/dbs/elki/utilities/pairs/PairUtil.java:469-475 | `CompareSwapped` is `Compare` with comparators and components exchanged: second comparator first, first only on a tie |
| PairUtil.ComparatorsAntisymmetric | src/main/java/de/lmu/ifi/dbs/elki/utilities/pairs/PairUtil.java:159-475 | every comparator of the file satisfies `sgn(c(a, b)) == -sgn(c(b, a))` when its component orders do |
| PairUtil.ComparatorsReflexive | src/main/java/de/lmu/ifi/dbs/elki/utilities/pairs/PairUtil.java:159-475 | every comparator of the file compares a pair equal to itself |
| Vectors.LessIsStrictTotalOrder | src/main/java/de/lmu/ifi/dbs/elki/algorithm/clustering/subspace/PROCLUS.java:576-578 | distance comparison with NaN above every number is irreflexive, asymmetric, transitive and total |
| Vectors.SegmentalDistance | src/main/java/de/lmu/ifi/dbs/elki/algorithm/clustering/subspace/PROCLUS.java:667-675 | the distance is NaN exactly for an empty dimension set (0/0), and is otherwise non-negative |
| Vectors.SegmentalDistanceSymmetric | src/main/java/de/lmu/ifi/dbs/elki/algorithm/clustering/subspace/PROCLUS.java:667-675 | the distance is symmetric in its two vectors |
| Vectors.SegmentalDistanceZero | src/main/java/de/lmu/ifi/dbs/elki/algorithm/clustering/subspace/PROCLUS.java:667-675 | over non-empty dimensions the distance is 0 exactly when the vectors agree on every chosen dimension, so `d(o, o) = 0` |
| Vectors.SegmentalDistanceOrderFree | src/main/java/de/lmu/ifi/dbs/elki/algorithm/clustering/subspace/PROCLUS.java:669-673 | the iteration order of the dimension set does not change the distance |
| Vectors.SegmentalDistanceTriangle | src/main/java/de/lmu/ifi/dbs/elki/algorithm/clustering/subspace/PROCLUS.java:667-675 | for a fixed non-empty dimension set the distance obeys the triangle inequality |
| MedoidSelection.Draw | src/main/java/de/lmu/ifi/dbs/elki/algorithm/clustering/subspace/PROCLUS.java:258 | a draw `nextInt(n)` lies in `[0, n)` |
| MedoidSelection.RemoveAt | src/main/java/de/lmu/ifi/dbs/elki/algorithm/clustering/subspace/PROCLUS.java:258 | removing position `i` drops exactly that element, keeps the others in their order, and keeps a duplicate-free list duplicate-free |
| MedoidSelection.MinDist | src/main/java/de/lmu/ifi/dbs/elki/algorithm/clustering/subspace/PROCLUS.java:284-291 | the tracked distance, folded as `min(old, new)`, is the distance to the nearest chosen medoid: at most each and equal to one |
| MedoidSelection.LastArgMax | src/main/java/de/lmu/ifi/dbs/elki/algorithm/clustering/subspace/PROCLUS.java:275-278 | the last entry of the ascending distance sort holds a maximal distance, and every later candidate is strictly closer |
| MedoidSelection.PickIsFarthest | src/main/java/de/lmu/ifi/dbs/elki/algorithm/clustering/subspace/PROCLUS.java:273-281 | the picked candidate is a remaining sample point at least as far from the chosen medoids as every other remaining one |
| MedoidSelection.UpdateTracks | src/main/java/de/lmu/ifi/dbs/elki/algorithm/clustering/subspace/PROCLUS.java:280-291 | after removing the pick, updating with `min(old, dist(y, m_i))` keeps every tracked distance equal to the nearest-medoid distance |
| MedoidSelection.PickNext | src/main/java/de/lmu/ifi/dbs/elki/algorithm/clustering/subspace/PROCLUS.java:273-291 | one loop round moves one candidate to the medoids, keeps medoids and candidates a split of the sample, and extends the piercing order |
| MedoidSelection.Greedy | src/main/java/de/lmu/ifi/dbs/elki/algorithm/clustering/subspace/PROCLUS.java:253-299 | fails on an empty sample or when `m` exceeds it, else returns `max(m, 1)` distinct sample ids, the first one drawn at random and each later one a farthest remaining candidate |
| MedoidSelection.InitialSet | src/main/java/de/lmu/ifi/dbs/elki/algorithm/clustering/subspace/PROCLUS.java:309-317 | succeeds exactly when `k` does not exceed the sample, and then returns `k` distinct sample ids after `k` draws |
| MedoidSelection.Without | src/main/java/de/lmu/ifi/dbs/elki/algorithm/clustering/subspace/PROCLUS.java:329-330 | `removeDBIDs` leaves exactly the elements of `m` outside `m_best`, duplicate-free |
| MedoidSelection.Replace | src/main/java/de/lmu/ifi/dbs/elki/algorithm/clustering/subspace/PROCLUS.java:333-344 | good medoids stay in place, each bad one becomes a fresh pool element after exactly one draw, and the draws fail exactly when the pool is smaller than the number of bad medoids |
| MedoidSelection.ComputeMCurrent | src/main/java/de/lmu/ifi/dbs/elki/algorithm/clustering/subspace/PROCLUS.java:328-347 | the new set has `\|m_best\|` distinct medoids: every good one kept in place, every bad one replaced by a medoid of `M` outside `m_best` |
| MedoidSelection.ComputeMCurrentWithin | src/main/java/de/lmu/ifi/dbs/elki/algorithm/clustering/subspace/PROCLUS.java:328-347 | the new set lies within `(m_best \ m_bad) ∪ (M \ m_best)` and contains all of `m_best \ m_bad` |
| MedoidSelection.PoolSize | src/main/java/de/lmu/ifi/dbs/elki/algorithm/clustering/subspace/PROCLUS.java:329-338 | when `m_best` is drawn from `M`, the replacement pool `M \ m_best` holds exactly `\|M\| - \|m_best\|` medoids |
| MedoidSelection.ComputeMCurrentSucceeds | src/main/java/de/lmu/ifi/dbs/elki/algorithm/clustering/subspace/PROCLUS.java:328-347 | `computeM_current` succeeds exactly when the bad medoids of `m_best` number at most the `\|M\| - \|m_best\|` medoids of the pool, so with `m_i = 1` one bad medoid makes it throw |
| MedoidSelection.LocalityRadius | src/main/java/de/lmu/ifi/dbs/elki/algorithm/clustering/subspace/PROCLUS.java:363-377 | the radius is null exactly without another medoid, and otherwise the smallest distance to another medoid |
| MedoidSelection.RadiusExists | src/main/java/de/lmu/ifi/dbs/elki/algorithm/clustering/subspace/PROCLUS.java:363-382 | among distinct medoids, a medoid has no radius exactly when it is the only medoid |
| DimensionSelection.Triples | src/main/java/de/lmu/ifi/dbs/elki/algorithm/clustering/subspace/PROCLUS.java:425-449 | the triple list has one triple per (entity, dimension), each naming a listed entity and a dimension below `dim` |
| DimensionSelection.TriplesMembers | src/main/java/de/lmu/ifi/dbs/elki/algorithm/clustering/subspace/PROCLUS.java:425-449 | `(z_ij, i, j)` is in the list for every entity and dimension, and the list holds nothing else |
| DimensionSelection.TriplesUnique | src/main/java/de/lmu/ifi/dbs/elki/algorithm/clustering/subspace/PROCLUS.java:425-449 | with distinct entities, no (entity, dimension) pair occurs twice |
| DimensionSelection.Sort | src/main/java/de/lmu/ifi/dbs/elki/algorithm/clustering/subspace/PROCLUS.java:451 | the sorted list is ordered and a permutation of the input |
| DimensionSelection.SortedUnique | src/main/java/de/lmu/ifi/dbs/elki/algorithm/clustering/subspace/PROCLUS.java:451 | two sorted permutations of the same triples are equal, so any sort yields the same list |
| DimensionSelection.TopTriples | src/main/java/de/lmu/ifi/dbs/elki/algorithm/clustering/subspace/PROCLUS.java:453-455 | `get(m)` for `m < n` succeeds exactly when there are `n` triples; the taken ones are sorted, drawn from the input, and none exceeds a triple left behind |
| DimensionSelection.AddDim | src/main/java/de/lmu/ifi/dbs/elki/algorithm/clustering/subspace/PROCLUS.java:457 | `TIntSet.add` adds exactly one element and keeps the set duplicate-free |
| DimensionSelection.Collect | src/main/java/de/lmu/ifi/dbs/elki/algorithm/clustering/subspace/PROCLUS.java:527-534 | an entity has an entry exactly when it had one or a taken triple names it, and a dimension is in its set exactly when it was there or a taken triple selects it |
| DimensionSelection.CollectWellFormed | src/main/java/de/lmu/ifi/dbs/elki/algorithm/clustering/subspace/PROCLUS.java:453-457 | dimension sets stay duplicate-free and within `[0, dim)` |
| DimensionSelection.CollectSize | src/main/java/de/lmu/ifi/dbs/elki/algorithm/clustering/subspace/PROCLUS.java:453-457 | each taken triple adds at most one dimension, and exactly one when the pairs are distinct and new |
| DimensionSelection.FindDimensions | src/main/java/de/lmu/ifi/dbs/elki/algorithm/clustering/subspace/PROCLUS.java:398-468 | fails exactly when fewer than `max(k * l, 2)` triples exist; otherwise every medoid has a well-formed entry, possibly empty |
| DimensionSelection.FindDimensionsCount | src/main/java/de/lmu/ifi/dbs/elki/algorithm/clustering/subspace/PROCLUS.java:453-457 | the medoid form selects exactly `max(k * l, 2)` (medoid, dimension) pairs |
| DimensionSelection.FindDimensionsSmallest | src/main/java/de/lmu/ifi/dbs/elki/algorithm/clustering/subspace/PROCLUS.java:451-457 | a selected (medoid, dimension) pair never has a larger z-score than an unselected one |
| DimensionSelection.SelectedSmallest | src/main/java/de/lmu/ifi/dbs/elki/algorithm/clustering/subspace/PROCLUS.java:451-457 | a pair picked from the front of the sorted list has a z-score no larger than any pair not picked |
| DimensionSelection.RefineDimensions | src/main/java/de/lmu/ifi/dbs/elki/algorithm/clustering/subspace/PROCLUS.java:479-543 | fails exactly when fewer than `max(k * l, 2)` triples exist; otherwise at least one cluster has an entry, and only clusters that received a dimension have one |
| DimensionSelection.RefineDimensionsSelection | src/main/java/de/lmu/ifi/dbs/elki/algorithm/clustering/subspace/PROCLUS.java:522-543 | the cluster form also selects exactly `max(k * l, 2)` pairs, never one with a larger z-score than an unselected one |
| Assignment.FirstArgMin | src/main/java/de/lmu/ifi/dbs/elki/algorithm/clustering/subspace/PROCLUS.java:572-579 | the strict-`<` scan picks an entity strictly closer than every earlier one, with no later one strictly closer |
| Assignment.FirstArgMinUnique | src/main/java/de/lmu/ifi/dbs/elki/algorithm/clustering/subspace/PROCLUS.java:572-579 | that choice is the only index with both properties, and no entity at all is strictly closer |
| Assignment.Members | src/main/java/de/lmu/ifi/dbs/elki/algorithm/clustering/subspace/PROCLUS.java:569-584 | an entity's member list holds exactly the points whose nearest entity it is, without repetitions |
| Assignment.MembersCount | src/main/java/de/lmu/ifi/dbs/elki/algorithm/clustering/subspace/PROCLUS.java:569-584 | the member counts of all entities add up to the number of points |
| Assignment.CentroidBalances | src/main/java/de/lmu/ifi/dbs/elki/algorithm/clustering/subspace/PROCLUS.java:591 | the centroid balances its points: on every dimension the signed deviations from it sum to zero |
| Assignment.ClusterOf | src/main/java/de/lmu/ifi/dbs/elki/algorithm/clustering/subspace/PROCLUS.java:588-592 | a cluster is non-empty and duplicate-free, has points of the relation, the entity's dimensions, and their centroid |
| Assignment.AssignPoints | src/main/java/de/lmu/ifi/dbs/elki/algorithm/clustering/subspace/PROCLUS.java:563-603 | only medoids that received a point get a cluster, with duplicate-free relation points, the medoid's dimensions and the members' centroid |
| Assignment.AssignPointsCovers | src/main/java/de/lmu/ifi/dbs/elki/algorithm/clustering/subspace/PROCLUS.java:569-584 | every point is in the cluster of the medoid it chose |
| Assignment.AssignPointsMembers | src/main/java/de/lmu/ifi/dbs/elki/algorithm/clustering/subspace/PROCLUS.java:569-594 | a cluster holds exactly the points that chose its medoid, so clusters are disjoint, and a medoid without a cluster was chosen by no point |
| Assignment.AssignedIsNearest | src/main/java/de/lmu/ifi/dbs/elki/algorithm/clustering/subspace/PROCLUS.java:573-578 | no medoid is strictly closer to a point, on its own dimensions, than the medoid the point chose |
| Assignment.NonEmptyFrom | src/main/java/de/lmu/ifi/dbs/elki/algorithm/clustering/subspace/PROCLUS.java:639-646 | the emitted clusters are exactly the entities that received a point, in increasing index order |
| Assignment.FinalAssignment | src/main/java/de/lmu/ifi/dbs/elki/algorithm/clustering/subspace/PROCLUS.java:613-655 | at most as many clusters as entities, each non-empty, duplicate-free, of relation points, with the dimensions of some entity and the centroid of its members |
| Assignment.FinalAssignmentPartition | src/main/java/de/lmu/ifi/dbs/elki/algorithm/clustering/subspace/PROCLUS.java:619-646 | every point is in exactly one final cluster, the one with its nearest centroid's dimensions, and no centroid is strictly closer |
| Assignment.FinalAssignmentCount | src/main/java/de/lmu/ifi/dbs/elki/algorithm/clustering/subspace/PROCLUS.java:619-646 | final clusters hold only relation points and their sizes add up to the number of points |
| Assignment.RefinedEntities | src/main/java/de/lmu/ifi/dbs/elki/algorithm/clustering/subspace/PROCLUS.java:545-552 | one (centroid, dimensions) entry per cluster with dimensions, and nothing else |
| Evaluation.AvgDistance | src/main/java/de/lmu/ifi/dbs/elki/algorithm/clustering/subspace/PROCLUS.java:716-723 | the mean absolute deviation on one dimension is non-negative |
| Evaluation.SpreadIsMeanDeviation | src/main/java/de/lmu/ifi/dbs/elki/algorithm/clustering/subspace/PROCLUS.java:692-696 | the sum of per-dimension means is the cluster's total absolute deviation over its size |
| Evaluation.EvaluateClusters | src/main/java/de/lmu/ifi/dbs/elki/algorithm/clustering/subspace/PROCLUS.java:685-703 | the objective is never negative |
| Evaluation.ContributionIsDeviation | src/main/java/de/lmu/ifi/dbs/elki/algorithm/clustering/subspace/PROCLUS.java:691-699 | `\|C_i\| * (w_i / \|M\|)` is the cluster's total absolute deviation over `\|M\|` |
| Evaluation.EvaluateIsMeanDeviation | src/main/java/de/lmu/ifi/dbs/elki/algorithm/clustering/subspace/PROCLUS.java:685-703 | the objective is the total absolute deviation of all clusters over their dimensions, divided by the number of medoids and the number of points |
| Evaluation.EvaluateOrderFree | src/main/java/de/lmu/ifi/dbs/elki/algorithm/clustering/subspace/PROCLUS.java:687 | the iteration order of the cluster map does not change the objective |
| Evaluation.BadThreshold | src/main/java/de/lmu/ifi/dbs/elki/algorithm/clustering/subspace/PROCLUS.java:209 | the threshold is the floor of `n / (10 k)` |
| Evaluation.EmptyClusterNeverBad | src/main/java/de/lmu/ifi/dbs/elki/algorithm/clustering/subspace/PROCLUS.java:586-594 | a medoid that no point chose is never bad, whatever the threshold; one with a cluster is bad exactly when that cluster is small |
| Iteration.KeysIn | src/main/java/de/lmu/ifi/dbs/elki/algorithm/clustering/subspace/PROCLUS.java:586-594 | the cluster keys, in medoid order, are exactly the medoids with a cluster, without repetitions |
| Iteration.Evaluate | src/main/java/de/lmu/ifi/dbs/elki/algorithm/clustering/subspace/PROCLUS.java:200-202 | a round's evaluation fails exactly when too few triples exist; otherwise its clusters belong to current medoids, are non-empty, and its objective is non-negative |
| Iteration.EvaluatePartition | src/main/java/de/lmu/ifi/dbs/elki/algorithm/clustering/subspace/PROCLUS.java:200-201 | every point lies in the cluster of exactly one current medoid |
| Iteration.ProgressBest | src/main/java/de/lmu/ifi/dbs/elki/algorithm/clustering/subspace/PROCLUS.java:204-210 | the best objective never increases, and changes exactly on a strict improvement |
| Iteration.Advance | src/main/java/de/lmu/ifi/dbs/elki/algorithm/clustering/subspace/PROCLUS.java:212-213 | succeeds exactly when the pool `M \ m_best` is at least as large as the number of bad medoids of `m_best`; the next current set keeps every good medoid of `m_best` in place and replaces each bad one by a distinct medoid of `M \ m_best`, with one draw per bad medoid, the evaluated clusters kept in key order, the best state unchanged and the counter one higher |
| Iteration.BadMedoids | src/main/java/de/lmu/ifi/dbs/elki/algorithm/clustering/subspace/PROCLUS.java:209 | a cluster of `c` points is bad exactly when `(c + 1) * 10 k` does not exceed the number of points |
| Iteration.Round | src/main/java/de/lmu/ifi/dbs/elki/algorithm/clustering/subspace/PROCLUS.java:199-217 | a round keeps the loop invariant and fails only as the Java code can; its objective is that of the current set; on strict improvement it sets best, `m_best`, a counter of 1 and `m_bad` to the bad medoids of this round's clusters, otherwise leaves them and counts up; the clusters it keeps for refinement are this round's evaluated clusters in current-medoid order; the next current set is `m_best` with its bad medoids replaced from `M \ m_best` |
| Iteration.Rounds | src/main/java/de/lmu/ifi/dbs/elki/algorithm/clustering/subspace/PROCLUS.java:199-217 | over any number of rounds the best objective never increases, and while it stays put the counter grows by one per round |
| Iteration.Run | src/main/java/de/lmu/ifi/dbs/elki/algorithm/clustering/subspace/PROCLUS.java:198-217 | the loop ends with the counter at exactly 10, a best medoid set chosen and a best objective no higher than at the start; it fails only with a Java exception of a round or when the fuel runs out |
| Iteration.Refine | src/main/java/de/lmu/ifi/dbs/elki/algorithm/clustering/subspace/PROCLUS.java:228-229 | refinement fails exactly when too few (cluster, dimension) pairs exist; otherwise its clusters partition the points, each with a non-empty set of dimensions below `dim` and the centroid of its members |
| Iteration.Proclus | src/main/java/de/lmu/ifi/dbs/elki/algorithm/clustering/subspace/PROCLUS.java:148-242 | `dim < l` throws `IllegalStateException`; an empty relation throws at the first `nextInt(0)`; `k = 1` always fails, and the missing locality radius happens only for `k = 1`; a finished run partitions the relation into non-empty clusters, each with a non-empty set of dimensions below `dim` and the centroid of its members |

## Left out

- The z-score arithmetic (`PROCLUS.java` 402-449 and 480-520) is left out. It uses `Math.sqrt` and may divide by a zero `sigma_i`, which is floating-point behaviour. The z-scores are inputs: `zs` maps a medoid set to one row per medoid, and `refineZs` maps the last clusters to one row per cluster.
- The range queries of `getLocalities` and the averages over localities are left out, because they belong to the external database. Only the minimum-distance radius is modelled (`LocalityRadius`). With a single medoid the Java radius is null; the model stops with `Err(NullRadius)` there, where Java fails the assertion or, with assertions disabled, hands the null radius to the range query.
- `DBIDUtil.randomSample` (lines 162-163) is left out: the sample is an input. The `k_i` parameter only sizes that sample.
- `java.util.Random` is an oracle. The model does not reproduce Java's generator, only the fact that each draw is some value in `[0, n)`.
- Floating point is not modelled. Objectives, averages and the `double` distances of `greedy` are reals, and `greedy` compares them without NaN. Assignment distances keep NaN for an empty dimension set.
- Evaluation.BadThreshold: `(int) (relation.size() * 0.1 / k)` is taken as the integer quotient `n / (10 k)`. Agreement with the rounded `double` expression is not proved.
- Iteration.Run: the Java loop always ends, because the best objective strictly decreases on every improvement and there are only finitely many medoid sets. The model bounds the rounds by a `fuel` argument instead and returns `Err(FuelExhausted)` when it runs out. That error does not exist in Java, and no lemma shows the result is independent of the fuel.
- `Centroid.make` is modelled as the coordinate-wise mean of the member vectors (`Assignment.Centroid`).
- Hash map and hash set iteration orders are given sequence orders:
  - the cluster map of a round is iterated in current-medoid order;
  - the refined dimension map is iterated in ascending cluster index;
  - in `greedy`, ties among the largest distances are decided by the order of
    `distances.values()`, a `HashMap` (lines 264 and 275-278); the model uses
    the order of the remaining sample;
  - `greedy` returns a `HashSet` that `initialSet` copies into a list
    (line 310); the model keeps the medoids in the order they were picked.
- Logging, the progress bar, the parameterizer and the construction of the `Clustering` result objects (lines 157-196, 214-221 and 231-241) are left out.
- Iteration.Proclus: requires `k > 0`, the parameter constraint on `k`. It also takes the sample as a duplicate-free list of relation ids and the z-score rows in the shape described above.
- The `PairUtil` factory methods (`comparator()`, `comparatorFirst()` and the others, lines 52-145) only construct the comparators. The model passes the component orders in as functions instead.
- DimensionSelection.Le: the triple order (z-score, then entity, then dimension) is taken to be `CTriple.compareTo`, which is not part of this model.
- DimensionSelection.Budget: `k * l` (lines 453 and 526), like `m_i * k` in `medoidSize` (line 165) and `k_i * k` in the sample size (line 162), is a 32-bit Java `int` product; the model takes these products as unbounded and differs once one exceeds 2^31 - 1. For example, `k = 65536` and `l = 32768` wrap `k * l` to -2^31, so Java selects 2 triples where the model selects 2^31, and a wrapped `m_i * k` makes `greedy` return a single medoid.
