# Agglomerative clustering: the merge loop

This project models the merge loop of `AgglomerativeClusterer.cluster(int k)`
together with the two value types it works on, `Cluster` and `ClusterPair`.

The loop first seeds one singleton cluster per data point and marks each
one as not retired in a blacklist. It then queues a `ClusterPair` for every
ordered pair of distinct clusters.

While more than `k` clusters are live, each iteration does the following:
- it pops pairs until one has both sides not retired, discarding stale pairs
  (lazy invalidation);
- it marks both sides of that pair as retired and removes them from the live
  list;
- it merges them into a new cluster under a fresh identity;
- it queues a pair between every remaining live cluster and the new one;
- it adds the new cluster to the live list as not retired.

At the end, every point of every surviving cluster goes through the
per-point `unstandardize` action.

Modules:

- `Objects`: the argument of a Java `equals(Object)` (`Obj`) and `Option`.
- `Clusters`: the point type (opaque), the `Cluster` value (members and
  identity), and the identity counter as an `IdAllocator` object. Also the
  two constructors, `merge`, `equals` and `hashCode`.
- `ClusterPairs`: the `ClusterPair` value, its order-independent `equals`,
  and its distance under a caller-supplied cluster distance.
- `LoopState`: views of the loop state and the loop invariant `Inv`, with
  lemmas showing that seeding establishes it and that each merge keeps it.
  The invariant has these parts:
  - live identities are unique and are exactly the blacklist's `false`
    entries;
  - the retired identities are exactly the merge history;
  - every queued pair is well formed;
  - every two distinct live clusters are joined by a queued pair;
  - the live clusters hold exactly the data points, each as often as it
    occurs.
- `Agglomerative`: the loop itself (`Agglomerate`) and its pieces as
  methods with loops:
  - seeding;
  - building the pair list;
  - popping a valid pair;
  - queuing the new pairs;
  - the final per-point pass.

Modelling choices:

- The blacklist is a `HashMap<Cluster, Boolean>`. Cluster keys are compared
  and hashed by identity, so it is modelled as a map from identities to the
  retired flag.
- The priority queue is a multiset of pairs. Each `remove()` takes some
  queued pair; which one is left open, because the comparator is not
  modelled (see below).
- `remove()` on an empty queue throws `NoSuchElementException`. It is
  modelled as the outcome `QueueExhausted`. `Agglomerate` proves this outcome
  happens exactly when `k < 1` and there are more than `k` points.
- Otherwise (`k >= 1`, or at most `k` points) the result has
  `min(n, k)` clusters, the surviving clusters hold the images of the data
  points (each as often as it occurs), identities are unique, and no
  surviving identity was ever merged away.
- Clusters are values, so `merge` cannot modify either input: the member
  list it returns is a new sequence.

## Model

| member | source | states |
|---|---|---|
| Clusters.IdAllocator.constructor | Cluster.java:11 | the counter starts at 0 with no identity issued |
| Clusters.IdAllocator.Fresh | Cluster.java:30-34 | returns the current counter value and advances the counter by one; the value returned was never issued before |
| Clusters.NewCluster | Cluster.java:15-19 | the new cluster holds the given list and takes a fresh identity (the counter's old value) |
| Clusters.NewSingleton | Cluster.java:20-25 | the new cluster's members are exactly `[point]`, under a fresh identity |
| Clusters.Merge | Cluster.java:82-88 | members are this cluster's followed by the other's, length the sum of both; the identity is fresh, different from every identity issued earlier and so from both inputs' |
| Clusters.HashCode | Cluster.java:107-110 | a perfect hash: a cluster's hash is another cluster's identity exactly when the two clusters are equal |
| Clusters.Equals | Cluster.java:94-102 | false for an object of another class; equal clusters have the same identity; every cluster equals itself |
| Clusters.EqualsImpliesSameHash | Cluster.java:101-110 | equal clusters have equal `hashCode` |
| Clusters.EqualsIffSameId | Cluster.java:94-102 | `equals` holds exactly when the identities agree |
| Clusters.EqualsReflexive | Cluster.java:94-102 | every cluster equals itself |
| Clusters.EqualsSymmetric | Cluster.java:94-102 | `equals` is symmetric |
| Clusters.EqualsTransitive | Cluster.java:94-102 | `equals` is transitive |
| Clusters.EqualsIgnoresMembers | Cluster.java:101 | clusters with the same points but different identities are not equal |
| ClusterPairs.Equals | ClusterPair.java:39-48 | false for an object of another class; equal pairs join the same two identities |
| ClusterPairs.GettersReturnArguments | ClusterPair.java:12-15 | `getCluster1` and `getCluster2` give back the constructor's arguments in order |
| ClusterPairs.EqualsIffSameIds | ClusterPair.java:46-47 | two pairs are equal exactly when the sets of their two identities coincide |
| ClusterPairs.EqualsOrderIndependent | ClusterPair.java:46-47 | pair (A, B) equals pair (B, A) |
| ClusterPairs.EqualsReflexive | ClusterPair.java:46-47 | every pair equals itself |
| ClusterPairs.EqualsSymmetric | ClusterPair.java:46-47 | pair equality is symmetric |
| ClusterPairs.DistanceBetween | ClusterPair.java:31-34 | a pair's distance is the distance from its first cluster to its second |
| ClusterPairs.DistanceBetweenSwapped | ClusterPair.java:31-34 | under a symmetric cluster distance a pair and its swap are equally far apart |
| LoopState.Stale | AgglomerativeClusterer.java:167 | a pair is discarded exactly when one of its sides is retired; it is kept exactly when both sides are live |
| LoopState.Remove | AgglomerativeClusterer.java:173-174 | drops the first element whose identity equals the argument's; a list with no such element is returned unchanged |
| LoopState.IdsAppend | AgglomerativeClusterer.java:181 | appending a cluster adds exactly its identity to the live identities |
| LoopState.UniqueAppend | AgglomerativeClusterer.java:181 | appending a cluster with a new identity keeps live identities unique |
| LoopState.MembersConcat | AgglomerativeClusterer.java:181 | the points of two lists of clusters are the points of the first followed by those of the second |
| LoopState.MembersOfSingletons | AgglomerativeClusterer.java:144-149 | the seeded singletons hold exactly the data points, in order |
| LoopState.RemoveSplit | AgglomerativeClusterer.java:173-174 | `remove` on a live cluster drops exactly the one position holding it |
| LoopState.RemoveShift | AgglomerativeClusterer.java:173-174 | after `remove`, the elements before the dropped position stay put and those after move down by one |
| LoopState.RemoveUnique | AgglomerativeClusterer.java:173-174 | `remove` shortens the live list by one and keeps identities unique |
| LoopState.RemoveKeeps | AgglomerativeClusterer.java:173-174 | every other live cluster survives `remove` |
| LoopState.RemoveOnly | AgglomerativeClusterer.java:173-174 | whatever survives `remove` was live and is not the removed cluster |
| LoopState.RemoveMembership | AgglomerativeClusterer.java:173-174 | a cluster survives `remove` exactly when it was live with a different identity |
| LoopState.RemoveIds | AgglomerativeClusterer.java:173-174 | `remove` takes exactly the removed identity out of the live identities |
| LoopState.RemoveMembers | AgglomerativeClusterer.java:173-174 | the removed cluster's points, added to the points left, give the points before |
| LoopState.RemovePair | AgglomerativeClusterer.java:173-174 | removing both sides of a pair leaves the other live clusters, with unique identities, two fewer, and every point either left or in one of the two sides |
| LoopState.ApplyConcat | AgglomerativeClusterer.java:191-197 | the per-point action distributes over concatenation |
| LoopState.MembersApply | AgglomerativeClusterer.java:191-197 | applying the action inside each cluster applies it to all points of the list |
| LoopState.ApplyPreservesMultiset | AgglomerativeClusterer.java:191-197 | the same points, each as often, give the same images, each as often |
| LoopState.SeedingEstablishesInv | AgglomerativeClusterer.java:144-162 | after seeding and queuing all distinct ordered pairs, the loop invariant holds with no merges made |
| LoopState.LiveClustersGiveValidPair | AgglomerativeClusterer.java:164-170 | under the invariant, with two or more live clusters the queue holds a pair with neither side retired, so `remove()` cannot run out |
| LoopState.StepBlackList | AgglomerativeClusterer.java:171-182 | after a merge the blacklist's `false` entries are the new live list, its `true` entries grew by exactly the two merged sides, and it gained exactly the new identity |
| LoopState.StepSources | AgglomerativeClusterer.java:171-172 | a merged side was not merged before, so the merge history stays free of repeats |
| LoopState.StepQueue | AgglomerativeClusterer.java:166-182 | after a merge every queued pair is still well formed for the new live list and blacklist |
| LoopState.StepCovered | AgglomerativeClusterer.java:166-181 | after a merge every two distinct live clusters are still joined by a queued pair |
| LoopState.StepRemoved | AgglomerativeClusterer.java:166-176 | the chosen pair joins two different live clusters; removing both leaves the others, two fewer, with their points |
| LoopState.StepKeepsIds | AgglomerativeClusterer.java:171-182 | after a merge the live identities are unique and match the blacklist, the retired ones are the merge history, and the live clusters still hold exactly the data points |
| LoopState.StepKeepsQueue | AgglomerativeClusterer.java:166-182 | after a merge the queue part of the invariant holds |
| LoopState.StepKeepsInv | AgglomerativeClusterer.java:164-182 | one merge keeps the whole loop invariant and takes the live count down by exactly one |
| LoopState.FinalClusters | AgglomerativeClusterer.java:191-200 | the returned clusters have unique identities from this run, none merged away, no empty cluster, and hold the images of the data points, each as often as it occurs |
| Agglomerative.Seed | AgglomerativeClusterer.java:144-149 | one singleton per data point, in order, under consecutive fresh identities, each mapped to not retired |
| Agglomerative.Combinations | AgglomerativeClusterer.java:152-160 | a pair is listed exactly when both sides are clusters and their identities differ; with unique identities there are n * (n - 1) pairs |
| Agglomerative.PopValid | AgglomerativeClusterer.java:166-170 | the returned pair was queued and has neither side retired, and one copy of it is taken off; only stale pairs are discarded; nothing is returned exactly when every queued pair is stale |
| Agglomerative.QueuePairsWith | AgglomerativeClusterer.java:177-180 | exactly one new pair per remaining live cluster, each joining that cluster to the merged one; the old queue is kept |
| Agglomerative.UnstandardizeAll | AgglomerativeClusterer.java:191-197 | every cluster keeps its identity and its points are the action's images, so all points are the images of all points before |
| Agglomerative.Agglomerate | AgglomerativeClusterer.java:137-201 | `remove()` runs out exactly when `k < 1` and there are more than `k` points; otherwise the result has `min(n, k)` clusters after `n - min(n, k)` merges, with unique identities, no empty cluster, no identity that was merged away, and the images of the data points, each as often as it occurs |

## Left out

- The order of the priority queue is not modelled. `ClusterPair.compareTo`
  (ClusterPair.java:25) returns `Math.round(other.d - this.d)`. Under Java's
  min-heap that serves the farthest pair first, which contradicts its doc
  comment. Rounding also makes the order non-transitive. Each pop therefore
  takes some queued pair, and no property depends on which one.
- `getCenter`, `getDistance`, `calcSSE` and the squared Euclidean distance
  are left out because they are float arithmetic. A pair's distance is taken
  over a caller-supplied cluster distance.
- `readFile`, `standardize` and `unstandardize` are left out because they
  are file I/O and float arithmetic. `unstandardize` is a parameter applied
  to each point, producing new point values.
- Agglomerate: leaves the clusterer's data points unchanged. In Java the
  seeded singletons hold the very `DataPoint` objects of the clusterer's
  `data` list, and the final loop rewrites them in place (assuming
  `DataPoint.getMap` returns the point's own map). After one call of
  `cluster(k)` that list is therefore no longer standardized, so a second call
  would cluster unstandardized points and unstandardize them twice. That
  sharing between the returned clusters and `data` is not modelled.
- The printing inside the loop (lines 184-188), `printClusters`, `main`,
  `toString` and the prompt for `k` are left out because they are console
  output.
- The unused `Random` field is left out.
- The `DataPoint` class is not part of this model: points are an opaque
  type compared only for equality.
- Clusters.IdAllocator.Fresh: the counter is an unbounded integer, so the
  32-bit wrap-around of the static `int` counter after 2^31 clusters is not
  modelled.
- LoopState.Stale: a pair is only ever looked up when both of its sides have
  blacklist entries. The `NullPointerException` that unboxing a missing
  entry would raise is therefore not modelled; the invariant proves it never
  happens.
