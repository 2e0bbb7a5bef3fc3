/** The agglomerative merge loop: seed one cluster per point, queue every
    ordered pair of distinct clusters, then repeatedly take a queued pair
    whose clusters are both still live, retire both, and replace them by
    their merge, until k clusters remain. Stale pairs are discarded only when
    they are popped (lazy invalidation through the blacklist). */
module Agglomerative {
  import opened Objects
  import opened Clusters
  import opened ClusterPairs
  import opened LoopState

  /** What `cluster(k)` ends with: the surviving clusters, or the
      `NoSuchElementException` that `remove()` throws on an empty queue. */
  datatype Outcome = Clustered(clusters: seq<Cluster>) | QueueExhausted

  // ---------------------------------------------------------------------
  // The loop's pieces
  // ---------------------------------------------------------------------

  /** The seeding loop of `cluster(k)`: one singleton cluster per point,
      each blacklisted as not retired. */
  method Seed(data: seq<Point>, alloc: IdAllocator) returns (clusters: seq<Cluster>, blackList: map<int, bool>)
    requires alloc.Valid()
    modifies alloc
    ensures alloc.Valid()
    ensures alloc.next == old(alloc.next) + |data|
    ensures |clusters| == |data|
    ensures forall i :: 0 <= i < |data| ==> clusters[i] == Cluster([data[i]], old(alloc.next) + i)
    ensures blackList.Keys == Ids(clusters)
    ensures forall id :: id in blackList ==> !blackList[id]
  {
    clusters := [];
    blackList := map[];
    for i := 0 to |data|
      invariant alloc.Valid()
      invariant alloc.next == old(alloc.next) + i
      invariant |clusters| == i
      invariant forall j :: 0 <= j < i ==> clusters[j] == Cluster([data[j]], old(alloc.next) + j)
      invariant blackList.Keys == Ids(clusters)
      invariant forall id :: id in blackList ==> !blackList[id]
    {
      var newCluster := NewSingleton(data[i], alloc);
      IdsAppend(clusters, newCluster);
      clusters := clusters + [newCluster];
      blackList := blackList[newCluster.id := false];
    }
  }

  /** The nested loop of `cluster(k)` that fills `combinations`: a pair for
      every ordered pair of clusters that are not equal. With unique
      identities that is n * (n - 1) pairs. */
  method Combinations(clusters: seq<Cluster>) returns (combinations: seq<ClusterPair>)
    ensures forall p :: p in combinations <==>
      p.cluster1 in clusters && p.cluster2 in clusters && p.cluster1.id != p.cluster2.id
    ensures UniqueIds(clusters) ==> |combinations| == |clusters| * (|clusters| - 1)
  {
    var n := |clusters|;
    combinations := [];
    for i := 0 to n
      invariant forall p :: p in combinations ==>
        p.cluster1 in clusters && p.cluster2 in clusters && p.cluster1.id != p.cluster2.id
      invariant forall a, b :: 0 <= a < i && 0 <= b < n && clusters[a].id != clusters[b].id ==>
        ClusterPair(clusters[a], clusters[b]) in combinations
      invariant UniqueIds(clusters) ==> |combinations| == i * (n - 1)
    {
      var first := clusters[i];
      ghost var rowStart := |combinations|;
      for j := 0 to n
        invariant forall p :: p in combinations ==>
          p.cluster1 in clusters && p.cluster2 in clusters && p.cluster1.id != p.cluster2.id
        invariant forall a, b :: 0 <= a < i && 0 <= b < n && clusters[a].id != clusters[b].id ==>
          ClusterPair(clusters[a], clusters[b]) in combinations
        invariant forall b :: 0 <= b < j && first.id != clusters[b].id ==>
          ClusterPair(first, clusters[b]) in combinations
        invariant UniqueIds(clusters) ==> |combinations| == rowStart + (if i < j then j - 1 else j)
      {
        var second := clusters[j];
        if !Clusters.Equals(first, Instance(second)) {
          combinations := combinations + [ClusterPair(first, second)];
        }
      }
      assert i * (n - 1) + (n - 1) == (i + 1) * (n - 1);
    }
    forall p: ClusterPair | p.cluster1 in clusters && p.cluster2 in clusters && p.cluster1.id != p.cluster2.id
      ensures p in combinations
    {
      var a :| 0 <= a < n && clusters[a] == p.cluster1;
      var b :| 0 <= b < n && clusters[b] == p.cluster2;
    }
  }

  /** The discard loop at the head of each merge: pop pairs, discarding
      stale ones, until one has both sides live. The queue's order is not modelled: each pop takes some
      queued pair. `None` stands for `remove()` on an empty queue. Every pair
      popped but not returned was stale. */
  method PopValid(queue: multiset<ClusterPair>, blackList: map<int, bool>)
      returns (popped: Option<ClusterPair>, rest: multiset<ClusterPair>)
    requires forall p :: p in queue ==> Known(p, blackList)
    ensures rest <= queue
    ensures popped.Some? ==> popped.value in queue && !Stale(popped.value, blackList)
    ensures popped.Some? ==> rest[popped.value] == queue[popped.value] - 1
    ensures popped.None? <==> forall p :: p in queue ==> Stale(p, blackList)
    ensures popped.None? ==> rest == multiset{}
    ensures forall p :: p in queue && !Stale(p, blackList) && popped != Some(p) ==> rest[p] == queue[p]
  {
    rest := queue;
    while rest != multiset{}
      invariant rest <= queue
      invariant forall p :: p in queue && !Stale(p, blackList) ==> rest[p] == queue[p]
      decreases |rest|
    {
      var result :| result in rest;
      rest := rest - multiset{result};
      if !Stale(result, blackList) {
        popped := Some(result);
        return;
      }
    }
    popped := None;
  }

  /** The loop after each merge that queues one new pair per remaining live
      cluster, joining it to the merged cluster. */
  method QueuePairsWith(queue: multiset<ClusterPair>, clusters: seq<Cluster>, newCluster: Cluster)
      returns (q: multiset<ClusterPair>)
    ensures queue <= q
    ensures |q| == |queue| + |clusters|
    ensures forall c :: c in clusters ==> ClusterPair(c, newCluster) in q - queue
    ensures forall p :: p in q - queue ==> p.cluster1 in clusters && p.cluster2 == newCluster
  {
    q := queue;
    for i := 0 to |clusters|
      invariant queue <= q
      invariant |q| == |queue| + i
      invariant forall j :: 0 <= j < i ==> ClusterPair(clusters[j], newCluster) in q - queue
      invariant forall p :: p in q - queue ==> p.cluster1 in clusters[..i] && p.cluster2 == newCluster
    {
      var added := ClusterPair(clusters[i], newCluster);
      assert (q + multiset{added}) - queue == (q - queue) + multiset{added};
      q := q + multiset{added};
      assert clusters[..i + 1] == clusters[..i] + [clusters[i]];
    }
    assert clusters[..|clusters|] == clusters;
  }

  /** The final loop of `cluster(k)`: every point of every surviving cluster
      goes through the per-point action; each cluster keeps its identity. */
  method UnstandardizeAll(clusters: seq<Cluster>, unstandardize: Point -> Point) returns (result: seq<Cluster>)
    ensures |result| == |clusters|
    ensures forall i :: 0 <= i < |clusters| ==>
      result[i].id == clusters[i].id && result[i].members == Apply(unstandardize, clusters[i].members)
    ensures Members(result) == Apply(unstandardize, Members(clusters))
  {
    result := [];
    for i := 0 to |clusters|
      invariant |result| == i
      invariant forall j :: 0 <= j < i ==>
        result[j].id == clusters[j].id && result[j].members == Apply(unstandardize, clusters[j].members)
    {
      var current := clusters[i];
      var points := [];
      for t := 0 to |current.members|
        invariant points == Apply(unstandardize, current.members[..t])
      {
        points := points + [unstandardize(current.members[t])];
      }
      assert current.members[..|current.members|] == current.members;
      result := result + [Cluster(points, current.id)];
    }
    MembersApply(clusters, result, unstandardize);
  }


  // ---------------------------------------------------------------------
  // The merge loop
  // ---------------------------------------------------------------------

  /** `cluster(k)` over the loaded points `data`, drawing identities from
      `alloc` and applying `unstandardize` to every point at the end. The
      ghost `sources` lists the identities consumed by merges, in order. */
  method Agglomerate(data: seq<Point>, k: int, alloc: IdAllocator, unstandardize: Point -> Point)
      returns (r: Outcome, ghost sources: seq<int>)
    requires alloc.Valid()
    modifies alloc
    ensures alloc.Valid()
    ensures r.QueueExhausted? <==> k < 1 && |data| > k
    ensures r.Clustered? ==> |r.clusters| == (if |data| <= k then |data| else k)
    ensures r.Clustered? ==> alloc.next == old(alloc.next) + 2 * |data| - |r.clusters|
    ensures r.Clustered? ==> UniqueIds(r.clusters)
    ensures r.Clustered? ==> forall c :: c in r.clusters ==>
      |c.members| > 0 && old(alloc.next) <= c.id < alloc.next && c.id !in Elements(sources)
    ensures r.Clustered? ==> multiset(Members(r.clusters)) == multiset(Apply(unstandardize, data))
    ensures r.Clustered? ==> |sources| == 2 * (|data| - |r.clusters|) && NoDuplicates(sources)
  {
    ghost var start := alloc.next;
    var clusters, blackList := Seed(data, alloc);
    var combinations := Combinations(clusters);
    var clusterQueue := multiset(combinations);
    SeedingEstablishesInv(data, start, clusters, blackList, combinations);
    sources := [];
    ghost var merges := 0;

    while |clusters| > k
      invariant alloc.Valid()
      invariant Inv(data, start, alloc.next, clusters, blackList, clusterQueue, sources)
      invariant |clusters| + merges == |data|
      invariant alloc.next == start + |data| + merges
      invariant |sources| == 2 * merges
      invariant merges > 0 ==> |clusters| >= k
      decreases |clusters|
    {
      var popped, rest := PopValid(clusterQueue, blackList);
      if popped.None? {
        LiveClustersGiveValidPair(data, start, alloc.next, clusters, blackList, clusterQueue, sources);
        r := QueueExhausted;
        return;
      }
      var result := popped.value;
      ghost var before := (clusters, blackList, clusterQueue, sources);
      blackList := blackList[result.cluster1.id := true][result.cluster2.id := true];
      clusters := Remove(clusters, result.cluster1);
      clusters := Remove(clusters, result.cluster2);
      var newCluster := Merge(result.cluster1, result.cluster2, alloc);
      clusterQueue := QueuePairsWith(rest, clusters, newCluster);
      StepKeepsInv(data, start, alloc.next - 1, before.0, before.1, before.2, before.3,
                   result, rest, clusters, newCluster, clusterQueue);
      clusters := clusters + [newCluster];
      blackList := blackList[newCluster.id := false];
      sources := sources + [result.cluster1.id, result.cluster2.id];
      merges := merges + 1;
    }

    var finalClusters := UnstandardizeAll(clusters, unstandardize);
    FinalClusters(data, start, alloc.next, clusters, blackList, clusterQueue, sources,
                  finalClusters, unstandardize);
    r := Clustered(finalClusters);
  }
}

