/** Cluster pairs: the candidates queued for merging. A pair keeps its two
    clusters in the order given; its equality ignores that order. */
module ClusterPairs {
  import opened Objects
  import opened Clusters

  /** The constructor stores both clusters unchanged; `cluster1` and
      `cluster2` are `getCluster1` and `getCluster2`. */
  datatype ClusterPair = ClusterPair(cluster1: Cluster, cluster2: Cluster)

  /** The two identities a pair joins. */
  function IdSet(p: ClusterPair): set<int>
  {
    {p.cluster1.id, p.cluster2.id}
  }

  /** `equals(Object)`: false for an object of another class; otherwise the
      two sides match in the same order or crosswise, each side compared with
      cluster equality. */
  function Equals(p: ClusterPair, other: Obj<ClusterPair>): (r: bool)
    ensures other.OtherClass? ==> !r
    ensures r ==> IdSet(p) == IdSet(other.value)
  {
    match other
    case OtherClass => false
    case Instance(q) =>
      (Clusters.Equals(p.cluster1, Instance(q.cluster1)) && Clusters.Equals(p.cluster2, Instance(q.cluster2))) ||
      (Clusters.Equals(p.cluster1, Instance(q.cluster2)) && Clusters.Equals(p.cluster2, Instance(q.cluster1)))
  }

  /** The getters give back the constructor's arguments, in order. */
  lemma GettersReturnArguments(a: Cluster, b: Cluster)
    ensures ClusterPair(a, b).cluster1 == a && ClusterPair(a, b).cluster2 == b
  {
  }

  /** Two pairs are equal exactly when they join the same identities. */
  lemma EqualsIffSameIds(p: ClusterPair, q: ClusterPair)
    ensures Equals(p, Instance(q)) <==> IdSet(p) == IdSet(q)
  {
    if IdSet(p) == IdSet(q) {
      var x, y := p.cluster1.id, p.cluster2.id;
      assert x in IdSet(q) && y in IdSet(q);
      assert q.cluster1.id in IdSet(p) && q.cluster2.id in IdSet(p);
    }
  }

  /** Swapping the two sides gives an equal pair. */
  lemma EqualsOrderIndependent(a: Cluster, b: Cluster)
    ensures Equals(ClusterPair(a, b), Instance(ClusterPair(b, a)))
  {
  }

  lemma EqualsReflexive(p: ClusterPair)
    ensures Equals(p, Instance(p))
  {
  }

  lemma EqualsSymmetric(p: ClusterPair, q: ClusterPair)
    ensures Equals(p, Instance(q)) <==> Equals(q, Instance(p))
  {
  }

  /** `getDistanceBetween`: the distance from the first cluster to the second,
      under whatever cluster distance the caller supplies. */
  function DistanceBetween(p: ClusterPair, distance: (Cluster, Cluster) -> real): (r: real)
    ensures r == distance(p.cluster1, p.cluster2)
  {
    distance(p.cluster1, p.cluster2)
  }

  /** For a symmetric distance, such as the squared Euclidean distance between
      two centres, a pair and its swap are equally far apart. */
  lemma DistanceBetweenSwapped(p: ClusterPair, distance: (Cluster, Cluster) -> real)
    requires distance(p.cluster1, p.cluster2) == distance(p.cluster2, p.cluster1)
    ensures DistanceBetween(ClusterPair(p.cluster2, p.cluster1), distance) == DistanceBetween(p, distance)
  {
  }
}
