/** Clusters: a non-empty list of data points with an identity drawn from a
    monotone counter. Equality and hashing look at the identity only. */
module Clusters {
  import opened Objects

  /** A data point. Its features, centre and distances are not part of this
      model; only its identity as a member of a cluster matters. */
  type Point(==, !new)

  /** `members` is the list returned by `getEntireCluster` and `id` the value
      of `getUniqueId`. The Java object keeps the list it was built from by
      reference and hands that list out; the merge loop never changes such a
      list, and here a cluster is a value that cannot change once built. */
  datatype Cluster = Cluster(members: seq<Point>, id: int)

  /** The counter behind `assignUniqueId`, made an explicit object. `issued`
      records every identity handed out so far. */
  class IdAllocator {
    var next: int
    ghost var issued: set<int>

    ghost predicate Valid()
      reads this
    {
      forall i :: i in issued ==> i < next
    }

    /** The counter starts at zero, as the static field does. */
    constructor ()
      ensures Valid() && next == 0 && issued == {}
    {
      next := 0;
      issued := {};
    }

    /** Hands out the current counter value and advances the counter, so the
        identity returned was never handed out before. */
    method Fresh() returns (id: int)
      requires Valid()
      modifies this
      ensures Valid()
      ensures id == old(next) && next == old(next) + 1
      ensures id !in old(issued) && issued == old(issued) + {id}
    {
      id := next;
      next := next + 1;
      issued := issued + {id};
    }
  }

  /** The constructor taking a ready-made list of points. */
  method NewCluster(members: seq<Point>, alloc: IdAllocator) returns (c: Cluster)
    requires alloc.Valid()
    modifies alloc
    ensures alloc.Valid()
    ensures c.members == members
    ensures c.id == old(alloc.next) && alloc.next == old(alloc.next) + 1
    ensures c.id !in old(alloc.issued) && alloc.issued == old(alloc.issued) + {c.id}
  {
    var id := alloc.Fresh();
    c := Cluster(members, id);
  }

  /** The constructor taking one point: a cluster holding exactly that point. */
  method NewSingleton(point: Point, alloc: IdAllocator) returns (c: Cluster)
    requires alloc.Valid()
    modifies alloc
    ensures alloc.Valid()
    ensures c.members == [point]
    ensures c.id == old(alloc.next) && alloc.next == old(alloc.next) + 1
    ensures c.id !in old(alloc.issued) && alloc.issued == old(alloc.issued) + {c.id}
  {
    var list := [];
    list := list + [point];
    var id := alloc.Fresh();
    c := Cluster(list, id);
  }

  /** `a.merge(b)`: a new cluster whose points are a's followed by b's, under
      an identity different from every identity issued before. Neither input
      is touched: clusters are values. */
  method Merge(a: Cluster, b: Cluster, alloc: IdAllocator) returns (merged: Cluster)
    requires alloc.Valid()
    modifies alloc
    ensures alloc.Valid()
    ensures merged.members == a.members + b.members
    ensures |merged.members| == |a.members| + |b.members|
    ensures merged.id == old(alloc.next) && alloc.next == old(alloc.next) + 1
    ensures merged.id !in old(alloc.issued) && alloc.issued == old(alloc.issued) + {merged.id}
    ensures a.id in old(alloc.issued) ==> merged.id != a.id
    ensures b.id in old(alloc.issued) ==> merged.id != b.id
  {
    var mergedList := [];
    mergedList := mergedList + a.members;
    mergedList := mergedList + b.members;
    merged := NewCluster(mergedList, alloc);
  }

  /** `hashCode`: the identity itself, so a perfect hash: two clusters hash
      alike exactly when they are equal. */
  function HashCode(c: Cluster): (r: int)
    ensures forall d: Cluster :: r == d.id <==> Equals(c, Instance(d))
  {
    c.id
  }

  /** `equals(Object)`: false for an object of another class, otherwise
      whether the identities agree. */
  function Equals(c: Cluster, other: Obj<Cluster>): (r: bool)
    ensures other.OtherClass? ==> !r
    ensures r ==> c.id == other.value.id
    ensures other.Instance? && other.value == c ==> r
  {
    match other
    case OtherClass => false
    case Instance(d) => c.id == d.id
  }

  /** The equals/hashCode contract: equal clusters hash alike. */
  lemma EqualsImpliesSameHash(c: Cluster, d: Cluster)
    requires Equals(c, Instance(d))
    ensures HashCode(c) == HashCode(d)
  {
  }

  lemma EqualsIffSameId(c: Cluster, d: Cluster)
    ensures Equals(c, Instance(d)) <==> c.id == d.id
  {
  }

  lemma EqualsReflexive(c: Cluster)
    ensures Equals(c, Instance(c))
  {
  }

  lemma EqualsSymmetric(c: Cluster, d: Cluster)
    ensures Equals(c, Instance(d)) <==> Equals(d, Instance(c))
  {
  }

  lemma EqualsTransitive(c: Cluster, d: Cluster, e: Cluster)
    requires Equals(c, Instance(d)) && Equals(d, Instance(e))
    ensures Equals(c, Instance(e))
  {
  }

  /** Two clusters with the same points but different identities differ. */
  lemma EqualsIgnoresMembers(c: Cluster, d: Cluster)
    requires c.members == d.members && c.id != d.id
    ensures !Equals(c, Instance(d))
  {
  }
}
