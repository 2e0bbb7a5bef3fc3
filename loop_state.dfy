/** The state of the merge loop and what it keeps true: which clusters are
    live, which identities are retired, which pairs are queued, and where
    every data point is. */
module LoopState {
  import opened Objects
  import opened Clusters
  import opened ClusterPairs

  // ---------------------------------------------------------------------
  // Views of the loop state
  // ---------------------------------------------------------------------

  /** The identities of a list of clusters. */
  ghost function Ids(cs: seq<Cluster>): set<int>
  {
    set c | c in cs :: c.id
  }

  ghost predicate UniqueIds(cs: seq<Cluster>)
  {
    forall i, j :: 0 <= i < j < |cs| ==> cs[i].id != cs[j].id
  }

  ghost predicate NoDuplicates(s: seq<int>)
  {
    forall i, j :: 0 <= i < j < |s| ==> s[i] != s[j]
  }

  ghost function Elements(s: seq<int>): set<int>
  {
    set x | x in s
  }

  /** All points of all clusters, cluster after cluster. */
  ghost function Members(cs: seq<Cluster>): seq<Point>
  {
    if cs == [] then [] else cs[0].members + Members(cs[1..])
  }

  /** The blacklist is keyed by cluster, and cluster keys are compared and
      hashed by identity, so it is a map from identities to the retired flag. */
  ghost function Live(blackList: map<int, bool>): set<int>
  {
    set id | id in blackList && !blackList[id]
  }

  ghost function Retired(blackList: map<int, bool>): set<int>
  {
    set id | id in blackList && blackList[id]
  }

  /** Both sides of the pair have a blacklist entry, so looking them up
      yields a flag rather than null. */
  predicate Known(p: ClusterPair, blackList: map<int, bool>)
  {
    p.cluster1.id in blackList && p.cluster2.id in blackList
  }

  /** The discard test of the inner loop: a side has already been merged. */
  predicate Stale(p: ClusterPair, blackList: map<int, bool>): (r: bool)
    requires Known(p, blackList)
    ensures r <==> p.cluster1.id in Retired(blackList) || p.cluster2.id in Retired(blackList)
    ensures !r <==> p.cluster1.id in Live(blackList) && p.cluster2.id in Live(blackList)
  {
    blackList[p.cluster1.id] || blackList[p.cluster2.id]
  }

  /** Position `i` holds the first cluster of `cs` with identity `id`. */
  ghost predicate FirstWithId(cs: seq<Cluster>, id: int, i: int)
  {
    0 <= i < |cs| && cs[i].id == id && forall j :: 0 <= j < i ==> cs[j].id != id
  }

  /** `ArrayList.remove(Object)`: drop the first element equal to `c`, where
      cluster equality compares identities; a list holding no such element
      is returned unchanged. */
  function Remove(cs: seq<Cluster>, c: Cluster): (r: seq<Cluster>)
    ensures (forall i :: 0 <= i < |cs| ==> cs[i].id != c.id) ==> r == cs
    ensures forall i :: FirstWithId(cs, c.id, i) ==> r == cs[..i] + cs[i + 1..]
  {
    if cs == [] then []
    else if Clusters.Equals(c, Instance(cs[0])) then
      assert forall i :: FirstWithId(cs, c.id, i) ==> i == 0;
      cs[1..]
    else
      assert forall i :: FirstWithId(cs, c.id, i) ==> FirstWithId(cs[1..], c.id, i - 1);
      [cs[0]] + Remove(cs[1..], c)
  }

  /** The post-loop action on every point, as a pure map over a list. */
  function Apply(f: Point -> Point, s: seq<Point>): seq<Point>
  {
    seq(|s|, i requires 0 <= i < |s| => f(s[i]))
  }

  /** A queued pair joins two different identities, both on the blacklist,
      and a side not yet retired is the live cluster itself. */
  ghost predicate WellFormed(p: ClusterPair, blackList: map<int, bool>, clusters: seq<Cluster>)
  {
    && Known(p, blackList)
    && p.cluster1.id != p.cluster2.id
    && (!blackList[p.cluster1.id] ==> p.cluster1 in clusters)
    && (!blackList[p.cluster2.id] ==> p.cluster2 in clusters)
  }

  /** Every two distinct live clusters are joined by a queued pair, in one
      order or the other. */
  ghost predicate Covered(clusters: seq<Cluster>, queue: multiset<ClusterPair>)
  {
    forall a, b :: a in clusters && b in clusters && a.id != b.id ==>
      ClusterPair(a, b) in queue || ClusterPair(b, a) in queue
  }

  /** The invariant of the merge loop. `start` is the counter value before
      seeding, `next` its current value, `sources` the identities merged so
      far, in order. */
  ghost predicate Inv(data: seq<Point>, start: int, next: int, clusters: seq<Cluster>,
                      blackList: map<int, bool>, queue: multiset<ClusterPair>, sources: seq<int>)
  {
    && UniqueIds(clusters)
    && (forall c :: c in clusters ==> |c.members| > 0)
    && Live(blackList) == Ids(clusters)
    && start <= next
    && (forall id :: id in blackList ==> start <= id < next)
    && Retired(blackList) == Elements(sources)
    && NoDuplicates(sources)
    && (forall p :: p in queue ==> WellFormed(p, blackList, clusters))
    && Covered(clusters, queue)
    && multiset(Members(clusters)) == multiset(data)
  }


  // ---------------------------------------------------------------------
  // Lists of clusters
  // ---------------------------------------------------------------------

  lemma IdsAppend(cs: seq<Cluster>, c: Cluster)
    ensures Ids(cs + [c]) == Ids(cs) + {c.id}
  {
    forall id | id in Ids(cs) ensures id in Ids(cs + [c]) {
      var d :| d in cs && d.id == id;
      assert d in cs + [c];
    }
    assert c in cs + [c];
  }

  lemma UniqueAppend(cs: seq<Cluster>, c: Cluster)
    requires UniqueIds(cs) && c.id !in Ids(cs)
    ensures UniqueIds(cs + [c])
  {
    var s := cs + [c];
    forall i, j | 0 <= i < j < |s| ensures s[i].id != s[j].id {
      if j == |cs| {
        assert s[i] in cs;
      }
    }
  }

  lemma {:induction false} MembersConcat(a: seq<Cluster>, b: seq<Cluster>)
    ensures Members(a + b) == Members(a) + Members(b)
  {
    if a != [] {
      assert (a + b)[1..] == a[1..] + b;
      MembersConcat(a[1..], b);
    } else {
      assert a + b == b;
    }
  }

  /** Seeded singletons hold the data points in order. */
  lemma {:induction false} MembersOfSingletons(cs: seq<Cluster>, data: seq<Point>)
    requires |cs| == |data|
    requires forall i :: 0 <= i < |cs| ==> cs[i].members == [data[i]]
    ensures Members(cs) == data
  {
    if cs != [] {
      MembersOfSingletons(cs[1..], data[1..]);
    }
  }

  /** In a list with unique identities, `Remove` cuts out exactly the given
      cluster, wherever it stands. */
  lemma {:induction false} RemoveSplit(cs: seq<Cluster>, c: Cluster) returns (i: nat)
    requires UniqueIds(cs) && c in cs
    ensures i < |cs| && cs[i] == c
    ensures Remove(cs, c) == cs[..i] + cs[i + 1..]
  {
    var j :| 0 <= j < |cs| && cs[j] == c;
    if cs[0].id == c.id {
      assert j == 0;
      i := 0;
    } else {
      var tail := cs[1..];
      assert tail[j - 1] == c;
      assert UniqueIds(tail) by {
        forall a, b | 0 <= a < b < |tail| ensures tail[a].id != tail[b].id {
          assert tail[a] == cs[a + 1] && tail[b] == cs[b + 1];
        }
      }
      var k := RemoveSplit(tail, c);
      i := k + 1;
      assert cs[..i] == [cs[0]] + tail[..k];
      assert cs[i + 1..] == tail[k + 1..];
    }
  }

  /** Removing a live cluster keeps the identities unique and shortens the
      list by one. */
  lemma RemoveUnique(cs: seq<Cluster>, c: Cluster)
    requires UniqueIds(cs) && c in cs
    ensures |Remove(cs, c)| == |cs| - 1
    ensures UniqueIds(Remove(cs, c))
  {
    var i := RemoveSplit(cs, c);
    var r := cs[..i] + cs[i + 1..];
    forall x, y | 0 <= x < y < |r| ensures r[x].id != r[y].id {
      var x' := if x < i then x else x + 1;
      var y' := if y < i then y else y + 1;
      assert r[x] == cs[x'] && r[y] == cs[y'];
    }
  }

  /** What `Remove` leaves, position by position. */
  lemma RemoveShift(cs: seq<Cluster>, c: Cluster) returns (i: nat)
    requires UniqueIds(cs) && c in cs
    ensures i < |cs| && cs[i] == c && |Remove(cs, c)| == |cs| - 1
    ensures forall m :: 0 <= m < i ==> Remove(cs, c)[m] == cs[m]
    ensures forall m :: i <= m < |cs| - 1 ==> Remove(cs, c)[m] == cs[m + 1]
  {
    i := RemoveSplit(cs, c);
  }

  /** A cluster other than the removed one stays. */
  lemma RemoveKeeps(cs: seq<Cluster>, c: Cluster, x: Cluster)
    requires UniqueIds(cs) && c in cs && x in cs && x.id != c.id
    ensures x in Remove(cs, c)
  {
    var i := RemoveShift(cs, c);
    var m :| 0 <= m < |cs| && cs[m] == x;
    assert m != i;
    assert Remove(cs, c)[if m < i then m else m - 1] == x;
  }

  /** Whatever stays was there before and is not the removed cluster. */
  lemma RemoveOnly(cs: seq<Cluster>, c: Cluster, x: Cluster)
    requires UniqueIds(cs) && c in cs && x in Remove(cs, c)
    ensures x in cs && x.id != c.id
  {
    var i := RemoveShift(cs, c);
    var r := Remove(cs, c);
    var m :| 0 <= m < |r| && r[m] == x;
    var m' := if m < i then m else m + 1;
    assert cs[m'] == x && m' != i;
  }

  /** Removing a live cluster removes that cluster and no other. */
  lemma RemoveMembership(cs: seq<Cluster>, c: Cluster)
    requires UniqueIds(cs) && c in cs
    ensures forall x :: x in Remove(cs, c) <==> x in cs && x.id != c.id
  {
    forall x ensures x in Remove(cs, c) <==> x in cs && x.id != c.id {
      if x in Remove(cs, c) {
        RemoveOnly(cs, c, x);
      }
      if x in cs && x.id != c.id {
        RemoveKeeps(cs, c, x);
      }
    }
  }

  /** Removing a live cluster removes its identity and no other. */
  lemma RemoveIds(cs: seq<Cluster>, c: Cluster)
    requires UniqueIds(cs) && c in cs
    ensures Ids(Remove(cs, c)) == Ids(cs) - {c.id}
  {
    RemoveMembership(cs, c);
    var r := Remove(cs, c);
    forall id ensures id in Ids(r) <==> id in Ids(cs) - {c.id} {
      if id in Ids(r) {
        var d :| d in r && d.id == id;
        assert d in cs;
      }
      if id in Ids(cs) - {c.id} {
        var d :| d in cs && d.id == id;
        assert d in r;
      }
    }
  }

  /** Removing a live cluster removes exactly its points. */
  lemma RemoveMembers(cs: seq<Cluster>, c: Cluster)
    requires UniqueIds(cs) && c in cs
    ensures multiset(Members(cs)) == multiset(Members(Remove(cs, c))) + multiset(c.members)
  {
    var i := RemoveSplit(cs, c);
    var a, b := cs[..i], cs[i + 1..];
    assert cs == a + [c] + b;
    MembersConcat(a + [c], b);
    MembersConcat(a, [c]);
    MembersConcat(a, b);
    assert Members([c]) == c.members;
  }

  /** Removing both sides of a live pair. */
  lemma RemovePair(cs: seq<Cluster>, c1: Cluster, c2: Cluster)
    requires UniqueIds(cs) && c1 in cs && c2 in cs && c1.id != c2.id
    ensures |Remove(Remove(cs, c1), c2)| == |cs| - 2
    ensures UniqueIds(Remove(Remove(cs, c1), c2))
    ensures forall x :: x in Remove(Remove(cs, c1), c2) <==> x in cs && x.id != c1.id && x.id != c2.id
    ensures Ids(Remove(Remove(cs, c1), c2)) == Ids(cs) - {c1.id, c2.id}
    ensures multiset(Members(cs)) ==
      multiset(Members(Remove(Remove(cs, c1), c2))) + multiset(c1.members + c2.members)
  {
    RemoveUnique(cs, c1);
    RemoveMembership(cs, c1);
    RemoveIds(cs, c1);
    RemoveMembers(cs, c1);
    RemoveUnique(Remove(cs, c1), c2);
    RemoveMembership(Remove(cs, c1), c2);
    RemoveIds(Remove(cs, c1), c2);
    RemoveMembers(Remove(cs, c1), c2);
  }

  // ---------------------------------------------------------------------
  // The per-point action
  // ---------------------------------------------------------------------

  lemma ApplyConcat(f: Point -> Point, s: seq<Point>, t: seq<Point>)
    ensures Apply(f, s + t) == Apply(f, s) + Apply(f, t)
  {
  }

  /** Mapping every point commutes with listing the points. */
  lemma {:induction false} MembersApply(cs: seq<Cluster>, out: seq<Cluster>, f: Point -> Point)
    requires |out| == |cs|
    requires forall i :: 0 <= i < |cs| ==> out[i].members == Apply(f, cs[i].members)
    ensures Members(out) == Apply(f, Members(cs))
  {
    if cs != [] {
      MembersApply(cs[1..], out[1..], f);
      ApplyConcat(f, cs[0].members, Members(cs[1..]));
    }
  }

  /** Applying the action point by point to two lists holding the same points
      gives lists holding the same images. */
  lemma {:induction false} ApplyPreservesMultiset(f: Point -> Point, s: seq<Point>, t: seq<Point>)
    requires multiset(s) == multiset(t)
    ensures multiset(Apply(f, s)) == multiset(Apply(f, t))
    decreases |s|
  {
    if s == [] {
      assert |t| == |multiset(t)| == 0;
    } else {
      var x := s[0];
      assert x in multiset(t);
      var i :| 0 <= i < |t| && t[i] == x;
      var left, right := t[..i], t[i + 1..];
      var rest := left + right;
      assert t == left + [x] + right;
      assert s == [x] + s[1..];
      assert multiset(t) == multiset(left) + multiset{x} + multiset(right);
      assert multiset(s) == multiset{x} + multiset(s[1..]);
      assert multiset(rest) == multiset(left) + multiset(right);
      assert multiset(s[1..]) == multiset(s) - multiset{x};
      assert multiset(rest) == multiset(t) - multiset{x};
      ApplyPreservesMultiset(f, s[1..], rest);
      ApplyConcat(f, [x], s[1..]);
      ApplyConcat(f, left + [x], right);
      ApplyConcat(f, left, [x]);
      ApplyConcat(f, left, right);
    }
  }

  // ---------------------------------------------------------------------
  // The loop invariant: established by seeding, kept by each merge
  // ---------------------------------------------------------------------

  /** Seeding (one singleton per point, each marked not retired, and every
      ordered pair of distinct clusters queued) establishes the invariant. */
  lemma SeedingEstablishesInv(data: seq<Point>, start: int, clusters: seq<Cluster>,
                              blackList: map<int, bool>, combinations: seq<ClusterPair>)
    requires |clusters| == |data|
    requires forall i :: 0 <= i < |data| ==> clusters[i] == Cluster([data[i]], start + i)
    requires blackList.Keys == Ids(clusters)
    requires forall id :: id in blackList ==> !blackList[id]
    requires forall p :: p in combinations <==>
      p.cluster1 in clusters && p.cluster2 in clusters && p.cluster1.id != p.cluster2.id
    ensures Inv(data, start, start + |data|, clusters, blackList, multiset(combinations), [])
  {
    var queue := multiset(combinations);
    forall c | c in clusters ensures start <= c.id < start + |data| && |c.members| > 0 {
      var i :| 0 <= i < |clusters| && clusters[i] == c;
    }
    assert Live(blackList) == Ids(clusters);
    assert Retired(blackList) == {} == Elements([]);
    forall p | p in queue ensures WellFormed(p, blackList, clusters) {
      assert p in combinations;
    }
    MembersOfSingletons(clusters, data);
  }

  /** With at least two live clusters some queued pair is not stale, so the
      discard loop cannot run the queue dry. */
  lemma LiveClustersGiveValidPair(data: seq<Point>, start: int, next: int, clusters: seq<Cluster>,
                                  blackList: map<int, bool>, queue: multiset<ClusterPair>, sources: seq<int>)
    requires Inv(data, start, next, clusters, blackList, queue, sources)
    ensures |clusters| >= 2 ==>
      exists p :: p in queue && Known(p, blackList) && !Stale(p, blackList)
  {
    if |clusters| >= 2 {
      var a, b := clusters[0], clusters[1];
      assert a.id != b.id;
      assert a.id in Live(blackList) && b.id in Live(blackList);
      var p := if ClusterPair(a, b) in queue then ClusterPair(a, b) else ClusterPair(b, a);
      assert p in queue;
      assert !Stale(p, blackList);
    }
  }

  /** A merge retires both sides of the chosen pair and registers the merged
      cluster as live: the blacklist's live part is again the live list, and
      its retired part grew by exactly the two sides. */
  lemma StepBlackList(blackList: map<int, bool>, bl': map<int, bool>, clusters: seq<Cluster>,
                      remaining: seq<Cluster>, c1: Cluster, c2: Cluster, merged: Cluster, start: int, next: int)
    requires Live(blackList) == Ids(clusters)
    requires forall id :: id in blackList ==> start <= id < next
    requires start <= next && merged.id == next
    requires c1.id in Ids(clusters) && c2.id in Ids(clusters)
    requires Ids(remaining) == Ids(clusters) - {c1.id, c2.id}
    requires bl' == blackList[c1.id := true][c2.id := true][merged.id := false]
    ensures Live(bl') == Ids(remaining + [merged])
    ensures Retired(bl') == Retired(blackList) + {c1.id, c2.id}
    ensures bl'.Keys == blackList.Keys + {next}
  {
    assert next !in blackList;
    IdsAppend(remaining, merged);
    forall id ensures id in Live(bl') <==> id in Ids(remaining + [merged]) {
      if id != next && id != c1.id && id != c2.id {
        assert id in Live(bl') <==> id in Live(blackList);
      }
    }
    forall id ensures id in Retired(bl') <==> id in Retired(blackList) + {c1.id, c2.id} {
      if id != next && id != c1.id && id != c2.id {
        assert id in Retired(bl') <==> id in Retired(blackList);
      }
    }
  }

  /** The merge history records the two sides, neither merged before. */
  lemma StepSources(sources: seq<int>, blackList: map<int, bool>, c1: Cluster, c2: Cluster)
    requires Retired(blackList) == Elements(sources) && NoDuplicates(sources)
    requires c1.id in Live(blackList) && c2.id in Live(blackList) && c1.id != c2.id
    ensures Elements(sources + [c1.id, c2.id]) == Elements(sources) + {c1.id, c2.id}
    ensures NoDuplicates(sources + [c1.id, c2.id])
  {
    var s' := sources + [c1.id, c2.id];
    assert c1.id !in Retired(blackList) && c2.id !in Retired(blackList);
    forall x ensures x in Elements(s') <==> x in Elements(sources) + {c1.id, c2.id} {
      if x in s' {
        var i :| 0 <= i < |s'| && s'[i] == x;
        if i < |sources| {
          assert sources[i] == x;
        }
      }
      if x in sources {
        var i :| 0 <= i < |sources| && sources[i] == x;
        assert s'[i] == x;
      }
      assert s'[|sources|] == c1.id && s'[|sources| + 1] == c2.id;
    }
    forall i, j | 0 <= i < j < |s'| ensures s'[i] != s'[j] {
      if j >= |sources| && i < |sources| {
        assert sources[i] in Elements(sources);
      }
    }
  }

  /** After a merge every queued pair is still well formed: old pairs whose
      sides are both live were live before and survive the removal, and the
      new pairs join a remaining cluster to the merged one. */
  lemma StepQueue(clusters: seq<Cluster>, blackList: map<int, bool>, queue: multiset<ClusterPair>,
                  bl': map<int, bool>, c1: Cluster, c2: Cluster, rest: multiset<ClusterPair>,
                  remaining: seq<Cluster>, merged: Cluster, newQueue: multiset<ClusterPair>, start: int, next: int)
    requires forall p :: p in queue ==> WellFormed(p, blackList, clusters)
    requires forall id :: id in blackList ==> start <= id < next
    requires merged.id == next
    requires rest <= queue && rest <= newQueue
    requires forall x :: x in remaining <==> x in clusters && x.id != c1.id && x.id != c2.id
    requires forall x :: x in remaining ==> x.id in blackList
    requires forall p :: p in newQueue - rest ==> p.cluster1 in remaining && p.cluster2 == merged
    requires bl' == blackList[c1.id := true][c2.id := true][merged.id := false]
    ensures forall p :: p in newQueue ==> WellFormed(p, bl', remaining + [merged])
  {
    var cs' := remaining + [merged];
    forall p | p in newQueue ensures WellFormed(p, bl', cs') {
      if p in rest {
        assert WellFormed(p, blackList, clusters);
        assert p.cluster1.id != next && p.cluster2.id != next;
        if !bl'[p.cluster1.id] {
          assert p.cluster1 in remaining;
        }
        if !bl'[p.cluster2.id] {
          assert p.cluster2 in remaining;
        }
      } else {
        assert p in newQueue - rest;
        assert p.cluster1 in remaining;
        assert p.cluster1.id != next;
      }
    }
  }

  /** After a merge every two distinct live clusters are still joined by a
      queued pair. */
  lemma StepCovered(clusters: seq<Cluster>, blackList: map<int, bool>, queue: multiset<ClusterPair>,
                    chosen: ClusterPair, rest: multiset<ClusterPair>, remaining: seq<Cluster>,
                    merged: Cluster, newQueue: multiset<ClusterPair>)
    requires Covered(clusters, queue)
    requires Live(blackList) == Ids(clusters)
    requires forall p :: p in queue ==> Known(p, blackList)
    requires forall p :: p in queue && !Stale(p, blackList) && p != chosen ==> p in rest
    requires forall x :: x in remaining ==>
      x in clusters && x.id != chosen.cluster1.id && x.id != chosen.cluster2.id
    requires forall c :: c in remaining ==> ClusterPair(c, merged) in newQueue
    requires rest <= newQueue
    ensures Covered(remaining + [merged], newQueue)
  {
    var cs' := remaining + [merged];
    forall a, b | a in cs' && b in cs' && a.id != b.id
      ensures ClusterPair(a, b) in newQueue || ClusterPair(b, a) in newQueue
    {
      if a == merged {
        assert b in remaining;
      } else if b == merged {
        assert a in remaining;
      } else {
        assert a in remaining && b in remaining;
        var p := if ClusterPair(a, b) in queue then ClusterPair(a, b) else ClusterPair(b, a);
        assert p in queue;
        assert a.id in Live(blackList) && b.id in Live(blackList);
        assert !Stale(p, blackList);
        assert p in rest;
      }
    }
  }

  /** The pair chosen for merging joins two distinct live clusters, and
      taking both out of the live list leaves the others and their points. */
  lemma StepRemoved(data: seq<Point>, start: int, next: int, clusters: seq<Cluster>,
                    blackList: map<int, bool>, queue: multiset<ClusterPair>, sources: seq<int>,
                    chosen: ClusterPair, remaining: seq<Cluster>)
    requires Inv(data, start, next, clusters, blackList, queue, sources)
    requires chosen in queue && Known(chosen, blackList) && !Stale(chosen, blackList)
    requires remaining == Remove(Remove(clusters, chosen.cluster1), chosen.cluster2)
    ensures chosen.cluster1 in clusters && chosen.cluster2 in clusters
    ensures chosen.cluster1.id != chosen.cluster2.id
    ensures chosen.cluster1.id in Live(blackList) && chosen.cluster2.id in Live(blackList)
    ensures |remaining| == |clusters| - 2 && UniqueIds(remaining)
    ensures forall x :: x in remaining <==>
      x in clusters && x.id != chosen.cluster1.id && x.id != chosen.cluster2.id
    ensures Ids(remaining) == Ids(clusters) - {chosen.cluster1.id, chosen.cluster2.id}
    ensures multiset(Members(clusters)) ==
      multiset(Members(remaining)) + multiset(chosen.cluster1.members + chosen.cluster2.members)
  {
    assert WellFormed(chosen, blackList, clusters);
    RemovePair(clusters, chosen.cluster1, chosen.cluster2);
  }

  /** One merge keeps the identity part of the invariant: unique live
      identities that are exactly the blacklist's live entries, a retired set
      that is the merge history, and every point in exactly one live cluster. */
  lemma StepKeepsIds(data: seq<Point>, start: int, next: int, clusters: seq<Cluster>,
                     blackList: map<int, bool>, queue: multiset<ClusterPair>, sources: seq<int>,
                     chosen: ClusterPair, remaining: seq<Cluster>, merged: Cluster)
    requires Inv(data, start, next, clusters, blackList, queue, sources)
    requires chosen in queue && Known(chosen, blackList) && !Stale(chosen, blackList)
    requires remaining == Remove(Remove(clusters, chosen.cluster1), chosen.cluster2)
    requires merged == Cluster(chosen.cluster1.members + chosen.cluster2.members, next)
    ensures UniqueIds(remaining + [merged])
    ensures forall c :: c in remaining + [merged] ==> |c.members| > 0
    ensures Live(blackList[chosen.cluster1.id := true][chosen.cluster2.id := true][merged.id := false])
      == Ids(remaining + [merged])
    ensures blackList[chosen.cluster1.id := true][chosen.cluster2.id := true][merged.id := false].Keys
      == blackList.Keys + {next}
    ensures Retired(blackList[chosen.cluster1.id := true][chosen.cluster2.id := true][merged.id := false])
      == Elements(sources + [chosen.cluster1.id, chosen.cluster2.id])
    ensures NoDuplicates(sources + [chosen.cluster1.id, chosen.cluster2.id])
    ensures multiset(Members(remaining + [merged])) == multiset(data)
    ensures |remaining + [merged]| == |clusters| - 1
  {
    var c1, c2 := chosen.cluster1, chosen.cluster2;
    var bl' := blackList[c1.id := true][c2.id := true][merged.id := false];
    StepRemoved(data, start, next, clusters, blackList, queue, sources, chosen, remaining);
    assert next !in blackList;
    UniqueAppend(remaining, merged);
    StepBlackList(blackList, bl', clusters, remaining, c1, c2, merged, start, next);
    StepSources(sources, blackList, c1, c2);
    MembersConcat(remaining, [merged]);
    assert Members([merged]) == merged.members;
  }

  /** One merge keeps the queue part of the invariant: every queued pair is
      well formed and every two distinct live clusters are joined. */
  lemma StepKeepsQueue(data: seq<Point>, start: int, next: int, clusters: seq<Cluster>,
                       blackList: map<int, bool>, queue: multiset<ClusterPair>, sources: seq<int>,
                       chosen: ClusterPair, rest: multiset<ClusterPair>,
                       remaining: seq<Cluster>, merged: Cluster, newQueue: multiset<ClusterPair>)
    requires Inv(data, start, next, clusters, blackList, queue, sources)
    requires chosen in queue && Known(chosen, blackList) && !Stale(chosen, blackList)
    requires rest <= queue
    requires forall p :: p in queue && !Stale(p, blackList) && p != chosen ==> p in rest
    requires remaining == Remove(Remove(clusters, chosen.cluster1), chosen.cluster2)
    requires merged.id == next
    requires rest <= newQueue
    requires forall c :: c in remaining ==> ClusterPair(c, merged) in newQueue
    requires forall p :: p in newQueue - rest ==> p.cluster1 in remaining && p.cluster2 == merged
    ensures forall p :: p in newQueue ==> WellFormed(p,
      blackList[chosen.cluster1.id := true][chosen.cluster2.id := true][merged.id := false], remaining + [merged])
    ensures Covered(remaining + [merged], newQueue)
  {
    var c1, c2 := chosen.cluster1, chosen.cluster2;
    var bl' := blackList[c1.id := true][c2.id := true][merged.id := false];
    StepRemoved(data, start, next, clusters, blackList, queue, sources, chosen, remaining);
    forall x | x in remaining ensures x.id in blackList {
      assert x.id in Ids(clusters);
    }
    StepQueue(clusters, blackList, queue, bl', c1, c2, rest, remaining, merged, newQueue, start, next);
    StepCovered(clusters, blackList, queue, chosen, rest, remaining, merged, newQueue);
  }

  /** One merge keeps the invariant and takes the live count down by one:
      the chosen pair is live on both sides; both are retired and removed;
      the merge, under the next identity, is paired with every remaining
      cluster and joins the live list. */
  lemma StepKeepsInv(data: seq<Point>, start: int, next: int, clusters: seq<Cluster>,
                     blackList: map<int, bool>, queue: multiset<ClusterPair>, sources: seq<int>,
                     chosen: ClusterPair, rest: multiset<ClusterPair>,
                     remaining: seq<Cluster>, merged: Cluster, newQueue: multiset<ClusterPair>)
    requires Inv(data, start, next, clusters, blackList, queue, sources)
    requires chosen in queue && Known(chosen, blackList) && !Stale(chosen, blackList)
    requires rest <= queue
    requires forall p :: p in queue && !Stale(p, blackList) && p != chosen ==> p in rest
    requires remaining == Remove(Remove(clusters, chosen.cluster1), chosen.cluster2)
    requires merged == Cluster(chosen.cluster1.members + chosen.cluster2.members, next)
    requires rest <= newQueue
    requires forall c :: c in remaining ==> ClusterPair(c, merged) in newQueue
    requires forall p :: p in newQueue - rest ==> p.cluster1 in remaining && p.cluster2 == merged
    ensures Inv(data, start, next + 1, remaining + [merged],
                blackList[chosen.cluster1.id := true][chosen.cluster2.id := true][merged.id := false],
                newQueue, sources + [chosen.cluster1.id, chosen.cluster2.id])
    ensures |remaining + [merged]| == |clusters| - 1
  {
    var bl' := blackList[chosen.cluster1.id := true][chosen.cluster2.id := true][merged.id := false];
    StepKeepsIds(data, start, next, clusters, blackList, queue, sources, chosen, remaining, merged);
    assert forall id :: id in bl' ==> start <= id < next + 1;
    StepKeepsQueue(data, start, next, clusters, blackList, queue, sources, chosen, rest,
                   remaining, merged, newQueue);
  }

  /** What the loop leaves behind once every point has been through the
      per-point action: unique identities from this run, none of them merged
      away, non-empty clusters, and the images of the data points, each once. */
  lemma FinalClusters(data: seq<Point>, start: int, next: int, clusters: seq<Cluster>,
                      blackList: map<int, bool>, queue: multiset<ClusterPair>, sources: seq<int>,
                      out: seq<Cluster>, f: Point -> Point)
    requires Inv(data, start, next, clusters, blackList, queue, sources)
    requires |out| == |clusters|
    requires forall i :: 0 <= i < |clusters| ==>
      out[i].id == clusters[i].id && out[i].members == Apply(f, clusters[i].members)
    requires Members(out) == Apply(f, Members(clusters))
    ensures clusters == [] ==> data == []
    ensures UniqueIds(out)
    ensures forall c :: c in out ==>
      |c.members| > 0 && start <= c.id < next && c.id !in Elements(sources)
    ensures multiset(Members(out)) == multiset(Apply(f, data))
  {
    if clusters == [] {
      assert |multiset(data)| == 0;
    }
    forall c | c in out ensures |c.members| > 0 && start <= c.id < next && c.id !in Elements(sources) {
      var i :| 0 <= i < |out| && out[i] == c;
      assert clusters[i] in clusters;
      assert c.id in Live(blackList);
    }
    ApplyPreservesMultiset(f, Members(clusters), data);
  }
}
