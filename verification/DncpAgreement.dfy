/**
  Agreement: two nodes that are connected and hold the same data compute the same network hash.
 */
module DncpAgreement {
  import opened Wrappers
  import opened DncpGraph
  import opened DncpModel

  /** The same nodes with the same update numbers and data; the times are each node's own. */
  ghost predicate SameData<B>(db1: Database<B>, db2: Database<B>) {
    && db1.Keys == db2.Keys
    && forall n | n in db1 :: db1[n].number == db2[n].number && db1[n].container == db2[n].container
  }

  ghost predicate NothingExpired<B>(db: Database<B>, now: int) {
    forall n | n in db :: now < db[n].expiration
  }

  lemma SamePaths<B>(db1: Database<B>, db2: Database<B>, peers: PeerReader<B>, now1: int, now2: int, a: NodeId,
                     b: NodeId)
    requires SameData(db1, db2) && NothingExpired(db2, now2) && Connected(db1, peers, now1, a, b)
    ensures Connected(db2, peers, now2, a, b)
  {
    var p :| Path(db1, peers, now1, p) && p[0] == a && p[|p| - 1] == b;
    assert Path(db2, peers, now2, p) by {
      forall i | 0 <= i < |p| ensures Alive(db2, now2, p[i]) {
        assert Alive(db1, now1, p[i]);
      }
      forall i | 0 <= i < |p| - 1 ensures Mutual(db2, peers, p[i], p[i + 1]) {
        assert Mutual(db1, peers, p[i], p[i + 1]);
      }
    }
  }

  /** One component, seen from two of its nodes */
  lemma SameComponent<B>(db1: Database<B>, db2: Database<B>, peers: PeerReader<B>, now1: int, now2: int,
                         own1: NodeId, own2: NodeId, n: NodeId)
    requires SameData(db1, db2) && NothingExpired(db1, now1) && NothingExpired(db2, now2)
    requires Connected(db1, peers, now1, own1, own2)
    ensures Connected(db1, peers, now1, own1, n) <==> Connected(db2, peers, now2, own2, n)
  {
    if Connected(db1, peers, now1, own1, n) {
      ConnectedSymmetric(db1, peers, now1, own1, own2);
      ConnectedTransitive(db1, peers, now1, own2, own1, n);
      SamePaths(db1, db2, peers, now1, now2, own2, n);
    }
    if Connected(db2, peers, now2, own2, n) {
      SamePaths(db2, db1, peers, now2, now1, own2, n);
      ConnectedTransitive(db1, peers, now1, own1, own2, n);
    }
  }

  /** The network state depends on the live nodes only. */
  lemma SameState<B>(db1: Database<B>, db2: Database<B>, hashOf: Option<B> -> Hash, live: set<NodeId>)
    requires live <= db1.Keys && live <= db2.Keys
    requires forall n | n in live :: db1[n].number == db2[n].number && db1[n].container == db2[n].container
    ensures NetworkState(db1, hashOf, live) == NetworkState(db2, hashOf, live)
  {
    AscendingIs(live);
    var order := Ascending(live);
    forall i | 0 <= i < |order| ensures NetworkState(db1, hashOf, live)[i] == NetworkState(db2, hashOf, live)[i] {
      assert order[i] in order;
    }
  }

  /** What two prunes leave, if the databases before them had the same data */
  lemma PrunedAlike<B>(db1: Database<B>, db2: Database<B>, peers: PeerReader<B>, stamp1: map<NodeId, int>,
                       stamp2: map<NodeId, int>,
                       now1: int, now2: int, own1: NodeId, own2: NodeId, grace1: int, grace2: int,
                       after1: Database<B>, after2: Database<B>, live1: set<NodeId>, live2: set<NodeId>,
                       hashOf: Option<B> -> Hash)
    requires SameData(db1, db2) && NothingExpired(db1, now1) && NothingExpired(db2, now2)
    requires Connected(db1, peers, now1, own1, own2)
    requires Pruned(db1, peers, stamp1, now1, own1, grace1, after1, live1) && live1 <= after1.Keys
    requires Pruned(db2, peers, stamp2, now2, own2, grace2, after2, live2) && live2 <= after2.Keys
    ensures live1 == live2 && NetworkState(after1, hashOf, live1) == NetworkState(after2, hashOf, live2)
  {
    forall n ensures n in live1 <==> n in live2 {
      SameComponent(db1, db2, peers, now1, now2, own1, own2, n);
    }
    assert live1 == live2;
    SameState(after1, after2, hashOf, live1);
  }

  /** Two nodes of one component, holding the same data, none of it expired: once both have pruned
      and recomputed their hashes, the hashes are equal. */
  method Agree<B>(d1: Dncp<B>, d2: Dncp<B>, now1: int, now2: int)
    requires d1 != d2 && d1.Valid() && d2.Valid() && now1 > d1.lastPrune && now2 > d2.lastPrune
    requires d1.peers == d2.peers && d1.hashOf == d2.hashOf && d1.netHash == d2.netHash && !d1.republish
    requires !d2.republish
    requires SameData(d1.db, d2.db) && NothingExpired(d1.db, now1) && NothingExpired(d2.db, now2)
    requires Connected(d1.db, d1.peers, now1, d1.own, d2.own)
    modifies d1, d2
    ensures d1.Valid() && d2.Valid() && d1.Reachable() == d2.Reachable() && d1.networkHash == d2.networkHash
  {
    ghost var db1, db2, stamp1, stamp2 := d1.db, d2.db, d1.stamp, d2.stamp;
    PruneAndHash(d1, now1);
    PruneAndHash(d2, now2);
    PrunedAlike(db1, db2, d1.peers, stamp1, stamp2, now1, now2, d1.own, d2.own, d1.grace, d2.grace, d1.db, d2.db,
                d1.Reachable(), d2.Reachable(), d1.hashOf);
  }

  method PruneAndHash<B>(d: Dncp<B>, now: int)
    requires d.Valid() && now > d.lastPrune && !d.republish
    modifies d
    ensures d.Valid() && d.own == old(d.own)
    ensures Pruned(old(d.db), d.peers, old(d.stamp), now, d.own, d.grace, d.db, d.Reachable())
    ensures d.Reachable() <= d.db.Keys && d.networkHash == d.netHash(NetworkState(d.db, d.hashOf, d.Reachable()))
  {
    d.Prune(now);
    d.CalculateNetworkHash();
  }
}
