/**
  Two runs, from the start of an instance, after which a subscriber is wrong.
 */
module DncpRuns {
  import opened Wrappers
  import opened Tlvs
  import opened DncpGraph
  import opened DncpModel
  import opened DncpProto

  /** Node 5 publishes a TLV under update number 0, is reachable, and is given up: dncp_node_set takes
      its removal for a spurious update, and the subscriber keeps the TLV (src/dncp.c:48-56). */
  method ForgottenRun(tlvs: Reader<int>, peers: PeerReader<int>, hashOf: Option<int> -> Hash,
                      netHash: seq<(nat, Hash)> -> Hash, t: Tlv)
    returns (d: Dncp<int>)
    requires WireSized(t) && forall b :: tlvs(b) == [t]
    requires peers(Some(0)) == [Peer(1, 0, 0)] && peers(Some(1)) == [Peer(5, 0, 0)]
    ensures d.Valid() && !d.Shows() && d.db.Keys == {1}
  {
    d := new Dncp(0, tlvs, peers, hashOf, netHash, 1);
    Meet(d, 0);
    Announce(d);
    FirstPrune(d);
    Leave(d, t);
  }

  /** The own node lists node 5. */
  method Announce(d: Dncp<int>)
    requires d.Valid() && d.Clean() && d.own == 1 && d.own in d.db
    modifies d
    ensures d.Valid() && d.Clean() && d.own == 1 && d.subs.Keys == old(d.subs.Keys) && d.lastPrune == old(d.lastPrune)
    ensures 1 in d.db && d.db == old(d.db)[1 := d.db[1]] && d.db[1].container == Some(1) && Alive(d.db, 10, 1)
  {
    var flushed := d.SelfFlush(Some(1), None, 10, true);
  }

  /** A subscriber comes, and node 5 goes. */
  method Leave(d: Dncp<int>, t: Tlv)
    requires d.Valid() && d.Clean() && d.own == 1 && d.grace == 0 && d.lastPrune == 10 && d.subs.Keys == {}
    requires d.db.Keys == d.Reachable() == {1, 5} && d.db[5] == NodeData(0, Some(0), true, 10, 10 + LIFETIME)
    requires WireSized(t) && forall b :: d.tlvs(b) == [t]
    modifies d
    ensures d.Valid() && !d.Shows() && d.db.Keys == {1}
  {
    d.Subscribe(0);
    Expire(d, t);
  }

  method Expire(d: Dncp<int>, t: Tlv)
    requires d.Valid() && d.Clean() && d.own == 1 && d.grace == 0 && d.lastPrune == 10 && 0 in d.subs
    requires d.db.Keys == d.Reachable() == {1, 5} && d.db[5] == NodeData(0, Some(0), true, 10, 10 + LIFETIME)
    requires WireSized(t) && forall b :: d.tlvs(b) == [t]
    modifies d
    ensures d.Valid() && !d.Shows() && d.db.Keys == {1}
  {
    Rollover(d, 10 + LIFETIME);
    LastPrune(d, t);
  }

  /** Node 5 sends its data. */
  method Meet(d: Dncp<int>, number: UpdateNumber)
    requires d.Valid() && d.Clean() && d.own == 1 && 5 !in d.db && d.subs.Keys == {}
    modifies d
    ensures d.Valid() && d.Clean() && d.own == 1 && d.subs.Keys == {} && d.lastPrune == old(d.lastPrune)
    ensures d.db == old(d.db)[5 := NodeData(number, Some(0), true, 10, 10 + LIFETIME)]
    ensures d.Reachable() == old(d.Reachable())
  {
    var request := HandleOther(d, NodeState(5, number, 0, d.hashOf(Some(0)), Data(0)), true, 10, true);
  }

  /** Both nodes list each other. */
  ghost predicate Linked(db: Database<int>, peers: PeerReader<int>) {
    && db.Keys == {1, 5} && db[1].container == Some(1) && db[5] == NodeData(0, Some(0), true, 10, 10 + LIFETIME)
    && peers(Some(0)) == [Peer(1, 0, 0)] && peers(Some(1)) == [Peer(5, 0, 0)]
  }

  method FirstPrune(d: Dncp<int>)
    requires d.Valid() && d.Clean() && d.own == 1 && d.lastPrune < 10 && d.subs.Keys == {}
    requires Linked(d.db, d.peers) && Alive(d.db, 10, 1)
    modifies d
    ensures d.Valid() && d.Clean() && d.own == 1 && d.lastPrune == 10 && d.subs.Keys == {}
    ensures d.db.Keys == d.Reachable() == {1, 5} && d.db[5] == NodeData(0, Some(0), true, 10, 10 + LIFETIME)
  {
    ghost var db, stamp := d.db, d.stamp;
    d.Prune(10);
    BothStay(db, d.peers, stamp, d.grace, d.db, d.Reachable());
  }

  /** The own data is published again before it expires (src/dncp_timeout.c:281-294). */
  method Rollover(d: Dncp<int>, now: int)
    requires d.Valid() && d.own in d.db && now > 0
    modifies d
    ensures d.Valid() && d.own == old(d.own) && d.own in d.db && d.db == old(d.db)[d.own := d.db[d.own]]
    ensures d.db[d.own].expiration == now + LIFETIME && d.Reachable() == old(d.Reachable())
    ensures d.stamp == old(d.stamp) && d.told == old(d.told) && d.lastPrune == old(d.lastPrune)
    ensures d.subs.Keys == old(d.subs.Keys) && (old(d.Clean()) ==> d.Clean())
  {
    d.republish := true;
    var flushed := d.SelfFlush(None, None, now, true);
  }

  /** Node 5 has expired, and only node 5. */
  method LastPrune(d: Dncp<int>, t: Tlv)
    requires d.Valid() && d.Clean() && d.own == 1 && d.grace == 0 && d.lastPrune == 10 && 0 in d.subs
    requires d.db.Keys == d.Reachable() == {1, 5} && d.db[5] == NodeData(0, Some(0), true, 10, 10 + LIFETIME)
    requires Alive(d.db, 10 + LIFETIME, 1) && WireSized(t) && forall b :: d.tlvs(b) == [t]
    modifies d
    ensures d.Valid() && !d.Shows() && d.db.Keys == {1}
  {
    NobodyIsAlive(d.db, d.peers);
    ConnectedSelf(d.db, d.peers, 10 + LIFETIME, 1);
    HasTlv(d.tlvs, d.db[5], t);
    assert Forgotten(d.tlvs, d.db, d.told, 5);
    assert Expendable(d.db, d.peers, d.stamp, 10 + LIFETIME, d.own, d.grace, 5);
    d.Prune(10 + LIFETIME);
  }

  lemma BothStay(db: Database<int>, peers: PeerReader<int>, stamp: map<NodeId, int>, grace: int, db': Database<int>,
                 live: set<NodeId>)
    requires Linked(db, peers) && Alive(db, 10, 1) && Pruned(db, peers, stamp, 10, 1, grace, db', live)
    ensures db' == db && live == {1, 5}
  {
    BothAreConnected(db, peers);
    ConnectedSelf(db, peers, 10, 1);
    assert forall n | Connected(db, peers, 10, 1, n) :: n in db;
  }

  lemma BothAreConnected(db: Database<int>, peers: PeerReader<int>)
    requires 1 in db && 5 in db && Alive(db, 10, 1) && Alive(db, 10, 5)
    requires db[1].container == Some(1) && db[5].container == Some(0)
    requires peers(Some(0)) == [Peer(1, 0, 0)] && peers(Some(1)) == [Peer(5, 0, 0)]
    ensures Connected(db, peers, 10, 1, 5)
  {
    assert Peer(5, 0, 0) in peers(db[1].container) && Peer(1, 0, 0) in peers(db[5].container);
    assert Mutual(db, peers, 1, 5);
    assert Path(db, peers, 10, [1, 5]);
  }

  lemma NobodyIsAlive(db: Database<int>, peers: PeerReader<int>)
    requires 5 in db && db[5].expiration == 10 + LIFETIME
    ensures !Connected(db, peers, 10 + LIFETIME, 1, 5)
  {
  }

  /** An identifier is taken over from an unreachable node that has a TLV: the subscriber never hears
      of it (src/dncp.c:244-265). */
  method UnannouncedRun(tlvs: Reader<int>, peers: PeerReader<int>, hashOf: Option<int> -> Hash,
                        netHash: seq<(nat, Hash)> -> Hash, t: Tlv)
    returns (d: Dncp<int>)
    requires WireSized(t) && forall b :: tlvs(b) == [t]
    ensures d.Valid() && !d.Shows()
  {
    d := new Dncp(0, tlvs, peers, hashOf, netHash, 1);
    Meet(d, 1);
    TakeOver(d, t);
  }

  method TakeOver(d: Dncp<int>, t: Tlv)
    requires d.Valid() && d.Clean() && d.own == 1 && d.own in d.db && d.subs.Keys == {} && 5 in d.db
    requires 5 !in d.Reachable()
    requires d.db[5].container == Some(0) && d.db[5].valid && WireSized(t) && forall b :: d.tlvs(b) == [t]
    modifies d
    ensures d.Valid() && !d.Shows()
  {
    HasTlv(d.tlvs, d.db[5], t);
    d.Subscribe(0);
    Claim(d);
  }

  method Claim(d: Dncp<int>)
    requires d.Valid() && d.Clean() && d.own == 1 && d.own in d.db && 0 in d.subs
    requires Unannounced(d.tlvs, d.db, d.told, 5)
    modifies d
    ensures d.Valid() && !d.Shows()
  {
    d.SetOwnNodeId(5);
  }

  lemma HasTlv(tlvs: Reader<int>, d: NodeData<int>, t: Tlv)
    requires d.container == Some(0) && d.valid && WireSized(t) && tlvs(0) == [t]
    ensures multiset(ValidTlvs(tlvs, d)) != multiset{}
  {
    assert t in multiset(ValidTlvs(tlvs, d));
  }
}
