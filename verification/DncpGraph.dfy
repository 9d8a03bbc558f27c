/**
  What a DNCP node knows about the network: the data of every node, who is linked to
  whom, and what is fed to the network hash.
 */
module DncpGraph {
  import opened Wrappers

  /** Node identifiers, as big-endian numbers: their order is that of memcmp. */
  type NodeId = nat
  type Hash = int

  /** DNCP_T_PEER: the other node, its endpoint, our endpoint (src/dncp_proto.h:69-74) */
  datatype Peer = Peer(node: NodeId, peerEp: nat, ep: nat)

  /** The part of struct dncp_node_struct that is node data (src/dncp_i.h:198-219).  B is the
      type of TLV blobs; tlv_container_valid is the container when `valid`, NULL otherwise. */
  datatype NodeData<B> = NodeData(number: nat, container: Option<B>, valid: bool,
                                  origination: int, expiration: int)

  type Database<B> = map<NodeId, NodeData<B>>

  /** How the peer TLVs of a container are read (dncp_tlv_peer and dncp_tlv_get_node_id). */
  type PeerReader<!B> = Option<B> -> seq<Peer>

  // ---------- links ----------

  /** Both nodes are known, and b lists a with the endpoints of a's peer TLV the other way round. */
  ghost predicate Mutual<B>(db: Database<B>, peers: PeerReader<B>, a: NodeId, b: NodeId) {
    && a in db && b in db
    && exists p | p in peers(db[a].container) :: p.node == b && Peer(a, p.ep, p.peerEp) in peers(db[b].container)
  }

  lemma MutualIsSymmetric<B>(db: Database<B>, peers: PeerReader<B>, a: NodeId, b: NodeId)
    requires Mutual(db, peers, a, b)
    ensures Mutual(db, peers, b, a)
  {
    var p :| p in peers(db[a].container) && p.node == b && Peer(a, p.ep, p.peerEp) in peers(db[b].container);
    var q := Peer(a, p.ep, p.peerEp);
    assert q.node == a && Peer(b, q.ep, q.peerEp) == p;
  }

  predicate Alive<B>(db: Database<B>, now: int, n: NodeId) {
    n in db && now < db[n].expiration
  }

  /** A walk over mutual links through nodes that have not expired. */
  ghost predicate Path<B>(db: Database<B>, peers: PeerReader<B>, now: int, p: seq<NodeId>) {
    && p != []
    && (forall i | 0 <= i < |p| :: Alive(db, now, p[i]))
    && (forall i | 0 <= i < |p| - 1 :: Mutual(db, peers, p[i], p[i + 1]))
  }

  ghost predicate Connected<B>(db: Database<B>, peers: PeerReader<B>, now: int, a: NodeId, b: NodeId) {
    exists p :: Path(db, peers, now, p) && p[0] == a && p[|p| - 1] == b
  }

  lemma ConnectedSelf<B>(db: Database<B>, peers: PeerReader<B>, now: int, a: NodeId)
    requires Alive(db, now, a)
    ensures Connected(db, peers, now, a, a)
  {
    assert Path(db, peers, now, [a]);
  }

  lemma ConnectedStep<B>(db: Database<B>, peers: PeerReader<B>, now: int, a: NodeId, b: NodeId, c: NodeId)
    requires Connected(db, peers, now, a, b) && Mutual(db, peers, b, c) && Alive(db, now, c)
    ensures Connected(db, peers, now, a, c)
  {
    var p :| Path(db, peers, now, p) && p[0] == a && p[|p| - 1] == b;
    assert Path(db, peers, now, p + [c]);
  }

  lemma {:induction false} ConnectedVia<B>(db: Database<B>, peers: PeerReader<B>, now: int, a: NodeId, b: NodeId,
                                           p: seq<NodeId>)
    requires Connected(db, peers, now, a, b) && Path(db, peers, now, p) && p[0] == b
    ensures Connected(db, peers, now, a, p[|p| - 1])
    decreases |p|
  {
    if |p| > 1 {
      var q := p[..|p| - 1];
      assert forall i | 0 <= i < |q| :: Alive(db, now, p[i]);
      assert Path(db, peers, now, q) by {
        forall i | 0 <= i < |q| - 1 ensures Mutual(db, peers, q[i], q[i + 1]) {
          assert Mutual(db, peers, p[i], p[i + 1]);
        }
      }
      ConnectedVia(db, peers, now, a, b, q);
      assert Mutual(db, peers, p[|p| - 2], p[|p| - 2 + 1]);
      ConnectedStep(db, peers, now, a, q[|q| - 1], p[|p| - 1]);
    }
  }

  lemma ConnectedTransitive<B>(db: Database<B>, peers: PeerReader<B>, now: int, a: NodeId, b: NodeId, c: NodeId)
    requires Connected(db, peers, now, a, b) && Connected(db, peers, now, b, c)
    ensures Connected(db, peers, now, a, c)
  {
    var p :| Path(db, peers, now, p) && p[0] == b && p[|p| - 1] == c;
    ConnectedVia(db, peers, now, a, b, p);
  }

  lemma {:induction false} PathBack<B>(db: Database<B>, peers: PeerReader<B>, now: int, p: seq<NodeId>)
    requires Path(db, peers, now, p)
    ensures Connected(db, peers, now, p[|p| - 1], p[0])
    decreases |p|
  {
    if |p| == 1 {
      ConnectedSelf(db, peers, now, p[0]);
    } else {
      var q := p[1..];
      assert Path(db, peers, now, q) by {
        forall i | 0 <= i < |q| - 1 ensures Mutual(db, peers, q[i], q[i + 1]) {
          assert Mutual(db, peers, p[i + 1], p[i + 1 + 1]);
        }
      }
      PathBack(db, peers, now, q);
      assert Mutual(db, peers, p[0], p[0 + 1]);
      MutualIsSymmetric(db, peers, p[0], p[1]);
      ConnectedStep(db, peers, now, p[|p| - 1], p[1], p[0]);
    }
  }

  lemma ConnectedSymmetric<B>(db: Database<B>, peers: PeerReader<B>, now: int, a: NodeId, b: NodeId)
    requires Connected(db, peers, now, a, b)
    ensures Connected(db, peers, now, b, a)
  {
    var p :| Path(db, peers, now, p) && p[0] == a && p[|p| - 1] == b;
    PathBack(db, peers, now, p);
  }

  /** A set that is closed under links to living nodes has everything connected to its members. */
  lemma {:induction false} ClosedHasConnected<B>(db: Database<B>, peers: PeerReader<B>, now: int, s: set<NodeId>,
                                                 p: seq<NodeId>)
    requires Path(db, peers, now, p) && p[0] in s
    requires forall a, b | a in s && Mutual(db, peers, a, b) && Alive(db, now, b) :: b in s
    ensures p[|p| - 1] in s
    decreases |p|
  {
    if |p| > 1 {
      var q := p[1..];
      assert Mutual(db, peers, p[0], p[0 + 1]) && Alive(db, now, p[1]);
      assert Path(db, peers, now, q) by {
        forall i | 0 <= i < |q| - 1 ensures Mutual(db, peers, q[i], q[i + 1]) {
          assert Mutual(db, peers, p[i + 1], p[i + 1 + 1]);
        }
      }
      ClosedHasConnected(db, peers, now, s, q);
    }
  }

  // ---------- the flood fill ----------

  /** The fill from n took the marked nodes from `before` to `after`: only nodes connected to n
      were added, n is marked if it is alive, and the new marks are closed under links. */
  ghost predicate Filled<B>(db: Database<B>, peers: PeerReader<B>, now: int, n: NodeId, before: set<NodeId>,
                            after: set<NodeId>) {
    && before <= after
    && (Alive(db, now, n) ==> n in after)
    && (forall a | a in after && a !in before :: a in db && Connected(db, peers, now, n, a))
    && (forall a, b | a in after && a !in before && Mutual(db, peers, a, b) && Alive(db, now, b) :: b in after)
  }

  /** The same in the middle of the loop over n's peers, i of which have been followed. */
  ghost predicate Filling<B>(db: Database<B>, peers: PeerReader<B>, now: int, n: NodeId, before: set<NodeId>,
                             after: set<NodeId>, i: nat) {
    && before <= after && n in after && n !in before && Alive(db, now, n)
    && (forall a | a in after && a !in before :: a in db && Connected(db, peers, now, n, a))
    && (forall a, b | a in after && a !in before && a != n && Mutual(db, peers, a, b) && Alive(db, now, b) ::
          b in after)
    && i <= |peers(db[n].container)|
    && (forall j, b | 0 <= j < i && LinkedBack(db, peers, n, peers(db[n].container)[j], b) && Alive(db, now, b) ::
          b in after)
  }

  /** dncp_node_find_neigh_bidir finds b for the peer p of n. */
  ghost predicate LinkedBack<B>(db: Database<B>, peers: PeerReader<B>, n: NodeId, p: Peer, b: NodeId) {
    b == p.node && b in db && Peer(n, p.ep, p.peerEp) in peers(db[b].container)
  }

  lemma FillStart<B>(db: Database<B>, peers: PeerReader<B>, now: int, n: NodeId, before: set<NodeId>)
    requires Alive(db, now, n) && n !in before
    ensures Filling(db, peers, now, n, before, before + {n}, 0)
  {
    ConnectedSelf(db, peers, now, n);
  }

  lemma FillPeer<B>(db: Database<B>, peers: PeerReader<B>, now: int, n: NodeId, before: set<NodeId>, mid: set<NodeId>,
                    i: nat, after: set<NodeId>)
    requires Filling(db, peers, now, n, before, mid, i) && i < |peers(db[n].container)|
    requires var p := peers(db[n].container)[i];
             if LinkedBack(db, peers, n, p, p.node) then Filled(db, peers, now, p.node, mid, after) else after == mid
    ensures Filling(db, peers, now, n, before, after, i + 1)
  {
    var p := peers(db[n].container)[i];
    if LinkedBack(db, peers, n, p, p.node) {
      assert Mutual(db, peers, n, p.node);
      forall a | a in after && a !in before ensures a in db && Connected(db, peers, now, n, a) {
        if a !in mid {
          assert Connected(db, peers, now, p.node, a);
          StartIsAlive(db, peers, now, p.node, a);
          ConnectedSelf(db, peers, now, n);
          ConnectedStep(db, peers, now, n, n, p.node);
          ConnectedTransitive(db, peers, now, n, p.node, a);
        }
      }
    }
  }

  lemma StartIsAlive<B>(db: Database<B>, peers: PeerReader<B>, now: int, a: NodeId, b: NodeId)
    requires Connected(db, peers, now, a, b)
    ensures Alive(db, now, a) && Alive(db, now, b)
  {
  }

  lemma FillEnd<B>(db: Database<B>, peers: PeerReader<B>, now: int, n: NodeId, before: set<NodeId>, after: set<NodeId>)
    requires Alive(db, now, n) && Filling(db, peers, now, n, before, after, |peers(db[n].container)|)
    ensures Filled(db, peers, now, n, before, after)
  {
    forall b | Mutual(db, peers, n, b) && Alive(db, now, b) ensures b in after {
      var p :| p in peers(db[n].container) && p.node == b && Peer(n, p.ep, p.peerEp) in peers(db[b].container);
      var j :| 0 <= j < |peers(db[n].container)| && peers(db[n].container)[j] == p;
      assert LinkedBack(db, peers, n, peers(db[n].container)[j], b);
    }
  }

  /** Started with no marks, the fill marks exactly the nodes connected to n. */
  lemma FillIsExact<B>(db: Database<B>, peers: PeerReader<B>, now: int, n: NodeId, after: set<NodeId>)
    requires Filled(db, peers, now, n, {}, after)
    ensures forall a :: a in after <==> Connected(db, peers, now, n, a)
  {
    forall a | Connected(db, peers, now, n, a) ensures a in after {
      StartIsAlive(db, peers, now, n, a);
      var p :| Path(db, peers, now, p) && p[0] == n && p[|p| - 1] == a;
      ClosedHasConnected(db, peers, now, after, p);
    }
  }

  /** The nodes that a prune finds reachable: the own node unless it has expired; with a node, every
      node that has not expired and whose peer TLV mirrors one of that node, endpoints included; and no
      other. */
  ghost predicate Spreads<B>(db: Database<B>, peers: PeerReader<B>, now: int, own: NodeId, live: set<NodeId>) {
    && (forall n | n in live :: n in db && now < db[n].expiration)
    && (own in live <==> own in db && now < db[own].expiration)
    && (forall n, p | n in live && n in db && p in peers(db[n].container) && p.node in db &&
          Peer(n, p.ep, p.peerEp) in peers(db[p.node].container) && now < db[p.node].expiration ::
          p.node in live)
    && (forall n | n in live && n in db && n != own ::
          exists p | p in peers(db[n].container) ::
            p.node in live && p.node in db && Peer(n, p.ep, p.peerEp) in peers(db[p.node].container))
  }

  lemma ConnectedSpreads<B>(db: Database<B>, peers: PeerReader<B>, now: int, own: NodeId, live: set<NodeId>)
    requires forall n :: n in live <==> Connected(db, peers, now, own, n)
    ensures Spreads(db, peers, now, own, live)
  {
    forall n | n in live ensures n in db && now < db[n].expiration {
      StartIsAlive(db, peers, now, own, n);
    }
    if own in db && now < db[own].expiration {
      ConnectedSelf(db, peers, now, own);
    }
    forall n, p | n in live && n in db && p in peers(db[n].container) && p.node in db &&
        Peer(n, p.ep, p.peerEp) in peers(db[p.node].container) && now < db[p.node].expiration
      ensures p.node in live
    {
      assert Mutual(db, peers, n, p.node);
      ConnectedStep(db, peers, now, own, n, p.node);
    }
    forall n | n in live && n != own
      ensures exists p | p in peers(db[n].container) ::
        p.node in live && p.node in db && Peer(n, p.ep, p.peerEp) in peers(db[p.node].container)
    {
      var x := Predecessor(db, peers, now, own, n);
      MutualIsSymmetric(db, peers, x, n);
    }
  }

  lemma Predecessor<B>(db: Database<B>, peers: PeerReader<B>, now: int, a: NodeId, b: NodeId) returns (x: NodeId)
    requires Connected(db, peers, now, a, b) && a != b
    ensures Connected(db, peers, now, a, x) && Mutual(db, peers, x, b)
  {
    var p :| Path(db, peers, now, p) && p[0] == a && p[|p| - 1] == b;
    var q, k := p[..|p| - 1], |p| - 2;
    assert Mutual(db, peers, p[k], p[k + 1]);
    assert Path(db, peers, now, q) by {
      forall i | 0 <= i < |q| ensures Alive(db, now, q[i]) {
        assert Alive(db, now, p[i]);
      }
      forall i | 0 <= i < |q| - 1 ensures Mutual(db, peers, q[i], q[i + 1]) {
        assert Mutual(db, peers, p[i], p[i + 1]);
      }
    }
    x := p[k];
  }

  // ---------- the network hash ----------

  /** The members of s in ascending order, as an AVL tree lists them. */
  function Ascending(s: set<NodeId>): seq<NodeId> {
    if s == {} then [] else var m := Least(s); [m] + Ascending(s - {m})
  }

  lemma HasLeast(s: set<NodeId>)
    requires s != {}
    ensures exists m | m in s :: forall x | x in s :: m <= x
  {
    var x :| x in s;
    var rest := s - {x};
    if rest == {} {
      assert s == {x};
    } else {
      HasLeast(rest);
      var m :| m in rest && forall y | y in rest :: m <= y;
      assert forall y | y in s && y != x :: y in rest;
      LeastOfBoth(s, x, m);
    }
  }

  lemma LeastOfBoth(s: set<NodeId>, x: NodeId, m: NodeId)
    requires x in s && m in s && forall y | y in s && y != x :: m <= y
    ensures exists l | l in s :: forall y | y in s :: l <= y
  {
    var l := if x < m then x else m;
    assert l in s && forall y | y in s :: l <= y;
  }

  function Least(s: set<NodeId>): (m: NodeId)
    requires s != {}
    ensures m in s && forall x | x in s :: m <= x
  {
    HasLeast(s);
    var m :| m in s && forall x | x in s :: m <= x;
    m
  }

  lemma {:induction false} AscendingIs(s: set<NodeId>)
    ensures forall x :: x in Ascending(s) <==> x in s
    ensures forall i, j | 0 <= i < j < |Ascending(s)| :: Ascending(s)[i] < Ascending(s)[j]
  {
    if s != {} {
      var m := Least(s);
      AscendingIs(s - {m});
      var rest := Ascending(s - {m});
      forall i | 0 <= i < |rest| ensures m < rest[i] {
        assert rest[i] in rest;
      }
      forall x ensures x in Ascending(s) <==> x in s {
        assert x in [m] + rest <==> x == m || x in rest;
      }
    }
  }

  /** What dncp_calculate_network_hash feeds to the hash (src/dncp.c:566-583): update number
      and node data hash of each reachable node, in the order of the identifiers. */
  function NetworkState<B>(db: Database<B>, hashOf: Option<B> -> Hash, live: set<NodeId>): seq<(nat, Hash)>
    requires live <= db.Keys
  {
    var order := Ascending(live);
    AscendingIs(live);
    assert forall i | 0 <= i < |order| :: order[i] in order;
    seq(|order|, i requires 0 <= i < |order| => (db[order[i]].number, hashOf(db[order[i]].container)))
  }

  /** Number and hash of a node stand at the place that its identifier has among the reachable ones. */
  lemma NetworkStateAt<B>(db: Database<B>, hashOf: Option<B> -> Hash, live: set<NodeId>, n: NodeId)
    requires live <= db.Keys && n in live
    ensures |NetworkState(db, hashOf, live)| == |live| && |SmallerThan(live, n)| < |live|
    ensures NetworkState(db, hashOf, live)[|SmallerThan(live, n)|] == (db[n].number, hashOf(db[n].container))
  {
    AscendingPlace(live, n);
  }

  ghost function SmallerThan(s: set<NodeId>, n: NodeId): set<NodeId> {
    set m | m in s && m < n
  }

  lemma {:induction false} AscendingPlace(s: set<NodeId>, n: NodeId)
    requires n in s
    ensures |Ascending(s)| == |s| && |SmallerThan(s, n)| < |s| && Ascending(s)[|SmallerThan(s, n)|] == n
    decreases s
  {
    var m := Least(s);
    var rest := s - {m};
    AscendingLength(rest);
    if n == m {
      assert SmallerThan(s, n) == {};
    } else {
      AscendingPlace(rest, n);
      assert SmallerThan(s, n) == SmallerThan(rest, n) + {m};
    }
  }

  lemma {:induction false} AscendingLength(s: set<NodeId>)
    ensures |Ascending(s)| == |s|
    decreases s
  {
    if s != {} {
      AscendingLength(s - {Least(s)});
    }
  }

  /** Equal states of the same nodes: each has the same number and the same hash in both. */
  lemma EqualStates<B>(db1: Database<B>, db2: Database<B>, hashOf: Option<B> -> Hash, live: set<NodeId>)
    requires live <= db1.Keys && live <= db2.Keys
    ensures NetworkState(db1, hashOf, live) == NetworkState(db2, hashOf, live) <==> forall n | n in live ::
      db1[n].number == db2[n].number && hashOf(db1[n].container) == hashOf(db2[n].container)
  {
    var s1, s2 := NetworkState(db1, hashOf, live), NetworkState(db2, hashOf, live);
    forall n | n in live
      ensures s1 == s2 ==> db1[n].number == db2[n].number && hashOf(db1[n].container) == hashOf(db2[n].container)
    {
      NetworkStateAt(db1, hashOf, live, n);
      NetworkStateAt(db2, hashOf, live, n);
    }
    AscendingIs(live);
    assert forall i | 0 <= i < |Ascending(live)| :: Ascending(live)[i] in Ascending(live);
  }
}
