/**
  The capability election on a link (src/hncp_link.c:42-177): every node decides by itself, from the
  peer and version TLVs of the nodes on the link.
 */
module HncpLink {
  import opened Wrappers
  import opened DncpGraph

  type Nibble = n: nat | n < 16

  /** The values of a version TLV: mDNS proxy, prefix delegation, hostnames, legacy */
  datatype Caps = Caps(m: Nibble, p: Nibble, h: Nibble, l: Nibble)

  /** caps_mp << 8 | caps_hl */
  function AsNumber(c: Caps): nat {
    (c.m * 16 + c.p) * 256 + (c.h * 16 + c.l)
  }

  /** enum hncp_link_elected, bit by bit */
  datatype Elected = Elected(mdns: bool, prefix: bool, hostnames: bool, legacy: bool, stateless: bool)

  const NONE := Elected(false, false, false, false, false)

  datatype LinkTlv = VersionTlv(caps: Caps) | PeerTlv(peer: Peer) | OtherTlv

  datatype Kind = Mdns | PrefixDel | Hostnames | Legacy

  function Cap(c: Caps, k: Kind): nat {
    match k
    case Mdns => c.m
    case PrefixDel => c.p
    case Hostnames => c.h
    case Legacy => c.l
  }

  // ---------- one comparison ----------

  /** A node on the link */
  datatype Member = Member(id: NodeId, caps: Caps)

  /** The tie break: smaller capabilities as a whole, or the same and a smaller identifier */
  predicate Below(a: Member, b: Member) {
    AsNumber(a.caps) < AsNumber(b.caps) || (AsNumber(a.caps) == AsNumber(b.caps) && a.id < b.id)
  }

  /** Peer b takes the election for k away from a (src/hncp_link.c:137-166). */
  predicate TakenBy(a: Member, b: Member, k: Kind) {
    || Cap(a.caps, k) < Cap(b.caps, k)
    || (Below(a, b) && Cap(b.caps, k) > 0 && Cap(a.caps, k) == Cap(b.caps, k))
  }

  /** In the fields, b goes before a in the election for k: by the capability itself; then by all of them,
      the earlier ones first; then by the identifier. */
  ghost predicate Outranks(b: Member, a: Member, k: Kind) {
    || Cap(b.caps, k) > Cap(a.caps, k)
    || (Cap(b.caps, k) == Cap(a.caps, k) && MoreCapable(b.caps, a.caps))
    || (b.caps == a.caps && b.id > a.id)
  }

  ghost predicate MoreCapable(b: Caps, a: Caps) {
    || b.m > a.m
    || (b.m == a.m && b.p > a.p)
    || (b.m == a.m && b.p == a.p && b.h > a.h)
    || (b.m == a.m && b.p == a.p && b.h == a.h && b.l > a.l)
  }

  lemma NumberIsOrder(a: Caps, b: Caps)
    ensures AsNumber(a) < AsNumber(b) <==> MoreCapable(b, a)
    ensures AsNumber(a) == AsNumber(b) <==> a == b
  {
  }

  /** The comparison of the code is this order, for a node that has the capability. */
  lemma TakenByRank(a: Member, b: Member, k: Kind)
    ensures Cap(a.caps, k) > 0 ==> (TakenBy(a, b, k) <==> Outranks(b, a, k))
    ensures Cap(a.caps, k) == 0 ==> (TakenBy(a, b, k) <==> Cap(b.caps, k) > 0)
  {
    NumberIsOrder(a.caps, b.caps);
  }

  /** What a node starts with (src/hncp_link.c:51-67) */
  function PreElected(own: Caps): Elected {
    Elected(own.m > 0, own.p > 0, own.h > 0, own.l > 0, own.h == 0)
  }

  /** What is left after looking at one peer */
  function Against(e: Elected, own: Member, peer: Member): Elected {
    Elected(e.mdns && !TakenBy(own, peer, Mdns), e.prefix && !TakenBy(own, peer, PrefixDel),
            e.hostnames && !TakenBy(own, peer, Hostnames), e.legacy && !TakenBy(own, peer, Legacy),
            e.stateless && !TakenBy(own, peer, Hostnames))
  }

  /** The bits are cleared one after the other (src/hncp_link.c:137-166). */
  method ClearBits(e: Elected, own: Member, peer: Member) returns (r: Elected)
    ensures r == Against(e, own, peer)
  {
    r := ClearSmaller(e, own.caps, peer.caps);
    if Below(own, peer) {
      r := ClearTies(r, own.caps, peer.caps);
    }
  }

  method ClearSmaller(e: Elected, a: Caps, b: Caps) returns (r: Elected)
    ensures r == Elected(e.mdns && a.m >= b.m, e.prefix && a.p >= b.p, e.hostnames && a.h >= b.h,
                         e.legacy && a.l >= b.l,
                         e.stateless && a.h >= b.h)
  {
    r := e;
    if a.m < b.m {
      r := r.(mdns := false);
    }
    if a.p < b.p {
      r := r.(prefix := false);
    }
    if a.h < b.h {
      r := r.(hostnames := false, stateless := false);
    }
    if a.l < b.l {
      r := r.(legacy := false);
    }
  }

  method ClearTies(e: Elected, a: Caps, b: Caps) returns (r: Elected)
    ensures r == Elected(e.mdns && !(b.m > 0 && a.m == b.m), e.prefix && !(b.p > 0 && a.p == b.p),
                         e.hostnames && !(b.h > 0 && a.h == b.h), e.legacy && !(b.l > 0 && a.l == b.l),
                         e.stateless && !(b.h > 0 && a.h == b.h))
  {
    r := e;
    if b.m > 0 && a.m == b.m {
      r := r.(mdns := false);
    }
    if b.p > 0 && a.p == b.p {
      r := r.(prefix := false);
    }
    if b.h > 0 && a.h == b.h {
      r := r.(hostnames := false, stateless := false);
    }
    if b.l > 0 && a.l == b.l {
      r := r.(legacy := false);
    }
  }

  /** The outcome against a number of peers */
  ghost predicate Outcome(e: Elected, own: Member, peers: set<Member>) {
    && (e.mdns <==> Stands(own, peers, Mdns))
    && (e.prefix <==> Stands(own, peers, PrefixDel))
    && (e.hostnames <==> Stands(own, peers, Hostnames))
    && (e.legacy <==> Stands(own, peers, Legacy))
    && (e.stateless <==> own.caps.h == 0 && forall b | b in peers :: b.caps.h == 0)
  }

  /** The node has the capability and nobody outranks it. */
  ghost predicate Stands(own: Member, peers: set<Member>, k: Kind) {
    Cap(own.caps, k) > 0 && forall b | b in peers :: !Outranks(b, own, k)
  }

  // ---------- the whole calculation ----------

  /** The peer's TLV t is the other half of our peer TLV c on endpoint ep (src/hncp_link.c:106-118). */
  predicate Back(own: NodeId, ep: nat, c: Peer, t: LinkTlv) {
    t.PeerTlv? && t.peer.ep == c.peerEp && t.peer.node == own && t.peer.peerEp == ep
  }

  /** The peer sees an endpoint of ours with a smaller identifier on the same link. */
  predicate Crossed(own: NodeId, ep: nat, c: Peer, t: LinkTlv) {
    t.PeerTlv? && t.peer.ep == c.peerEp && t.peer.node == own && t.peer.peerEp < ep
  }

  /** The last version TLV */
  function VersionIn(tlvs: seq<LinkTlv>): Option<Caps> {
    if tlvs == [] then None
    else if tlvs[|tlvs| - 1].VersionTlv? then Some(tlvs[|tlvs| - 1].caps)
    else VersionIn(tlvs[..|tlvs| - 1])
  }

  /** Look through the TLVs of a peer (src/hncp_link.c:97-127). */
  method ScanPeer(own: NodeId, ep: nat, c: Peer, tlvs: seq<LinkTlv>) returns (mutual: bool, version: Option<Caps>,
                                                                              crossed: bool)
    ensures crossed <==> exists t | t in tlvs :: Crossed(own, ep, c, t)
    ensures !crossed ==> version == VersionIn(tlvs) && (mutual <==> exists t | t in tlvs :: Back(own, ep, c, t))
  {
    mutual, version, crossed := false, None, false;
    var i := 0;
    while i < |tlvs|
      invariant i <= |tlvs| && !crossed && version == VersionIn(tlvs[..i])
      invariant forall j | 0 <= j < i :: !Crossed(own, ep, c, tlvs[j])
      invariant mutual <==> exists j | 0 <= j < i :: Back(own, ep, c, tlvs[j])
    {
      var t := tlvs[i];
      assert tlvs[..i + 1][..i] == tlvs[..i];
      if t.VersionTlv? {
        version := Some(t.caps);
      }
      if t.PeerTlv? && t.peer.ep == c.peerEp && t.peer.node == own {
        if t.peer.peerEp == ep {
          mutual := true;
        } else if t.peer.peerEp < ep {
          assert t in tlvs && Crossed(own, ep, c, t);
          crossed := true;
          return;
        }
      }
      i := i + 1;
    }
    assert tlvs[..|tlvs|] == tlvs;
  }

  /** The nodes that our peer TLVs on ep name, that name us back, and that have a version TLV */
  ghost predicate IsRival(own: NodeId, ep: nat, ours: seq<LinkTlv>, nodes: map<NodeId, seq<LinkTlv>>, b: Member) {
    && b.id in nodes && VersionIn(nodes[b.id]) == Some(b.caps)
    && exists c | c in ours ::
      c.PeerTlv? && c.peer.ep == ep && c.peer.node == b.id && NamesBack(own, ep, c.peer, nodes[b.id])
  }

  ghost predicate NamesBack(own: NodeId, ep: nat, c: Peer, tlvs: seq<LinkTlv>) {
    exists t | t in tlvs :: Back(own, ep, c, t)
  }

  ghost predicate SeesCrossing(own: NodeId, ep: nat, nodes: map<NodeId, seq<LinkTlv>>, c: LinkTlv) {
    c.PeerTlv? && c.peer.ep == ep && c.peer.node in nodes && exists t | t in nodes[c.peer.node] ::
      Crossed(own, ep, c.peer, t)
  }

  /** calculate_link (src/hncp_link.c:42-177): the election, if the endpoint is enabled and no two of
      our links turn out to be connected. */
  method CalculateLink(own: NodeId, version: Option<Caps>, ours: seq<LinkTlv>, nodes: map<NodeId, seq<LinkTlv>>,
                       ep: nat, enable: bool)
    returns (enabled: bool, elected: Elected)
    ensures enabled <==> enable && forall c | c in ours :: !SeesCrossing(own, ep, nodes, c)
    ensures !enabled || version.None? ==> elected == NONE
    ensures enabled && version.Some? ==>
      forall rivals: set<Member> | (forall b :: b in rivals <==> IsRival(own, ep, ours, nodes, b)) ::
        Outcome(elected, Member(own, version.value), rivals)
  {
    elected := if version.Some? then PreElected(version.value) else NONE;
    enabled := enable;
    if !enable {
      return false, NONE;
    }
    ghost var seen: set<Member> := {};
    var i := 0;
    while i < |ours|
      invariant i <= |ours|
      invariant forall j | 0 <= j < i :: !SeesCrossing(own, ep, nodes, ours[j])
      invariant forall b :: b in seen <==> IsRival(own, ep, ours[..i], nodes, b)
      invariant if version.Some? then Outcome(elected, Member(own, version.value), seen) else elected == NONE
    {
      var c := ours[i];
      RivalsGrow(own, ep, ours, nodes, i);
      if c.PeerTlv? && c.peer.ep == ep && c.peer.node in nodes {
        var mutual, peerVersion, crossed := ScanPeer(own, ep, c.peer, nodes[c.peer.node]);
        if crossed {
          assert c in ours && SeesCrossing(own, ep, nodes, c);
          return false, NONE;
        }
        if mutual && peerVersion.Some? {
          var b := Member(c.peer.node, peerVersion.value);
          if version.Some? {
            OutcomeGrows(elected, Member(own, version.value), seen, b);
            elected := ClearBits(elected, Member(own, version.value), b);
          }
          seen := seen + {b};
        }
      }
      i := i + 1;
    }
    assert ours[..|ours|] == ours;
    forall c | c in ours ensures !SeesCrossing(own, ep, nodes, c) {
    }
    forall rivals: set<Member> | version.Some? && (forall b :: b in rivals <==> IsRival(own, ep, ours, nodes, b))
      ensures Outcome(elected, Member(own, version.value), rivals)
    {
      assert rivals == seen;
    }
  }

  lemma OutcomeGrows(e: Elected, own: Member, seen: set<Member>, b: Member)
    requires Outcome(e, own, seen)
    ensures Outcome(Against(e, own, b), own, seen + {b})
  {
    forall k: Kind ensures Stands(own, seen + {b}, k) <==> Stands(own, seen, k) && !TakenBy(own, b, k) {
      TakenByRank(own, b, k);
    }
    TakenByRank(own, b, Hostnames);
  }

  lemma RivalsGrow(own: NodeId, ep: nat, ours: seq<LinkTlv>, nodes: map<NodeId, seq<LinkTlv>>, i: nat)
    requires i < |ours|
    ensures var c := ours[i];
            forall b :: IsRival(own, ep, ours[..i + 1], nodes, b) <==>
              IsRival(own, ep, ours[..i], nodes, b) ||
              (c.PeerTlv? && c.peer.ep == ep && c.peer.node == b.id && b.id in nodes &&
               VersionIn(nodes[b.id]) == Some(b.caps) && NamesBack(own, ep, c.peer, nodes[b.id]))
  {
    assert ours[..i + 1] == ours[..i] + [ours[i]];
  }

  // ---------- the elections of all nodes of a link ----------

  ghost predicate DistinctIds(ms: seq<Member>) {
    forall i, j | 0 <= i < j < |ms| :: ms[i].id != ms[j].id
  }

  /** Node i, against all others */
  ghost predicate Wins(ms: seq<Member>, i: nat, k: Kind)
    requires i < |ms|
  {
    Cap(ms[i].caps, k) > 0 && forall j | 0 <= j < |ms| && j != i :: !Outranks(ms[j], ms[i], k)
  }

  ghost predicate IsStateless(ms: seq<Member>, i: nat)
    requires i < |ms|
  {
    ms[i].caps.h == 0 && forall j | 0 <= j < |ms| && j != i :: ms[j].caps.h == 0
  }

  lemma {:induction false} SomeoneIsAhead(ms: seq<Member>, k: Kind) returns (i: nat)
    requires ms != [] && DistinctIds(ms)
    ensures i < |ms| && forall j | 0 <= j < |ms| && j != i :: Outranks(ms[i], ms[j], k)
  {
    if |ms| == 1 {
      i := 0;
    } else {
      var last := |ms| - 1;
      var rest := ms[..last];
      i := SomeoneIsAhead(rest, k);
      assert forall j | 0 <= j < last && j != i :: Outranks(ms[i], ms[j], k) by {
        assert forall j | 0 <= j < last :: rest[j] == ms[j];
      }
      assert ms[i].id != ms[last].id;
      if !Outranks(ms[i], ms[last], k) {
        AheadIsTransitive(ms, last, i, k);
        i := last;
      }
    }
  }

  lemma AheadIsTransitive(ms: seq<Member>, last: nat, i: nat, k: Kind)
    requires i < last == |ms| - 1 && ms[i].id != ms[last].id && !Outranks(ms[i], ms[last], k)
    requires forall j | 0 <= j < last && j != i :: Outranks(ms[i], ms[j], k)
    ensures forall j | 0 <= j < |ms| && j != last :: Outranks(ms[last], ms[j], k)
  {
  }

  ghost predicate OnlyWinner(ms: seq<Member>, k: Kind, w: nat) {
    w < |ms| && forall i | 0 <= i < |ms| :: Wins(ms, i, k) <==> i == w
  }

  /** On a link where all nodes see each other, node i calculates that it wins, or is stateless, if and
      only if it does, or is. */
  lemma OutcomeOnLink(ms: seq<Member>, i: nat, e: Elected)
    requires i < |ms| && Outcome(e, ms[i], set j | 0 <= j < |ms| && j != i :: ms[j])
    ensures (e.mdns <==> Wins(ms, i, Mdns)) && (e.prefix <==> Wins(ms, i, PrefixDel))
    ensures (e.hostnames <==> Wins(ms, i, Hostnames)) && (e.legacy <==> Wins(ms, i, Legacy))
    ensures e.stateless <==> IsStateless(ms, i)
  {
    var others := set j | 0 <= j < |ms| && j != i :: ms[j];
    assert forall j | 0 <= j < |ms| && j != i :: ms[j] in others;
  }

  /** If some node has the capability, exactly one node elects itself. */
  lemma ExactlyOneWins(ms: seq<Member>, k: Kind) returns (w: nat)
    requires DistinctIds(ms) && HasCap(ms, k)
    ensures OnlyWinner(ms, k, w)
  {
    w := SomeoneIsAhead(ms, k);
    var some :| 0 <= some < |ms| && Cap(ms[some].caps, k) > 0;
    assert some != w ==> Outranks(ms[w], ms[some], k);
    assert Wins(ms, w, k);
    forall i | 0 <= i < |ms| && i != w ensures !Wins(ms, i, k) {
      assert Outranks(ms[w], ms[i], k);
    }
  }

  /** Hostnames: one node wins and none is stateless, or all are stateless and none wins. */
  lemma HostnamesOrStateless(ms: seq<Member>)
    requires DistinctIds(ms)
    ensures if HasCap(ms, Hostnames)
            then (exists w :: OnlyWinner(ms, Hostnames, w)) && forall i | 0 <= i < |ms| :: !IsStateless(ms, i)
            else forall i | 0 <= i < |ms| :: IsStateless(ms, i) && !Wins(ms, i, Hostnames)
  {
    if HasCap(ms, Hostnames) {
      var some :| 0 <= some < |ms| && Cap(ms[some].caps, Hostnames) > 0;
      var w := ExactlyOneWins(ms, Hostnames);
      forall i | 0 <= i < |ms| ensures !IsStateless(ms, i) {
        if ms[i].caps.h == 0 {
          assert some != i && ms[some].caps.h > 0;
        }
      }
    } else {
      assert forall i | 0 <= i < |ms| :: Cap(ms[i].caps, Hostnames) == 0;
    }
  }

  // ---------- a link in TLVs ----------

  function Bit(e: Elected, k: Kind): bool {
    match k
    case Mdns => e.mdns
    case PrefixDel => e.prefix
    case Hostnames => e.hostnames
    case Legacy => e.legacy
  }

  /** Node ms[i] is on the link with its endpoint eps[i]: it publishes its version, and on that
      endpoint exactly the other nodes of the link as peers, each at its own endpoint. */
  ghost predicate FullyMutual(nodes: map<NodeId, seq<LinkTlv>>, ms: seq<Member>, eps: seq<nat>) {
    && |eps| == |ms| && DistinctIds(ms)
    && (forall i | 0 <= i < |ms| :: ms[i].id in nodes && VersionIn(nodes[ms[i].id]) == Some(ms[i].caps))
    && (forall i, p: Peer | 0 <= i < |ms| && p.ep == eps[i] ::
          PeerTlv(p) in nodes[ms[i].id] <==> IsPeerOf(ms, eps, i, p))
  }

  ghost predicate IsPeerOf(ms: seq<Member>, eps: seq<nat>, i: nat, p: Peer)
    requires |eps| == |ms| && i < |ms|
  {
    exists j | 0 <= j < |ms| && j != i :: p == Peer(ms[j].id, eps[j], eps[i])
  }

  /** On such a link the rivals of a node are exactly the other nodes. */
  lemma RivalsAreOthers(nodes: map<NodeId, seq<LinkTlv>>, ms: seq<Member>, eps: seq<nat>, i: nat, b: Member)
    requires FullyMutual(nodes, ms, eps) && i < |ms|
    ensures IsRival(ms[i].id, eps[i], nodes[ms[i].id], nodes, b) <==> exists j | 0 <= j < |ms| && j != i :: b == ms[j]
  {
    var own, ours := ms[i].id, nodes[ms[i].id];
    if IsRival(own, eps[i], ours, nodes, b) {
      var c :| c in ours && c.PeerTlv? && c.peer.ep == eps[i] && c.peer.node == b.id;
      assert c == PeerTlv(c.peer) && IsPeerOf(ms, eps, i, c.peer);
      var j :| 0 <= j < |ms| && j != i && c.peer == Peer(ms[j].id, eps[j], eps[i]);
      assert b == ms[j];
    }
    if j :| 0 <= j < |ms| && j != i && b == ms[j] {
      OthersAreRivals(nodes, ms, eps, i, j);
    }
  }

  lemma OthersAreRivals(nodes: map<NodeId, seq<LinkTlv>>, ms: seq<Member>, eps: seq<nat>, i: nat, j: nat)
    requires FullyMutual(nodes, ms, eps) && i < |ms| && j < |ms| && i != j
    ensures IsRival(ms[i].id, eps[i], nodes[ms[i].id], nodes, ms[j])
  {
    var c, t := Peer(ms[j].id, eps[j], eps[i]), Peer(ms[i].id, eps[i], eps[j]);
    assert IsPeerOf(ms, eps, i, c) && PeerTlv(c) in nodes[ms[i].id];
    assert IsPeerOf(ms, eps, j, t) && PeerTlv(t) in nodes[ms[j].id];
    assert Back(ms[i].id, eps[i], c, PeerTlv(t));
  }

  /** And no two links of a node turn out to be connected there. */
  lemma NothingCrosses(nodes: map<NodeId, seq<LinkTlv>>, ms: seq<Member>, eps: seq<nat>, i: nat, c: LinkTlv)
    requires FullyMutual(nodes, ms, eps) && i < |ms| && c in nodes[ms[i].id]
    ensures !SeesCrossing(ms[i].id, eps[i], nodes, c)
  {
    if c.PeerTlv? && c.peer.ep == eps[i] {
      assert c == PeerTlv(c.peer) && IsPeerOf(ms, eps, i, c.peer);
      var j :| 0 <= j < |ms| && j != i && c.peer == Peer(ms[j].id, eps[j], eps[i]);
      forall t | t in nodes[ms[j].id] ensures !Crossed(ms[i].id, eps[i], c.peer, t) {
        if t.PeerTlv? && t.peer.ep == eps[j] {
          assert t == PeerTlv(t.peer) && IsPeerOf(ms, eps, j, t.peer);
        }
      }
    }
  }

  /** One node's calculation */
  method ElectOne(nodes: map<NodeId, seq<LinkTlv>>, ms: seq<Member>, eps: seq<nat>, i: nat) returns (e: Elected)
    requires FullyMutual(nodes, ms, eps) && i < |ms|
    ensures forall k: Kind :: Bit(e, k) <==> Wins(ms, i, k)
    ensures e.stateless <==> IsStateless(ms, i)
  {
    var enabled;
    enabled, e := CalculateLink(ms[i].id, Some(ms[i].caps), nodes[ms[i].id], nodes, eps[i], true);
    forall c | c in nodes[ms[i].id] ensures !SeesCrossing(ms[i].id, eps[i], nodes, c) {
      NothingCrosses(nodes, ms, eps, i, c);
    }
    ghost var others := set j | 0 <= j < |ms| && j != i :: ms[j];
    forall b ensures b in others <==> IsRival(ms[i].id, eps[i], nodes[ms[i].id], nodes, b) {
      RivalsAreOthers(nodes, ms, eps, i, b);
    }
    OutcomeOnLink(ms, i, e);
  }

  ghost predicate OnlyElected(all: seq<Elected>, k: Kind, w: nat) {
    w < |all| && forall i | 0 <= i < |all| :: Bit(all[i], k) <==> i == w
  }

  /** All nodes of a link calculate by themselves: a node is elected for a capability if and only if it
      has it and outranks all others.  So for every capability that some node has, exactly one is elected,
      and none for a capability that nobody has; and either one node is elected for hostnames and none is
      stateless, or all are stateless. */
  method ElectAll(nodes: map<NodeId, seq<LinkTlv>>, ms: seq<Member>, eps: seq<nat>) returns (all: seq<Elected>)
    requires FullyMutual(nodes, ms, eps)
    ensures |all| == |ms|
    ensures forall k: Kind ::
      if HasCap(ms, k) then exists w :: OnlyElected(all, k, w) else forall i | 0 <= i < |all| :: !Bit(all[i], k)
    ensures forall i | 0 <= i < |all| :: all[i].stateless <==> !HasCap(ms, Hostnames)
    ensures forall i, k: Kind | 0 <= i < |all| :: Bit(all[i], k) <==> Leads(ms, i, k)
  {
    all := [];
    for i := 0 to |ms|
      invariant |all| == i && forall j | 0 <= j < i :: Calculated(ms, j, all[j])
    {
      var e := ElectOne(nodes, ms, eps, i);
      assert Calculated(ms, i, e);
      all := all + [e];
    }
    forall k: Kind
      ensures if HasCap(ms, k) then exists w :: OnlyElected(all, k, w) else forall i | 0 <= i < |all| :: !Bit(all[i], k)
    {
      OneIsElected(ms, all, k);
    }
    HostnamesOrStateless(ms);
    forall i | 0 <= i < |all| ensures all[i].stateless <==> !HasCap(ms, Hostnames) {
      assert Calculated(ms, i, all[i]);
    }
    forall i, k: Kind | 0 <= i < |all| ensures Bit(all[i], k) <==> Leads(ms, i, k) {
      assert Calculated(ms, i, all[i]);
      WinnerLeads(ms, i, k);
    }
  }

  /** The node has the capability and outranks all others. */
  ghost predicate Leads(ms: seq<Member>, i: nat, k: Kind)
    requires i < |ms|
  {
    Cap(ms[i].caps, k) > 0 && forall j | 0 <= j < |ms| && j != i :: Outranks(ms[i], ms[j], k)
  }

  lemma WinnerLeads(ms: seq<Member>, i: nat, k: Kind)
    requires DistinctIds(ms) && i < |ms|
    ensures Wins(ms, i, k) <==> Leads(ms, i, k)
  {
    RankIsTotal(ms, i, k);
  }

  lemma RankIsTotal(ms: seq<Member>, i: nat, k: Kind)
    requires DistinctIds(ms) && i < |ms|
    ensures forall j | 0 <= j < |ms| && j != i :: Outranks(ms[i], ms[j], k) <==> !Outranks(ms[j], ms[i], k)
  {
    forall j | 0 <= j < |ms| && j != i ensures ms[i].id != ms[j].id {
      assert if i < j then ms[i].id != ms[j].id else ms[j].id != ms[i].id;
    }
  }

  ghost predicate HasCap(ms: seq<Member>, k: Kind) {
    exists i | 0 <= i < |ms| :: Cap(ms[i].caps, k) > 0
  }

  ghost predicate Calculated(ms: seq<Member>, i: nat, e: Elected)
    requires i < |ms|
  {
    (forall k: Kind :: Bit(e, k) <==> Wins(ms, i, k)) && (e.stateless <==> IsStateless(ms, i))
  }

  lemma OneIsElected(ms: seq<Member>, all: seq<Elected>, k: Kind)
    requires DistinctIds(ms) && |all| == |ms| && forall i | 0 <= i < |ms| :: Calculated(ms, i, all[i])
    ensures if HasCap(ms, k) then exists w :: OnlyElected(all, k, w) else forall i | 0 <= i < |all| :: !Bit(all[i], k)
  {
    assert forall i | 0 <= i < |ms| :: Bit(all[i], k) <==> Wins(ms, i, k);
    if HasCap(ms, k) {
      var w := ExactlyOneWins(ms, k);
      assert OnlyElected(all, k, w);
    }
  }
}
