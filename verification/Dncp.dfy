/**
  A DNCP instance: storing node data, pruning, the network hash, and telling subscribers
  (src/dncp.c, src/dncp_timeout.c, src/dncp_notify.c).
 */
module DncpModel {
  import opened Wrappers
  import opened Tlvs
  import opened TlvDiff
  import opened DncpGraph

  type SubId = nat

  /** What a subscriber holds: for each node, the TLVs it was given and not told to drop. */
  type View = map<NodeId, multiset<Tlv>>

  function HeldFor(view: View, n: NodeId): multiset<Tlv> {
    if n in view then view[n] else multiset{}
  }

  /** The effect of a series of tlv_change_cb calls about node n. */
  function Hear(view: View, n: NodeId, events: seq<Event>): View {
    view[n := Replay(HeldFor(view, n), events)]
  }

  /** How the TLVs of a blob are read; blobs hold them in order. */
  type Reader<!B> = B -> Container

  /** dncp_node_get_tlvs */
  function ValidTlvs<B>(tlvs: Reader<B>, d: NodeData<B>): Container {
    if d.valid && d.container.Some? then tlvs(d.container.value) else []
  }

  /** What a subscriber should hold for id: the valid TLVs of a node it was told about. */
  function Shown<B>(tlvs: Reader<B>, db: Database<B>, told: set<NodeId>, id: NodeId): multiset<Tlv> {
    if id in told && id in db then multiset(ValidTlvs(tlvs, db[id])) else multiset{}
  }

  /** Every subscriber holds exactly the valid TLVs of the nodes in `told`. */
  ghost predicate AllShow<B>(tlvs: Reader<B>, subs: map<SubId, View>, db: Database<B>, told: set<NodeId>) {
    && told <= db.Keys
    && forall s, id {:trigger HeldFor(subs[s], id)} | s in subs :: HeldFor(subs[s], id) == Shown(tlvs, db, told, id)
  }

  /** The subscriber holds exactly the valid TLVs of the nodes in `told`. */
  ghost predicate Exact<B>(tlvs: Reader<B>, db: Database<B>, told: set<NodeId>, view: View) {
    forall id :: HeldFor(view, id) == Shown(tlvs, db, told, id)
  }

  /** What each subscriber holds of nodes that went without a word */
  type Leftovers = map<SubId, View>

  /** Every subscriber holds the valid TLVs of the nodes in `told`, and its leftovers.  Nothing is said
      about nodes that became the own node without a word. */
  ghost predicate Accounted<B>(tlvs: Reader<B>, subs: map<SubId, View>, db: Database<B>, told: set<NodeId>,
                               left: Leftovers, astray: set<NodeId>)
  {
    && told <= db.Keys && left.Keys == subs.Keys
    && forall s, id {:trigger HeldFor(subs[s], id)} | s in subs && id !in astray ::
         HeldFor(subs[s], id) == Shown(tlvs, db, told, id) + HeldFor(left[s], id)
  }

  ghost predicate NothingLeft(left: Leftovers) {
    forall s, id | s in left :: HeldFor(left[s], id) == multiset{}
  }

  /** Subscribers are right if and only if nothing is left over. */
  lemma ShowsIff<B>(tlvs: Reader<B>, subs: map<SubId, View>, db: Database<B>, told: set<NodeId>, left: Leftovers)
    requires Accounted(tlvs, subs, db, told, left, {})
    ensures AllShow(tlvs, subs, db, told) <==> NothingLeft(left)
  {
    if AllShow(tlvs, subs, db, told) {
      forall s, id | s in left ensures HeldFor(left[s], id) == multiset{} {
        SumIsFirst(HeldFor(subs[s], id), Shown(tlvs, db, told, id), HeldFor(left[s], id));
      }
    }
  }

  lemma SumIsFirst(held: multiset<Tlv>, shown: multiset<Tlv>, left: multiset<Tlv>)
    requires held == shown + left && held == shown
    ensures left == multiset{}
  {
    assert left == held - shown;
  }

  /** Everybody who held o for node n now holds w in its place, and all else is as it was. */
  ghost predicate Told(subs: map<SubId, View>, subs': map<SubId, View>, n: NodeId, o: multiset<Tlv>, w: multiset<Tlv>) {
    && subs'.Keys == subs.Keys
    && (forall s, id {:trigger HeldFor(subs'[s], id)} | s in subs' && id != n ::
          HeldFor(subs'[s], id) == HeldFor(subs[s], id))
    && (forall s | s in subs' && o <= HeldFor(subs[s], n) ::
          HeldFor(subs'[s], n) == HeldFor(subs[s], n) - o + w)
  }

  /** The subscribers were told about n, and nothing else changed for them. */
  lemma ToldShows<B>(tlvs: Reader<B>, subs: map<SubId, View>, db: Database<B>, told: set<NodeId>,
                     subs': map<SubId, View>, db': Database<B>, told': set<NodeId>, n: NodeId, left: Leftovers,
                     astray: set<NodeId>)
    requires Told(subs, subs', n, Shown(tlvs, db, told, n), Shown(tlvs, db', told', n))
    requires Accounted(tlvs, subs, db, told, left, astray) && told' <= db'.Keys
    requires forall id | id != n :: Shown(tlvs, db', told', id) == Shown(tlvs, db, told, id)
    ensures Accounted(tlvs, subs', db', told', left, astray)
  {
    forall s, id | s in subs' && id !in astray
      ensures HeldFor(subs'[s], id) == Shown(tlvs, db', told', id) + HeldFor(left[s], id)
    {
      assert HeldFor(subs[s], id) == Shown(tlvs, db, told, id) + HeldFor(left[s], id);
      if id == n {
        InItsPlace(Shown(tlvs, db, told, n), HeldFor(left[s], n), Shown(tlvs, db', told', n));
      }
    }
  }

  lemma InItsPlace(o: multiset<Tlv>, left: multiset<Tlv>, w: multiset<Tlv>)
    ensures o <= o + left && (o + left) - o + w == w + left
  {
  }

  lemma HearBoth(view: View, n: NodeId, a: seq<Event>, b: seq<Event>)
    ensures Hear(Hear(view, n, a), n, b) == Hear(view, n, a + b)
  {
    var h := HeldFor(view, n);
    var x, y := Replay(h, a), Replay(h, a + b);
    ReplayConcat(h, a, b);
    PutTwice(view, n, x, y);
  }

  lemma PutTwice(view: View, n: NodeId, x: multiset<Tlv>, y: multiset<Tlv>)
    ensures view[n := x][n := y] == view[n := y] && HeldFor(view[n := x], n) == x
  {
  }

  /** Everybody but those in todo has heard the events. */
  ghost predicate HeardBut(before: map<SubId, View>, subs: map<SubId, View>, todo: set<SubId>, n: NodeId,
                           events: seq<Event>) {
    && subs.Keys == before.Keys && todo <= subs.Keys
    && forall s | s in subs :: subs[s] == if s in todo then before[s] else Hear(before[s], n, events)
  }

  lemma HeardOneMore(before: map<SubId, View>, subs: map<SubId, View>, todo: set<SubId>, n: NodeId, events: seq<Event>,
                     s: SubId)
    requires HeardBut(before, subs, todo, n, events) && s in todo
    ensures HeardBut(before, subs[s := Hear(subs[s], n, events)], todo - {s}, n, events)
  {
  }

  lemma HeardBoth(before: map<SubId, View>, mid: map<SubId, View>, subs: map<SubId, View>, n: NodeId, a: seq<Event>,
                  b: seq<Event>)
    requires HeardBut(before, mid, {}, n, a) && HeardBut(mid, subs, {}, n, b)
    ensures HeardBut(before, subs, {}, n, a + b)
  {
    forall s | s in subs ensures subs[s] == Hear(before[s], n, a + b) {
      HearBoth(before[s], n, a, b);
    }
  }

  /** Hearing the difference between two containers puts one in place of the other. */
  lemma HeardTells(before: map<SubId, View>, subs: map<SubId, View>, n: NodeId, o: Container, w: Container,
                   events: seq<Event>)
    requires events == Diff(o, w) && HeardBut(before, subs, {}, n, events)
    ensures Told(before, subs, n, multiset(o), multiset(w))
  {
    forall s | s in subs && multiset(o) <= HeldFor(before[s], n)
      ensures HeldFor(subs[s], n) == HeldFor(before[s], n) - multiset(o) + multiset(w)
    {
      DiffIsExact(HeldFor(before[s], n), o, w);
      assert HeldFor(subs[s], n) == Replay(HeldFor(before[s], n), events);
    }
  }

  /** Nothing the subscribers care about changed. */
  lemma SameShown<B>(tlvs: Reader<B>, subs: map<SubId, View>, db: Database<B>, told: set<NodeId>,
                     db': Database<B>, told': set<NodeId>, left: Leftovers, astray: set<NodeId>)
    requires Accounted(tlvs, subs, db, told, left, astray) && told' <= db'.Keys
    requires forall id :: Shown(tlvs, db', told', id) == Shown(tlvs, db, told, id)
    ensures Accounted(tlvs, subs, db', told', left, astray)
  {
  }

  /** Nothing to do: same number, and no data or the same data (src/dncp.c:48-56). */
  predicate Spurious<B(==)>(d: NodeData<B>, number: nat, a: Option<B>) {
    number == d.number && (a.None? || a == d.container)
  }

  // 2^32 - 2^15 ms after its origination, node data expires (src/dncp.c:84)
  const LIFETIME := 0x1_0000_0000 - 0x8000

  /** What dncp_node_set makes of a node (src/dncp.c:58-101); `accepted` is the verdict of
      validate_node_data on new data, and a time of 0 leaves the times alone. */
  function Updated<B(==)>(d: NodeData<B>, number: nat, t: int, a: Option<B>, accepted: bool): NodeData<B> {
    if Spurious(d, number, a) then d
    else NodeData(number, a,
                  if a == d.container then d.valid else a.Some? && accepted,
                  if t != 0 then t else d.origination,
                  if t != 0 then t + LIFETIME else d.expiration)
  }

  /** node_data_hash and node_data_hash_dirty */
  datatype HashCache = HashCache(value: Hash, dirty: bool)

  /** A clean node data hash is the hash of the data. */
  ghost predicate HashesFit<B>(db: Database<B>, cache: map<NodeId, HashCache>, hashOf: Option<B> -> Hash) {
    && db.Keys == cache.Keys
    && forall n | n in db :: !cache[n].dirty ==> cache[n].value == hashOf(db[n].container)
  }

  lemma HashesFitAfter<B>(db: Database<B>, cache: map<NodeId, HashCache>, hashOf: Option<B> -> Hash, n: NodeId,
                          d: NodeData<B>, c: HashCache)
    requires HashesFit(db, cache, hashOf)
    requires !c.dirty ==> c.value == hashOf(d.container)
    ensures HashesFit(db[n := d], cache[n := c], hashOf)
  {
  }

  /** The subscribers were told about the new data of a node that they know, or it is not one. */
  lemma ToldAfter<B>(tlvs: Reader<B>, subs: map<SubId, View>, db: Database<B>, told: set<NodeId>,
                     subs': map<SubId, View>, n: NodeId, d: NodeData<B>, left: Leftovers, astray: set<NodeId>)
    requires Accounted(tlvs, subs, db, told, left, astray) && n in db
    requires if n in told && d.container != db[n].container
             then Told(subs, subs', n, multiset(ValidTlvs(tlvs, db[n])), multiset(ValidTlvs(tlvs, d)))
             else subs' == subs && (d.container == db[n].container ==> d.valid == db[n].valid)
    ensures Accounted(tlvs, subs', db[n := d], told, left, astray)
  {
    var db' := db[n := d];
    if n in told && d.container != db[n].container {
      ToldShows(tlvs, subs, db, told, subs', db', told, n, left, astray);
    } else {
      SameShown(tlvs, subs, db, told, db', told, left, astray);
    }
  }

  /** The subscribers hold TLVs of a node that is about to go and that dncp_node_set will not
      mention, taking the removal for a spurious update. */
  ghost predicate Forgotten<B>(tlvs: Reader<B>, db: Database<B>, told: set<NodeId>, n: NodeId)
    requires n in db
  {
    n in told && db[n].number == 0 && multiset(ValidTlvs(tlvs, db[n])) != multiset{}
  }

  /** Node n has TLVs that subscribers have not been told about. */
  ghost predicate Unannounced<B>(tlvs: Reader<B>, db: Database<B>, told: set<NodeId>, n: NodeId) {
    n in db && n !in told && multiset(ValidTlvs(tlvs, db[n])) != multiset{}
  }

  /** Node n counts as told about from now on, without a word. */
  lemma Announced<B>(tlvs: Reader<B>, subs: map<SubId, View>, db: Database<B>, told: set<NodeId>, n: NodeId,
                     left: Leftovers, astray: set<NodeId>)
    requires Accounted(tlvs, subs, db, told, left, astray) && n in db
    ensures Accounted(tlvs, subs, db, told + {n}, left, AstrayAfter(tlvs, db, told, astray, n))
    ensures AllShow(tlvs, subs, db, told) ==>
      (AllShow(tlvs, subs, db, told + {n}) <==> subs.Keys == {} || !Unannounced(tlvs, db, told, n))
  {
    var told' := told + {n};
    assert forall id | id != n :: Shown(tlvs, db, told', id) == Shown(tlvs, db, told, id);
    assert !Unannounced(tlvs, db, told, n) ==> Shown(tlvs, db, told', n) == Shown(tlvs, db, told, n);
    if Unannounced(tlvs, db, told, n) && AllShow(tlvs, subs, db, told) {
      if s :| s in subs {
        assert HeldFor(subs[s], n) == Shown(tlvs, db, told, n) != Shown(tlvs, db, told', n);
      }
    }
  }

  ghost function AstrayAfter<B>(tlvs: Reader<B>, db: Database<B>, told: set<NodeId>, astray: set<NodeId>,
                                n: NodeId): set<NodeId> {
    if Unannounced(tlvs, db, told, n) then astray + {n} else astray
  }

  /** The leftovers once n is gone */
  ghost function LeftAfter<B>(tlvs: Reader<B>, db: Database<B>, told: set<NodeId>, left: Leftovers,
                              n: NodeId): Leftovers
    requires n in db
  {
    if Forgotten(tlvs, db, told, n)
    then map s | s in left :: left[s][n := HeldFor(left[s], n) + multiset(ValidTlvs(tlvs, db[n]))]
    else left
  }

  ghost predicate SameNodes<B>(db: Database<B>, stamp: map<NodeId, int>, version: map<NodeId, int>) {
    db.Keys == stamp.Keys == version.Keys
  }

  /** For n, and perhaps not for other nodes, the stamp says whether it was told about. */
  ghost predicate Fresh<B>(db: Database<B>, stamp: map<NodeId, int>, lastPrune: int, told: set<NodeId>, n: NodeId) {
    n in db && n in stamp && (n in told <==> stamp[n] == lastPrune)
  }

  class Dncp<B(==)> {
    const grace: int                            // ext->conf.grace_interval
    const tlvs: Reader<B>
    const peers: PeerReader<B>
    const hashOf: Option<B> -> Hash             // ext->cb.hash on node data
    const netHash: seq<(nat, Hash)> -> Hash     // ext->cb.hash on the network state

    // the nodes vlist: node data, and the other fields of each node
    var db: Database<B>
    var stamp: map<NodeId, int>                 // last_reachable_prune
    var version: map<NodeId, int>               // in_nodes.version
    var cache: map<NodeId, HashCache>
    var treeVersion: int                        // nodes.version

    var own: NodeId
    var lastPrune: int
    var networkHash: Hash
    var networkHashDirty: bool
    var republish: bool
    var graphDirty: bool
    var collided: bool
    var subs: map<SubId, View>                  // the subscribers, with what they hold
    ghost var told: set<NodeId>                 // the nodes subscribers were last told are there
    ghost var left: Leftovers
    ghost var astray: set<NodeId>
    ghost var seen: set<NodeId>                 // the nodes the running prune has marked

    /** dncp_for_each_node visits these. */
    function Reachable(): set<NodeId>
      reads this
    {
      set n | n in db && n in stamp && stamp[n] == lastPrune
    }

    /** The cached network hash is what recomputation gives. */
    ghost predicate NetRight()
      reads this
    {
      !networkHashDirty && !republish ==>
        networkHash == netHash(NetworkState(db, hashOf, Reachable()))
    }

    ghost predicate Valid()
      reads this
    {
      Settled() && NetRight()
    }

    /** Every subscriber holds exactly the valid TLVs of the reachable nodes. */
    ghost predicate Shows()
      reads this
    {
      AllShow(tlvs, subs, db, told)
    }

    ghost predicate Counted()
      reads this
    {
      Accounted(tlvs, subs, db, told, left, astray)
    }

    /** Nothing has gone wrong with telling subscribers. */
    ghost predicate Clean()
      reads this`left, this`astray
    {
      astray == {} && NothingLeft(left)
    }

    /** Then every subscriber is right. */
    lemma CleanShows()
      requires Counted() && Clean()
      ensures Shows()
    {
      ShowsIff(tlvs, subs, db, told, left);
    }

    /** In the fields: a subscriber holds the TLVs of a reachable node whose data is valid, and nothing of
        any other. */
    lemma CleanHolds(s: SubId, n: NodeId)
      requires Valid() && Clean() && s in subs
      ensures n in db && stamp[n] == lastPrune && db[n].valid && db[n].container.Some? ==>
        HeldFor(subs[s], n) == multiset(tlvs(db[n].container.value))
      ensures !(n in db && stamp[n] == lastPrune && db[n].valid && db[n].container.Some?) ==>
        HeldFor(subs[s], n) == multiset{}
    {
      CleanShows();
      assert HeldFor(subs[s], n) == Shown(tlvs, db, told, n);
    }

    /** All of this but for the network hash. */
    ghost predicate Settled()
      reads this
    {
      && SameNodes(db, stamp, version) && HashesFit(db, cache, hashOf) && Counted()
      && told == Reachable()
      && (forall n | n in stamp :: stamp[n] <= lastPrune)
      && (forall n | n in version :: version[n] <= treeVersion)
    }

    /** dncp_init (src/dncp.c:220-242): a network of the own node alone */
    constructor (grace: int, tlvs: Reader<B>, peers: PeerReader<B>, hashOf: Option<B> -> Hash,
                 netHash: seq<(nat, Hash)> -> Hash, own: NodeId)
      ensures Valid() && Clean() && this.own == own && Reachable() == db.Keys == {own} && subs == map[]
      ensures !republish && lastPrune == 1
      ensures this.grace == grace && this.tlvs == tlvs && this.peers == peers && this.hashOf == hashOf
      ensures this.netHash == netHash
    {
      this.grace, this.tlvs, this.peers, this.hashOf, this.netHash, this.own :=
        grace, tlvs, peers, hashOf, netHash, own;
      db, stamp, version := map[own := NodeData(0, None, false, 0, 0)], map[own := 1], map[own := 0];
      cache, treeVersion, lastPrune := map[own := HashCache(0, true)], 0, 1;
      networkHash, networkHashDirty, republish, graphDirty := 0, true, false, true;
      subs, told, seen, collided, left, astray := map[], {own}, {}, false, map[], {};
    }

    // ---------- telling subscribers ----------

    /** The first loop over the subscribers (src/dncp_notify.c:108-150) */
    method NotifyGone(n: NodeId, o: Container, w: Container)
      modifies this`subs
      ensures HeardBut(old(subs), subs, {}, n, Events(OnlyIn(o, w), false))
    {
      ghost var before, events := subs, Events(OnlyIn(o, w), false);
      var todo := subs.Keys;
      while todo != {}
        invariant HeardBut(before, subs, todo, n, events)
        decreases todo
      {
        var s :| s in todo;
        HeardOneMore(before, subs, todo, n, events, s);
        var gone := RemovePass(o, w);
        subs := subs[s := Hear(subs[s], n, Events(gone, false))];
        todo := todo - {s};
      }
    }

    /** The second loop over the subscribers (src/dncp_notify.c:151-193) */
    method NotifyCame(n: NodeId, o: Container, w: Container)
      modifies this`subs
      ensures HeardBut(old(subs), subs, {}, n, Events(OnlyIn(w, o), true))
    {
      ghost var before, events := subs, Events(OnlyIn(w, o), true);
      var todo := subs.Keys;
      while todo != {}
        invariant HeardBut(before, subs, todo, n, events)
        decreases todo
      {
        var s :| s in todo;
        HeardOneMore(before, subs, todo, n, events, s);
        var came := AddPass(o, w);
        subs := subs[s := Hear(subs[s], n, Events(came, true))];
        todo := todo - {s};
      }
    }

    /** dncp_notify_subscribers_tlvs_changed (src/dncp_notify.c:95-194): every subscriber hears the
        difference, and so holds the new TLVs in place of the old ones. */
    method NotifyTlvs(n: NodeId, o: Container, w: Container)
      modifies this`subs
      ensures HeardBut(old(subs), subs, {}, n, Diff(o, w)) && Told(old(subs), subs, n, multiset(o), multiset(w))
    {
      ghost var before := subs;
      NotifyGone(n, o, w);
      ghost var mid := subs;
      NotifyCame(n, o, w);
      HeardBoth(before, mid, subs, n, Events(OnlyIn(o, w), false), Events(OnlyIn(w, o), true));
      HeardTells(before, subs, n, o, w, Diff(o, w));
    }

    method Tell(n: NodeId, o: Container, w: Container)
      modifies this`subs
      ensures Told(old(subs), subs, n, multiset(o), multiset(w))
    {
      NotifyTlvs(n, o, w);
    }

    // ---------- storing node data ----------

    /** "If the pointer changed, handle it" (src/dncp.c:87-101), just before d takes effect. */
    method HandleChange(n: NodeId, d: NodeData<B>)
      requires SameNodes(db, stamp, version) && HashesFit(db, cache, hashOf) && Counted()
      requires Fresh(db, stamp, lastPrune, told, n)
      requires d.container == db[n].container ==> d.valid == db[n].valid
      modifies this`cache, this`subs, this`graphDirty
      ensures Accounted(tlvs, subs, db[n := d], told, left, astray) && subs.Keys == old(subs.Keys)
      ensures HashesFit(db[n := d], cache, hashOf) && cache.Keys == old(cache.Keys)
      ensures forall x | x in cache && x != n :: cache[x] == old(cache)[x]
      ensures graphDirty == (old(graphDirty) || d.container != db[n].container)
    {
      ghost var before := subs;
      if d.container != db[n].container {
        if stamp[n] == lastPrune {
          Tell(n, ValidTlvs(tlvs, db[n]), ValidTlvs(tlvs, d));
        }
        HashesFitAfter(db, cache, hashOf, n, d, cache[n].(dirty := true));
        cache := cache[n := cache[n].(dirty := true)];
        graphDirty := true;
      } else {
        HashesFitAfter(db, cache, hashOf, n, d, cache[n]);
        assert cache == cache[n := cache[n]];
      }
      ToldAfter(tlvs, before, db, told, subs, n, d, left, astray);
    }

    method SetChanged(n: NodeId, d: NodeData<B>)
      requires SameNodes(db, stamp, version) && HashesFit(db, cache, hashOf) && Counted()
      requires Fresh(db, stamp, lastPrune, told, n)
      requires d.container == db[n].container ==> d.valid == db[n].valid
      modifies this`db, this`cache, this`subs, this`graphDirty, this`networkHashDirty
      ensures SameNodes(db, stamp, version) && HashesFit(db, cache, hashOf) && Counted()
      ensures db == old(db)[n := d] && subs.Keys == old(subs.Keys) && networkHashDirty
      ensures graphDirty == (old(graphDirty) || d.container != old(db)[n].container)
      ensures forall x | x in cache && x != n :: x in old(cache) && cache[x] == old(cache)[x]
    {
      HandleChange(n, d);
      db := db[n := d];
      networkHashDirty := true;
    }

    /** dncp_node_set (src/dncp.c:39-107) */
    method NodeSet(n: NodeId, number: nat, t: int, a: Option<B>, accepted: bool)
      requires SameNodes(db, stamp, version) && HashesFit(db, cache, hashOf) && Counted()
      requires Fresh(db, stamp, lastPrune, told, n)
      modifies this`db, this`cache, this`subs, this`graphDirty, this`networkHashDirty
      ensures SameNodes(db, stamp, version) && HashesFit(db, cache, hashOf) && Counted()
      ensures subs.Keys == old(subs.Keys)
      ensures db == old(db)[n := Updated(old(db)[n], number, t, a, accepted)]
      ensures Spurious(old(db)[n], number, a) ==>
        db == old(db) && networkHashDirty == old(networkHashDirty) && graphDirty == old(graphDirty) && subs == old(subs)
      ensures !Spurious(old(db)[n], number, a) ==> networkHashDirty
      ensures db[n].container != old(db)[n].container ==> graphDirty
      ensures forall x | x in cache && x != n :: x in old(cache) && cache[x] == old(cache)[x]
    {
      if number == db[n].number && (a.None? || a == db[n].container) {
        assert db == db[n := db[n]];
        return;
      }
      var d := NodeData(number, a,
                        if a == db[n].container then db[n].valid else a.Some? && accepted,
                        if t != 0 then t else db[n].origination,
                        if t != 0 then t + LIFETIME else db[n].expiration);
      assert d == Updated(db[n], number, t, a, accepted);
      SetChanged(n, d);
    }

    /** update_node for a node that leaves the nodes vlist (src/dncp.c:120-126, src/dncp.c:134-136).
        Subscribers keep the TLVs of a forgotten node. */
    method DropNode(n: NodeId)
      requires SameNodes(db, stamp, version) && HashesFit(db, cache, hashOf) && Counted()
      requires Fresh(db, stamp, lastPrune, told, n)
      modifies this`db, this`stamp, this`version, this`cache, this`subs, this`told, this`networkHashDirty,
               this`graphDirty, this`left
      ensures db == old(db) - {n} && stamp == old(stamp) - {n} && version == old(version) - {n}
      ensures told == old(told) - {n} && subs.Keys == old(subs.Keys) && networkHashDirty
      ensures SameNodes(db, stamp, version) && HashesFit(db, cache, hashOf) && Counted()
      ensures left == LeftAfter(tlvs, old(db), old(told), old(left), n)
    {
      ghost var before := db;
      NodeSet(n, 0, 0, None, false);
      DropAccounts(tlvs, subs, before, db, told, n, left, astray);
      HashesFitWithout(db, cache, hashOf, n);
      assert db - {n} == before - {n};
      Unlist(n, LeftAfter(tlvs, before, told, left, n));
    }

    /** Take n out of the vlist and free it. */
    method Unlist(n: NodeId, ghost left': Leftovers)
      modifies this`db, this`stamp, this`version, this`cache, this`told, this`networkHashDirty, this`graphDirty,
               this`left
      ensures db == old(db) - {n} && stamp == old(stamp) - {n} && version == old(version) - {n}
      ensures cache == old(cache) - {n} && told == old(told) - {n} && networkHashDirty && left == left'
    {
      db, stamp, version, cache := db - {n}, stamp - {n}, version - {n}, cache - {n};
      told, left := told - {n}, left';
      networkHashDirty, graphDirty := true, true;
    }

    /** dncp_find_node_by_node_id with create set (src/dncp.c:210-217, src/dncp.c:127-136) */
    method CreateNode(n: NodeId)
      requires Valid() && n !in db
      modifies this`db, this`stamp, this`version, this`cache, this`networkHashDirty, this`graphDirty
      ensures Valid() && db == old(db)[n := NodeData(0, None, false, 0, 0)] && networkHashDirty
      ensures cache == old(cache)[n := HashCache(0, true)]
      ensures n !in Reachable() && Reachable() == old(Reachable())
    {
      ghost var d := NodeData(0, None, false, 0, 0);
      SameShown(tlvs, subs, db, told, db[n := d], told, left, astray);
      HashesFitAfter(db, cache, hashOf, n, d, HashCache(0, true));
      List(n);
      assert Reachable() == told;
    }

    /** Put an empty, unreachable node into the vlist. */
    method List(n: NodeId)
      modifies this`db, this`stamp, this`version, this`cache, this`networkHashDirty, this`graphDirty
      ensures db == old(db)[n := NodeData(0, None, false, 0, 0)] && stamp == old(stamp)[n := lastPrune - 1]
      ensures version == old(version)[n := treeVersion] && cache == old(cache)[n := HashCache(0, true)]
      ensures networkHashDirty
    {
      db := db[n := NodeData(0, None, false, 0, 0)];
      stamp := stamp[n := lastPrune - 1];
      version := version[n := treeVersion];
      cache := cache[n := HashCache(0, true)];
      networkHashDirty, graphDirty := true, true;
    }

    /** dncp_node_set between two steps of the protocol */
    method UpdateNode(n: NodeId, number: nat, t: int, a: Option<B>, accepted: bool)
      requires Settled() && n in db && (Spurious(db[n], number, a) ==> NetRight())
      modifies this`db, this`cache, this`subs, this`graphDirty, this`networkHashDirty
      ensures Valid() && subs.Keys == old(subs.Keys) && Reachable() == old(Reachable())
      ensures db == old(db)[n := Updated(old(db)[n], number, t, a, accepted)]
      ensures networkHashDirty == (old(networkHashDirty) || !Spurious(old(db)[n], number, a))
      ensures forall x | x in cache && x != n :: x in old(cache) && cache[x] == old(cache)[x]
    {
      NodeSet(n, number, t, a, accepted);
      assert told == Reachable();
    }

    /** Keep a hash that came with the data. */
    method KeepHash(n: NodeId, hash: Hash)
      requires Valid() && n in db && hash == hashOf(db[n].container)
      modifies this`cache
      ensures Valid() && cache == old(cache)[n := HashCache(hash, false)]
    {
      HashesFitAfter(db, cache, hashOf, n, db[n], HashCache(hash, false));
      assert db == db[n := db[n]];
      cache := cache[n := HashCache(hash, false)];
    }

    /** Store data that was received with its hash (src/dncp_proto.c:527-534). */
    method StoreReceived(n: NodeId, number: nat, t: int, blob: B, hash: Hash, accepted: bool)
      requires Valid() && n in db && hash == hashOf(Some(blob))
      modifies this`db, this`cache, this`subs, this`graphDirty, this`networkHashDirty
      ensures Valid() && Reachable() == old(Reachable()) && subs.Keys == old(subs.Keys)
      ensures db == old(db)[n := Updated(old(db)[n], number, t, Some(blob), accepted)]
      ensures cache[n] == HashCache(hash, false) && forall x | x in old(cache) && x != n ::
        x in cache && cache[x] == old(cache)[x]
    {
      UpdateNode(n, number, t, Some(blob), accepted);
      KeepHash(n, hash);
    }

    // ---------- reachability ----------

    /** _node_set_reachable (src/dncp_timeout.c:80-99) */
    method NodeSetReachable(n: NodeId, value: bool, now: int)
      requires Counted() && Fresh(db, stamp, lastPrune, told, n)
      modifies this`subs, this`stamp, this`networkHashDirty, this`told
      ensures Counted()
      ensures subs.Keys == old(subs.Keys)
      ensures told == if value then old(told) + {n} else old(told) - {n}
      ensures stamp == if value then old(stamp)[n := now] else old(stamp)
      ensures networkHashDirty == (old(networkHashDirty) || ((n in old(told)) != value))
    {
      if (stamp[n] == lastPrune) != value {
        networkHashDirty := true;
        Retell(n, value);
      }
      if value {
        stamp := stamp[n := now];
      }
    }

    /** Tell of all TLVs of a node that comes or goes. */
    method Retell(n: NodeId, value: bool)
      requires Counted() && n in db && ((n in told) != value)
      modifies this`subs, this`told
      ensures Counted() && subs.Keys == old(subs.Keys) && told == if value then old(told) + {n} else old(told) - {n}
    {
      ghost var subs0, told0, told1 := subs, told, if value then told + {n} else told - {n};
      if value {
        Tell(n, [], ValidTlvs(tlvs, db[n]));
      } else {
        Tell(n, ValidTlvs(tlvs, db[n]), []);
      }
      ToldShows(tlvs, subs0, db, told0, subs, db, told1, n, left, astray);
      told := told1;
    }

    /** dncp_node_find_neigh_bidir (src/dncp_i.h:340-363) */
    method FindNeighBidir(n: NodeId, p: Peer) returns (r: Option<NodeId>)
      ensures r.Some? ==> r.value == p.node
      ensures r.Some? <==> p.node in db && Peer(n, p.ep, p.peerEp) in peers(db[p.node].container)
    {
      if p.node !in db {
        return None;
      }
      var list := peers(db[p.node].container);
      for j := 0 to |list|
        invariant forall k | 0 <= k < j :: list[k] != Peer(n, p.ep, p.peerEp)
      {
        if p.ep == list[j].peerEp && p.peerEp == list[j].ep && list[j].node == n {
          assert list[j] == Peer(n, p.ep, p.peerEp);
          return Some(p.node);
        }
      }
      return None;
    }

    /** What holds of a running prune between any two of its steps */
    ghost predicate InPrune()
      reads this
    {
      && SameNodes(db, stamp, version) && Counted()
      && Marks(version, treeVersion, seen) && AllFresh(db, stamp, lastPrune, told, seen)
    }

    /** _prune_rec (src/dncp_timeout.c:101-132) */
    method PruneRec(n: NodeId, now: int)
      requires InPrune() && now != lastPrune
      modifies this`version, this`stamp, this`subs, this`told, this`networkHashDirty, this`seen
      ensures InPrune()
      ensures Filled(db, peers, now, n, old(seen), seen) && subs.Keys == old(subs.Keys)
      ensures Later(old(stamp), old(told), old(networkHashDirty), old(seen), stamp, told, networkHashDirty, seen, now)
      decreases db.Keys - seen, 1
    {
      if n !in db || version[n] == treeVersion || now >= db[n].expiration {
        return;
      }
      ghost var stamp0, told0, dirty0, seen0 := stamp, told, networkHashDirty, seen;
      Mark(n, now);
      ghost var stamp1, told1, dirty1, seen1 := stamp, told, networkHashDirty, seen;
      FillStart(db, peers, now, n, seen0);
      FollowPeers(n, now, seen0);
      FillEnd(db, peers, now, n, seen0, seen);
      LaterIsTransitive(stamp0, told0, dirty0, seen0, stamp1, told1, dirty1, seen1,
                        stamp, told, networkHashDirty, seen, now);
    }

    /** Take n over into the current version and make it reachable. */
    method Mark(n: NodeId, now: int)
      requires InPrune() && now != lastPrune
      requires n in db && n !in seen
      modifies this`version, this`stamp, this`subs, this`told, this`networkHashDirty, this`seen
      ensures InPrune()
      ensures seen == old(seen) + {n} && subs.Keys == old(subs.Keys)
      ensures Later(old(stamp), old(told), old(networkHashDirty), old(seen), stamp, told, networkHashDirty, seen, now)
    {
      NodeSetReachable(n, true, now);
      version, seen := version[n := treeVersion], seen + {n};
    }

    /** The loop over the peers of n. */
    method FollowPeers(n: NodeId, now: int, ghost before: set<NodeId>)
      requires InPrune() && now != lastPrune
      requires Alive(db, now, n) && Filling(db, peers, now, n, before, seen, 0)
      modifies this`version, this`stamp, this`subs, this`told, this`networkHashDirty, this`seen
      ensures InPrune()
      ensures Filling(db, peers, now, n, before, seen, |peers(db[n].container)|) && subs.Keys == old(subs.Keys)
      ensures Later(old(stamp), old(told), old(networkHashDirty), old(seen), stamp, told, networkHashDirty, seen, now)
      decreases db.Keys - seen, 2
    {
      var list := peers(db[n].container);
      var i := 0;
      while i < |list|
        invariant i <= |list|
        invariant InPrune()
        invariant Filling(db, peers, now, n, before, seen, i) && subs.Keys == old(subs.Keys)
        invariant Later(old(stamp), old(told), old(networkHashDirty), old(seen), stamp, told, networkHashDirty, seen,
                        now)
      {
        ghost var stamp1, told1, dirty1, seen1 := stamp, told, networkHashDirty, seen;
        var m := FindNeighBidir(n, list[i]);
        if m.Some? {
          assert db.Keys - seen <= db.Keys - old(seen);
          PruneRec(m.value, now);
          LaterIsTransitive(old(stamp), old(told), old(networkHashDirty), old(seen),
                            stamp1, told1, dirty1, seen1, stamp, told, networkHashDirty, seen, now);
        }
        FillPeer(db, peers, now, n, before, seen1, i, seen);
        i := i + 1;
      }
    }

    /** The loop over the nodes that were not reached (src/dncp_timeout.c:153-167): within the
        grace interval they are kept, but no longer reachable. */
    method GraceNodes(now: int) returns (ghost kept: set<NodeId>)
      requires InPrune()
      modifies this`version, this`stamp, this`subs, this`told, this`networkHashDirty, this`seen
      ensures stamp == old(stamp)
      ensures kept == InGrace(db, stamp, old(seen), now - grace) && seen == old(seen) + kept
      ensures InPrune()
      ensures told == old(told) - kept && subs.Keys == old(subs.Keys)
      ensures !networkHashDirty ==> !old(networkHashDirty) && kept !! old(told)
    {
      kept := {};
      ghost var stamp0, seen0, told0, dirty0 := stamp, seen, told, networkHashDirty;
      var todo := db.Keys;
      while todo != {}
        invariant todo <= db.Keys && kept == InGrace(db, stamp0, seen0, now - grace) - todo
        invariant Graced(stamp0, seen0, told0, dirty0, kept) && subs.Keys == old(subs.Keys)
        decreases todo
      {
        var n := Least(todo);
        if version[n] != treeVersion && stamp[n] >= now - grace {
          GraceOne(n, now, stamp0, seen0, told0, dirty0, kept);
          kept := kept + {n};
        }
        todo := todo - {n};
      }
    }

    /** The nodes in kept are marked, and no longer reachable. */
    ghost predicate Graced(stamp0: map<NodeId, int>, seen0: set<NodeId>, told0: set<NodeId>, dirty0: bool,
                           kept: set<NodeId>)
      reads this
    {
      && InPrune() && stamp == stamp0 && seen == seen0 + kept && told == told0 - kept
      && (!networkHashDirty ==> !dirty0 && kept !! told0)
    }

    method GraceOne(n: NodeId, now: int, ghost stamp0: map<NodeId, int>, ghost seen0: set<NodeId>,
                    ghost told0: set<NodeId>,
                    ghost dirty0: bool, ghost kept: set<NodeId>)
      requires Graced(stamp0, seen0, told0, dirty0, kept) && n in db && n !in seen
      modifies this`version, this`stamp, this`subs, this`told, this`networkHashDirty, this`seen
      ensures Graced(stamp0, seen0, told0, dirty0, kept + {n}) && subs.Keys == old(subs.Keys)
    {
      NodeSetReachable(n, false, now);
      version, seen := version[n := treeVersion], seen + {n};
    }

    /** vlist_flush: nodes of an older version go. */
    method FlushNodes() returns (ghost dropped: set<NodeId>)
      requires InPrune() && HashesFit(db, cache, hashOf)
      modifies this`db, this`stamp, this`version, this`cache, this`subs, this`told, this`networkHashDirty,
               this`graphDirty, this`left
      ensures dropped == old(db).Keys - seen && db == old(db) - dropped && stamp == old(stamp) - dropped
      ensures InPrune() && HashesFit(db, cache, hashOf) && told == old(told) - dropped && subs.Keys == old(subs.Keys)
      ensures !networkHashDirty ==> !old(networkHashDirty) && dropped == {}
      ensures LeftGrew(tlvs, old(db), old(told), old(left), left, dropped)
    {
      var all := set n | n in db && version[n] != treeVersion;
      assert all == db.Keys - seen;
      NothingGone(tlvs, db, stamp, told, left);
      FlushThese(all, db, stamp, told, left);
      dropped := all;
    }

    method FlushThese(all: set<NodeId>, ghost db0: Database<B>, ghost stamp0: map<NodeId, int>,
                      ghost told0: set<NodeId>,
                      ghost left0: Leftovers)
      requires Flushed(db0, stamp0, told0, left0, {}) && all !! seen && all <= db0.Keys
      modifies this`db, this`stamp, this`version, this`cache, this`subs, this`told, this`networkHashDirty,
               this`graphDirty, this`left
      ensures Flushed(db0, stamp0, told0, left0, all) && subs.Keys == old(subs.Keys)
      ensures !networkHashDirty ==> !old(networkHashDirty) && all == {}
    {
      var todo := all;
      ghost var dropped: set<NodeId> := {};
      while todo != {}
        invariant todo !! dropped && todo + dropped == all
        invariant Flushed(db0, stamp0, told0, left0, dropped) && subs.Keys == old(subs.Keys)
        invariant !networkHashDirty ==> !old(networkHashDirty) && dropped == {}
        decreases todo
      {
        var n := Least(todo);
        FlushOne(n, db0, stamp0, told0, left0, dropped);
        todo, dropped := todo - {n}, dropped + {n};
      }
      assert dropped == all;
    }

    /** The dropped nodes are gone. */
    ghost predicate Flushed(db0: Database<B>, stamp0: map<NodeId, int>, told0: set<NodeId>, left0: Leftovers,
                            dropped: set<NodeId>)
      reads this
    {
      && InPrune() && HashesFit(db, cache, hashOf)
      && db == db0 - dropped && stamp == stamp0 - dropped && told == told0 - dropped
      && LeftGrew(tlvs, db0, told0, left0, left, dropped)
    }

    method FlushOne(n: NodeId, ghost db0: Database<B>, ghost stamp0: map<NodeId, int>, ghost told0: set<NodeId>,
                    ghost left0: Leftovers, ghost dropped: set<NodeId>)
      requires Flushed(db0, stamp0, told0, left0, dropped) && n in db0 && n !in dropped && n !in seen
      modifies this`db, this`stamp, this`version, this`cache, this`subs, this`told, this`networkHashDirty,
               this`graphDirty, this`left
      ensures Flushed(db0, stamp0, told0, left0, dropped + {n}) && subs.Keys == old(subs.Keys) && networkHashDirty
    {
      LeftStep(tlvs, db0, told0, left0, left, dropped, n);
      DropNode(n);
      WithoutBoth(db0, stamp0, told0, dropped, n);
    }

    /** dncp_prune (src/dncp_timeout.c:134-171).  The nodes connected to the own node over mutual
        links and unexpired nodes become the reachable ones; the others stay in the database only
        if they were reachable at or after now - grace; and subscribers are told all of this, except
        that they keep the TLVs of forgotten nodes that go. */
    method Prune(now: int)
      requires Valid() && now > lastPrune
      modifies this`db, this`stamp, this`version, this`cache, this`subs, this`told, this`networkHashDirty,
               this`graphDirty,
               this`seen, this`treeVersion, this`lastPrune, this`left
      ensures Valid() && lastPrune == now && subs.Keys == old(subs.Keys)
      ensures Pruned(old(db), peers, old(stamp), now, own, grace, db, Reachable())
      ensures Spreads(old(db), peers, now, own, Reachable())
      ensures forall n | n in stamp :: n in old(stamp) && stamp[n] == if n in Reachable() then now else old(stamp)[n]
      ensures LeftGrew(tlvs, old(db), old(told), old(left), left, old(db).Keys - db.Keys)
      ensures old(Clean()) ==> (Shows() <==> (subs.Keys == {} ||
        forall n | n in old(db) && Expendable(old(db), peers, old(stamp), now, own, grace, n) ::
          !Forgotten(tlvs, old(db), old(told), n)))
    {
      ghost var db0, told0, left0 := db, told, left;
      PruneAll(now);
      ConnectedSpreads(db0, peers, now, own, Reachable());
      if old(Clean()) {
        PruneShows(tlvs, subs, db0, told0, left0, db, told, left);
      }
    }

    method PruneAll(now: int)
      requires Valid() && now > lastPrune
      modifies this`db, this`stamp, this`version, this`cache, this`subs, this`told, this`networkHashDirty,
               this`graphDirty,
               this`seen, this`treeVersion, this`lastPrune, this`left
      ensures Valid() && lastPrune == now && subs.Keys == old(subs.Keys)
      ensures Pruned(old(db), peers, old(stamp), now, own, grace, db, Reachable())
      ensures forall n | n in stamp :: n in old(stamp) && stamp[n] == if n in Reachable() then now else old(stamp)[n]
      ensures LeftGrew(tlvs, old(db), old(told), old(left), left, old(db).Keys - db.Keys)
    {
      ghost var stamp0, told0 := stamp, told;
      Reach(now);
      Settle(now, stamp0, told0);
    }

    /** The nodes that the flood fill reaches are stamped and told about. */
    ghost predicate Reached(now: int, stamp0: map<NodeId, int>, told0: set<NodeId>)
      reads this
    {
      && InPrune() && HashesFit(db, cache, hashOf)
      && now > lastPrune && stamp0.Keys == db.Keys && told0 <= db.Keys && told == told0 + seen
      && (forall n | n in stamp0 :: stamp0[n] <= lastPrune)
      && Stamped(stamp0, stamp, seen, now)
      && (!networkHashDirty ==> seen <= told0)
      && (!networkHashDirty && !republish ==> networkHash == netHash(NetworkState(db, hashOf, told0)))
    }

    /** The flood fill from the own node. */
    method Reach(now: int)
      requires Valid() && now > lastPrune
      modifies this`version, this`stamp, this`subs, this`told, this`networkHashDirty, this`seen, this`treeVersion
      ensures Reached(now, old(stamp), old(told)) && subs.Keys == old(subs.Keys)
      ensures Pruned(db, peers, old(stamp), now, own, grace,
                     db - (db.Keys - (seen + InGrace(db, stamp, seen, now - grace))), seen)
    {
      ghost var stamp0 := stamp;
      Flood(now);
      PruneKeeps(db, peers, stamp0, stamp, now, own, grace, seen);
    }

    method Flood(now: int)
      requires Valid() && now > lastPrune
      modifies this`version, this`stamp, this`subs, this`told, this`networkHashDirty, this`seen, this`treeVersion
      ensures InPrune() && subs.Keys == old(subs.Keys)
      ensures forall n :: n in seen <==> Connected(db, peers, now, own, n)
      ensures Stamped(old(stamp), stamp, seen, now) && told == old(told) + seen
      ensures !networkHashDirty ==> !old(networkHashDirty) && seen <= old(told)
    {
      treeVersion, seen := treeVersion + 1, {};
      PruneRec(own, now);
      FillIsExact(db, peers, now, own, seen);
    }

    /** What happens to the nodes the fill did not mark. */
    method Sweep(now: int) returns (ghost kept: set<NodeId>, ghost dropped: set<NodeId>)
      requires InPrune() && HashesFit(db, cache, hashOf)
      modifies this`db, this`stamp, this`version, this`cache, this`subs, this`told, this`networkHashDirty,
               this`graphDirty,
               this`seen, this`left
      ensures kept == InGrace(old(db), old(stamp), old(seen), now - grace) && seen == old(seen) + kept
      ensures dropped == old(db).Keys - seen && db == old(db) - dropped && stamp == old(stamp) - dropped
      ensures InPrune() && HashesFit(db, cache, hashOf)
      ensures told == old(told) - kept - dropped && subs.Keys == old(subs.Keys)
      ensures !networkHashDirty ==> !old(networkHashDirty) && kept !! old(told) && dropped == {}
      ensures LeftGrew(tlvs, old(db), old(told), old(left), left, dropped)
    {
      ghost var db0, told0, left0 := db, told, left;
      kept := GraceNodes(now);
      ghost var told1 := told;
      dropped := FlushNodes();
      SameLost(tlvs, db0, told1, told0, left0, left, dropped);
    }

    method Settle(now: int, ghost stamp0: map<NodeId, int>, ghost told0: set<NodeId>)
      requires Reached(now, stamp0, told0)
      modifies this`db, this`stamp, this`version, this`cache, this`subs, this`told, this`networkHashDirty,
               this`graphDirty,
               this`seen, this`lastPrune, this`left
      ensures LeftGrew(tlvs, old(db), told0, old(left), left, old(db).Keys - db.Keys)
      ensures Valid() && lastPrune == now && Reachable() == old(seen) && subs.Keys == old(subs.Keys)
      ensures forall n | n in stamp :: n in stamp0 && stamp[n] == if n in Reachable() then now else stamp0[n]
      ensures db == old(db) - (old(db).Keys - (old(seen) + InGrace(old(db), old(stamp), old(seen), now - grace)))
    {
      ghost var db0, marked, told1, left0 := db, seen, told, left;
      ghost var kept, dropped := Sweep(now);
      assert dropped == db0.Keys - db.Keys;
      SameLost(tlvs, db0, told1, told0, left0, left, dropped);
      EndPrune(now, db0, stamp0, told0, marked, kept, dropped);
    }

    method EndPrune(now: int, ghost db0: Database<B>, ghost stamp0: map<NodeId, int>, ghost told0: set<NodeId>,
                    ghost marked: set<NodeId>, ghost kept: set<NodeId>, ghost dropped: set<NodeId>)
      requires SameNodes(db, stamp, version) && HashesFit(db, cache, hashOf) && Counted()
      requires Marks(version, treeVersion, seen)
      requires now > lastPrune && stamp0.Keys == db0.Keys && told0 <= db0.Keys && marked <= db0.Keys
      requires forall n | n in stamp0 :: stamp0[n] <= lastPrune
      requires forall n | n in stamp :: n in stamp0 && stamp[n] == if n in marked then now else stamp0[n]
      requires dropped == db0.Keys - (marked + kept) && db == db0 - dropped
      requires seen == marked + kept && marked !! kept && told == told0 + marked - kept - dropped
      requires !networkHashDirty ==> dropped == {} && kept !! told0 && marked <= told0
      requires !networkHashDirty && !republish ==> networkHash == netHash(NetworkState(db0, hashOf, told0))
      modifies this`lastPrune
      ensures Valid() && lastPrune == now && Reachable() == marked
    {
      lastPrune := now;
      assert Reachable() == marked;
      assert told == marked;
      if !networkHashDirty {
        assert told0 == marked && db == db0;
      }
    }

    // ---------- the network hash ----------

    /** dncp_calculate_node_data_hash (src/dncp.c:541-554) */
    method CalculateNodeDataHash(n: NodeId)
      requires HashesFit(db, cache, hashOf) && n in db
      modifies this`cache
      ensures HashesFit(db, cache, hashOf) && cache[n].value == hashOf(db[n].container)
    {
      if !cache[n].dirty {
        return;
      }
      cache := cache[n := HashCache(hashOf(db[n].container), false)];
    }

    /** The loop that fills the buffer to hash (src/dncp.c:573-583) */
    method CollectStates(order: seq<NodeId>) returns (buf: seq<(nat, Hash)>)
      requires HashesFit(db, cache, hashOf) && forall k | 0 <= k < |order| :: order[k] in db
      modifies this`cache
      ensures HashesFit(db, cache, hashOf) && |buf| == |order|
      ensures forall k | 0 <= k < |order| :: buf[k] == (db[order[k]].number, hashOf(db[order[k]].container))
    {
      buf := [];
      for i := 0 to |order|
        invariant HashesFit(db, cache, hashOf) && |buf| == i
        invariant forall k | 0 <= k < i :: buf[k] == (db[order[k]].number, hashOf(db[order[k]].container))
      {
        CalculateNodeDataHash(order[i]);
        buf := buf + [(db[order[i]].number, cache[order[i]].value)];
      }
    }

    /** dncp_calculate_network_hash (src/dncp.c:556-593) */
    method CalculateNetworkHash()
      requires Valid()
      modifies this`cache, this`networkHash, this`networkHashDirty
      ensures Valid() && !networkHashDirty
      ensures old(networkHashDirty) || !republish ==> networkHash == netHash(NetworkState(db, hashOf, Reachable()))
    {
      if !networkHashDirty {
        return;
      }
      var order := Ascending(Reachable());
      AscendingIs(Reachable());
      assert forall k | 0 <= k < |order| :: order[k] in order;
      var buf := CollectStates(order);
      assert buf == NetworkState(db, hashOf, Reachable());
      networkHash := netHash(buf);
      networkHashDirty := false;
    }

    // ---------- own data ----------

    /** dncp_self_flush (src/dncp.c:509-533); `first` and `second` are what _produce_new_tlvs gives
        before and after subscribers hear that republishing is near. */
    method SelfFlush(first: Option<B>, second: Option<B>, now: int, accepted: bool) returns (flushed: bool)
      requires Valid() && own in db
      modifies this`db, this`cache, this`subs, this`graphDirty, this`networkHashDirty, this`republish
      ensures Valid() && own in db && subs.Keys == old(subs.Keys) && !republish
      ensures Reachable() == old(Reachable()) && (flushed ==> now != 0 ==> db[own].expiration == now + LIFETIME)
      ensures flushed <==> first.Some? || old(republish)
      ensures db == if flushed then old(db)[own := db[own]] else old(db)
      ensures flushed ==> db[own].number == (old(db)[own].number + 1) % 0x1_0000_0000
      ensures flushed ==>
        db[own].container == if second.Some? then second else if first.Some? then first else old(db)[own].container
    {
      if first.None? && !republish {
        return false;
      }
      republish := false;
      var a := if second.Some? then second else if first.Some? then first else db[own].container;
      UpdateNode(own, (db[own].number + 1) % 0x1_0000_0000, now, a, accepted);
      return true;
    }

    /** Take another update number, to be published with the next flush (src/dncp_proto.c:515-519). */
    method SkipTo(number: nat)
      requires Valid() && own in db
      modifies this`db, this`republish, this`collided
      ensures Valid() && republish && collided && db == old(db)[own := old(db)[own].(number := number)]
    {
      ghost var d := db[own].(number := number);
      SameShown(tlvs, subs, db, told, db[own := d], told, left, astray);
      HashesFitAfter(db, cache, hashOf, own, d, cache[own]);
      assert cache == cache[own := cache[own]];
      SetNumber(number);
      assert Reachable() == told;
    }

    method SetNumber(number: nat)
      requires own in db
      modifies this`db, this`republish, this`collided
      ensures republish && collided && db == old(db)[own := old(db)[own].(number := number)]
    {
      db, republish, collided := db[own := db[own].(number := number)], true, true;
    }

    /** dncp_set_own_node_id (src/dncp.c:244-265).  The node of the new identifier is made reachable
        without a word to the subscribers, and the old node may be a forgotten one. */
    method SetOwnNodeId(id: NodeId)
      requires Valid() && own in db
      modifies this`db, this`stamp, this`version, this`cache, this`subs, this`told, this`networkHashDirty,
               this`graphDirty, this`left,
               this`own, this`astray
      ensures Valid() && own == id && Reachable() == old(Reachable()) - {old(own)} + {id} && subs.Keys == old(subs.Keys)
      ensures db == if id in old(db) && id != old(own) then old(db) - {old(own)}
                    else (old(db) - {old(own)})[id := NodeData(0, None, false, 0, 0)]
      ensures left == LeftAfter(tlvs, old(db), old(told), old(left), old(own))
      ensures astray == if id != old(own) && Unannounced(tlvs, old(db), old(told), id)
        then old(astray) + {id}
        else old(astray)
      ensures old(Clean()) ==> (Shows() <==> (subs.Keys == {} ||
        (!Forgotten(tlvs, old(db), old(told), old(own)) && (id == old(own) || !Unannounced(tlvs, old(db), old(told),
                                                                                           id)))))
    {
      ghost var own0, db0, told0, left0 := own, db, told, left;
      Replace(id);
      if old(Clean()) {
        OwnShows(tlvs, subs, db0, told0, own0, left0, db, told, id, left);
      }
      assert Unannounced(tlvs, db, told, id) <==> id != own0 && Unannounced(tlvs, db0, told0, id);
      MakeOwn(id);
    }

    /** The own node goes, and there is a node of the new identifier. */
    method Replace(id: NodeId)
      requires Valid() && own in db
      modifies this`db, this`stamp, this`version, this`cache, this`subs, this`told, this`networkHashDirty,
               this`graphDirty, this`left
      ensures Valid() && networkHashDirty && subs.Keys == old(subs.Keys)
      ensures db == if id in old(db) && id != old(own) then old(db) - {old(own)}
                    else (old(db) - {old(own)})[id := NodeData(0, None, false, 0, 0)]
      ensures told == old(told) - {own} && Reachable() == old(Reachable()) - {own}
      ensures left == LeftAfter(tlvs, old(db), old(told), old(left), own)
    {
      DeleteNode(own);
      if id !in db {
        CreateNode(id);
      }
    }

    /** vlist_delete */
    method DeleteNode(n: NodeId)
      requires Valid() && n in db
      modifies this`db, this`stamp, this`version, this`cache, this`subs, this`told, this`networkHashDirty,
               this`graphDirty, this`left
      ensures Valid() && networkHashDirty && subs.Keys == old(subs.Keys)
      ensures db == old(db) - {n} && told == old(told) - {n} && Reachable() == old(Reachable()) - {n}
      ensures left == LeftAfter(tlvs, old(db), old(told), old(left), n)
    {
      DropNode(n);
      assert told == Reachable();
    }

    method MakeOwn(id: NodeId)
      requires Valid() && id in db && networkHashDirty
      modifies this`own, this`stamp, this`told, this`astray
      ensures Valid() && own == id && told == old(told) + {id} && Reachable() == old(Reachable()) + {id}
      ensures astray == AstrayAfter(tlvs, db, old(told), old(astray), id)
    {
      Announced(tlvs, subs, db, told, id, left, astray);
      Adopt(id, AstrayAfter(tlvs, db, told, astray, id));
      assert told == Reachable();
    }

    method Adopt(id: NodeId, ghost astray': set<NodeId>)
      modifies this`own, this`stamp, this`told, this`astray
      ensures own == id && stamp == old(stamp)[id := lastPrune] && told == old(told) + {id} && astray == astray'
    {
      own, stamp, told, astray := id, stamp[id := lastPrune], told + {id}, astray';
    }

    // ---------- subscribing ----------

    /** dncp_subscribe (src/dncp_notify.c:33-53): the new subscriber is right at once. */
    method Subscribe(s: SubId)
      requires Valid() && s !in subs
      modifies this`subs, this`left
      ensures Valid() && subs.Keys == old(subs.Keys) + {s} && left == old(left)[s := map[]]
      ensures Exact(tlvs, db, told, subs[s]) && subs == old(subs)[s := subs[s]]
    {
      var view := TellEverything(tlvs, db, Reachable());
      Join(s, view);
    }

    method Join(s: SubId, view: View)
      requires Valid() && Exact(tlvs, db, told, view)
      modifies this`subs, this`left
      ensures Valid() && subs == old(subs)[s := view] && left == old(left)[s := map[]]
    {
      ShowOneMore(tlvs, subs, db, told, s, view, left, astray);
      subs, left := subs[s := view], left[s := map[]];
    }

    /** dncp_unsubscribe (src/dncp_notify.c:58-78): in the end only leftovers are left. */
    method Unsubscribe(s: SubId) returns (rest: View)
      requires Valid() && s in subs
      modifies this`subs, this`left
      ensures Valid() && subs == old(subs) - {s} && left == old(left) - {s}
      ensures forall id | id !in astray :: HeldFor(rest, id) == HeldFor(old(left)[s], id)
    {
      HeldBySub(tlvs, subs, db, told, left, astray, s);
      rest := TakeEverythingBack(tlvs, db, Reachable(), subs[s], left[s], astray);
      Part(s);
    }

    method Part(s: SubId)
      requires Valid()
      modifies this`subs, this`left
      ensures Valid() && subs == old(subs) - {s} && left == old(left) - {s}
    {
      ShowOneLess(tlvs, subs, db, told, s, left, astray);
      subs, left := subs - {s}, left - {s};
    }
  }

  lemma ShowOneMore<B>(tlvs: Reader<B>, subs: map<SubId, View>, db: Database<B>, told: set<NodeId>, s: SubId,
                       view: View,
                       left: Leftovers, astray: set<NodeId>)
    requires Accounted(tlvs, subs, db, told, left, astray)
    requires Exact(tlvs, db, told, view)
    ensures Accounted(tlvs, subs[s := view], db, told, left[s := map[]], astray)
  {
    var more, left' := subs[s := view], left[s := map[]];
    forall x, id | x in more && id !in astray
      ensures HeldFor(more[x], id) == Shown(tlvs, db, told, id) + HeldFor(left'[x], id)
    {
      if x == s {
        assert HeldFor(left'[s], id) == multiset{};
      } else {
        assert HeldFor(subs[x], id) == Shown(tlvs, db, told, id) + HeldFor(left[x], id);
      }
    }
  }

  lemma ShowOneLess<B>(tlvs: Reader<B>, subs: map<SubId, View>, db: Database<B>, told: set<NodeId>, s: SubId,
                       left: Leftovers, astray: set<NodeId>)
    requires Accounted(tlvs, subs, db, told, left, astray)
    ensures Accounted(tlvs, subs - {s}, db, told, left - {s}, astray)
  {
    var less, left' := subs - {s}, left - {s};
    forall x, id | x in less && id !in astray
      ensures HeldFor(less[x], id) == Shown(tlvs, db, told, id) + HeldFor(left'[x], id)
    {
      assert HeldFor(subs[x], id) == Shown(tlvs, db, told, id) + HeldFor(left[x], id);
    }
  }

  /** tlv_change_cb for every TLV of a list, one by one */
  method TellEach(held: multiset<Tlv>, list: seq<Tlv>, add: bool) returns (held': multiset<Tlv>)
    ensures held' == Replay(held, Events(list, add))
  {
    held' := held;
    ghost var events := Events(list, add);
    for i := 0 to |list|
      invariant held' == Replay(held, events[..i])
    {
      ReplayNext(held, events, i);
      held' := Heard(held', Event(list[i], add));
    }
    ReplayAll(held, events);
  }

  /** The subscriber holds the valid TLVs of the nodes in live, and its leftovers. */
  ghost predicate Holding<B>(tlvs: Reader<B>, db: Database<B>, live: set<NodeId>, view: View, left: View,
                             astray: set<NodeId>) {
    forall id | id !in astray :: HeldFor(view, id) == Shown(tlvs, db, live, id) + HeldFor(left, id)
  }

  /** What a new subscriber is told: all valid TLVs of the nodes in live. */
  method TellEverything<B>(tlvs: Reader<B>, db: Database<B>, live: set<NodeId>) returns (view: View)
    requires live <= db.Keys
    ensures Exact(tlvs, db, live, view)
  {
    view := map[];
    ghost var done: set<NodeId> := {};
    var todo := live;
    while todo != {}
      invariant todo <= live && done == live - todo && Holding(tlvs, db, done, view, map[], {})
      decreases todo
    {
      var n := Least(todo);
      var held := TellEach(HeldFor(view, n), ValidTlvs(tlvs, db[n]), true);
      HoldsMore(tlvs, db, done, view, n, held);
      view, todo, done := view[n := held], todo - {n}, done + {n};
    }
    HoldsAll(tlvs, db, done, live, view);
  }

  lemma HoldsMore<B>(tlvs: Reader<B>, db: Database<B>, done: set<NodeId>, view: View, n: NodeId, held: multiset<Tlv>)
    requires n in db && n !in done && held == Replay(HeldFor(view, n), Events(ValidTlvs(tlvs, db[n]), true))
    requires Holding(tlvs, db, done, view, map[], {})
    ensures Holding(tlvs, db, done + {n}, view[n := held], map[], {})
  {
    var view' := view[n := held];
    forall id ensures HeldFor(view', id) == Shown(tlvs, db, done + {n}, id) + HeldFor(map[], id) {
      assert HeldFor(view, id) == Shown(tlvs, db, done, id) + HeldFor(map[], id);
      HoldsMoreOf(tlvs, db, done, view, n, held, id);
    }
  }

  lemma HoldsMoreOf<B>(tlvs: Reader<B>, db: Database<B>, done: set<NodeId>, view: View, n: NodeId, held: multiset<Tlv>,
                       id: NodeId)
    requires n in db && n !in done && held == Replay(HeldFor(view, n), Events(ValidTlvs(tlvs, db[n]), true))
    requires HeldFor(view, id) == Shown(tlvs, db, done, id)
    ensures HeldFor(view[n := held], id) == Shown(tlvs, db, done + {n}, id)
  {
    if id == n {
      assert Shown(tlvs, db, done, n) == multiset{};
      ReplayAdds(multiset{}, ValidTlvs(tlvs, db[n]));
    }
  }

  lemma HoldsAll<B>(tlvs: Reader<B>, db: Database<B>, done: set<NodeId>, live: set<NodeId>, view: View)
    requires done == live && Holding(tlvs, db, done, view, map[], {})
    ensures Exact(tlvs, db, live, view)
  {
    forall id ensures HeldFor(view, id) == Shown(tlvs, db, live, id) {
      assert HeldFor(view, id) == Shown(tlvs, db, done, id) + HeldFor(map[], id);
    }
  }

  /** What a subscriber is left with once all it was told is taken back */
  method TakeEverythingBack<B>(tlvs: Reader<B>, db: Database<B>, live: set<NodeId>, view: View, ghost left: View,
                               ghost astray: set<NodeId>)
    returns (rest: View)
    requires live <= db.Keys && Holding(tlvs, db, live, view, left, astray)
    ensures forall id | id !in astray :: HeldFor(rest, id) == HeldFor(left, id)
  {
    rest := view;
    var todo := live;
    while todo != {}
      invariant todo <= live && Holding(tlvs, db, todo, rest, left, astray)
      decreases todo
    {
      var n := Least(todo);
      var held := TellEach(HeldFor(rest, n), ValidTlvs(tlvs, db[n]), false);
      HoldsLess(tlvs, db, todo, rest, n, held, left, astray);
      rest, todo := rest[n := held], todo - {n};
    }
    forall id | id !in astray ensures HeldFor(rest, id) == HeldFor(left, id) {
      assert HeldFor(rest, id) == Shown(tlvs, db, {}, id) + HeldFor(left, id);
    }
  }

  lemma TakenBack(left: multiset<Tlv>, list: seq<Tlv>)
    ensures Replay(multiset(list) + left, Events(list, false)) == left
  {
    ReplayRemoves(multiset(list) + left, list);
    InItsPlace(multiset(list), left, multiset{});
  }

  lemma HeldBySub<B>(tlvs: Reader<B>, subs: map<SubId, View>, db: Database<B>, told: set<NodeId>, left: Leftovers,
                     astray: set<NodeId>, s: SubId)
    requires Accounted(tlvs, subs, db, told, left, astray) && s in subs
    ensures Holding(tlvs, db, told, subs[s], left[s], astray)
  {
  }

  lemma HoldsLess<B>(tlvs: Reader<B>, db: Database<B>, todo: set<NodeId>, view: View, n: NodeId, held: multiset<Tlv>,
                     left: View, astray: set<NodeId>)
    requires n in db && n in todo && held == Replay(HeldFor(view, n), Events(ValidTlvs(tlvs, db[n]), false))
    requires Holding(tlvs, db, todo, view, left, astray)
    ensures Holding(tlvs, db, todo - {n}, view[n := held], left, astray)
  {
    var view' := view[n := held];
    forall id | id !in astray ensures HeldFor(view', id) == Shown(tlvs, db, todo - {n}, id) + HeldFor(left, id) {
      HoldsLessOf(tlvs, db, todo, view, n, held, left, id);
    }
  }

  lemma HoldsLessOf<B>(tlvs: Reader<B>, db: Database<B>, todo: set<NodeId>, view: View, n: NodeId, held: multiset<Tlv>,
                       left: View, id: NodeId)
    requires n in db && n in todo && held == Replay(HeldFor(view, n), Events(ValidTlvs(tlvs, db[n]), false))
    requires HeldFor(view, id) == Shown(tlvs, db, todo, id) + HeldFor(left, id)
    ensures HeldFor(view[n := held], id) == Shown(tlvs, db, todo - {n}, id) + HeldFor(left, id)
  {
    if id == n {
      TakenBack(HeldFor(left, n), ValidTlvs(tlvs, db[n]));
      NoneShown(tlvs, db, todo, n);
    } else {
      assert HeldFor(view[n := held], id) == HeldFor(view, id);
      assert Shown(tlvs, db, todo - {n}, id) == Shown(tlvs, db, todo, id);
    }
  }

  lemma NoneShown<B>(tlvs: Reader<B>, db: Database<B>, todo: set<NodeId>, n: NodeId)
    ensures Shown(tlvs, db, todo - {n}, n) == multiset{}
  {
  }

  /** The version says which nodes the running prune has marked. */
  ghost predicate Marks(version: map<NodeId, int>, treeVersion: int, seen: set<NodeId>) {
    seen <= version.Keys && forall n | n in version :: version[n] == treeVersion <==> n in seen
  }

  /** Unmarked nodes are stamped as before the prune. */
  ghost predicate AllFresh<B>(db: Database<B>, stamp: map<NodeId, int>, lastPrune: int, told: set<NodeId>,
                              seen: set<NodeId>) {
    forall n | n in db && n !in seen :: Fresh(db, stamp, lastPrune, told, n)
  }

  /** The stamps of the nodes marked since are now, the others' are what they were. */
  ghost predicate Stamped(stamp: map<NodeId, int>, stamp': map<NodeId, int>, marked: set<NodeId>, now: int) {
    && stamp'.Keys == stamp.Keys
    && forall n | n in stamp' :: stamp'[n] == if n in marked then now else stamp[n]
  }

  /** Unmarked nodes that were reachable recently enough. */
  ghost function InGrace<B>(db: Database<B>, stamp: map<NodeId, int>, seen: set<NodeId>, after: int): set<NodeId> {
    set n | n in db && n in stamp && n !in seen && stamp[n] >= after
  }

  /** A prune lets n go: it is not connected, and was last reachable before the grace interval. */
  ghost predicate Expendable<B>(db: Database<B>, peers: PeerReader<B>, stamp: map<NodeId, int>, now: int, own: NodeId,
                                grace: int, n: NodeId)
  {
    n in stamp && stamp[n] < now - grace && !Connected(db, peers, now, own, n)
  }

  /** The outcome of a prune: the reachable nodes are the connected ones, and the nodes that were
      neither connected nor recently reachable are gone. */
  ghost predicate Pruned<B>(db: Database<B>, peers: PeerReader<B>, stamp: map<NodeId, int>, now: int, own: NodeId,
                            grace: int, db': Database<B>, live: set<NodeId>)
  {
    && (forall n :: n in live <==> Connected(db, peers, now, own, n))
    && (forall n :: n in db' <==> n in db && !Expendable(db, peers, stamp, now, own, grace, n))
    && (forall n | n in db' :: db'[n] == db[n])
  }

  lemma PruneKeeps<B>(db: Database<B>, peers: PeerReader<B>, stamp0: map<NodeId, int>, stamp: map<NodeId, int>,
                      now: int,
                      own: NodeId, grace: int, marked: set<NodeId>)
    requires Stamped(stamp0, stamp, marked, now) && db.Keys == stamp.Keys
    requires forall n :: n in marked <==> Connected(db, peers, now, own, n)
    ensures Pruned(db, peers, stamp0, now, own, grace,
                   db - (db.Keys - (marked + InGrace(db, stamp, marked, now - grace))), marked)
  {
  }

  /** From one such point to a later one: newly marked nodes are stamped and told about, and if
      that changed what is reachable the network hash is dirty. */
  ghost predicate Later(stamp: map<NodeId, int>, told: set<NodeId>, dirty: bool, seen: set<NodeId>,
                        stamp': map<NodeId, int>, told': set<NodeId>, dirty': bool, seen': set<NodeId>, now: int)
  {
    && seen <= seen' && Stamped(stamp, stamp', seen' - seen, now)
    && told' == told + (seen' - seen)
    && (!dirty' ==> !dirty && seen' - seen <= told)
  }

  lemma LaterIsTransitive(stamp: map<NodeId, int>, told: set<NodeId>, dirty: bool, seen: set<NodeId>,
                          stamp1: map<NodeId, int>, told1: set<NodeId>, dirty1: bool, seen1: set<NodeId>,
                          stamp2: map<NodeId, int>, told2: set<NodeId>, dirty2: bool, seen2: set<NodeId>, now: int)
    requires Later(stamp, told, dirty, seen, stamp1, told1, dirty1, seen1, now)
    requires Later(stamp1, told1, dirty1, seen1, stamp2, told2, dirty2, seen2, now)
    ensures Later(stamp, told, dirty, seen, stamp2, told2, dirty2, seen2, now)
  {
  }

  lemma WithoutBoth<B>(db: Database<B>, stamp: map<NodeId, int>, told: set<NodeId>, dropped: set<NodeId>, n: NodeId)
    ensures db - dropped - {n} == db - (dropped + {n})
    ensures stamp - dropped - {n} == stamp - (dropped + {n})
    ensures told - dropped - {n} == told - (dropped + {n})
  {
  }

  lemma HashesFitWithout<B>(db: Database<B>, cache: map<NodeId, HashCache>, hashOf: Option<B> -> Hash, n: NodeId)
    requires HashesFit(db, cache, hashOf)
    ensures HashesFit(db - {n}, cache - {n}, hashOf)
  {
  }

  /** Taking n away once dncp_node_set has cleared it, or has overlooked it */
  lemma DropAccounts<B>(tlvs: Reader<B>, subs: map<SubId, View>, before: Database<B>, db: Database<B>,
                        told: set<NodeId>, n: NodeId, left: Leftovers, astray: set<NodeId>)
    requires n in before && Accounted(tlvs, subs, db, told, left, astray)
    requires db == before[n := Updated(before[n], 0, 0, None, false)]
    ensures Accounted(tlvs, subs, db - {n}, told - {n}, LeftAfter(tlvs, before, told, left, n), astray)
  {
    var left' := LeftAfter(tlvs, before, told, left, n);
    var db', told' := db - {n}, told - {n};
    forall s, id | s in subs && id !in astray
      ensures HeldFor(subs[s], id) == Shown(tlvs, db', told', id) + HeldFor(left'[s], id)
    {
      assert HeldFor(subs[s], id) == Shown(tlvs, db, told, id) + HeldFor(left[s], id);
      if id == n {
        DropMoves(tlvs, before, db, told, left, n, s);
      }
    }
  }

  /** What is no longer shown is left over. */
  lemma DropMoves<B>(tlvs: Reader<B>, before: Database<B>, db: Database<B>, told: set<NodeId>, left: Leftovers,
                     n: NodeId, s: SubId)
    requires n in before && s in left && db == before[n := Updated(before[n], 0, 0, None, false)]
    ensures HeldFor(LeftAfter(tlvs, before, told, left, n)[s], n) == Shown(tlvs, db, told, n) + HeldFor(left[s], n)
  {
    if Forgotten(tlvs, before, told, n) {
      assert db[n] == before[n];
    } else {
      assert Shown(tlvs, db, told, n) == multiset{};
    }
  }

  /** What goes with the nodes in `gone` and is not taken back */
  ghost function Lost<B>(tlvs: Reader<B>, db: Database<B>, told: set<NodeId>, gone: set<NodeId>,
                         id: NodeId): multiset<Tlv> {
    if id in gone && id in db && Forgotten(tlvs, db, told, id) then multiset(ValidTlvs(tlvs, db[id])) else multiset{}
  }

  /** Every subscriber is left with the TLVs of the forgotten ones among the nodes that went. */
  ghost predicate LeftGrew<B>(tlvs: Reader<B>, db: Database<B>, told: set<NodeId>, left: Leftovers, left': Leftovers,
                              gone: set<NodeId>) {
    && left'.Keys == left.Keys
    && forall s, id {:trigger HeldFor(left'[s], id)} | s in left' ::
         HeldFor(left'[s], id) == HeldFor(left[s], id) + Lost(tlvs, db, told, gone, id)
  }

  lemma NothingGone<B>(tlvs: Reader<B>, db: Database<B>, stamp: map<NodeId, int>, told: set<NodeId>, left: Leftovers)
    ensures db == db - {} && stamp == stamp - {} && told == told - {} && LeftGrew(tlvs, db, told, left, left, {})
  {
  }

  lemma LeftStep<B>(tlvs: Reader<B>, db: Database<B>, told: set<NodeId>, left: Leftovers, left': Leftovers,
                    gone: set<NodeId>, n: NodeId)
    requires LeftGrew(tlvs, db, told, left, left', gone) && n in db && n !in gone
    ensures LeftGrew(tlvs, db, told, left, LeftAfter(tlvs, db - gone, told - gone, left', n), gone + {n})
  {
    var left2 := LeftAfter(tlvs, db - gone, told - gone, left', n);
    forall s, id | s in left2
      ensures HeldFor(left2[s], id) == HeldFor(left[s], id) + Lost(tlvs, db, told, gone + {n}, id)
    {
      assert HeldFor(left'[s], id) == HeldFor(left[s], id) + Lost(tlvs, db, told, gone, id);
      LeftStepOf(tlvs, db, told, left', gone, n, s, id);
    }
  }

  lemma LeftStepOf<B>(tlvs: Reader<B>, db: Database<B>, told: set<NodeId>, left: Leftovers, gone: set<NodeId>,
                      n: NodeId, s: SubId, id: NodeId)
    requires n in db && n !in gone && s in left
    ensures HeldFor(LeftAfter(tlvs, db - gone, told - gone, left, n)[s], id)
         == HeldFor(left[s], id) + if id == n then Lost(tlvs, db, told, {n}, n) else multiset{}
    ensures Lost(tlvs, db, told, gone + {n}, id) == if id == n
      then Lost(tlvs, db, told, {n}, n)
      else Lost(tlvs, db, told, gone, id)
    ensures Lost(tlvs, db, told, gone, n) == multiset{}
  {
    assert Forgotten(tlvs, db - gone, told - gone, n) <==> Forgotten(tlvs, db, told, n);
  }

  lemma SameLost<B>(tlvs: Reader<B>, db: Database<B>, told: set<NodeId>, told': set<NodeId>, left: Leftovers,
                    left': Leftovers,
                    gone: set<NodeId>)
    requires LeftGrew(tlvs, db, told, left, left', gone) && forall n | n in gone :: n in told <==> n in told'
    ensures LeftGrew(tlvs, db, told', left, left', gone)
  {
    forall s, id | s in left' ensures HeldFor(left'[s], id) == HeldFor(left[s], id) + Lost(tlvs, db, told', gone, id) {
      assert Lost(tlvs, db, told', gone, id) == Lost(tlvs, db, told, gone, id);
    }
  }

  /** A leftover shows. */
  lemma LeftoverShows<B>(tlvs: Reader<B>, subs: map<SubId, View>, db: Database<B>, told: set<NodeId>, left: Leftovers,
                         astray: set<NodeId>, s: SubId, id: NodeId)
    requires Accounted(tlvs, subs, db, told, left, astray) && s in subs && id !in astray
    requires HeldFor(left[s], id) != multiset{}
    ensures !AllShow(tlvs, subs, db, told)
  {
    if AllShow(tlvs, subs, db, told) {
      assert HeldFor(subs[s], id) == Shown(tlvs, db, told, id) + HeldFor(left[s], id);
      SumIsFirst(HeldFor(subs[s], id), Shown(tlvs, db, told, id), HeldFor(left[s], id));
    }
  }

  lemma PruneShows<B>(tlvs: Reader<B>, subs: map<SubId, View>, db: Database<B>, told: set<NodeId>, left: Leftovers,
                      db': Database<B>, told': set<NodeId>, left': Leftovers)
    requires NothingLeft(left) && Accounted(tlvs, subs, db', told', left', {})
    requires LeftGrew(tlvs, db, told, left, left', db.Keys - db'.Keys)
    ensures AllShow(tlvs, subs, db', told') <==>
      subs.Keys == {} || forall n | n in db && n !in db' :: !Forgotten(tlvs, db, told, n)
  {
    ShowsIff(tlvs, subs, db', told', left');
    LeftIffLost(tlvs, db, told, left, left', db.Keys - db'.Keys);
  }

  lemma LeftIffLost<B>(tlvs: Reader<B>, db: Database<B>, told: set<NodeId>, left: Leftovers, left': Leftovers,
                       gone: set<NodeId>)
    requires NothingLeft(left) && LeftGrew(tlvs, db, told, left, left', gone) && gone <= db.Keys
    ensures NothingLeft(left') <==> left'.Keys == {} || forall n | n in gone :: !Forgotten(tlvs, db, told, n)
  {
    forall s, id | s in left' ensures HeldFor(left'[s], id) == Lost(tlvs, db, told, gone, id) {
      assert HeldFor(left'[s], id) == HeldFor(left[s], id) + Lost(tlvs, db, told, gone, id);
    }
    if n :| n in gone && Forgotten(tlvs, db, told, n) {
      if s :| s in left' {
        assert HeldFor(left'[s], n) == Lost(tlvs, db, told, gone, n) != multiset{};
      }
    }
  }

  /** A new own identifier, for subscribers that were right before */
  lemma OwnShows<B>(tlvs: Reader<B>, subs: map<SubId, View>, db: Database<B>, told: set<NodeId>, own: NodeId,
                    left: Leftovers,
                    db': Database<B>, told': set<NodeId>, id: NodeId, left': Leftovers)
    requires NothingLeft(left) && own in db && id in db' && told' == told - {own} && told <= db.Keys
    requires db' == if id in db && id != own then db - {own} else (db - {own})[id := NodeData(0, None, false, 0, 0)]
    requires left' == LeftAfter(tlvs, db, told, left, own) && Accounted(tlvs, subs, db', told', left', {})
    ensures AllShow(tlvs, subs, db', told' + {id}) <==> (subs.Keys == {} ||
      (!Forgotten(tlvs, db, told, own) && (id == own || !Unannounced(tlvs, db, told, id))))
  {
    Announced(tlvs, subs, db', told', id, left', {});
    assert Unannounced(tlvs, db', told', id) <==> id != own && Unannounced(tlvs, db, told, id);
    if Forgotten(tlvs, db, told, own) {
      if s :| s in subs {
        assert HeldFor(left'[s], own) == HeldFor(left[s], own) + multiset(ValidTlvs(tlvs, db[own])) != multiset{};
        assert own !in AstrayAfter(tlvs, db', told', {}, id);
        LeftoverShows(tlvs, subs, db', told' + {id}, left', AstrayAfter(tlvs, db', told', {}, id), s, own);
      }
    } else {
      ShowsIff(tlvs, subs, db', told', left');
    }
  }
}
