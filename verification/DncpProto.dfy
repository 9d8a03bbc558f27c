/**
  Receiving node states (src/dncp_proto.c:467-550): the serially newest data wins, and a node
  that hears of data it never published under its own identifier moves past it.
 */
module DncpProto {
  import opened Wrappers
  import opened DncpGraph
  import opened DncpModel

  // update numbers are 32 bits wide
  const WRAP := 0x1_0000_0000
  const HALF := 0x8000_0000

  /** dncp_update_number_gt(a, b): b is newer than a (src/dncp_util.h:52-53) */
  predicate Newer(a: nat, b: nat) {
    (a - b) % WRAP >= HALF
  }

  /** What follows the fixed part of a node state TLV: nothing, fewer bytes than a TLV header
      (which tlv_put_raw does not take), or data */
  datatype Payload<B> = Missing | TooShort(dataHash: Hash) | Data(blob: B)

  type UpdateNumber = n: nat | n < 0x1_0000_0000

  datatype NodeState<B> = NodeState(node: NodeId, number: UpdateNumber, age: nat, hash: Hash, payload: Payload<B>)

  /** The number is new, or the data is not what we think it is (src/dncp_proto.c:479-484). */
  predicate Interesting<B>(db: Database<B>, cache: map<NodeId, HashCache>, m: NodeState<B>)
    requires db.Keys == cache.Keys
  {
    m.node !in db || Newer(db[m.node].number, m.number)
    || (m.number == db[m.node].number && cache[m.node].value != m.hash)
  }

  /** The data comes with its own hash. */
  predicate Intact<B>(hashOf: Option<B> -> Hash, m: NodeState<B>) {
    match m.payload
    case Missing => false
    case TooShort(h) => h == m.hash
    case Data(blob) => hashOf(Some(blob)) == m.hash
  }

  function EntryOf<B>(db: Database<B>, n: NodeId): NodeData<B> {
    if n in db then db[n] else NodeData(0, None, false, 0, 0)
  }

  /** The database once m, with data fit for use, has been handled. */
  function Received<B(==)>(db: Database<B>, m: NodeState<B>, now: int, accepted: bool): Database<B>
    requires m.payload.Data?
  {
    db[m.node := Updated(EntryOf(db, m.node), m.number, now - m.age, Some(m.payload.blob), accepted)]
  }

  /** In the fields: nothing is known of the node, the number is up to 2^31 ahead of the stored one, or it
      is the same and the hash differs. */
  ghost predicate IsNews<B>(db: Database<B>, cache: map<NodeId, HashCache>, m: NodeState<B>)
    requires db.Keys == cache.Keys
  {
    || m.node !in db
    || 0 < (m.number - db[m.node].number) % 0x1_0000_0000 <= 0x8000_0000
    || (m.number == db[m.node].number && m.hash != cache[m.node].value)
  }

  lemma InterestingIsNews<B>(db: Database<B>, cache: map<NodeId, HashCache>, m: NodeState<B>)
    requires db.Keys == cache.Keys
    ensures Interesting(db, cache, m) <==> IsNews(db, cache, m)
  {
    if m.node in db {
      Ahead(db[m.node].number, m.number);
    }
  }

  lemma Ahead(a: nat, b: nat)
    ensures Newer(a, b) <==> 0 < (b - a) % 0x1_0000_0000 <= 0x8000_0000
  {
    var k, r := (b - a) / WRAP, (b - a) % WRAP;
    assert a - b == -r + WRAP * -k;
    SameRemainder(-r, -k);
    if r > 0 {
      assert (-r) % WRAP == WRAP - r;
    }
  }

  /** In the fields, what a node state about another node leaves behind: news that come with their own
      hash are stored, with number, times and hash, and nothing else changes.  A header without data
      makes a node known, if it was not. */
  ghost predicate Learns<B>(db: Database<B>, cache: map<NodeId, HashCache>, hashOf: Option<B> -> Hash, m: NodeState<B>,
                            takesData: bool, now: int, accepted: bool, db': Database<B>,
                            cache': map<NodeId, HashCache>)
    requires db.Keys == cache.Keys && db'.Keys == cache'.Keys
  {
    && (forall n | n != m.node :: (n in db' <==> n in db) && (n in db ==> db'[n] == db[n] && cache'[n] == cache[n]))
    && if IsNews(db, cache, m) && takesData && m.payload.Data? && hashOf(Some(m.payload.blob)) == m.hash then
         Stores(db, m, m.payload.blob, now, accepted, db') && cache'[m.node] == HashCache(m.hash, false)
       else if m.node !in db && takesData && m.payload == TooShort(m.hash) then
         m.node in db' && db'[m.node] == NodeData(0, None, false, 0, 0)
       else
         && (m.node in db' <==> m.node in db)
         && (m.node in db ==> db'[m.node] == db[m.node] && cache'[m.node] == cache[m.node])
  }

  ghost predicate Stores<B>(db: Database<B>, m: NodeState<B>, blob: B, now: int, accepted: bool, db': Database<B>) {
    var same := m.node in db && db[m.node].container == Some(blob);
    && m.node in db' && db'[m.node].number == m.number && db'[m.node].container == Some(blob)
    && db'[m.node].valid == (if same then db[m.node].valid else accepted)
    && (now != m.age && !(same && db[m.node].number == m.number) ==>
          db'[m.node].origination == now - m.age && db'[m.node].expiration == now - m.age + 0xffff_8000)
  }

  /** The DNCP_T_NODE_STATE case for another node (src/dncp_proto.c:467-550) */
  method HandleOther<B>(d: Dncp<B>, m: NodeState<B>, takesData: bool, now: int, accepted: bool) returns (request: bool)
    requires d.Valid() && m.node != d.own
    modifies d`db, d`stamp, d`version, d`cache, d`subs, d`networkHashDirty, d`graphDirty
    ensures d.Valid() && d.Reachable() == old(d.Reachable()) && d.subs.Keys == old(d.subs.Keys)
    ensures request <==> Interesting(old(d.db), old(d.cache), m) && (m.payload.Missing? || !takesData)
    ensures if Interesting(old(d.db), old(d.cache), m) && takesData && Intact(d.hashOf, m) && m.payload.Data?
            then d.db == Received(old(d.db), m, now, accepted) && d.cache[m.node] == HashCache(m.hash, false)
                 && forall n | n in old(d.cache) && n != m.node :: d.cache[n] == old(d.cache)[n]
            else if m.node !in old(d.db) && takesData && Intact(d.hashOf, m)
            then d.db == old(d.db)[m.node := NodeData(0, None, false, 0, 0)]
                 && d.cache == old(d.cache)[m.node := HashCache(0, true)]
            else d.db == old(d.db) && d.cache == old(d.cache) && d.networkHashDirty == old(d.networkHashDirty)
  {
    request := false;
    if !Interesting(d.db, d.cache, m) {
      return;
    }
    if m.payload.Missing? || !takesData {
      return true;
    }
    if !Intact(d.hashOf, m) {
      return;
    }
    StoreOther(d, m, now, accepted);
  }

  /** Data fit for use (src/dncp_proto.c:506-541) */
  method StoreOther<B>(d: Dncp<B>, m: NodeState<B>, now: int, accepted: bool)
    requires d.Valid() && m.node != d.own && Intact(d.hashOf, m)
    modifies d`db, d`stamp, d`version, d`cache, d`subs, d`networkHashDirty, d`graphDirty
    ensures d.Valid() && d.Reachable() == old(d.Reachable()) && d.subs.Keys == old(d.subs.Keys)
    ensures if m.payload.Data?
            then d.db == Received(old(d.db), m, now, accepted) && d.cache[m.node] == HashCache(m.hash, false)
                 && forall n | n in old(d.cache) && n != m.node :: d.cache[n] == old(d.cache)[n]
            else if m.node !in old(d.db)
            then d.db == old(d.db)[m.node := NodeData(0, None, false, 0, 0)]
                 && d.cache == old(d.cache)[m.node := HashCache(0, true)]
            else d.db == old(d.db) && d.cache == old(d.cache) && d.networkHashDirty == old(d.networkHashDirty)
  {
    FindOrCreate(d, m.node);
    if m.payload.Data? {
      d.StoreReceived(m.node, m.number, now - m.age, m.payload.blob, m.hash, accepted);
      WrittenOnce(old(d.db), m.node, EntryOf(old(d.db), m.node), d.db[m.node]);
    }
  }

  lemma WrittenOnce<B>(db: Database<B>, n: NodeId, x: NodeData<B>, y: NodeData<B>)
    ensures db[n := x][n := y] == db[n := y]
  {
  }

  /** dncp_find_node_by_node_id with create set (src/dncp.c:195-218) */
  method FindOrCreate<B>(d: Dncp<B>, n: NodeId)
    requires d.Valid()
    modifies d`db, d`stamp, d`version, d`cache, d`networkHashDirty, d`graphDirty
    ensures d.Valid() && d.Reachable() == old(d.Reachable()) && d.db == old(d.db)[n := EntryOf(old(d.db), n)]
    ensures forall x | x in old(d.cache) :: x in d.cache && d.cache[x] == old(d.cache)[x]
    ensures n in old(d.db) ==> d.cache == old(d.cache) && d.networkHashDirty == old(d.networkHashDirty)
    ensures n !in old(d.db) ==> d.cache == old(d.cache)[n := HashCache(0, true)]
  {
    if n !in d.db {
      d.CreateNode(n);
    } else {
      assert d.db == d.db[n := d.db[n]];
    }
  }

  /** In the fields, what a collision leaves behind: the number 999 past the received one, or, when it
      is not the first and an identifier is drawn, that identifier in place of the old one. */
  ghost predicate Collides<B>(db: Database<B>, own: NodeId, again: bool, number: nat, drawn: Option<NodeId>,
                              db': Database<B>, own': NodeId) {
    && own' in db' && db'.Keys == db.Keys - {own} + {own'}
    && (forall n | n in db' && n != own' :: n in db && db'[n] == db[n])
    && if again && drawn.Some? then own' == drawn.value
       else own' == own && own in db && db'[own] == db[own].(number := (number + 999) % 0x1_0000_0000)
  }

  /** Data under the own identifier that is newer than ours (src/dncp_proto.c:509-521): the first
      time, the own number jumps past the received one; from the second time on, handle_collision
      draws a new identifier, or declines, and then the number jumps again. */
  method Collide<B>(d: Dncp<B>, number: nat, drawn: Option<NodeId>)
    requires d.Valid() && d.own in d.db && number < WRAP
    modifies d
    ensures d.Valid() && d.own in d.db && d.collided && d.subs.Keys == old(d.subs.Keys)
    ensures Collides(old(d.db), old(d.own), old(d.collided), number, drawn, d.db, d.own)
    ensures if old(d.collided) && drawn.Some?
            then d.Reachable() == old(d.Reachable()) - {old(d.own)} + {drawn.value}
                 && (drawn.value !in old(d.db) ==> d.db[drawn.value] == NodeData(0, None, false, 0, 0))
            else d.republish
  {
    if d.collided && drawn.Some? {
      d.SetOwnNodeId(drawn.value);
    } else {
      d.SkipTo((number + 1000 - 1) % WRAP);
    }
  }

  /** Unless a new identifier is drawn, the next flush publishes a number newer than the received one. */
  method CollideAndFlush<B>(d: Dncp<B>, number: nat, drawn: Option<NodeId>, first: Option<B>, second: Option<B>,
                            now: int, accepted: bool)
    requires d.Valid() && d.own in d.db && number < WRAP && (d.collided ==> drawn.None?)
    modifies d
    ensures d.Valid() && d.own == old(d.own) && d.own in d.db && Newer(number, d.db[d.own].number)
  {
    ghost var jumped := (number + 999) % WRAP;
    JumpIsNewer(number, jumped);
    Collide(d, number, drawn);
    assert d.own == old(d.own) && d.db[d.own].number == jumped;
    var flushed := d.SelfFlush(first, second, now, accepted);
  }

  lemma JumpIsNewer(number: nat, jumped: nat)
    requires number < WRAP && jumped == (number + 999) % WRAP
    ensures Newer(number, (jumped + 1) % WRAP)
  {
  }

  /** The whole DNCP_T_NODE_STATE case: other nodes' data is stored, data under the own identifier
      is a collision, which also ends the handling of the message. */
  method HandleNodeState<B>(d: Dncp<B>, m: NodeState<B>, takesData: bool, now: int, accepted: bool,
                            drawn: Option<NodeId>)
    returns (request: bool, stop: bool)
    requires d.Valid() && (m.node == d.own ==> d.own in d.db)
    modifies d
    ensures d.Valid() && (old(d.own in d.db) ==> d.own in d.db)
    ensures request <==> IsNews(old(d.db), old(d.cache), m) && (m.payload.Missing? || !takesData)
    ensures stop <==> m.node == old(d.own) && IsNews(old(d.db), old(d.cache), m) && takesData && Intact(d.hashOf, m)
    ensures stop ==> Collides(old(d.db), old(d.own), old(d.collided), m.number, drawn, d.db, d.own) && d.collided
    ensures stop && !(old(d.collided) && drawn.Some?) ==> d.republish
    ensures !stop ==> d.own == old(d.own) && (d.own in d.db ==> d.own in old(d.db) && d.db[d.own] == old(d.db)[d.own])
    ensures m.node == old(d.own) && !stop ==> d.db == old(d.db) && d.cache == old(d.cache)
    ensures m.node != old(d.own) ==>
      Learns(old(d.db), old(d.cache), d.hashOf, m, takesData, now, accepted, d.db, d.cache)
  {
    InterestingIsNews(d.db, d.cache, m);
    if m.node != d.own {
      ghost var db, cache := d.db, d.cache;
      request := HandleOther(d, m, takesData, now, accepted);
      HandledIsLearned(db, cache, d.hashOf, m, takesData, now, accepted, d.db, d.cache);
      return request, false;
    }
    request, stop := HandleOwn(d, m, takesData, drawn);
  }

  /** Data under the own identifier */
  method HandleOwn<B>(d: Dncp<B>, m: NodeState<B>, takesData: bool, drawn: Option<NodeId>)
    returns (request: bool, stop: bool)
    requires d.Valid() && d.own in d.db && m.node == d.own
    modifies d
    ensures d.Valid() && d.own in d.db
    ensures request <==> Interesting(old(d.db), old(d.cache), m) && (m.payload.Missing? || !takesData)
    ensures stop <==> Interesting(old(d.db), old(d.cache), m) && takesData && Intact(d.hashOf, m)
    ensures stop ==> Collides(old(d.db), old(d.own), old(d.collided), m.number, drawn, d.db, d.own) && d.collided
    ensures stop && !(old(d.collided) && drawn.Some?) ==> d.republish
    ensures !stop ==> d.own == old(d.own) && d.db == old(d.db) && d.cache == old(d.cache)
  {
    if !Interesting(d.db, d.cache, m) {
      return false, false;
    }
    if m.payload.Missing? || !takesData {
      return true, false;
    }
    if !Intact(d.hashOf, m) {
      return false, false;
    }
    Collide(d, m.number, drawn);
    return false, true;
  }

  lemma HandledIsLearned<B>(db: Database<B>, cache: map<NodeId, HashCache>, hashOf: Option<B> -> Hash, m: NodeState<B>,
                            takesData: bool, now: int, accepted: bool, db': Database<B>,
                            cache': map<NodeId, HashCache>)
    requires db.Keys == cache.Keys && db'.Keys == cache'.Keys
    requires if Interesting(db, cache, m) && takesData && Intact(hashOf, m) && m.payload.Data?
             then db' == Received(db, m, now, accepted) && cache'[m.node] == HashCache(m.hash, false)
                  && forall n | n in cache && n != m.node :: cache'[n] == cache[n]
             else if m.node !in db && takesData && Intact(hashOf, m)
             then db' == db[m.node := NodeData(0, None, false, 0, 0)] && cache' == cache[m.node := HashCache(0, true)]
             else db' == db && cache' == cache
    ensures Learns(db, cache, hashOf, m, takesData, now, accepted, db', cache')
  {
    InterestingIsNews(db, cache, m);
  }

  // ---------- what a series of node states leaves behind ----------

  /** An update number and the data published under it */
  datatype Offer<B> = Offer(number: nat, blob: B)

  /** What is known of n before and during a series of messages: the stored data, and the data of
      the intact messages about n. */
  ghost function Offers<B>(db: Database<B>, hashOf: Option<B> -> Hash, ms: seq<NodeState<B>>,
                           n: NodeId): set<Offer<B>> {
    (if n in db && db[n].container.Some? then {Offer(db[n].number, db[n].container.value)} else {})
    + (set m | m in ms && m.node == n && m.payload.Data? && Intact(hashOf, m) :: Offer(m.number, m.payload.blob))
  }

  /** All numbers are less than half the number space ahead of base. */
  ghost predicate Windowed<B>(s: set<Offer<B>>, base: nat) {
    forall x | x in s :: x.number < WRAP && (x.number - base) % WRAP < HALF
  }

  /** A number names one blob. */
  ghost predicate OneBlob<B>(s: set<Offer<B>>) {
    forall x, y | x in s && y in s && x.number == y.number :: x.blob == y.blob
  }

  ghost predicate Newest<B>(s: set<Offer<B>>, x: Offer<B>) {
    x in s && forall y | y in s :: !Newer(x.number, y.number)
  }

  /** Within a window the comparison is that of the distances from its start. */
  lemma NewerInWindow(a: nat, b: nat, base: nat)
    requires a < WRAP && b < WRAP && (a - base) % WRAP < HALF && (b - base) % WRAP < HALF
    ensures Newer(a, b) <==> (a - base) % WRAP < (b - base) % WRAP
    ensures (a - base) % WRAP == (b - base) % WRAP ==> a == b
  {
    var x, y := (a - base) % WRAP, (b - base) % WRAP;
    assert (a - b) % WRAP == (x - y) % WRAP by {
      var i, j := (a - base) / WRAP, (b - base) / WRAP;
      assert a - b == (x - y) + WRAP * (i - j);
      SameRemainder(x - y, i - j);
    }
    if x == y {
      assert (a - b) % WRAP == 0;
    }
  }

  lemma SameRemainder(x: int, k: int)
    ensures (x + WRAP * k) % WRAP == x % WRAP
  {
  }

  lemma NewestIsUnique<B>(s: set<Offer<B>>, base: nat, x: Offer<B>, y: Offer<B>)
    requires Windowed(s, base) && OneBlob(s) && Newest(s, x) && Newest(s, y)
    ensures x == y
  {
    NewerInWindow(x.number, y.number, base);
    NewerInWindow(y.number, x.number, base);
  }

  /** Hearing of one more offer: it replaces the newest one, or not. */
  lemma NewestStep<B>(s: set<Offer<B>>, base: nat, x: Offer<B>, o: Offer<B>)
    requires Windowed(s + {o}, base) && Newest(s, x)
    ensures Newest(s + {o}, if Newer(x.number, o.number) then o else x)
  {
    assert o in s + {o} && x in s + {o};
    NewerInWindow(x.number, o.number, base);
    forall y | y in s + {o} ensures !Newer((if Newer(x.number, o.number) then o else x).number, y.number) {
      NewerInWindow(x.number, y.number, base);
      NewerInWindow(o.number, y.number, base);
    }
  }

  lemma OffersGrow<B>(db: Database<B>, hashOf: Option<B> -> Hash, ms: seq<NodeState<B>>, m: NodeState<B>, n: NodeId)
    ensures Offers(db, hashOf, ms + [m], n) == Offers(db, hashOf, ms, n) +
      if m.node == n && m.payload.Data? && Intact(hashOf, m) then {Offer(m.number, m.payload.blob)} else {}
  {
  }

  /** The other nodes we know of are known with data and with its hash. */
  ghost predicate Learned<B>(db: Database<B>, cache: map<NodeId, HashCache>, own: NodeId) {
    forall n | n in db && n in cache && n != own :: db[n].container.Some? && !cache[n].dirty
  }

  /** What is stored for n is the newest of its offers. */
  ghost predicate Reflects<B>(db: Database<B>, offers: set<Offer<B>>, n: NodeId) {
    if n in db
      then db[n].container.Some? && Newest(offers, Offer(db[n].number, db[n].container.value))
      else offers == {}
  }

  /** One message, for the node it is about */
  lemma ReflectsStep<B>(db: Database<B>, cache: map<NodeId, HashCache>, hashOf: Option<B> -> Hash,
                        offers: set<Offer<B>>, m: NodeState<B>, now: int, accepted: bool, base: nat,
                        db': Database<B>, cache': map<NodeId, HashCache>)
    requires db.Keys == cache.Keys && db'.Keys == cache'.Keys && Reflects(db, offers, m.node)
    requires m.node in db ==> cache[m.node].value == hashOf(db[m.node].container)
    requires m.payload.Data? && hashOf(Some(m.payload.blob)) == m.hash
    requires Windowed(offers + {Offer(m.number, m.payload.blob)}, base)
    requires OneBlob(offers + {Offer(m.number, m.payload.blob)})
    requires Learns(db, cache, hashOf, m, true, now, accepted, db', cache')
    ensures Reflects(db', offers + {Offer(m.number, m.payload.blob)}, m.node)
  {
    var o, all := Offer(m.number, m.payload.blob), offers + {Offer(m.number, m.payload.blob)};
    assert o in all;
    if m.node !in db {
      assert all == {o};
      NewerInWindow(o.number, o.number, base);
    } else {
      var x := Offer(db[m.node].number, db[m.node].container.value);
      assert x in all;
      NewestStep(offers, base, x, o);
      NewerInWindow(x.number, o.number, base);
      Ahead(x.number, o.number);
    }
  }

  /** A series of node states about other nodes: for each node the serially newest data is stored,
      whatever the order and however often each message comes. */
  method HandleAll<B>(d: Dncp<B>, ms: seq<NodeState<B>>, nows: seq<int>, accepts: seq<bool>,
                      ghost bases: map<NodeId, nat>)
    requires d.Valid() && Learned(d.db, d.cache, d.own) && |nows| == |accepts| == |ms|
    requires forall i | 0 <= i < |ms| :: ms[i].node != d.own && !ms[i].payload.TooShort?
    requires forall n | n != d.own :: Fits(Offers(d.db, d.hashOf, ms, n), bases, n)
    modifies d
    ensures d.Valid() && d.own == old(d.own) && Learned(d.db, d.cache, d.own)
    ensures forall n | n != d.own :: Reflects(d.db, Offers(old(d.db), d.hashOf, ms, n), n)
  {
    ghost var db0 := d.db;
    forall n | n != d.own ensures Reflects(d.db, Offers(db0, d.hashOf, [], n), n) {
      if n in db0 {
        assert Offers(db0, d.hashOf, [], n) == {Offer(db0[n].number, db0[n].container.value)};
      }
    }
    for i := 0 to |ms|
      invariant d.Valid() && d.own == old(d.own) && Learned(d.db, d.cache, d.own)
      invariant forall n | n != d.own :: Reflects(d.db, Offers(db0, d.hashOf, ms[..i], n), n)
    {
      FitsSome(db0, d.hashOf, ms, i + 1, bases, d.own);
      HandleOne(d, db0, ms[..i], ms[i], ms[..i + 1], nows[i], accepts[i], bases);
    }
    assert ms[..|ms|] == ms;
  }

  /** The offers of n have numbers in one window and each number names one blob. */
  ghost predicate Fits<B>(s: set<Offer<B>>, bases: map<NodeId, nat>, n: NodeId) {
    s == {} || (n in bases && Windowed(s, bases[n]) && OneBlob(s))
  }

  lemma FitsSome<B>(db: Database<B>, hashOf: Option<B> -> Hash, ms: seq<NodeState<B>>, i: nat, bases: map<NodeId, nat>,
                    own: NodeId)
    requires 0 < i <= |ms| && forall n | n != own :: Fits(Offers(db, hashOf, ms, n), bases, n)
    ensures ms[..i] == ms[..i - 1] + [ms[i - 1]]
    ensures forall n | n != own :: Fits(Offers(db, hashOf, ms[..i], n), bases, n)
  {
    var some := ms[..i];
    forall n | n != own ensures Fits(Offers(db, hashOf, some, n), bases, n) {
      assert Offers(db, hashOf, some, n) <= Offers(db, hashOf, ms, n);
    }
  }

  method HandleOne<B>(d: Dncp<B>, ghost db0: Database<B>, ghost heard: seq<NodeState<B>>, m: NodeState<B>,
                      ghost now': seq<NodeState<B>>, now: int, accepted: bool, ghost bases: map<NodeId, nat>)
    requires d.Valid() && Learned(d.db, d.cache, d.own)
    requires m.node != d.own && !m.payload.TooShort? && now' == heard + [m]
    requires forall n | n != d.own :: Fits(Offers(db0, d.hashOf, now', n), bases, n)
    requires forall n | n != d.own :: Reflects(d.db, Offers(db0, d.hashOf, heard, n), n)
    modifies d
    ensures d.Valid() && d.own == old(d.own) && Learned(d.db, d.cache, d.own)
    ensures forall n | n != d.own :: Reflects(d.db, Offers(db0, d.hashOf, now', n), n)
  {
    ghost var db1, cache1 := d.db, d.cache;
    var request, stop := HandleNodeState(d, m, true, now, accepted, None);
    forall n | n != d.own ensures Reflects(d.db, Offers(db0, d.hashOf, now', n), n) {
      ReflectsNext(db0, db1, d.db, cache1, d.cache, d.hashOf, heard, m, now, accepted, bases, n);
    }
  }

  /** One message, for any node */
  lemma ReflectsNext<B>(db0: Database<B>, db: Database<B>, db': Database<B>, cache: map<NodeId, HashCache>,
                        cache': map<NodeId, HashCache>, hashOf: Option<B> -> Hash, heard: seq<NodeState<B>>,
                        m: NodeState<B>, now: int, accepted: bool, bases: map<NodeId, nat>, n: NodeId)
    requires db.Keys == cache.Keys && db'.Keys == cache'.Keys
    requires Reflects(db, Offers(db0, hashOf, heard, n), n) && !m.payload.TooShort?
    requires m.node in db ==> cache[m.node].value == hashOf(db[m.node].container)
    requires Fits(Offers(db0, hashOf, heard + [m], n), bases, n)
    requires Learns(db, cache, hashOf, m, true, now, accepted, db', cache')
    ensures Reflects(db', Offers(db0, hashOf, heard + [m], n), n)
  {
    OffersGrow(db0, hashOf, heard, m, n);
    if m.node == n && m.payload.Data? && Intact(hashOf, m) {
      ReflectsStep(db, cache, hashOf, Offers(db0, hashOf, heard, n), m, now, accepted, bases[n], db', cache');
    }
  }

  /** Nobody but n itself can tell the two databases apart by update numbers and data. */
  ghost predicate SameElsewhere<B>(db1: Database<B>, db2: Database<B>, n: NodeId) {
    forall x | x != n :: (x in db1 <==> x in db2) &&
      (x in db1 ==> db1[x].number == db2[x].number && db1[x].container == db2[x].container)
  }

  /** Two runs that hear the same messages, in any order and any number of times, store the same. */
  method HandleAllTwice<B>(d1: Dncp<B>, d2: Dncp<B>, ms1: seq<NodeState<B>>, ms2: seq<NodeState<B>>, nows1: seq<int>,
                           nows2: seq<int>, accepts1: seq<bool>, accepts2: seq<bool>, ghost bases: map<NodeId, nat>)
    requires d1 != d2 && d1.Valid() && d2.Valid() && d1.own == d2.own && d1.hashOf == d2.hashOf
    requires Learned(d1.db, d1.cache, d1.own) && Learned(d2.db, d2.cache, d2.own)
    requires |nows1| == |accepts1| == |ms1| && |nows2| == |accepts2| == |ms2|
    requires SameElsewhere(d1.db, d2.db, d1.own)
    requires forall m :: m in ms1 <==> m in ms2
    requires forall i | 0 <= i < |ms1| :: ms1[i].node != d1.own && !ms1[i].payload.TooShort?
    requires forall n | n != d1.own :: Fits(Offers(d1.db, d1.hashOf, ms1, n), bases, n)
    modifies d1, d2
    ensures d1.Valid() && d2.Valid() && d1.own == d2.own == old(d1.own) && SameElsewhere(d1.db, d2.db, d1.own)
  {
    ghost var a, b, own, hashOf := d1.db, d2.db, d1.own, d1.hashOf;
    forall n | n != own ensures Offers(a, hashOf, ms1, n) == Offers(b, hashOf, ms2, n) {
      SameOffers(a, b, hashOf, ms1, ms2, n);
    }
    forall i | 0 <= i < |ms2| ensures ms2[i].node != own && !ms2[i].payload.TooShort? {
      assert ms2[i] in ms1;
    }
    HandleAll(d1, ms1, nows1, accepts1, bases);
    HandleAll(d2, ms2, nows2, accepts2, bases);
    forall n | n != own
      ensures (n in d1.db <==> n in d2.db) &&
        (n in d1.db ==> d1.db[n].number == d2.db[n].number && d1.db[n].container == d2.db[n].container)
    {
      ReflectsUnique(d1.db, d2.db, Offers(a, hashOf, ms1, n), bases, n);
    }
  }

  lemma SameOffers<B>(db1: Database<B>, db2: Database<B>, hashOf: Option<B> -> Hash, ms1: seq<NodeState<B>>,
                      ms2: seq<NodeState<B>>, n: NodeId)
    requires forall m :: m in ms1 <==> m in ms2
    requires (n in db1 <==> n in db2) &&
      (n in db1 ==> db1[n].number == db2[n].number && db1[n].container == db2[n].container)
    ensures Offers(db1, hashOf, ms1, n) == Offers(db2, hashOf, ms2, n)
  {
  }

  lemma ReflectsUnique<B>(db1: Database<B>, db2: Database<B>, offers: set<Offer<B>>, bases: map<NodeId, nat>, n: NodeId)
    requires Reflects(db1, offers, n) && Reflects(db2, offers, n) && Fits(offers, bases, n)
    ensures (n in db1 <==> n in db2) &&
      (n in db1 ==> db1[n].number == db2[n].number && db1[n].container == db2[n].container)
  {
    if n in db1 && n in db2 {
      NewestIsUnique(offers, bases[n], Offer(db1[n].number, db1[n].container.value),
                     Offer(db2[n].number, db2[n].container.value));
    }
  }
}
