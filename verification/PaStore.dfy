/**
  The cache of assigned prefixes (src/pa_store.c:128-173, src/pa_store.c:210-329): every entry is
  in the recency list of the store and in the list of its link, and an entry does not know its
  link.  The link is found from the order of the two lists.
 */
module PaStoreModel {
  import opened Wrappers
  import opened FreeSpace
  import opened Sequences

  type EntryId = nat
  type StoreLinkId = nat

  /** struct pa_store_link; attached says that a pa_link uses it. */
  datatype StoreLink = StoreLink(name: string, max: nat, list: seq<EntryId>, n: nat, attached: bool)

  // ---------- the entries of one link ----------

  type Owners = map<EntryId, StoreLinkId>

  /** The subsequence of the entries that belong to l */
  function Of(s: seq<EntryId>, owner: Owners, l: StoreLinkId): seq<EntryId> {
    if s == [] then []
    else (if s[0] in owner && owner[s[0]] == l then [s[0]] else []) + Of(s[1..], owner, l)
  }

  lemma {:induction false} OfBoth(a: seq<EntryId>, b: seq<EntryId>, owner: Owners, l: StoreLinkId)
    ensures Of(a + b, owner, l) == Of(a, owner, l) + Of(b, owner, l)
    decreases |a|
  {
    if a == [] {
      assert a + b == b;
    } else {
      assert (a + b)[1..] == a[1..] + b;
      OfBoth(a[1..], b, owner, l);
    }
  }

  lemma {:induction false} OfIs(s: seq<EntryId>, owner: Owners, l: StoreLinkId)
    ensures forall x :: x in Of(s, owner, l) <==> x in s && x in owner && owner[x] == l
    ensures Distinct(s) ==> Distinct(Of(s, owner, l))
  {
    if s != [] {
      OfIs(s[1..], owner, l);
      var rest := Of(s[1..], owner, l);
      assert s == [s[0]] + s[1..];
      if s[0] in owner && owner[s[0]] == l {
        assert Of(s, owner, l) == [s[0]] + rest;
        forall x ensures x in Of(s, owner, l) <==> x in s && x in owner && owner[x] == l {
          assert x in [s[0]] + rest <==> x == s[0] || x in rest;
        }
        if Distinct(s) {
          forall j | 0 <= j < |rest| ensures s[0] != rest[j] {
            assert rest[j] in rest;
          }
        }
      } else {
        assert Of(s, owner, l) == rest;
      }
    }
  }

  lemma {:induction false} OfNone(s: seq<EntryId>, owner: Owners, l: StoreLinkId)
    requires forall x | x in s && x in owner :: owner[x] != l
    ensures Of(s, owner, l) == []
  {
    if s != [] {
      assert s[0] in s && forall x | x in s[1..] :: x in s;
      OfNone(s[1..], owner, l);
    }
  }

  /** The least recent entry of all is the least recent of its link. */
  lemma LastOfAll(s: seq<EntryId>, owner: Owners, l: StoreLinkId)
    requires s != [] && s[|s| - 1] in owner && owner[s[|s| - 1]] == l
    ensures var list := Of(s, owner, l); list != [] && list[|list| - 1] == s[|s| - 1]
  {
    var p := s[|s| - 1];
    assert s == s[..|s| - 1] + [p];
    OfBoth(s[..|s| - 1], [p], owner, l);
    assert Of([p], owner, l) == [p];
  }

  lemma {:induction false} OfRemove(s: seq<EntryId>, owner: Owners, l: StoreLinkId, x: EntryId)
    requires Distinct(s)
    ensures Of(Without(s, x), owner, l) == Without(Of(s, owner, l), x)
  {
    if s != [] {
      var rest := Of(s[1..], owner, l);
      OfRemove(s[1..], owner, l, x);
      if s[0] == x {
        OfIs(s[1..], owner, l);
        assert x !in rest;
        WithoutAbsent(rest, x);
        if s[0] in owner && owner[s[0]] == l {
          assert Of(s, owner, l) == [x] + rest;
        } else {
          assert Of(s, owner, l) == rest;
        }
      } else {
        var r := Without(s[1..], x);
        assert Without(s, x) == [s[0]] + r && ([s[0]] + r)[1..] == r;
        if s[0] in owner && owner[s[0]] == l {
          assert Of(s, owner, l) == [s[0]] + rest && ([s[0]] + rest)[1..] == rest;
        } else {
          assert Of(s, owner, l) == rest;
        }
      }
    }
  }

  /** What happens to entries that are not listed does not matter. */
  lemma {:induction false} OfSame(s: seq<EntryId>, owner: Owners, owner': Owners, l: StoreLinkId, l': StoreLinkId)
    requires forall x | x in s :: (x in owner && owner[x] == l) <==> (x in owner' && owner'[x] == l')
    ensures Of(s, owner, l) == Of(s, owner', l')
  {
    if s != [] {
      assert forall x | x in s[1..] :: x in s;
      OfSame(s[1..], owner, owner', l, l');
      assert s[0] in s;
    }
  }

  // ---------- invariants ----------

  type Links = map<StoreLinkId, StoreLink>

  /** Each link's list is the subsequence of the recency list that belongs to it, and its counter is
      the length. */
  ghost predicate ListsFit(all: seq<EntryId>, links: Links, owner: Owners) {
    && Distinct(all) && (forall x :: x in all <==> x in owner) && (forall x | x in owner :: owner[x] in links)
    && ListsAre(all, links, owner)
  }

  ghost predicate ListsAre(all: seq<EntryId>, links: Links, owner: Owners) {
    forall l | l in links :: links[l].list == Of(all, owner, l) && links[l].n == |links[l].list|
  }

  ghost predicate NamesDiffer(links: Links) {
    forall l, m | l in links && m in links && l != m :: links[l].name != links[m].name
  }

  ghost predicate WithinLimits(links: Links) {
    forall l | l in links && links[l].max > 0 :: links[l].n <= links[l].max
  }

  /** An entry leaves both lists; a private link that is left empty goes too. */
  function LinksWithout(links: Links, l: StoreLinkId, p: EntryId): Links
    requires l in links && links[l].n > 0
  {
    if links[l].n == 1 && !links[l].attached then links - {l}
    else links[l := links[l].(list := Without(links[l].list, p), n := links[l].n - 1)]
  }

  /** The lists without an entry */
  lemma RemovedFits(all: seq<EntryId>, links: Links, owner: Owners, p: EntryId)
    requires ListsFit(all, links, owner) && p in owner
    ensures var l := owner[p];
            && links[l].n > 0 && |Without(all, p)| == |all| - 1
            && ListsFit(Without(all, p), links[l := links[l].(list := Without(links[l].list, p), n := links[l].n - 1)],
                        owner - {p})
  {
    var l, owner' := owner[p], owner - {p};
    RemovedLinks(all, links, owner, p);
    var links' := links[l := links[l].(list := Without(links[l].list, p), n := links[l].n - 1)];
    RemovedOwners(all, owner, p);
    assert forall x | x in owner' :: owner'[x] in links';
  }

  lemma RemovedLinks(all: seq<EntryId>, links: Links, owner: Owners, p: EntryId)
    requires Distinct(all) && (forall x :: x in all <==> x in owner) && p in owner && owner[p] in links
    requires ListsAre(all, links, owner)
    ensures links[owner[p]].n > 0
    ensures var l := owner[p];
            var links' := links[l := links[l].(list := Without(links[l].list, p), n := links[l].n - 1)];
            ListsAre(Without(all, p), links', owner - {p})
  {
    var l := owner[p];
    RemovedLink(all, links[l], owner, p, l);
    var links' := links[l := links[l].(list := Without(links[l].list, p), n := links[l].n - 1)];
    forall m | m in links'
      ensures links'[m].list == Of(Without(all, p), owner - {p}, m) && links'[m].n == |links'[m].list|
    {
      RemovedLink(all, links[m], owner, p, m);
    }
  }

  /** The same for one link */
  lemma RemovedLink(all: seq<EntryId>, link: StoreLink, owner: Owners, p: EntryId, m: StoreLinkId)
    requires Distinct(all) && (forall x :: x in all <==> x in owner) && p in owner
    requires link.list == Of(all, owner, m) && link.n == |link.list|
    ensures m == owner[p] ==>
      && link.n > 0 && Without(link.list, p) == Of(Without(all, p), owner - {p}, m)
      && link.n - 1 == |Without(link.list, p)|
    ensures m != owner[p] ==> link.list == Of(Without(all, p), owner - {p}, m)
  {
    RemovedList(all, owner, p, m);
  }

  lemma RemovedOwners(all: seq<EntryId>, owner: Owners, p: EntryId)
    requires Distinct(all) && (forall x :: x in all <==> x in owner) && p in owner
    ensures var all', owner' := Without(all, p), owner - {p};
            Distinct(all') && |all'| == |all| - 1 && forall x :: x in all' <==> x in owner'
  {
    WithoutIs(all, p);
  }

  lemma RemovedList(all: seq<EntryId>, owner: Owners, p: EntryId, m: StoreLinkId)
    requires Distinct(all) && (forall x :: x in all <==> x in owner) && p in owner
    ensures var list := Of(all, owner, m);
            && Of(Without(all, p), owner - {p}, m) == (if m == owner[p] then Without(list, p) else list)
            && (m == owner[p] ==> |Without(list, p)| == |list| - 1)
  {
    var list := Of(all, owner, m);
    WithoutIs(all, p);
    OfIs(all, owner, m);
    OfRemove(all, owner, m, p);
    OfSame(Without(all, p), owner, owner - {p}, m, m);
    if m == owner[p] {
      WithoutIs(list, p);
    } else {
      WithoutAbsent(list, p);
    }
  }

  lemma UncachedFits(all: seq<EntryId>, links: Links, owner: Owners, p: EntryId)
    requires ListsFit(all, links, owner) && p in owner
    ensures links[owner[p]].n > 0 && |Without(all, p)| == |all| - 1
    ensures ListsFit(Without(all, p), LinksWithout(links, owner[p], p), owner - {p})
  {
    var l := owner[p];
    RemovedFits(all, links, owner, p);
    var links' := links[l := links[l].(list := Without(links[l].list, p), n := links[l].n - 1)];
    if links[l].n == 1 && !links[l].attached {
      EmptyLinkGoes(Without(all, p), links', owner - {p}, l);
      assert links' - {l} == links - {l};
    }
  }

  lemma EmptyLinkGoes(all: seq<EntryId>, links: Links, owner: Owners, l: StoreLinkId)
    requires ListsFit(all, links, owner) && l in links && links[l].n == 0
    ensures ListsFit(all, links - {l}, owner)
  {
    OfIs(all, owner, l);
    assert links[l].list == [];
    assert forall x | x in owner :: x in all;
  }

  /** Taking an entry out and putting it in front */
  lemma OutAndIn(links: Links, owner: Owners, l: StoreLinkId, p: EntryId, out: Links)
    requires l in links && links[l].n > 0 && p in owner && owner[p] == l
    requires out == links[l := links[l].(list := Without(links[l].list, p), n := links[l].n - 1)]
    ensures out[l := out[l].(list := [p] + out[l].list, n := out[l].n + 1)]
         == links[l := links[l].(list := [p] + Without(links[l].list, p))]
    ensures (owner - {p})[p := l] == owner
  {
  }

  /** Entry p is put in front of both lists. */
  lemma MovedFits(all: seq<EntryId>, links: Links, owner: Owners, p: EntryId)
    requires ListsFit(all, links, owner) && p in owner
    ensures var l := owner[p];
            ListsFit([p] + Without(all, p), links[l := links[l].(list := [p] + Without(links[l].list, p))], owner)
  {
    RemovedFits(all, links, owner, p);
    PutBackFits(Without(all, p), links, owner, p);
  }

  lemma PutBackFits(rest: seq<EntryId>, links: Links, owner: Owners, p: EntryId)
    requires p in owner && owner[p] in links && links[owner[p]].n > 0
    requires var l := owner[p];
             ListsFit(rest, links[l := links[l].(list := Without(links[l].list, p), n := links[l].n - 1)], owner - {p})
    ensures var l := owner[p];
            ListsFit([p] + rest, links[l := links[l].(list := [p] + Without(links[l].list, p))], owner)
  {
    var l := owner[p];
    var out := links[l := links[l].(list := Without(links[l].list, p), n := links[l].n - 1)];
    OutAndIn(links, owner, l, p, out);
    AddedFits(rest, out, owner - {p}, p, l);
  }

  /** A new entry p of link l is put in front of both lists. */
  lemma AddedFits(all: seq<EntryId>, links: Links, owner: Owners, p: EntryId, l: StoreLinkId)
    requires ListsFit(all, links, owner) && p !in owner && l in links
    ensures ListsFit([p] + all, links[l := links[l].(list := [p] + links[l].list, n := links[l].n + 1)], owner[p := l])
  {
    var all', owner' := [p] + all, owner[p := l];
    var links' := links[l := links[l].(list := [p] + links[l].list, n := links[l].n + 1)];
    AddedOwners(all, owner, p, l);
    forall m | m in links' ensures links'[m].list == Of(all', owner', m) && links'[m].n == |links'[m].list| {
      AddedList(all, owner, p, l, m);
    }
  }

  lemma AddedOwners(all: seq<EntryId>, owner: Owners, p: EntryId, l: StoreLinkId)
    requires Distinct(all) && (forall x :: x in all <==> x in owner) && p !in owner
    ensures Distinct([p] + all) && forall x :: x in [p] + all <==> x in owner[p := l]
  {
    forall x ensures x in [p] + all <==> x in owner[p := l] {
      assert x in [p] + all <==> x == p || x in all;
    }
    forall j | 0 <= j < |all| ensures all[j] != p {
      assert all[j] in all;
    }
  }

  lemma AddedList(all: seq<EntryId>, owner: Owners, p: EntryId, l: StoreLinkId, m: StoreLinkId)
    requires (forall x :: x in all <==> x in owner) && p !in owner
    ensures Of([p] + all, owner[p := l], m) == if m == l then [p] + Of(all, owner, m) else Of(all, owner, m)
  {
    OfSame(all, owner, owner[p := l], m, m);
    assert ([p] + all)[0] == p && ([p] + all)[1..] == all;
  }

  // ---------- a link takes over from another ----------

  function Renamed(owner: Owners, l: StoreLinkId, id: StoreLinkId): Owners {
    map x | x in owner :: if owner[x] == l then id else owner[x]
  }

  lemma TakeOverFits(all: seq<EntryId>, links: Links, owner: Owners, l: StoreLinkId, id: StoreLinkId, link: StoreLink)
    requires ListsFit(all, links, owner) && l in links && id !in links && link.list == links[l].list
    requires link.n == links[l].n
    ensures ListsFit(all, (links - {l})[id := link], Renamed(owner, l, id))
  {
    var links', owner' := (links - {l})[id := link], Renamed(owner, l, id);
    forall m | m in links' ensures links'[m].list == Of(all, owner', m) && links'[m].n == |links'[m].list| {
      if m == id {
        OfSame(all, owner, owner', l, id);
      } else {
        OfSame(all, owner, owner', m, m);
      }
    }
  }

  /** The entries that do not belong to l */
  ghost function Others(s: seq<EntryId>, owner: Owners, l: StoreLinkId): seq<EntryId> {
    if s == [] then [] else (if s[0] in owner && owner[s[0]] == l then [] else [s[0]]) + Others(s[1..], owner, l)
  }

  ghost function OwnersBut(owner: Owners, l: StoreLinkId): Owners {
    map x | x in owner && owner[x] != l :: owner[x]
  }

  /** The entries that are not listed in mine */
  function OthersThan(s: seq<EntryId>, mine: seq<EntryId>): seq<EntryId> {
    if s == [] then [] else (if s[0] in mine then [] else [s[0]]) + OthersThan(s[1..], mine)
  }

  lemma {:induction false} OthersAre(s: seq<EntryId>, owner: Owners, l: StoreLinkId)
    ensures forall x :: x in Others(s, owner, l) <==> x in s && !(x in owner && owner[x] == l)
    ensures Distinct(s) ==> Distinct(Others(s, owner, l))
    ensures |Others(s, owner, l)| + |Of(s, owner, l)| == |s|
  {
    if s != [] {
      OthersAre(s[1..], owner, l);
      var rest := Others(s[1..], owner, l);
      assert s == [s[0]] + s[1..];
      if s[0] in owner && owner[s[0]] == l {
        assert Others(s, owner, l) == rest;
      } else {
        assert Others(s, owner, l) == [s[0]] + rest;
        forall x ensures x in [s[0]] + rest <==> x == s[0] || x in rest {
        }
        if Distinct(s) {
          forall j | 0 <= j < |rest| ensures s[0] != rest[j] {
            assert rest[j] in rest;
          }
        }
      }
    }
  }

  lemma {:induction false} OthersOf(s: seq<EntryId>, owner: Owners, owner': Owners, l: StoreLinkId, m: StoreLinkId)
    requires m != l && owner' == OwnersBut(owner, l)
    ensures Of(Others(s, owner, l), owner', m) == Of(s, owner, m)
  {
    if s != [] {
      OthersOf(s[1..], owner, owner', l, m);
      var rest := Others(s[1..], owner, l);
      if s[0] in owner && owner[s[0]] == l {
        assert Others(s, owner, l) == rest && Of(s, owner, m) == Of(s[1..], owner, m);
      } else {
        var o := [s[0]] + rest;
        assert Others(s, owner, l) == o && o[0] == s[0] && o[1..] == rest;
        assert Of(o, owner', m) == (if s[0] in owner' && owner'[s[0]] == m then [s[0]] else []) + Of(rest, owner', m);
      }
    }
  }

  lemma {:induction false} SameOthers(s: seq<EntryId>, owner: Owners, l: StoreLinkId, mine: seq<EntryId>)
    requires forall x | x in s :: x in mine <==> x in owner && owner[x] == l
    ensures OthersThan(s, mine) == Others(s, owner, l)
  {
    if s != [] {
      assert s[0] in s && forall x | x in s[1..] :: x in s;
      SameOthers(s[1..], owner, l, mine);
    }
  }

  lemma OthersFit(all: seq<EntryId>, links: Links, owner: Owners, l: StoreLinkId)
    requires ListsFit(all, links, owner) && l in links
    ensures OthersThan(all, links[l].list) == Others(all, owner, l)
    ensures ListsFit(Others(all, owner, l), links - {l}, OwnersBut(owner, l))
    ensures |Others(all, owner, l)| + links[l].n == |all|
  {
    SameOnes(all, owner, l, links[l].list);
    OthersOwned(all, owner, l);
    forall m | m in links - {l} ensures links[m].list == Of(Others(all, owner, l), OwnersBut(owner, l), m) {
      OthersOf(all, owner, OwnersBut(owner, l), l, m);
    }
  }

  lemma OthersOwned(all: seq<EntryId>, owner: Owners, l: StoreLinkId)
    requires Distinct(all) && forall x :: x in all <==> x in owner
    ensures Distinct(Others(all, owner, l)) && forall x :: x in Others(all, owner, l) <==> x in OwnersBut(owner, l)
    ensures |Others(all, owner, l)| + |Of(all, owner, l)| == |all|
  {
    OthersAre(all, owner, l);
  }

  lemma SameOnes(all: seq<EntryId>, owner: Owners, l: StoreLinkId, mine: seq<EntryId>)
    requires mine == Of(all, owner, l)
    ensures OthersThan(all, mine) == Others(all, owner, l)
  {
    OfIs(all, owner, l);
    SameOthers(all, owner, l, mine);
  }

  lemma NewLinkFits(all: seq<EntryId>, links: Links, owner: Owners, id: StoreLinkId, link: StoreLink)
    requires ListsFit(all, links, owner) && id !in links && link.list == [] && link.n == 0
    ensures ListsFit(all, links[id := link], owner)
  {
    OfNone(all, owner, id);
  }

  // ---------- the store ----------

  class PaStore {
    var all: seq<EntryId>           // the recency list, most recent first
    var px: map<EntryId, Bits>      // the prefix of each entry
    var links: Links
    var n: nat
    var max: nat                    // 0 for no limit
    var pending: bool
    ghost var owner: Owners         // the link of each entry

    /** All but the limits */
    ghost predicate Consistent()
      reads this
    {
      ListsFit(all, links, owner) && px.Keys == owner.Keys && n == |all| && NamesDiffer(links)
    }

    ghost predicate Valid()
      reads this
    {
      Consistent() && WithinLimits(links) && (max > 0 ==> n <= max)
    }

    /** pa_store_init (src/pa_store.c:395-408) */
    constructor (max: nat)
      ensures Valid() && all == [] && links == map[] && this.max == max
    {
      all, px, links, n, this.max, pending, owner := [], map[], map[], 0, max, false, map[];
    }

    /** pa_store_uncache (src/pa_store.c:210-221) */
    method Uncache(l: StoreLinkId, p: EntryId)
      requires Consistent() && p in owner && owner[p] == l
      modifies this`all, this`px, this`links, this`n, this`pending, this`owner
      ensures Consistent() && pending
      ensures all == Without(old(all), p) && px == old(px) - {p} && owner == old(owner) - {p} && n == old(n) - 1
      ensures old(links)[l].n > 0 && links == LinksWithout(old(links), l, p)
    {
      UncachedFits(all, links, owner, p);
      NamesStillDiffer(links, l, p);
      assert (px - {p}).Keys == (owner - {p}).Keys;
      var link := links[l].(list := Without(links[l].list, p), n := links[l].n - 1);
      if link.n == 0 && !link.attached {
        Set(Without(all, p), px - {p}, links - {l}, n - 1, owner - {p});
      } else {
        Set(Without(all, p), px - {p}, links[l := link], n - 1, owner - {p});
      }
    }

    method Set(all': seq<EntryId>, px': map<EntryId, Bits>, links': Links, n': nat, ghost owner': Owners)
      modifies this`all, this`px, this`links, this`n, this`pending, this`owner
      ensures all == all' && px == px' && links == links' && n == n' && owner == owner' && pending
    {
      all, px, links, n, pending, owner := all', px', links', n', true, owner';
    }

    /** pa_store_uncache_last_from_link (src/pa_store.c:223-224) */
    method UncacheLastFromLink(l: StoreLinkId)
      requires Consistent() && l in links && links[l].n > 1
      modifies this`all, this`px, this`links, this`n, this`pending, this`owner
      ensures Consistent() && l in links && pending
      ensures all == Without(old(all), old(Last(links[l].list))) && n == old(n) - 1
      ensures PartOf(px, old(px)) && PartOf(owner, old(owner))
      ensures links == old(links)[l := old(links)[l].(list := old(links)[l].list[..old(links)[l].n - 1],
                                                      n := old(links)[l].n - 1)]
    {
      var p := Last(links[l].list);
      OfIs(all, owner, l);
      WithoutLast(links[l].list);
      Uncache(l, p);
    }

    /** pa_store_uncache_last_from_store (src/pa_store.c:226-231): the link is found from the last
        entry being last in its link's list. */
    method UncacheLastFromStore()
      requires Consistent() && all != []
      modifies this`all, this`px, this`links, this`n, this`pending, this`owner
      ensures Consistent() && pending && all == old(all)[..|old(all)| - 1] && n == old(n) - 1
      ensures PartOf(px, old(px)) && PartOf(owner, old(owner))
      ensures old(owner)[Last(old(all))] in old(links) && old(links)[old(owner)[Last(old(all))]].n > 0
      ensures links == LinksWithout(old(links), old(owner)[Last(old(all))], Last(old(all)))
    {
      var p := Last(all);
      LastFindsLink(all, links, owner);
      var l := LinkAfter(p);
      WithoutLast(all);
      Uncache(l.value, p);
    }

    /** list_entry(p->in_link.next, struct pa_store_link, prefixes): the link whose list p ends, if it
        ends one */
    method LinkAfter(p: EntryId) returns (l: Option<StoreLinkId>)
      ensures l.Some? ==> l.value in links && Ends(links[l.value].list, p)
      ensures l.None? ==> forall m | m in links :: !Ends(links[m].list, p)
    {
      var todo := links.Keys;
      while todo != {}
        invariant todo <= links.Keys && forall m | m in links && m !in todo :: !Ends(links[m].list, p)
        decreases todo
      {
        var m :| m in todo;
        if Ends(links[m].list, p) {
          return Some(m);
        }
        todo := todo - {m};
      }
      return None;
    }

    /** The entry of link l with this prefix (src/pa_store.c:237-238) */
    method Find(l: StoreLinkId, prefix: Bits) returns (i: nat)
      requires Consistent() && l in links
      ensures i <= |links[l].list| && forall k | 0 <= k < i :: links[l].list[k] in px && px[links[l].list[k]] != prefix
      ensures i < |links[l].list| ==> links[l].list[i] in px && px[links[l].list[i]] == prefix
    {
      i := 0;
      ListedAreKnown(all, links, owner, px, l);
      while i < |links[l].list| && px[links[l].list[i]] != prefix
        invariant i <= |links[l].list| && forall k | 0 <= k < i ::
          links[l].list[k] in px && px[links[l].list[k]] != prefix
      {
        i := i + 1;
      }
    }

    /** An entry that is there moves to the front (src/pa_store.c:239-247). */
    method Touch(l: StoreLinkId, i: nat)
      requires Valid() && l in links && i < |links[l].list|
      modifies this`all, this`links, this`pending
      ensures Valid() && all == [old(links)[l].list[i]] + Without(old(all), old(links)[l].list[i])
      ensures pending == (old(pending) || i > 0) && SameLinks(old(links), links)
    {
      var p := links[l].list[i];
      var link := links[l].(list := [p] + Without(links[l].list, p));
      TouchedFits(all, links, owner, l, i, p, link);
      if i == 0 {
        PutAll([p] + Without(all, p), links, pending);
      } else {
        PutAll([p] + Without(all, p), links[l := link], true);
      }
    }

    method PutAll(all': seq<EntryId>, links': Links, pending': bool)
      modifies this`all, this`links, this`pending
      ensures all == all' && links == links' && pending == pending'
    {
      all, links, pending := all', links', pending';
    }

    /** A new entry goes to the front (src/pa_store.c:252-257). */
    method Enter(l: StoreLinkId, prefix: Bits, p: EntryId)
      requires Consistent() && l in links && p !in px
      modifies this`all, this`px, this`links, this`n, this`pending, this`owner
      ensures Consistent() && all == [p] + old(all) && px == old(px)[p := prefix] && owner == old(owner)[p := l]
      ensures n == old(n) + 1 && pending
      ensures links == old(links)[l := old(links)[l].(list := [p] + old(links)[l].list, n := old(links)[l].n + 1)]
    {
      var link := links[l].(list := [p] + links[l].list, n := links[l].n + 1);
      AddedFits(all, links, owner, p, l);
      SameNameAgain(links, l, link);
      Set([p] + all, px[p := prefix], links[l := link], n + 1, owner[p := l]);
    }

    /** Too many prefixes in the link, then too many in the store (src/pa_store.c:259-265) */
    method Trim(l: StoreLinkId)
      requires Consistent() && l in links && all != []
      requires forall m | m in links && links[m].max > 0 :: links[m].n <= links[m].max + if m == l then 1 else 0
      requires max > 0 ==> n <= max + 1
      modifies this`all, this`px, this`links, this`n, this`pending, this`owner
      ensures Valid() && all == KeptInStore(KeptInLink(old(all), old(links)[l]), max)
      ensures PartOf(px, old(px)) && PartOf(owner, old(owner))
      ensures (old(pending) ==> pending) && SameLinks(old(links), links)
    {
      TrimLink(l);
      ghost var mid := links;
      TrimStore();
      SameLinksBoth(old(links), mid, links);
    }

    method TrimLink(l: StoreLinkId)
      requires Consistent() && l in links && all != []
      requires forall m | m in links && links[m].max > 0 :: links[m].n <= links[m].max + if m == l then 1 else 0
      modifies this`all, this`px, this`links, this`n, this`pending, this`owner
      ensures Consistent() && WithinLimits(links) && n <= old(n)
      ensures all == KeptInLink(old(all), old(links)[l]) && PartOf(px, old(px)) && PartOf(owner, old(owner))
      ensures (old(pending) ==> pending) && SameLinks(old(links), links)
    {
      if links[l].max > 0 && links[l].n > links[l].max {
        UncacheLastFromLink(l);
        OnlyItsList(old(links), l, links[l]);
      }
    }

    method TrimStore()
      requires Consistent() && WithinLimits(links) && (max > 0 ==> n <= max + 1)
      modifies this`all, this`px, this`links, this`n, this`pending, this`owner
      ensures Valid() && all == KeptInStore(old(all), max) && PartOf(px, old(px)) && PartOf(owner, old(owner))
      ensures (old(pending) ==> pending) && SameLinks(old(links), links)
    {
      if max > 0 && n > max {
        LastFindsLink(all, links, owner);
        RemovedFits(all, links, owner, Last(all));
        StillWithin(links, owner[Last(all)], Last(all));
        SameWithout(links, owner[Last(all)], Last(all));
        UncacheLastFromStore();
      }
    }

    /** pa_store_cache (src/pa_store.c:233-269); `fresh` is the entry that malloc would give. */
    method Cache(l: StoreLinkId, prefix: Bits, fresh': EntryId) returns (hit: bool)
      requires Valid() && l in links && fresh' !in px
      modifies this`all, this`px, this`links, this`n, this`pending, this`owner
      ensures Valid() && all != [] && IsCached(owner, px, l, prefix, all[0])
      ensures PartOf(px, if hit then old(px) else old(px)[fresh' := prefix])
      ensures PartOf(owner, if hit then old(owner) else old(owner)[fresh' := l])
      ensures hit <==> exists p :: IsCached(old(owner), old(px), l, prefix, p)
      ensures hit ==> IsCached(old(owner), old(px), l, prefix, all[0]) && all == [all[0]] + Without(old(all), all[0])
      ensures !hit ==> all == KeptInStore(KeptInLink([fresh'] + old(all),
        old(links)[l].(list := [fresh'] + old(links)[l].list, n := old(links)[l].n + 1)), max)
      ensures !hit ==> pending
      ensures hit ==> pending == (old(pending) || !([all[0]] <= old(links)[l].list))
      ensures SameLinks(old(links), links)
    {
      var i := Lookup(l, prefix);
      if i < |links[l].list| {
        TouchFound(l, i);
        return true;
      }
      Insert(l, prefix, fresh');
      return false;
    }

    method Lookup(l: StoreLinkId, prefix: Bits) returns (i: nat)
      requires Valid() && l in links
      ensures i <= |links[l].list| && (i < |links[l].list| ==> IsCached(owner, px, l, prefix, links[l].list[i]))
      ensures i < |links[l].list| <==> exists p :: IsCached(owner, px, l, prefix, p)
    {
      i := Find(l, prefix);
      FoundIsCached(all, links, owner, px, l, prefix, i);
    }

    method TouchFound(l: StoreLinkId, i: nat)
      requires Valid() && l in links && i < |links[l].list|
      modifies this`all, this`links, this`pending
      ensures Valid() && all != [] && all[0] == old(links)[l].list[i] && all == [all[0]] + Without(old(all), all[0])
      ensures pending == (old(pending) || !([all[0]] <= old(links)[l].list)) && SameLinks(old(links), links)
    {
      NoneTwice(all, links, owner, l, i);
      Touch(l, i);
    }

    method Insert(l: StoreLinkId, prefix: Bits, p: EntryId)
      requires Valid() && l in links && p !in px
      modifies this`all, this`px, this`links, this`n, this`pending, this`owner
      ensures Valid() && all == KeptInStore(KeptInLink([p] + old(all),
        old(links)[l].(list := [p] + old(links)[l].list, n := old(links)[l].n + 1)), max)
      ensures PartOf(px, old(px)[p := prefix]) && PartOf(owner, old(owner)[p := l])
      ensures all != [] && all[0] == p && IsCached(owner, px, l, prefix, p)
      ensures pending && SameLinks(old(links), links)
    {
      Enter(l, prefix, p);
      ghost var mid := links;
      OnlyItsList(old(links), l, links[l]);
      NewIsFirst(all, links, owner, l, p, max);
      Trim(l);
      SameLinksBoth(old(links), mid, links);
      assert all[0] in all;
    }

    // ---------- links ----------

    /** pa_store_link_goc, looking up only (src/pa_store.c:20-27) */
    method FindByName(name: string) returns (l: Option<StoreLinkId>)
      ensures l.Some? ==> l.value in links && links[l.value].name == name
      ensures l.None? ==> forall m | m in links :: links[m].name != name
    {
      var todo := links.Keys;
      while todo != {}
        invariant todo <= links.Keys && forall m | m in links && m !in todo :: links[m].name != name
        decreases todo
      {
        var m :| m in todo;
        if links[m].name == name {
          return Some(m);
        }
        todo := todo - {m};
      }
      return None;
    }

    /** pa_store_link_add (src/pa_store.c:287-304), for a name that no attached link has */
    method LinkAdd(id: StoreLinkId, name: string, limit: nat)
      requires Valid() && id !in links && forall m | m in links && links[m].name == name :: !links[m].attached
      modifies this`all, this`px, this`links, this`n, this`pending, this`owner
      ensures Valid() && id in links && links[id].name == name && links[id].max == limit && links[id].attached
      ensures (forall m | m in old(links) :: old(links)[m].name != name) ==> all == old(all) && links[id].list == []
      ensures forall m | m in old(links) && old(links)[m].name == name ::
        links[id].list <= old(links)[m].list && |links[id].list| == AtMost(old(links)[m].n, limit)
    {
      var l := FindByName(name);
      if l.None? {
        var link := StoreLink(name, limit, [], 0, true);
        NewLinkFits(all, links, owner, id, link);
        links := links[id := link];
        return;
      }
      TakeOver(l.value, id, StoreLink(name, limit, links[l.value].list, links[l.value].n, true));
      TrimToLimit(id);
    }

    /** Uncache from the end while there are too many entries (src/pa_store.c:298-300). */
    method TrimToLimit(id: StoreLinkId)
      requires Consistent() && id in links && (max > 0 ==> n <= max) && WithinLimitsBut(links, id)
      modifies this`all, this`px, this`links, this`n, this`pending, this`owner
      ensures Valid() && id in links && Shortened(old(links)[id], links[id])
      ensures links[id].n == |links[id].list| == AtMost(old(links)[id].n, links[id].max)
    {
      ghost var link := links[id];
      while links[id].max > 0 && links[id].n > links[id].max
        invariant Consistent() && id in links && (max > 0 ==> n <= max) && WithinLimitsBut(links, id)
        invariant Shortened(link, links[id]) && AtMost(links[id].n, link.max) == AtMost(link.n, link.max)
        decreases links[id].n
      {
        TrimOne(id, link);
      }
    }

    method TrimOne(id: StoreLinkId, ghost link: StoreLink)
      requires Consistent() && id in links && links[id].n > 1 && WithinLimitsBut(links, id)
      requires Shortened(link, links[id])
      modifies this`all, this`px, this`links, this`n, this`pending, this`owner
      ensures Consistent() && id in links && WithinLimitsBut(links, id) && Shortened(link, links[id])
      ensures n < old(n) && links[id].n == old(links)[id].n - 1
    {
      UncacheLastFromLink(id);
    }

    /** A link gets the entries of another, which goes. */
    method TakeOver(l: StoreLinkId, id: StoreLinkId, link: StoreLink)
      requires Consistent() && l in links && id !in links
      requires link.list == links[l].list && link.n == links[l].n && link.name == links[l].name
      modifies this`links, this`owner
      ensures Consistent() && links == (old(links) - {l})[id := link] && owner == Renamed(old(owner), l, id)
    {
      TakeOverFits(all, links, owner, l, id, link);
      links := (links - {l})[id := link];
      owner := Renamed(owner, l, id);
    }

    /** pa_store_link_remove (src/pa_store.c:306-329): the entries of a link with a name stay, in a
        private link of that name.  Those of a link without a name go, but are still counted: then, and
        only then, the counter of the store is wrong afterwards. */
    method LinkRemove(l: StoreLinkId, id: StoreLinkId)
      requires Valid() && l in links && links[l].attached && id !in links
      modifies this`all, this`px, this`links, this`owner, this`pending
      ensures Valid() <==> old(links)[l].name != "" || old(links)[l].n == 0
      ensures l !in links && ListsFit(all, links, owner)
      ensures old(links)[l].n == 0 ==> links == old(links) - {l} && all == old(all)
      ensures old(links)[l].n > 0 && old(links)[l].name != "" ==>
        all == old(all) && id in links && links[id] == old(links)[l].(max := 0, attached := false)
      ensures old(links)[l].n > 0 && old(links)[l].name == "" ==>
        links == old(links) - {l} && all == Others(old(all), old(owner), l) && n == |all| + old(links)[l].n
    {
      if links[l].n == 0 || links[l].name != "" {
        KeepAll(l, id);
      } else {
        ForgetAll(l);
      }
    }

    /** There are no entries, or they move to a private link (src/pa_store.c:310-319). */
    method KeepAll(l: StoreLinkId, id: StoreLinkId)
      requires Valid() && l in links && id !in links
      modifies this`links, this`owner
      ensures Valid() && l !in links
      ensures old(links)[l].n == 0 ==> links == old(links) - {l}
      ensures old(links)[l].n > 0 ==> id in links && links[id] == old(links)[l].(max := 0, attached := false)
    {
      if links[l].n == 0 {
        DropEmpty(l);
      } else {
        NoLimitLeft(links, l, id, StoreLink(links[l].name, 0, links[l].list, links[l].n, false));
        TakeOver(l, id, StoreLink(links[l].name, 0, links[l].list, links[l].n, false));
      }
    }

    method DropEmpty(l: StoreLinkId)
      requires Valid() && l in links && links[l].n == 0
      modifies this`links
      ensures Valid() && links == old(links) - {l}
    {
      EmptyLinkGoes(all, links, owner, l);
      PutLinks(links - {l});
    }

    /** The entries of l are freed, without a word to the counter (src/pa_store.c:320-327). */
    method ForgetAll(l: StoreLinkId)
      requires Consistent() && l in links && links[l].n > 0
      modifies this`all, this`px, this`links, this`owner, this`pending
      ensures links == old(links) - {l} && all == Others(old(all), old(owner), l) && n == |all| + old(links)[l].n
      ensures ListsFit(all, links, owner) && !Consistent()
    {
      OthersFit(all, links, owner, l);
      var mine := links[l].list;
      Forget(OthersThan(all, mine), px - (set x | x in mine), links - {l}, OwnersBut(owner, l));
    }

    method Forget(all': seq<EntryId>, px': map<EntryId, Bits>, links': Links, ghost owner': Owners)
      modifies this`all, this`px, this`links, this`pending, this`owner
      ensures all == all' && px == px' && links == links' && owner == owner' && pending
    {
      all, px, links, pending, owner := all', px', links', true, owner';
    }

    // ---------- saving ----------

    /** pa_store_save (src/pa_store.c:155-167): the walk writes the least recent prefix first, finds the
        right link for every prefix, and leaves the lists as they were, if and only if the link
        without a name, if there is one, has at most one prefix.  Else the walk takes a prefix for a
        link. */
    method Save() returns (ok: bool, lines: seq<Line>)
      requires Valid()
      modifies this`links
      ensures ok <==> Savable(old(links))
      ensures ok ==>
        Valid() && links == old(links) && Known(all, links, owner, px) && lines == Lines(all, 0, links, owner, px)
    {
      assert Known(all, links, owner, px);
      ghost var before := links;
      WalkedIs(all, 0, before, owner, px);
      ok, lines := SaveWalk(before);
      if ok {
        RotatedEnd(all, before, links, owner);
      }
    }

    method SaveWalk(ghost before: Links) returns (ok: bool, lines: seq<Line>)
      requires ListsFit(all, before, owner) && Known(all, before, owner, px) && links == before
      modifies this`links
      ensures Walked(all, 0, before, owner, px) == if ok then Some(Walk(links, lines)) else None
    {
      lines := [];
      var k: nat := |all|;
      while k > 0
        invariant k <= |all| && Walked(all, k, before, owner, px) == Some(Walk(links, lines))
      {
        ok, lines := SaveEntry(k, before, lines);
        if !ok {
          WalkEnded(all, k - 1, before, owner, px);
          return;
        }
        k := k - 1;
      }
      ok := true;
    }

    /** Write one entry, and move it to the front of its link's list. */
    method SaveEntry(k: nat, ghost before: Links, lines: seq<Line>) returns (ok: bool, lines': seq<Line>)
      requires 0 < k <= |all| && ListsFit(all, before, owner) && Known(all, before, owner, px)
      requires Walked(all, k, before, owner, px) == Some(Walk(links, lines))
      modifies this`links
      ensures Walked(all, k - 1, before, owner, px) == if ok then Some(Walk(links, lines')) else None
    {
      var p := all[k - 1];
      WalkedIs(all, k, before, owner, px);
      WalkFinds(all, k, before, links, owner);
      var l := LinkAfter(p);
      if l.None? {
        return false, lines;
      }
      if links[l.value].name == "" {
        return true, lines;
      }
      lines' := lines + [Line(links[l.value].name, px[p])];
      PutLinks(MovedToFront(links, l.value));
      ok := true;
    }

    method PutLinks(links': Links)
      modifies this`links
      ensures links == links'
    {
      links := links';
    }
  }

  /** No link without a name has two entries. */
  ghost predicate Savable(links: Links) {
    forall l | l in links && links[l].name == "" :: links[l].n <= 1
  }

  /** Entry p of link l holds the prefix. */
  ghost predicate IsCached(owner: Owners, px: map<EntryId, Bits>, l: StoreLinkId, prefix: Bits, p: EntryId) {
    p in owner && owner[p] == l && p in px && px[p] == prefix
  }

  /** What is left of the entries is as it was. */
  ghost predicate PartOf<V(!new)>(part: map<EntryId, V>, whole: map<EntryId, V>) {
    forall x | x in part :: x in whole && part[x] == whole[x]
  }

  /** The limits do not cost the entry at the front of both lists its place. */
  lemma NewIsFirst(all: seq<EntryId>, links: Links, owner: Owners, l: StoreLinkId, p: EntryId, max: nat)
    requires ListsFit(all, links, owner) && l in links && links[l].list != [] && links[l].list[0] == p && all != []
    requires all[0] == p
    ensures var kept := KeptInStore(KeptInLink(all, links[l]), max); kept != [] && kept[0] == p
  {
    var list := links[l].list;
    OfIs(all, owner, l);
    if links[l].max > 0 && links[l].n > links[l].max {
      assert list[0] != Last(list);
      assert Without(all, Last(list)) == [p] + Without(all[1..], Last(list));
    }
  }

  lemma FoundIsCached(all: seq<EntryId>, links: Links, owner: Owners, px: map<EntryId, Bits>, l: StoreLinkId,
                      prefix: Bits, i: nat)
    requires ListsFit(all, links, owner) && px.Keys == owner.Keys && l in links && i <= |links[l].list|
    requires forall k | 0 <= k < i :: links[l].list[k] in px && px[links[l].list[k]] != prefix
    requires i < |links[l].list| ==> links[l].list[i] in px && px[links[l].list[i]] == prefix
    ensures i < |links[l].list| ==> IsCached(owner, px, l, prefix, links[l].list[i])
    ensures i == |links[l].list| ==> forall p :: !IsCached(owner, px, l, prefix, p)
  {
    var list := links[l].list;
    OfIs(all, owner, l);
    if i < |list| {
      assert list[i] in list;
    } else {
      forall p ensures !IsCached(owner, px, l, prefix, p) {
        if p in owner && owner[p] == l {
          assert p in list;
        }
      }
    }
  }

  ghost predicate WithinLimitsBut(links: Links, id: StoreLinkId) {
    forall m | m in links && m != id && links[m].max > 0 :: links[m].n <= links[m].max
  }

  lemma NoLimitLeft(links: Links, l: StoreLinkId, id: StoreLinkId, link: StoreLink)
    requires WithinLimits(links) && link.max == 0
    ensures WithinLimits((links - {l})[id := link])
  {
  }

  /** Only entries at the end of the list have gone. */
  /** n, or the limit if that is less; 0 is no limit */
  function AtMost(n: nat, limit: nat): nat {
    if limit > 0 && n > limit then limit else n
  }

  ghost predicate Shortened(a: StoreLink, b: StoreLink) {
    b == a.(list := b.list, n := b.n) && b.list <= a.list
  }

  datatype Line = Line(name: string, prefix: Bits)

  ghost predicate Known(all: seq<EntryId>, links: Links, owner: Owners, px: map<EntryId, Bits>) {
    forall k | 0 <= k < |all| :: all[k] in owner && owner[all[k]] in links && all[k] in px
  }

  /** What the file should say of the entries from the k-th on: name and prefix of each whose link has a
      name, the least recent first */
  ghost function Lines(all: seq<EntryId>, k: nat, links: Links, owner: Owners, px: map<EntryId, Bits>): seq<Line>
    requires k <= |all| && Known(all, links, owner, px)
    decreases |all| - k
  {
    if k == |all| then []
    else
      var name := links[owner[all[k]]].name;
      Lines(all, k + 1, links, owner, px) + if name == "" then [] else [Line(name, px[all[k]])]
  }

  /** The lists once all entries from the k-th on have been moved to the front of their link's list, except
      those of a link without a name; there must have been at most one of those. */
  ghost function Turned(all: seq<EntryId>, k: nat, before: Links, owner: Owners): Option<Links>
    requires k <= |all|
  {
    if forall l | l in before && before[l].name == "" :: |Of(all[k..], owner, l)| <= 1
    then Some(map l | l in before :: TurnedLink(all, k, before[l], owner, l))
    else None
  }

  ghost function TurnedLink(all: seq<EntryId>, k: nat, before: StoreLink, owner: Owners, l: StoreLinkId): StoreLink
    requires k <= |all|
  {
    if before.name == "" then before else before.(list := Of(all[k..], owner, l) + Of(all[..k], owner, l))
  }

  ghost predicate Rotated(all: seq<EntryId>, k: nat, before: Links, links: Links, owner: Owners)
    requires k <= |all|
  {
    Turned(all, k, before, owner) == Some(links)
  }

  ghost predicate RotatedLink(all: seq<EntryId>, k: nat, before: StoreLink, link: StoreLink, owner: Owners,
                              l: StoreLinkId)
    requires k <= |all|
  {
    link == TurnedLink(all, k, before, owner, l) && (before.name == "" ==> |Of(all[k..], owner, l)| <= 1)
  }

  /** The same, link by link */
  lemma RotatedLinks(all: seq<EntryId>, k: nat, before: Links, links: Links, owner: Owners)
    requires k <= |all|
    ensures Rotated(all, k, before, links, owner) <==>
      links.Keys == before.Keys && forall l | l in links :: RotatedLink(all, k, before[l], links[l], owner, l)
  {
    if links.Keys == before.Keys && forall l | l in links :: RotatedLink(all, k, before[l], links[l], owner, l) {
      assert forall l | l in before && before[l].name == "" :: RotatedLink(all, k, before[l], links[l], owner, l);
      assert links == map l | l in before :: TurnedLink(all, k, before[l], owner, l);
    }
  }

  // ---------- the walk ----------

  /** Where the walk of pa_store_save stands: the lists, and the lines written */
  datatype Walk = Walk(links: Links, lines: seq<Line>)

  /** The next entry: if it ends its link's list, it is written and moves to the front of it, unless the
      link has no name. */
  ghost function WalkStep(w: Walk, p: EntryId, owner: Owners, px: map<EntryId, Bits>): Option<Walk> {
    if !(p in owner && owner[p] in w.links && p in px && Ends(w.links[owner[p]].list, p)) then None
    else if w.links[owner[p]].name == "" then Some(w)
    else Some(Walk(MovedToFront(w.links, owner[p]), w.lines + [Line(w.links[owner[p]].name, px[p])]))
  }

  /** The walk from the end of the recency list to the k-th entry */
  ghost function Walked(all: seq<EntryId>, k: nat, before: Links, owner: Owners, px: map<EntryId, Bits>): Option<Walk>
    requires k <= |all|
    decreases |all| - k
  {
    if k == |all| then Some(Walk(before, []))
    else
      var w := Walked(all, k + 1, before, owner, px);
      if w.None? then None else WalkStep(w.value, all[k], owner, px)
  }

  lemma {:induction false} WalkEnded(all: seq<EntryId>, k: nat, before: Links, owner: Owners, px: map<EntryId, Bits>)
    requires k <= |all| && Walked(all, k, before, owner, px) == None
    ensures Walked(all, 0, before, owner, px) == None
    decreases k
  {
    if k > 0 {
      WalkEnded(all, k - 1, before, owner, px);
    }
  }

  /** The walk writes the right lines and keeps the lists in order; it ends early only if there is a link
      without a name that has two entries. */
  lemma {:induction false} WalkedIs(all: seq<EntryId>, k: nat, before: Links, owner: Owners, px: map<EntryId, Bits>)
    requires k <= |all| && ListsFit(all, before, owner) && Known(all, before, owner, px)
    ensures WalkFits(Walked(all, k, before, owner, px), all, k, before, owner, px)
    decreases |all| - k
  {
    if k == |all| {
      RotatedStart(all, before, owner);
    } else {
      WalkedIs(all, k + 1, before, owner, px);
      var w := Walked(all, k + 1, before, owner, px);
      if w.Some? {
        WalkStepIs(all, k, before, owner, px, w.value);
      }
    }
  }

  ghost predicate WalkFits(w: Option<Walk>, all: seq<EntryId>, k: nat, before: Links, owner: Owners,
                           px: map<EntryId, Bits>)
    requires k <= |all| && Known(all, before, owner, px)
  {
    if w.None? then !Savable(before)
    else Rotated(all, k, before, w.value.links, owner) && w.value.lines == Lines(all, k, before, owner, px)
  }

  lemma WalkStepIs(all: seq<EntryId>, k: nat, before: Links, owner: Owners, px: map<EntryId, Bits>, w: Walk)
    requires k < |all| && ListsFit(all, before, owner) && Known(all, before, owner, px)
    requires WalkFits(Some(w), all, k + 1, before, owner, px)
    ensures WalkFits(WalkStep(w, all[k], owner, px), all, k, before, owner, px)
  {
    WalkFinds(all, k + 1, before, w.links, owner);
    if Ends(w.links[owner[all[k]]].list, all[k]) {
      RotatedStep(all, k + 1, before, w.links, owner, all[k], owner[all[k]]);
    }
  }

  lemma RotatedStart(all: seq<EntryId>, links: Links, owner: Owners)
    requires ListsFit(all, links, owner)
    ensures Rotated(all, |all|, links, links, owner)
  {
    assert all[..|all|] == all && all[|all|..] == [];
    forall l | l in links ensures RotatedLink(all, |all|, links[l], links[l], owner, l) {
      assert [] + Of(all, owner, l) == Of(all, owner, l);
    }
    RotatedLinks(all, |all|, links, links, owner);
  }

  lemma RotatedEnd(all: seq<EntryId>, before: Links, links: Links, owner: Owners)
    requires ListsFit(all, before, owner) && Rotated(all, 0, before, links, owner)
    ensures links == before && forall l | l in before && before[l].name == "" :: before[l].n <= 1
  {
    assert all[0..] == all && all[..0] == [];
    RotatedLinks(all, 0, before, links, owner);
    forall l | l in links ensures links[l] == before[l] && (before[l].name == "" ==> before[l].n <= 1) {
      assert RotatedLink(all, 0, before[l], links[l], owner, l);
      assert Of(all, owner, l) + [] == Of(all, owner, l);
    }
  }

  /** The next entry of the walk ends its own link's list and no other, or it is the second one of a
      link without a name and ends none. */
  lemma WalkFinds(all: seq<EntryId>, k: nat, before: Links, links: Links, owner: Owners)
    requires 0 < k <= |all| && ListsFit(all, before, owner) && Rotated(all, k, before, links, owner)
    ensures var p := all[k - 1]; p in owner && owner[p] in links && owner[p] in before
    ensures var p := all[k - 1]; forall m | m in links && Ends(links[m].list, p) :: m == owner[p]
    ensures var p := all[k - 1];
            Ends(links[owner[p]].list, p) || (before[owner[p]].name == "" && before[owner[p]].n > 1)
  {
    var p := all[k - 1];
    assert p in all;
    var l := owner[p];
    RotatedLinks(all, k, before, links, owner);
    assert RotatedLink(all, k, before[l], links[l], owner, l);
    OwnListEnds(all, k, owner);
    UnnamedEnds(all, k, owner);
    forall m | m in links && Ends(links[m].list, p) ensures m == l {
      assert RotatedLink(all, k, before[m], links[m], owner, m);
      if before[m].name == "" {
        OfIs(all, owner, m);
        assert p in links[m].list;
      } else {
        NoOtherEnds(all, k, owner, m);
      }
    }
  }

  /** The list as it was is ended by the k-th last entry if no later one is of the link. */
  lemma UnnamedEnds(all: seq<EntryId>, k: nat, owner: Owners)
    requires 0 < k <= |all| && all[k - 1] in owner
    ensures var l := owner[all[k - 1]]; Of(all[k..], owner, l) == [] ==> Ends(Of(all, owner, l), all[k - 1])
    ensures var l := owner[all[k - 1]]; Of(all[k..], owner, l) != [] ==> |Of(all, owner, l)| > 1
  {
    var l := owner[all[k - 1]];
    LastOfAll(all[..k], owner, l);
    OfBoth(all[..k], all[k..], owner, l);
    assert all == all[..k] + all[k..];
  }

  lemma OwnListEnds(all: seq<EntryId>, k: nat, owner: Owners)
    requires 0 < k <= |all| && all[k - 1] in owner
    ensures var p := all[k - 1]; Ends(Of(all[k..], owner, owner[p]) + Of(all[..k], owner, owner[p]), p)
  {
    LastOfAll(all[..k], owner, owner[all[k - 1]]);
  }

  lemma NoOtherEnds(all: seq<EntryId>, k: nat, owner: Owners, m: StoreLinkId)
    requires 0 < k <= |all| && all[k - 1] in owner && Ends(Of(all[k..], owner, m) + Of(all[..k], owner, m), all[k - 1])
    ensures m == owner[all[k - 1]]
  {
    var done, rest := Of(all[k..], owner, m), Of(all[..k], owner, m);
    OfIs(all[k..], owner, m);
    OfIs(all[..k], owner, m);
    assert Last(done + rest) in done || Last(done + rest) in rest;
  }

  /** The last entry of link l's list moves to the front of it. */
  function MovedToFront(links: Links, l: StoreLinkId): Links
    requires l in links && links[l].list != []
  {
    var list := links[l].list;
    links[l := links[l].(list := [Last(list)] + list[..|list| - 1])]
  }

  /** One step of the walk, for an entry that ends its link's list */
  lemma RotatedStep(all: seq<EntryId>, k: nat, before: Links, links: Links, owner: Owners, p: EntryId, l: StoreLinkId)
    requires 0 < k <= |all| && ListsFit(all, before, owner) && Rotated(all, k, before, links, owner)
    requires p == all[k - 1] && p in owner && l == owner[p] && l in links && l in before && Ends(links[l].list, p)
    ensures links[l].name == before[l].name
    ensures Rotated(all, k - 1, before, if links[l].name == "" then links else MovedToFront(links, l), owner)
  {
    RotatedName(all, k, before, links, owner, l);
    RotatedStepOf(all, k, before, links, owner, l);
  }

  lemma RotatedStepOf(all: seq<EntryId>, k: nat, before: Links, links: Links, owner: Owners, l: StoreLinkId)
    requires 0 < k <= |all| && Distinct(all) && Rotated(all, k, before, links, owner)
    requires all[k - 1] in owner && l == owner[all[k - 1]] && l in links && l in before
    requires Ends(links[l].list, all[k - 1])
    requires Of(all, owner, l) == before[l].list
    ensures Rotated(all, k - 1, before, if links[l].name == "" then links else MovedToFront(links, l), owner)
  {
    var links' := if links[l].name == "" then links else MovedToFront(links, l);
    forall m | m in links' ensures m in before && RotatedLink(all, k - 1, before[m], links'[m], owner, m) {
      RotatedAt(all, k, before, links, owner, l, m);
    }
    RotatedKeys(all, k, before, links, owner);
    RotatedLinks(all, k - 1, before, links', owner);
  }

  lemma RotatedKeys(all: seq<EntryId>, k: nat, before: Links, links: Links, owner: Owners)
    requires k <= |all| && Rotated(all, k, before, links, owner)
    ensures links.Keys == before.Keys
  {
  }

  lemma RotatedName(all: seq<EntryId>, k: nat, before: Links, links: Links, owner: Owners, l: StoreLinkId)
    requires k <= |all| && Rotated(all, k, before, links, owner) && l in links
    ensures l in before && links[l].name == before[l].name
  {
  }

  lemma RotatedAt(all: seq<EntryId>, k: nat, before: Links, links: Links, owner: Owners, l: StoreLinkId, m: StoreLinkId)
    requires 0 < k <= |all| && Distinct(all) && Rotated(all, k, before, links, owner)
    requires all[k - 1] in owner && l == owner[all[k - 1]] && l in links && Ends(links[l].list, all[k - 1])
    requires m in links
    requires l in before && Of(all, owner, l) == before[l].list
    ensures m in before
    ensures RotatedLink(all, k - 1, before[m], (if links[l].name == "" then links else MovedToFront(links, l))[m],
                        owner, m)
  {
    var links' := if links[l].name == "" then links else MovedToFront(links, l);
    RotatedName(all, k, before, links, owner, l);
    RotatedLinks(all, k, before, links, owner);
    RotatedLinkNext(all, k, before[m], links[m], links'[m], owner, m);
  }

  lemma RotatedLinkNext(all: seq<EntryId>, k: nat, before: StoreLink, link: StoreLink, link': StoreLink, owner: Owners,
                        m: StoreLinkId)
    requires 0 < k <= |all| && Distinct(all) && all[k - 1] in owner && RotatedLink(all, k, before, link, owner, m)
    requires owner[all[k - 1]] == m ==> Of(all, owner, m) == before.list && Ends(link.list, all[k - 1])
    requires if owner[all[k - 1]] == m && before.name != ""
             then link' == link.(list := [all[k - 1]] + link.list[..|link.list| - 1]) else link' == link
    ensures RotatedLink(all, k - 1, before, link', owner, m)
  {
    RotatedLinkStep(all, k, before, link, owner, m);
  }

  /** The same for one link */
  lemma RotatedLinkStep(all: seq<EntryId>, k: nat, before: StoreLink, link: StoreLink, owner: Owners, m: StoreLinkId)
    requires 0 < k <= |all| && Distinct(all) && all[k - 1] in owner && RotatedLink(all, k, before, link, owner, m)
    requires before.name == "" && owner[all[k - 1]] == m ==>
      Of(all, owner, m) == before.list && Ends(before.list, all[k - 1])
    ensures if owner[all[k - 1]] == m && before.name != ""
            then link.list != [] && RotatedLink(all, k - 1, before,
                                                link.(list := [all[k - 1]] + link.list[..|link.list| - 1]), owner, m)
            else RotatedLink(all, k - 1, before, link, owner, m)
  {
    RotatedList(all, k, owner, m);
    if owner[all[k - 1]] == m && before.name == "" {
      FirstOfUnnamed(all, k, owner, m);
    }
  }

  lemma FirstOfUnnamed(all: seq<EntryId>, k: nat, owner: Owners, l: StoreLinkId)
    requires 0 < k <= |all| && Distinct(all) && all[k - 1] in owner && owner[all[k - 1]] == l
    requires Ends(Of(all, owner, l), all[k - 1])
    ensures |Of(all[k - 1..], owner, l)| <= 1
  {
    assert all[k - 1..][1..] == all[k..];
    if Of(all[k..], owner, l) != [] {
      LaterEnds(all, k, owner, l);
    }
  }

  lemma LaterEnds(all: seq<EntryId>, k: nat, owner: Owners, l: StoreLinkId)
    requires 0 < k <= |all| && Distinct(all) && Of(all[k..], owner, l) != []
    ensures Of(all, owner, l) != [] && Last(Of(all, owner, l)) != all[k - 1]
  {
    var rest := Of(all[k..], owner, l);
    assert all == all[..k] + all[k..];
    OfBoth(all[..k], all[k..], owner, l);
    OfIs(all[k..], owner, l);
    assert Last(rest) in rest;
  }

  lemma RotatedList(all: seq<EntryId>, k: nat, owner: Owners, m: StoreLinkId)
    requires 0 < k <= |all| && all[k - 1] in owner
    ensures var p, list := all[k - 1], Of(all[k..], owner, m) + Of(all[..k], owner, m);
            var next := Of(all[k - 1..], owner, m) + Of(all[..k - 1], owner, m);
            if owner[p] == m then list != [] && next == [p] + list[..|list| - 1]
            else next == list && Of(all[k - 1..], owner, m) == Of(all[k..], owner, m)
  {
    var p := all[k - 1];
    assert all[k - 1..][1..] == all[k..];
    assert all[..k] == all[..k - 1] + [p];
    OfBoth(all[..k - 1], [p], owner, m);
    assert [p][1..] == [];
    var a, b := Of(all[k..], owner, m), Of(all[..k - 1], owner, m);
    if owner[p] == m {
      assert Of(all[..k], owner, m) == b + [p];
      assert (a + (b + [p]))[..|a| + |b|] == a + b;
      assert Of(all[k - 1..], owner, m) == [p] + a;
      assert [p] + a + b == [p] + (a + b);
    } else {
      assert Of(all[..k], owner, m) == b + [] == b;
      assert Of(all[k - 1..], owner, m) == [] + a == a;
    }
  }

  /** No link has come, only private ones have gone, and of those that are left nothing but the list has
      changed. */
  ghost predicate SameLinks(before: Links, links: Links) {
    && (forall m | m in links :: m in before && links[m] == before[m].(list := links[m].list, n := links[m].n))
    && (forall m | m in before && m !in links :: !before[m].attached)
  }

  lemma SameLinksBoth(a: Links, b: Links, c: Links)
    requires SameLinks(a, b) && SameLinks(b, c)
    ensures SameLinks(a, c)
  {
  }

  lemma OnlyItsList(links: Links, l: StoreLinkId, link: StoreLink)
    requires l in links && link == links[l].(list := link.list, n := link.n)
    ensures SameLinks(links, links[l := link])
  {
  }

  lemma SameWithout(links: Links, l: StoreLinkId, p: EntryId)
    requires l in links && links[l].n > 0
    ensures SameLinks(links, LinksWithout(links, l, p))
  {
  }

  lemma NoneTwice(all: seq<EntryId>, links: Links, owner: Owners, l: StoreLinkId, i: nat)
    requires ListsFit(all, links, owner) && l in links && i < |links[l].list|
    ensures i > 0 <==> !([links[l].list[i]] <= links[l].list)
  {
    OfIs(all, owner, l);
    assert links[l].list[..1] == [links[l].list[0]];
  }

  /** What the limit of a link leaves of the recency list: all but the link's last entry, if the link
      has too many */
  function KeptInLink(all: seq<EntryId>, link: StoreLink): seq<EntryId> {
    if link.max > 0 && link.n > link.max && link.list != [] then Without(all, Last(link.list)) else all
  }

  /** What the limit of the store leaves: all but the last entry, if there are too many */
  function KeptInStore(all: seq<EntryId>, max: nat): seq<EntryId> {
    if max > 0 && |all| > max then all[..|all| - 1] else all
  }

  function Last<T>(s: seq<T>): T
    requires s != []
  {
    s[|s| - 1]
  }

  predicate Ends(s: seq<EntryId>, p: EntryId) {
    s != [] && Last(s) == p
  }

  lemma LastFindsLink(all: seq<EntryId>, links: Links, owner: Owners)
    requires ListsFit(all, links, owner) && all != []
    ensures var p := Last(all);
            && p in owner && owner[p] in links && Ends(links[owner[p]].list, p)
            && forall m | m in links && Ends(links[m].list, p) :: m == owner[p]
  {
    var p := Last(all);
    assert p in all;
    LastOfAll(all, owner, owner[p]);
    forall m | m in links && Ends(links[m].list, p) ensures m == owner[p] {
      OfIs(all, owner, m);
      assert p in links[m].list;
    }
  }

  lemma TouchedFits(all: seq<EntryId>, links: Links, owner: Owners, l: StoreLinkId, i: nat, p: EntryId, link: StoreLink)
    requires ListsFit(all, links, owner) && NamesDiffer(links) && WithinLimits(links)
    requires l in links && i < |links[l].list| && p == links[l].list[i]
    requires link == links[l].(list := [p] + Without(links[l].list, p))
    ensures ListsFit([p] + Without(all, p), links[l := link], owner) && NamesDiffer(links[l := link])
    ensures WithinLimits(links[l := link])
    ensures |[p] + Without(all, p)| == |all| && (i == 0 ==> links[l := link] == links)
  {
    OwnedBy(all, links, owner, l, i);
    TouchedLists(all, links, owner, l, p, link);
    SameNameAgain(links, l, link);
    SameSize(links, l, link);
    if i == 0 {
      FirstAgain(links[l].list);
      assert link == links[l];
    }
  }

  lemma TouchedLists(all: seq<EntryId>, links: Links, owner: Owners, l: StoreLinkId, p: EntryId, link: StoreLink)
    requires ListsFit(all, links, owner) && p in owner && owner[p] == l
    requires link == links[l].(list := [p] + Without(links[l].list, p))
    ensures ListsFit([p] + Without(all, p), links[l := link], owner) && |[p] + Without(all, p)| == |all|
  {
    MovedFits(all, links, owner, p);
    RemovedOwners(all, owner, p);
  }

  lemma FirstAgain(list: seq<EntryId>)
    requires list != []
    ensures [list[0]] + Without(list, list[0]) == list
  {
  }

  lemma ListedAreKnown(all: seq<EntryId>, links: Links, owner: Owners, px: map<EntryId, Bits>, l: StoreLinkId)
    requires ListsFit(all, links, owner) && px.Keys == owner.Keys && l in links
    ensures forall k | 0 <= k < |links[l].list| :: links[l].list[k] in px
  {
    forall k | 0 <= k < |links[l].list| ensures links[l].list[k] in px {
      OwnedBy(all, links, owner, l, k);
    }
  }

  lemma OwnedBy(all: seq<EntryId>, links: Links, owner: Owners, l: StoreLinkId, i: nat)
    requires ListsFit(all, links, owner) && l in links && i < |links[l].list|
    ensures links[l].list[i] in owner && owner[links[l].list[i]] == l
  {
    OfIs(all, owner, l);
    assert links[l].list[i] in links[l].list;
  }

  lemma SameSize(links: Links, l: StoreLinkId, link: StoreLink)
    requires WithinLimits(links) && l in links && link.max == links[l].max && link.n == links[l].n
    ensures WithinLimits(links[l := link])
  {
  }

  lemma StillWithin(links: Links, l: StoreLinkId, p: EntryId)
    requires WithinLimits(links) && l in links && links[l].n > 0
    ensures WithinLimits(LinksWithout(links, l, p))
  {
  }

  lemma SameNameAgain(links: Links, l: StoreLinkId, link: StoreLink)
    requires NamesDiffer(links) && l in links && link.name == links[l].name
    ensures NamesDiffer(links[l := link])
  {
  }

  lemma NamesStillDiffer(links: Links, l: StoreLinkId, p: EntryId)
    requires NamesDiffer(links) && l in links && links[l].n > 0
    ensures NamesDiffer(LinksWithout(links, l, p))
  {
  }
}
