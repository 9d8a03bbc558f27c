/**
  What a prefix assignment core holds, and what is true of it between any two steps.
 */
module PaState {
  import opened Wrappers
  import opened FreeSpace
  import opened PaLdp

  /** struct pa_advp */
  datatype Advp = Advp(prefix: Bits, link: Option<LinkId>, priority: nat, node: nat)

  /** struct pa_dp */
  datatype Dp = Dp(prefix: Bits, haLdp: Option<Pair>)

  /** struct pa_pentry, with the key it is stored under */
  datatype Entry = AssignedTo(prefix: Bits, pair: Pair) | AdvertisedAs(prefix: Bits, advp: AdvpId)

  /** A user callback about a pair, with the prefix the user sees */
  datatype Note = Note(pair: Pair, event: Event, prefix: Bits)

  type Ldps = map<Pair, Ldp>
  type Advps = map<AdvpId, Advp>

  // ---------- the callbacks so far ----------

  /** Where the callbacks about p have led */
  function Heard(log: seq<Note>, p: Pair): Nest {
    if log == [] then Idle
    else
      var n := Heard(log[..|log| - 1], p);
      if log[|log| - 1].pair == p then Step(n, log[|log| - 1].event, log[|log| - 1].prefix) else n
  }

  function Notes(p: Pair, prefix: Bits, events: seq<Event>): (r: seq<Note>)
    ensures |r| == |events| && forall i | 0 <= i < |r| :: r[i] == Note(p, events[i], prefix)
  {
    seq(|events|, i requires 0 <= i < |events| => Note(p, events[i], prefix))
  }

  lemma {:induction false} HeardMore(log: seq<Note>, p: Pair, prefix: Bits, events: seq<Event>, q: Pair)
    ensures Heard(log + Notes(p, prefix, events), q) == if q == p
      then Walk(Heard(log, p), prefix, events)
      else Heard(log, q)
    decreases |events|
  {
    if events == [] {
      assert log + Notes(p, prefix, events) == log;
    } else {
      var e := events[..|events| - 1];
      HeardMore(log, p, prefix, e, q);
      var all := log + Notes(p, prefix, events);
      assert all[..|all| - 1] == log + Notes(p, prefix, e);
    }
  }

  /** Callbacks have been added, none of them to say that a prefix is applied. */
  ghost predicate Quiet(log: seq<Note>, log': seq<Note>) {
    log <= log' && forall i | |log| <= i < |log'| :: log'[i].event != EApplied(true)
  }

  lemma QuietBoth(a: seq<Note>, b: seq<Note>, c: seq<Note>)
    requires Quiet(a, b) && Quiet(b, c)
    ensures Quiet(a, c)
  {
    forall i | |a| <= i < |c| ensures c[i].event != EApplied(true) {
      if i < |b| {
        assert c[i] == b[i];
      }
    }
  }

  lemma QuietNotes(log: seq<Note>, p: Pair, prefix: Bits, events: seq<Event>)
    requires forall i | 0 <= i < |events| :: events[i] != EApplied(true)
    ensures Quiet(log, log + Notes(p, prefix, events))
  {
  }

  // ---------- invariants ----------

  function NestAt(ldps: Ldps, p: Pair): Nest {
    if p in ldps then NestOf(ldps[p]) else Idle
  }

  /** The callbacks about every pair are well nested and agree with its flags and prefix. */
  ghost predicate LogFits(log: seq<Note>, ldps: Ldps) {
    forall p :: Heard(log, p) == NestAt(ldps, p)
  }

  predicate Belongs(e: Entry, ldps: Ldps, advps: Advps) {
    match e
    case AssignedTo(x, p) => p in ldps && ldps[p].isAssigned && ldps[p].prefix == x
    case AdvertisedAs(x, a) => a in advps && advps[a].prefix == x
  }

  /** The trie holds the added advertisements and the assigned pairs, and nothing else. */
  ghost predicate TrieFits(trie: set<Entry>, ldps: Ldps, advps: Advps) {
    forall e :: e in trie <==> Belongs(e, ldps, advps)
  }

  ghost predicate PairFits(l: Ldp, rules: seq<RuleId>, now: int, flooding: nat) {
    Sane(l) && Timely(l, now, flooding) && (l.rule.Some? ==> l.rule.value in rules)
  }

  ghost predicate PairsFit(links: map<LinkId, Option<LinkId>>, dps: map<DpId, Dp>, ldps: Ldps, rules: seq<RuleId>,
                           now: int, flooding: nat) {
    && flooding < FLOODING_LIMIT
    && forall p | p in ldps :: p.link in links && p.dp in dps && PairFits(ldps[p], rules, now, flooding)
  }

  /** The prefix is advertised on the link, and concerns the delegated prefix. */
  ghost predicate OnLink(advps: Advps, link: LinkId, prefix: Bits, dp: Bits) {
    Comparable(prefix, dp) && exists a | a in advps :: advps[a].link == Some(link) && advps[a].prefix == prefix
  }

  /** An assigned pair that does not wait for the routine is published or adopted here, or
      somebody else advertises its prefix on its link. */
  ghost predicate Backed(l: Ldp, link: LinkId, dp: Bits, advps: Advps) {
    l.isAssigned && !l.routine ==> l.isPublished || l.isAdopting || OnLink(advps, link, l.prefix, dp)
  }

  ghost predicate AllBacked(ldps: Ldps, dps: map<DpId, Dp>, advps: Advps) {
    forall p | p in ldps && p.dp in dps :: Backed(ldps[p], p.link, dps[p.dp].prefix, advps)
  }

  ghost predicate AllBackedBut(ldps: Ldps, dps: map<DpId, Dp>, advps: Advps, x: Pair) {
    forall p | p in ldps && p.dp in dps && p != x :: Backed(ldps[p], p.link, dps[p.dp].prefix, advps)
  }

  // ---------- advertisements are heeded ----------

  /** A pair that neither has a prefix nor waits for the routine has no advertisement on its link that
      overlaps its delegated prefix. */
  ghost predicate Heeds(l: Ldp, link: LinkId, dp: Bits, advps: Advps) {
    !l.isAssigned && !l.routine ==>
      forall a | a in advps && advps[a].link == Some(link) :: !(advps[a].prefix <= dp) && !(dp <= advps[a].prefix)
  }

  /** New pairs do so, and old ones that did still do, those in `but` perhaps not. */
  ghost predicate KeepHeeding(before: Ldps, advps: Advps, after: Ldps, advps': Advps, dps: map<DpId, Dp>,
                              but: set<Pair>) {
    forall p | p in after && p !in but && p.dp in dps ::
      (p in before ==> Heeds(before[p], p.link, dps[p.dp].prefix, advps)) ==>
        Heeds(after[p], p.link, dps[p.dp].prefix, advps')
  }

  lemma HeedingIsKept(before: Ldps, after: Ldps, dps: map<DpId, Dp>, advps: Advps, but: set<Pair>)
    requires forall p | p in after && p !in but ::
      after[p].isAssigned || after[p].routine || (p in before && !before[p].isAssigned && !before[p].routine)
    ensures KeepHeeding(before, advps, after, advps, dps, but)
  {
  }

  // ---------- one pair changes ----------

  /** The trie after the record of p becomes l */
  ghost predicate TrieMoves(trie: set<Entry>, trie': set<Entry>, p: Pair, l: Ldp) {
    forall e :: e in trie' <==>
      if e.AssignedTo? && e.pair == p then l.isAssigned && e.prefix == l.prefix else e in trie
  }

  lemma TrieFitsAfter(trie: set<Entry>, trie': set<Entry>, ldps: Ldps, advps: Advps, p: Pair, l: Ldp)
    requires TrieFits(trie, ldps, advps) && TrieMoves(trie, trie', p, l)
    ensures TrieFits(trie', ldps[p := l], advps)
  {
    forall e ensures e in trie' <==> Belongs(e, ldps[p := l], advps) {
      assert e in trie <==> Belongs(e, ldps, advps);
    }
  }

  lemma LogFitsAfter(log: seq<Note>, ldps: Ldps, p: Pair, l: Ldp, events: seq<Event>)
    requires LogFits(log, ldps) && Walk(NestAt(ldps, p), l.prefix, events) == NestOf(l)
    ensures LogFits(log + Notes(p, l.prefix, events), ldps[p := l])
  {
    var log' := log + Notes(p, l.prefix, events);
    forall q ensures Heard(log', q) == NestAt(ldps[p := l], q) {
      HeardMore(log, p, l.prefix, events, q);
      assert Heard(log, q) == NestAt(ldps, q);
    }
  }

  lemma PairsFitAfter(links: map<LinkId, Option<LinkId>>, dps: map<DpId, Dp>, ldps: Ldps, rules: seq<RuleId>,
                      now: int, flooding: nat, p: Pair, l: Ldp)
    requires PairsFit(links, dps, ldps, rules, now, flooding) && p in ldps && PairFits(l, rules, now, flooding)
    ensures PairsFit(links, dps, ldps[p := l], rules, now, flooding)
  {
  }

  lemma BackedByRoutine(ldps: Ldps, dps: map<DpId, Dp>, advps: Advps, p: Pair, l: Ldp)
    requires AllBacked(ldps, dps, advps) && l.routine
    ensures AllBacked(ldps[p := l], dps, advps)
  {
  }

  lemma BackedAfter(ldps: Ldps, dps: map<DpId, Dp>, advps: Advps, p: Pair, l: Ldp)
    requires AllBacked(ldps, dps, advps) && p in ldps
    requires l.isPublished == ldps[p].isPublished && l.isAdopting == ldps[p].isAdopting && l.prefix == ldps[p].prefix
    requires l.isAssigned == ldps[p].isAssigned && l.routine == ldps[p].routine
    ensures AllBacked(ldps[p := l], dps, advps)
  {
    assert p.dp in dps ==> Backed(ldps[p], p.link, dps[p.dp].prefix, advps);
  }

  // ---------- pairs are scheduled ----------

  function Scheduled(ldps: Ldps, s: set<Pair>): Ldps {
    map p | p in ldps :: if p in s then ldps[p].(routine := true) else ldps[p]
  }

  lemma ScheduledFits(links: map<LinkId, Option<LinkId>>, dps: map<DpId, Dp>, ldps: Ldps, advps: Advps,
                      trie: set<Entry>,
                      rules: seq<RuleId>, log: seq<Note>, now: int, flooding: nat, s: set<Pair>)
    requires PairsFit(links, dps, ldps, rules, now, flooding) && TrieFits(trie, ldps, advps) && LogFits(log, ldps)
    ensures var r := Scheduled(ldps, s);
            PairsFit(links, dps, r, rules, now, flooding) && TrieFits(trie, r, advps) && LogFits(log, r)
  {
    var r := Scheduled(ldps, s);
    forall p | p in r ensures PairFits(r[p], rules, now, flooding) {
      assert PairFits(ldps[p], rules, now, flooding);
    }
    forall e ensures e in trie <==> Belongs(e, r, advps) {
      assert e in trie <==> Belongs(e, ldps, advps);
    }
    forall p ensures Heard(log, p) == NestAt(r, p) {
      assert Heard(log, p) == NestAt(ldps, p);
    }
  }

  lemma ScheduledBacked(ldps: Ldps, dps: map<DpId, Dp>, advps: Advps, s: set<Pair>)
    requires AllBacked(ldps, dps, advps)
    ensures AllBacked(Scheduled(ldps, s), dps, advps)
  {
  }

  lemma ScheduledBackedBut(ldps: Ldps, dps: map<DpId, Dp>, advps: Advps, s: set<Pair>, x: Pair)
    requires AllBackedBut(ldps, dps, advps, x)
    ensures AllBackedBut(Scheduled(ldps, s), dps, advps, x)
  {
  }

  // ---------- a prefix is given up ----------

  /** The pairs that may use the space p gives up (src/pa_core.c:178-184) */
  ghost function Waiting(ldps: Ldps, p: Pair): set<Pair> {
    set q | q in ldps && q.dp == p.dp && !ldps[q].isAssigned && q != p
  }

  /** pa_ldp_unassign as a whole */
  ghost function AfterUnassign(ldps: Ldps, p: Pair, now: int, flooding: nat): Ldps
    requires p in ldps
  {
    if ldps[p].isAssigned then Scheduled(ldps[p := Unassigned(ldps[p], now, flooding)], Waiting(ldps, p)) else ldps
  }

  /** In the fields: the pair itself ends without anything pending, the other pairs of the delegated prefix
      that have no prefix are scheduled, and no other pair changes. */
  lemma UnassignIs(ldps: Ldps, p: Pair, now: int, flooding: nat, q: Pair)
    requires p in ldps && q in ldps && ldps[p].isAssigned
    ensures var r := AfterUnassign(ldps, p, now, flooding);
            && r.Keys == ldps.Keys && r[q].prefix == ldps[q].prefix
            && if q == p then
                 && !r[q].isAssigned && !r[q].isPublished && !r[q].isAdopting && !r[q].isApplied && !r[q].haPending
                 && r[q].timer.None? && r[q].routine == ldps[q].routine
               else
                 r[q] == if q.dp == p.dp && !ldps[q].isAssigned then ldps[q].(routine := true) else ldps[q]
  {
  }

  lemma UnassignBacked(ldps: Ldps, dps: map<DpId, Dp>, advps: Advps, p: Pair, now: int, flooding: nat)
    requires p in ldps && AllBacked(ldps, dps, advps)
    ensures AllBacked(AfterUnassign(ldps, p, now, flooding), dps, advps)
  {
    ScheduledBacked(ldps[p := Unassigned(ldps[p], now, flooding)], dps, advps, Waiting(ldps, p));
  }

  lemma UnassignBackedBut(ldps: Ldps, dps: map<DpId, Dp>, advps: Advps, p: Pair, now: int, flooding: nat, x: Pair)
    requires p in ldps && AllBackedBut(ldps, dps, advps, x)
    ensures AllBackedBut(AfterUnassign(ldps, p, now, flooding), dps, advps, x)
  {
    ScheduledBackedBut(ldps[p := Unassigned(ldps[p], now, flooding)], dps, advps, Waiting(ldps, p), x);
  }

  /** q had a prefix and does not have it any more. */
  ghost predicate Lost(before: Ldps, after: Ldps, q: Pair) {
    q in before && before[q].isAssigned && !(q in after && after[q].isAssigned && after[q].prefix == before[q].prefix)
  }

  /** Space that q gives up is noticed by w: if both are pairs of one delegated prefix and w has no
      prefix, it is scheduled (src/pa_core.c:178-184). */
  ghost predicate Notices(before: Ldps, after: Ldps, q: Pair, w: Pair)
    requires w in before && w in after
  {
    Lost(before, after, q) && q != w && q.dp == w.dp && !before[w].isAssigned && !after[w].isAssigned ==>
      after[w].routine
  }

  ghost predicate SpaceNoticed(before: Ldps, after: Ldps) {
    forall q, w | w in before && w in after :: Notices(before, after, q, w)
  }

  ghost predicate SpaceNoticedBut(before: Ldps, after: Ldps, p: Pair) {
    forall q, w | w in before && w in after && w != p :: Notices(before, after, q, w)
  }

  /** Some pairs have been unassigned; the others are as they were, or have been scheduled. */
  ghost predicate UnassignedSome(before: Ldps, after: Ldps, done: set<Pair>) {
    && after.Keys == before.Keys && SpaceNoticed(before, after)
    && forall p | p in after ::
      if p in done then !after[p].isAssigned && (before[p].routine ==> after[p].routine)
      else OnlyScheduled(before[p], after[p])
  }

  lemma UnassignedOneMore(before: Ldps, mid: Ldps, after: Ldps, done: set<Pair>, p: Pair)
    requires UnassignedSome(before, mid, done) && UnassignedSome(mid, after, {p})
    ensures UnassignedSome(before, after, done + {p})
  {
    forall q | q in after && q !in done + {p} ensures OnlyScheduled(before[q], after[q]) {
      assert OnlyScheduled(before[q], mid[q]) && OnlyScheduled(mid[q], after[q]);
    }
    forall q, w | w in before && w in after ensures Notices(before, after, q, w) {
      NoticedBoth(before, mid, after, q, w);
    }
  }

  lemma UnassignedOneOf(ldps: Ldps, p: Pair, now: int, flooding: nat)
    requires p in ldps && !Unassigned(ldps[p], now, flooding).isAssigned
    ensures UnassignedSome(ldps, AfterUnassign(ldps, p, now, flooding), {p})
  {
  }

  /** A pair that never had a prefix notices what is lost in two steps. */
  lemma NoticedBoth(a: Ldps, b: Ldps, c: Ldps, q: Pair, w: Pair)
    requires w in a && w in b && w in c && Notices(a, b, q, w) && Notices(b, c, q, w)
    requires !a[w].isAssigned ==> !b[w].isAssigned
    requires b[w].routine && !b[w].isAssigned && !c[w].isAssigned ==> c[w].routine
    ensures Notices(a, c, q, w)
  {
  }

  // ---------- overlapping assignments ----------

  /** The other pairs whose assigned prefix overlaps this one */
  ghost function Conflicts(ldps: Ldps, p: Pair, prefix: Bits): set<Pair> {
    set q | q in ldps && q != p && ldps[q].isAssigned && Comparable(ldps[q].prefix, prefix)
  }

  /** They are what the walk over the trie finds. */
  lemma ConflictsInTrie(trie: set<Entry>, ldps: Ldps, advps: Advps, p: Pair, prefix: Bits, found: set<Pair>)
    requires TrieFits(trie, ldps, advps)
    requires found == set e | e in trie && e.AssignedTo? && Comparable(e.prefix, prefix) && e.pair != p :: e.pair
    ensures found == Conflicts(ldps, p, prefix)
  {
    assert forall e | e in trie :: Belongs(e, ldps, advps);
    forall q | q in Conflicts(ldps, p, prefix) ensures q in found {
      assert Belongs(AssignedTo(ldps[q].prefix, q), ldps, advps);
    }
  }

  /** Nothing has changed, except that the pair may have been scheduled. */
  ghost predicate OnlyScheduled(l: Ldp, l': Ldp) {
    l' == l.(routine := l.routine || l'.routine)
  }

  lemma UnassignConflicts(ldps: Ldps, q: Pair, now: int, flooding: nat, p: Pair, prefix: Bits)
    requires q in ldps && (ldps[q].isAssigned ==> !Unassigned(ldps[q], now, flooding).isAssigned)
    ensures var r := AfterUnassign(ldps, q, now, flooding);
            && r.Keys == ldps.Keys && Conflicts(r, p, prefix) == Conflicts(ldps, p, prefix) - {q}
            && forall x | x in ldps && x != q :: OnlyScheduled(ldps[x], r[x])
  {
  }

  lemma ScheduledConflicts(ldps: Ldps, s: set<Pair>, p: Pair, prefix: Bits)
    ensures var r := Scheduled(ldps, s);
            && r.Keys == ldps.Keys && Conflicts(r, p, prefix) == Conflicts(ldps, p, prefix)
            && forall x | x in ldps :: OnlyScheduled(ldps[x], r[x])
  {
  }

  lemma OwnConflicts(ldps: Ldps, p: Pair, l: Ldp, prefix: Bits)
    requires p in ldps
    ensures Conflicts(ldps[p := l], p, prefix) == Conflicts(ldps, p, prefix)
  {
  }

  // ---------- pairs come and go ----------

  lemma DroppedFits(links: map<LinkId, Option<LinkId>>, dps: map<DpId, Dp>, ldps: Ldps, advps: Advps, trie: set<Entry>,
                    rules: seq<RuleId>, log: seq<Note>, now: int, flooding: nat, s: set<Pair>)
    requires PairsFit(links, dps, ldps, rules, now, flooding) && TrieFits(trie, ldps, advps) && LogFits(log, ldps)
    requires forall p | p in s && p in ldps :: !ldps[p].isAssigned
    ensures PairsFit(links, dps, ldps - s, rules, now, flooding) && TrieFits(trie, ldps - s, advps)
    ensures LogFits(log, ldps - s)
    ensures AllBacked(ldps, dps, advps) ==> AllBacked(ldps - s, dps, advps)
  {
    var r := ldps - s;
    forall e ensures e in trie <==> Belongs(e, r, advps) {
      assert e in trie <==> Belongs(e, ldps, advps);
    }
    forall p ensures Heard(log, p) == NestAt(r, p) {
      assert Heard(log, p) == NestAt(ldps, p);
    }
  }

  /** pa_ldp_create for a number of pairs */
  function Created(ldps: Ldps, s: set<Pair>): Ldps {
    ldps + map p | p in s :: NEW_LDP
  }

  lemma CreatedMore(ldps: Ldps, s: set<Pair>, p: Pair)
    ensures Created(ldps, s)[p := NEW_LDP] == Created(ldps, s + {p})
  {
  }

  lemma CreatedFits(links: map<LinkId, Option<LinkId>>, dps: map<DpId, Dp>, ldps: Ldps, advps: Advps, trie: set<Entry>,
                    rules: seq<RuleId>, log: seq<Note>, now: int, flooding: nat, p: Pair)
    requires PairsFit(links, dps, ldps, rules, now, flooding) && TrieFits(trie, ldps, advps) && LogFits(log, ldps)
    requires p !in ldps && p.link in links && p.dp in dps
    ensures var r := ldps[p := NEW_LDP];
            && PairsFit(links, dps, r, rules, now, flooding) && TrieFits(trie, r, advps) && LogFits(log, r)
            && (AllBacked(ldps, dps, advps) ==> AllBacked(r, dps, advps))
  {
    var r := ldps[p := NEW_LDP];
    forall e ensures e in trie <==> Belongs(e, r, advps) {
      assert e in trie <==> Belongs(e, ldps, advps);
    }
    forall q ensures Heard(log, q) == NestAt(r, q) {
      assert Heard(log, q) == NestAt(ldps, q);
    }
  }

  // ---------- advertisements change ----------

  /** The pairs of the delegated prefixes that a prefix concerns (src/pa_core.c:601-613) */
  ghost function Concerned(ldps: Ldps, dps: map<DpId, Dp>, prefix: Bits): set<Pair> {
    set p | p in ldps && p.dp in dps && Comparable(dps[p.dp].prefix, prefix)
  }

  /** Whatever happens to one advertisement, the pairs that are not scheduled stay backed. */
  lemma StillBacked(ldps: Ldps, dps: map<DpId, Dp>, advps: Advps, advps': Advps, prefix: Bits)
    requires AllBacked(ldps, dps, advps)
    requires forall a | a in advps && advps[a].prefix != prefix :: a in advps' && advps'[a] == advps[a]
    ensures AllBacked(Scheduled(ldps, Concerned(ldps, dps, prefix)), dps, advps')
  {
    var r := Scheduled(ldps, Concerned(ldps, dps, prefix));
    forall p | p in r && p.dp in dps ensures Backed(r[p], p.link, dps[p.dp].prefix, advps') {
      assert Backed(ldps[p], p.link, dps[p.dp].prefix, advps);
      if p !in Concerned(ldps, dps, prefix) && OnLink(advps, p.link, r[p].prefix, dps[p.dp].prefix) {
        var a :| a in advps && advps[a].link == Some(p.link) && advps[a].prefix == r[p].prefix;
        assert advps[a].prefix != prefix;
      }
    }
  }

  /** An advertisement that comes or goes, or changes, is heeded by the pairs that it concerns. */
  lemma StillHeeded(ldps: Ldps, dps: map<DpId, Dp>, advps: Advps, advps': Advps, prefix: Bits)
    requires forall a | a in advps' && advps'[a].prefix != prefix :: a in advps && advps'[a] == advps[a]
    ensures KeepHeeding(ldps, advps, Scheduled(ldps, Concerned(ldps, dps, prefix)), advps', dps, {})
  {
    var r := Scheduled(ldps, Concerned(ldps, dps, prefix));
    forall p | p in r && p.dp in dps && Heeds(ldps[p], p.link, dps[p.dp].prefix, advps)
      ensures Heeds(r[p], p.link, dps[p.dp].prefix, advps')
    {
      if p !in Concerned(ldps, dps, prefix) && !ldps[p].isAssigned && !ldps[p].routine {
        forall a | a in advps' && advps'[a].link == Some(p.link)
          ensures !Comparable(advps'[a].prefix, dps[p.dp].prefix)
        {
          assert advps'[a].prefix != prefix ==> advps'[a] == advps[a];
        }
      }
    }
  }

  lemma TrieFitsWith(trie: set<Entry>, trie': set<Entry>, ldps: Ldps, advps: Advps, a: AdvpId, x: Advp)
    requires TrieFits(trie, ldps, advps)
    requires forall e :: e in trie' <==> if e.AdvertisedAs? && e.advp == a then e.prefix == x.prefix else e in trie
    ensures TrieFits(trie', ldps, advps[a := x])
  {
    forall e ensures e in trie' <==> Belongs(e, ldps, advps[a := x]) {
      assert e in trie <==> Belongs(e, ldps, advps);
    }
  }

  lemma TrieFitsWithout(trie: set<Entry>, trie': set<Entry>, ldps: Ldps, advps: Advps, a: AdvpId)
    requires TrieFits(trie, ldps, advps)
    requires forall e :: e in trie' <==> e in trie && !(e.AdvertisedAs? && e.advp == a)
    ensures TrieFits(trie', ldps, advps - {a})
  {
    forall e ensures e in trie' <==> Belongs(e, ldps, advps - {a}) {
      assert e in trie <==> Belongs(e, ldps, advps);
    }
  }
}
