/**
  The prefix assignment core (src/pa_core.c): the routine, the timers, and every event that
  reaches the core.
 */
module PaCoreModel {
  import opened Wrappers
  import opened FreeSpace
  import opened PaLdp
  import opened PaState
  import opened PaOutcome

  /** pa_precedes (src/pa_core.c:36-38) */
  ghost predicate Precedes(a: Advp, l: Ldp, node: nat) {
    !l.isPublished || a.priority > l.priority || (a.priority == l.priority && a.node != node)
  }

  /** x is the best advertisement on the link for the delegated prefix: none has a higher priority, or the
      same and a higher node identifier (src/pa_core.c:247-259). */
  ghost predicate Leading(x: Advp, advps: Advps, link: LinkId, dp: Bits) {
    && Concerns(x, link, dp)
    && forall a | a in advps && Concerns(advps[a], link, dp) :: !Better(advps[a], x)
  }

  ghost predicate Better(x: Advp, y: Advp) {
    x.priority > y.priority || (x.priority == y.priority && x.node > y.node)
  }

  /** Two nodes publish prefixes that overlap, and hear of each other: the one with the lower priority
      yields; with equal priorities both do, whatever their identifiers. */
  lemma WhoYields(x: Ldp, y: Ldp, nodeX: nat, nodeY: nat, ax: Advp, ay: Advp)
    requires x.isPublished && y.isPublished && nodeX != nodeY
    requires ax.priority == x.priority && ax.node == nodeX && ay.priority == y.priority && ay.node == nodeY
    ensures Precedes(ay, x, nodeX) <==> y.priority >= x.priority
    ensures Precedes(ay, x, nodeX) && Precedes(ax, y, nodeY) <==> x.priority == y.priority
  {
  }

  /** No advertisement that overlaps the prefix takes precedence. */
  ghost predicate Undisputed(advps: Advps, l: Ldp, node: nat) {
    forall a | a in advps && Comparable(advps[a].prefix, l.prefix) :: !Precedes(advps[a], l, node)
  }

  /** Whether pa_ldp_global_valid keeps the prefix of p (src/pa_core.c:211-222).  It takes every entry that
      overlaps for an advertisement, other pairs too. */
  ghost predicate GloballyValid(ldps: Ldps, advps: Advps, p: Pair, node: nat, misread: Pair -> bool)
    requires p in ldps
  {
    && Undisputed(advps, ldps[p], node)
    && forall q | q in Conflicts(ldps, p, ldps[p].prefix) :: ldps[p].isPublished && !misread(q)
  }

  /** Whether the algorithm keeps the prefix of p (src/pa_core.c:270-275) */
  ghost predicate Keeps(ldps: Ldps, advps: Advps, p: Pair, best: Option<AdvpId>, node: nat, misread: Pair -> bool)
    requires p in ldps && (best.Some? ==> best.value in advps)
  {
    if best.Some? then ldps[p].prefix == advps[best.value].prefix
    else GloballyValid(ldps, advps, p, node, misread)
  }

  function PrefixOf(advps: Advps, best: Option<AdvpId>): Option<Bits>
    requires best.Some? ==> best.value in advps
  {
    if best.Some? then Some(advps[best.value].prefix) else None
  }

  /** The rule gave this answer. */
  ghost predicate Answered(rule: RuleId, m: Match, l: Ldp, hasBest: bool, ask: Matcher) {
    exists b: nat :: m == ask(rule, l, hasBest, b)
  }

  /** a is advertised on the link, and overlaps the delegated prefix. */
  ghost predicate Concerns(a: Advp, link: LinkId, dp: Bits) {
    a.link == Some(link) && Comparable(a.prefix, dp)
  }

  class PaCore {
    var node: nat
    var flooding: nat
    var now: int
    var links: map<LinkId, Option<LinkId>>  // each with its parent link, if any
    var dps: map<DpId, Dp>
    var ldps: Ldps
    var advps: Advps
    var trie: set<Entry>
    var rules: seq<RuleId>
    var log: seq<Note>                      // the callbacks made to users

    ghost predicate Good()
      reads this
    {
      && PairsFit(links, dps, ldps, rules, now, flooding)
      && TrieFits(trie, ldps, advps)
      && LogFits(log, ldps)
    }

    ghost predicate Valid()
      reads this
    {
      Good() && AllBacked(ldps, dps, advps)
    }

    /** What holds while the routine of p runs. */
    ghost predicate ValidBut(p: Pair)
      reads this
    {
      Good() && p in ldps && AllBackedBut(ldps, dps, advps, p)
    }

    /** pa_core_init (src/pa_core.c:705-720) */
    constructor ()
      ensures Valid() && ldps == map[] && advps == map[] && trie == {} && rules == [] && log == []
      ensures links == map[] && dps == map[] && flooding == 10000 && node == 0 && Paired(links, dps, ldps.Keys)
    {
      node, flooding, now, links, dps := 0, 10000, 0, map[], map[];
      ldps, advps, trie, rules, log := map[], map[], {}, [], [];
    }

    // ---------- transitions of one pair ----------

    /** A pair's record changes and users hear about it; the trie stays. */
    method Put(p: Pair, l: Ldp, events: seq<Event>)
      requires Good() && p in ldps
      requires PairFits(l, rules, now, flooding) && Walk(NestOf(ldps[p]), l.prefix, events) == NestOf(l)
      requires l.isAssigned == ldps[p].isAssigned && l.prefix == ldps[p].prefix
      modifies this`ldps, this`log
      ensures Good() && ldps == old(ldps)[p := l] && log == old(log) + Notes(p, l.prefix, events)
    {
      LogFitsAfter(log, ldps, p, l, events);
      PairsFitAfter(links, dps, ldps, rules, now, flooding, p, l);
      TrieFitsAfter(trie, trie, ldps, advps, p, l);
      ldps := ldps[p := l];
      log := log + Notes(p, l.prefix, events);
    }

    /** pa_ldp_apply (src/pa_core.c:58-76); a pair below an assigned pair of a parent core waits
        for that one. */
    method Apply(p: Pair, parentApplied: bool)
      requires Good() && p in ldps && ldps[p].isAssigned && Ripe(ldps[p])
      modifies this`ldps, this`log
      ensures Good() && ldps == old(ldps)[p := Applied(old(ldps)[p], parentApplied)] && old(log) <= log
    {
      AppliedOk(ldps[p], now, flooding, parentApplied);
      if ldps[p].isApplied {
        assert ldps == ldps[p := ldps[p]];
        return;
      }
      if !parentApplied {
        Put(p, ldps[p].(haPending := true), []);
        return;
      }
      Put(p, ldps[p].(isApplied := true, haPending := false), [EApplied(true)]);
    }

    /** pa_ldp_unpublish (src/pa_core.c:78-94) */
    method Unpublish(p: Pair, cancelApply: bool)
      requires Good() && p in ldps
      modifies this`ldps, this`log
      ensures Quiet(old(log), log)
      ensures Good() && ldps == old(ldps)[p := Unpublished(old(ldps)[p], cancelApply)]
    {
      UnpublishedOk(ldps[p], cancelApply, now, flooding);
      if !ldps[p].isPublished {
        assert ldps == ldps[p := ldps[p]];
        return;
      }
      var timer := if cancelApply then None else ldps[p].timer;
      Put(p, ldps[p].(rule := None, priority := 0, rulePriority := 0, timer := timer, isPublished := false),
          [EPublished(false)]);
    }

    /** pa_ldp_unadopt (src/pa_core.c:96-111) */
    method Unadopt(p: Pair)
      requires Good() && p in ldps
      modifies this`ldps, this`log
      ensures Quiet(old(log), log)
      ensures Good() && ldps == old(ldps)[p := Unadopted(old(ldps)[p], now, flooding)]
    {
      UnadoptedOk(ldps[p], now, flooding);
      DoubledDelay(flooding);
      if !ldps[p].isAdopting {
        assert ldps == ldps[p := ldps[p]];
        return;
      }
      var timer := if !ldps[p].isApplied then Some(now + Int32(flooding * 2)) else ldps[p].timer;
      Put(p, ldps[p].(rule := None, priority := 0, rulePriority := 0, timer := timer, isAdopting := false), []);
    }

    /** pa_ldp_publish (src/pa_core.c:113-132) */
    method PublishPair(p: Pair, rule: RuleId, priority: nat, rulePriority: nat)
      requires Good() && p in ldps && ldps[p].isAssigned && rule in rules
      modifies this`ldps, this`log
      ensures Quiet(old(log), log)
      ensures Good() && ldps == old(ldps)[p := Published(old(ldps)[p], now, flooding, rule, priority, rulePriority)]
    {
      PublishedOk(ldps[p], now, flooding, rule, priority, rulePriority);
      if ldps[p].isPublished {
        assert ldps == ldps[p := ldps[p]];
        return;
      }
      Unadopt(p);
      Put(p, ldps[p].(rule := Some(rule), priority := priority, rulePriority := rulePriority, isPublished := true),
          [EPublished(true)]);
    }

    /** pa_ldp_adopt (src/pa_core.c:134-153) */
    method AdoptPair(p: Pair, rule: RuleId, priority: nat, rulePriority: nat, delay: nat)
      requires Good() && p in ldps && ldps[p].isAssigned && !ldps[p].isPublished && rule in rules
      modifies this`ldps, this`log
      ensures Quiet(old(log), log)
      ensures Good() && ldps == old(ldps)[p := Adopted(old(ldps)[p], now, delay, rule, priority, rulePriority)]
    {
      AdoptedOk(ldps[p], now, flooding, delay, rule, priority, rulePriority);
      if ldps[p].isAdopting {
        assert ldps == ldps[p := ldps[p]];
        return;
      }
      Unpublish(p, true);
      Put(p, ldps[p].(rule := Some(rule), priority := priority, rulePriority := rulePriority, isAdopting := true,
                      timer := Some(now + delay)), []);
    }

    /** pa_ldp_unassign (src/pa_core.c:155-185) */
    method Unassign(p: Pair)
      requires Good() && p in ldps
      modifies this`ldps, this`log, this`trie
      ensures Quiet(old(log), log)
      ensures Good() && ldps == AfterUnassign(old(ldps), p, now, flooding)
    {
      if !ldps[p].isAssigned {
        return;
      }
      ghost var before := ldps;
      Withdraw(p);
      assert Waiting(before, p) == Waiting(ldps, p);
      ScheduleThese(set q | q in ldps && q.dp == p.dp && !ldps[q].isAssigned && q != p);
    }

    /** Its part about the pair itself */
    method Withdraw(p: Pair)
      requires Good() && p in ldps && ldps[p].isAssigned
      modifies this`ldps, this`log, this`trie
      ensures Quiet(old(log), log)
      ensures Good() && ldps == old(ldps)[p := Unassigned(old(ldps)[p], now, flooding)]
    {
      var l, events := Strip(ldps[p]);
      UnassignedOk(ldps[p], now, flooding);
      LogFitsAfter(log, ldps, p, l, events);
      QuietNotes(log, p, l.prefix, events);
      PairsFitAfter(links, dps, ldps, rules, now, flooding, p, l);
      LeavesTrie(trie, ldps, advps, p, l);
      Replace(p, l, events, trie - {AssignedTo(l.prefix, p)});
    }

    method Replace(p: Pair, l: Ldp, events: seq<Event>, after: set<Entry>)
      modifies this`ldps, this`log, this`trie
      ensures ldps == old(ldps)[p := l] && log == old(log) + Notes(p, l.prefix, events) && trie == after
    {
      trie, ldps, log := after, ldps[p := l], log + Notes(p, l.prefix, events);
    }

    /** The flags and timers of a pair that is unassigned, and the callbacks on the way */
    method Strip(before: Ldp) returns (l: Ldp, events: seq<Event>)
      requires before.isAssigned
      ensures l == Unassigned(before, now, flooding) && events == UnassignEvents(before) && l.prefix == before.prefix
      ensures !l.isAssigned && forall i | 0 <= i < |events| :: events[i] != EApplied(true)
    {
      l, events := before.(haPending := false), [];
      if l.isApplied {
        l := l.(isApplied := false);
        events := events + [EApplied(false)];
      }
      events := events + UnpublishEvents(l);
      l := Unpublished(l, true);
      l := Unadopted(l, now, flooding);
      l := l.(timer := None);
      l := l.(isAssigned := false);
      events := events + [EAssigned(false)];
    }

    /** pa_routine_schedule (src/pa_core.c:51-53) for a number of pairs */
    method ScheduleThese(s: set<Pair>)
      requires Good() && s <= ldps.Keys
      modifies this`ldps
      ensures Good() && ldps == Scheduled(old(ldps), s)
    {
      ghost var before := ldps;
      ScheduledFits(links, dps, ldps, advps, trie, rules, log, now, flooding, s);
      var todo := s;
      while todo != {}
        invariant todo <= s && ldps == Scheduled(before, s - todo)
        decreases todo
      {
        var q :| q in todo;
        if !ldps[q].routine {
          ldps := ldps[q := ldps[q].(routine := true)];
        }
        todo := todo - {q};
      }
      assert s - {} == s;
    }

    /** pa_ldp_assign (src/pa_core.c:187-209) */
    method Assign(p: Pair, prefix: Bits)
      requires Good() && p in ldps && !ldps[p].isAssigned
      modifies this`ldps, this`log, this`trie
      ensures Quiet(old(log), log)
      ensures Good() && ldps == old(ldps)[p := Assigned(old(ldps)[p], now, flooding, prefix)]
    {
      var l := ldps[p];
      AssignedOk(l, now, flooding, prefix);
      DoubledDelay(flooding);
      ghost var r := Assigned(l, now, flooding, prefix);
      LogFitsAfter(log, ldps, p, r, [EAssigned(true)]);
      PairsFitAfter(links, dps, ldps, rules, now, flooding, p, r);
      EntersTrie(trie, ldps, advps, p, r);
      QuietNotes(log, p, prefix, [EAssigned(true)]);
      l := l.(prefix := prefix);
      l := l.(timer := Some(now + Int32(2 * flooding)), isAssigned := true, assignedAt := now);
      Replace(p, l, [EAssigned(true)], trie + {AssignedTo(prefix, p)});
    }

    // ---------- the routine ----------

    /** The best advertisement on the link for the delegated prefix (src/pa_core.c:247-259) */
    method FindBest(p: Pair) returns (best: Option<AdvpId>)
      requires Good() && p in ldps
      ensures best.Some? ==> best.value in advps && Leading(advps[best.value], advps, p.link, dps[p.dp].prefix)
      ensures best.None? ==> forall a | a in advps :: !Concerns(advps[a], p.link, dps[p.dp].prefix)
    {
      best := None;
      var dp := dps[p.dp].prefix;
      var todo := set e | e in trie && Comparable(e.prefix, dp);
      while todo != {}
        invariant todo <= trie
        invariant best.Some? ==> best.value in advps && Concerns(advps[best.value], p.link, dp)
        invariant forall a |
          a in advps && Concerns(advps[a], p.link, dp) && AdvertisedAs(advps[a].prefix, a) !in todo ::
          best.Some? && !Better(advps[a], advps[best.value])
        decreases todo
      {
        var e :| e in todo;
        if e.AdvertisedAs? {
          assert Belongs(e, ldps, advps);
          var x := advps[e.advp];
          if x.link == Some(p.link) && (best.None? || x.priority > advps[best.value].priority
                                        || (x.priority == advps[best.value].priority
                                            && x.node > advps[best.value].node)) {
            best := Some(e.advp);
          }
        }
        todo := todo - {e};
      }
    }

    /** pa_ldp_global_valid (src/pa_core.c:211-222) */
    method GlobalValid(p: Pair, misread: Pair -> bool) returns (valid: bool)
      requires Good() && p in ldps
      ensures valid <==> GloballyValid(ldps, advps, p, node, misread)
      ensures Conflicts(ldps, p, ldps[p].prefix) == {} ==> (valid <==> Undisputed(advps, ldps[p], node))
    {
      var l := ldps[p];
      var todo := set e | e in trie && Comparable(e.prefix, l.prefix) && !(e.AssignedTo? && e.pair == p);
      while todo != {}
        invariant todo <= trie
        invariant forall e | e in trie && e !in todo && Comparable(e.prefix, l.prefix) ::
          !Objects(e, l, p, advps, node, misread)
        decreases todo
      {
        var e :| e in todo;
        assert Belongs(e, ldps, advps);
        if Objects(e, l, p, advps, node, misread) {
          SomeoneObjects(trie, ldps, advps, p, node, misread, e);
          return false;
        }
        todo := todo - {e};
      }
      NobodyObjects(trie, ldps, advps, p, node, misread);
      return true;
    }

    /** The current prefix is kept if the algorithm would keep it (src/pa_core.c:265-282). */
    method CheckAssignment(p: Pair, found: Option<AdvpId>, misread: Pair -> bool) returns (best: Option<AdvpId>)
      requires ValidBut(p) && (found.Some? ==> found.value in advps)
      modifies this`ldps, this`log, this`trie
      ensures Quiet(old(log), log) && ValidBut(p) && OthersKeep(old(ldps), ldps, p, {})
      ensures best == if found.Some? && Precedes(advps[found.value], old(ldps)[p], node) then found else None
      ensures ldps[p] == Checked(old(ldps)[p], PrefixOf(advps, best), Keeps(old(ldps), advps, p, best, node, misread),
                                 now, flooding)
      ensures FitsBest(ldps[p], PrefixOf(advps, best))
    {
      best := BestThatPrecedes(p, found);
      KeepOrUnassign(p, best, misread);
      ghost var before := ldps;
      if best.Some? {
        UnadoptSelf(p);
        OthersKeepBoth(old(ldps), before, ldps, p, {}, {});
      }
      CheckedFits(old(ldps)[p], PrefixOf(advps, best), Keeps(old(ldps), advps, p, best, node, misread), now, flooding);
    }

    /** A best assignment that does not take precedence is none (src/pa_core.c:265-266). */
    method BestThatPrecedes(p: Pair, found: Option<AdvpId>) returns (best: Option<AdvpId>)
      requires p in ldps && (found.Some? ==> found.value in advps)
      ensures best == if found.Some? && Precedes(advps[found.value], ldps[p], node) then found else None
    {
      best := found;
      if best.Some? {
        var x, l := advps[best.value], ldps[p];
        if l.isPublished && (x.priority < l.priority || (x.priority == l.priority && x.node == node)) {
          best := None;
        }
      }
    }

    method KeepOrUnassign(p: Pair, best: Option<AdvpId>, misread: Pair -> bool)
      requires ValidBut(p) && (best.Some? ==> best.value in advps)
      modifies this`ldps, this`log, this`trie
      ensures Quiet(old(log), log) && ValidBut(p) && OthersKeep(old(ldps), ldps, p, {})
      ensures ldps[p] == Checked(old(ldps)[p], None, Keeps(old(ldps), advps, p, best, node, misread), now, flooding)
    {
      if ldps[p].isAssigned {
        var valid := KeepsPrefix(p, best, misread);
        if !valid {
          UnassignSelf(p);
        }
      }
    }

    /** Unassign the pair whose routine runs. */
    method UnassignSelf(p: Pair)
      requires ValidBut(p)
      modifies this`ldps, this`log, this`trie
      ensures Quiet(old(log), log)
      ensures ValidBut(p) && !ldps[p].isAssigned && !ldps[p].isPublished && !ldps[p].isAdopting
      ensures ldps == AfterUnassign(old(ldps), p, now, flooding)
      ensures ldps[p] == Unassigned(old(ldps)[p], now, flooding) && OthersKeep(old(ldps), ldps, p, {})
    {
      UnassignOthers(ldps, p, now, flooding);
      UnassignBackedBut(ldps, dps, advps, p, now, flooding, p);
      UnassignedOk(ldps[p], now, flooding);
      Unassign(p);
    }

    method UnadoptSelf(p: Pair)
      requires ValidBut(p)
      modifies this`ldps, this`log
      ensures Quiet(old(log), log)
      ensures ValidBut(p) && ldps[p] == Unadopted(old(ldps)[p], now, flooding) && OthersKeep(old(ldps), ldps, p, {})
    {
      OwnChange(ldps, p, Unadopted(ldps[p], now, flooding));
      Unadopt(p);
    }

    /** Whether the algorithm would keep the prefix (src/pa_core.c:270-275) */
    method KeepsPrefix(p: Pair, best: Option<AdvpId>, misread: Pair -> bool) returns (valid: bool)
      requires Good() && p in ldps && (best.Some? ==> best.value in advps)
      ensures valid == Keeps(ldps, advps, p, best, node, misread)
    {
      if best.None? {
        valid := GlobalValid(p, misread);
      } else {
        valid := ldps[p].prefix == advps[best.value].prefix;
      }
    }

    /** Sort the rules to ask by descending maximal priority (src/pa_core.c:293-314). */
    method SortRules(l: Ldp, max: MaxPriority) returns (sorted: seq<RuleId>)
      ensures Descending(sorted, l, max)
      ensures forall r :: r in sorted <==> r in rules && max(r, l) > 0
      ensures forall v: nat | v > 0 :: OfPriority(sorted, l, max, v) == OfPriority(rules, l, max, v)
    {
      sorted := [];
      for i := 0 to |rules|
        invariant Descending(sorted, l, max)
        invariant forall r :: r in sorted <==> r in rules[..i] && max(r, l) > 0
        invariant forall v: nat | v > 0 :: OfPriority(sorted, l, max, v) == OfPriority(rules[..i], l, max, v)
      {
        var rule := rules[i];
        assert rules[..i + 1] == rules[..i] + [rule] && rules[..i + 1][..i] == rules[..i];
        if max(rule, l) == 0 {
          continue;
        }
        var k := 0;
        while k < |sorted| && max(sorted[k], l) >= max(rule, l)
          invariant k <= |sorted|
          invariant forall j | 0 <= j < k :: max(sorted[j], l) >= max(rule, l)
        {
          k := k + 1;
        }
        InsertKeepsOrder(sorted, l, max, k, rule);
        forall v: nat ensures OfPriority(sorted[..k] + [rule] + sorted[k..], l, max, v) ==
            OfPriority(sorted, l, max, v) + if max(rule, l) == v then [rule] else [] {
          InsertedIsLast(sorted, l, max, k, rule, v);
        }
        sorted := sorted[..k] + [rule] + sorted[k..];
      }
      assert rules[..|rules|] == rules;
    }

    /** Ask the rules, best first (src/pa_core.c:316-341).  In the end no rule could do better, unless a
        BACKOFF came without its priority. */
    method PickRule(l: Ldp, hasBest: bool, max: MaxPriority, ask: Matcher) returns (rule: RuleId, m: Match)
      requires RulesBehave(max, ask)
      ensures Chooses(rules, l, hasBest, max, ask, rule, m)
      ensures BackoffsWeighed(max, ask) ==> Weighed(m, StartPriority(l), max(rule, l))
    {
      var sorted := SortRules(l, max);
      var best := if l.isPublished || l.isAdopting then l.rulePriority else 0;
      rule, m := 0, NoMatch;
      var i := 0;
      while i < |sorted| && max(sorted[i], l) > best
        invariant i <= |sorted| && best == Reached(m, l)
        invariant m != NoMatch ==> rule in rules && Answered(rule, m, l, hasBest, ask)
        invariant Allowed(m, l, hasBest)
        invariant BackoffsWeighed(max, ask) ==> StartPriority(l) <= best && Weighed(m, StartPriority(l), max(rule, l))
        invariant BackoffsWeighed(max, ask) ==> AllBeaten(sorted[..i], l, hasBest, max, ask, best)
      {
        var answer := ask(sorted[i], l, hasBest, best);
        assert Allowed(answer, l, hasBest) && (BackoffsWeighed(max, ask) ==> Weighed(answer, best, max(sorted[i], l)));
        assert sorted[i] in sorted;
        if BackoffsWeighed(max, ask) {
          OneMoreBeaten(sorted, i, l, hasBest, max, ask, best, answer);
        }
        if answer != NoMatch {
          rule, m, best := sorted[i], answer, answer.rulePriority;
        }
        i := i + 1;
      }
      if BackoffsWeighed(max, ask) {
        RestIsBeaten(rules, sorted, i, l, hasBest, max, ask, best);
      }
    }

    /** Take the prefix away from q while the routine of p runs. */
    method Evict(p: Pair, q: Pair, ghost prefix: Bits)
      requires ValidBut(p) && q in ldps && q != p
      modifies this`ldps, this`log, this`trie
      ensures Quiet(old(log), log)
      ensures ValidBut(p) && OthersKeep(old(ldps), ldps, p, {q}) && OnlyScheduled(old(ldps)[p], ldps[p])
      ensures Conflicts(ldps, p, prefix) == Conflicts(old(ldps), p, prefix) - {q}
    {
      UnassignBackedBut(ldps, dps, advps, q, now, flooding, p);
      UnassignedOk(ldps[q], now, flooding);
      UnassignConflicts(ldps, q, now, flooding, p, prefix);
      Unassign(q);
      ScheduledBackedBut(ldps, dps, advps, {q}, p);
      ScheduledConflicts(ldps, {q}, p, prefix);
      EvictOthers(old(ldps), p, q, now, flooding);
      ScheduleThese({q});
    }

    /** Unassign the other pairs whose prefix overlaps this one (src/pa_core.c:382-389). */
    method ClearConflicts(p: Pair, prefix: Bits)
      requires ValidBut(p)
      modifies this`ldps, this`log, this`trie
      ensures Quiet(old(log), log)
      ensures ValidBut(p) && OnlyScheduled(old(ldps)[p], ldps[p]) && Conflicts(ldps, p, prefix) == {}
      ensures OthersKeep(old(ldps), ldps, p, Conflicts(old(ldps), p, prefix))
    {
      var todo := set e | e in trie && e.AssignedTo? && Comparable(e.prefix, prefix) && e.pair != p :: e.pair;
      ConflictsInTrie(trie, ldps, advps, p, prefix, todo);
      while todo != {}
        invariant ValidBut(p) && Quiet(old(log), log) && Clearing(old(ldps), ldps, p, prefix, todo)
        decreases todo
      {
        var q :| q in todo;
        ghost var mid := ldps;
        Evict(p, q, prefix);
        ClearedOne(old(ldps), mid, ldps, p, q, prefix, todo);
        todo := todo - {q};
      }
    }

    /** Give up another prefix of this pair (src/pa_core.c:391-394). */
    method GiveUpOther(p: Pair, prefix: Bits)
      requires ValidBut(p) && Conflicts(ldps, p, prefix) == {}
      modifies this`ldps, this`log, this`trie
      ensures Quiet(old(log), log) && OthersKeep(old(ldps), ldps, p, {})
      ensures ValidBut(p) && Conflicts(ldps, p, prefix) == {} && (ldps[p].isAssigned ==> ldps[p].prefix == prefix)
      ensures ldps[p] == var l := old(ldps)[p];
                         if l.isAssigned && l.prefix == prefix then l else Unassigned(l, now, flooding)
    {
      if ldps[p].isAssigned && ldps[p].prefix != prefix {
        UnassignedOk(ldps[p], now, flooding);
        UnassignConflicts(ldps, p, now, flooding, p, prefix);
        UnassignSelf(p);
      }
    }

    /** Neither publish nor adopt the prefix, but keep it (src/pa_core.c:397-398, src/pa_core.c:423-424). */
    method LeaveToOthers(p: Pair)
      requires ValidBut(p)
      modifies this`ldps, this`log
      ensures Quiet(old(log), log) && ValidBut(p)
      ensures ldps == old(ldps)[p := Unadopted(Unpublished(old(ldps)[p], false), now, flooding)]
    {
      ghost var before := ldps;
      Unpublish(p, false);
      Unadopt(p);
      assert ldps == before[p := Unadopted(Unpublished(before[p], false), now, flooding)];
    }

    /** Have the prefix, neither published nor adopted (src/pa_core.c:396-401). */
    method MakeRoom(p: Pair, prefix: Bits)
      requires ValidBut(p) && Conflicts(ldps, p, prefix) == {} && (ldps[p].isAssigned ==> ldps[p].prefix == prefix)
      modifies this`ldps, this`log, this`trie
      ensures Quiet(old(log), log)
      ensures ValidBut(p) && Conflicts(ldps, p, prefix) == {} && ldps[p].isAssigned
      ensures ldps == old(ldps)[p := Placed(old(ldps)[p], prefix, now, flooding)]
    {
      ghost var before := ldps;
      if ldps[p].isAssigned {
        LeaveToOthers(p);
      } else {
        Assign(p, prefix);
      }
      OwnConflicts(before, p, ldps[p], prefix);
    }

    /** Take the prefix, from whoever has it (src/pa_core.c:382-401). */
    method TakePrefix(p: Pair, prefix: Bits)
      requires ValidBut(p)
      modifies this`ldps, this`log, this`trie
      ensures Quiet(old(log), log)
      ensures ValidBut(p) && Conflicts(ldps, p, prefix) == {} && ldps[p].isAssigned
      ensures OthersKeep(old(ldps), ldps, p, Conflicts(old(ldps), p, prefix))
      ensures OnlyScheduled(Placed(old(ldps)[p], prefix, now, flooding), ldps[p])
    {
      ghost var before := ldps;
      ClearConflicts(p, prefix);
      ghost var cleared, log1 := ldps, log;
      GiveUpOther(p, prefix);
      ghost var given, log2 := ldps, log;
      QuietBoth(old(log), log1, log2);
      MakeRoom(p, prefix);
      QuietBoth(old(log), log2, log);
      TakenInSteps(before, cleared, given, ldps, p, prefix, now, flooding);
    }

    /** PA_RULE_PUBLISH (src/pa_core.c:378-408) */
    method ActPublish(p: Pair, rule: RuleId, m: Match)
      requires ValidBut(p) && m.Publish? && rule in rules
      modifies this`ldps, this`log, this`trie
      ensures Quiet(old(log), log)
      ensures ValidBut(p) && Conflicts(ldps, p, m.prefix) == {}
      ensures OthersKeep(old(ldps), ldps, p, Conflicts(old(ldps), p, m.prefix))
      ensures OnlyScheduled(Published(Placed(old(ldps)[p], m.prefix, now, flooding), now, flooding, rule, m.priority,
                                      m.rulePriority),
                            ldps[p])
    {
      ghost var before := ldps;
      TakePrefix(p, m.prefix);
      ghost var mid := log;
      OwnConflicts(ldps, p, Published(ldps[p], now, flooding, rule, m.priority, m.rulePriority), m.prefix);
      PublishedInSteps(before, ldps, p, m, rule, now, flooding);
      PublishPair(p, rule, m.priority, m.rulePriority);
      QuietBoth(old(log), mid, log);
    }

    /** Act upon the best rule (src/pa_core.c:348-412). */
    method Act(p: Pair, best: Option<AdvpId>, rule: RuleId, m: Match, chance: Chance) returns (best': Option<AdvpId>)
      requires ValidBut(p) && (best.Some? ==> best.value in advps)
      requires (m != NoMatch ==> rule in rules) && Allowed(m, ldps[p], best.Some?)
      modifies this`ldps, this`log, this`trie
      ensures Quiet(old(log), log) && ValidBut(p) && best' == if m.Publish? then None else best
      ensures OnlyScheduled(Acted(old(ldps)[p], PrefixOf(advps, best), rule, m, now, flooding, chance), ldps[p])
      ensures !m.Publish? ==> ldps[p] == Acted(old(ldps)[p], PrefixOf(advps, best), rule, m, now, flooding, chance)
      ensures OthersKeep(old(ldps), ldps, p, Evicted(old(ldps), p, m))
      ensures m.Publish? ==> Conflicts(ldps, p, m.prefix) == {}
    {
      best' := best;
      match m
      case NoMatch =>
      case Adopt(rulePriority, priority) =>
        AdoptPair(p, rule, priority, rulePriority, chance.adoptDelay);
      case Backoff(_) =>
        if best.Some? {
          return;
        }
        ActBackoff(p, chance.backoffDelay);
      case Destroy(_) =>
        ActDestroy(p);
      case Publish(_, _, _) =>
        ActPublish(p, rule, m);
        best' := None;
    }

    /** PA_RULE_BACKOFF (src/pa_core.c:357-372) */
    method ActBackoff(p: Pair, delay: nat)
      requires ValidBut(p)
      modifies this`ldps, this`log, this`trie
      ensures Quiet(old(log), log) && ValidBut(p) && OthersKeep(old(ldps), ldps, p, {})
      ensures ldps[p] == BackingOff(Unassigned(old(ldps)[p], now, flooding), now, delay)
    {
      UnassignSelf(p);
      ghost var mid := ldps;
      if ldps[p].timer.None? {
        Put(p, ldps[p].(timer := Some(now + delay)), []);
        OthersKeepBoth(old(ldps), mid, ldps, p, {}, {});
      }
    }

    /** PA_RULE_DESTROY (src/pa_core.c:373-377) */
    method ActDestroy(p: Pair)
      requires ValidBut(p)
      modifies this`ldps, this`log, this`trie
      ensures Quiet(old(log), log) && ValidBut(p) && OthersKeep(old(ldps), ldps, p, {})
      ensures ldps[p] == Unassigned(old(ldps)[p], now, flooding).(routine := true)
    {
      UnassignSelf(p);
      ghost var mid := ldps;
      ScheduledBackedBut(ldps, dps, advps, {p}, p);
      ScheduleThese({p});
      OthersKeepBoth(old(ldps), mid, ldps, p, {}, {});
    }

    /** End the routine (src/pa_core.c:414-435). */
    method Finish(p: Pair, best: Option<AdvpId>)
      requires ValidBut(p)
      requires best.Some? ==> best.value in advps && Concerns(advps[best.value], p.link, dps[p.dp].prefix)
      requires FitsBest(ldps[p], PrefixOf(advps, best))
      modifies this`ldps, this`log, this`trie
      ensures Quiet(old(log), log) && Valid() && OthersKeep(old(ldps), ldps, p, {})
      ensures ldps[p] == Finished(old(ldps)[p], PrefixOf(advps, best), now, flooding)
    {
      ghost var before := ldps;
      if ldps[p].isAssigned {
        if best.Some? {
          LeaveToOthers(p);
        } else if !ldps[p].isPublished && !ldps[p].isAdopting {
          UnassignSelf(p);
        }
      } else if best.Some? {
        Assign(p, advps[best.value].prefix);
      }
      FinishedIsBacked(before[p], p.link, dps[p.dp].prefix, advps, best, now, flooding);
      BackedAgain(ldps, dps, advps, p);
    }

    /** pa_routine (src/pa_core.c:227-436).  `best` is the best assignment that takes precedence, `rule` and
        `m` the best rule and its answer, `seen` the record the rules have seen. */
    method Routine(p: Pair, max: MaxPriority, ask: Matcher, chance: Chance)
      returns (ghost best: Option<AdvpId>, ghost rule: RuleId, ghost m: Match, ghost seen: Ldp)
      requires ValidBut(p) && RulesBehave(max, ask)
      modifies this`ldps, this`log, this`trie
      ensures Quiet(old(log), log) && Valid() && Steady(old(ldps), ldps)
      ensures RoutineRan(old(ldps), ldps, dps, advps, rules, p, node, max, ask, chance, now, flooding, best, rule, m,
                         seen)
    {
      ghost var before := ldps;
      ghost var checked;
      best, rule, m, checked := RunParts(p, max, ask, chance);
      seen := checked[p];
      RoutineDone(before, checked, ldps, dps, advps, rules, p, node, max, ask, chance, now, flooding, best, rule, m);
    }

    /** One part after the other; `checked` are the pairs as the rules have seen them. */
    method RunParts(p: Pair, max: MaxPriority, ask: Matcher, chance: Chance)
      returns (ghost best: Option<AdvpId>, ghost rule: RuleId, ghost m: Match, ghost checked: Ldps)
      requires ValidBut(p) && RulesBehave(max, ask)
      modifies this`ldps, this`log, this`trie
      ensures Quiet(old(log), log) && Valid() && p in ldps && Sane(old(ldps)[p]) && p in checked && Sane(checked[p])
      ensures IsBest(old(ldps), dps, advps, p, node, best) && OthersKeep(old(ldps), checked, p, {})
      ensures checked[p] == Checked(old(ldps)[p], PrefixOf(advps, best),
                                    Keeps(old(ldps), advps, p, best, node, chance.misread), now, flooding)
      ensures FitsBest(checked[p], PrefixOf(advps, best))
      ensures Chooses(rules, checked[p], best.Some?, max, ask, rule, m)
      ensures OthersKeep(checked, ldps, p, Evicted(checked, p, m))
      ensures OnlyScheduled(Outcome(checked[p], PrefixOf(advps, best), rule, m, now, flooding, chance), ldps[p])
      ensures !m.Publish? ==> ldps[p] == Outcome(checked[p], PrefixOf(advps, best), rule, m, now, flooding, chance)
      ensures forall q | q in ldps :: Sane(ldps[q])
    {
      var b, r, a := LookAndAsk(p, max, ask, chance.misread);
      ghost var heard := log;
      best, rule, m, checked := b, r, a, ldps;
      ActAndFinish(p, b, r, a, chance);
      QuietBoth(old(log), heard, log);
    }

    /** Its first three parts (src/pa_core.c:243-341) */
    method LookAndAsk(p: Pair, max: MaxPriority, ask: Matcher, misread: Pair -> bool)
      returns (best: Option<AdvpId>, rule: RuleId, m: Match)
      requires ValidBut(p) && RulesBehave(max, ask)
      modifies this`ldps, this`log, this`trie
      ensures Quiet(old(log), log) && ValidBut(p) && OthersKeep(old(ldps), ldps, p, {}) && Sane(old(ldps)[p])
      ensures IsBest(old(ldps), dps, advps, p, node, best)
      ensures ldps[p] == Checked(old(ldps)[p], PrefixOf(advps, best), Keeps(old(ldps), advps, p, best, node, misread),
                                 now, flooding)
      ensures FitsBest(ldps[p], PrefixOf(advps, best)) && Sane(ldps[p])
      ensures Chooses(rules, ldps[p], best.Some?, max, ask, rule, m)
    {
      AllSane(links, dps, ldps, rules, now, flooding);
      best := Look(p, misread);
      rule, m := PickRule(ldps[p], best.Some?, max, ask);
    }

    /** Its last two parts (src/pa_core.c:348-435) */
    method ActAndFinish(p: Pair, best: Option<AdvpId>, rule: RuleId, m: Match, chance: Chance)
      requires ValidBut(p) && Sane(ldps[p])
      requires best.Some? ==> best.value in advps && Concerns(advps[best.value], p.link, dps[p.dp].prefix)
      requires (m != NoMatch ==> rule in rules) && Allowed(m, ldps[p], best.Some?)
      requires FitsBest(ldps[p], PrefixOf(advps, best))
      modifies this`ldps, this`log, this`trie
      ensures Quiet(old(log), log) && Valid() && OthersKeep(old(ldps), ldps, p, Evicted(old(ldps), p, m))
      ensures p in ldps
      ensures OnlyScheduled(Outcome(old(ldps)[p], PrefixOf(advps, best), rule, m, now, flooding, chance), ldps[p])
      ensures !m.Publish? ==> ldps[p] == Outcome(old(ldps)[p], PrefixOf(advps, best), rule, m, now, flooding, chance)
      ensures forall q | q in ldps :: Sane(ldps[q])
    {
      ghost var before := ldps;
      var left := Act(p, best, rule, m, chance);
      ghost var acted, mid := ldps, log;
      RoutineFits(before[p], acted[p], PrefixOf(advps, best), rule, m, now, flooding, chance);
      Finish(p, left);
      QuietBoth(old(log), mid, log);
      AllSane(links, dps, ldps, rules, now, flooding);
      OthersKeepBoth(before, acted, ldps, p, Evicted(before, p, m), {});
      assert Evicted(before, p, m) + {} == Evicted(before, p, m);
    }

    /** Its first two parts (src/pa_core.c:243-282) */
    method Look(p: Pair, misread: Pair -> bool) returns (best: Option<AdvpId>)
      requires ValidBut(p)
      modifies this`ldps, this`log, this`trie
      ensures Quiet(old(log), log) && ValidBut(p) && OthersKeep(old(ldps), ldps, p, {})
      ensures IsBest(old(ldps), dps, advps, p, node, best)
      ensures ldps[p] == Checked(old(ldps)[p], PrefixOf(advps, best), Keeps(old(ldps), advps, p, best, node, misread),
                                 now, flooding)
      ensures FitsBest(ldps[p], PrefixOf(advps, best)) && Sane(ldps[p])
    {
      var found := FindBest(p);
      best := CheckAssignment(p, found, misread);
    }

    // ---------- timers ----------

    method Tick(t: int)
      requires Valid() && t >= now
      modifies this`now
      ensures Valid() && now == t
    {
      now := t;
    }

    /** pa_routine_to (src/pa_core.c:450-454) */
    method FireRoutine(p: Pair, max: MaxPriority, ask: Matcher, chance: Chance)
      returns (ghost best: Option<AdvpId>, ghost rule: RuleId, ghost m: Match, ghost seen: Ldp)
      requires Valid() && RulesBehave(max, ask) && p in ldps && ldps[p].routine
      modifies this`ldps, this`log, this`trie
      ensures Quiet(old(log), log) && Valid() && Steady(old(ldps), ldps)
      ensures RoutineRan(old(ldps)[p := old(ldps)[p].(routine := false)], ldps, dps, advps, rules, p, node, max, ask,
                         chance,
                         now, flooding, best, rule, m, seen)
      ensures KeepHeeding(old(ldps), advps, ldps, advps, dps, {p}) && SpaceNoticed(old(ldps), ldps)
    {
      ghost var before := ldps;
      Put(p, ldps[p].(routine := false), []);
      ghost var mid := ldps;
      best, rule, m, seen := Routine(p, max, ask, chance);
      SteadyInSteps(before, mid, ldps, p);
      RoutineHeeds(before, mid, ldps, dps, advps, rules, p, node, max, ask, chance, now, flooding, best, rule, m, seen);
    }

    /** pa_backoff_to (src/pa_core.c:438-448): an adoption, an apply or a backoff timer */
    method FireBackoff(p: Pair, max: MaxPriority, ask: Matcher, chance: Chance, parentApplied: bool)
      returns (ghost best: Option<AdvpId>, ghost rule: RuleId, ghost m: Match, ghost seen: Ldp)
      requires Valid() && RulesBehave(max, ask) && p in ldps && ldps[p].timer.Some? && ldps[p].timer.value <= now
      modifies this`ldps, this`log, this`trie
      ensures Valid() && p in ldps && old(log) <= log && (AllArmed(old(ldps)) ==> AllArmed(ldps))
      ensures !(old(ldps)[p].isAssigned && !old(ldps)[p].isAdopting) ==> Quiet(old(log), log) && Steady(old(ldps), ldps)
      ensures old(ldps)[p].isAssigned && !old(ldps)[p].isAdopting ==>
        ldps == old(ldps)[p := AfterApplyTimer(old(ldps)[p], now, flooding, parentApplied)]
      ensures old(ldps)[p].isAssigned && !old(ldps)[p].isAdopting ==>
        && ldps[p].timer.None? && ldps[p].isApplied == (old(ldps)[p].isApplied || parentApplied)
        && (!ldps[p].isApplied ==> ldps[p].haPending)
      ensures old(ldps)[p].isAdopting ==> ldps == old(ldps)[p := AdoptionOver(old(ldps)[p], now, flooding)]
      ensures KeepHeeding(old(ldps), advps, ldps, advps, dps, if old(ldps)[p].isAssigned then {} else {p})
      ensures SpaceNoticed(old(ldps), ldps)
      ensures !old(ldps)[p].isAssigned ==>
        RoutineRan(old(ldps)[p := old(ldps)[p].(timer := None)], ldps, dps, advps, rules, p, node, max, ask, chance,
                   now, flooding,
                   best, rule, m, seen)
    {
      ghost var before := ldps;
      best, rule, m, seen := None, 0, NoMatch, NEW_LDP;
      if ldps[p].isAdopting {
        FireAdoption(p);
      } else if ldps[p].isAssigned {
        FireApply(p, parentApplied);
      } else {
        Put(p, ldps[p].(timer := None), []);
        ghost var mid := ldps;
        best, rule, m, seen := Routine(p, max, ask, chance);
        SteadyInSteps(before, mid, ldps, p);
        RoutineHeeds(before, mid, ldps, dps, advps, rules, p, node, max, ask, chance, now, flooding, best, rule, m,
                     seen);
      }
      if Steady(before, ldps) && AllArmed(before) {
        SteadyStaysArmed(before, ldps);
      }
    }

    method FireAdoption(p: Pair)
      requires Valid() && p in ldps && ldps[p].isAdopting
      modifies this`ldps, this`log
      ensures Quiet(old(log), log) && Valid() && Steady(old(ldps), ldps)
      ensures ldps == old(ldps)[p := AdoptionOver(old(ldps)[p], now, flooding)]
      ensures KeepHeeding(old(ldps), advps, ldps, advps, dps, {}) && SpaceNoticed(old(ldps), ldps)
    {
      ghost var before := ldps;
      PublishAdopted(p);
      AdoptionIsSteady(before, p, now, flooding);
      OwnHeeds(before, p, AdoptionOver(before[p], now, flooding), dps, advps);
    }

    method PublishAdopted(p: Pair)
      requires Valid() && p in ldps && ldps[p].isAdopting
      modifies this`ldps, this`log
      ensures Quiet(old(log), log) && Valid() && ldps == old(ldps)[p := AdoptionOver(old(ldps)[p], now, flooding)]
    {
      ghost var before := ldps;
      var l := ldps[p];
      AdoptionPublished(l, now, flooding);
      Put(p, l.(timer := None), []);
      PublishPair(p, l.rule.value, l.priority, l.rulePriority);
      assert ldps == before[p := AdoptionOver(l, now, flooding)];
    }

    method FireApply(p: Pair, parentApplied: bool)
      requires Valid() && p in ldps && ldps[p].timer.Some? && ldps[p].timer.value <= now
      requires ldps[p].isAssigned && !ldps[p].isAdopting
      modifies this`ldps, this`log
      ensures Valid() && old(log) <= log && (AllArmed(old(ldps)) ==> AllArmed(ldps))
      ensures ldps == old(ldps)[p := AfterApplyTimer(old(ldps)[p], now, flooding, parentApplied)]
      ensures KeepHeeding(old(ldps), advps, ldps, advps, dps, {}) && SpaceNoticed(old(ldps), ldps)
    {
      ghost var before := ldps;
      EndApplyTimer(p, parentApplied);
      OwnHeeds(before, p, AfterApplyTimer(before[p], now, flooding, parentApplied), dps, advps);
    }

    method EndApplyTimer(p: Pair, parentApplied: bool)
      requires Valid() && p in ldps && ldps[p].timer.Some? && ldps[p].timer.value <= now
      requires ldps[p].isAssigned && !ldps[p].isAdopting
      modifies this`ldps, this`log
      ensures Valid() && old(log) <= log && (AllArmed(old(ldps)) ==> AllArmed(ldps))
      ensures ldps == old(ldps)[p := AfterApplyTimer(old(ldps)[p], now, flooding, parentApplied)]
    {
      BackedAfter(ldps, dps, advps, p, AfterApplyTimer(ldps[p], now, flooding, parentApplied));
      if ldps[p].isApplied {
        Put(p, ldps[p].(timer := None), []);
        return;
      }
      FiredOk(ldps[p], now, flooding);
      ghost var before, l := ldps, Fired(ldps[p], now, flooding);
      Put(p, ldps[p].(timer := None, firedAt := now, firedUnder := flooding), []);
      Apply(p, parentApplied);
      assert before[p := l][p := Applied(l, parentApplied)] == before[p := Applied(l, parentApplied)];
    }

    /** Apply a pair that waited for its parent (src/pa_core.c:827-830). */
    method ApplyWaiting(p: Pair)
      requires Valid() && p in ldps && ldps[p].haPending
      modifies this`ldps, this`log
      ensures Valid() && ldps == old(ldps)[p := Applied(old(ldps)[p], true)] && old(log) <= log
      ensures Steady(old(ldps), ldps) && ldps[p].isApplied
      ensures KeepHeeding(old(ldps), advps, ldps, advps, dps, {}) && SpaceNoticed(old(ldps), ldps)
    {
      OwnHeeds(ldps, p, Applied(ldps[p], true), dps, advps);
      BackedAfter(ldps, dps, advps, p, Applied(ldps[p], true));
      Apply(p, true);
    }

    // ---------- advertisements ----------

    /** _pa_advp_update (src/pa_core.c:601-613): schedule what the prefix concerns. */
    method ScheduleConcerned(prefix: Bits, ghost before: Advps)
      requires Good() && AllBacked(ldps, dps, before)
      requires forall a | a in before && before[a].prefix != prefix :: a in advps && advps[a] == before[a]
      requires forall a | a in advps && advps[a].prefix != prefix :: a in before && advps[a] == before[a]
      modifies this`ldps
      ensures Valid() && ldps == Scheduled(old(ldps), Concerned(old(ldps), dps, prefix)) && Steady(old(ldps), ldps)
      ensures KeepHeeding(old(ldps), before, ldps, advps, dps, {})
      ensures ldps.Keys == old(ldps.Keys) && forall p | p in ldps :: ldps[p] == HeardOf(old(ldps)[p], dps[p.dp], prefix)
    {
      StillHeeded(ldps, dps, before, advps, prefix);
      ScheduledHeardOf(ldps, dps, prefix);
      ScheduledIsSteady(ldps, Concerned(ldps, dps, prefix));
      StillBacked(ldps, dps, before, advps, prefix);
      ScheduleThese(set p | p in ldps && p.dp in dps && Comparable(dps[p.dp].prefix, prefix));
    }

    /** pa_advp_add (src/pa_core.c:622-634) */
    method AdvpAdd(a: AdvpId, x: Advp)
      requires Valid() && a !in advps
      modifies this`advps, this`trie, this`ldps
      ensures Valid() && Steady(old(ldps), ldps)
      ensures advps == old(advps)[a := x]
      ensures KeepHeeding(old(ldps), old(advps), ldps, advps, dps, {})
      ensures ldps.Keys == old(ldps.Keys)
      ensures forall p | p in ldps :: ldps[p] == HeardOf(old(ldps)[p], dps[p.dp], x.prefix)
    {
      ghost var before := advps;
      TrieFitsWith(trie, trie + {AdvertisedAs(x.prefix, a)}, ldps, advps, a, x) by {
        assert forall e | e in trie :: Belongs(e, ldps, advps);
      }
      advps, trie := advps[a := x], trie + {AdvertisedAs(x.prefix, a)};
      ScheduleConcerned(x.prefix, before);
    }

    /** Anything but the prefix of an advertisement changes, and pa_advp_update is called
        (src/pa_core.c:615-620). */
    method AdvpUpdate(a: AdvpId, link: Option<LinkId>, priority: nat, sender: nat)
      requires Valid() && a in advps
      modifies this`advps, this`ldps
      ensures Valid() && Steady(old(ldps), ldps)
      ensures advps == old(advps)[a := Advp(old(advps)[a].prefix, link, priority, sender)]
      ensures KeepHeeding(old(ldps), old(advps), ldps, advps, dps, {})
      ensures ldps.Keys == old(ldps.Keys)
      ensures forall p | p in ldps :: ldps[p] == HeardOf(old(ldps)[p], dps[p.dp], old(advps)[a].prefix)
    {
      ghost var before, x := advps, Advp(advps[a].prefix, link, priority, sender);
      TrieFitsWith(trie, trie, ldps, advps, a, x) by {
        assert forall e: Entry | e.AdvertisedAs? && e.advp == a :: e in trie <==> Belongs(e, ldps, advps);
      }
      advps := advps[a := Advp(advps[a].prefix, link, priority, sender)];
      ScheduleConcerned(advps[a].prefix, before);
    }

    /** pa_advp_del (src/pa_core.c:636-642) */
    method AdvpDel(a: AdvpId)
      requires Valid() && a in advps
      modifies this`advps, this`trie, this`ldps
      ensures Valid() && advps == old(advps) - {a} && Steady(old(ldps), ldps)
      ensures KeepHeeding(old(ldps), old(advps), ldps, advps, dps, {})
      ensures ldps.Keys == old(ldps.Keys)
      ensures forall p | p in ldps :: ldps[p] == HeardOf(old(ldps)[p], dps[p.dp], old(advps)[a].prefix)
    {
      ghost var before := advps;
      var prefix := advps[a].prefix;
      TrieFitsWithout(trie, trie - {AdvertisedAs(prefix, a)}, ldps, advps, a) by {
        assert forall e | e in trie :: Belongs(e, ldps, advps);
      }
      trie := trie - {AdvertisedAs(prefix, a)};
      advps := advps - {a};
      ScheduleConcerned(prefix, before);
    }

    // ---------- configuration ----------

    /** pa_rule_add (src/pa_core.c:644-654) */
    method RuleAdd(r: RuleId)
      requires Valid() && r !in rules
      modifies this`rules, this`ldps
      ensures Valid() && rules == old(rules) + [r] && ldps == Scheduled(old(ldps), old(ldps).Keys)
      ensures Steady(old(ldps), ldps)
      ensures KeepHeeding(old(ldps), advps, ldps, advps, dps, {})
    {
      ScheduledIsSteady(ldps, ldps.Keys);
      HeedingIsKept(ldps, Scheduled(ldps, ldps.Keys), dps, advps, {});
      rules := rules + [r];
      ScheduledBacked(ldps, dps, advps, ldps.Keys);
      ScheduleThese(ldps.Keys);
    }

    /** pa_core_set_node_id (src/pa_core.c:691-703) */
    method SetNodeId(id: nat)
      requires Valid()
      modifies this`node, this`ldps
      ensures Valid() && node == id && Steady(old(ldps), ldps)
      ensures ldps == if id == old(node) then old(ldps) else Scheduled(old(ldps), old(ldps).Keys)
      ensures KeepHeeding(old(ldps), advps, ldps, advps, dps, {})
    {
      HeedingIsKept(ldps, Scheduled(ldps, ldps.Keys), dps, advps, {});
      ScheduledIsSteady(ldps, ldps.Keys);
      if id != node {
        node := id;
        ScheduledBacked(ldps, dps, advps, ldps.Keys);
        ScheduleThese(ldps.Keys);
      }
    }

    /** pa_rule_del (src/pa_core.c:656-670): whatever the rule published or adopted is dropped.  Pairs
        that are published by it and still have to be applied lose their timer. */
    method RuleDel(r: RuleId)
      requires Valid() && r in rules
      modifies this`rules, this`ldps, this`log
      ensures Quiet(old(log), log)
      ensures Valid() && rules == AllBut(old(rules), r) && r !in rules
      ensures ldps == map p | p in old(ldps) :: Dropped(old(ldps)[p], r, now, flooding)
      ensures AllArmed(old(ldps)) ==> (AllArmed(ldps) <==> forall p | p in old(ldps) :: !LosesTimer(old(ldps)[p], r))
      ensures KeepHeeding(old(ldps), advps, ldps, advps, dps, {})
    {
      ghost var before := ldps;
      DropAll(r);
      DroppedHeeds(before, r, dps, advps, now, flooding);
      DroppedAreArmed(before, ldps, rules, r, now, flooding);
      RulesBut(rules, r);
      NobodyHas(ldps, rules, r, now, flooding);
      rules := AllBut(rules, r);
    }

    method DropAll(r: RuleId)
      requires Valid()
      modifies this`ldps, this`log
      ensures Valid() && Quiet(old(log), log) && ldps.Keys == old(ldps).Keys
      ensures forall p | p in ldps :: ldps[p] == Dropped(old(ldps)[p], r, now, flooding)
    {
      ghost var before := ldps;
      var todo := ldps.Keys;
      while todo != {}
        invariant Valid() && todo <= ldps.Keys == before.Keys && Quiet(old(log), log)
        invariant forall p | p in ldps ::
          ldps[p] == if p in todo then before[p] else Dropped(before[p], r, now, flooding)
        decreases todo
      {
        var p :| p in todo;
        DropRule(p, r);
        todo := todo - {p};
      }
    }

    method DropRule(p: Pair, r: RuleId)
      requires Valid() && p in ldps
      modifies this`ldps, this`log
      ensures Quiet(old(log), log)
      ensures Valid() && ldps == old(ldps)[p := Dropped(old(ldps)[p], r, now, flooding)]
    {
      ghost var before := ldps;
      Put(p, ldps[p].(routine := true), []);
      DropIfRule(p, r);
      BackedByRoutine(before, dps, advps, p, ldps[p]);
      assert ldps == before[p := Dropped(before[p], r, now, flooding)];
    }

    method DropIfRule(p: Pair, r: RuleId)
      requires Good() && p in ldps
      modifies this`ldps, this`log
      ensures Good() && Quiet(old(log), log)
      ensures ldps == if old(ldps)[p].rule == Some(r)
                      then old(ldps)[p := Unadopted(Unpublished(old(ldps)[p], true), now, flooding)] else old(ldps)
    {
      ghost var before := ldps;
      if ldps[p].rule == Some(r) {
        Unpublish(p, true);
        Unadopt(p);
        assert ldps == before[p := Unadopted(Unpublished(before[p], true), now, flooding)];
      }
    }

    /** pa_core_set_flooding_delay (src/pa_core.c:672-689).  The timing is right again if the delay is below
        2^30 ms and no timer is overdue by more than that. */
    method SetFloodingDelay(f: nat)
      requires Valid() && f < 0x1_0000_0000
      modifies this`flooding, this`ldps
      ensures flooding == f && ldps == AllRefloated(old(ldps), now, old(flooding), f)
      ensures TrieFits(trie, ldps, advps) && LogFits(log, ldps) && AllBacked(ldps, dps, advps)
      ensures Steady(old(ldps), ldps)
      ensures KeepHeeding(old(ldps), advps, ldps, advps, dps, {})
      ensures f < FLOODING_LIMIT && Prompt(old(ldps), now) ==> Valid()
    {
      var moved := RefloatAll(f);
      if f < FLOODING_LIMIT && Prompt(ldps, now) {
        RefloatedTimely(links, dps, ldps, rules, now, flooding, f);
      }
      RefloatedFits(dps, ldps, advps, trie, log, now, flooding, f);
      HeedingIsKept(ldps, moved, dps, advps, {});
      ldps, flooding := moved, f;
    }

    method RefloatAll(f: nat) returns (moved: Ldps)
      ensures moved == AllRefloated(ldps, now, flooding, f)
    {
      ghost var target := AllRefloated(ldps, now, flooding, f);
      moved := ldps;
      var todo := ldps.Keys;
      while todo != {}
        invariant todo <= ldps.Keys == moved.Keys
        invariant forall p | p in ldps :: moved[p] == if p in todo then ldps[p] else target[p]
        decreases todo
      {
        var p :| p in todo;
        var l := Refloat(ldps[p], f);
        moved, todo := moved[p := l], todo - {p};
      }
      assert moved == target;
    }

    method Refloat(l: Ldp, f: nat) returns (r: Ldp)
      ensures r == Refloated(l, now, flooding, f)
    {
      r := l;
      if l.isAssigned && !l.isAdopting && l.timer.Some? {
        if f > flooding {
          r := l.(timer := Some(now + Int32(l.timer.value - now + 2 * (f - flooding))));
        } else if f < flooding && (l.timer.value - now) % 0x1_0000_0000 > 2 * f {
          r := l.(timer := Some(now + Int32(2 * f)));
        }
      }
    }

    // ---------- links and delegated prefixes ----------

    /** pa_ldp_create (src/pa_core.c:459-478) for a number of pairs */
    method CreatePairs(s: set<Pair>)
      requires Valid() && s !! ldps.Keys && forall p | p in s :: p.link in links && p.dp in dps
      modifies this`ldps
      ensures Valid() && ldps == Created(old(ldps), s) && Steady(old(ldps), ldps)
    {
      var todo := s;
      ghost var before := ldps;
      while todo != {}
        invariant Valid() && todo <= s && ldps == Created(before, s - todo)
        decreases todo
      {
        var p :| p in todo;
        CreatedFits(links, dps, ldps, advps, trie, rules, log, now, flooding, p);
        CreatedMore(before, s - todo, p);
        assert s - todo + {p} == s - (todo - {p});
        ldps := ldps[p := NEW_LDP];
        todo := todo - {p};
      }
      assert s - todo == s;
    }

    /** Unassign some pairs, then destroy them (src/pa_core.c:493-504, src/pa_core.c:548-560). */
    method RemovePairs(s: set<Pair>)
      requires Valid() && s <= ldps.Keys
      modifies this`ldps, this`log, this`trie
      ensures Quiet(old(log), log)
      ensures Valid() && ldps.Keys == old(ldps).Keys - s && Steady(old(ldps), ldps)
      ensures forall p | p in ldps :: OnlyScheduled(old(ldps)[p], ldps[p])
      ensures KeepHeeding(old(ldps), advps, ldps, advps, dps, {}) && SpaceNoticed(old(ldps), ldps)
    {
      UnassignPairs(s);
      RemovedIsNoticed(old(ldps), ldps, s);
      HeedingIsKept(old(ldps), ldps - s, dps, advps, {});
      DroppedFits(links, dps, ldps, advps, trie, rules, log, now, flooding, s);
      ldps := ldps - s;
    }

    method UnassignPairs(s: set<Pair>)
      requires Valid() && s <= ldps.Keys
      modifies this`ldps, this`log, this`trie
      ensures Quiet(old(log), log)
      ensures Valid() && UnassignedSome(old(ldps), ldps, s)
    {
      var todo := s;
      ghost var done: set<Pair>, before := {}, ldps;
      while todo != {}
        invariant Valid() && todo + done == s && s <= ldps.Keys && UnassignedSome(before, ldps, done)
        invariant Quiet(old(log), log)
        decreases todo
      {
        var p :| p in todo;
        ghost var mid := ldps;
        UnassignOne(p);
        UnassignedOneMore(before, mid, ldps, done, p);
        todo, done := todo - {p}, done + {p};
      }
    }

    method UnassignOne(p: Pair)
      requires Valid() && p in ldps
      modifies this`ldps, this`log, this`trie
      ensures Quiet(old(log), log)
      ensures Valid() && UnassignedSome(old(ldps), ldps, {p})
    {
      UnassignBacked(ldps, dps, advps, p, now, flooding);
      UnassignedOk(ldps[p], now, flooding);
      UnassignedOneOf(ldps, p, now, flooding);
      Unassign(p);
    }

    method LinksThatFollow(id: DpId, dp: Dp) returns (s: set<Pair>)
      ensures s == PairsOfDp(links, id, dp)
    {
      s := set l | l in links && (dp.haLdp.None? || links[l].None? || links[l].value == dp.haLdp.value.link) ::
        Pair(l, id);
    }

    method DpsToFollow(id: LinkId, parent: Option<LinkId>) returns (s: set<Pair>)
      ensures s == PairsOfLink(dps, id, parent)
    {
      s := set d | d in dps && (dps[d].haLdp.None? || parent.None? || parent.value == dps[d].haLdp.value.link) ::
        Pair(id, d);
    }

    /** pa_dp_add (src/pa_core.c:512-535) */
    method DpAdd(id: DpId, dp: Dp)
      requires Valid() && id !in dps
      modifies this`dps, this`ldps
      ensures Valid() && dps == old(dps)[id := dp] && Steady(old(ldps), ldps)
      ensures ldps == Created(old(ldps), PairsOfDp(links, id, dp))
      ensures Paired(old(links), old(dps), old(ldps).Keys) ==> Paired(links, dps, ldps.Keys)
      ensures KeepHeeding(old(ldps), advps, ldps, advps, dps, {})
    {
      ghost var before := ldps;
      dps := dps[id := dp];
      var s := LinksThatFollow(id, dp);
      CreatePairs(s);
      CreatedHeeds(before, s, dps, advps);
    }

    /** pa_dp_del (src/pa_core.c:493-510) */
    method DpDel(id: DpId)
      requires Valid() && id in dps
      modifies this`dps, this`ldps, this`log, this`trie
      ensures Quiet(old(log), log)
      ensures Valid() && dps == old(dps) - {id} && Steady(old(ldps), ldps)
      ensures ldps.Keys == set p | p in old(ldps) && p.dp != id
      ensures Paired(old(links), old(dps), old(ldps).Keys) ==> Paired(links, dps, ldps.Keys)
      ensures forall p | p in ldps :: OnlyScheduled(old(ldps)[p], ldps[p])
      ensures KeepHeeding(old(ldps), advps, ldps, advps, dps, {}) && SpaceNoticed(old(ldps), ldps)
    {
      RemovePairs(set p | p in ldps && p.dp == id);
      dps := dps - {id};
    }

    /** pa_link_add (src/pa_core.c:568-588) */
    method LinkAdd(id: LinkId, parent: Option<LinkId>)
      requires Valid() && id !in links
      modifies this`links, this`ldps
      ensures Valid() && links == old(links)[id := parent] && Steady(old(ldps), ldps)
      ensures ldps == Created(old(ldps), PairsOfLink(dps, id, parent))
      ensures Paired(old(links), old(dps), old(ldps).Keys) ==> Paired(links, dps, ldps.Keys)
      ensures KeepHeeding(old(ldps), advps, ldps, advps, dps, {})
    {
      ghost var before := ldps;
      links := links[id := parent];
      var s := DpsToFollow(id, parent);
      CreatePairs(s);
      CreatedHeeds(before, s, dps, advps);
    }

    /** pa_link_del (src/pa_core.c:548-566) */
    method LinkDel(id: LinkId)
      requires Valid() && id in links
      modifies this`links, this`ldps, this`log, this`trie
      ensures Quiet(old(log), log)
      ensures Valid() && links == old(links) - {id} && Steady(old(ldps), ldps)
      ensures ldps.Keys == set p | p in old(ldps) && p.link != id
      ensures Paired(old(links), old(dps), old(ldps).Keys) ==> Paired(links, dps, ldps.Keys)
      ensures forall p | p in ldps :: OnlyScheduled(old(ldps)[p], ldps[p])
      ensures KeepHeeding(old(ldps), advps, ldps, advps, dps, {}) && SpaceNoticed(old(ldps), ldps)
    {
      RemovePairs(set p | p in ldps && p.link == id);
      links := links - {id};
    }
  }

  /** A pair when an advertisement of the prefix comes, goes or changes: it is scheduled if the prefix
      overlaps its delegated prefix (src/pa_core.c:601-613). */
  ghost function HeardOf(l: Ldp, dp: Dp, prefix: Bits): Ldp {
    if dp.prefix <= prefix || prefix <= dp.prefix then l.(routine := true) else l
  }

  lemma ScheduledHeardOf(ldps: Ldps, dps: map<DpId, Dp>, prefix: Bits)
    ensures var r := Scheduled(ldps, Concerned(ldps, dps, prefix));
            r.Keys == ldps.Keys && forall p | p in r && p.dp in dps :: r[p] == HeardOf(ldps[p], dps[p.dp], prefix)
  {
  }

  /** Of links and delegated prefixes there are all pairs, except that a link with a parent has none for a
      prefix that comes from another link. */
  ghost predicate Paired(links: map<LinkId, Option<LinkId>>, dps: map<DpId, Dp>, pairs: set<Pair>) {
    forall p: Pair :: p in pairs <==>
      && p.link in links && p.dp in dps
      && (links[p.link].None? || dps[p.dp].haLdp.None? || links[p.link].value == dps[p.dp].haLdp.value.link)
  }

  /** A link with a parent link takes delegated prefixes from that link only (src/pa_core.c:519-526). */
  ghost predicate Follows(parent: Option<LinkId>, dp: Dp) {
    dp.haLdp.Some? && parent.Some? ==> parent.value == dp.haLdp.value.link
  }

  ghost function PairsOfDp(links: map<LinkId, Option<LinkId>>, id: DpId, dp: Dp): set<Pair> {
    set l | l in links && Follows(links[l], dp) :: Pair(l, id)
  }

  ghost function PairsOfLink(dps: map<DpId, Dp>, id: LinkId, parent: Option<LinkId>): set<Pair> {
    set d | d in dps && Follows(parent, dps[d]) :: Pair(id, d)
  }

  /** The loop has served its timers within 2^30 ms. */
  ghost predicate Prompt(ldps: Ldps, now: int) {
    forall p | p in ldps && ldps[p].timer.Some? :: ldps[p].timer.value >= now - FLOODING_LIMIT
  }

  function AllRefloated(ldps: Ldps, now: int, flooding: nat, f: nat): Ldps {
    map p | p in ldps :: Refloated(ldps[p], now, flooding, f)
  }

  lemma RefloatedFits(dps: map<DpId, Dp>, ldps: Ldps, advps: Advps, trie: set<Entry>, log: seq<Note>, now: int,
                      flooding: nat, f: nat)
    requires TrieFits(trie, ldps, advps) && LogFits(log, ldps) && AllBacked(ldps, dps, advps)
    ensures var moved := AllRefloated(ldps, now, flooding, f);
            TrieFits(trie, moved, advps) && LogFits(log, moved) && AllBacked(moved, dps, advps) && Steady(ldps, moved)
  {
    var moved := AllRefloated(ldps, now, flooding, f);
    forall p | p in ldps ensures moved[p] == ldps[p].(timer := moved[p].timer) && SteadyPair(ldps[p], moved[p]) {
      RefloatedIs(ldps[p], now, flooding, f);
    }
    OnlyTimers(dps, ldps, moved, advps, trie, log);
  }

  lemma RefloatedIs(l: Ldp, now: int, flooding: nat, f: nat)
    ensures var r := Refloated(l, now, flooding, f); r == l.(timer := r.timer) && SteadyPair(l, r)
  {
  }

  lemma OnlyTimers(dps: map<DpId, Dp>, ldps: Ldps, moved: Ldps, advps: Advps, trie: set<Entry>, log: seq<Note>)
    requires TrieFits(trie, ldps, advps) && LogFits(log, ldps) && AllBacked(ldps, dps, advps) && moved.Keys == ldps.Keys
    requires forall p | p in ldps :: moved[p] == ldps[p].(timer := moved[p].timer)
    ensures TrieFits(trie, moved, advps) && LogFits(log, moved) && AllBacked(moved, dps, advps)
  {
    forall e ensures e in trie <==> Belongs(e, moved, advps) {
      assert e in trie <==> Belongs(e, ldps, advps);
    }
    forall p ensures Heard(log, p) == NestAt(moved, p) {
      assert Heard(log, p) == NestAt(ldps, p);
    }
    forall p | p in moved && p.dp in dps ensures Backed(moved[p], p.link, dps[p.dp].prefix, advps) {
      assert Backed(ldps[p], p.link, dps[p.dp].prefix, advps);
    }
  }

  lemma RefloatedTimely(links: map<LinkId, Option<LinkId>>, dps: map<DpId, Dp>, ldps: Ldps, rules: seq<RuleId>,
                        now: int, flooding: nat, f: nat)
    requires PairsFit(links, dps, ldps, rules, now, flooding) && f < FLOODING_LIMIT && Prompt(ldps, now)
    ensures PairsFit(links, dps, AllRefloated(ldps, now, flooding, f), rules, now, f)
  {
    forall p | p in ldps ensures PairFits(Refloated(ldps[p], now, flooding, f), rules, now, f) {
      assert PairFits(ldps[p], rules, now, flooding);
      RefloatedOk(ldps[p], now, flooding, f);
    }
  }

  /** Deleting rule r cancels the apply timer of this pair for good. */
  predicate LosesTimer(l: Ldp, r: RuleId) {
    l.isPublished && l.rule == Some(r) && !l.isApplied && !l.haPending
  }

  lemma DroppedAreArmed(before: Ldps, ldps: Ldps, rules: seq<RuleId>, r: RuleId, now: int, flooding: nat)
    requires before.Keys == ldps.Keys && forall p | p in before ::
      Sane(before[p]) && ldps[p] == Dropped(before[p], r, now, flooding)
    ensures AllArmed(before) ==> (AllArmed(ldps) <==> forall p | p in before :: !LosesTimer(before[p], r))
    ensures ldps == map p | p in before :: Dropped(before[p], r, now, flooding)
  {
    forall p | p in before && Armed(before[p]) ensures Armed(ldps[p]) <==> !LosesTimer(before[p], r) {
      DroppedIsArmed(before[p], r, now, flooding);
    }
  }

  lemma NobodyHas(ldps: Ldps, rules: seq<RuleId>, r: RuleId, now: int, flooding: nat)
    requires forall p | p in ldps :: ldps[p].rule != Some(r) && PairFits(ldps[p], rules, now, flooding)
    ensures forall p | p in ldps :: PairFits(ldps[p], AllBut(rules, r), now, flooding)
  {
    RulesBut(rules, r);
  }

  function AllBut(s: seq<RuleId>, r: RuleId): seq<RuleId> {
    if s == [] then [] else (if s[0] == r then [] else [s[0]]) + AllBut(s[1..], r)
  }

  lemma {:induction false} RulesBut(s: seq<RuleId>, r: RuleId)
    ensures forall x :: x in AllBut(s, r) <==> x in s && x != r
  {
    if s != [] {
      RulesBut(s[1..], r);
      assert s == [s[0]] + s[1..];
    }
  }

  /** A pair at the end of its adoption: published as it was adopted, to be applied after twice the
      flooding delay */
  ghost function AdoptionOver(l: Ldp, now: int, flooding: nat): Ldp {
    l.(isAdopting := false, isPublished := true, timer := if l.isApplied then None else Some(now + 2 * flooding))
  }

  lemma AdoptionPublished(l: Ldp, now: int, flooding: nat)
    requires Sane(l) && l.isAdopting
    ensures Published(l.(timer := None), now, flooding, l.rule.value, l.priority, l.rulePriority) ==
      AdoptionOver(l, now, flooding)
  {
  }

  lemma AdoptionIsSteady(ldps: Ldps, p: Pair, now: int, flooding: nat)
    requires p in ldps
    ensures Steady(ldps, ldps[p := AdoptionOver(ldps[p], now, flooding)])
  {
  }

  /** A pair after its apply timer */
  ghost function AfterApplyTimer(l: Ldp, now: int, flooding: nat, parentApplied: bool): Ldp {
    if l.isApplied then l.(timer := None) else Applied(Fired(l, now, flooding), parentApplied)
  }

  /** The priority to beat: that of the rule that is in force (src/pa_core.c:324) */
  ghost function StartPriority(l: Ldp): nat {
    if l.isPublished || l.isAdopting then l.rulePriority else 0
  }

  ghost predicate Descending(s: seq<RuleId>, l: Ldp, max: MaxPriority) {
    forall i, j | 0 <= i < j < |s| :: max(s[i], l) >= max(s[j], l)
  }

  /** Rule r cannot give more than `priority`, or was asked and did not. */
  ghost predicate Beaten(r: RuleId, l: Ldp, hasBest: bool, max: MaxPriority, ask: Matcher, priority: nat) {
    || max(r, l) <= priority
    || exists b: nat | b <= priority :: var m := ask(r, l, hasBest, b); m == NoMatch || m.rulePriority <= priority
  }

  /** The priority that the answers so far have reached */
  ghost function Reached(m: Match, l: Ldp): nat {
    if m == NoMatch then StartPriority(l) else m.rulePriority
  }

  ghost predicate AllBeaten(s: seq<RuleId>, l: Ldp, hasBest: bool, max: MaxPriority, ask: Matcher, priority: nat) {
    forall r | r in s :: Beaten(r, l, hasBest, max, ask, priority)
  }

  lemma OneMoreBeaten(s: seq<RuleId>, i: nat, l: Ldp, hasBest: bool, max: MaxPriority, ask: Matcher, best: nat,
                      answer: Match)
    requires i < |s| && AllBeaten(s[..i], l, hasBest, max, ask, best)
    requires answer == ask(s[i], l, hasBest, best) && Weighed(answer, best, max(s[i], l))
    ensures AllBeaten(s[..i + 1], l, hasBest, max, ask, if answer == NoMatch then best else answer.rulePriority)
  {
    assert s[..i + 1] == s[..i] + [s[i]];
    var now := if answer == NoMatch then best else answer.rulePriority;
    forall r | r in s[..i] ensures Beaten(r, l, hasBest, max, ask, now) {
      assert Beaten(r, l, hasBest, max, ask, best);
    }
  }

  /** The rules that were not asked could not have done better. */
  lemma RestIsBeaten(rules: seq<RuleId>, s: seq<RuleId>, i: nat, l: Ldp, hasBest: bool, max: MaxPriority, ask: Matcher,
                     best: nat)
    requires i <= |s| && Descending(s, l, max) && AllBeaten(s[..i], l, hasBest, max, ask, best)
    requires (forall r :: r in s <==> r in rules && max(r, l) > 0) && (i < |s| ==> max(s[i], l) <= best)
    ensures forall r | r in rules :: Beaten(r, l, hasBest, max, ask, best)
  {
    forall r | r in rules ensures Beaten(r, l, hasBest, max, ask, best) {
      if max(r, l) > 0 {
        var j :| 0 <= j < |s| && s[j] == r;
        if j < i {
          assert s[..i][j] == r;
        }
      }
    }
  }

  // ---------- the routine ----------

  /** What an overlapping entry has to say against the prefix of p */
  predicate Objects(e: Entry, l: Ldp, p: Pair, advps: Advps, node: nat, misread: Pair -> bool) {
    match e
    case AdvertisedAs(_, a) =>
      a in advps &&
      (!l.isPublished || advps[a].priority > l.priority || (advps[a].priority == l.priority && advps[a].node != node))
    case AssignedTo(_, q) => q != p && (!l.isPublished || misread(q))
  }

  lemma SomeoneObjects(trie: set<Entry>, ldps: Ldps, advps: Advps, p: Pair, node: nat, misread: Pair -> bool, e: Entry)
    requires TrieFits(trie, ldps, advps) && p in ldps && e in trie && Comparable(e.prefix, ldps[p].prefix)
    requires Objects(e, ldps[p], p, advps, node, misread)
    ensures !GloballyValid(ldps, advps, p, node, misread)
    ensures Conflicts(ldps, p, ldps[p].prefix) == {} ==> !Undisputed(advps, ldps[p], node)
  {
    assert Belongs(e, ldps, advps);
    if e.AssignedTo? {
      assert e.pair in Conflicts(ldps, p, ldps[p].prefix);
    }
  }

  lemma NobodyObjects(trie: set<Entry>, ldps: Ldps, advps: Advps, p: Pair, node: nat, misread: Pair -> bool)
    requires TrieFits(trie, ldps, advps) && p in ldps
    requires forall e | e in trie && Comparable(e.prefix, ldps[p].prefix) ::
      !Objects(e, ldps[p], p, advps, node, misread)
    ensures GloballyValid(ldps, advps, p, node, misread)
  {
    var l := ldps[p];
    forall a | a in advps && Comparable(advps[a].prefix, l.prefix) ensures !Precedes(advps[a], l, node) {
      var e := AdvertisedAs(advps[a].prefix, a);
      assert Belongs(e, ldps, advps);
      assert !Objects(e, l, p, advps, node, misread);
    }
    forall q | q in Conflicts(ldps, p, l.prefix) ensures l.isPublished && !misread(q) {
      var e := AssignedTo(ldps[q].prefix, q);
      assert Belongs(e, ldps, advps);
      assert !Objects(e, l, p, advps, node, misread);
    }
  }

  /** The pairs that lose their prefix to p */
  ghost function Evicted(ldps: Ldps, p: Pair, m: Match): set<Pair> {
    if m.Publish? then Conflicts(ldps, p, m.prefix) else {}
  }

  lemma PlacedInSteps(l: Ldp, cleared: Ldp, given: Ldp, prefix: Bits, now: int, flooding: nat)
    requires OnlyScheduled(l, cleared)
    requires given == if cleared.isAssigned && cleared.prefix == prefix
      then cleared
      else Unassigned(cleared, now, flooding)
    ensures OnlyScheduled(Placed(l, prefix, now, flooding), Placed(given, prefix, now, flooding))
  {
    if l.isAssigned && l.prefix == prefix {
      LeftKeeps(l, cleared, now, flooding);
    } else {
      UnassignedKeeps(l, cleared, now, flooding);
      assert Unassigned(given, now, flooding) == given;
    }
  }

  /** Whether a pair is scheduled does not matter to what happens to it. */
  lemma LeftKeeps(a: Ldp, b: Ldp, now: int, flooding: nat)
    requires OnlyScheduled(a, b)
    ensures OnlyScheduled(Unadopted(Unpublished(a, false), now, flooding),
                          Unadopted(Unpublished(b, false), now, flooding))
  {
  }

  lemma UnassignedKeeps(a: Ldp, b: Ldp, now: int, flooding: nat)
    requires OnlyScheduled(a, b)
    ensures OnlyScheduled(Unassigned(a, now, flooding), Unassigned(b, now, flooding))
    ensures !Unassigned(a, now, flooding).isAssigned && Unassigned(a, now, flooding).routine == a.routine
  {
  }

  lemma TakenInSteps(before: Ldps, cleared: Ldps, given: Ldps, after: Ldps, p: Pair, prefix: Bits, now: int,
                     flooding: nat)
    requires p in before && p in cleared && p in given && OnlyScheduled(before[p], cleared[p])
    requires OthersKeep(before, cleared, p, Conflicts(before, p, prefix)) && OthersKeep(cleared, given, p, {})
    requires var c := cleared[p];
             given[p] == if c.isAssigned && c.prefix == prefix then c else Unassigned(c, now, flooding)
    requires after == given[p := Placed(given[p], prefix, now, flooding)]
    ensures OthersKeep(before, after, p, Conflicts(before, p, prefix))
    ensures OnlyScheduled(Placed(before[p], prefix, now, flooding), after[p])
  {
    var gone := Conflicts(before, p, prefix);
    PlacedInSteps(before[p], cleared[p], given[p], prefix, now, flooding);
    OthersKeepBoth(before, cleared, given, p, gone, {});
    GivenIs(cleared[p], prefix, now, flooding);
    OwnChange(given, p, after[p]);
    OthersKeepBoth(before, given, after, p, gone + {}, {});
    assert gone + {} + {} == gone;
  }

  /** What is left after the pair has given up another prefix loses nothing when it is placed. */
  lemma GivenIs(l: Ldp, prefix: Bits, now: int, flooding: nat)
    ensures var g := if l.isAssigned && l.prefix == prefix then l else Unassigned(l, now, flooding);
            var r := Placed(g, prefix, now, flooding);
            r.isAssigned && r.prefix == prefix && (g.isAssigned ==> g.prefix == prefix)
  {
  }

  lemma PublishedInSteps(before: Ldps, taken: Ldps, p: Pair, m: Match, rule: RuleId, now: int, flooding: nat)
    requires p in before && p in taken && m.Publish? && OthersKeep(before, taken, p, Conflicts(before, p, m.prefix))
    requires OnlyScheduled(Placed(before[p], m.prefix, now, flooding), taken[p])
    ensures var after := taken[p := Published(taken[p], now, flooding, rule, m.priority, m.rulePriority)];
            OthersKeep(before, after, p, Conflicts(before, p, m.prefix))
    ensures OnlyScheduled(Published(Placed(before[p], m.prefix, now, flooding), now, flooding, rule, m.priority,
                                    m.rulePriority),
                          Published(taken[p], now, flooding, rule, m.priority, m.rulePriority))
  {
    PublishedKeeps(Placed(before[p], m.prefix, now, flooding), taken[p], now, flooding, rule, m);
    var gone, l := Conflicts(before, p, m.prefix), Published(taken[p], now, flooding, rule, m.priority, m.rulePriority);
    OwnChange(taken, p, l);
    OthersKeepBoth(before, taken, taken[p := l], p, gone, {});
    assert gone + {} == gone;
  }

  lemma PublishedKeeps(a: Ldp, b: Ldp, now: int, flooding: nat, rule: RuleId, m: Match)
    requires m.Publish? && OnlyScheduled(a, b)
    ensures OnlyScheduled(Published(a, now, flooding, rule, m.priority, m.rulePriority),
                          Published(b, now, flooding, rule, m.priority, m.rulePriority))
  {
  }

  /** Half-way through the pairs whose prefix overlaps */
  ghost predicate Clearing(before: Ldps, ldps: Ldps, p: Pair, prefix: Bits, todo: set<Pair>)
    requires p in before
  {
    && p in ldps && OnlyScheduled(before[p], ldps[p])
    && Conflicts(ldps, p, prefix) == todo <= Conflicts(before, p, prefix)
    && OthersKeep(before, ldps, p, Conflicts(before, p, prefix) - todo)
  }

  lemma ClearedOne(before: Ldps, mid: Ldps, after: Ldps, p: Pair, q: Pair, prefix: Bits, todo: set<Pair>)
    requires p in before && Clearing(before, mid, p, prefix, todo) && q in todo && p in after
    requires OthersKeep(mid, after, p, {q}) && OnlyScheduled(mid[p], after[p])
    requires Conflicts(after, p, prefix) == todo - {q}
    ensures Clearing(before, after, p, prefix, todo - {q})
  {
    var all := Conflicts(before, p, prefix);
    OthersKeepBoth(before, mid, after, p, all - todo, {q});
    assert all - todo + {q} == all - (todo - {q});
  }

  /** The best assignment is the best one advertised on the link, if it takes precedence. */
  ghost predicate IsBest(ldps: Ldps, dps: map<DpId, Dp>, advps: Advps, p: Pair, node: nat, best: Option<AdvpId>)
    requires p in ldps
  {
    && p.dp in dps
    && (best.Some? ==>
          && best.value in advps && Leading(advps[best.value], advps, p.link, dps[p.dp].prefix)
          && Precedes(advps[best.value], ldps[p], node))
    && (best.None? ==>
          forall a | a in advps && Concerns(advps[a], p.link, dps[p.dp].prefix) ::
            Precedes(advps[a], ldps[p], node) ==>
              exists b | b in advps && Concerns(advps[b], p.link, dps[p.dp].prefix) ::
                !Precedes(advps[b], ldps[p], node) && !Better(advps[a], advps[b]))
  }

  /** The answer is the best one that the rules give. */
  ghost predicate Chooses(rules: seq<RuleId>, l: Ldp, hasBest: bool, max: MaxPriority, ask: Matcher, rule: RuleId,
                          m: Match) {
    && Allowed(m, l, hasBest) && (m != NoMatch ==> rule in rules && Answered(rule, m, l, hasBest, ask))
    && (BackoffsWeighed(max, ask) ==> forall r | r in rules :: Beaten(r, l, hasBest, max, ask, Reached(m, l)))
  }

  /** What a run of the routine of p has done */
  ghost predicate RoutineRan(before: Ldps, after: Ldps, dps: map<DpId, Dp>, advps: Advps, rules: seq<RuleId>, p: Pair,
                             node: nat,
                             max: MaxPriority, ask: Matcher, chance: Chance, now: int, flooding: nat,
                             best: Option<AdvpId>, rule: RuleId, m: Match, seen: Ldp) {
    && p in before && p in after && IsBest(before, dps, advps, p, node, best)
    && seen == Checked(before[p], PrefixOf(advps, best), Keeps(before, advps, p, best, node, chance.misread), now,
                       flooding)
    && Chooses(rules, seen, best.Some?, max, ask, rule, m)
    && OthersKeep(before, after, p, Evicted(before, p, m)) && EvictedExactly(before, after, p, m)
    && EndsAs(before, after[p], dps, advps, p, node, chance, now, flooding, best, rule, m, seen)
  }

  /** What has become of the pair itself */
  ghost predicate EndsAs(before: Ldps, l: Ldp, dps: map<DpId, Dp>, advps: Advps, p: Pair, node: nat, chance: Chance,
                         now: int, flooding: nat, best: Option<AdvpId>, rule: RuleId, m: Match, seen: Ldp)
    requires p in before && p.dp in dps && (best.Some? ==> best.value in advps)
  {
    && OnlyScheduled(Outcome(seen, PrefixOf(advps, best), rule, m, now, flooding, chance), l)
    && Ends(seen, PrefixOf(advps, best), rule, m, now, flooding, chance, l)
    && (Heeds(l, p.link, dps[p.dp].prefix, advps) <==>
          !Overruled(before, dps, advps, p, node, chance.misread, best, m))
  }

  /** In the fields: the other pairs keep their prefix unless it overlaps one that p publishes now. */
  ghost predicate EvictedExactly(before: Ldps, after: Ldps, p: Pair, m: Match) {
    forall q | q in before && q in after && q != p && before[q].isAssigned ::
      if m.Publish? && (before[q].prefix <= m.prefix || m.prefix <= before[q].prefix)
      then !after[q].isAssigned && after[q].routine
      else after[q].isAssigned && after[q].prefix == before[q].prefix
  }

  /** The one way not to heed an advertisement on the own link: the pair was published and took precedence
      over it, and then it backs off, or loses the prefix to an advertisement elsewhere and no rule
      answers; and nothing has scheduled it. */
  ghost predicate Overruled(before: Ldps, dps: map<DpId, Dp>, advps: Advps, p: Pair, node: nat,
                            misread: Pair -> bool, best: Option<AdvpId>, m: Match)
    requires p in before && p.dp in dps
  {
    && !before[p].routine && best.None?
    && (exists a | a in advps :: Concerns(advps[a], p.link, dps[p.dp].prefix))
    && (m.Backoff? || (m == NoMatch && !GloballyValid(before, advps, p, node, misread)))
  }

  /** With an advertisement on its link and yet without best assignment, a pair is published. */
  lemma OutrankedIsPublished(ldps: Ldps, dps: map<DpId, Dp>, advps: Advps, p: Pair, node: nat, a: AdvpId)
    requires p in ldps && IsBest(ldps, dps, advps, p, node, None)
    requires a in advps && Concerns(advps[a], p.link, dps[p.dp].prefix)
    ensures ldps[p].isPublished
  {
  }

  lemma OutcomeHeeds(before: Ldps, dps: map<DpId, Dp>, advps: Advps, p: Pair, node: nat, chance: Chance, now: int,
                     flooding: nat, best: Option<AdvpId>, rule: RuleId, m: Match, seen: Ldp, after: Ldp)
    requires p in before && Sane(before[p]) && IsBest(before, dps, advps, p, node, best)
    requires seen == Checked(before[p], PrefixOf(advps, best), Keeps(before, advps, p, best, node, chance.misread),
                             now, flooding)
    requires Sane(seen) && Sane(after) && Allowed(m, seen, best.Some?)
    requires Ends(seen, PrefixOf(advps, best), rule, m, now, flooding, chance, after)
    requires !m.Publish? ==> after == Outcome(seen, PrefixOf(advps, best), rule, m, now, flooding, chance)
    ensures Heeds(after, p.link, dps[p.dp].prefix, advps) <==>
      !Overruled(before, dps, advps, p, node, chance.misread, best, m)
  {
    if a :| a in advps && Concerns(advps[a], p.link, dps[p.dp].prefix) {
      assert advps[a].prefix <= dps[p.dp].prefix || dps[p.dp].prefix <= advps[a].prefix;
      if best.None? {
        OutrankedIsPublished(before, dps, advps, p, node, a);
        UnassignedKeeps(before[p], before[p], now, flooding);
        UnassignedKeeps(seen, seen, now, flooding);
      }
    } else {
      forall a | a in advps && advps[a].link == Some(p.link)
        ensures !(advps[a].prefix <= dps[p.dp].prefix) && !(dps[p.dp].prefix <= advps[a].prefix)
      {
        assert !Concerns(advps[a], p.link, dps[p.dp].prefix);
      }
    }
  }

  lemma AllSane(links: map<LinkId, Option<LinkId>>, dps: map<DpId, Dp>, ldps: Ldps, rules: seq<RuleId>, now: int,
                flooding: nat)
    requires PairsFit(links, dps, ldps, rules, now, flooding)
    ensures forall p | p in ldps :: Sane(ldps[p])
  {
  }

  lemma RoutineFits(seen: Ldp, acted: Ldp, best: Option<Bits>, rule: RuleId, m: Match, now: int, flooding: nat,
                    chance: Chance)
    requires Sane(seen) && FitsBest(seen, best) && Allowed(m, seen, best.Some?)
    requires OnlyScheduled(Acted(seen, best, rule, m, now, flooding, chance), acted)
    ensures FitsBest(acted, BestLeft(best, m))
    ensures OnlyScheduled(Outcome(seen, best, rule, m, now, flooding, chance),
                          Finished(acted, BestLeft(best, m), now, flooding))
  {
    if best.Some? && !m.Publish? {
      ActedWithBest(seen, best, rule, m, now, flooding, chance);
    }
    FinishedKeeps(Acted(seen, best, rule, m, now, flooding, chance), acted, BestLeft(best, m), now, flooding);
  }

  lemma FinishedKeeps(a: Ldp, b: Ldp, best: Option<Bits>, now: int, flooding: nat)
    requires OnlyScheduled(a, b)
    ensures OnlyScheduled(Finished(a, best, now, flooding), Finished(b, best, now, flooding))
  {
    assert b.isAssigned == a.isAssigned && b.isPublished == a.isPublished && b.isAdopting == a.isAdopting;
    if a.isAssigned && best.Some? {
      LeftKeeps(a, b, now, flooding);
    } else if a.isAssigned && !a.isPublished && !a.isAdopting {
      UnassignedKeeps(a, b, now, flooding);
    }
  }

  lemma RoutineOthers(before: Ldps, checked: Ldps, after: Ldps, p: Pair, m: Match)
    requires OthersKeep(before, checked, p, {}) && OthersKeep(checked, after, p, Evicted(checked, p, m))
    ensures OthersKeep(before, after, p, Evicted(before, p, m))
  {
    if m.Publish? {
      OthersConflicts(before, checked, p, m.prefix);
    }
    OthersKeepBoth(before, checked, after, p, {}, Evicted(before, p, m));
    assert {} + Evicted(before, p, m) == Evicted(before, p, m);
  }

  lemma RoutineSteady(before: Ldps, after: Ldps, p: Pair, best: Option<Bits>, valid: bool, rule: RuleId, m: Match,
                      now: int,
                      flooding: nat, chance: Chance)
    requires p in before && p in after && OthersKeep(before, after, p, Evicted(before, p, m))
    requires Sane(before[p]) && forall q | q in after :: Sane(after[q])
    requires Allowed(m, Checked(before[p], best, valid, now, flooding), best.Some?)
    requires var seen := Checked(before[p], best, valid, now, flooding);
             OnlyScheduled(Outcome(seen, best, rule, m, now, flooding, chance), after[p])
    ensures Steady(before, after)
  {
    OutcomeIsSteady(before[p], valid, best, rule, m, now, flooding, chance);
    OthersAreSteady(before, after, p, Evicted(before, p, m));
  }

  lemma OthersEvicted(before: Ldps, after: Ldps, p: Pair, m: Match)
    requires OthersKeep(before, after, p, Evicted(before, p, m))
    ensures EvictedExactly(before, after, p, m)
  {
    assert forall q | q in after && q != p :: IsKept(before[q], after[q], q in Evicted(before, p, m));
  }

  lemma EndsAfter(l: Ldp, best: Option<Bits>, rule: RuleId, m: Match, now: int, flooding: nat, chance: Chance,
                  after: Ldp)
    requires Sane(l) && FitsBest(l, best) && Allowed(m, l, best.Some?)
    requires OnlyScheduled(Outcome(l, best, rule, m, now, flooding, chance), after)
    requires !m.Publish? ==> after == Outcome(l, best, rule, m, now, flooding, chance)
    ensures Ends(l, best, rule, m, now, flooding, chance, after)
  {
    OutcomeIs(l, best, rule, m, now, flooding, chance);
  }

  lemma RoutineDone(before: Ldps, checked: Ldps, after: Ldps, dps: map<DpId, Dp>, advps: Advps, rules: seq<RuleId>,
                    p: Pair, node: nat,
                    max: MaxPriority, ask: Matcher, chance: Chance, now: int, flooding: nat,
                    best: Option<AdvpId>, rule: RuleId, m: Match)
    requires p in before && p in checked && p in after && Sane(before[p]) && forall q | q in after :: Sane(after[q])
    requires IsBest(before, dps, advps, p, node, best) && OthersKeep(before, checked, p, {})
    requires checked[p] == Checked(before[p], PrefixOf(advps, best),
                                   Keeps(before, advps, p, best, node, chance.misread), now, flooding)
    requires Chooses(rules, checked[p], best.Some?, max, ask, rule, m)
    requires OthersKeep(checked, after, p, Evicted(checked, p, m))
    requires FitsBest(checked[p], PrefixOf(advps, best)) && Sane(checked[p])
    requires OnlyScheduled(Outcome(checked[p], PrefixOf(advps, best), rule, m, now, flooding, chance), after[p])
    requires !m.Publish? ==> after[p] == Outcome(checked[p], PrefixOf(advps, best), rule, m, now, flooding, chance)
    ensures Steady(before, after)
    ensures RoutineRan(before, after, dps, advps, rules, p, node, max, ask, chance, now, flooding, best, rule, m,
                       checked[p])
  {
    RoutineOthers(before, checked, after, p, m);
    OthersEvicted(before, after, p, m);
    EndsAfter(checked[p], PrefixOf(advps, best), rule, m, now, flooding, chance, after[p]);
    OutcomeHeeds(before, dps, advps, p, node, chance, now, flooding, best, rule, m, checked[p], after[p]);
    RoutineSteady(before, after, p, PrefixOf(advps, best), Keeps(before, advps, p, best, node, chance.misread), rule,
                  m, now, flooding, chance);
  }

  lemma CheckedFits(l: Ldp, best: Option<Bits>, valid: bool, now: int, flooding: nat)
    requires Sane(l) && (best.Some? ==> valid == (l.prefix == best.value))
    ensures var k := Checked(l, best, valid, now, flooding); FitsBest(k, best) && Sane(k)
  {
  }

  lemma CreatedHeeds(ldps: Ldps, s: set<Pair>, dps: map<DpId, Dp>, advps: Advps)
    ensures KeepHeeding(ldps, advps, Created(ldps, s), advps, dps, {})
  {
    HeedingIsKept(ldps, Created(ldps, s), dps, advps, {});
  }

  lemma DroppedHeeds(ldps: Ldps, r: RuleId, dps: map<DpId, Dp>, advps: Advps, now: int, flooding: nat)
    ensures KeepHeeding(ldps, advps, map p | p in ldps :: Dropped(ldps[p], r, now, flooding), advps, dps, {})
  {
    HeedingIsKept(ldps, map p | p in ldps :: Dropped(ldps[p], r, now, flooding), dps, advps, {});
  }

  /** A pair that has a prefix and keeps it */
  lemma OwnHeeds(ldps: Ldps, p: Pair, l: Ldp, dps: map<DpId, Dp>, advps: Advps)
    requires p in ldps && ldps[p].isAssigned && l.isAssigned && l.prefix == ldps[p].prefix
    ensures KeepHeeding(ldps, advps, ldps[p := l], advps, dps, {}) && SpaceNoticed(ldps, ldps[p := l])
  {
    HeedingIsKept(ldps, ldps[p := l], dps, advps, {});
  }

  lemma RemovedIsNoticed(before: Ldps, after: Ldps, s: set<Pair>)
    requires UnassignedSome(before, after, s)
    ensures SpaceNoticed(before, after - s)
  {
    var r := after - s;
    forall q, w | w in before && w in r ensures Notices(before, r, q, w) {
      assert Notices(before, after, q, w);
    }
  }

  /** What a run of the routine means for the other pairs; `before` is `mid` but for a timer of p. */
  lemma RoutineHeeds(before: Ldps, mid: Ldps, after: Ldps, dps: map<DpId, Dp>, advps: Advps, rules: seq<RuleId>,
                     p: Pair, node: nat, max: MaxPriority, ask: Matcher, chance: Chance, now: int, flooding: nat,
                     best: Option<AdvpId>, rule: RuleId, m: Match, seen: Ldp)
    requires RoutineRan(mid, after, dps, advps, rules, p, node, max, ask, chance, now, flooding, best, rule, m, seen)
    requires p in before && mid == before[p := mid[p]] && Sane(after[p])
    requires mid[p].isAssigned == before[p].isAssigned && mid[p].prefix == before[p].prefix
    ensures KeepHeeding(before, advps, after, advps, dps, {p}) && SpaceNoticed(before, after)
  {
    OthersHeed(mid, after, dps, advps, p, Evicted(mid, p, m));
    forall q, w | w in before && w in after ensures Notices(before, after, q, w) {
      if w != p {
        assert Notices(mid, after, q, w);
      } else if !m.Publish? && q in before && q != p {
        assert IsKept(mid[q], after[q], q in Evicted(mid, p, m));
      }
    }
  }

  lemma SteadyInSteps(before: Ldps, mid: Ldps, after: Ldps, p: Pair)
    requires p in before && p in mid && mid == before[p := mid[p]] && SteadyPair(before[p], mid[p])
    requires Steady(mid, after)
    ensures Steady(before, after)
  {
  }

  lemma FinishedIsBacked(l: Ldp, link: LinkId, dp: Bits, advps: Advps, best: Option<AdvpId>, now: int, flooding: nat)
    requires best.Some? ==> best.value in advps && Concerns(advps[best.value], link, dp)
    requires FitsBest(l, PrefixOf(advps, best))
    ensures Backed(Finished(l, PrefixOf(advps, best), now, flooding), link, dp, advps)
  {
    if best.Some? {
      assert OnLink(advps, link, advps[best.value].prefix, dp);
    }
  }

  lemma LeavesTrie(trie: set<Entry>, ldps: Ldps, advps: Advps, p: Pair, l: Ldp)
    requires TrieFits(trie, ldps, advps) && p in ldps && ldps[p].prefix == l.prefix && !l.isAssigned
    ensures TrieFits(trie - {AssignedTo(l.prefix, p)}, ldps[p := l], advps)
  {
    assert forall e | e in trie :: Belongs(e, ldps, advps);
    TrieFitsAfter(trie, trie - {AssignedTo(l.prefix, p)}, ldps, advps, p, l);
  }

  lemma EntersTrie(trie: set<Entry>, ldps: Ldps, advps: Advps, p: Pair, l: Ldp)
    requires TrieFits(trie, ldps, advps) && p in ldps && !ldps[p].isAssigned && l.isAssigned
    ensures TrieFits(trie + {AssignedTo(l.prefix, p)}, ldps[p := l], advps)
  {
    assert forall e | e in trie :: Belongs(e, ldps, advps);
    TrieFitsAfter(trie, trie + {AssignedTo(l.prefix, p)}, ldps, advps, p, l);
  }

  lemma BackedAgain(ldps: Ldps, dps: map<DpId, Dp>, advps: Advps, p: Pair)
    requires AllBackedBut(ldps, dps, advps, p)
    requires p in ldps && p.dp in dps ==> Backed(ldps[p], p.link, dps[p.dp].prefix, advps)
    ensures AllBacked(ldps, dps, advps)
  {
  }

  /** The rules of one priority, in their order */
  ghost function OfPriority(s: seq<RuleId>, l: Ldp, max: MaxPriority, v: nat): seq<RuleId> {
    if s == [] then []
    else OfPriority(s[..|s| - 1], l, max, v) + if max(s[|s| - 1], l) == v then [s[|s| - 1]] else []
  }

  lemma {:induction false} OfPriorityBoth(a: seq<RuleId>, b: seq<RuleId>, l: Ldp, max: MaxPriority, v: nat)
    ensures OfPriority(a + b, l, max, v) == OfPriority(a, l, max, v) + OfPriority(b, l, max, v)
    decreases |b|
  {
    if b == [] {
      assert a + b == a;
    } else {
      assert (a + b)[..|a + b| - 1] == a + b[..|b| - 1];
      OfPriorityBoth(a, b[..|b| - 1], l, max, v);
    }
  }

  lemma {:induction false} NoneOfPriority(s: seq<RuleId>, l: Ldp, max: MaxPriority, v: nat)
    requires forall j | 0 <= j < |s| :: max(s[j], l) < v
    ensures OfPriority(s, l, max, v) == []
  {
    if s != [] {
      NoneOfPriority(s[..|s| - 1], l, max, v);
    }
  }

  lemma RestIsLower(s: seq<RuleId>, l: Ldp, max: MaxPriority, k: nat, rule: RuleId)
    requires Descending(s, l, max) && k <= |s| && (k < |s| ==> max(s[k], l) < max(rule, l))
    ensures forall j | 0 <= j < |s[k..]| :: max(s[k..][j], l) < max(rule, l)
  {
  }

  lemma PriorityOfThree(a: seq<RuleId>, rule: RuleId, b: seq<RuleId>, l: Ldp, max: MaxPriority, v: nat)
    ensures OfPriority(a + [rule] + b, l, max, v) ==
      OfPriority(a, l, max, v) + (if max(rule, l) == v then [rule] else []) + OfPriority(b, l, max, v)
  {
    OfPriorityBoth(a + [rule], b, l, max, v);
    assert (a + [rule])[..|a|] == a;
  }

  lemma InsertIsStable(a: seq<RuleId>, b: seq<RuleId>, l: Ldp, max: MaxPriority, rule: RuleId, v: nat)
    requires forall j | 0 <= j < |b| :: max(b[j], l) < max(rule, l)
    ensures OfPriority(a + [rule] + b, l, max, v) ==
      OfPriority(a + b, l, max, v) + if max(rule, l) == v then [rule] else []
  {
    PriorityOfThree(a, rule, b, l, max, v);
    OfPriorityBoth(a, b, l, max, v);
    if max(rule, l) == v {
      NoneOfPriority(b, l, max, v);
    }
  }

  /** A rule goes behind those of its priority. */
  lemma InsertedIsLast(s: seq<RuleId>, l: Ldp, max: MaxPriority, k: nat, rule: RuleId, v: nat)
    requires Descending(s, l, max) && k <= |s| && (k < |s| ==> max(s[k], l) < max(rule, l))
    ensures OfPriority(s[..k] + [rule] + s[k..], l, max, v) ==
      OfPriority(s, l, max, v) + if max(rule, l) == v then [rule] else []
  {
    RestIsLower(s, l, max, k, rule);
    InsertIsStable(s[..k], s[k..], l, max, rule, v);
    assert s == s[..k] + s[k..];
  }

  lemma InsertKeepsOrder(s: seq<RuleId>, l: Ldp, max: MaxPriority, k: nat, rule: RuleId)
    requires Descending(s, l, max) && k <= |s| && (forall j | 0 <= j < k :: max(s[j], l) >= max(rule, l))
    requires k < |s| ==> max(s[k], l) < max(rule, l)
    ensures Descending(s[..k] + [rule] + s[k..], l, max)
    ensures forall r :: r in s[..k] + [rule] + s[k..] <==> r == rule || r in s
  {
    var t := s[..k] + [rule] + s[k..];
    forall r ensures r in t <==> r == rule || r in s {
      assert s == s[..k] + s[k..];
      assert t[k] == rule;
    }
  }
}
