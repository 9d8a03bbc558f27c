/**
  What rules answer, and what the routine makes of a pair (src/pa_core.c:265-435), as a change to its
  record.
 */
module PaOutcome {
  import opened Wrappers
  import opened FreeSpace
  import opened PaLdp
  import opened PaState

  // ---------- rules ----------

  /** What a rule's match function answers (src/pa_core.h:549-570) */
  datatype Match =
    | NoMatch
    | Adopt(rulePriority: nat, priority: nat)
    | Backoff(rulePriority: nat)
    | Destroy(rulePriority: nat)
    | Publish(rulePriority: nat, priority: nat, prefix: Bits)

  /** filter_accept and get_max_priority: 0 if the rule is not to be asked */
  type MaxPriority = (RuleId, Ldp) -> nat

  /** match, given the pair, whether it has a best assignment, and the priority to beat */
  type Matcher = (RuleId, Ldp, bool, nat) -> Match

  /** The answer fits the state of the pair (src/pa_core.h:549-570).  Rules answer BACKOFF for assigned
      pairs too (src/pa_rules.c:267-268, src/pa_rules.c:530-531). */
  predicate Allowed(m: Match, l: Ldp, hasBest: bool) {
    match m
    case Adopt(_, _) => l.isAssigned && !l.isPublished && !hasBest
    case Destroy(_) => l.isPublished || l.isAdopting
    case _ => true
  }

  /** The answer is within the announced priorities. */
  predicate Weighed(m: Match, toBeat: nat, max: nat) {
    m != NoMatch ==> toBeat < m.rulePriority <= max
  }

  /** What the core expects of rules.  A BACKOFF may come with any priority: the static rule does not
      set it (src/pa_rules.c:530-531). */
  ghost predicate RulesBehave(max: MaxPriority, ask: Matcher) {
    forall r, l, h, b :: var m := ask(r, l, h, b); Allowed(m, l, h) && (m.Backoff? || Weighed(m, b, max(r, l)))
  }

  /** Also BACKOFF comes with its priority. */
  ghost predicate BackoffsWeighed(max: MaxPriority, ask: Matcher) {
    forall r, l, h, b :: var m := ask(r, l, h, b); m.Backoff? ==> Weighed(m, b, max(r, l))
  }

  // ---------- the pair whose routine runs ----------

  /** Its record after its assignment has been checked (src/pa_core.c:269-282) */
  function Checked(l: Ldp, best: Option<Bits>, valid: bool, now: int, flooding: nat): Ldp {
    var k := if valid then l else Unassigned(l, now, flooding);
    if best.Some? then Unadopted(k, now, flooding) else k
  }

  /** Once it has the prefix, neither published nor adopted (src/pa_core.c:391-401) */
  function Placed(l: Ldp, prefix: Bits, now: int, flooding: nat): Ldp {
    if l.isAssigned && l.prefix == prefix then Unadopted(Unpublished(l, false), now, flooding)
    else Assigned(Unassigned(l, now, flooding), now, flooding, prefix)
  }

  /** The delays that are drawn at random, and what pa_precedes makes of another pair that it takes for
      an advertisement */
  datatype Chance = Chance(adoptDelay: nat, backoffDelay: nat, misread: Pair -> bool)

  /** After a rule's answer has been acted upon (src/pa_core.c:348-412) */
  function Acted(l: Ldp, best: Option<Bits>, rule: RuleId, m: Match, now: int, flooding: nat, chance: Chance): Ldp {
    match m
    case NoMatch => l
    case Adopt(rulePriority, priority) => Adopted(l, now, chance.adoptDelay, rule, priority, rulePriority)
    case Backoff(_) => if best.Some? then l else BackingOff(Unassigned(l, now, flooding), now, chance.backoffDelay)
    case Destroy(_) => Unassigned(l, now, flooding).(routine := true)
    case Publish(rulePriority, priority, prefix) =>
      Published(Placed(l, prefix, now, flooding), now, flooding, rule, priority, rulePriority)
  }

  function BackingOff(l: Ldp, now: int, delay: nat): Ldp {
    if l.timer.None? then l.(timer := Some(now + delay)) else l
  }

  /** At the end (src/pa_core.c:418-435) */
  function Finished(l: Ldp, best: Option<Bits>, now: int, flooding: nat): Ldp {
    if l.isAssigned then
      if best.Some? then Unadopted(Unpublished(l, false), now, flooding)
      else if !l.isPublished && !l.isAdopting then Unassigned(l, now, flooding)
      else l
    else if best.Some? then Assigned(l, now, flooding, best.value)
    else l
  }

  function BestLeft(best: Option<Bits>, m: Match): Option<Bits> {
    if m.Publish? then None else best
  }

  /** What the routine makes of a pair whose assignment has been checked */
  function Outcome(l: Ldp, best: Option<Bits>, rule: RuleId, m: Match, now: int, flooding: nat, chance: Chance): Ldp {
    Finished(Acted(l, best, rule, m, now, flooding, chance), BestLeft(best, m), now, flooding)
  }

  /** The record fits what has been found about the best assignment. */
  ghost predicate FitsBest(l: Ldp, best: Option<Bits>) {
    best.Some? ==> !l.isAdopting && (l.isAssigned ==> l.prefix == best.value)
  }

  /** The pair ends with the prefix the rule wants it to publish; or with that of the best assignment,
      which is left to others to publish; or with the one it adopts or publishes already; or without. */
  ghost predicate Ends(l: Ldp, best: Option<Bits>, rule: RuleId, m: Match, now: int, flooding: nat, chance: Chance,
                       r: Ldp) {
    if m.Publish? then
      && r.isPublished && r.prefix == m.prefix && r.rule == Some(rule)
      && r.priority == m.priority && r.rulePriority == m.rulePriority
      && (!(l.isAssigned && l.prefix == m.prefix) ==> Begins(r, now, flooding))
      && (l.isAssigned && l.prefix == m.prefix && !l.isAdopting ==>
            r.isApplied == l.isApplied && r.timer == l.timer)
    else if best.Some? then
      && r.isAssigned && r.prefix == best.value && !r.isPublished && !r.isAdopting
      && if l.isAssigned && !m.Destroy? then r.isApplied == l.isApplied && r.timer == l.timer
         else Begins(r, now, flooding)
    else match m
      case Adopt(rulePriority, priority) =>
        if l.isAdopting then r == l
        else r == l.(isAdopting := true, rule := Some(rule), priority := priority, rulePriority := rulePriority,
                     timer := Some(now + chance.adoptDelay))
      case Backoff(_) =>
        && !r.isAssigned
        && r.timer == if !l.isAssigned && l.timer.Some? then l.timer else Some(now + chance.backoffDelay)
      case Destroy(_) => !r.isAssigned && r.routine
      case _ => if l.isPublished || l.isAdopting then r == l else !r.isAssigned
  }

  /** The prefix has just been assigned, and will be applied after twice the flooding delay. */
  ghost predicate Begins(r: Ldp, now: int, flooding: nat) {
    !r.isApplied && r.timer == Some(now + 2 * flooding) && r.assignedAt == now
  }

  lemma OutcomeIs(l: Ldp, best: Option<Bits>, rule: RuleId, m: Match, now: int, flooding: nat, chance: Chance)
    requires Sane(l) && FitsBest(l, best) && Allowed(m, l, best.Some?)
    ensures var r := Outcome(l, best, rule, m, now, flooding, chance);
            Sane(r) && Ends(l, best, rule, m, now, flooding, chance, r)
  {
    var a := Acted(l, best, rule, m, now, flooding, chance);
    ActedIsSteady(l, best, rule, m, now, flooding, chance);
    FinishedIsSteady(a, BestLeft(best, m), now, flooding);
    if m.Publish? {
      PlacedIs(l, m.prefix, now, flooding);
    } else if best.Some? {
      ActedWithBest(l, best, rule, m, now, flooding, chance);
    } else {
      ActedAlone(l, rule, m, now, flooding, chance);
    }
  }

  lemma PlacedIs(l: Ldp, prefix: Bits, now: int, flooding: nat)
    requires Sane(l)
    ensures var r := Placed(l, prefix, now, flooding);
            && r.isAssigned && r.prefix == prefix && !r.isPublished && !r.isAdopting
            && (!(l.isAssigned && l.prefix == prefix) ==> Begins(r, now, flooding))
            && (l.isAssigned && l.prefix == prefix && !l.isAdopting ==>
                  r.isApplied == l.isApplied && r.timer == l.timer)
  {
  }

  lemma ActedWithBest(l: Ldp, best: Option<Bits>, rule: RuleId, m: Match, now: int, flooding: nat, chance: Chance)
    requires Sane(l) && FitsBest(l, best) && best.Some? && Allowed(m, l, true) && !m.Publish?
    ensures var a := Acted(l, best, rule, m, now, flooding, chance);
            && FitsBest(a, best)
            && if m.Destroy? then !a.isAssigned else a == l
  {
  }

  lemma ActedAlone(l: Ldp, rule: RuleId, m: Match, now: int, flooding: nat, chance: Chance)
    requires Sane(l) && Allowed(m, l, false) && !m.Publish?
    ensures var a := Acted(l, None, rule, m, now, flooding, chance);
            m == NoMatch || Ends(l, None, rule, m, now, flooding, chance, a)
  {
  }

  // ---------- what a step may do to the prospects of a pair ----------

  /** A pair on its way to being applied stays so, and does not start to wait. */
  predicate SteadyPair(l: Ldp, l': Ldp) {
    (l'.haPending ==> l.haPending) && (Armed(l) ==> Armed(l'))
  }

  lemma OutcomeIsSteady(l: Ldp, valid: bool, best: Option<Bits>, rule: RuleId, m: Match, now: int, flooding: nat,
                        chance: Chance)
    requires Sane(l) && Allowed(m, Checked(l, best, valid, now, flooding), best.Some?)
    ensures SteadyPair(l, Outcome(Checked(l, best, valid, now, flooding), best, rule, m, now, flooding, chance))
  {
    var k := Checked(l, best, valid, now, flooding);
    var a := Acted(k, best, rule, m, now, flooding, chance);
    CheckedIsSteady(l, valid, best, now, flooding);
    ActedIsSteady(k, best, rule, m, now, flooding, chance);
    FinishedIsSteady(a, BestLeft(best, m), now, flooding);
    SteadyTwice(l, k, a);
    SteadyTwice(l, a, Finished(a, BestLeft(best, m), now, flooding));
  }

  lemma SteadyTwice(a: Ldp, b: Ldp, c: Ldp)
    requires SteadyPair(a, b) && SteadyPair(b, c)
    ensures SteadyPair(a, c)
  {
  }

  lemma CheckedIsSteady(l: Ldp, valid: bool, best: Option<Bits>, now: int, flooding: nat)
    requires Sane(l)
    ensures var k := Checked(l, best, valid, now, flooding); Sane(k) && SteadyPair(l, k)
  {
  }

  lemma ActedIsSteady(l: Ldp, best: Option<Bits>, rule: RuleId, m: Match, now: int, flooding: nat, chance: Chance)
    requires Sane(l) && Allowed(m, l, best.Some?)
    ensures var a := Acted(l, best, rule, m, now, flooding, chance); Sane(a) && SteadyPair(l, a)
  {
    if m.Publish? {
      PlacedIsSteady(l, m.prefix, now, flooding);
    }
  }

  lemma PlacedIsSteady(l: Ldp, prefix: Bits, now: int, flooding: nat)
    requires Sane(l)
    ensures var r := Placed(l, prefix, now, flooding); Sane(r) && SteadyPair(l, r) && r.isAssigned
  {
  }

  lemma FinishedIsSteady(l: Ldp, best: Option<Bits>, now: int, flooding: nat)
    requires Sane(l)
    ensures var r := Finished(l, best, now, flooding); Sane(r) && SteadyPair(l, r)
  {
  }

  ghost predicate AllArmed(ldps: Ldps) {
    forall p | p in ldps :: Armed(ldps[p])
  }

  /** That holds for all pairs, and new ones have not begun. */
  ghost predicate Steady(before: Ldps, after: Ldps) {
    forall p | p in after :: if p in before then SteadyPair(before[p], after[p]) else after[p] == NEW_LDP
  }

  lemma SteadyStaysArmed(before: Ldps, after: Ldps)
    requires Steady(before, after) && AllArmed(before)
    ensures AllArmed(after)
  {
  }

  lemma ScheduledIsSteady(ldps: Ldps, s: set<Pair>)
    ensures Steady(ldps, Scheduled(ldps, s))
  {
  }

  // ---------- the other pairs ----------

  /** The others are as they were, or have been scheduled; those in `gone` have been unassigned, and are
      scheduled.  They notice what is lost. */
  ghost predicate OthersKeep(before: Ldps, after: Ldps, p: Pair, gone: set<Pair>) {
    && after.Keys == before.Keys && SpaceNoticedBut(before, after, p)
    && forall q | q in after && q != p :: IsKept(before[q], after[q], q in gone)
  }

  ghost predicate IsKept(l: Ldp, l': Ldp, gone: bool) {
    if gone then !l'.isAssigned && l'.routine else OnlyScheduled(l, l')
  }

  lemma OthersKeepBoth(a: Ldps, b: Ldps, c: Ldps, p: Pair, g: set<Pair>, h: set<Pair>)
    requires OthersKeep(a, b, p, g) && OthersKeep(b, c, p, h)
    ensures OthersKeep(a, c, p, g + h)
  {
    forall q | q in c && q != p ensures IsKept(a[q], c[q], q in g + h) {
      assert IsKept(a[q], b[q], q in g) && IsKept(b[q], c[q], q in h);
    }
    forall q, w | w in a && w in c && w != p ensures Notices(a, c, q, w) {
      assert IsKept(a[w], b[w], w in g) && IsKept(b[w], c[w], w in h);
      NoticedBoth(a, b, c, q, w);
    }
  }

  lemma OthersConflicts(a: Ldps, b: Ldps, p: Pair, prefix: Bits)
    requires OthersKeep(a, b, p, {})
    ensures Conflicts(b, p, prefix) == Conflicts(a, p, prefix)
  {
    assert forall q | q in b && q != p :: IsKept(a[q], b[q], false);
  }

  lemma UnassignOthers(ldps: Ldps, p: Pair, now: int, flooding: nat)
    requires p in ldps
    ensures var r := AfterUnassign(ldps, p, now, flooding);
            OthersKeep(ldps, r, p, {}) && r[p] == Unassigned(ldps[p], now, flooding)
  {
  }

  lemma OwnChange(ldps: Ldps, p: Pair, l: Ldp)
    requires p in ldps && (ldps[p].isAssigned ==> l.isAssigned && l.prefix == ldps[p].prefix)
    ensures OthersKeep(ldps, ldps[p := l], p, {})
  {
  }

  /** Another pair loses its prefix and is scheduled. */
  lemma EvictOthers(ldps: Ldps, p: Pair, q: Pair, now: int, flooding: nat)
    requires q in ldps && p in ldps && p != q
    requires ldps[q].isAssigned ==> !Unassigned(ldps[q], now, flooding).isAssigned
    ensures var r := Scheduled(AfterUnassign(ldps, q, now, flooding), {q});
            OthersKeep(ldps, r, p, {q}) && OnlyScheduled(ldps[p], r[p])
  {
  }

  lemma OthersHeed(before: Ldps, after: Ldps, dps: map<DpId, Dp>, advps: Advps, p: Pair, gone: set<Pair>)
    requires OthersKeep(before, after, p, gone)
    ensures KeepHeeding(before, advps, after, advps, dps, {p})
  {
    assert forall q | q in after && q != p :: IsKept(before[q], after[q], q in gone);
    HeedingIsKept(before, after, dps, advps, {p});
  }

  lemma OthersAreSteady(before: Ldps, after: Ldps, p: Pair, gone: set<Pair>)
    requires OthersKeep(before, after, p, gone) && (forall q | q in after :: Sane(after[q]))
    requires p in before ==> SteadyPair(before[p], after[p])
    ensures Steady(before, after)
  {
    forall q | q in after ensures SteadyPair(before[q], after[q]) {
      assert q != p ==> IsKept(before[q], after[q], q in gone);
    }
  }
}
