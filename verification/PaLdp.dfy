/**
  The state of one link / delegated prefix pair (struct pa_ldp) and its transitions
  (src/pa_core.c:58-209), as changes to its record.
 */
module PaLdp {
  import opened Wrappers
  import opened FreeSpace

  type LinkId = nat
  type DpId = nat
  type RuleId = nat
  type AdvpId = nat

  /** A pair, named by its link and its delegated prefix. */
  datatype Pair = Pair(link: LinkId, dp: DpId)

  /** struct pa_ldp.  `routine` says that the routine timer is pending; `timer` is the time at which
      the other timer (backoff_to) is due.  The last three fields are history: when the prefix was
      assigned, and when and under which flooding delay its apply timer fired. */
  datatype Ldp = Ldp(
    isAssigned: bool, isPublished: bool, isApplied: bool, isAdopting: bool, haPending: bool,
    prefix: Bits, priority: nat, rulePriority: nat, rule: Option<RuleId>,
    routine: bool, timer: Option<int>, assignedAt: int, firedAt: int, firedUnder: nat)

  const NEW_LDP := Ldp(false, false, false, false, false, [], 0, 0, None, true, None, 0, 0, 0)

  // ---------- delays ----------

  /** The conversion of a 32-bit unsigned value to int */
  function AsInt(x: nat): int
    requires x < 0x1_0000_0000
  {
    if x < 0x8000_0000 then x else x - 0x1_0000_0000
  }

  /** What uloop_timeout_set makes of an unsigned 32-bit expression with value x */
  function Int32(x: int): int {
    AsInt(x % 0x1_0000_0000)
  }

  // flooding delays up to here double without overflow
  const FLOODING_LIMIT := 0x4000_0000

  /** The delay of the apply timer is twice the flooding delay exactly below 2^30; from there on
      the doubled value is cut to an int and the timer is due too early. */
  lemma DoubledDelay(flooding: nat)
    requires flooding < 0x1_0000_0000
    ensures Int32(2 * flooding) == 2 * flooding <==> flooding < FLOODING_LIMIT
    ensures flooding >= FLOODING_LIMIT ==> Int32(2 * flooding) < 2 * flooding
  {
    if flooding >= 0x8000_0000 {
      assert (2 * flooding) % 0x1_0000_0000 == 2 * flooding - 0x1_0000_0000;
    }
  }

  // ---------- transitions ----------

  /** pa_ldp_unpublish (src/pa_core.c:78-94) */
  function Unpublished(l: Ldp, cancelApply: bool): Ldp {
    if !l.isPublished then l
    else l.(rule := None, priority := 0, rulePriority := 0, isPublished := false,
            timer := if cancelApply then None else l.timer)
  }

  /** pa_ldp_unadopt (src/pa_core.c:96-111) */
  function Unadopted(l: Ldp, now: int, flooding: nat): Ldp {
    if !l.isAdopting then l
    else l.(rule := None, priority := 0, rulePriority := 0, isAdopting := false,
            timer := if l.isApplied then l.timer else Some(now + 2 * flooding))
  }

  /** pa_ldp_publish (src/pa_core.c:113-132) */
  function Published(l: Ldp, now: int, flooding: nat, rule: RuleId, priority: nat, rulePriority: nat): Ldp {
    if l.isPublished then l
    else Unadopted(l, now, flooding).(rule := Some(rule), priority := priority, rulePriority := rulePriority,
                                      isPublished := true)
  }

  /** pa_ldp_adopt (src/pa_core.c:134-153) */
  function Adopted(l: Ldp, now: int, delay: nat, rule: RuleId, priority: nat, rulePriority: nat): Ldp {
    if l.isAdopting then l
    else Unpublished(l, true).(rule := Some(rule), priority := priority, rulePriority := rulePriority,
                               isAdopting := true,
                               timer := Some(now + delay))
  }

  /** pa_ldp_unassign (src/pa_core.c:155-176), without the other pairs */
  function Unassigned(l: Ldp, now: int, flooding: nat): Ldp {
    if !l.isAssigned then l
    else Unadopted(Unpublished(l.(haPending := false, isApplied := false), true), now, flooding).(timer := None,
                                                                                                  isAssigned := false)
  }

  /** pa_ldp_assign (src/pa_core.c:187-209) for a pair without prefix */
  function Assigned(l: Ldp, now: int, flooding: nat, prefix: Bits): Ldp {
    l.(prefix := prefix, timer := Some(now + 2 * flooding), isAssigned := true, assignedAt := now)
  }

  /** The apply timer fires. */
  function Fired(l: Ldp, now: int, flooding: nat): Ldp {
    l.(timer := None, firedAt := now, firedUnder := flooding)
  }

  /** pa_ldp_apply (src/pa_core.c:58-76) */
  function Applied(l: Ldp, parentApplied: bool): Ldp {
    if l.isApplied then l
    else if !parentApplied then l.(haPending := true)
    else l.(isApplied := true, haPending := false)
  }

  // ---------- what holds of a pair at all times ----------

  ghost predicate Sane(l: Ldp) {
    && (l.isPublished || l.isAdopting || l.isApplied || l.haPending ==> l.isAssigned)
    && !(l.isPublished && l.isAdopting) && !(l.isApplied && l.haPending)
    && (l.rule.Some? <==> l.isPublished || l.isAdopting)
  }

  /** The apply timer fired no earlier than twice the flooding delay in force after the assignment. */
  ghost predicate Ripe(l: Ldp) {
    l.firedAt >= l.assignedAt + 2 * l.firedUnder
  }

  /** The apply timer is due no earlier than twice the flooding delay after the assignment, and no
      later than that from now; what is applied, or waits for its parent, has seen it fire. */
  ghost predicate Timely(l: Ldp, now: int, flooding: nat) {
    && (l.isApplied || l.haPending ==> Ripe(l))
    && (l.isAssigned ==> l.assignedAt <= now)
    && (l.isAssigned && !l.isAdopting && !l.isApplied && l.timer.Some? ==>
          l.assignedAt + 2 * flooding <= l.timer.value <= now + 2 * flooding)
  }

  // ---------- what users are told ----------

  datatype Event = EAssigned(on: bool) | EPublished(on: bool) | EApplied(on: bool)

  /** Where the events of one pair have led, and the prefix they are about.  Once an applied prefix
      is withdrawn, all that may follow is its being unpublished and unassigned. */
  datatype Nest =
    | Idle
    | Up(prefix: Bits, published: bool, applied: bool)
    | Leaving(prefix: Bits, published: bool)
    | Broken

  /** One more event, in which users see prefix x */
  function Step(n: Nest, e: Event, x: Bits): Nest {
    match n
    case Idle => if e == EAssigned(true) then Up(x, false, false) else Broken
    case Up(y, p, a) =>
      if x != y then Broken
      else if e == EPublished(!p) then Up(x, !p, a)
      else if e == EApplied(true) && !a then Up(x, p, true)
      else if e == EApplied(false) && a then Leaving(x, p)
      else if e == EAssigned(false) && !p && !a then Idle
      else Broken
    case Leaving(y, p) =>
      if x != y then Broken
      else if e == EPublished(false) && p then Leaving(x, false)
      else if e == EAssigned(false) && !p then Idle
      else Broken
    case Broken => Broken
  }

  function Walk(n: Nest, x: Bits, events: seq<Event>): Nest {
    if events == [] then n else Step(Walk(n, x, events[..|events| - 1]), events[|events| - 1], x)
  }

  lemma WalkOne(n: Nest, x: Bits, e: Event)
    ensures Walk(n, x, [e]) == Step(n, e, x)
  {
    assert [e][..0] == [];
  }

  lemma {:induction false} WalkBoth(n: Nest, x: Bits, a: seq<Event>, b: seq<Event>)
    ensures Walk(n, x, a + b) == Walk(Walk(n, x, a), x, b)
    decreases |b|
  {
    if b == [] {
      assert a + b == a;
    } else {
      var c, e := b[..|b| - 1], b[|b| - 1];
      assert (a + b)[..|a + b| - 1] == a + c;
      WalkBoth(n, x, a, c);
    }
  }

  function NestOf(l: Ldp): Nest {
    if l.isAssigned then Up(l.prefix, l.isPublished, l.isApplied) else Idle
  }

  function PublishEvents(l: Ldp): seq<Event> {
    if l.isPublished then [] else [EPublished(true)]
  }

  function UnpublishEvents(l: Ldp): seq<Event> {
    if l.isPublished then [EPublished(false)] else []
  }

  function UnassignEvents(l: Ldp): seq<Event> {
    if !l.isAssigned then []
    else (if l.isApplied then [EApplied(false)] else []) + UnpublishEvents(l) + [EAssigned(false)]
  }

  // ---------- the transitions keep all that ----------

  lemma UnpublishedOk(l: Ldp, cancelApply: bool, now: int, flooding: nat)
    requires Sane(l) && Timely(l, now, flooding)
    ensures var r := Unpublished(l, cancelApply); Sane(r) && Timely(r, now, flooding) && !r.isPublished
    ensures Walk(NestOf(l), l.prefix, UnpublishEvents(l)) == NestOf(Unpublished(l, cancelApply))
  {
    WalkOne(NestOf(l), l.prefix, EPublished(false));
  }

  lemma UnadoptedOk(l: Ldp, now: int, flooding: nat)
    requires Sane(l) && Timely(l, now, flooding) && flooding < FLOODING_LIMIT
    ensures var r := Unadopted(l, now, flooding);
            Sane(r) && Timely(r, now, flooding) && !r.isAdopting && NestOf(r) == NestOf(l)
  {
  }

  lemma PublishedOk(l: Ldp, now: int, flooding: nat, rule: RuleId, priority: nat, rulePriority: nat)
    requires Sane(l) && Timely(l, now, flooding) && flooding < FLOODING_LIMIT && l.isAssigned
    ensures var r := Published(l, now, flooding, rule, priority, rulePriority);
            Sane(r) && Timely(r, now, flooding) && Walk(NestOf(l), l.prefix, PublishEvents(l)) == NestOf(r)
  {
    UnadoptedOk(l, now, flooding);
    WalkOne(NestOf(l), l.prefix, EPublished(true));
  }

  lemma AdoptedOk(l: Ldp, now: int, flooding: nat, delay: nat, rule: RuleId, priority: nat, rulePriority: nat)
    requires Sane(l) && Timely(l, now, flooding) && l.isAssigned && !l.isPublished
    ensures var r := Adopted(l, now, delay, rule, priority, rulePriority);
            Sane(r) && Timely(r, now, flooding) && NestOf(r) == NestOf(l)
  {
  }

  lemma UnassignedOk(l: Ldp, now: int, flooding: nat)
    requires Sane(l) && Timely(l, now, flooding)
    ensures var r := Unassigned(l, now, flooding); Sane(r) && Timely(r, now, flooding) && !r.isAssigned
    ensures Walk(NestOf(l), l.prefix, UnassignEvents(l)) == NestOf(Unassigned(l, now, flooding))
  {
    if l.isAssigned {
      var a, b := if l.isApplied then [EApplied(false)] else [], UnpublishEvents(l);
      WalkOne(NestOf(l), l.prefix, EApplied(false));
      WalkBoth(NestOf(l), l.prefix, a, b);
      WalkOne(Walk(NestOf(l), l.prefix, a), l.prefix, EPublished(false));
      WalkBoth(NestOf(l), l.prefix, a + b, [EAssigned(false)]);
      WalkOne(Walk(NestOf(l), l.prefix, a + b), l.prefix, EAssigned(false));
    }
  }

  lemma AssignedOk(l: Ldp, now: int, flooding: nat, prefix: Bits)
    requires Sane(l) && Timely(l, now, flooding) && flooding < FLOODING_LIMIT && !l.isAssigned
    ensures var r := Assigned(l, now, flooding, prefix);
            Sane(r) && Timely(r, now, flooding) && Walk(NestOf(l), prefix, [EAssigned(true)]) == NestOf(r)
  {
    WalkOne(NestOf(l), prefix, EAssigned(true));
  }

  /** When the apply timer of a pair that is not applied yet is due, the time has come. */
  lemma FiredOk(l: Ldp, now: int, flooding: nat)
    requires Sane(l) && Timely(l, now, flooding) && l.isAssigned && !l.isAdopting && !l.isApplied
    requires l.timer.Some? && l.timer.value <= now
    ensures var r := Fired(l, now, flooding); Sane(r) && Timely(r, now, flooding) && Ripe(r) && NestOf(r) == NestOf(l)
  {
  }

  lemma AppliedOk(l: Ldp, now: int, flooding: nat, parentApplied: bool)
    requires Sane(l) && Timely(l, now, flooding) && l.isAssigned && Ripe(l)
    ensures var r := Applied(l, parentApplied); Sane(r) && Timely(r, now, flooding)
    ensures Walk(NestOf(l), l.prefix,
                 if Applied(l, parentApplied).isApplied && !l.isApplied then [EApplied(true)] else [])
         == NestOf(Applied(l, parentApplied))
  {
    WalkOne(NestOf(l), l.prefix, EApplied(true));
  }

  // ---------- whether the prefix will be applied ----------

  /** A prefix that is not applied yet is going to be: its timer is set, or it waits for its parent. */
  predicate Armed(l: Ldp) {
    l.isAssigned && !l.isApplied ==> l.timer.Some? || l.haPending
  }

  /** What pa_rule_del does to a pair (src/pa_core.c:664-669) */
  function Dropped(l: Ldp, r: RuleId, now: int, flooding: nat): Ldp {
    var s := l.(routine := true);
    if s.rule == Some(r) then Unadopted(Unpublished(s, true), now, flooding) else s
  }

  /** Deleting a rule cancels the apply timer of what it published.  A pair is armed no more exactly if
      it was published by the rule and not applied or waiting yet. */
  lemma DroppedIsArmed(l: Ldp, r: RuleId, now: int, flooding: nat)
    requires Sane(l) && Armed(l)
    ensures Armed(Dropped(l, r, now, flooding)) <==>
      !(l.isPublished && l.rule == Some(r) && !l.isApplied && !l.haPending)
  {
  }

  /** If another rule then publishes the prefix, it stays published and is not going to be applied. */
  lemma LeftUnapplied(l: Ldp, r: RuleId, now: int, flooding: nat, rule: RuleId, priority: nat, rulePriority: nat)
    requires Sane(l) && Armed(l) && l.isPublished && l.rule == Some(r) && !l.isApplied && !l.haPending
    ensures var d := Unadopted(Unpublished(Dropped(l, r, now, flooding), false), now, flooding);
            var s := Published(d, now, flooding, rule, priority, rulePriority);
            && Sane(s) && s.isAssigned && s.prefix == l.prefix && s.isPublished
            && !s.isApplied && !s.haPending && s.timer == None
  {
  }

  /** The other transitions leave armed pairs armed: giving up a prefix for a better one, publishing,
      adopting, unassigning, assigning, and the timers. */
  lemma StaysArmed(l: Ldp, now: int, flooding: nat, delay: nat, f: nat, rule: RuleId, priority: nat, rulePriority: nat,
                   prefix: Bits, parentApplied: bool)
    requires Sane(l) && Armed(l)
    ensures Armed(Unpublished(l, false)) && Armed(Unadopted(l, now, flooding))
    ensures Armed(Published(l, now, flooding, rule, priority, rulePriority)) && Armed(Unassigned(l, now, flooding))
    ensures Armed(Adopted(l, now, delay, rule, priority, rulePriority)) && Armed(Assigned(l, now, flooding, prefix))
    ensures Armed(Applied(Fired(l, now, flooding), parentApplied)) && Armed(Refloated(l, now, flooding, f))
    ensures l.isAdopting ==> Armed(Published(l.(timer := None), now, flooding, rule, priority, rulePriority))
  {
  }

  // ---------- a new flooding delay ----------

  /** What pa_core_set_flooding_delay does to the timer of a pair (src/pa_core.c:672-688) */
  function Refloated(l: Ldp, now: int, flooding: nat, f: nat): Ldp {
    if !l.isAssigned || l.isAdopting || l.timer.None? then l
    else if f > flooding then l.(timer := Some(now + Int32(l.timer.value - now + 2 * (f - flooding))))
    else if f < flooding && (l.timer.value - now) % 0x1_0000_0000 > 2 * f then l.(timer := Some(now + Int32(2 * f)))
    else l
  }

  lemma SmallInt32(x: int)
    requires -0x8000_0000 <= x < 0x8000_0000
    ensures Int32(x) == x
  {
  }

  lemma RefloatedOk(l: Ldp, now: int, flooding: nat, f: nat)
    requires Sane(l) && Timely(l, now, flooding) && flooding < FLOODING_LIMIT && f < FLOODING_LIMIT
    requires l.timer.Some? ==> l.timer.value >= now - FLOODING_LIMIT
    ensures var r := Refloated(l, now, flooding, f); Timely(r, now, f) && r == l.(timer := r.timer)
  {
    if l.isAssigned && !l.isAdopting && !l.isApplied && l.timer.Some? {
      var left := l.timer.value - now;
      if f > flooding {
        SmallInt32(left + 2 * (f - flooding));
      } else {
        SmallInt32(2 * f);
        assert left >= 0 ==> left % 0x1_0000_0000 == left;
        assert left < 0 ==> left % 0x1_0000_0000 == left + 0x1_0000_0000;
      }
    }
  }
}
