/**
  Runs of the prefix assignment core that end where nobody would expect.
 */
module PaRuns {
  import opened Wrappers
  import opened FreeSpace
  import opened PaLdp
  import opened PaState
  import opened PaOutcome
  import opened PaCoreModel

  const HALF: Bits := [false]
  const QUARTER: Bits := [false, true]

  /** Rules that may reach priority 5, and publish the same prefix whenever that is enough */
  function Five(r: RuleId, l: Ldp): nat {
    5
  }

  function AskForHalf(r: RuleId, l: Ldp, hasBest: bool, toBeat: nat): Match {
    if toBeat < 5 then Publish(5, 1, HALF) else NoMatch
  }

  /** Rules that never answer */
  function Silent(r: RuleId, l: Ldp, hasBest: bool, toBeat: nat): Match {
    NoMatch
  }

  const EVEN := Chance(0, 0, (p: Pair) => false)

  /** If there is a rule and none is in force, the routine chooses to publish. */
  lemma HalfIsChosen(rules: seq<RuleId>, l: Ldp, hasBest: bool, rule: RuleId, m: Match)
    requires Chooses(rules, l, hasBest, Five, AskForHalf, rule, m) && StartPriority(l) == 0 && |rules| > 0
    ensures m == Publish(5, 1, HALF) && rule in rules
  {
    assert BackoffsWeighed(Five, AskForHalf);
    assert rules[0] in rules && !Beaten(rules[0], l, hasBest, Five, AskForHalf, 0);
  }

  /** A pair without assignment ends up publishing. */
  lemma FirstOutcome(l: Ldp, valid: bool, rule: RuleId, now: int, flooding: nat)
    requires l == NEW_LDP.(routine := false)
    ensures Checked(l, None, valid, now, flooding) == l
    ensures var r := Outcome(l, None, rule, Publish(5, 1, HALF), now, flooding, EVEN);
            && r.isAssigned && r.prefix == HALF && r.isPublished && r.rule == Some(rule) && r.priority == 1
            && !r.isApplied && !r.haPending
  {
  }

  /** An assigned pair that is published again keeps its timer, also if it has none. */
  lemma SecondOutcome(l: Ldp, rule: RuleId, now: int, flooding: nat)
    requires l.isAssigned && l.prefix == HALF && !l.isPublished && !l.isAdopting
    ensures Checked(l, None, true, now, flooding) == l
    ensures var r := Outcome(l, None, rule, Publish(5, 1, HALF), now, flooding, EVEN);
            r == l.(isPublished := true, rule := Some(rule), priority := 1, rulePriority := 5)
  {
  }

  /** What a routine that publishes does to a single pair */
  lemma RoutineOfOne(before: Ldps, after: Ldps, dps: map<DpId, Dp>, rules: seq<RuleId>, p: Pair, node: nat, now: int,
                     flooding: nat,
                     best: Option<AdvpId>, rule: RuleId, m: Match, seen: Ldp)
    requires RoutineRan(before, after, dps, map[], rules, p, node, Five, AskForHalf, EVEN, now, flooding, best, rule,
                        m, seen)
    requires before.Keys == {p} && |rules| > 0 && (before[p].isAssigned ==> before[p].prefix == HALF)
    requires !before[p].isPublished && !before[p].isAdopting
    ensures after.Keys == {p} && rule in rules && best.None?
    ensures OnlyScheduled(Outcome(before[p], None, rule, Publish(5, 1, HALF), now, flooding, EVEN), after[p])
  {
    assert best.None?;
    assert Conflicts(before, p, before[p].prefix) == {};
    assert Keeps(before, map[], p, best, node, EVEN.misread);
    assert seen == before[p];
    HalfIsChosen(rules, seen, false, rule, m);
  }

  lemma NoPairs()
    ensures Created(map[], PairsOfLink(map[], 1, None)) == map[]
  {
  }

  lemma FirstPair()
    ensures Created(map[], PairsOfDp(map[1 := None], 1, Dp([], None))) == map[Pair(1, 1) := NEW_LDP]
  {
    assert PairsOfDp(map[1 := None], 1, Dp([], None)) == {Pair(1, 1)};
  }

  lemma FirstScheduled()
    ensures Scheduled(map[Pair(1, 1) := NEW_LDP], {Pair(1, 1)}) == map[Pair(1, 1) := NEW_LDP]
  {
  }

  /** One link, one delegated prefix, one rule */
  method Setup() returns (core: PaCore, p: Pair)
    ensures fresh(core) && core.Valid() && p == Pair(1, 1) && core.ldps == map[p := NEW_LDP] && core.advps == map[]
    ensures core.rules == [1] && core.links == map[1 := None] && core.dps == map[1 := Dp([], None)] && core.node == 0
  {
    core := new PaCore();
    p := Pair(1, 1);
    core.LinkAdd(1, None);
    NoPairs();
    core.DpAdd(1, Dp([], None));
    FirstPair();
    core.RuleAdd(1);
    FirstScheduled();
  }

  /** ... and the routine of their pair */
  method Begin() returns (core: PaCore, p: Pair)
    ensures fresh(core) && core.Valid() && p == Pair(1, 1) && core.ldps.Keys == {p} && core.advps == map[]
    ensures core.rules == [1] && core.links == map[1 := None] && core.dps == map[1 := Dp([], None)] && core.node == 0
    ensures var l := core.ldps[p];
            && l.isAssigned && l.prefix == HALF && l.isPublished && l.rule == Some(1) && l.priority == 1
            && !l.isApplied && !l.haPending
  {
    core, p := Setup();
    FirstRun(core, p);
  }

  method FirstRun(core: PaCore, p: Pair)
    requires core.Valid() && core.ldps == map[p := NEW_LDP] && core.advps == map[] && core.rules == [1]
    modifies core`ldps, core`log, core`trie
    ensures core.Valid() && core.ldps.Keys == {p}
    ensures var l := core.ldps[p];
            && l.isAssigned && l.prefix == HALF && l.isPublished && l.rule == Some(1) && l.priority == 1
            && !l.isApplied && !l.haPending
  {
    ghost var l := NEW_LDP.(routine := false);
    ghost var best, rule, m, seen := core.FireRoutine(p, Five, AskForHalf, EVEN);
    assert map[p := NEW_LDP][p := l] == map[p := l];
    RoutineOfOne(map[p := l], core.ldps, core.dps, core.rules, p, core.node, core.now, core.flooding, best, rule, m,
                 seen);
    FirstOutcome(l, true, rule, core.now, core.flooding);
  }

  /** The rule that published a prefix is deleted before the prefix is applied, and another one publishes
      it: it stays published, and nothing is pending that would apply it. */
  method LosesItsTimer() returns (core: PaCore, p: Pair)
    ensures fresh(core) && core.Valid() && p in core.ldps
    ensures var l := core.ldps[p];
            l.isAssigned && l.isPublished && !l.isApplied && !l.haPending && l.timer.None?
  {
    core, p := Swap();
    ghost var d := core.ldps[p].(routine := false);
    ghost var before := core.ldps[p := d];
    ghost var best, rule, m, seen := core.FireRoutine(p, Five, AskForHalf, EVEN);
    RoutineOfOne(before, core.ldps, core.dps, core.rules, p, core.node, core.now, core.flooding, best, rule, m, seen);
    SecondOutcome(d, rule, core.now, core.flooding);
  }

  /** Rule 2 takes the place of rule 1. */
  method Swap() returns (core: PaCore, p: Pair)
    ensures fresh(core) && core.Valid() && core.ldps.Keys == {p} && core.rules == [2] && core.advps == map[]
    ensures var l := core.ldps[p];
            && l.isAssigned && l.prefix == HALF && !l.isPublished && !l.isAdopting && !l.isApplied && !l.haPending
            && l.timer.None? && l.routine
  {
    core, p := Begin();
    core.RuleDel(1);
    assert core.rules == [];
    core.RuleAdd(2);
  }

  /** What a routine without rules does to a pair that has no prefix, if its link has one advertisement */
  lemma RoutineOfSilent(before: Ldps, after: Ldps, dps: map<DpId, Dp>, advps: Advps, rules: seq<RuleId>, p: Pair,
                        node: nat,
                        now: int, flooding: nat, a: AdvpId, best: Option<AdvpId>, rule: RuleId, m: Match, seen: Ldp)
    requires RoutineRan(before, after, dps, advps, rules, p, node, Five, Silent, EVEN, now, flooding, best, rule, m,
                        seen)
    requires before[p] == NEW_LDP.(routine := false) && advps.Keys == {a}
    requires Concerns(advps[a], p.link, dps[p.dp].prefix)
    ensures after[p].isAssigned && after[p].prefix == advps[a].prefix && OthersKeep(before, after, p, {})
  {
    assert Precedes(advps[a], before[p], node);
    assert m == NoMatch;
    assert best == Some(a);
    assert seen == before[p];
  }

  ghost predicate IsPublishedHalf(l: Ldp) {
    l.isAssigned && l.isPublished && l.prefix == HALF && l.priority == 1
  }

  const PART := Advp(QUARTER, Some(2), 0, 9)

  /** A second link, on which a neighbour advertises part of what is published here */
  method Neighbour() returns (core: PaCore, p: Pair, q: Pair)
    ensures fresh(core) && core.Valid() && p == Pair(1, 1) && q == Pair(2, 1) && core.ldps.Keys == {p, q}
    ensures IsPublishedHalf(core.ldps[p]) && core.ldps[q] == NEW_LDP
    ensures core.advps == map[7 := PART] && core.dps == map[1 := Dp([], None)]
  {
    core, p := Begin();
    q := Pair(2, 1);
    ghost var l := core.ldps[p];
    core.LinkAdd(2, None);
    SecondPair();
    assert core.ldps == map[p := l, q := NEW_LDP];
    core.AdvpAdd(7, PART);
  }

  /** The prefix published here takes precedence over the advertised one, and yet the pair of the other
      link accepts that.  The check of the first pair then comes upon a pair where it expects an
      advertisement, and what it makes of it decides; no delegated prefixes overlap. */
  method PairsOverlap() returns (core: PaCore, p: Pair, q: Pair)
    ensures fresh(core) && core.Valid() && p in core.ldps && |core.dps| == 1
    ensures core.ldps[p].isPublished && Undisputed(core.advps, core.ldps[p], core.node)
    ensures Conflicts(core.ldps, p, core.ldps[p].prefix) == {q}
    ensures forall misread :: GloballyValid(core.ldps, core.advps, p, core.node, misread) <==> !misread(q)
  {
    core, p, q := Neighbour();
    ghost var before := core.ldps[q := NEW_LDP.(routine := false)];
    ghost var best, rule, m, seen := core.FireRoutine(q, Five, Silent, EVEN);
    RoutineOfSilent(before, core.ldps, core.dps, core.advps, core.rules, q, core.node, core.now, core.flooding, 7,
                    best, rule, m, seen);
    OverlapDecides(before, core.ldps, p, q, core.node);
  }

  lemma OverlapDecides(before: Ldps, ldps: Ldps, p: Pair, q: Pair, node: nat)
    requires before.Keys == {p, q} && p != q && IsPublishedHalf(before[p]) && OthersKeep(before, ldps, q, {})
    requires ldps[q].isAssigned && ldps[q].prefix == QUARTER
    ensures IsPublishedHalf(ldps[p]) && Undisputed(map[7 := PART], ldps[p], node) && Conflicts(ldps, p, HALF) == {q}
    ensures forall misread :: GloballyValid(ldps, map[7 := PART], p, node, misread) <==> !misread(q)
  {
    assert OnlyScheduled(before[p], ldps[p]);
    assert HALF <= QUARTER;
  }

  const ASIDE := Advp([true], Some(1), 0, 9)
  const ABOVE := Advp(QUARTER, Some(2), 5, 9)

  /** The published prefix takes precedence over the advertisement on its own link, but not over the one
      elsewhere that overlaps it, and no rule answers. */
  lemma RoutineOfOverruled(before: Ldps, after: Ldps, dps: map<DpId, Dp>, rules: seq<RuleId>, p: Pair, node: nat,
                           now: int, flooding: nat, best: Option<AdvpId>, rule: RuleId, m: Match, seen: Ldp)
    requires RoutineRan(before, after, dps, map[7 := ABOVE, 8 := ASIDE], rules, p, node, Five, Silent, EVEN, now,
                        flooding, best, rule, m, seen)
    requires p == Pair(1, 1) && dps == map[1 := Dp([], None)] && before.Keys == {p}
    requires IsPublishedHalf(before[p]) && !before[p].isAdopting && !before[p].routine
    ensures !after[p].isAssigned && !after[p].routine && after[p].timer.None?
  {
    var advps: Advps := map[7 := ABOVE, 8 := ASIDE];
    assert HALF <= QUARTER && Precedes(advps[7], before[p], node);
    assert !Undisputed(advps, before[p], node);
    assert !Precedes(ASIDE, before[p], node) && ABOVE.link != Some(p.link);
    assert best.None?;
    assert Concerns(advps[8], p.link, dps[p.dp].prefix);
    assert m == NoMatch;
    assert seen == Unassigned(before[p], now, flooding);
    UnassignedKeeps(before[p], before[p], now, flooding);
  }

  /** A pair ends without prefix and with nothing pending, although a neighbour advertises a prefix on its
      link that it could accept. */
  method LeftWithout() returns (core: PaCore, p: Pair)
    ensures fresh(core) && core.Valid() && p in core.ldps && p.dp in core.dps
    ensures var l := core.ldps[p]; !l.isAssigned && !l.routine && l.timer.None?
    ensures exists a | a in core.advps :: Concerns(core.advps[a], p.link, core.dps[p.dp].prefix)
  {
    core, p := Outranked();
    ghost var before := core.ldps[p := core.ldps[p].(routine := false)];
    ghost var best, rule, m, seen := core.FireRoutine(p, Five, Silent, EVEN);
    RoutineOfOverruled(before, core.ldps, core.dps, core.rules, p, core.node, core.now, core.flooding, best, rule, m,
                       seen);
    assert Concerns(core.advps[8], p.link, core.dps[p.dp].prefix);
  }

  method Outranked() returns (core: PaCore, p: Pair)
    ensures fresh(core) && core.Valid() && p == Pair(1, 1) && core.ldps.Keys == {p}
    ensures IsPublishedHalf(core.ldps[p]) && !core.ldps[p].isAdopting && core.ldps[p].routine
    ensures core.advps == map[7 := ABOVE, 8 := ASIDE] && core.dps == map[1 := Dp([], None)]
  {
    core, p := Begin();
    core.AdvpAdd(8, ASIDE);
    core.AdvpAdd(7, ABOVE);
  }

  lemma SecondPair()
    ensures PairsOfLink(map[1 := Dp([], None)], 2, None) == {Pair(2, 1)}
  {
  }
}
