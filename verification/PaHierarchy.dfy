/**
  Hierarchical assignment (src/pa_core.c:762-880): a child core takes the prefixes that its parent
  assigns (fast mode) or applies (safe mode) as delegated prefixes.  The child is a user of the
  parent; it hears the parent's callbacks in order.
 */
module PaHierarchy {
  import opened Wrappers
  import opened FreeSpace
  import opened PaLdp
  import opened PaState
  import opened PaTrace
  import opened PaOutcome
  import opened PaCoreModel

  /** The child should have a delegated prefix for a pair of the parent in this state. */
  predicate Wanted(n: Nest, fast: bool) {
    if fast then n.Up? || n.Leaving? else n.Up? && n.applied
  }

  predicate HasDp(dps: map<DpId, Dp>, p: Pair) {
    exists i | i in dps :: dps[i].haLdp == Some(p)
  }

  /** The child's delegated prefixes that come from the parent are one for each wanted pair, and
      have the prefix of that pair. */
  ghost predicate Mirrors(dps: map<DpId, Dp>, log: seq<Note>, fast: bool) {
    && (forall i | i in dps && dps[i].haLdp.Some? ::
          var n := Heard(log, dps[i].haLdp.value); Wanted(n, fast) && n.prefix == dps[i].prefix)
    && (forall i, j | i in dps && j in dps && dps[i].haLdp.Some? && dps[i].haLdp == dps[j].haLdp :: i == j)
    && (forall p | Wanted(Heard(log, p), fast) :: HasDp(dps, p))
  }

  /** The parent's pair is applied, or is being unassigned and was. */
  predicate AppliedOrLeaving(n: Nest) {
    (n.Up? && n.applied) || n.Leaving?
  }

  /** A pair of the child is applied only if the parent's pair it depends on is. */
  ghost predicate Below(ldps: Ldps, dps: map<DpId, Dp>, log: seq<Note>) {
    forall c | c in ldps && c.dp in dps && ldps[c].isApplied && dps[c.dp].haLdp.Some? ::
      AppliedOrLeaving(Heard(log, dps[c.dp].haLdp.value))
  }

  /** A pair of the child waits for its parent's pair only while that one is not applied. */
  ghost predicate Waits(ldps: Ldps, dps: map<DpId, Dp>, log: seq<Note>) {
    forall c | c in ldps && c.dp in dps && ldps[c].haPending && dps[c.dp].haLdp.Some? ::
      !AppliedOrLeaving(Heard(log, dps[c.dp].haLdp.value))
  }

  /** The child is up to date with these callbacks. */
  ghost predicate Tracks(ldps: Ldps, dps: map<DpId, Dp>, log: seq<Note>, fast: bool) {
    Mirrors(dps, log, fast) && Below(ldps, dps, log) && Waits(ldps, dps, log)
  }

  // ---------- one more callback ----------

  lemma HeardNext(log: seq<Note>, n: Note, q: Pair)
    ensures Heard(log + [n], q) == if q == n.pair then Step(Heard(log, q), n.event, n.prefix) else Heard(log, q)
  {
    assert (log + [n])[..|log|] == log;
  }

  /** Nothing for the child to do */
  lemma MirrorsStill(dps: map<DpId, Dp>, log: seq<Note>, n: Note, fast: bool)
    requires Mirrors(dps, log, fast)
    requires var a, b := Heard(log, n.pair), Heard(log + [n], n.pair);
             Wanted(a, fast) == Wanted(b, fast) && (Wanted(a, fast) ==> a.prefix == b.prefix)
    ensures Mirrors(dps, log + [n], fast)
  {
    forall q
      ensures Heard(log + [n], q) == if q == n.pair then Step(Heard(log, q), n.event, n.prefix) else Heard(log, q)
    {
      HeardNext(log, n, q);
    }
  }

  lemma MirrorsMore(dps: map<DpId, Dp>, log: seq<Note>, n: Note, fast: bool, id: DpId)
    requires Mirrors(dps, log, fast) && id !in dps
    requires var a, b := Heard(log, n.pair), Heard(log + [n], n.pair);
             !Wanted(a, fast) && Wanted(b, fast) && b.prefix == n.prefix
    ensures Mirrors(dps[id := Dp(n.prefix, Some(n.pair))], log + [n], fast)
  {
    var after := dps[id := Dp(n.prefix, Some(n.pair))];
    forall q
      ensures Heard(log + [n], q) == if q == n.pair then Step(Heard(log, q), n.event, n.prefix) else Heard(log, q)
    {
      HeardNext(log, n, q);
    }
    forall q | Wanted(Heard(log + [n], q), fast) ensures HasDp(after, q) {
      if q == n.pair {
        assert after[id].haLdp == Some(q);
      } else {
        var i :| i in dps && dps[i].haLdp == Some(q);
        assert after[i].haLdp == Some(q);
      }
    }
  }

  lemma MirrorsLess(dps: map<DpId, Dp>, log: seq<Note>, n: Note, fast: bool, id: DpId)
    requires Mirrors(dps, log, fast) && id in dps && dps[id].haLdp == Some(n.pair)
    requires !Wanted(Heard(log + [n], n.pair), fast)
    ensures Mirrors(dps - {id}, log + [n], fast)
  {
    var after := dps - {id};
    forall q
      ensures Heard(log + [n], q) == if q == n.pair then Step(Heard(log, q), n.event, n.prefix) else Heard(log, q)
    {
      HeardNext(log, n, q);
    }
    forall q | Wanted(Heard(log + [n], q), fast) ensures HasDp(after, q) {
      var i :| i in dps && dps[i].haLdp == Some(q);
      assert i in after;
    }
  }

  /** The child's pairs are as before, or new, or gone. */
  lemma BelowStill(ldps: Ldps, dps: map<DpId, Dp>, ldps': Ldps, dps': map<DpId, Dp>, log: seq<Note>, n: Note)
    requires Below(ldps, dps, log)
    requires forall c | c in ldps' && c.dp in dps' && ldps'[c].isApplied && dps'[c.dp].haLdp.Some? ::
      || (dps'[c.dp].haLdp == Some(n.pair) && AppliedOrLeaving(Heard(log + [n], n.pair)))
      || (c in ldps && c.dp in dps && ldps[c].isApplied && dps[c.dp] == dps'[c.dp] && dps[c.dp].haLdp != Some(n.pair))
    ensures Below(ldps', dps', log + [n])
  {
    forall c | c in ldps' && c.dp in dps' && ldps'[c].isApplied && dps'[c.dp].haLdp.Some?
      ensures AppliedOrLeaving(Heard(log + [n], dps'[c.dp].haLdp.value))
    {
      HeardNext(log, n, dps'[c.dp].haLdp.value);
    }
  }

  /** No pair has begun to wait, and none waits for a pair that is applied now. */
  lemma WaitsStill(ldps: Ldps, dps: map<DpId, Dp>, ldps': Ldps, dps': map<DpId, Dp>, log: seq<Note>, n: Note)
    requires Waits(ldps, dps, log)
    requires forall c | c in ldps' && c.dp in dps' && ldps'[c].haPending && dps'[c.dp].haLdp.Some? ::
      && c in ldps && c.dp in dps && ldps[c].haPending && dps[c.dp] == dps'[c.dp]
      && (dps[c.dp].haLdp == Some(n.pair) ==> !AppliedOrLeaving(Heard(log + [n], n.pair)))
    ensures Waits(ldps', dps', log + [n])
  {
    forall c | c in ldps' && c.dp in dps' && ldps'[c].haPending && dps'[c.dp].haLdp.Some?
      ensures !AppliedOrLeaving(Heard(log + [n], dps'[c.dp].haLdp.value))
    {
      HeardNext(log, n, dps'[c.dp].haLdp.value);
    }
  }

  /** The pairs of a new delegated prefix are neither applied nor waiting. */
  lemma NewPairsTrack(links: map<LinkId, Option<LinkId>>, dps: map<DpId, Dp>, ldps: Ldps, log: seq<Note>, n: Note,
                      id: DpId)
    requires Below(ldps, dps, log) && Waits(ldps, dps, log) && id !in dps
    requires (forall c | c in ldps :: c.dp in dps) && forall d | d in dps :: dps[d].haLdp != Some(n.pair)
    ensures var dp := Dp(n.prefix, Some(n.pair));
            var ldps' := Created(ldps, PairsOfDp(links, id, dp));
            Below(ldps', dps[id := dp], log + [n]) && Waits(ldps', dps[id := dp], log + [n])
  {
    var dp := Dp(n.prefix, Some(n.pair));
    var ldps' := Created(ldps, PairsOfDp(links, id, dp));
    BelowStill(ldps, dps, ldps', dps[id := dp], log, n);
    WaitsStill(ldps, dps, ldps', dps[id := dp], log, n);
  }

  lemma WaitsSteady(ldps: Ldps, ldps': Ldps, dps: map<DpId, Dp>, log: seq<Note>)
    requires Waits(ldps, dps, log) && Steady(ldps, ldps')
    ensures Waits(ldps', dps, log)
  {
  }

  /** Callbacks that do not say so do not make a pair applied. */
  lemma {:induction false} HeardQuiet(log: seq<Note>, log': seq<Note>, p: Pair)
    requires Quiet(log, log') && Heard(log', p).Up? && Heard(log', p).applied
    ensures Heard(log, p).Up? && Heard(log, p).applied
    decreases |log'|
  {
    if |log| == |log'| {
      assert log == log';
    } else {
      var shorter := log'[..|log'| - 1];
      assert log <= shorter;
      assert forall i | |log| <= i < |shorter| :: shorter[i] == log'[i];
      HeardQuiet(log, shorter, p);
    }
  }

  /** A quiet step of the child leaves applied pairs below applied pairs. */
  lemma BelowQuiet(ldps: Ldps, ldps': Ldps, dps: map<DpId, Dp>, childLog: seq<Note>, childLog': seq<Note>,
                   log: seq<Note>)
    requires Below(ldps, dps, log) && LogFits(childLog, ldps) && LogFits(childLog', ldps') && Quiet(childLog, childLog')
    requires forall c | c in ldps' :: Sane(ldps'[c])
    ensures Below(ldps', dps, log)
  {
    forall c | c in ldps' && c.dp in dps && ldps'[c].isApplied && dps[c.dp].haLdp.Some?
      ensures AppliedOrLeaving(Heard(log, dps[c.dp].haLdp.value))
    {
      assert Heard(childLog', c) == NestAt(ldps', c);
      HeardQuiet(childLog, childLog', c);
      assert Heard(childLog, c) == NestAt(ldps, c);
    }
  }

  /** A quiet and steady step of the child */
  lemma TracksQuiet(ldps: Ldps, ldps': Ldps, dps: map<DpId, Dp>, childLog: seq<Note>, childLog': seq<Note>,
                    log: seq<Note>, fast: bool)
    requires Tracks(ldps, dps, log, fast) && Steady(ldps, ldps')
    requires LogFits(childLog, ldps) && LogFits(childLog', ldps') && Quiet(childLog, childLog')
    requires forall c | c in ldps' :: Sane(ldps'[c])
    ensures Tracks(ldps', dps, log, fast)
  {
    BelowQuiet(ldps, ldps', dps, childLog, childLog', log);
    WaitsSteady(ldps, ldps', dps, log);
  }

  /** Delegated prefixes of the child's own do not matter. */
  lemma OwnDp(dps: map<DpId, Dp>, dps': map<DpId, Dp>, log: seq<Note>, fast: bool)
    requires Mirrors(dps, log, fast)
    requires forall i | i in dps' && dps'[i].haLdp.Some? :: i in dps && dps[i] == dps'[i]
    requires forall i | i in dps && dps[i].haLdp.Some? :: i in dps' && dps[i] == dps'[i]
    ensures Mirrors(dps', log, fast)
  {
    forall p | Wanted(Heard(log, p), fast) ensures HasDp(dps', p) {
      var i :| i in dps && dps[i].haLdp == Some(p);
      assert dps'[i].haLdp == Some(p);
    }
  }

  /** The same while only the pairs in s have been looked at */
  ghost predicate MirrorsSome(dps: map<DpId, Dp>, log: seq<Note>, fast: bool, s: set<Pair>) {
    && (forall i | i in dps && dps[i].haLdp.Some? ::
          var n :=
            Heard(log, dps[i].haLdp.value); dps[i].haLdp.value in s && Wanted(n, fast) && n.prefix == dps[i].prefix)
    && (forall i, j | i in dps && j in dps && dps[i].haLdp.Some? && dps[i].haLdp == dps[j].haLdp :: i == j)
    && (forall p | p in s && Wanted(Heard(log, p), fast) :: HasDp(dps, p))
  }

  lemma MirrorsOneMore(dps: map<DpId, Dp>, log: seq<Note>, fast: bool, s: set<Pair>, p: Pair, id: DpId)
    requires MirrorsSome(dps, log, fast, s) && p !in s
    ensures !Wanted(Heard(log, p), fast) ==> MirrorsSome(dps, log, fast, s + {p})
    ensures Wanted(Heard(log, p), fast) && id !in dps ==>
      MirrorsSome(dps[id := Dp(Heard(log, p).prefix, Some(p))], log, fast, s + {p})
  {
    if Wanted(Heard(log, p), fast) && id !in dps {
      var after := dps[id := Dp(Heard(log, p).prefix, Some(p))];
      forall q | q in s + {p} && Wanted(Heard(log, q), fast) ensures HasDp(after, q) {
        if q == p {
          assert after[id].haLdp == Some(q);
        } else {
          var i :| i in dps && dps[i].haLdp == Some(q);
          assert after[i].haLdp == Some(q);
        }
      }
    }
  }

  class Hierarchy {
    const parent: PaCore
    const child: PaCore
    const fast: bool
    var heard: nat              // how many callbacks of the parent the child has got

    /** The child is up to date with what it has heard. */
    ghost predicate InStep()
      reads this, parent, child
    {
      && parent != child && parent.Valid() && child.Valid() && heard <= |parent.log|
      && Tracks(child.ldps, child.dps, parent.log[..heard], fast)
    }

    /** The end of a step: the child has heard all. */
    ghost predicate Valid()
      reads this, parent, child
    {
      InStep() && heard == |parent.log|
    }

    /** pa_ha_attach (src/pa_core.c:844-864), to a child without delegated prefixes of a parent */
    constructor (parent: PaCore, child: PaCore, fast: bool)
      requires parent != child && parent.Valid() && child.Valid()
      requires forall i | i in child.dps :: child.dps[i].haLdp.None?
      modifies child
      ensures Valid() && this.parent == parent && this.child == child && this.fast == fast
    {
      this.parent, this.child, this.fast, heard := parent, child, fast, |parent.log|;
      new;
      ghost var log := parent.log;
      assert log[..heard] == log;
      var todo := parent.ldps.Keys;
      while todo != {}
        invariant todo <= parent.ldps.Keys && parent.Valid() && parent.log == log && heard == |log|
        invariant child.Valid() && MirrorsSome(child.dps, log, fast, parent.ldps.Keys - todo)
        invariant Below(child.ldps, child.dps, log) && Waits(child.ldps, child.dps, log)
        decreases todo
      {
        var p :| p in todo;
        AttachPair(p, parent.ldps.Keys - todo);
        assert parent.ldps.Keys - (todo - {p}) == parent.ldps.Keys - todo + {p};
        todo := todo - {p};
      }
      assert Mirrors(child.dps, log, fast);
    }

    /** What attaching does for a pair of the parent (src/pa_core.c:859-862).  In fast mode the
        applied callback then finds no pair waiting, since all are new. */
    method AttachPair(p: Pair, ghost done: set<Pair>)
      requires parent != child && parent.Valid() && child.Valid() && p in parent.ldps && p !in done
      requires MirrorsSome(child.dps, parent.log, fast, done)
      requires Below(child.ldps, child.dps, parent.log) && Waits(child.ldps, child.dps, parent.log)
      modifies child
      ensures child.Valid() && MirrorsSome(child.dps, parent.log, fast, done + {p})
      ensures Below(child.ldps, child.dps, parent.log) && Waits(child.ldps, child.dps, parent.log)
    {
      assert Heard(parent.log, p) == NestAt(parent.ldps, p);
      var id := NewDpId();
      MirrorsOneMore(child.dps, parent.log, fast, done, p, id);
      if (if fast then parent.ldps[p].isAssigned else parent.ldps[p].isApplied) {
        AllInDps(child.links, child.dps, child.ldps, child.rules, child.now, child.flooding);
        CreatedBelow(child.ldps, child.dps, child.links, id, Dp(parent.ldps[p].prefix, Some(p)), parent.log);
        child.DpAdd(id, Dp(parent.ldps[p].prefix, Some(p)));
      }
    }

    /** pa_ha_dp_get (src/pa_core.c:762-771) */
    method HaDpGet(p: Pair) returns (id: Option<DpId>)
      ensures id.Some? ==> id.value in child.dps && child.dps[id.value].haLdp == Some(p)
      ensures id.None? ==> !HasDp(child.dps, p)
    {
      var todo := child.dps.Keys;
      while todo != {}
        invariant todo <= child.dps.Keys
        invariant forall i | i in child.dps && i !in todo :: child.dps[i].haLdp != Some(p)
        decreases todo
      {
        var i :| i in todo;
        if child.dps[i].haLdp == Some(p) {
          return Some(i);
        }
        todo := todo - {i};
      }
      return None;
    }

    /** A delegated prefix that the child does not have yet */
    method NewDpId() returns (id: DpId)
      ensures id !in child.dps
    {
      id := 0;
      var todo := child.dps.Keys;
      while todo != {}
        invariant todo <= child.dps.Keys && forall i | i in child.dps && i !in todo :: i < id
        decreases todo
      {
        var i :| i in todo;
        if i >= id {
          id := i + 1;
        }
        todo := todo - {i};
      }
    }

    /** pa_ha_dp_add (src/pa_core.c:784-805) */
    method HaDpAdd(n: Note, ghost log: seq<Note>)
      requires child.Valid() && Tracks(child.ldps, child.dps, log, fast)
      requires !Wanted(Heard(log, n.pair), fast) && Wanted(Heard(log + [n], n.pair), fast)
      requires Heard(log + [n], n.pair).prefix == n.prefix
      modifies child
      ensures child.Valid() && Tracks(child.ldps, child.dps, log + [n], fast)
    {
      var got := HaDpGet(n.pair);
      if got.Some? {
        assert false;
      }
      var id := NewDpId();
      MirrorsMore(child.dps, log, n, fast, id);
      NewPairsTrack(child.links, child.dps, child.ldps, log, n, id);
      child.DpAdd(id, Dp(n.prefix, Some(n.pair)));
    }

    /** pa_ha_dp_del (src/pa_core.c:773-782) */
    method HaDpDel(n: Note, ghost log: seq<Note>)
      requires child.Valid() && Tracks(child.ldps, child.dps, log, fast)
      requires Wanted(Heard(log, n.pair), fast) && !Wanted(Heard(log + [n], n.pair), fast)
      modifies child
      ensures child.Valid() && Tracks(child.ldps, child.dps, log + [n], fast)
    {
      var got := HaDpGet(n.pair);
      if got.None? {
        assert false;
      }
      MirrorsLess(child.dps, log, n, fast, got.value);
      ghost var ldps, dps := child.ldps, child.dps;
      child.DpDel(got.value);
      BelowStill(ldps, dps, child.ldps, child.dps, log, n);
      WaitsStill(ldps, dps, child.ldps, child.dps, log, n);
    }

    /** pa_ha_applied_cb in fast mode (src/pa_core.c:820-831): the waiting pairs are applied. */
    method HaApplied(n: Note, ghost log: seq<Note>)
      requires child.Valid() && Tracks(child.ldps, child.dps, log, fast)
      requires fast && n.event == EApplied(true) && Heard(log + [n], n.pair) != Broken
      modifies child
      ensures child.Valid() && Tracks(child.ldps, child.dps, log + [n], fast)
      ensures child.dps == old(child.dps) && child.ldps == AppliedBelow(old(child.ldps), child.dps, n.pair)
    {
      HeardNext(log, n, n.pair);
      MirrorsStill(child.dps, log, n, fast);
      var got := HaDpGet(n.pair);
      if got.None? {
        assert false;
      }
      ghost var ldps := child.ldps;
      OnlyDp(child.dps, log, fast, got.value, n.pair);
      ApplyAllWaiting(got.value, n.pair);
      assert child.ldps == AppliedBelow(ldps, child.dps, n.pair);
      AppliedBelowTracks(ldps, child.dps, log, n);
    }

    method ApplyAllWaiting(dp: DpId, ghost p: Pair)
      requires child.Valid() && forall i | i in child.dps :: child.dps[i].haLdp == Some(p) <==> i == dp
      modifies child
      ensures child.Valid() && child.dps == old(child.dps) && child.ldps == AppliedBelow(old(child.ldps), child.dps, p)
    {
      ghost var ldps := child.ldps;
      AllInDps(child.links, child.dps, child.ldps, child.rules, child.now, child.flooding);
      var todo := set c | c in child.ldps && c.dp == dp;
      while todo != {}
        invariant child.Valid() && child.dps == old(child.dps) && todo <= child.ldps.Keys
        invariant (forall c | c in todo :: c.dp == dp) && WokenBut(ldps, child.ldps, dp, todo)
        decreases todo
      {
        var c :| c in todo;
        WokenOneMore(ldps, child.ldps, dp, todo, c);
        ApplyIfWaiting(c);
        todo := todo - {c};
      }
      AllWoken(ldps, child.ldps, child.dps, dp, p);
    }

    method ApplyIfWaiting(c: Pair)
      requires child.Valid() && c in child.ldps
      modifies child
      ensures child.Valid() && child.dps == old(child.dps)
      ensures child.ldps == old(child.ldps)[c := Woken(old(child.ldps)[c])]
    {
      AllSane(child.links, child.dps, child.ldps, child.rules, child.now, child.flooding);
      if !child.ldps[c].isApplied && child.ldps[c].haPending {
        child.ApplyWaiting(c);
      }
    }

    /** One callback (src/pa_core.c:807-842) */
    method Hear(n: Note, ghost log: seq<Note>)
      requires child.Valid() && Tracks(child.ldps, child.dps, log, fast)
      requires Heard(log + [n], n.pair) != Broken
      modifies child
      ensures child.Valid() && Tracks(child.ldps, child.dps, log + [n], fast)
    {
      HeardNext(log, n, n.pair);
      if n.event == if fast then EAssigned(true) else EApplied(true) {
        HaDpAdd(n, log);
      } else if n.event == if fast then EAssigned(false) else EApplied(false) {
        HaDpDel(n, log);
      } else if fast && n.event == EApplied(true) {
        HaApplied(n, log);
      } else {
        MirrorsStill(child.dps, log, n, fast);
        BelowStill(child.ldps, child.dps, child.ldps, child.dps, log, n);
        WaitsStill(child.ldps, child.dps, child.ldps, child.dps, log, n);
      }
    }

    /** The callbacks of a step of the parent, in their order */
    method Deliver()
      requires InStep()
      modifies this`heard, child
      ensures Valid()
    {
      while heard < |parent.log|
        invariant InStep()
        decreases |parent.log| - heard
      {
        DeliverOne();
      }
      assert parent.log[..heard] == parent.log;
    }

    method DeliverOne()
      requires InStep() && heard < |parent.log|
      modifies this`heard, child
      ensures InStep() && heard == old(heard) + 1
    {
      ghost var log := parent.log[..heard];
      assert parent.log[..heard + 1] == log + [parent.log[heard]];
      NotBroken();
      Hear(parent.log[heard], log);
      heard := heard + 1;
    }

    lemma NotBroken()
      requires InStep() && heard < |parent.log|
      ensures Heard(parent.log[..heard + 1], parent.log[heard].pair) != Broken
    {
      var p := parent.log[heard].pair;
      assert Heard(parent.log, p) == NestAt(parent.ldps, p);
      if Heard(parent.log[..heard + 1], p) == Broken {
        BrokenStays(parent.log, heard + 1, p);
      }
    }

    // ---------- steps ----------

    /** What a user may count on after every step: applied pairs of the child sit below applied
        pairs of the parent, a pair of the child waits only for a pair of the parent that is assigned and
        not applied, and the child has one delegated prefix, the right one, for each pair
        that the parent has assigned (fast mode) or applied (safe mode). */
    lemma EndOfStep()
      requires Valid()
      ensures forall c | c in child.ldps && child.ldps[c].isApplied && child.dps[c.dp].haLdp.Some? ::
        var p := child.dps[c.dp].haLdp.value; p in parent.ldps && parent.ldps[p].isApplied
      ensures forall c | c in child.ldps && child.ldps[c].haPending && child.dps[c.dp].haLdp.Some? ::
        var p := child.dps[c.dp].haLdp.value;
        fast && p in parent.ldps && parent.ldps[p].isAssigned && !parent.ldps[p].isApplied
      ensures forall p :: HasDp(child.dps, p) <==>
        p in parent.ldps && if fast then parent.ldps[p].isAssigned else parent.ldps[p].isApplied
      ensures forall i | i in child.dps && child.dps[i].haLdp.Some? ::
        child.dps[i].haLdp.value in parent.ldps && child.dps[i].prefix == parent.ldps[child.dps[i].haLdp.value].prefix
      ensures forall i, j | i in child.dps && j in child.dps && i != j && child.dps[i].haLdp.Some? ::
        child.dps[i].haLdp != child.dps[j].haLdp
    {
      var log := parent.log;
      assert log[..heard] == log;
      assert forall p :: Heard(log, p) == NestAt(parent.ldps, p);
      assert forall p | p in parent.ldps :: PairFits(parent.ldps[p], parent.rules, parent.now, parent.flooding);
    }

    method ParentRoutine(p: Pair, max: MaxPriority, ask: Matcher, chance: Chance)
      returns (ghost best: Option<AdvpId>, ghost rule: RuleId, ghost m: Match, ghost seen: Ldp)
      requires Valid() && RulesBehave(max, ask) && p in parent.ldps && parent.ldps[p].routine
      modifies parent, child, this`heard
      ensures Valid()
      ensures RoutineRan(old(parent.ldps)[p := old(parent.ldps)[p].(routine := false)], parent.ldps, parent.dps,
                         parent.advps, parent.rules, p, parent.node, max, ask, chance,
                         parent.now, parent.flooding, best, rule, m, seen)
    {
      ghost var log := parent.log[..heard];
      assert log == parent.log;
      best, rule, m, seen := parent.FireRoutine(p, max, ask, chance);
      assert parent.log[..heard] == log;
      Deliver();
    }

    /** `above` says whether the pair of a third core that the parent's pair may depend on is applied. */
    method ParentBackoff(p: Pair, max: MaxPriority, ask: Matcher, chance: Chance, above: bool)
      returns (ghost best: Option<AdvpId>, ghost rule: RuleId, ghost m: Match, ghost seen: Ldp)
      requires Valid() && RulesBehave(max, ask) && p in parent.ldps
      requires parent.ldps[p].timer.Some? && parent.ldps[p].timer.value <= parent.now
      modifies parent, child, this`heard
      ensures Valid()
      ensures old(parent.ldps)[p].isAdopting ==>
        parent.ldps == old(parent.ldps)[p := AdoptionOver(old(parent.ldps)[p], parent.now, parent.flooding)]
      ensures old(parent.ldps)[p].isAssigned && !old(parent.ldps)[p].isAdopting ==>
        parent.ldps == old(parent.ldps)[p := AfterApplyTimer(old(parent.ldps)[p], parent.now, parent.flooding, above)]
      ensures !old(parent.ldps)[p].isAssigned ==>
        RoutineRan(old(parent.ldps)[p := old(parent.ldps)[p].(timer := None)], parent.ldps, parent.dps,
                   parent.advps, parent.rules, p, parent.node, max, ask, chance,
                   parent.now, parent.flooding, best, rule, m, seen)
    {
      ghost var log := parent.log[..heard];
      assert log == parent.log;
      best, rule, m, seen := parent.FireBackoff(p, max, ask, chance, above);
      assert parent.log[..heard] == log;
      Deliver();
    }

    method ParentDpDel(id: DpId)
      requires Valid() && id in parent.dps
      modifies parent, child, this`heard
      ensures Valid()
      ensures parent.dps == old(parent.dps) - {id}
      ensures parent.ldps.Keys == set p | p in old(parent.ldps) && p.dp != id
      ensures forall p | p in parent.ldps :: OnlyScheduled(old(parent.ldps)[p], parent.ldps[p])
    {
      ghost var log := parent.log[..heard];
      assert log == parent.log;
      parent.DpDel(id);
      assert parent.log[..heard] == log;
      Deliver();
    }

    method ParentLinkDel(id: LinkId)
      requires Valid() && id in parent.links
      modifies parent, child, this`heard
      ensures Valid()
      ensures parent.links == old(parent.links) - {id}
      ensures parent.ldps.Keys == set p | p in old(parent.ldps) && p.link != id
      ensures forall p | p in parent.ldps :: OnlyScheduled(old(parent.ldps)[p], parent.ldps[p])
    {
      ghost var log := parent.log[..heard];
      assert log == parent.log;
      parent.LinkDel(id);
      assert parent.log[..heard] == log;
      Deliver();
    }

    method ParentRuleDel(r: RuleId)
      requires Valid() && r in parent.rules
      modifies parent, child, this`heard
      ensures Valid()
      ensures parent.rules == AllBut(old(parent.rules), r)
      ensures parent.ldps == map p | p in old(parent.ldps) ::
        Dropped(old(parent.ldps)[p], r, parent.now, parent.flooding)
    {
      ghost var log := parent.log[..heard];
      assert log == parent.log;
      parent.RuleDel(r);
      assert parent.log[..heard] == log;
      Deliver();
    }

    /** Time passes for the parent. */
    method ParentTick(t: int)
      requires Valid() && t >= parent.now
      modifies parent
      ensures Valid() && parent.now == t
    {
      parent.Tick(t);
    }

    method ParentAdvpAdd(a: AdvpId, x: Advp)
      requires Valid() && a !in parent.advps
      modifies parent
      ensures Valid() && parent.advps == old(parent.advps)[a := x]
      ensures parent.ldps.Keys == old(parent.ldps.Keys)
      ensures forall p | p in parent.ldps :: parent.ldps[p] == HeardOf(old(parent.ldps)[p], parent.dps[p.dp], x.prefix)
    {
      parent.AdvpAdd(a, x);
    }

    method ParentAdvpUpdate(a: AdvpId, link: Option<LinkId>, priority: nat, sender: nat)
      requires Valid() && a in parent.advps
      modifies parent
      ensures Valid()
      ensures parent.advps == old(parent.advps)[a := Advp(old(parent.advps)[a].prefix, link, priority, sender)]
      ensures parent.ldps.Keys == old(parent.ldps.Keys)
      ensures forall p | p in parent.ldps ::
        parent.ldps[p] == HeardOf(old(parent.ldps)[p], parent.dps[p.dp], old(parent.advps)[a].prefix)
    {
      parent.AdvpUpdate(a, link, priority, sender);
    }

    method ParentAdvpDel(a: AdvpId)
      requires Valid() && a in parent.advps
      modifies parent
      ensures Valid() && parent.advps == old(parent.advps) - {a}
      ensures parent.ldps.Keys == old(parent.ldps.Keys)
      ensures forall p | p in parent.ldps ::
        parent.ldps[p] == HeardOf(old(parent.ldps)[p], parent.dps[p.dp], old(parent.advps)[a].prefix)
    {
      parent.AdvpDel(a);
    }

    method ParentRuleAdd(r: RuleId)
      requires Valid() && r !in parent.rules
      modifies parent
      ensures Valid() && parent.rules == old(parent.rules) + [r]
      ensures parent.ldps == Scheduled(old(parent.ldps), old(parent.ldps).Keys)
    {
      parent.RuleAdd(r);
    }

    method ParentSetNodeId(id: nat)
      requires Valid()
      modifies parent
      ensures Valid() && parent.node == id
      ensures parent.ldps == if id == old(parent.node)
        then old(parent.ldps)
        else Scheduled(old(parent.ldps), old(parent.ldps).Keys)
    {
      parent.SetNodeId(id);
    }

    method ParentSetFloodingDelay(f: nat)
      requires Valid() && f < 0x1_0000_0000
      modifies parent
      ensures parent.flooding == f && (f < FLOODING_LIMIT && Prompt(old(parent.ldps), parent.now) ==> Valid())
      ensures parent.ldps == AllRefloated(old(parent.ldps), parent.now, old(parent.flooding), f)
    {
      parent.SetFloodingDelay(f);
    }

    /** A delegated prefix of the parent's own, or of a third core */
    method ParentDpAdd(id: DpId, dp: Dp)
      requires Valid() && id !in parent.dps
      modifies parent
      ensures Valid() && parent.dps == old(parent.dps)[id := dp]
      ensures parent.ldps == Created(old(parent.ldps), PairsOfDp(parent.links, id, dp))
    {
      parent.DpAdd(id, dp);
    }

    method ParentLinkAdd(id: LinkId, above: Option<LinkId>)
      requires Valid() && id !in parent.links
      modifies parent
      ensures Valid() && parent.links == old(parent.links)[id := above]
      ensures parent.ldps == Created(old(parent.ldps), PairsOfLink(parent.dps, id, above))
    {
      parent.LinkAdd(id, above);
    }

    /** Time passes for the child. */
    method ChildTick(t: int)
      requires Valid() && t >= child.now
      modifies child
      ensures Valid() && child.now == t
    {
      child.Tick(t);
    }

    method ChildAdvpAdd(a: AdvpId, x: Advp)
      requires Valid() && a !in child.advps
      modifies child
      ensures Valid() && child.advps == old(child.advps)[a := x]
      ensures child.ldps.Keys == old(child.ldps.Keys)
      ensures forall p | p in child.ldps :: child.ldps[p] == HeardOf(old(child.ldps)[p], child.dps[p.dp], x.prefix)
    {
      child.AdvpAdd(a, x);
    }

    method ChildAdvpUpdate(a: AdvpId, link: Option<LinkId>, priority: nat, sender: nat)
      requires Valid() && a in child.advps
      modifies child
      ensures Valid() && child.advps == old(child.advps)[a := Advp(old(child.advps)[a].prefix, link, priority, sender)]
      ensures child.ldps.Keys == old(child.ldps.Keys)
      ensures forall p | p in child.ldps ::
        child.ldps[p] == HeardOf(old(child.ldps)[p], child.dps[p.dp], old(child.advps)[a].prefix)
    {
      child.AdvpUpdate(a, link, priority, sender);
    }

    method ChildAdvpDel(a: AdvpId)
      requires Valid() && a in child.advps
      modifies child
      ensures Valid() && child.advps == old(child.advps) - {a}
      ensures child.ldps.Keys == old(child.ldps.Keys)
      ensures forall p | p in child.ldps ::
        child.ldps[p] == HeardOf(old(child.ldps)[p], child.dps[p.dp], old(child.advps)[a].prefix)
    {
      child.AdvpDel(a);
    }

    method ChildRuleAdd(r: RuleId)
      requires Valid() && r !in child.rules
      modifies child
      ensures Valid() && child.rules == old(child.rules) + [r]
      ensures child.ldps == Scheduled(old(child.ldps), old(child.ldps).Keys)
    {
      child.RuleAdd(r);
    }

    method ChildSetNodeId(id: nat)
      requires Valid()
      modifies child
      ensures Valid() && child.node == id
      ensures child.ldps == if id == old(child.node)
        then old(child.ldps)
        else Scheduled(old(child.ldps), old(child.ldps).Keys)
    {
      child.SetNodeId(id);
    }

    method ChildSetFloodingDelay(f: nat)
      requires Valid() && f < 0x1_0000_0000
      modifies child
      ensures child.flooding == f && (f < FLOODING_LIMIT && Prompt(old(child.ldps), child.now) ==> Valid())
      ensures child.ldps == AllRefloated(old(child.ldps), child.now, old(child.flooding), f)
    {
      child.SetFloodingDelay(f);
    }

    /** The routine applies nothing, and makes no pair wait. */
    method ChildRoutine(c: Pair, max: MaxPriority, ask: Matcher, chance: Chance)
      returns (ghost best: Option<AdvpId>, ghost rule: RuleId, ghost m: Match, ghost seen: Ldp)
      requires Valid() && RulesBehave(max, ask) && c in child.ldps && child.ldps[c].routine
      modifies child
      ensures Valid() && Quiet(old(child.log), child.log) && Steady(old(child.ldps), child.ldps)
      ensures RoutineRan(old(child.ldps)[c := old(child.ldps)[c].(routine := false)], child.ldps, child.dps,
                         child.advps, child.rules, c, child.node, max, ask, chance,
                         child.now, child.flooding, best, rule, m, seen)
    {
      ghost var ldps, log := child.ldps, child.log;
      best, rule, m, seen := child.FireRoutine(c, max, ask, chance);
      AllSane(child.links, child.dps, child.ldps, child.rules, child.now, child.flooding);
      TracksQuiet(ldps, child.ldps, child.dps, log, child.log, parent.log[..heard], fast);
    }

    /** The parent's pair that c depends on, if any, is applied. */
    predicate IsAboveApplied(c: Pair)
      requires c.dp in child.dps && (child.dps[c.dp].haLdp.Some? ==> child.dps[c.dp].haLdp.value in parent.ldps)
      reads parent, child
    {
      child.dps[c.dp].haLdp.None? || parent.ldps[child.dps[c.dp].haLdp.value].isApplied
    }

    /** A timer of the child; an apply timer looks at the parent's pair (src/pa_core.c:63-69). */
    method ChildBackoff(c: Pair, max: MaxPriority, ask: Matcher, chance: Chance)
      returns (ghost best: Option<AdvpId>, ghost rule: RuleId, ghost m: Match, ghost seen: Ldp)
      requires Valid() && RulesBehave(max, ask) && c in child.ldps
      requires child.ldps[c].timer.Some? && child.ldps[c].timer.value <= child.now
      modifies child
      ensures Valid() && child.dps == old(child.dps)
      ensures c.dp in child.dps && (child.dps[c.dp].haLdp.Some? ==> child.dps[c.dp].haLdp.value in parent.ldps)
      ensures var l := old(child.ldps)[c];
              if l.isAssigned && !l.isAdopting
              then child.ldps == old(child.ldps)[c := AfterApplyTimer(l, child.now, child.flooding, IsAboveApplied(c))]
              else Quiet(old(child.log), child.log) && Steady(old(child.ldps), child.ldps)
      ensures old(child.ldps)[c].isAdopting ==>
        child.ldps == old(child.ldps)[c := AdoptionOver(old(child.ldps)[c], child.now, child.flooding)]
      ensures !old(child.ldps)[c].isAssigned ==>
        RoutineRan(old(child.ldps)[c := old(child.ldps)[c].(timer := None)], child.ldps, child.dps,
                   child.advps, child.rules, c, child.node, max, ask, chance,
                   child.now, child.flooding, best, rule, m, seen)
    {
      AboveIsKnown(c);
      best, rule, m, seen := None, 0, NoMatch, NEW_LDP;
      if child.ldps[c].isAssigned && !child.ldps[c].isAdopting {
        ChildApply(c);
      } else {
        ghost var ldps, log := child.ldps, child.log;
        best, rule, m, seen := child.FireBackoff(c, max, ask, chance, true);
        AllSane(child.links, child.dps, child.ldps, child.rules, child.now, child.flooding);
        TracksQuiet(ldps, child.ldps, child.dps, log, child.log, parent.log[..heard], fast);
      }
    }

    method ChildApply(c: Pair)
      requires Valid() && c in child.ldps && child.ldps[c].isAssigned && !child.ldps[c].isAdopting
      requires child.ldps[c].timer.Some? && child.ldps[c].timer.value <= child.now
      requires c.dp in child.dps && (child.dps[c.dp].haLdp.Some? ==> child.dps[c.dp].haLdp.value in parent.ldps)
      modifies child
      ensures Valid() && child.dps == old(child.dps)
      ensures child.ldps == old(child.ldps)[c := AfterApplyTimer(old(child.ldps)[c], child.now, child.flooding,
                                                                 IsAboveApplied(c))]
    {
      AboveIsKnown(c);
      ghost var ldps := child.ldps;
      var parentApplied := IsAboveApplied(c);
      child.FireApply(c, parentApplied);
      BelowApplied(ldps, child.ldps, child.dps, parent.log[..heard], c, parentApplied, parent.ldps);
      WaitsApplied(ldps, child.ldps, child.dps, parent.log[..heard], c, parentApplied, parent.ldps);
    }

    method ChildRuleDel(r: RuleId)
      requires Valid() && r in child.rules
      modifies child
      ensures Valid()
      ensures child.rules == AllBut(old(child.rules), r)
      ensures child.ldps == map p | p in old(child.ldps) :: Dropped(old(child.ldps)[p], r, child.now, child.flooding)
    {
      ghost var ldps, log := child.ldps, child.log;
      child.RuleDel(r);
      BelowQuiet(ldps, child.ldps, child.dps, log, child.log, parent.log[..heard]);
      WaitsDropped(ldps, child.dps, parent.log[..heard], r, child.now, child.flooding);
    }

    method ChildLinkAdd(id: LinkId, above: Option<LinkId>)
      requires Valid() && id !in child.links
      modifies child
      ensures Valid() && child.links == old(child.links)[id := above]
      ensures child.ldps == Created(old(child.ldps), PairsOfLink(child.dps, id, above))
    {
      child.LinkAdd(id, above);
    }

    method ChildLinkDel(id: LinkId)
      requires Valid() && id in child.links
      modifies child
      ensures Valid()
      ensures child.links == old(child.links) - {id}
      ensures child.ldps.Keys == set p | p in old(child.ldps) && p.link != id
      ensures forall p | p in child.ldps :: OnlyScheduled(old(child.ldps)[p], child.ldps[p])
    {
      ghost var ldps, log := child.ldps, child.log;
      child.LinkDel(id);
      AllSane(child.links, child.dps, child.ldps, child.rules, child.now, child.flooding);
      TracksQuiet(ldps, child.ldps, child.dps, log, child.log, parent.log[..heard], fast);
    }

    /** A delegated prefix of the child's own */
    method ChildDpAdd(id: DpId, prefix: Bits)
      requires Valid() && id !in child.dps
      modifies child
      ensures Valid() && child.dps == old(child.dps)[id := Dp(prefix, None)]
      ensures child.ldps == Created(old(child.ldps), PairsOfDp(child.links, id, Dp(prefix, None)))
    {
      OwnDp(child.dps, child.dps[id := Dp(prefix, None)], parent.log[..heard], fast);
      child.DpAdd(id, Dp(prefix, None));
    }

    method ChildDpDel(id: DpId)
      requires Valid() && id in child.dps && child.dps[id].haLdp.None?
      modifies child
      ensures Valid()
      ensures child.dps == old(child.dps) - {id}
      ensures child.ldps.Keys == set p | p in old(child.ldps) && p.dp != id
      ensures forall p | p in child.ldps :: OnlyScheduled(old(child.ldps)[p], child.ldps[p])
    {
      OwnDp(child.dps, child.dps - {id}, parent.log[..heard], fast);
      child.DpDel(id);
    }

    /** pa_ha_detach (src/pa_core.c:866-880): the child keeps no delegated prefix of the parent. */
    method Detach()
      requires Valid()
      modifies child
      ensures child.Valid() && forall i | i in child.dps :: i in old(child.dps) && child.dps[i] == old(child.dps)[i]
      ensures forall i | i in old(child.dps) :: i in child.dps <==> old(child.dps)[i].haLdp.None?
    {
      var todo := child.dps.Keys;
      while todo != {}
        invariant child.Valid() && todo <= child.dps.Keys
        invariant forall i | i in child.dps :: i in old(child.dps) && child.dps[i] == old(child.dps)[i]
        invariant forall i | i in old(child.dps) && i !in todo :: i in child.dps <==> old(child.dps)[i].haLdp.None?
        decreases todo
      {
        var i :| i in todo;
        if child.dps[i].haLdp.Some? {
          child.DpDel(i);
        }
        todo := todo - {i};
      }
    }

    lemma AboveIsKnown(c: Pair)
      requires Valid() && c in child.ldps
      ensures c.dp in child.dps && LogFits(parent.log[..heard], parent.ldps)
      ensures child.dps[c.dp].haLdp.Some? ==> child.dps[c.dp].haLdp.value in parent.ldps
      ensures forall p | p in parent.ldps :: Sane(parent.ldps[p])
    {
      EndOfStep();
      assert parent.log[..heard] == parent.log;
      assert forall p | p in parent.ldps :: PairFits(parent.ldps[p], parent.rules, parent.now, parent.flooding);
    }
  }

  /** A pair, once its parent's pair is applied */
  function Woken(l: Ldp): Ldp {
    if l.haPending then Applied(l, true) else l
  }

  /** The pairs below a parent's pair that is applied now, if they wait, are applied. */
  function AppliedBelow(ldps: Ldps, dps: map<DpId, Dp>, p: Pair): Ldps {
    map c | c in ldps :: if c.dp in dps && dps[c.dp].haLdp == Some(p) then Woken(ldps[c]) else ldps[c]
  }

  ghost predicate WokenBut(before: Ldps, ldps: Ldps, dp: DpId, todo: set<Pair>) {
    && ldps.Keys == before.Keys
    && forall c | c in ldps :: ldps[c] == if c.dp == dp && c !in todo then Woken(before[c]) else before[c]
  }

  lemma WokenOneMore(before: Ldps, ldps: Ldps, dp: DpId, todo: set<Pair>, c: Pair)
    requires WokenBut(before, ldps, dp, todo) && c in todo && c in ldps && c.dp == dp
    ensures WokenBut(before, ldps[c := Woken(ldps[c])], dp, todo - {c})
  {
  }

  /** A delegated prefix comes with new pairs. */
  lemma CreatedBelow(ldps: Ldps, dps: map<DpId, Dp>, links: map<LinkId, Option<LinkId>>, id: DpId, dp: Dp,
                     log: seq<Note>)
    requires Below(ldps, dps, log) && Waits(ldps, dps, log) && id !in dps && forall c | c in ldps :: c.dp in dps
    ensures var after := Created(ldps, PairsOfDp(links, id, dp));
            Below(after, dps[id := dp], log) && Waits(after, dps[id := dp], log)
  {
  }

  lemma AllWoken(before: Ldps, ldps: Ldps, dps: map<DpId, Dp>, dp: DpId, p: Pair)
    requires WokenBut(before, ldps, dp, {}) && (forall i | i in dps :: dps[i].haLdp == Some(p) <==> i == dp)
    requires forall c | c in before :: c.dp in dps
    ensures ldps == AppliedBelow(before, dps, p)
  {
  }

  lemma AllInDps(links: map<LinkId, Option<LinkId>>, dps: map<DpId, Dp>, ldps: Ldps, rules: seq<RuleId>, now: int,
                 flooding: nat)
    requires PairsFit(links, dps, ldps, rules, now, flooding)
    ensures forall c | c in ldps :: c.dp in dps
  {
  }

  lemma OnlyDp(dps: map<DpId, Dp>, log: seq<Note>, fast: bool, id: DpId, p: Pair)
    requires Mirrors(dps, log, fast) && id in dps && dps[id].haLdp == Some(p)
    ensures forall i | i in dps :: dps[i].haLdp == Some(p) <==> i == id
  {
  }

  lemma AppliedBelowTracks(ldps: Ldps, dps: map<DpId, Dp>, log: seq<Note>, n: Note)
    requires Below(ldps, dps, log) && Waits(ldps, dps, log) && AppliedOrLeaving(Heard(log + [n], n.pair))
    requires forall c | c in ldps :: !(ldps[c].isApplied && ldps[c].haPending)
    ensures var after := AppliedBelow(ldps, dps, n.pair); Below(after, dps, log + [n]) && Waits(after, dps, log + [n])
  {
    var after := AppliedBelow(ldps, dps, n.pair);
    BelowStill(ldps, dps, after, dps, log, n);
    WaitsStill(ldps, dps, after, dps, log, n);
  }

  /** One pair of the child has begun to wait, because its parent's pair is not applied. */
  lemma WaitsApplied(ldps: Ldps, ldps': Ldps, dps: map<DpId, Dp>, log: seq<Note>, c: Pair, parentApplied: bool,
                     above: Ldps)
    requires Waits(ldps, dps, log) && LogFits(log, above) && c in ldps && c in ldps' && ldps' == ldps[c := ldps'[c]]
    requires c.dp in dps
    requires ldps'[c].haPending ==> ldps[c].haPending || !parentApplied
    requires !parentApplied ==>
      dps[c.dp].haLdp.Some? && dps[c.dp].haLdp.value in above && !above[dps[c.dp].haLdp.value].isApplied
    ensures Waits(ldps', dps, log)
  {
    if !parentApplied {
      var p := dps[c.dp].haLdp.value;
      assert Heard(log, p) == NestAt(above, p);
    }
  }

  lemma WaitsDropped(ldps: Ldps, dps: map<DpId, Dp>, log: seq<Note>, r: RuleId, now: int, flooding: nat)
    requires Waits(ldps, dps, log)
    ensures Waits(map c | c in ldps :: Dropped(ldps[c], r, now, flooding), dps, log)
  {
  }

  /** One pair of the child has been applied, because its parent is. */
  lemma BelowApplied(ldps: Ldps, ldps': Ldps, dps: map<DpId, Dp>, log: seq<Note>, c: Pair, parentApplied: bool,
                     above: Ldps)
    requires Below(ldps, dps, log) && LogFits(log, above) && c in ldps && c in ldps' && ldps' == ldps[c := ldps'[c]]
    requires c.dp in dps
    requires ldps'[c].isApplied ==> ldps[c].isApplied || parentApplied
    requires forall p | p in above && above[p].isApplied :: above[p].isAssigned
    requires parentApplied && dps[c.dp].haLdp.Some? ==>
      dps[c.dp].haLdp.value in above && above[dps[c.dp].haLdp.value].isApplied
    ensures Below(ldps', dps, log)
  {
    if parentApplied && dps[c.dp].haLdp.Some? {
      var p := dps[c.dp].haLdp.value;
      assert Heard(log, p) == NestAt(above, p);
    }
  }
}
