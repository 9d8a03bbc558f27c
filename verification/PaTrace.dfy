/**
  What the log of callbacks promises a user, said without the automaton that the core keeps.
 */
module PaTrace {
  import opened PaLdp
  import opened PaState

  datatype Kind = KAssigned | KPublished | KApplied

  function KindOf(e: Event): Kind {
    match e
    case EAssigned(_) => KAssigned
    case EPublished(_) => KPublished
    case EApplied(_) => KApplied
  }

  /** What the last callback of this kind about p said */
  function Last(log: seq<Note>, p: Pair, k: Kind): bool {
    if log == [] then false
    else
      var n := log[|log| - 1];
      if n.pair == p && KindOf(n.event) == k then n.event.on else Last(log[..|log| - 1], p, k)
  }

  lemma {:induction false} BrokenStays(log: seq<Note>, i: nat, p: Pair)
    requires i <= |log| && Heard(log[..i], p) == Broken
    ensures Heard(log, p) == Broken
    decreases |log|
  {
    if i == |log| {
      assert log[..i] == log;
    } else {
      var rest := log[..|log| - 1];
      assert rest[..i] == log[..i];
      BrokenStays(rest, i, p);
    }
  }

  lemma {:induction false} HeardIsLast(log: seq<Note>, p: Pair)
    requires Heard(log, p) != Broken
    ensures Last(log, p, KAssigned) == (Heard(log, p) != Idle)
    ensures Last(log, p, KPublished) ==
      (match Heard(log, p) case Up(_, x, _) => x case Leaving(_, x) => x case _ => false)
    ensures Last(log, p, KApplied) == (match Heard(log, p) case Up(_, _, x) => x case _ => false)
    decreases |log|
  {
    if log != [] {
      HeardIsLast(log[..|log| - 1], p);
    }
  }

  /** Published and applied callbacks come only while the pair is assigned, both have been taken
      back when it is unassigned, and every callback reports a change. */
  lemma CallbacksNested(log: seq<Note>, ldps: Ldps, i: nat)
    requires LogFits(log, ldps) && i < |log|
    ensures var p, e, before := log[i].pair, log[i].event, log[..i];
            && (!e.EAssigned? ==> Last(before, p, KAssigned))
            && (e == EAssigned(false) ==> !Last(before, p, KPublished) && !Last(before, p, KApplied))
            && e.on != Last(before, p, KindOf(e))
  {
    var p, before, upto := log[i].pair, log[..i], log[..i + 1];
    assert Heard(log, p) == NestAt(ldps, p) != Broken;
    if Heard(upto, p) == Broken {
      BrokenStays(log, i + 1, p);
    }
    assert upto[..|upto| - 1] == before;
    HeardIsLast(before, p);
  }
}
