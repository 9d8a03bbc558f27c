/**
  Telling a subscriber what changed between two sorted TLV containers
  (src/dncp_notify.c:95-194).
 */
module TlvDiff {
  import opened Tlvs

  /** tlv_change_cb(s, n, tlv, add) */
  datatype Event = Event(tlv: Tlv, add: bool)

  /** What one callback does to what a subscriber holds. */
  function Heard(held: multiset<Tlv>, e: Event): multiset<Tlv> {
    if e.add then held + multiset{e.tlv} else held - multiset{e.tlv}
  }

  /** What a subscriber holds after a series of callbacks. */
  function Replay(held: multiset<Tlv>, events: seq<Event>): multiset<Tlv> {
    if events == [] then held
    else Heard(Replay(held, events[..|events| - 1]), events[|events| - 1])
  }

  /** No callback removes something the subscriber does not hold. */
  ghost predicate Sensible(held: multiset<Tlv>, events: seq<Event>) {
    forall i | 0 <= i < |events| && !events[i].add :: events[i].tlv in Replay(held, events[..i])
  }

  lemma ReplayStep(held: multiset<Tlv>, events: seq<Event>, e: Event)
    ensures Replay(held, events + [e]) == Heard(Replay(held, events), e)
  {
    assert (events + [e])[..|events|] == events;
  }

  lemma ReplayNext(held: multiset<Tlv>, events: seq<Event>, i: nat)
    requires i < |events|
    ensures Replay(held, events[..i + 1]) == Heard(Replay(held, events[..i]), events[i])
  {
    ReplayStep(held, events[..i], events[i]);
    assert events[..i + 1] == events[..i] + [events[i]];
  }

  lemma ReplayAll(held: multiset<Tlv>, events: seq<Event>)
    ensures Replay(held, events[..0]) == held && Replay(held, events[..|events|]) == Replay(held, events)
  {
    assert events[..|events|] == events;
  }

  lemma SensibleStep(held: multiset<Tlv>, events: seq<Event>, e: Event)
    requires Sensible(held, events) && (e.add || e.tlv in Replay(held, events))
    ensures Sensible(held, events + [e])
  {
    var all := events + [e];
    forall i | 0 <= i < |all| && !all[i].add ensures all[i].tlv in Replay(held, all[..i]) {
      assert all[..i] == events[..i];
    }
    assert events[..|events|] == events;
  }

  /** In a sorted sequence whatever is smaller than the head does not occur. */
  lemma SmallerIsAbsent(t: Tlv, s: seq<Tlv>)
    requires Sorted(s) && WireSized(t) && s != [] && TlvCmp(t, s[0]) < 0
    ensures t !in s && t !in multiset(s)
  {
    TlvCmpZero(t, t);
    TlvCmpAntisymmetric(t, s[0]);
  }

  /** What the merge finds in o and not in n: each entry of n cancels one equal entry of o. */
  function OnlyIn(o: seq<Tlv>, n: seq<Tlv>): seq<Tlv>
    requires forall i | 0 <= i < |o| :: WireSized(o[i])
    requires forall i | 0 <= i < |n| :: WireSized(n[i])
    decreases |o| + |n|
  {
    if o == [] || n == [] then o
    else if TlvCmp(o[0], n[0]) == 0 then OnlyIn(o[1..], n[1..])
    else if TlvCmp(o[0], n[0]) < 0 then [o[0]] + OnlyIn(o[1..], n)
    else OnlyIn(o, n[1..])
  }

  lemma SortedTail(s: seq<Tlv>)
    requires Sorted(s) && s != []
    ensures Sorted(s[1..]) && s == [s[0]] + s[1..] && multiset(s) == multiset{s[0]} + multiset(s[1..])
  {
    assert s == [s[0]] + s[1..];
  }

  lemma SubtractSame(x: Tlv, a: multiset<Tlv>, b: multiset<Tlv>)
    ensures (multiset{x} + a) - (multiset{x} + b) == a - b
  {
  }

  lemma SubtractAbsent(x: Tlv, a: multiset<Tlv>, b: multiset<Tlv>)
    requires x !in b
    ensures (multiset{x} + a) - b == multiset{x} + (a - b)
    ensures b - (multiset{x} + a) == b - a
  {
  }

  /** On sorted containers the merge computes the multiset difference. */
  lemma {:induction false} OnlyInIsDifference(o: seq<Tlv>, n: seq<Tlv>)
    requires Sorted(o) && Sorted(n)
    ensures multiset(OnlyIn(o, n)) == multiset(o) - multiset(n)
    decreases |o| + |n|
  {
    if o != [] && n != [] {
      SortedTail(o);
      SortedTail(n);
      TlvCmpZero(o[0], n[0]);
      if TlvCmp(o[0], n[0]) == 0 {
        OnlyInIsDifference(o[1..], n[1..]);
        SubtractSame(o[0], multiset(o[1..]), multiset(n[1..]));
      } else if TlvCmp(o[0], n[0]) < 0 {
        OnlyInIsDifference(o[1..], n);
        SmallerIsAbsent(o[0], n);
        SubtractAbsent(o[0], multiset(o[1..]), multiset(n));
      } else {
        OnlyInIsDifference(o, n[1..]);
        TlvCmpAntisymmetric(o[0], n[0]);
        SmallerIsAbsent(n[0], o);
        SubtractAbsent(n[0], multiset(n[1..]), multiset(o));
      }
    }
  }

  /** The two passes: all removals first, then all additions (src/dncp_notify.c:104-107). */
  function Diff(o: seq<Tlv>, n: seq<Tlv>): seq<Event>
    requires forall i | 0 <= i < |o| :: WireSized(o[i])
    requires forall i | 0 <= i < |n| :: WireSized(n[i])
  {
    Events(OnlyIn(o, n), false) + Events(OnlyIn(n, o), true)
  }

  function Events(s: seq<Tlv>, add: bool): (r: seq<Event>)
    ensures |r| == |s| && forall i | 0 <= i < |s| :: r[i] == Event(s[i], add)
  {
    seq(|s|, i requires 0 <= i < |s| => Event(s[i], add))
  }

  lemma {:induction false} ReplayAdds(held: multiset<Tlv>, s: seq<Tlv>)
    ensures Replay(held, Events(s, true)) == held + multiset(s)
  {
    if s != [] {
      var t, e := s[..|s| - 1], s[|s| - 1];
      ReplayAdds(held, t);
      assert Events(s, true) == Events(t, true) + [Event(e, true)] && s == t + [e];
      ReplayStep(held, Events(t, true), Event(e, true));
    }
  }

  lemma {:induction false} ReplayRemoves(held: multiset<Tlv>, s: seq<Tlv>)
    requires multiset(s) <= held
    ensures Replay(held, Events(s, false)) == held - multiset(s)
  {
    if s != [] {
      var t, e := s[..|s| - 1], s[|s| - 1];
      LastOut(held, s, t, e);
      ReplayRemoves(held, t);
      assert Events(s, false) == Events(t, false) + [Event(e, false)];
      ReplayStep(held, Events(t, false), Event(e, false));
    }
  }

  lemma LastOut(held: multiset<Tlv>, s: seq<Tlv>, t: seq<Tlv>, e: Tlv)
    requires s == t + [e] && multiset(s) <= held
    ensures multiset(s) == multiset(t) + multiset{e} && multiset(t) <= held && e in held - multiset(t)
    ensures held - multiset(t) - multiset{e} == held - multiset(s)
  {
    assert multiset(s) == multiset(t) + multiset{e};
  }

  lemma {:induction false} ReplayConcat(held: multiset<Tlv>, a: seq<Event>, b: seq<Event>)
    ensures Replay(held, a + b) == Replay(Replay(held, a), b)
  {
    if b == [] {
      assert a + b == a;
    } else {
      var c, e := b[..|b| - 1], b[|b| - 1];
      assert b == c + [e];
      ReplayConcat(held, a, c);
      ReplayConcatStep(held, a, c, e);
    }
  }

  lemma ReplayConcatStep(held: multiset<Tlv>, a: seq<Event>, c: seq<Event>, e: Event)
    requires Replay(held, a + c) == Replay(Replay(held, a), c)
    ensures Replay(held, a + (c + [e])) == Replay(Replay(held, a), c + [e])
  {
    ReplayStep(held, a + c, e);
    ReplayStep(Replay(held, a), c, e);
    assert a + (c + [e]) == (a + c) + [e];
  }

  lemma AddsAreSensible(held: multiset<Tlv>, s: seq<Tlv>)
    ensures Sensible(held, Events(s, true))
  {
  }

  lemma {:induction false} RemovesAreSensible(held: multiset<Tlv>, s: seq<Tlv>)
    requires multiset(s) <= held
    ensures Sensible(held, Events(s, false))
  {
    if s != [] {
      var t, e := s[..|s| - 1], s[|s| - 1];
      LastOut(held, s, t, e);
      RemovesAreSensible(held, t);
      RemoveIsSensible(held, t, e);
      assert Events(s, false) == Events(t, false) + [Event(e, false)];
    }
  }

  lemma RemoveIsSensible(held: multiset<Tlv>, t: seq<Tlv>, e: Tlv)
    requires multiset(t) <= held && e in held - multiset(t) && Sensible(held, Events(t, false))
    ensures Sensible(held, Events(t, false) + [Event(e, false)])
  {
    ReplayRemoves(held, t);
    SensibleStep(held, Events(t, false), Event(e, false));
  }

  lemma {:induction false} SensibleBoth(held: multiset<Tlv>, a: seq<Event>, b: seq<Event>)
    requires Sensible(held, a) && Sensible(Replay(held, a), b)
    ensures Sensible(held, a + b)
  {
    if b == [] {
      assert a + b == a;
    } else {
      var c, e := b[..|b| - 1], b[|b| - 1];
      assert b == c + [e];
      SensiblePrefix(Replay(held, a), c, e);
      SensibleBoth(held, a, c);
      SensibleBothStep(held, a, c, e);
    }
  }

  lemma SensibleBothStep(held: multiset<Tlv>, a: seq<Event>, c: seq<Event>, e: Event)
    requires Sensible(held, a + c) && (e.add || e.tlv in Replay(Replay(held, a), c))
    ensures Sensible(held, a + (c + [e]))
  {
    ReplayConcat(held, a, c);
    SensibleStep(held, a + c, e);
    assert a + (c + [e]) == (a + c) + [e];
  }

  lemma SensiblePrefix(held: multiset<Tlv>, c: seq<Event>, e: Event)
    requires Sensible(held, c + [e])
    ensures Sensible(held, c) && (e.add || e.tlv in Replay(held, c))
  {
    var b := c + [e];
    assert b[..|c|] == c;
    forall i | 0 <= i < |c| && !c[i].add ensures c[i].tlv in Replay(held, c[..i]) {
      assert b[i] == c[i] && b[..i] == c[..i];
    }
    assert b[|c|] == e;
  }

  /** A subscriber that holds the old container, and perhaps more, holds the new one in its place after
      the callbacks, and every removal is of something it holds. */
  lemma DiffIsExact(held: multiset<Tlv>, o: seq<Tlv>, n: seq<Tlv>)
    requires Sorted(o) && Sorted(n) && multiset(o) <= held
    ensures Replay(held, Diff(o, n)) == held - multiset(o) + multiset(n)
    ensures Sensible(held, Diff(o, n))
  {
    var gone, came := OnlyIn(o, n), OnlyIn(n, o);
    OnlyInIsDifference(o, n);
    OnlyInIsDifference(n, o);
    Exchange(held, multiset(o), multiset(n));
    ReplayBoth(held, gone, came);
  }

  /** Nothing is both removed and added. */
  lemma NothingTwice(o: seq<Tlv>, n: seq<Tlv>, t: Tlv)
    requires Sorted(o) && Sorted(n)
    ensures !(t in OnlyIn(o, n) && t in OnlyIn(n, o))
  {
    OnlyInIsDifference(o, n);
    OnlyInIsDifference(n, o);
    assert t in OnlyIn(o, n) <==> t in multiset(OnlyIn(o, n));
    assert t in OnlyIn(n, o) <==> t in multiset(OnlyIn(n, o));
  }

  lemma Exchange(held: multiset<Tlv>, o: multiset<Tlv>, n: multiset<Tlv>)
    requires o <= held
    ensures o - n <= held && held - (o - n) + (n - o) == held - o + n
  {
  }

  lemma ReplayBoth(held: multiset<Tlv>, gone: seq<Tlv>, came: seq<Tlv>)
    requires multiset(gone) <= held
    ensures Replay(held, Events(gone, false) + Events(came, true)) == held - multiset(gone) + multiset(came)
    ensures Sensible(held, Events(gone, false) + Events(came, true))
  {
    ReplayRemoves(held, gone);
    ReplayAdds(held - multiset(gone), came);
    ReplayConcat(held, Events(gone, false), Events(came, true));
    RemovesAreSensible(held, gone);
    AddsAreSensible(held - multiset(gone), came);
    SensibleBoth(held, Events(gone, false), Events(came, true));
  }

  // ---------- the cursor loops ----------

  /** The merge from positions op and np on */
  function Merge(o: seq<Tlv>, n: seq<Tlv>, op: nat, np: nat): seq<Tlv>
    requires forall i | 0 <= i < |o| :: WireSized(o[i])
    requires forall i | 0 <= i < |n| :: WireSized(n[i])
    requires op <= |o| && np <= |n|
    decreases |o| - op + |n| - np
  {
    if op == |o| || np == |n| then o[op..]
    else if TlvCmp(o[op], n[np]) == 0 then Merge(o, n, op + 1, np + 1)
    else if TlvCmp(o[op], n[np]) < 0 then [o[op]] + Merge(o, n, op + 1, np)
    else Merge(o, n, op, np + 1)
  }

  lemma {:induction false} MergeIs(o: seq<Tlv>, n: seq<Tlv>, op: nat, np: nat)
    requires forall i | 0 <= i < |o| :: WireSized(o[i])
    requires forall i | 0 <= i < |n| :: WireSized(n[i])
    requires op <= |o| && np <= |n|
    ensures Merge(o, n, op, np) == OnlyIn(o[op..], n[np..])
    decreases |o| - op + |n| - np
  {
    if op < |o| && np < |n| {
      assert o[op..][1..] == o[op + 1..] && n[np..][1..] == n[np + 1..];
      if TlvCmp(o[op], n[np]) == 0 {
        MergeIs(o, n, op + 1, np + 1);
      } else if TlvCmp(o[op], n[np]) < 0 {
        MergeIs(o, n, op + 1, np);
      } else {
        MergeIs(o, n, op, np + 1);
      }
    }
  }

  /** One subscriber's first pass (src/dncp_notify.c:111-149): what is gone. */
  method RemovePass(o: seq<Tlv>, n: seq<Tlv>) returns (gone: seq<Tlv>)
    requires forall i | 0 <= i < |o| :: WireSized(o[i])
    requires forall i | 0 <= i < |n| :: WireSized(n[i])
    ensures gone == OnlyIn(o, n)
  {
    gone := [];
    var op, np := 0, 0;
    while op < |o| && np < |n|
      invariant op <= |o| && np <= |n| && gone + Merge(o, n, op, np) == Merge(o, n, 0, 0)
    {
      var r := TlvCmp(o[op], n[np]);
      if r == 0 {
        op, np := op + 1, np + 1;
      } else if r < 0 {
        gone := gone + [o[op]];
        op := op + 1;
      } else {
        np := np + 1;
      }
    }
    gone := TakeRest(gone, o, op);
    MergeIs(o, n, 0, 0);
    assert o[0..] == o && n[0..] == n;
  }

  /** What is left of one container once the other has ended */
  method TakeRest(taken: seq<Tlv>, s: seq<Tlv>, start: nat) returns (all: seq<Tlv>)
    requires start <= |s|
    ensures all == taken + s[start..]
  {
    all := taken;
    for i := start to |s|
      invariant all == taken + s[start..i]
    {
      all := all + [s[i]];
    }
  }

  /** One subscriber's second pass (src/dncp_notify.c:154-192): what is new. */
  method AddPass(o: seq<Tlv>, n: seq<Tlv>) returns (came: seq<Tlv>)
    requires forall i | 0 <= i < |o| :: WireSized(o[i])
    requires forall i | 0 <= i < |n| :: WireSized(n[i])
    ensures came == OnlyIn(n, o)
  {
    came := [];
    var op, np := 0, 0;
    while op < |o| && np < |n|
      invariant op <= |o| && np <= |n| && came + Merge(n, o, np, op) == Merge(n, o, 0, 0)
    {
      var r := TlvCmp(o[op], n[np]);
      TlvCmpAntisymmetric(o[op], n[np]);
      if r == 0 {
        op, np := op + 1, np + 1;
      } else if r < 0 {
        op := op + 1;
      } else {
        came := came + [n[np]];
        np := np + 1;
      }
    }
    came := TakeRest(came, n, np);
    MergeIs(n, o, 0, 0);
    assert o[0..] == o && n[0..] == n;
  }
}
