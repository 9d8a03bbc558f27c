/**
  The iteration over the available prefixes of a container
  (src/btrie.c:488-670), against the list FreeSpace.Avail defines from the
  stored keys alone.
 */
module BtrieAvailable {
  import opened Wrappers
  import opened FreeSpace
  import opened TrieArena
  import opened BtrieModel

  // ---------- where the walk stands in the trie ----------

  /** prev is the first node at or below the position p. */
  ghost predicate On(a: Arena, full: Paths, prev: Ptr, p: Bits)
    requires Inv(a, full)
  {
    && prev in a && p <= full[prev]
    && (prev != ROOT ==> a[prev].parent.Some? && a[prev].parent.value in a
                         && |full[a[prev].parent.value]| < |p|)
  }

  /** prev is as it must be to go up from p: the first node at or below the
      position one bit above, or its child on the way to p. */
  ghost predicate CanGoUp(a: Arena, full: Paths, prev: Ptr, p: Bits)
    requires Inv(a, full)
  {
    && prev in a
    && (p != [] ==>
          && p[..|p| - 1] <= full[prev]
          && (prev != ROOT ==> a[prev].parent.Some? && a[prev].parent.value in a
                               && |full[a[prev].parent.value]| < |p|))
  }

  /** A stored key is the key of a node that holds elements. */
  lemma NodeOfKey(a: Arena, full: Paths, k: Bits) returns (m: Ptr)
    requires Inv(a, full) && k in StoredKeys(a, full)
    ensures m in a && a[m].elems != [] && full[m] == k
  {
    m :| m in a && a[m].elems != [] && full[m] == k;
  }

  /** At a node, the elements and the children say what is stored here and below. */
  lemma NodeSays(a: Arena, full: Paths, prev: Ptr, b: bool)
    requires Inv(a, full) && Canonical(a) && prev in a
    ensures var S, p := StoredKeys(a, full), full[prev];
            && (p in S <==> a[prev].elems != [])
            && (a[prev].Child(b).None? ==> forall k | k in S :: !(p + [b] <= k))
            && (a[prev].Child(b).Some? ==> On(a, full, a[prev].Child(b).value, p + [b])
                                           && exists k | k in S :: p + [b] <= k)
  {
    var S, p := StoredKeys(a, full), full[prev];
    assert NodeOk(a, full, prev);
    if p in S {
      var m := NodeOfKey(a, full, p);
      UniqueNode(a, full, m, prev);
    }
    match a[prev].Child(b)
    case None =>
      forall k | k in S ensures !(p + [b] <= k) {
        if p + [b] <= k {
          var m := NodeOfKey(a, full, k);
          assert k[|p|] == (p + [b])[|p|];
          assert p < k;
          Descend(a, full, prev, m);
        }
      }
    case Some(c) =>
      assert LinkedDown(a, full, prev, b);
      assert NodeOk(a, full, c);
      NextBit(p, full[c]);
      var m := ElementBelow(a, full, c);
      assert full[m] in S && p + [b] <= full[c] <= full[m];
  }

  /** Between a node and its parent nothing is stored on the way, and everything
      below is on the side of the node. */
  lemma EdgeSays(a: Arena, full: Paths, prev: Ptr, p: Bits)
    requires Inv(a, full) && Canonical(a) && On(a, full, prev, p) && |p| < |full[prev]|
    ensures var S, d := StoredKeys(a, full), full[prev][|p|];
            && p !in S && Split(S, p)
            && On(a, full, prev, p + [d])
            && (exists k | k in S :: p + [d] <= k)
            && (forall k | k in S :: !(p + [!d] <= k))
  {
    var S, d := StoredKeys(a, full), full[prev][|p|];
    assert NodeOk(a, full, prev) && NodeOk(a, full, ROOT);
    var q := a[prev].parent.value;
    NextBit(p, full[prev]);
    var e := ElementBelow(a, full, prev);
    assert full[e] in S && p + [d] <= full[prev] <= full[e];
    assert p < full[e];
    PrefixesOfOneAreComparable(full[q], p, full[prev]);
    if p in S {
      var m := NodeOfKey(a, full, p);
      ParentIsNearest(a, full, prev, m);
    }
    forall k | k in S ensures !(p + [!d] <= k) {
      if p + [!d] <= k {
        var m := NodeOfKey(a, full, k);
        assert full[q] < k && k[|full[q]|] == p[|full[q]|] == full[prev][|full[q]|];
        Descend(a, full, q, m);
        assert false;
      }
    }
  }

  // ---------- what lies ahead of the walk ----------

  /** enum bt_avail_mod, the labels of __btrie_next_available */
  datatype Mode = AtNode | GoLeft | GoRight | GoUp

  /** The result of a step: a node, or the marker __bt_all_available. */
  datatype Spot = AllAvailable | Spot(node: Ptr)

  ghost function Ahead(S: set<Bits>, p: Bits, mode: Mode, containLen: nat): seq<Bits>
    requires Bounded(S) && containLen <= |p|
  {
    match mode
    case AtNode => Avail(S, p) + Rest(S, p, containLen)
    case GoLeft => Avail(S, p + [false]) + Rest(S, p + [false], containLen)
    case GoRight => Avail(S, p + [true]) + Rest(S, p + [true], containLen)
    case GoUp => Rest(S, p, containLen)
  }

  /** The halves of p are looked at one by one: because something is stored below p,
      or because the walk started at the root of an empty trie with a direction. */
  ghost predicate Divided(S: set<Bits>, p: Bits) {
    Split(S, p) || (S == {} && p == [])
  }

  /** The invariant of the walk at each label.  (Going up stops at the container,
      so what is above it does not matter there.) */
  ghost predicate Standing(a: Arena, full: Paths, prev: Ptr, p: Bits, mode: Mode, containLen: nat)
    requires Inv(a, full)
  {
    var S := StoredKeys(a, full);
    && prev in a && Clear(S, p)
    && (mode == GoUp && containLen < |p| ==> CanGoUp(a, full, prev, p) && Divided(S, p[..|p| - 1]))
    && (mode != GoUp ==> On(a, full, prev, p))
    && (mode == GoLeft || mode == GoRight ==> p !in S && Divided(S, p))
  }

  /** How many positions the walk still has to look at, for termination. */
  ghost function Work(S: set<Bits>, p: Bits): nat
    requires Bounded(S)
    decreases if |p| <= MAX_PLEN then MAX_PLEN - |p| + 1 else 0
  {
    if Covered(S, p) || !Split(S, p) then 1 else 1 + Work(S, p + [false]) + Work(S, p + [true])
  }

  ghost function WorkRest(S: set<Bits>, p: Bits, containLen: nat): nat
    requires Bounded(S) && containLen <= |p|
    decreases |p|
  {
    if |p| == containLen then 0
    else if p[|p| - 1] then WorkRest(S, p[..|p| - 1], containLen)
    else Work(S, p[..|p| - 1] + [true]) + WorkRest(S, p[..|p| - 1], containLen)
  }

  ghost function WorkAhead(S: set<Bits>, p: Bits, mode: Mode, containLen: nat): nat
    requires Bounded(S) && containLen <= |p|
  {
    match mode
    case AtNode => Work(S, p) + WorkRest(S, p, containLen)
    case GoLeft => Work(S, p + [false]) + WorkRest(S, p + [false], containLen)
    case GoRight => Work(S, p + [true]) + WorkRest(S, p + [true], containLen)
    case GoUp => WorkRest(S, p, containLen)
  }

  function Rank(mode: Mode): nat {
    match mode case AtNode => 0 case GoLeft => 1 case GoRight => 1 case GoUp => 2
  }

  lemma WorkRestOfChild(S: set<Bits>, p: Bits, containLen: nat)
    requires Bounded(S) && containLen <= |p|
    ensures WorkRest(S, p + [true], containLen) == WorkRest(S, p, containLen)
    ensures WorkRest(S, p + [false], containLen) == Work(S, p + [true]) + WorkRest(S, p, containLen)
  {
    assert (p + [true])[..|p|] == p;
    assert (p + [false])[..|p|] == p;
  }

  lemma ClearBelow(S: set<Bits>, p: Bits, b: bool)
    requires Clear(S, p) && p !in S
    ensures Clear(S, p + [b])
  {
    assert forall k | k in S && k <= p + [b] && |k| <= |p| :: k <= p;
  }

  /** A side on which nothing is stored is one available prefix. */
  lemma EmptySide(S: set<Bits>, p: Bits, b: bool)
    requires Bounded(S) && Clear(S, p) && p !in S
    requires forall k | k in S :: !(p + [b] <= k)
    ensures Clear(S, p + [b]) && Avail(S, p + [b]) == [p + [b]]
  {
    ClearBelow(S, p, b);
  }

  // ---------- the steps of the walk ----------

  /** node: nothing is available at or below a position that is stored. */
  lemma StepCovered(S: set<Bits>, p: Bits, containLen: nat)
    requires Bounded(S) && containLen <= |p| && p in S
    ensures Ahead(S, p, AtNode, containLen) == Ahead(S, p, GoUp, containLen)
    ensures WorkAhead(S, p, GoUp, containLen) < WorkAhead(S, p, AtNode, containLen)
  {
    assert Covered(S, p);
  }

  /** node: a position above stored keys is walked left first. */
  lemma StepInto(S: set<Bits>, p: Bits, containLen: nat)
    requires Bounded(S) && containLen <= |p| && p !in S && Clear(S, p) && Split(S, p)
    ensures Ahead(S, p, AtNode, containLen) == Ahead(S, p, GoLeft, containLen)
    ensures WorkAhead(S, p, GoLeft, containLen) < WorkAhead(S, p, AtNode, containLen)
  {
    assert !Covered(S, p);
    AvailOfSplit(S, p, containLen);
    WorkRestOfChild(S, p, containLen);
  }

  /** up: a left child is followed by its right sibling, a right child by nothing. */
  lemma StepUp(S: set<Bits>, p: Bits, containLen: nat)
    requires Bounded(S) && containLen < |p|
    ensures var up := p[..|p| - 1];
            var next := if p[|p| - 1] then GoUp else GoRight;
            && Ahead(S, p, GoUp, containLen) == Ahead(S, up, next, containLen)
            && WorkAhead(S, p, GoUp, containLen) == WorkAhead(S, up, next, containLen)
  {
    var up := p[..|p| - 1];
    RestOfChild(S, up, containLen);
    WorkRestOfChild(S, up, containLen);
  }

  /** After going up, prev is the first node at or below the shorter position. */
  function ParentIfAt(a: Arena, prev: Ptr, len: nat): Ptr
    requires prev in a
  {
    if a[prev].parent.Some? && a[prev].parent.value in a && a[a[prev].parent.value].plen == len
    then a[prev].parent.value else prev
  }

  lemma OnAfterUp(a: Arena, full: Paths, prev: Ptr, p: Bits)
    requires Inv(a, full) && p != [] && CanGoUp(a, full, prev, p)
    ensures On(a, full, ParentIfAt(a, prev, |p| - 1), p[..|p| - 1])
  {
    var up := p[..|p| - 1];
    assert NodeOk(a, full, prev);
    if prev != ROOT {
      var q := a[prev].parent.value;
      assert NodeOk(a, full, q);
      if a[q].plen == |up| {
        PrefixesOfOneAreComparable(up, full[q], full[prev]);
        assert up == full[q];
      }
    }
  }

  lemma SplitAbove(S: set<Bits>, p: Bits)
    requires p != [] && (Split(S, p) || p in S)
    ensures Split(S, p[..|p| - 1])
  {
    var k :| k in S && (p < k || p == k);
    assert p[..|p| - 1] < k;
  }

  /** Some available prefix was found: it is at the position, and the walk can go on. */
  ghost predicate Found(a: Arena, full: Paths, prev: Ptr, p: Bits, containLen: nat, ahead: seq<Bits>)
    requires Inv(a, full) && Bounded(StoredKeys(a, full))
  {
    var S := StoredKeys(a, full);
    && containLen <= |p|
    && Standing(a, full, prev, p, GoUp, containLen)
    && ahead == [p] + Rest(S, p, containLen)
  }

  /** Walking towards side b from p. */
  function Go(b: bool): Mode {
    if b then GoRight else GoLeft
  }

  lemma NothingBelow(S: set<Bits>, p: Bits)
    requires forall k | k in S :: !(p + [false] <= k)
    requires forall k | k in S :: !(p + [true] <= k)
    ensures !Split(S, p)
  {
    if Split(S, p) {
      var k :| k in S && p < k;
      var b := k[|p|];
      NextBit(p, k);
      assert false;
    }
  }

  /** node, at a node without elements and children: only the root is like that, and
      then everything is available. */
  lemma FoundAtRoot(a: Arena, full: Paths, prev: Ptr, p: Bits, containLen: nat)
    requires Inv(a, full) && Canonical(a) && Bounded(StoredKeys(a, full)) && containLen <= |p|
    requires Standing(a, full, prev, p, AtNode, containLen) && |p| == a[prev].plen
    requires a[prev].elems == [] && a[prev].child0.None? && a[prev].child1.None?
    ensures Found(a, full, prev, p, containLen, Ahead(StoredKeys(a, full), p, AtNode, containLen))
  {
    var S := StoredKeys(a, full);
    assert NodeOk(a, full, prev) && CanonicalAt(a, prev);
    NodeSays(a, full, prev, false);
    NodeSays(a, full, prev, true);
    NothingBelow(S, p);
  }

  /** left and right, when nothing is stored on that side. */
  lemma FoundAside(a: Arena, full: Paths, prev: Ptr, p: Bits, b: bool, containLen: nat)
    requires Inv(a, full) && Canonical(a) && Bounded(StoredKeys(a, full)) && containLen <= |p|
    requires Standing(a, full, prev, p, Go(b), containLen)
    requires if |p| == a[prev].plen then a[prev].Child(b).None?
             else |p| < |full[prev]| && full[prev][|p|] != b
    ensures Found(a, full, prev, p + [b], containLen, Ahead(StoredKeys(a, full), p, Go(b), containLen))
  {
    var S := StoredKeys(a, full);
    assert NodeOk(a, full, prev);
    if |p| == a[prev].plen {
      assert p == full[prev];
      NodeSays(a, full, prev, b);
    } else {
      EdgeSays(a, full, prev, p);
    }
    EmptySide(S, p, b);
    assert (p + [b])[..|p|] == p;
  }

  /** left and right, when there is a node on that side. */
  lemma StepAside(a: Arena, full: Paths, prev: Ptr, p: Bits, b: bool, containLen: nat)
    requires Inv(a, full) && Canonical(a) && Bounded(StoredKeys(a, full)) && containLen <= |p|
    requires Standing(a, full, prev, p, Go(b), containLen)
    requires if |p| == a[prev].plen then a[prev].Child(b).Some?
             else |p| < |full[prev]| && full[prev][|p|] == b
    ensures var next := if |p| == a[prev].plen then a[prev].Child(b).value else prev;
            next in a && Standing(a, full, next, p + [b], AtNode, containLen)
    ensures var S := StoredKeys(a, full);
            && Ahead(S, p + [b], AtNode, containLen) == Ahead(S, p, Go(b), containLen)
            && WorkAhead(S, p + [b], AtNode, containLen) == WorkAhead(S, p, Go(b), containLen)
  {
    var S := StoredKeys(a, full);
    assert NodeOk(a, full, prev);
    if |p| == a[prev].plen {
      assert p == full[prev];
      NodeSays(a, full, prev, b);
    } else {
      EdgeSays(a, full, prev, p);
    }
    ClearBelow(S, p, b);
  }

  /** left and right read one bit of the node's word and write one bit of the key. */
  lemma RoomAside(a: Arena, full: Paths, prev: Ptr, p: Bits, size: nat, mode: Mode, containLen: nat)
    requires Inv(a, full) && Standing(a, full, prev, p, mode, containLen) && (mode == GoLeft || mode == GoRight)
    requires size > 0 && forall k | k in StoredKeys(a, full) :: |k| <= size
    ensures |p| < size && |a[prev].key| == WORD && |full[prev]| == a[prev].plen && |p| <= |full[prev]|
    ensures |p| < |full[prev]| ==> a[prev].key[|p| % WORD] == full[prev][|p|]
  {
    assert NodeOk(a, full, prev);
    if |p| < |full[prev]| {
      SplitSide(a, full, prev, |p|);
    }
  }

  /** node, when the position is stored or something is stored below it. */
  lemma StepFromNode(a: Arena, full: Paths, prev: Ptr, p: Bits, containLen: nat)
    requires Inv(a, full) && Canonical(a) && Bounded(StoredKeys(a, full)) && containLen <= |p|
    requires Standing(a, full, prev, p, AtNode, containLen)
    requires |p| == a[prev].plen ==> a[prev].elems != [] || a[prev].child0.Some? || a[prev].child1.Some?
    ensures var S, next := StoredKeys(a, full),
                           if |p| == a[prev].plen && a[prev].elems != [] then GoUp else GoLeft;
            && Standing(a, full, prev, p, next, containLen)
            && Ahead(S, p, next, containLen) == Ahead(S, p, AtNode, containLen)
            && WorkAhead(S, p, next, containLen) < WorkAhead(S, p, AtNode, containLen)
  {
    var S := StoredKeys(a, full);
    assert NodeOk(a, full, prev);
    if |p| == a[prev].plen {
      assert p == full[prev];
      NodeSays(a, full, prev, false);
      NodeSays(a, full, prev, true);
      if a[prev].elems != [] {
        StepCovered(S, p, containLen);
        if p != [] {
          SplitAbove(S, p);
        }
      } else {
        var k :| k in S && (p + [false] <= k || p + [true] <= k);
        assert p < k;
        StepInto(S, p, containLen);
      }
    } else {
      EdgeSays(a, full, prev, p);
      StepInto(S, p, containLen);
    }
  }

  /** up */
  lemma StepUpwards(a: Arena, full: Paths, prev: Ptr, p: Bits, containLen: nat)
    requires Inv(a, full) && Bounded(StoredKeys(a, full)) && containLen < |p|
    requires Standing(a, full, prev, p, GoUp, containLen)
    ensures var S, up, next := StoredKeys(a, full), p[..|p| - 1], if p[|p| - 1] then GoUp else GoRight;
            && Standing(a, full, ParentIfAt(a, prev, |up|), up, next, containLen)
            && Ahead(S, up, next, containLen) == Ahead(S, p, GoUp, containLen)
            && WorkAhead(S, up, next, containLen) == WorkAhead(S, p, GoUp, containLen)
  {
    var S, up := StoredKeys(a, full), p[..|p| - 1];
    OnAfterUp(a, full, prev, p);
    StepUp(S, p, containLen);
    assert forall k | k in S && k <= up :: k <= p && k != p;
    if up != [] && Split(S, up) {
      SplitAbove(S, up);
    }
  }

  /** The variables of the goto program: prev, *key, *len and the label to go to. */
  datatype Walk = Walk(prev: Ptr, key: Bits, len: nat, mode: Mode)

  /** What a piece of the program did: went to a label, returned a node, or returned NULL. */
  datatype Outcome = Continue | Return | End

  ghost predicate InWalk(a: Arena, full: Paths, w: Walk, containLen: nat) {
    && Inv(a, full) && Canonical(a) && Bounded(StoredKeys(a, full))
    && containLen <= w.len <= |w.key| && |w.key| > 0
    && (forall k | k in StoredKeys(a, full) :: |k| <= |w.key|)
    && Standing(a, full, w.prev, w.key[..w.len], w.mode, containLen)
  }

  ghost function Todo(a: Arena, full: Paths, w: Walk, containLen: nat): seq<Bits>
    requires InWalk(a, full, w, containLen)
  {
    Ahead(StoredKeys(a, full), w.key[..w.len], w.mode, containLen)
  }

  /** The walk went from w to w' without losing or inventing an available prefix. */
  ghost predicate Advanced(a: Arena, full: Paths, w: Walk, out: Outcome, w': Walk, containLen: nat)
    requires InWalk(a, full, w, containLen)
  {
    && |w'.key| == |w.key| && containLen <= w'.len <= |w'.key| && w'.key[..containLen] == w.key[..containLen]
    && (out == Continue ==>
          && InWalk(a, full, w', containLen)
          && Todo(a, full, w', containLen) == Todo(a, full, w, containLen))
    && (out == Return ==> Found(a, full, w'.prev, w'.key[..w'.len], containLen, Todo(a, full, w, containLen)))
    && (out == End ==> Todo(a, full, w, containLen) == [])
  }

  /** Going to a label makes progress. */
  ghost predicate Progress(S: set<Bits>, w: Walk, w': Walk, containLen: nat)
    requires Bounded(S) && containLen <= w.len <= |w.key| && containLen <= w'.len <= |w'.key|
  {
    var m, m' := WorkAhead(S, w.key[..w.len], w.mode, containLen), WorkAhead(S, w'.key[..w'.len], w'.mode, containLen);
    m' < m || (m' == m && (Rank(w'.mode) < Rank(w.mode) || (w'.mode == w.mode && w'.len < w.len)))
  }

  /** The code after the label node (src/btrie.c:526-537) */
  method NodeLabel(t: Btrie, w: Walk, containLen: nat) returns (out: Outcome, w': Walk)
    requires t.Valid() && InWalk(t.nodes, t.full, w, containLen) && w.mode == AtNode
    ensures Advanced(t.nodes, t.full, w, out, w', containLen)
    ensures out == Continue ==> Progress(StoredKeys(t.nodes, t.full), w, w', containLen)
  {
    var node := t.nodes[w.prev];
    if w.len == node.plen && node.elems == [] && node.child0.None? && node.child1.None? {
      FoundAtRoot(t.nodes, t.full, w.prev, w.key[..w.len], containLen);
      return Return, w;
    }
    StepFromNode(t.nodes, t.full, w.prev, w.key[..w.len], containLen);
    return Continue, w.(mode := if w.len == node.plen && node.elems != [] then GoUp else GoLeft);
  }

  /** The code after the labels left and right (src/btrie.c:539-580), with the macros
      btrie_keyleft and btrie_keyright; b is the bit they set. */
  method SideLabel(t: Btrie, w: Walk, b: bool, containLen: nat) returns (out: Outcome, w': Walk)
    requires t.Valid() && InWalk(t.nodes, t.full, w, containLen) && w.mode == Go(b)
    ensures Advanced(t.nodes, t.full, w, out, w', containLen)
    ensures out == Continue ==> Progress(StoredKeys(t.nodes, t.full), w, w', containLen)
  {
    RoomAside(t.nodes, t.full, w.prev, w.key[..w.len], |w.key|, w.mode, containLen);
    var node := t.nodes[w.prev];
    var key := w.key[w.len := b];
    var there := if w.len == node.plen then node.Child(b).Some? else node.key[w.len % WORD] == b;
    if !there {
      out, w' := Return, Walk(w.prev, key, w.len + 1, w.mode);
      SideReturns(t.nodes, t.full, w, b, containLen, w');
    } else {
      out, w' := Continue, Walk(if w.len == node.plen then node.Child(b).value else w.prev, key, w.len + 1, AtNode);
      SideContinues(t.nodes, t.full, w, b, containLen, w');
    }
  }

  lemma SideReturns(a: Arena, full: Paths, w: Walk, b: bool, containLen: nat, w': Walk)
    requires InWalk(a, full, w, containLen) && w.mode == Go(b) && w.len < |w.key|
    requires if w.len == a[w.prev].plen then a[w.prev].Child(b).None?
             else w.len < |full[w.prev]| && full[w.prev][w.len] != b
    requires w' == Walk(w.prev, w.key[w.len := b], w.len + 1, w.mode)
    ensures Advanced(a, full, w, Return, w', containLen)
  {
    assert w'.key[..w'.len] == w.key[..w.len] + [b];
    FoundAside(a, full, w.prev, w.key[..w.len], b, containLen);
  }

  lemma SideContinues(a: Arena, full: Paths, w: Walk, b: bool, containLen: nat, w': Walk)
    requires InWalk(a, full, w, containLen) && w.mode == Go(b) && w.len < |w.key|
    requires if w.len == a[w.prev].plen then a[w.prev].Child(b).Some?
             else w.len < |full[w.prev]| && full[w.prev][w.len] == b
    requires w' == Walk(if w.len == a[w.prev].plen then a[w.prev].Child(b).value else w.prev,
                        w.key[w.len := b], w.len + 1, AtNode)
    ensures Advanced(a, full, w, Continue, w', containLen)
    ensures Progress(StoredKeys(a, full), w, w', containLen)
  {
    assert w'.key[..w'.len] == w.key[..w.len] + [b];
    StepAside(a, full, w.prev, w.key[..w.len], b, containLen);
  }

  /** The code after the label up (src/btrie.c:582-594) */
  method UpLabel(t: Btrie, w: Walk, containLen: nat) returns (out: Outcome, w': Walk)
    requires t.Valid() && InWalk(t.nodes, t.full, w, containLen) && w.mode == GoUp
    ensures Advanced(t.nodes, t.full, w, out, w', containLen)
    ensures out == Continue ==> Progress(StoredKeys(t.nodes, t.full), w, w', containLen)
  {
    if w.len == containLen {
      return End, w;
    }
    var len := w.len - 1;
    out, w' := Continue, Walk(ParentIfAt(t.nodes, w.prev, len), w.key, len, if w.key[len] then GoUp else GoRight);
    UpContinues(t.nodes, t.full, w, containLen, w');
  }

  lemma UpContinues(a: Arena, full: Paths, w: Walk, containLen: nat, w': Walk)
    requires InWalk(a, full, w, containLen) && w.mode == GoUp && containLen < w.len
    requires w' == Walk(ParentIfAt(a, w.prev, w.len - 1), w.key, w.len - 1, if w.key[w.len - 1] then GoUp else GoRight)
    ensures Advanced(a, full, w, Continue, w', containLen)
    ensures Progress(StoredKeys(a, full), w, w', containLen)
  {
    var p := w.key[..w.len];
    StepUpwards(a, full, w.prev, p, containLen);
    OneLevelUp(a, full, w, containLen, w', p[..|p| - 1]);
  }

  lemma OneLevelUp(a: Arena, full: Paths, w: Walk, containLen: nat, w': Walk, up: Bits)
    requires InWalk(a, full, w, containLen) && w.mode == GoUp && containLen < w.len && up == w.key[..w.len][..w.len - 1]
    requires w' == Walk(w'.prev, w.key, w.len - 1, if w.key[w.len - 1] then GoUp else GoRight)
    requires var S, p := StoredKeys(a, full), w.key[..w.len];
             && Standing(a, full, w'.prev, up, w'.mode, containLen)
             && Ahead(S, up, w'.mode, containLen) == Ahead(S, p, GoUp, containLen)
             && WorkAhead(S, up, w'.mode, containLen) == WorkAhead(S, p, GoUp, containLen)
    ensures Advanced(a, full, w, Continue, w', containLen)
    ensures Progress(StoredKeys(a, full), w, w', containLen)
  {
    assert w'.key[..w'.len] == up;
  }

  method Step(t: Btrie, w: Walk, containLen: nat) returns (out: Outcome, w': Walk)
    requires t.Valid() && InWalk(t.nodes, t.full, w, containLen)
    ensures Advanced(t.nodes, t.full, w, out, w', containLen)
    ensures out == Continue ==> Progress(StoredKeys(t.nodes, t.full), w, w', containLen)
  {
    match w.mode
    case AtNode => out, w' := NodeLabel(t, w, containLen);
    case GoLeft => out, w' := SideLabel(t, w, false, containLen);
    case GoRight => out, w' := SideLabel(t, w, true, containLen);
    case GoUp => out, w' := UpLabel(t, w, containLen);
  }

  /** __btrie_next_available (src/btrie.c:507-597) */
  method NextAvailable(t: Btrie, start: Walk, containLen: nat) returns (r: Option<Ptr>, key: Bits, len: nat)
    requires t.Valid() && InWalk(t.nodes, t.full, start, containLen)
    ensures containLen <= len <= |key| == |start.key| && key[..containLen] == start.key[..containLen]
    ensures r.None? ==> Todo(t.nodes, t.full, start, containLen) == []
    ensures r.Some? ==>
      Found(t.nodes, t.full, r.value, key[..len], containLen, Todo(t.nodes, t.full, start, containLen))
  {
    var w, out := start, Continue;
    while true
      invariant InWalk(t.nodes, t.full, w, containLen)
      invariant |w.key| == |start.key| && w.key[..containLen] == start.key[..containLen]
      invariant Todo(t.nodes, t.full, w, containLen) == Todo(t.nodes, t.full, start, containLen)
      decreases WorkAhead(StoredKeys(t.nodes, t.full), w.key[..w.len], w.mode, containLen), Rank(w.mode), w.len
    {
      out, w := Step(t, w, containLen);
      if out != Continue {
        return if out == Return then Some(w.prev) else None, w.key, w.len;
      }
    }
  }

  // ---------- where the walk starts ----------

  /** The key leaves the trie at len: nothing is stored on its side. */
  ghost predicate Leaves(a: Arena, full: Paths, n: Ptr, key: Bits, len: nat)
    requires Inv(a, full) && n in a && len < |key|
  {
    if len == a[n].plen then a[n].Child(key[len]).None? else len < |full[n]| && full[n][len] != key[len]
  }

  /** btrie_longest_match (src/btrie.c:408-430) */
  method LongestMatch(t: Btrie, key: Bits, len: nat) returns (n: Ptr, matchLen: nat)
    requires t.Valid() && KeyBuffer(key, len)
    ensures matchLen <= len && On(t.nodes, t.full, n, key[..matchLen])
    ensures matchLen < len ==> Leaves(t.nodes, t.full, n, key, matchLen)
  {
    n := t.Lookup(key, len);
    assert NodeOk(t.nodes, t.full, n);
    matchLen := t.nodes[n].plen;
    assert key[..matchLen] == t.full[n];
    if matchLen < len {
      var child := t.nodes[n].Child(NthBit(key, matchLen));
      if child.Some? {
        ChildIsTowards(t.nodes, t.full, n, key[..len]);
        assert NodeOk(t.nodes, t.full, child.value);
        matchLen := t.LongestMatchNode(n, child.value, key, len);
        n := child.value;
      }
    }
  }

  /** The walk can start at p, the part of the key above the first stored prefix of it. */
  ghost predicate Start(a: Arena, full: Paths, n: Ptr, key: Bits, len: nat, containLen: nat, firstLen: nat)
    requires Inv(a, full)
  {
    var S := StoredKeys(a, full);
    && len <= firstLen <= |key| && On(a, full, n, key[..len]) && Clear(S, key[..len]) && key[..len] !in S
    && (len < firstLen ==> (containLen <= len && key[..len + 1] in S) || Leaves(a, full, n, key, len))
  }

  /** One round of the loop that looks for stored prefixes of the key (src/btrie.c:618-630) */
  method CheckOne(t: Btrie, key: Bits, ghost m: nat, containLen: nat, ghost firstLen: nat, node: Ptr, matchLen: nat,
                  check: Ptr)
    returns (node': Ptr, matchLen': nat)
    requires t.Valid() && Checking(t.nodes, t.full, key, m, containLen, firstLen, node, matchLen, Some(check))
    requires t.nodes[check].elems == [] || t.nodes[check].plen > containLen
    ensures Checking(t.nodes, t.full, key, m, containLen, firstLen, node', matchLen', t.nodes[check].parent)
  {
    var n := t.nodes[check];
    if n.elems != [] {
      CheckHit(t.nodes, t.full, key, m, containLen, firstLen, node, matchLen, check);
      return ParentIfAt(t.nodes, check, n.plen - 1), n.plen - 1;
    }
    CheckMiss(t.nodes, t.full, key, m, containLen, firstLen, node, matchLen, check);
    return node, matchLen;
  }

  /** btrie_longest_match_available (src/btrie.c:607-633) */
  method LongestMatchAvailable(t: Btrie, key: Bits, containLen: nat, firstLen: nat)
    returns (r: Option<Ptr>, matchLen: nat)
    requires t.Valid() && KeyBuffer(key, firstLen) && containLen <= firstLen
    ensures r.None? ==> Covered(StoredKeys(t.nodes, t.full), key[..containLen])
    ensures r.Some? ==> Start(t.nodes, t.full, r.value, key, matchLen, containLen, firstLen)
  {
    var node, m := LongestMatch(t, key, firstLen);
    matchLen := m;
    var check := if t.nodes[node].plen > m then t.nodes[node].parent else Some(node);
    FirstCheck(t.nodes, t.full, node, key[..m], check);
    while check.Some?
      invariant Checking(t.nodes, t.full, key, m, containLen, firstLen, node, matchLen, check)
      decreases if check.None? then 0 else 1 + t.nodes[check.value].plen
    {
      if t.nodes[check.value].elems != [] && t.nodes[check.value].plen <= containLen {
        CheckCovers(t.nodes, t.full, check.value, key, m, containLen);
        return None, matchLen;
      }
      ParentIsShorter(t.nodes, t.full, check.value);
      node, matchLen := CheckOne(t, key, m, containLen, firstLen, node, matchLen, check.value);
      check := t.nodes[check.value].parent;
    }
    CheckDone(t.nodes, t.full, key, m, containLen, firstLen, node, matchLen);
    return Some(node), matchLen;
  }

  /** The scan of the ancestors: m is the length of the longest match, and every stored
      prefix of the match is longer than matchLen or still to be looked at. */
  ghost predicate Checking(a: Arena, full: Paths, key: Bits, m: nat, containLen: nat, firstLen: nat,
                           node: Ptr, matchLen: nat, check: Option<Ptr>)
    requires Inv(a, full)
  {
    var S := StoredKeys(a, full);
    && matchLen <= m <= firstLen <= |key| && On(a, full, node, key[..matchLen])
    && (check.Some? ==> check.value in a && full[check.value] <= key[..m])
    && (forall k | k in S && k <= key[..m] :: |k| > matchLen || (check.Some? && |k| <= a[check.value].plen))
    && (matchLen == m || (containLen <= matchLen && key[..matchLen + 1] in S))
    && (matchLen == m && m < firstLen ==> Leaves(a, full, node, key, m))
  }

  lemma CheckDone(a: Arena, full: Paths, key: Bits, m: nat, containLen: nat, firstLen: nat, node: Ptr, matchLen: nat)
    requires Inv(a, full) && Checking(a, full, key, m, containLen, firstLen, node, matchLen, None)
    ensures Start(a, full, node, key, matchLen, containLen, firstLen)
  {
    assert forall k | k in StoredKeys(a, full) && k <= key[..matchLen] :: k <= key[..m];
  }

  lemma CheckCovers(a: Arena, full: Paths, n: Ptr, key: Bits, m: nat, containLen: nat)
    requires Inv(a, full) && n in a && m <= |key| && full[n] <= key[..m] && containLen <= |key|
    requires a[n].elems != [] && a[n].plen <= containLen
    ensures Covered(StoredKeys(a, full), key[..containLen])
  {
    assert NodeOk(a, full, n);
    assert full[n] in StoredKeys(a, full);
    assert key[..m][..a[n].plen] == key[..containLen][..a[n].plen];
  }

  lemma ParentIsShorter(a: Arena, full: Paths, n: Ptr)
    requires Inv(a, full) && n in a
    ensures a[n].parent.Some? ==> a[n].parent.value in a && a[a[n].parent.value].plen < a[n].plen
  {
    assert NodeOk(a, full, n);
    if a[n].parent.Some? {
      assert NodeOk(a, full, a[n].parent.value);
    }
  }

  lemma CheckMiss(a: Arena, full: Paths, key: Bits, m: nat, containLen: nat, firstLen: nat,
                  node: Ptr, matchLen: nat, n: Ptr)
    requires Inv(a, full) && n in a && Checking(a, full, key, m, containLen, firstLen, node, matchLen, Some(n))
    requires a[n].elems == []
    ensures Checking(a, full, key, m, containLen, firstLen, node, matchLen, a[n].parent)
  {
    CheckUp(a, full, n, key[..m]);
    forall k | k in StoredKeys(a, full) && k <= key[..m] && |k| == a[n].plen ensures false {
      var x := NodeOfKey(a, full, k);
      assert NodeOk(a, full, n);
      PrefixesOfOneAreComparable(k, full[n], key[..m]);
      UniqueNode(a, full, x, n);
    }
  }

  lemma CheckHit(a: Arena, full: Paths, key: Bits, m: nat, containLen: nat, firstLen: nat,
                 node: Ptr, matchLen: nat, n: Ptr)
    requires Inv(a, full) && n in a && Checking(a, full, key, m, containLen, firstLen, node, matchLen, Some(n))
    requires a[n].elems != [] && a[n].plen > containLen
    ensures Checking(a, full, key, m, containLen, firstLen, ParentIfAt(a, n, a[n].plen - 1), a[n].plen - 1, a[n].parent)
  {
    CheckUp(a, full, n, key[..m]);
    OneBitAbove(a, full, n, key, m);
  }

  lemma FirstCheck(a: Arena, full: Paths, n: Ptr, p: Bits, check: Option<Ptr>)
    requires Inv(a, full) && On(a, full, n, p)
    requires check == if a[n].plen > |p| then a[n].parent else Some(n)
    ensures check.Some? && check.value in a && full[check.value] <= p
    ensures forall k | k in StoredKeys(a, full) && k <= p :: |k| <= a[check.value].plen
  {
    assert NodeOk(a, full, n) && NodeOk(a, full, ROOT);
    assert check.value in a && NodeOk(a, full, check.value);
    if a[n].plen > |p| {
      PrefixesOfOneAreComparable(p, full[check.value], full[n]);
      forall k | k in StoredKeys(a, full) && k <= p ensures |k| <= a[check.value].plen {
        var m := NodeOfKey(a, full, k);
        assert k < full[n];
        ParentIsNearest(a, full, n, m);
      }
    }
  }

  lemma CheckUp(a: Arena, full: Paths, n: Ptr, p: Bits)
    requires Inv(a, full) && n in a && full[n] <= p
    ensures a[n].parent.Some? ==> a[n].parent.value in a && full[a[n].parent.value] <= p
                                  && a[a[n].parent.value].plen < a[n].plen
    ensures forall k | k in StoredKeys(a, full) && k <= p && |k| < a[n].plen ::
      a[n].parent.Some? && |k| <= a[a[n].parent.value].plen
  {
    assert NodeOk(a, full, n);
    if a[n].parent.Some? {
      assert NodeOk(a, full, a[n].parent.value);
    }
    forall k | k in StoredKeys(a, full) && k <= p && |k| < a[n].plen
      ensures a[n].parent.Some? && |k| <= a[a[n].parent.value].plen
    {
      var m := NodeOfKey(a, full, k);
      PrefixesOfOneAreComparable(k, full[n], p);
      ParentIsNearest(a, full, n, m);
    }
  }

  /** Stepping one bit above a node that holds elements. */
  lemma OneBitAbove(a: Arena, full: Paths, n: Ptr, key: Bits, m: nat)
    requires Inv(a, full) && n in a && m <= |key| && full[n] <= key[..m] && a[n].plen > 0 && a[n].elems != []
    ensures a[n].plen <= m && key[..a[n].plen] == full[n] && full[n] in StoredKeys(a, full)
    ensures On(a, full, ParentIfAt(a, n, a[n].plen - 1), key[..a[n].plen - 1])
  {
    assert NodeOk(a, full, n);
    assert key[..a[n].plen] == key[..m][..a[n].plen];
    OnAfterUp(a, full, n, full[n]);
    assert full[n][..a[n].plen - 1] == key[..a[n].plen - 1];
  }

  // ---------- the first available prefix ----------

  /** The key leaves the trie inside the container, so the whole container is available. */
  lemma AllIsAvailable(a: Arena, full: Paths, n: Ptr, key: Bits, len: nat, containLen: nat, firstLen: nat)
    requires Inv(a, full) && Canonical(a) && Bounded(StoredKeys(a, full))
    requires containLen <= firstLen && Start(a, full, n, key, len, containLen, firstLen) && len < containLen
    ensures Avail(StoredKeys(a, full), key[..containLen]) == [key[..containLen]]
    ensures ListsAhead(StoredKeys(a, full), key, containLen, firstLen, [key[..containLen]])
  {
    NoKeyOnSide(a, full, n, key, len);
    assert key[..len] + [key[len]] == key[..containLen][..len + 1];
    FreeAside(StoredKeys(a, full), key[..len], key[len], key[..containLen]);
    ListsWhole(StoredKeys(a, full), key, containLen, firstLen);
  }

  /** No stored key leads to p or goes on to the side of c. */
  lemma FreeAside(S: set<Bits>, p: Bits, b: bool, c: Bits)
    requires Bounded(S) && Clear(S, p) && p !in S && p + [b] <= c && forall k | k in S :: !(p + [b] <= k)
    ensures Avail(S, c) == [c]
  {
    forall k | k in S ensures !(k <= c) && !(c < k) {
      if k <= c {
        PrefixesOfOneAreComparable(k, p + [b], c);
        assert k <= p;
      }
    }
  }

  lemma ListsWhole(S: set<Bits>, key: Bits, containLen: nat, firstLen: nat)
    requires Bounded(S) && 0 < containLen <= firstLen <= |key| && Avail(S, key[..containLen]) == [key[..containLen]]
    ensures ListsAhead(S, key, containLen, firstLen, [key[..containLen]])
  {
  }

  lemma NoKeyOnSide(a: Arena, full: Paths, n: Ptr, key: Bits, len: nat)
    requires Inv(a, full) && Canonical(a) && len < |key| && On(a, full, n, key[..len])
    requires Leaves(a, full, n, key, len)
    ensures forall k | k in StoredKeys(a, full) :: !(key[..len] + [key[len]] <= k)
  {
    assert NodeOk(a, full, n);
    if len == a[n].plen {
      assert key[..len] == full[n];
      NodeSays(a, full, n, key[len]);
    } else {
      EdgeSays(a, full, n, key[..len]);
    }
  }

  /** Below a position the trie reaches, something is stored, unless the trie is empty. */
  lemma SomethingBelow(a: Arena, full: Paths, n: Ptr, p: Bits)
    requires Inv(a, full) && Canonical(a) && On(a, full, n, p) && p !in StoredKeys(a, full)
    ensures Divided(StoredKeys(a, full), p)
    ensures Split(StoredKeys(a, full), p) <==> StoredKeys(a, full) != {}
  {
    var S := StoredKeys(a, full);
    assert NodeOk(a, full, n);
    if |p| < |full[n]| {
      EdgeSays(a, full, n, p);
    } else {
      assert p == full[n];
      NodeSays(a, full, n, false);
      NodeSays(a, full, n, true);
      assert CanonicalAt(a, n);
      if a[n].child0.Some? || a[n].child1.Some? {
        var k :| k in S && (p + [false] <= k || p + [true] <= k);
        assert p < k;
      } else {
        assert n == ROOT && p == [];
        NothingBelow(S, p);
        assert forall k | k in S :: k == [] || p < k;
      }
    }
  }

  /** The walk starts at the label that the next bit of the key asks for. */
  function StartMode(key: Bits, len: nat, firstLen: nat): Mode
    requires len <= firstLen <= |key|
  {
    if len < firstLen then Go(key[len]) else AtNode
  }

  /** `ahead` is what the iteration over c lists from q on: all that does not lie before q. */
  ghost predicate ListsFrom(S: set<Bits>, c: Bits, q: Bits, ahead: seq<Bits>)
    requires Bounded(S)
  {
    var all := Avail(S, c);
    && |ahead| <= |all| && all[|all| - |ahead|..] == ahead
    && (forall i | 0 <= i < |all| - |ahead| :: Before(all[i], q))
    && forall x | x in ahead :: !Before(x, q)
  }

  lemma SuffixLists(S: set<Bits>, c: Bits, q: Bits, before: seq<Bits>, ahead: seq<Bits>)
    requires Bounded(S) && Avail(S, c) == before + ahead
    requires (forall x | x in before :: Before(x, q)) && forall x | x in ahead :: !Before(x, q)
    ensures ListsFrom(S, c, q, ahead)
  {
    var all := Avail(S, c);
    assert forall i | 0 <= i < |before| :: all[i] == before[i] && before[i] in before;
  }

  lemma StartsRight(a: Arena, full: Paths, n: Ptr, key: Bits, len: nat, containLen: nat, firstLen: nat)
    requires Inv(a, full) && Canonical(a) && Bounded(StoredKeys(a, full))
    requires Start(a, full, n, key, len, containLen, firstLen) && containLen <= len
    requires StoredKeys(a, full) != {} || len == firstLen
    ensures var S := StoredKeys(a, full);
            ListsFrom(S, key[..containLen], key[..firstLen],
                      Ahead(S, key[..len], StartMode(key, len, firstLen), containLen))
  {
    var S, c, p, q := StoredKeys(a, full), key[..containLen], key[..len], key[..firstLen];
    SomethingBelow(a, full, n, p);
    assert c <= p <= q;
    if len < firstLen {
      assert p + [key[len]] == key[..len + 1] <= q;
      if p + [key[len]] !in S {
        NoKeyOnSide(a, full, n, key, len);
      }
      StartsBefore(S, c, p, q, Some(key[len]));
    } else {
      StartsBefore(S, c, p, q, None);
    }
  }

  lemma StartsBefore(S: set<Bits>, c: Bits, p: Bits, q: Bits, b: Option<bool>)
    requires Bounded(S) && c <= p <= q && Clear(S, p) && p !in S && Divided(S, p)
    requires b.Some? ==> Split(S, p) && p + [b.value] <= q && (p + [b.value] in S || !Split(S, p + [b.value]))
    requires b.None? ==> p == q
    ensures ListsFrom(S, c, q, Ahead(S, p, if b.Some? then Go(b.value) else AtNode, |c|))
  {
    var before := AvailFrom(S, c, p);
    forall x | x in before ensures Before(x, q) {
      BeforeExtends(x, p, x, q);
    }
    if b.None? {
      forall x | x in Avail(S, p) ensures !Before(x, q) {
        AvailIsFree(S, p, x);
      }
      NoneBefore(S, c, p, q);
      SuffixLists(S, c, q, before, Avail(S, p) + Rest(S, p, |c|));
    } else {
      assert !Covered(S, p);
      forall x | x in Avail(S, p + [b.value]) ensures !Before(x, q) {
        assert x == p + [b.value];
      }
      NoneBefore(S, c, p + [b.value], q);
      StartsAside(S, c, p, q, b.value, before);
    }
  }

  lemma NoneBefore(S: set<Bits>, c: Bits, p: Bits, q: Bits)
    requires Bounded(S) && c <= p <= q && forall x | x in Avail(S, p) :: !Before(x, q)
    ensures forall x | x in Avail(S, p) + Rest(S, p, |c|) :: !Before(x, q)
  {
    forall x | x in Rest(S, p, |c|) ensures !Before(x, q) {
      RestIsAfter(S, p, |c|, x);
      BeforeExtends(p, x, q, x);
      BeforeIsOneWay(q, x);
    }
  }

  lemma StartsAside(S: set<Bits>, c: Bits, p: Bits, q: Bits, b: bool, before: seq<Bits>)
    requires Bounded(S) && c <= p && p + [b] <= q && Split(S, p) && !Covered(S, p)
    requires Avail(S, c) == before + (Avail(S, p) + Rest(S, p, |c|))
    requires (forall x | x in before :: Before(x, q)) && forall x | x in Ahead(S, p, Go(b), |c|) :: !Before(x, q)
    ensures ListsFrom(S, c, q, Ahead(S, p, Go(b), |c|))
  {
    AvailOfSplit(S, p, |c|);
    if !b {
      SuffixLists(S, c, q, before, Ahead(S, p, GoLeft, |c|));
    } else {
      var left, right := Avail(S, p + [false]), Ahead(S, p, GoRight, |c|);
      LeftThenRight(S, c, p, before, left, right);
      forall x | x in left ensures Before(x, q) {
        AvailIsFree(S, p + [false], x);
        SiblingsAreOrdered(p, x, q);
      }
      SuffixLists(S, c, q, before + left, right);
    }
  }

  /** memcpy of the bytes that hold the first len bits (src/btrie.c:641-642) */
  function CopyBytes(dst: Bits, src: Bits, len: nat): (r: Bits)
    requires |dst| % 8 == 0 && |src| % 8 == 0 && len <= |src| && len <= |dst|
    ensures |r| == |dst| && r[..len] == src[..len]
  {
    if len == 0 then dst
    else
      var n := ((len - 1) / 8 + 1) * 8;
      src[..n] + dst[n..]
  }

  /** What an iteration has still to list once it stands at spot. */
  ghost predicate Stands(a: Arena, full: Paths, spot: Option<Spot>, p: Bits, containLen: nat, ahead: seq<Bits>)
    requires Inv(a, full) && Bounded(StoredKeys(a, full))
  {
    match spot
    case None => ahead == []
    case Some(AllAvailable) => |p| == containLen && ahead == [p]
    case Some(Spot(n)) => Found(a, full, n, p, containLen, ahead)
  }

  /** The walk from the root of an empty trie with a direction. */
  ghost predicate EmptyWithDirection(S: set<Bits>, containLen: nat, firstLen: nat) {
    S == {} && containLen == 0 && firstLen > 0
  }

  /** `ahead` is what the iteration lists from the key's first firstLen bits on.  In an empty trie
      with the whole space as container and a longer first key, the space is listed in halves. */
  ghost predicate ListsAhead(S: set<Bits>, key: Bits, containLen: nat, firstLen: nat, ahead: seq<Bits>)
    requires Bounded(S) && containLen <= firstLen <= |key|
  {
    if EmptyWithDirection(S, containLen, firstLen)
    then ahead == if key[0] then [[true]] else [[false], [true]]
    else ListsFrom(S, key[..containLen], key[..firstLen], ahead)
  }

  function FirstLen(containLen: nat, firstLen: nat): nat {
    if firstLen < containLen then containLen else firstLen
  }

  lemma NothingIsAvailable(S: set<Bits>, key: Bits, containLen: nat, firstLen: nat)
    requires Bounded(S) && containLen <= firstLen <= |key| && Covered(S, key[..containLen])
    ensures ListsAhead(S, key, containLen, firstLen, [])
  {
  }

  /** __btrie_first_available (src/btrie.c:635-664): list the available prefixes of the
      container from the key's first firstLen bits on. */
  method FirstAvailable(t: Btrie, iterKey: Bits, containKey: Bits, containLen: nat, firstLen0: nat)
    returns (spot: Option<Spot>, key: Bits, len: nat, ghost ahead: seq<Bits>)
    requires t.Valid() && |iterKey| % WORD == 0 && |iterKey| > 0
    requires KeyBuffer(containKey, containLen) && KeyBuffer(containKey, firstLen0)
    requires containLen <= |iterKey| && firstLen0 <= |iterKey|
    requires forall k | k in StoredKeys(t.nodes, t.full) :: |k| <= |iterKey|
    ensures Bounded(StoredKeys(t.nodes, t.full))
    ensures spot.Some? ==> containLen <= len <= |key| == |iterKey| && key[..containLen] == containKey[..containLen]
    ensures spot.Some? ==> Stands(t.nodes, t.full, spot, key[..len], containLen, ahead)
    ensures spot.None? ==> ahead == []
    ensures ListsAhead(StoredKeys(t.nodes, t.full), containKey, containLen, FirstLen(containLen, firstLen0), ahead)
  {
    StoredKeysBounded(t.nodes, t.full);
    var firstLen := FirstLen(containLen, firstLen0);
    var node, m := LongestMatchAvailable(t, containKey, containLen, firstLen);
    key := CopyBytes(iterKey, containKey, firstLen);
    spot, key, len, ahead := FirstSpot(t, node, key, m, containKey, containLen, firstLen);
  }

  /** Nothing, the whole container, or a walk (src/btrie.c:644-663) */
  method FirstSpot(t: Btrie, node: Option<Ptr>, key0: Bits, len0: nat, containKey: Bits, containLen: nat, firstLen: nat)
    returns (spot: Option<Spot>, key: Bits, len: nat, ghost ahead: seq<Bits>)
    requires t.Valid() && Bounded(StoredKeys(t.nodes, t.full)) && |key0| > 0
    requires containLen <= firstLen <= |containKey| && firstLen <= |key0| && key0[..firstLen] == containKey[..firstLen]
    requires (forall k | k in StoredKeys(t.nodes, t.full) :: |k| <= |key0|)
    requires node.None? ==> Covered(StoredKeys(t.nodes, t.full), containKey[..containLen])
    requires node.Some? ==> Start(t.nodes, t.full, node.value, containKey, len0, containLen, firstLen)
    ensures spot.Some? ==> containLen <= len <= |key| == |key0| && key[..containLen] == containKey[..containLen]
    ensures Stands(t.nodes, t.full, spot, if spot.Some? then key[..len] else [], containLen, ahead)
    ensures ListsAhead(StoredKeys(t.nodes, t.full), containKey, containLen, firstLen, ahead)
  {
    if node.None? {
      NothingIsAvailable(StoredKeys(t.nodes, t.full), containKey, containLen, firstLen);
      return None, key0, len0, [];
    }
    if len0 < containLen {
      AllIsAvailable(t.nodes, t.full, node.value, containKey, len0, containLen, firstLen);
      SameStart(key0, containKey, containLen, firstLen);
      return Some(AllAvailable), key0, containLen, [containKey[..containLen]];
    }
    spot, key, len, ahead := FirstWalk(t, node.value, key0, len0, containKey, containLen, firstLen);
  }

  lemma SameStart(x: Bits, y: Bits, k: nat, n: nat)
    requires k <= n <= |x| && n <= |y| && x[..n] == y[..n]
    ensures x[..k] == y[..k]
  {
    assert x[..k] == x[..n][..k] == y[..n][..k] == y[..k];
  }

  method FirstWalk(t: Btrie, node: Ptr, key0: Bits, len0: nat, containKey: Bits, containLen: nat, firstLen: nat)
    returns (spot: Option<Spot>, key: Bits, len: nat, ghost ahead: seq<Bits>)
    requires t.Valid() && Bounded(StoredKeys(t.nodes, t.full)) && |key0| > 0
    requires containLen <= len0 <= firstLen <= |containKey| && firstLen <= |key0|
    requires key0[..firstLen] == containKey[..firstLen]
    requires (forall k | k in StoredKeys(t.nodes, t.full) :: |k| <= |key0|)
    requires Start(t.nodes, t.full, node, containKey, len0, containLen, firstLen)
    ensures spot.Some? ==> containLen <= len <= |key| == |key0| && key[..containLen] == containKey[..containLen]
    ensures Stands(t.nodes, t.full, spot, if spot.Some? then key[..len] else [], containLen, ahead)
    ensures ListsAhead(StoredKeys(t.nodes, t.full), containKey, containLen, firstLen, ahead)
  {
    var w := Walk(node, key0, len0, StartMode(containKey, len0, firstLen));
    ReadyToWalk(t.nodes, t.full, w, containKey, containLen, firstLen);
    ahead := Todo(t.nodes, t.full, w, containLen);
    var r;
    r, key, len := NextAvailable(t, w, containLen);
    spot := if r.Some? then Some(Spot(r.value)) else None;
  }

  lemma ReadyToWalk(a: Arena, full: Paths, w: Walk, containKey: Bits, containLen: nat, firstLen: nat)
    requires Inv(a, full) && Canonical(a) && Bounded(StoredKeys(a, full))
    requires containLen <= w.len && containLen <= firstLen
    requires Start(a, full, w.prev, containKey, w.len, containLen, firstLen)
    requires firstLen <= |w.key| && |w.key| > 0 && (forall k | k in StoredKeys(a, full) :: |k| <= |w.key|)
    requires w.key[..firstLen] == containKey[..firstLen]
    requires w.mode == StartMode(containKey, w.len, firstLen)
    ensures InWalk(a, full, w, containLen) && w.key[..containLen] == containKey[..containLen]
    ensures ListsAhead(StoredKeys(a, full), containKey, containLen, firstLen, Todo(a, full, w, containLen))
  {
    SameStart(w.key, containKey, w.len, firstLen);
    SameStart(w.key, containKey, containLen, firstLen);
    SomethingBelow(a, full, w.prev, w.key[..w.len]);
    WalkLists(a, full, w.prev, containKey, w.len, containLen, firstLen);
  }

  lemma WalkLists(a: Arena, full: Paths, n: Ptr, key: Bits, len: nat, containLen: nat, firstLen: nat)
    requires Inv(a, full) && Canonical(a) && Bounded(StoredKeys(a, full))
    requires containLen <= len && containLen <= firstLen && Start(a, full, n, key, len, containLen, firstLen)
    ensures ListsAhead(StoredKeys(a, full), key, containLen, firstLen,
                       Ahead(StoredKeys(a, full), key[..len], StartMode(key, len, firstLen), containLen))
  {
    SomethingBelow(a, full, n, key[..len]);
    if StoredKeys(a, full) == {} && len < firstLen {
      assert key[..len] == [];
      HalvesOfEmpty();
    } else {
      StartsRight(a, full, n, key, len, containLen, firstLen);
    }
  }

  lemma HalvesOfEmpty()
    ensures Ahead({}, [], GoLeft, 0) == [[false], [true]]
    ensures Ahead({}, [], GoRight, 0) == [[true]]
  {
    RestOfChild({}, [], 0);
    assert [] + [false] == [false] && [] + [true] == [true];
    assert !Covered({}, [false]) && !Split({}, [false]);
    assert Avail({}, [false]) == [[false]];
    assert Avail({}, [true]) == [[true]];
  }

  /** btrie_next_available (src/btrie.c:599-603): the one after the current position. */
  method AfterAvailable(t: Btrie, spot: Spot, key: Bits, len: nat, containLen: nat, ghost ahead: seq<Bits>)
    returns (next: Option<Spot>, key': Bits, len': nat)
    requires t.Valid() && Bounded(StoredKeys(t.nodes, t.full))
    requires containLen <= len <= |key| && |key| > 0 && (forall k | k in StoredKeys(t.nodes, t.full) :: |k| <= |key|)
    requires Stands(t.nodes, t.full, Some(spot), key[..len], containLen, ahead)
    ensures ahead != [] && ahead[0] == key[..len]
    ensures containLen <= len' <= |key'| == |key| && key'[..containLen] == key[..containLen]
    ensures Stands(t.nodes, t.full, next, key'[..len'], containLen, ahead[1..])
  {
    match spot
    case AllAvailable =>
      return None, key, len;
    case Spot(n) =>
      assert ahead[1..] == Rest(StoredKeys(t.nodes, t.full), key[..len], containLen);
      var r;
      r, key', len' := NextAvailable(t, Walk(n, key, len, GoUp), containLen);
      next := if r.Some? then Some(Spot(r.value)) else None;
  }

  /** btrie_for_each_available (src/btrie.h:200-202) visits exactly the available prefixes. */
  method ForEachAvailable(t: Btrie, buffer: Bits, containKey: Bits, containLen: nat) returns (visited: seq<Bits>)
    requires t.Valid() && |buffer| % WORD == 0 && |buffer| > 0
    requires KeyBuffer(containKey, containLen) && containLen <= |buffer|
    requires forall k | k in StoredKeys(t.nodes, t.full) :: |k| <= |buffer|
    ensures Bounded(StoredKeys(t.nodes, t.full))
    ensures visited == Avail(StoredKeys(t.nodes, t.full), containKey[..containLen])
  {
    var spot, key, len;
    ghost var ahead;
    spot, key, len, ahead := FirstAvailable(t, buffer, containKey, containLen, containLen);
    NothingBeforeContainer(StoredKeys(t.nodes, t.full), containKey[..containLen], ahead);
    visited := VisitAll(t, spot, key, len, containLen, |buffer|, ahead);
  }

  /** The loop of btrie_for_each_available */
  method VisitAll(t: Btrie, spot0: Option<Spot>, key0: Bits, len0: nat, containLen: nat, ghost size: nat,
                  ghost all: seq<Bits>)
    returns (visited: seq<Bits>)
    requires Listing(t, spot0, key0, len0, containLen, size, all)
    requires size > 0 && (forall k | k in StoredKeys(t.nodes, t.full) :: |k| <= size)
    ensures visited == all
  {
    var spot, key, len := spot0, key0, len0;
    ghost var ahead := all;
    visited := [];
    while spot.Some?
      invariant Listing(t, spot, key, len, containLen, size, ahead) && visited + ahead == all
      decreases |ahead|, spot.Some?
    {
      ghost var was := ahead;
      visited := visited + [key[..len]];
      spot, key, len, ahead := VisitNext(t, spot.value, key, len, containLen, size, ahead);
      assert was == [was[0]] + ahead;
    }
  }

  /** The iteration stands at spot, with `ahead` still to list. */
  ghost predicate Listing(t: Btrie, spot: Option<Spot>, key: Bits, len: nat, containLen: nat, size: nat,
                          ahead: seq<Bits>)
    reads t
  {
    && t.Valid() && Bounded(StoredKeys(t.nodes, t.full))
    && (spot.Some? ==> containLen <= len <= |key| == size)
    && Stands(t.nodes, t.full, spot, if spot.Some? then key[..len] else [], containLen, ahead)
  }

  method VisitNext(t: Btrie, spot: Spot, key: Bits, len: nat, containLen: nat, ghost size: nat, ghost ahead: seq<Bits>)
    returns (next: Option<Spot>, key': Bits, len': nat, ghost ahead': seq<Bits>)
    requires Listing(t, Some(spot), key, len, containLen, size, ahead)
    requires size > 0 && (forall k | k in StoredKeys(t.nodes, t.full) :: |k| <= size)
    ensures Listing(t, next, key', len', containLen, size, ahead')
    ensures ahead != [] && ahead[0] == key[..len] && ahead' == ahead[1..]
  {
    next, key', len' := AfterAvailable(t, spot, key, len, containLen, ahead);
    ahead' := ahead[1..];
  }

  /** Nothing inside the container lies before it, so nothing is skipped. */
  lemma NothingBeforeContainer(S: set<Bits>, c: Bits, ahead: seq<Bits>)
    requires Bounded(S) && ListsFrom(S, c, c, ahead)
    ensures ahead == Avail(S, c)
  {
    var all := Avail(S, c);
    if |ahead| < |all| {
      assert Before(all[0], c);
      AvailIsFree(S, c, all[0]);
      assert false;
    }
  }
}
