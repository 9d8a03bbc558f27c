/**
  The iterators over stored elements (src/btrie.c:288-486): down (keys that begin
  with the given key), up (keys the given key begins with) and updown (both).
 */
module BtrieIterators {
  import opened Wrappers
  import opened FreeSpace
  import opened TrieArena
  import opened Sequences
  import opened BtrieModel

  /** A pointer into the element lists: the list head inside a node, or an element. */
  datatype Cursor = Head(node: Ptr) | At(node: Ptr, i: nat)

  ghost predicate CursorOk(a: Arena, c: Cursor) {
    c.node in a && (c.At? ==> c.i < |a[c.node].elems|)
  }

  /** next_element: the circular list leads back to its head. */
  function NextElement(a: Arena, c: Cursor): Cursor
    requires c.node in a
  {
    var i := if c.Head? then 0 else c.i + 1;
    if i < |a[c.node].elems| then At(c.node, i) else Head(c.node)
  }

  /** The elements of the cursor's node after the cursor. */
  function Later(a: Arena, c: Cursor): seq<Elem>
    requires CursorOk(a, c)
  {
    if c.Head? then a[c.node].elems else a[c.node].elems[c.i + 1..]
  }

  lemma NextElementIs(a: Arena, c: Cursor)
    requires CursorOk(a, c)
    ensures var n := NextElement(a, c);
            && CursorOk(a, n) && n.node == c.node
            && (n.Head? ==> Later(a, c) == [])
            && (n.At? ==> Later(a, c) == [a[n.node].elems[n.i]] + Later(a, n))
  {
  }

  // ---------- what there is to visit ----------

  lemma ChildIn(a: Arena, full: Paths, n: Ptr, b: bool)
    requires Inv(a, full) && n in a
    ensures |full[n]| == a[n].plen <= MAX_PLEN
    ensures var c := a[n].Child(b);
            c.Some? ==> c.value in a && full[n] < full[c.value] && |full[c.value]| <= MAX_PLEN
                        && full[c.value][|full[n]|] == b && a[c.value].parent == Some(n)
  {
    assert NodeOk(a, full, n);
    if a[n].Child(b).Some? {
      assert LinkedDown(a, full, n, b);
      assert NodeOk(a, full, a[n].Child(b).value);
    }
  }

  lemma ParentIn(a: Arena, full: Paths, n: Ptr)
    requires Inv(a, full) && n in a
    ensures |full[n]| == a[n].plen
    ensures a[n].parent.Some? ==> var q := a[n].parent.value;
            && q in a && full[q] < full[n] && |full[q]| == a[q].plen
            && a[q].Child(full[n][|full[q]|]) == Some(n) && a[q].Child(!full[n][|full[q]|]) != Some(n)
    ensures a[n].parent.None? ==> n == ROOT && full[n] == []
  {
    assert NodeOk(a, full, n);
    if a[n].parent.Some? {
      var q := a[n].parent.value;
      ChildIn(a, full, q, false);
      ChildIn(a, full, q, true);
    }
  }

  /** All elements at and below n, left to right. */
  ghost function Below(a: Arena, full: Paths, n: Ptr): seq<Elem>
    requires Inv(a, full) && n in a
    decreases MAX_PLEN - |full[n]|, 0, 1
  {
    a[n].elems + BelowSide(a, full, n, false) + BelowSide(a, full, n, true)
  }

  ghost function BelowSide(a: Arena, full: Paths, n: Ptr, b: bool): seq<Elem>
    requires Inv(a, full) && n in a
    decreases MAX_PLEN - |full[n]|, 0, 0
  {
    ChildIn(a, full, n, b);
    if a[n].Child(b).None? then [] else Below(a, full, a[n].Child(b).value)
  }

  /** What is left once n's subtree is done, up to the first node not longer than len. */
  ghost function After(a: Arena, full: Paths, n: Ptr, len: nat): seq<Elem>
    requires Inv(a, full) && n in a
    decreases |full[n]|
  {
    ParentIn(a, full, n);
    var q := a[n].parent;
    if q.None? || a[q.value].plen < len then []
    else if a[q.value].child0 == Some(n) then BelowSide(a, full, q.value, true) + After(a, full, q.value, len)
    else After(a, full, q.value, len)
  }

  /** For termination: the size of a subtree, and of what is left after it. */
  ghost function Size(a: Arena, full: Paths, n: Ptr): nat
    requires Inv(a, full) && n in a
    decreases MAX_PLEN - |full[n]|, 0, 1
  {
    2 + SizeSide(a, full, n, false) + SizeSide(a, full, n, true)
  }

  ghost function SizeSide(a: Arena, full: Paths, n: Ptr, b: bool): nat
    requires Inv(a, full) && n in a
    decreases MAX_PLEN - |full[n]|, 0, 0
  {
    ChildIn(a, full, n, b);
    if a[n].Child(b).None? then 0 else Size(a, full, a[n].Child(b).value)
  }

  ghost function SizeAfter(a: Arena, full: Paths, n: Ptr, len: nat): nat
    requires Inv(a, full) && n in a
    decreases |full[n]|
  {
    ParentIn(a, full, n);
    var q := a[n].parent;
    if q.None? || a[q.value].plen < len then 0
    else if a[q.value].child0 == Some(n) then SizeSide(a, full, q.value, true) + SizeAfter(a, full, q.value, len)
    else SizeAfter(a, full, q.value, len)
  }

  // ---------- down ----------

  /** The labels of btrie_next_down: entering a node, and trying left, right and up from it. */
  datatype Label = Enter | Left | Right | Up

  ghost function Visit(a: Arena, full: Paths, n: Ptr, goal: Label, len: nat): seq<Elem>
    requires Inv(a, full) && n in a
  {
    match goal
    case Enter => Below(a, full, n) + After(a, full, n, len)
    case Left => BelowSide(a, full, n, false) + (BelowSide(a, full, n, true) + After(a, full, n, len))
    case Right => BelowSide(a, full, n, true) + After(a, full, n, len)
    case Up => After(a, full, n, len)
  }

  ghost function Cost(a: Arena, full: Paths, n: Ptr, goal: Label, len: nat): nat
    requires Inv(a, full) && n in a
  {
    match goal
    case Enter => Size(a, full, n) - 1 + SizeAfter(a, full, n, len)
    case Left => Size(a, full, n) - 2 + SizeAfter(a, full, n, len)
    case Right => SizeSide(a, full, n, true) + SizeAfter(a, full, n, len)
    case Up => SizeAfter(a, full, n, len)
  }

  function LabelRank(goal: Label): nat {
    match goal case Enter => 3 case Left => 2 case Right => 1 case Up => 0
  }

  /** Going from one label to another keeps what is to be visited, and ends. */
  ghost predicate Moves(a: Arena, full: Paths, n: Ptr, goal: Label, n': Ptr, goal': Label, len: nat)
    requires Inv(a, full) && n in a
  {
    && n' in a && len <= a[n'].plen
    && Visit(a, full, n', goal', len) == Visit(a, full, n, goal, len)
    && var m, m' := Cost(a, full, n, goal, len), Cost(a, full, n', goal', len);
    m' < m || (m' == m && (a[n'].plen < a[n].plen || (n' == n && LabelRank(goal') < LabelRank(goal))))
  }

  lemma EnterChild(a: Arena, full: Paths, n: Ptr, b: bool, c: Ptr, len: nat)
    requires Inv(a, full) && n in a && a[n].Child(b) == Some(c) && len <= a[n].plen
    ensures Moves(a, full, n, if b then Right else Left, c, Enter, len)
  {
    ChildIn(a, full, n, b);
    ChildIn(a, full, n, !b);
    ParentIn(a, full, c);
    assert BelowSide(a, full, n, b) == Below(a, full, c) && SizeSide(a, full, n, b) == Size(a, full, c);
    if b {
      assert After(a, full, c, len) == After(a, full, n, len);
      assert SizeAfter(a, full, c, len) == SizeAfter(a, full, n, len);
    } else {
      assert After(a, full, c, len) == BelowSide(a, full, n, true) + After(a, full, n, len);
      assert SizeAfter(a, full, c, len) == SizeSide(a, full, n, true) + SizeAfter(a, full, n, len);
    }
  }

  lemma SkipChild(a: Arena, full: Paths, n: Ptr, b: bool, len: nat)
    requires Inv(a, full) && n in a && a[n].Child(b).None? && len <= a[n].plen
    ensures Moves(a, full, n, if b then Right else Left, n, if b then Up else Right, len)
  {
    assert BelowSide(a, full, n, b) == [] && SizeSide(a, full, n, b) == 0;
  }

  lemma LeaveEmpty(a: Arena, full: Paths, n: Ptr, len: nat)
    requires Inv(a, full) && n in a && a[n].elems == [] && len <= a[n].plen
    ensures Moves(a, full, n, Enter, n, Left, len)
  {
    assert Below(a, full, n) == BelowSide(a, full, n, false) + BelowSide(a, full, n, true);
  }

  lemma UpFromChild(a: Arena, full: Paths, n: Ptr, q: Ptr, len: nat)
    requires Inv(a, full) && n in a && a[n].parent == Some(q) && q in a && len <= a[q].plen
    ensures Moves(a, full, n, Up, q, if a[q].child0 == Some(n) then Right else Up, len)
  {
    ParentIn(a, full, n);
  }

  /** A cursor at an element: what btrie_next_down has still to yield. */
  ghost function DownFrom(a: Arena, full: Paths, c: Cursor, len: nat): seq<Elem>
    requires Inv(a, full) && CursorOk(a, c)
  {
    Later(a, c) + Visit(a, full, c.node, Left, len)
  }

  /** btrie_next_down (src/btrie.c:327-365) */
  method NextDown(t: Btrie, prev: Cursor, len: nat) returns (next: Option<Cursor>)
    requires t.Valid() && CursorOk(t.nodes, prev) && len <= t.nodes[prev.node].plen
    ensures next.None? ==> DownFrom(t.nodes, t.full, prev, len) == []
    ensures next.Some? ==>
      && next.value.At? && CursorOk(t.nodes, next.value) && len <= t.nodes[next.value.node].plen
      && DownFrom(t.nodes, t.full, prev, len)
         == [t.nodes[next.value.node].elems[next.value.i]] + DownFrom(t.nodes, t.full, next.value, len)
  {
    var c := NextElement(t.nodes, prev);
    NextElementIs(t.nodes, prev);
    if c.At? {
      return Some(c);
    }
    var node, goal := prev.node, Left;
    ghost var rest := DownFrom(t.nodes, t.full, prev, len);
    while true
      invariant node in t.nodes && len <= t.nodes[node].plen
      invariant Visit(t.nodes, t.full, node, goal, len) == rest
      decreases Cost(t.nodes, t.full, node, goal, len), t.nodes[node].plen, LabelRank(goal)
    {
      if goal == Enter && t.nodes[node].elems != [] {
        FirstOf(t.nodes, t.full, node, len);
        return Some(At(node, 0));
      }
      var out;
      out, node, goal := DownStep(t, node, goal, len);
      if out {
        return None;
      }
    }
  }

  lemma FirstOf(a: Arena, full: Paths, n: Ptr, len: nat)
    requires Inv(a, full) && n in a && a[n].elems != []
    ensures Visit(a, full, n, Enter, len) == [a[n].elems[0]] + DownFrom(a, full, At(n, 0), len)
  {
    assert a[n].elems == [a[n].elems[0]] + a[n].elems[1..];
  }

  /** One goto of btrie_next_down. */
  method DownStep(t: Btrie, node: Ptr, goal: Label, len: nat) returns (end: bool, node': Ptr, goal': Label)
    requires t.Valid() && node in t.nodes && len <= t.nodes[node].plen
    requires goal == Enter ==> t.nodes[node].elems == []
    ensures end ==> Visit(t.nodes, t.full, node, goal, len) == []
    ensures !end ==> Moves(t.nodes, t.full, node, goal, node', goal', len)
  {
    end, node', goal' := false, node, goal;
    var n := t.nodes[node];
    match goal
    case Enter =>
      LeaveEmpty(t.nodes, t.full, node, len);
      goal' := Left;
    case Left =>
      if n.child0.Some? {
        EnterChild(t.nodes, t.full, node, false, n.child0.value, len);
        node', goal' := n.child0.value, Enter;
      } else {
        SkipChild(t.nodes, t.full, node, false, len);
        goal' := Right;
      }
    case Right =>
      if n.child1.Some? {
        EnterChild(t.nodes, t.full, node, true, n.child1.value, len);
        node', goal' := n.child1.value, Enter;
      } else {
        SkipChild(t.nodes, t.full, node, true, len);
        goal' := Up;
      }
    case Up =>
      ParentIn(t.nodes, t.full, node);
      if n.parent.None? || t.nodes[n.parent.value].plen < len {
        end := true;
      } else {
        UpFromChild(t.nodes, t.full, node, n.parent.value, len);
        node' := n.parent.value;
        goal' := if t.nodes[node'].child0 == Some(node) then Right else Up;
      }
  }

  // ---------- what a subtree holds ----------

  lemma DistinctBoth(s: seq<Elem>, t: seq<Elem>)
    requires Distinct(s) && Distinct(t) && forall e | e in s :: e !in t
    ensures Distinct(s + t)
  {
    forall i, j | 0 <= i < j < |s + t| ensures (s + t)[i] != (s + t)[j] {
      if i < |s| <= j {
        assert s[i] in s;
      }
    }
  }

  /** The elements at and below n are those whose keys begin with n's. */
  lemma {:induction false} BelowIs(a: Arena, full: Paths, where: map<Elem, Ptr>, n: Ptr, e: Elem)
    requires Inv(a, full) && Placed(a, where) && n in a
    ensures e in Below(a, full, n) <==> e in where && full[n] <= full[where[e]]
    decreases MAX_PLEN - |full[n]|
  {
    ChildIn(a, full, n, false);
    ChildIn(a, full, n, true);
    SideIs(a, full, where, n, false, e);
    SideIs(a, full, where, n, true, e);
    assert e in Below(a, full, n) <==>
      e in a[n].elems || e in BelowSide(a, full, n, false) || e in BelowSide(a, full, n, true);
    if e in where && full[n] <= full[where[e]] {
      if full[n] == full[where[e]] {
        UniqueNode(a, full, n, where[e]);
      } else {
        NextBit(full[n], full[where[e]]);
        var b := full[where[e]][|full[n]|];
        assert e in BelowSide(a, full, n, b);
      }
    }
  }

  lemma {:induction false} SideIs(a: Arena, full: Paths, where: map<Elem, Ptr>, n: Ptr, b: bool, e: Elem)
    requires Inv(a, full) && Placed(a, where) && n in a
    ensures e in BelowSide(a, full, n, b) <==> e in where && full[n] + [b] <= full[where[e]]
    decreases MAX_PLEN - |full[n]|, 0
  {
    ChildIn(a, full, n, b);
    if a[n].Child(b).Some? {
      var c := a[n].Child(b).value;
      BelowIs(a, full, where, c, e);
      NextBit(full[n], full[c]);
      if e in where && full[n] + [b] <= full[where[e]] {
        assert full[where[e]][|full[n]|] == (full[n] + [b])[|full[n]|];
        Descend(a, full, n, where[e]);
      }
    } else if e in where && full[n] + [b] <= full[where[e]] {
      assert full[where[e]][|full[n]|] == (full[n] + [b])[|full[n]|];
      Descend(a, full, n, where[e]);
    }
  }

  lemma {:induction false} BelowIsDistinct(a: Arena, full: Paths, where: map<Elem, Ptr>, n: Ptr)
    requires Inv(a, full) && Placed(a, where) && n in a
    ensures Distinct(Below(a, full, n))
    decreases MAX_PLEN - |full[n]|
  {
    ChildIn(a, full, n, false);
    ChildIn(a, full, n, true);
    var l, r := BelowSide(a, full, n, false), BelowSide(a, full, n, true);
    if a[n].child0.Some? { BelowIsDistinct(a, full, where, a[n].child0.value); }
    if a[n].child1.Some? { BelowIsDistinct(a, full, where, a[n].child1.value); }
    forall e | e in l ensures e !in r && e !in a[n].elems {
      SideIs(a, full, where, n, false, e);
      SideIs(a, full, where, n, true, e);
      assert full[where[e]][|full[n]|] == (full[n] + [false])[|full[n]|];
    }
    forall e | e in a[n].elems ensures e !in r {
      SideIs(a, full, where, n, true, e);
    }
    DistinctBoth(a[n].elems, l);
    DistinctBoth(a[n].elems + l, r);
  }

  /** btrie_first_down_node (src/btrie.c:387-406) */
  method FirstDownNode(t: Btrie, key: Bits, len: nat) returns (r: Option<Ptr>)
    requires t.Valid() && KeyBuffer(key, len)
    ensures r.None? ==> forall m | m in t.nodes :: !(key[..len] <= t.full[m])
    ensures r.Some? ==> DownRoot(t.nodes, t.full, r.value, key[..len])
  {
    var node := t.Lookup(key, len);
    assert NodeOk(t.nodes, t.full, node);
    if t.nodes[node].plen == len {
      ExactDown(t.nodes, t.full, node, key[..len]);
      return Some(node);
    }
    var child := t.nodes[node].Child(NthBit(key, t.nodes[node].plen));
    NextDownNode(t.nodes, t.full, node, key[..len]);
    if child.Some? {
      ChildIsTowards(t.nodes, t.full, node, key[..len]);
      var c := t.nodes[child.value];
      assert NodeOk(t.nodes, t.full, child.value);
      if len < c.plen {
        WordDecides(t.nodes, t.full, node, child.value, key, len);
        assert Index(len - 1) == Index(t.nodes[node].plen);
        if SameMasked(WordAt(key, Index(t.nodes[node].plen)), c.key, (len - 1) % WORD) {
          return child;
        }
      }
    }
    return None;
  }

  /** n is the topmost node whose key begins with q, and all such nodes are below it. */
  ghost predicate DownRoot(a: Arena, full: Paths, n: Ptr, q: Bits)
    requires Inv(a, full)
  {
    && n in a && q <= full[n]
    && (a[n].parent.Some? ==> a[n].parent.value in a && a[a[n].parent.value].plen < |q|)
    && forall m | m in a && q <= full[m] :: full[n] <= full[m]
  }

  lemma ExactDown(a: Arena, full: Paths, n: Ptr, q: Bits)
    requires Inv(a, full) && n in a && full[n] == q
    ensures DownRoot(a, full, n, q)
  {
    ParentIn(a, full, n);
  }

  /** Nodes beyond the deepest one on the way are all under its child there. */
  lemma NextDownNode(a: Arena, full: Paths, n: Ptr, q: Bits)
    requires Inv(a, full) && n in a && full[n] < q
    ensures var c := a[n].Child(q[|full[n]|]);
            && (c.None? ==> forall m | m in a :: !(q <= full[m]))
            && (c.Some? ==> c.value in a && a[c.value].parent == Some(n) && a[n].plen < |q|
                            && forall m | m in a && q <= full[m] :: full[c.value] <= full[m])
  {
    ChildIn(a, full, n, q[|full[n]|]);
    forall m | m in a && q <= full[m]
      ensures a[n].Child(q[|full[n]|]).Some? && full[a[n].Child(q[|full[n]|]).value] <= full[m]
    {
      assert full[m][|full[n]|] == q[|full[n]|];
      Descend(a, full, n, m);
    }
  }

  /** Visited exactly once each: the elements whose keys satisfy the predicate. */
  ghost predicate Visits(out: seq<Elem>, contents: map<Elem, Bits>, wanted: Bits -> bool) {
    Distinct(out) && forall e :: e in out <==> e in contents && wanted(contents[e])
  }

  lemma DownRootVisits(t: Btrie, n: Ptr, q: Bits)
    requires t.Valid() && DownRoot(t.nodes, t.full, n, q)
    ensures After(t.nodes, t.full, n, |q|) == []
    ensures Visits(Below(t.nodes, t.full, n), t.Contents(), k => q <= k)
  {
    ParentIn(t.nodes, t.full, n);
    BelowIsDistinct(t.nodes, t.full, t.where, n);
    forall e ensures e in Below(t.nodes, t.full, n) <==> e in t.where && q <= t.full[t.where[e]] {
      BelowIs(t.nodes, t.full, t.where, n, e);
    }
  }

  /** btrie_first_down and btrie_for_each_down (src/btrie.c:432-439, src/btrie.h:135-136) */
  method ForEachDown(t: Btrie, key: Bits, len: nat) returns (out: seq<Elem>)
    requires t.Valid() && KeyBuffer(key, len)
    ensures Visits(out, t.Contents(), k => key[..len] <= k)
  {
    out := [];
    var node := FirstDownNode(t, key, len);
    if node.None? {
      return;
    }
    DownRootVisits(t, node.value, key[..len]);
    ParentIn(t.nodes, t.full, node.value);
    out := AllDown(t, Head(node.value), len);
    assert DownFrom(t.nodes, t.full, Head(node.value), len) == Below(t.nodes, t.full, node.value);
  }

  /** Repeating btrie_next_down until it yields NULL. */
  method AllDown(t: Btrie, first: Cursor, len: nat) returns (out: seq<Elem>)
    requires t.Valid() && CursorOk(t.nodes, first) && len <= t.nodes[first.node].plen
    ensures out == DownFrom(t.nodes, t.full, first, len)
  {
    out := [];
    var c := NextDown(t, first, len);
    ghost var rest := DownFrom(t.nodes, t.full, first, len);
    while c.Some?
      invariant c.Some? ==> c.value.At? && CursorOk(t.nodes, c.value) && len <= t.nodes[c.value.node].plen
      invariant c.Some? ==>
        rest == [t.nodes[c.value.node].elems[c.value.i]] + DownFrom(t.nodes, t.full, c.value, len)
      invariant c.None? ==> rest == []
      invariant out + rest == DownFrom(t.nodes, t.full, first, len)
      decreases |rest|, c.Some?
    {
      out := out + [t.nodes[c.value.node].elems[c.value.i]];
      rest := DownFrom(t.nodes, t.full, c.value, len);
      c := NextDown(t, c.value, len);
    }
  }

  // ---------- up ----------

  /** All elements at n and above it, bottom up. */
  ghost function Above(a: Arena, full: Paths, n: Ptr): seq<Elem>
    requires Inv(a, full) && n in a
    decreases |full[n]|
  {
    ParentIn(a, full, n);
    a[n].elems + if a[n].parent.None? then [] else Above(a, full, a[n].parent.value)
  }

  ghost function AboveParent(a: Arena, full: Paths, n: Ptr): seq<Elem>
    requires Inv(a, full) && n in a
  {
    ParentIn(a, full, n);
    if a[n].parent.None? then [] else Above(a, full, a[n].parent.value)
  }

  ghost function UpFromCursor(a: Arena, full: Paths, c: Cursor): seq<Elem>
    requires Inv(a, full) && CursorOk(a, c)
  {
    Later(a, c) + AboveParent(a, full, c.node)
  }

  lemma UpFromHead(a: Arena, full: Paths, q: Ptr, c: Cursor)
    requires Inv(a, full) && q in a && c == NextElement(a, Head(q))
    ensures CursorOk(a, c) && c.node == q
    ensures c.Head? ==> Above(a, full, q) == AboveParent(a, full, q)
    ensures c.At? ==> Above(a, full, q) == [a[q].elems[c.i]] + UpFromCursor(a, full, c)
  {
    NextElementIs(a, Head(q));
    assert Above(a, full, q) == a[q].elems + AboveParent(a, full, q);
  }

  /** btrie_next_up (src/btrie.c:305-320) */
  method NextUp(t: Btrie, prev: Cursor) returns (next: Option<Cursor>)
    requires t.Valid() && CursorOk(t.nodes, prev)
    ensures next.None? ==> UpFromCursor(t.nodes, t.full, prev) == []
    ensures next.Some? ==>
      && next.value.At? && CursorOk(t.nodes, next.value)
      && UpFromCursor(t.nodes, t.full, prev)
         == [t.nodes[next.value.node].elems[next.value.i]] + UpFromCursor(t.nodes, t.full, next.value)
  {
    var c := NextElement(t.nodes, prev);
    NextElementIs(t.nodes, prev);
    if c.At? {
      return Some(c);
    }
    ghost var rest := UpFromCursor(t.nodes, t.full, prev);
    while true
      invariant CursorOk(t.nodes, c) && c.Head? && rest == AboveParent(t.nodes, t.full, c.node)
      decreases t.nodes[c.node].plen
    {
      ParentIn(t.nodes, t.full, c.node);
      var q := t.nodes[c.node].parent;
      if q.None? {
        return None;
      }
      c := NextElement(t.nodes, Head(q.value));
      UpFromHead(t.nodes, t.full, q.value, c);
      if c.At? {
        return Some(c);
      }
    }
  }

  lemma {:induction false} AboveIs(a: Arena, full: Paths, where: map<Elem, Ptr>, n: Ptr, e: Elem)
    requires Inv(a, full) && Placed(a, where) && n in a
    ensures e in Above(a, full, n) <==> e in where && full[where[e]] <= full[n]
    decreases |full[n]|
  {
    ParentIn(a, full, n);
    if a[n].parent.Some? {
      var q := a[n].parent.value;
      AboveIs(a, full, where, q, e);
      if e in where && full[where[e]] <= full[n] {
        if full[where[e]] == full[n] {
          UniqueNode(a, full, where[e], n);
        } else {
          ParentIsNearest(a, full, n, where[e]);
        }
      }
    } else if e in where && full[where[e]] <= full[n] {
      UniqueNode(a, full, where[e], n);
    }
  }

  lemma {:induction false} AboveIsDistinct(a: Arena, full: Paths, where: map<Elem, Ptr>, n: Ptr)
    requires Inv(a, full) && Placed(a, where) && n in a
    ensures Distinct(Above(a, full, n))
    decreases |full[n]|
  {
    ParentIn(a, full, n);
    if a[n].parent.Some? {
      var q := a[n].parent.value;
      AboveIsDistinct(a, full, where, q);
      forall e | e in a[n].elems ensures e !in Above(a, full, q) {
        AboveIs(a, full, where, q, e);
      }
      DistinctBoth(a[n].elems, Above(a, full, q));
    }
  }

  /** A stored key that is a prefix of q is a prefix of the deepest node on the way to q. */
  lemma DeepestHasAll(t: Btrie, n: Ptr, m: Ptr, q: Bits)
    requires t.Valid() && t.Deepest(n, q) && m in t.nodes && t.full[m] <= q
    ensures t.full[m] <= t.full[n]
  {
    PrefixesOfOneAreComparable(t.full[n], t.full[m], q);
    if t.full[n] < t.full[m] {
      Descend(t.nodes, t.full, n, m);
      assert false;
    }
  }

  /** btrie_first_up and btrie_for_each_up (src/btrie.c:322-325, src/btrie.h:161-162) */
  method ForEachUp(t: Btrie, key: Bits, len: nat) returns (out: seq<Elem>)
    requires t.Valid() && KeyBuffer(key, len)
    ensures Visits(out, t.Contents(), k => k <= key[..len])
  {
    var n := t.Lookup(key, len);
    out := [];
    var c := NextUp(t, Head(n));
    ghost var rest := Above(t.nodes, t.full, n);
    assert rest == UpFromCursor(t.nodes, t.full, Head(n));
    while c.Some?
      invariant c.Some? ==> c.value.At? && CursorOk(t.nodes, c.value)
      invariant c.Some? ==>
        rest == [t.nodes[c.value.node].elems[c.value.i]] + UpFromCursor(t.nodes, t.full, c.value)
      invariant c.None? ==> rest == []
      invariant out + rest == Above(t.nodes, t.full, n)
      decreases |rest|, c.Some?
    {
      out := out + [t.nodes[c.value.node].elems[c.value.i]];
      rest := UpFromCursor(t.nodes, t.full, c.value);
      c := NextUp(t, c.value);
    }
    AboveIsDistinct(t.nodes, t.full, t.where, n);
    assert out == Above(t.nodes, t.full, n);
    forall e ensures e in out <==> e in t.where && t.full[t.where[e]] <= key[..len] {
      AboveIs(t.nodes, t.full, t.where, n, e);
      if e in t.where && t.full[t.where[e]] <= key[..len] {
        DeepestHasAll(t, n, t.where[e], key[..len]);
      }
    }
  }

  // ---------- updown ----------

  /** What there is at n and further along the way to q, then below q. */
  ghost function Along(a: Arena, full: Paths, n: Ptr, q: Bits): seq<Elem>
    requires Inv(a, full) && n in a && full[n] <= q
    decreases MAX_PLEN - |full[n]|, 0, 1
  {
    if full[n] == q then Below(a, full, n) else a[n].elems + AlongChild(a, full, n, q)
  }

  ghost function AlongChild(a: Arena, full: Paths, n: Ptr, q: Bits): seq<Elem>
    requires Inv(a, full) && n in a && full[n] < q
    decreases MAX_PLEN - |full[n]|, 0, 0
  {
    var b := q[|full[n]|];
    ChildIn(a, full, n, b);
    if a[n].Child(b).None? then []
    else
      var c := a[n].Child(b).value;
      if q <= full[c] then Below(a, full, c) else if full[c] <= q then Along(a, full, c, q) else []
  }

  ghost predicate UpdownCursor(a: Arena, full: Paths, c: Cursor, q: Bits)
    requires Inv(a, full)
  {
    && CursorOk(a, c) && |full[c.node]| == a[c.node].plen
    && (|full[c.node]| < |q| ==> full[c.node] < q)
  }

  ghost function UpdownFrom(a: Arena, full: Paths, c: Cursor, q: Bits): seq<Elem>
    requires Inv(a, full) && UpdownCursor(a, full, c, q)
  {
    if |q| <= |full[c.node]| then DownFrom(a, full, c, |q|)
    else Later(a, c) + AlongChild(a, full, c.node, q)
  }

  /** The way down ends in a subtree: entering it is all that is left. */
  lemma EnterBelow(a: Arena, full: Paths, n: Ptr, c: Ptr, q: Bits)
    requires Inv(a, full) && n in a && full[n] < q && a[n].Child(q[|full[n]|]) == Some(c) && c in a && q <= full[c]
    ensures UpdownCursor(a, full, Head(c), q) && DownFrom(a, full, Head(c), |q|) == AlongChild(a, full, n, q)
  {
    ChildIn(a, full, n, q[|full[n]|]);
    ParentIn(a, full, c);
    ParentIn(a, full, n);
    assert After(a, full, c, |q|) == [];
    assert DownFrom(a, full, Head(c), |q|) == Below(a, full, c);
  }

  /** Or it goes on. */
  lemma EnterAlong(a: Arena, full: Paths, n: Ptr, c: Ptr, q: Bits)
    requires Inv(a, full) && n in a && full[n] < q && a[n].Child(q[|full[n]|]) == Some(c) && c in a && full[c] < q
    ensures UpdownCursor(a, full, Head(c), q) && UpdownFrom(a, full, Head(c), q) == AlongChild(a, full, n, q)
    ensures a[n].plen < a[c].plen <= MAX_PLEN
  {
    ChildIn(a, full, n, q[|full[n]|]);
    ParentIn(a, full, c);
    ChildIn(a, full, c, false);
    assert !(q <= full[c]);
  }

  /** The test at a node on the way (src/btrie.c:467-480): one masked word decides. */
  lemma WayTest(a: Arena, full: Paths, n: Ptr, c: Ptr, key: Bits, len: nat)
    requires Inv(a, full) && KeyBuffer(key, len) && n in a && full[n] < key[..len]
    requires a[n].Child(key[|full[n]|]) == Some(c)
    ensures c in a && a[c].plen > 0 && |a[c].key| == WORD && |full[c]| == a[c].plen
    ensures var m := if len <= a[c].plen then len else a[c].plen;
            && WORD * Index(m - 1) + WORD <= |key| && m > 0
            && (SameMasked(WordAt(key, Index(m - 1)), a[c].key, (m - 1) % WORD) <==>
                  if len <= a[c].plen then key[..len] <= full[c] else full[c] <= key[..len])
  {
    ChildIn(a, full, n, key[|full[n]|]);
    RootIsShort(a, full, c);
    EdgeIs(a, full, n, c);
    var m := if len <= a[c].plen then len else a[c].plen;
    WordDecides(a, full, n, c, key, m);
    assert key[..len][..m] == key[..m];
  }

  /** The iteration stands at next, and rest is what it yields from there on. */
  ghost predicate Yields(a: Arena, full: Paths, next: Option<Cursor>, q: Bits, rest: seq<Elem>)
    requires Inv(a, full)
  {
    match next
    case None => rest == []
    case Some(c) =>
      && c.At? && UpdownCursor(a, full, c, q)
      && rest == [a[c.node].elems[c.i]] + UpdownFrom(a, full, c, q)
  }

  /** btrie_next_down called from btrie_next_updown */
  method IntoDown(t: Btrie, prev: Cursor, ghost q: Bits, len: nat) returns (next: Option<Cursor>)
    requires t.Valid() && UpdownCursor(t.nodes, t.full, prev, q) && len == |q| <= t.nodes[prev.node].plen
    ensures Yields(t.nodes, t.full, next, q, UpdownFrom(t.nodes, t.full, prev, q))
  {
    next := NextDown(t, prev, len);
    if next.Some? {
      ParentIn(t.nodes, t.full, next.value.node);
    }
  }

  /** One node on the way (src/btrie.c:453-480): yield, stop, or go on at its child. */
  method WayStep(t: Btrie, c: Cursor, key: Bits, len: nat) returns (next: Option<Cursor>, onward: Option<Cursor>)
    requires t.Valid() && KeyBuffer(key, len)
    requires UpdownCursor(t.nodes, t.full, c, key[..len]) && t.nodes[c.node].plen < len
    ensures onward.None? ==> Yields(t.nodes, t.full, next, key[..len], UpdownFrom(t.nodes, t.full, c, key[..len]))
    ensures onward.Some? ==>
      && UpdownCursor(t.nodes, t.full, onward.value, key[..len])
      && t.nodes[c.node].plen < t.nodes[onward.value.node].plen < len
      && UpdownFrom(t.nodes, t.full, onward.value, key[..len]) == UpdownFrom(t.nodes, t.full, c, key[..len])
  {
    ghost var q := key[..len];
    NextElementIs(t.nodes, c);
    var e := NextElement(t.nodes, c);
    if e.At? {
      return Some(e), None;
    }
    assert UpdownFrom(t.nodes, t.full, c, q) == AlongChild(t.nodes, t.full, c.node, q);
    next, onward := WayChild(t, c.node, key, len);
  }

  /** The child on the way to the key, once the elements of n are done */
  method WayChild(t: Btrie, n: Ptr, key: Bits, len: nat) returns (next: Option<Cursor>, onward: Option<Cursor>)
    requires t.Valid() && KeyBuffer(key, len) && n in t.nodes && t.full[n] < key[..len]
    ensures onward.None? ==> Yields(t.nodes, t.full, next, key[..len], AlongChild(t.nodes, t.full, n, key[..len]))
    ensures onward.Some? ==>
      && UpdownCursor(t.nodes, t.full, onward.value, key[..len])
      && t.nodes[n].plen < t.nodes[onward.value.node].plen < len
      && UpdownFrom(t.nodes, t.full, onward.value, key[..len]) == AlongChild(t.nodes, t.full, n, key[..len])
  {
    ghost var q := key[..len];
    RootIsShort(t.nodes, t.full, n);
    var child := t.nodes[n].Child(NthBit(key, t.nodes[n].plen));
    if child.None? {
      return None, None;
    }
    WayTest(t.nodes, t.full, n, child.value, key, len);
    var d := t.nodes[child.value];
    var m := if len <= d.plen then len else d.plen;
    if !SameMasked(WordAt(key, Index(m - 1)), d.key, (m - 1) % WORD) {
      WayEnds(t.nodes, t.full, n, child.value, q);
      return None, None;
    }
    if d.plen >= len {
      EnterBelow(t.nodes, t.full, n, child.value, q);
      next := IntoDown(t, Head(child.value), q, len);
      return next, None;
    }
    EnterAlong(t.nodes, t.full, n, child.value, q);
    return None, Some(Head(child.value));
  }

  lemma WayEnds(a: Arena, full: Paths, n: Ptr, c: Ptr, q: Bits)
    requires Inv(a, full) && n in a && full[n] < q && a[n].Child(q[|full[n]|]) == Some(c) && c in a
    requires if |q| <= |full[c]| then !(q <= full[c]) else !(full[c] <= q)
    ensures AlongChild(a, full, n, q) == []
  {
  }

  /** btrie_next_updown (src/btrie.c:441-481) */
  method NextUpdown(t: Btrie, prev: Cursor, key: Bits, len: nat) returns (next: Option<Cursor>)
    requires t.Valid() && KeyBuffer(key, len) && UpdownCursor(t.nodes, t.full, prev, key[..len])
    ensures Yields(t.nodes, t.full, next, key[..len], UpdownFrom(t.nodes, t.full, prev, key[..len]))
  {
    if t.nodes[prev.node].plen >= len {
      next := IntoDown(t, prev, key[..len], len);
      return;
    }
    var c := prev;
    while true
      invariant UpdownCursor(t.nodes, t.full, c, key[..len]) && t.nodes[c.node].plen < len
      invariant UpdownFrom(t.nodes, t.full, c, key[..len]) == UpdownFrom(t.nodes, t.full, prev, key[..len])
      decreases len - t.nodes[c.node].plen
    {
      var onward;
      next, onward := WayStep(t, c, key, len);
      if onward.None? {
        return;
      }
      c := onward.value;
    }
  }

  // ---------- what updown visits, and in which order ----------

  lemma {:induction false} AlongIs(a: Arena, full: Paths, where: map<Elem, Ptr>, n: Ptr, q: Bits, e: Elem)
    requires Inv(a, full) && Placed(a, where) && n in a && full[n] <= q
    ensures e in Along(a, full, n, q) <==> e in where && full[n] <= full[where[e]] && Comparable(full[where[e]], q)
    decreases MAX_PLEN - |full[n]|, 1
  {
    if full[n] == q {
      BelowIs(a, full, where, n, e);
    } else {
      AlongChildIs(a, full, where, n, q, e);
      if e in where && full[n] <= full[where[e]] && Comparable(full[where[e]], q) {
        if full[n] == full[where[e]] {
          UniqueNode(a, full, n, where[e]);
        }
      }
    }
  }

  lemma {:induction false} AlongChildIs(a: Arena, full: Paths, where: map<Elem, Ptr>, n: Ptr, q: Bits, e: Elem)
    requires Inv(a, full) && Placed(a, where) && n in a && full[n] < q
    ensures e in AlongChild(a, full, n, q) <==>
      e in where && full[n] < full[where[e]] && Comparable(full[where[e]], q)
    decreases MAX_PLEN - |full[n]|, 0
  {
    var b := q[|full[n]|];
    ChildIn(a, full, n, b);
    if e in where && full[n] < full[where[e]] && Comparable(full[where[e]], q) {
      assert full[where[e]][|full[n]|] == b;
      Descend(a, full, n, where[e]);
      var c := a[n].Child(b).value;
      if q <= full[where[e]] {
        PrefixesOfOneAreComparable(full[c], q, full[where[e]]);
      }
    }
    if a[n].Child(b).Some? {
      var c := a[n].Child(b).value;
      if q <= full[c] {
        BelowIs(a, full, where, c, e);
      } else if full[c] <= q {
        AlongIs(a, full, where, c, q, e);
      }
    }
  }

  lemma {:induction false} AlongIsDistinct(a: Arena, full: Paths, where: map<Elem, Ptr>, n: Ptr, q: Bits)
    requires Inv(a, full) && Placed(a, where) && n in a && full[n] <= q
    ensures Distinct(Along(a, full, n, q))
    decreases MAX_PLEN - |full[n]|
  {
    if full[n] == q {
      BelowIsDistinct(a, full, where, n);
    } else {
      var b := q[|full[n]|];
      ChildIn(a, full, n, b);
      if a[n].Child(b).Some? {
        var c := a[n].Child(b).value;
        if q <= full[c] {
          BelowIsDistinct(a, full, where, c);
        } else if full[c] <= q {
          AlongIsDistinct(a, full, where, c, q);
        }
      }
      forall e | e in a[n].elems ensures e !in AlongChild(a, full, n, q) {
        AlongChildIs(a, full, where, n, q, e);
      }
      DistinctBoth(a[n].elems, AlongChild(a, full, n, q));
    }
  }

  /** Keys shorter than q come first, shortest first. */
  ghost predicate ShorterFirst(out: seq<Elem>, where: map<Elem, Ptr>, full: Paths, len: nat) {
    forall i, j | 0 <= i < j < |out| && out[i] in where && out[j] in where
                  && where[out[i]] in full && where[out[j]] in full ::
      |full[where[out[j]]]| < len ==> |full[where[out[i]]]| <= |full[where[out[j]]]|
  }

  lemma BelowIsLong(a: Arena, full: Paths, where: map<Elem, Ptr>, n: Ptr, len: nat)
    requires Inv(a, full) && Placed(a, where) && n in a && len <= |full[n]|
    ensures ShorterFirst(Below(a, full, n), where, full, len)
  {
    forall e | e in Below(a, full, n) ensures e in where && len <= |full[where[e]]| {
      BelowIs(a, full, where, n, e);
    }
  }

  lemma {:induction false} AlongInOrder(a: Arena, full: Paths, where: map<Elem, Ptr>, n: Ptr, q: Bits)
    requires Inv(a, full) && Placed(a, where) && n in a && full[n] <= q
    ensures ShorterFirst(Along(a, full, n, q), where, full, |q|)
    decreases MAX_PLEN - |full[n]|
  {
    if full[n] == q {
      BelowIsLong(a, full, where, n, |q|);
    } else {
      var b := q[|full[n]|];
      ChildIn(a, full, n, b);
      var rest := AlongChild(a, full, n, q);
      if a[n].Child(b).Some? {
        var c := a[n].Child(b).value;
        if q <= full[c] {
          BelowIsLong(a, full, where, c, |q|);
        } else if full[c] <= q {
          AlongInOrder(a, full, where, c, q);
        }
      }
      forall e | e in rest ensures e in where && |full[n]| < |full[where[e]]| {
        AlongChildIs(a, full, where, n, q, e);
      }
      ShorterBefore(a[n].elems, rest, where, full, |full[n]|, |q|);
    }
  }

  lemma ShorterBefore(s: seq<Elem>, t: seq<Elem>, where: map<Elem, Ptr>, full: Paths, m: nat, len: nat)
    requires forall e | e in s :: e in where && where[e] in full && |full[where[e]]| == m
    requires forall e | e in t :: e in where && where[e] in full && m < |full[where[e]]|
    requires ShorterFirst(t, where, full, len)
    ensures ShorterFirst(s + t, where, full, len)
  {
    var out := s + t;
    forall i, j | 0 <= i < j < |out| && out[i] in where && out[j] in where
                  && where[out[i]] in full && where[out[j]] in full && |full[where[out[j]]]| < len
      ensures |full[where[out[i]]]| <= |full[where[out[j]]]|
    {
      if i < |s| {
        assert out[i] in s;
        assert out[j] in s || out[j] in t;
      } else {
        assert out[i] == t[i - |s|] && out[j] == t[j - |s|];
      }
    }
  }

  /** btrie_first_updown and btrie_for_each_updown (src/btrie.c:483-486, src/btrie.h:176-177) */
  method ForEachUpdown(t: Btrie, key: Bits, len: nat) returns (out: seq<Elem>)
    requires t.Valid() && KeyBuffer(key, len)
    ensures Visits(out, t.Contents(), k => Comparable(k, key[..len]))
    ensures forall i, j | 0 <= i < j < |out| ::
      var ki, kj := t.Contents()[out[i]], t.Contents()[out[j]];
      |kj| < len ==> |ki| <= |kj|
  {
    ghost var q := key[..len];
    ParentIn(t.nodes, t.full, ROOT);
    assert t.full[ROOT] == [] by { assert NodeOk(t.nodes, t.full, ROOT); }
    out := AllUpdown(t, key, len);
    AlongIsDistinct(t.nodes, t.full, t.where, ROOT, q);
    AlongInOrder(t.nodes, t.full, t.where, ROOT, q);
    forall e ensures e in out <==> e in t.where && Comparable(t.full[t.where[e]], q) {
      AlongIs(t.nodes, t.full, t.where, ROOT, q, e);
    }
  }

  method AllUpdown(t: Btrie, key: Bits, len: nat) returns (out: seq<Elem>)
    requires t.Valid() && KeyBuffer(key, len)
    ensures t.full[ROOT] == [] && out == Along(t.nodes, t.full, ROOT, key[..len])
  {
    RootAlong(t.nodes, t.full, key[..len]);
    var c := NextUpdown(t, Head(ROOT), key, len);
    out := WalkUpdown(t, c, key, len, UpdownFrom(t.nodes, t.full, Head(ROOT), key[..len]));
  }

  method WalkUpdown(t: Btrie, first: Option<Cursor>, key: Bits, len: nat, ghost all: seq<Elem>) returns (out: seq<Elem>)
    requires KeyBuffer(key, len) && Yielding(t, first, key[..len], all)
    ensures out == all
  {
    out := [];
    var c := first;
    ghost var rest := all;
    while c.Some?
      invariant Yielding(t, c, key[..len], rest) && out + rest == all
      decreases |rest|
    {
      var e;
      ghost var was := rest;
      e, c, rest := VisitNextUpdown(t, c.value, key, len, rest);
      assert out + was == out + [e] + rest;
      out := out + [e];
    }
    assert out + [] == out;
  }

  ghost predicate Yielding(t: Btrie, c: Option<Cursor>, q: Bits, rest: seq<Elem>)
    reads t
  {
    t.Valid() && Yields(t.nodes, t.full, c, q, rest)
  }

  method VisitNextUpdown(t: Btrie, c: Cursor, key: Bits, len: nat, ghost rest: seq<Elem>)
    returns (e: Elem, next: Option<Cursor>, ghost rest': seq<Elem>)
    requires KeyBuffer(key, len) && Yielding(t, Some(c), key[..len], rest)
    ensures rest == [e] + rest' && Yielding(t, next, key[..len], rest')
  {
    assert rest[1..] == UpdownFrom(t.nodes, t.full, c, key[..len]);
    e := t.nodes[c.node].elems[c.i];
    next := NextUpdown(t, c, key, len);
    rest' := rest[1..];
  }

  lemma RootAlong(a: Arena, full: Paths, q: Bits)
    requires Inv(a, full)
    ensures full[ROOT] == [] && UpdownCursor(a, full, Head(ROOT), q)
    ensures UpdownFrom(a, full, Head(ROOT), q) == Along(a, full, ROOT, q)
  {
    assert NodeOk(a, full, ROOT);
    if q == [] {
      assert After(a, full, ROOT, 0) == [];
    }
  }
}
