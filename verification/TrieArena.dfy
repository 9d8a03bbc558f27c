/**
  The memory of the binary trie of src/btrie.c: nodes that point at each other,
  kept in a map from addresses to node records.

  The invariant is local: it speaks about one node, its parent and its children.
  The global facts the algorithms rest on (a key names at most one node, the way
  down to a longer key passes through the right child, every subtree holds an
  element) are consequences, proved here.
 */
module TrieArena {
  import opened Wrappers
  import opened FreeSpace

  type Ptr = nat
  type Elem = nat

  const ROOT: Ptr := 0

  // BTRIE_KEY (src/btrie.h:50); index() and remain() are / and % by it
  const WORD := 32

  /** struct btrie (src/btrie.h:226-232).  `key` is one 32-bit word, most
      significant bit first; only the bits up to `plen` are meaningful.
      `elems` is the circular list whose head is the node itself. */
  datatype Node = Node(parent: Option<Ptr>, child0: Option<Ptr>, child1: Option<Ptr>,
                       plen: nat, key: Bits, elems: seq<Elem>)
  {
    function Child(b: bool): Option<Ptr> {
      if b then child1 else child0
    }

    function WithChild(b: bool, c: Option<Ptr>): Node {
      if b then this.(child1 := c) else this.(child0 := c)
    }
  }

  type Arena = map<Ptr, Node>

  /** The whole key of each node, from the root down to it. */
  type Paths = map<Ptr, Bits>

  function Index(i: nat): nat {
    i / WORD
  }

  /** Where the word holding the last bit of a key of length plen starts. */
  function WordStart(plen: nat): nat {
    if plen == 0 then 0 else Index(plen - 1) * WORD
  }

  // ---------- the invariant ----------

  /** `bits` continues `from` inside one word, whose value is `word` up to the last bit. */
  ghost predicate FitsWord(from: Bits, bits: Bits, word: Bits) {
    && from < bits && |bits| <= MAX_PLEN
    && Index(|bits| - 1) == Index(|from|)
    && |word| == WORD
    && word[..|bits| - WordStart(|bits|)] == bits[WordStart(|bits|)..]
  }

  ghost predicate LinkedUp(a: Arena, full: Paths, n: Ptr)
    requires n in a && n in full
  {
    a[n].parent.Some?
    && var q := a[n].parent.value;
    && q in a && q in full
    && |full[q]| == a[q].plen
    && |full[n]| == a[n].plen
    && FitsWord(full[q], full[n], a[n].key)
    && a[q].Child(full[n][|full[q]|]) == Some(n)
  }

  ghost predicate LinkedDown(a: Arena, full: Paths, n: Ptr, b: bool)
    requires n in a && n in full
  {
    a[n].Child(b).Some? ==>
      var c := a[n].Child(b).value;
      && c in a && c in full && c != ROOT
      && a[c].parent == Some(n)
      && |full[n]| < |full[c]|
      && full[c][|full[n]|] == b
  }

  ghost predicate NodeOk(a: Arena, full: Paths, n: Ptr)
    requires n in a && n in full
  {
    && |full[n]| == a[n].plen <= MAX_PLEN && |a[n].key| == WORD
    && (n == ROOT ==> a[n].parent == None && a[n].plen == 0)
    && (n != ROOT ==> LinkedUp(a, full, n))
    && LinkedDown(a, full, n, false)
    && LinkedDown(a, full, n, true)
  }

  ghost predicate Inv(a: Arena, full: Paths) {
    && a.Keys == full.Keys
    && ROOT in a
    && forall n {:trigger NodeOk(a, full, n)} :: n in a ==> NodeOk(a, full, n)
  }

  /** A node other than the root is there for a reason: it holds elements, it
      branches, or it ends a 32-bit word on the way to something below. */
  predicate CanonicalAt(a: Arena, n: Ptr)
    requires n in a
  {
    n == ROOT || a[n].elems != []
    || (a[n].child0.Some? && a[n].child1.Some?)
    || (a[n].plen % WORD == 0 && (a[n].child0.Some? || a[n].child1.Some?))
  }

  ghost predicate Canonical(a: Arena) {
    forall n {:trigger CanonicalAt(a, n)} :: n in a ==> CanonicalAt(a, n)
  }

  ghost predicate CanonicalExcept(a: Arena, x: Ptr) {
    forall n {:trigger CanonicalAt(a, n)} :: n in a && n != x ==> CanonicalAt(a, n)
  }

  ghost function StoredKeys(a: Arena, full: Paths): set<Bits>
    requires a.Keys == full.Keys
  {
    set n | n in a && a[n].elems != [] :: full[n]
  }

  // ---------- consequences ----------

  lemma {:induction false} UniqueNode(a: Arena, full: Paths, n: Ptr, m: Ptr)
    requires Inv(a, full) && n in a && m in a && full[n] == full[m]
    ensures n == m
    decreases |full[n]| + |full[m]|
  {
    assert NodeOk(a, full, n) && NodeOk(a, full, m);
    if n != m {
      var x, y := a[n].parent.value, a[m].parent.value;
      PrefixesOfOneAreComparable(full[x], full[y], full[n]);
      if full[x] == full[y] {
        UniqueNode(a, full, x, y);
      } else if full[x] < full[y] {
        Descend(a, full, x, y);
      } else {
        Descend(a, full, y, x);
      }
      assert false;
    }
  }

  /** From n towards any deeper node m there is a child, and it is on the way. */
  lemma {:induction false} Descend(a: Arena, full: Paths, n: Ptr, m: Ptr)
    requires Inv(a, full) && n in a && m in a && full[n] < full[m]
    ensures var c := a[n].Child(full[m][|full[n]|]);
            c.Some? && c.value in a && full[c.value] <= full[m]
    decreases |full[n]| + |full[m]|
  {
    assert NodeOk(a, full, n) && NodeOk(a, full, m);
    var q := a[m].parent.value;
    assert NodeOk(a, full, q);
    if q != n {
      PrefixesOfOneAreComparable(full[q], full[n], full[m]);
      if full[n] == full[q] {
        UniqueNode(a, full, n, q);
        assert false;
      } else if full[n] < full[q] {
        Descend(a, full, n, q);
      } else {
        Descend(a, full, q, n);
        assert false;
      }
    }
  }

  /** No node lies strictly between a node and its parent. */
  lemma ParentIsNearest(a: Arena, full: Paths, n: Ptr, m: Ptr)
    requires Inv(a, full) && n in a && m in a && full[m] < full[n]
    ensures a[n].parent.Some? && a[n].parent.value in a
    ensures full[m] <= full[a[n].parent.value]
  {
    assert NodeOk(a, full, n) && NodeOk(a, full, m);
    var q := a[n].parent.value;
    PrefixesOfOneAreComparable(full[q], full[m], full[n]);
    if full[q] < full[m] {
      Descend(a, full, q, m);
      assert false;
    }
  }

  /** In a canonical trie there is an element at or below every node but the root. */
  lemma {:induction false} ElementBelow(a: Arena, full: Paths, n: Ptr) returns (m: Ptr)
    requires Inv(a, full) && Canonical(a) && n in a
    requires n != ROOT || a[n].child0.Some? || a[n].child1.Some? || a[n].elems != []
    ensures m in a && full[n] <= full[m] && a[m].elems != []
    decreases MAX_PLEN - |full[n]|
  {
    assert NodeOk(a, full, n) && CanonicalAt(a, n);
    if a[n].elems != [] {
      m := n;
    } else {
      var b := a[n].child1.Some?;
      var c := a[n].Child(b).value;
      assert LinkedDown(a, full, n, b);
      assert NodeOk(a, full, c);
      m := ElementBelow(a, full, c);
    }
  }

  lemma StoredKeysBounded(a: Arena, full: Paths)
    requires Inv(a, full)
    ensures Bounded(StoredKeys(a, full))
  {
    forall k | k in StoredKeys(a, full) ensures |k| <= MAX_PLEN {
      var n :| n in a && a[n].elems != [] && full[n] == k;
      assert NodeOk(a, full, n);
    }
  }

  // ---------- the four ways the arena changes ----------

  function AttachLeaf(a: Arena, p: Ptr, b: bool, c: Ptr, plen: nat, word: Bits): Arena
    requires p in a
  {
    a[p := a[p].WithChild(b, Some(c))][c := Node(Some(p), None, None, plen, word, [])]
  }

  /** Everything below n is as n expects it. */
  ghost predicate ChildrenOk(a: Arena, full: Paths, n: Ptr)
    requires n in a && n in full
  {
    LinkedDown(a, full, n, false) && LinkedDown(a, full, n, true)
  }

  /** A node is still fine if its own key and its parent did not change and the
      parent still points at it. */
  lemma SameParent(a: Arena, full: Paths, a': Arena, full': Paths, n: Ptr)
    requires n in a && n in full && NodeOk(a, full, n)
    requires n in a' && n in full' && full'[n] == full[n]
    requires a'[n].plen == a[n].plen && a'[n].key == a[n].key && a'[n].parent == a[n].parent
    requires n != ROOT ==>
      var q := a[n].parent.value;
      && q in a' && q in full' && full'[q] == full[q] && a'[q].plen == a[q].plen
      && a'[q].Child(full[n][|full[q]|]) == Some(n)
    requires ChildrenOk(a', full', n)
    ensures NodeOk(a', full', n)
  {
  }

  /** The same when n got a new parent within the same word. */
  lemma NewParent(a: Arena, full: Paths, a': Arena, full': Paths, n: Ptr, q: Ptr)
    requires n in a && n in full && NodeOk(a, full, n) && n != ROOT
    requires n in a' && n in full' && full'[n] == full[n]
    requires a'[n].plen == a[n].plen && a'[n].key == a[n].key && a'[n].parent == Some(q)
    requires q in a' && q in full' && |full'[q]| == a'[q].plen
    requires full'[q] < full[n] && Index(|full'[q]|) == Index(|full[n]| - 1)
    requires a'[q].Child(full[n][|full'[q]|]) == Some(n)
    requires ChildrenOk(a', full', n)
    ensures NodeOk(a', full', n)
  {
  }

  lemma AttachLeafAt(a: Arena, full: Paths, a': Arena, full': Paths, p: Ptr, c: Ptr, bits: Bits, word: Bits, n: Ptr)
    requires Inv(a, full) && p in a && c !in a && n in a
    requires FitsWord(full[p], bits, word)
    requires a[p].Child(bits[|full[p]|]) == None
    requires a' == AttachLeaf(a, p, bits[|full[p]|], c, |bits|, word) && full' == full[c := bits]
    ensures NodeOk(a', full', n)
  {
    assert NodeOk(a, full, p) && NodeOk(a, full, n);
    assert LinkedDown(a, full, n, false) && LinkedDown(a', full', n, false);
    assert LinkedDown(a, full, n, true) && LinkedDown(a', full', n, true);
    SameParent(a, full, a', full', n);
  }

  lemma AttachLeafKeepsInv(a: Arena, full: Paths, a': Arena, full': Paths, p: Ptr, c: Ptr, bits: Bits, word: Bits)
    requires Inv(a, full) && p in a && c !in a
    requires FitsWord(full[p], bits, word)
    requires a[p].Child(bits[|full[p]|]) == None
    requires a' == AttachLeaf(a, p, bits[|full[p]|], c, |bits|, word) && full' == full[c := bits]
    ensures Inv(a', full')
  {
    assert NodeOk(a, full, p);
    forall n | n in a' ensures NodeOk(a', full', n) {
      if n != c {
        AttachLeafAt(a, full, a', full', p, c, bits, word, n);
      } else {
        assert LinkedUp(a', full', c);
      }
    }
  }

  lemma SplitNeighbours(a: Arena, full: Paths, q: Ptr, cur: Ptr, bits: Bits, word: Bits)
    requires Inv(a, full) && q in a && cur in a
    requires a[cur].parent == Some(q) && cur != ROOT
    requires FitsWord(full[q], bits, word) && bits < full[cur]
    ensures q != cur && full[q] < full[cur]
    ensures full[cur][|full[q]|] == bits[|full[q]|]
    ensures a[q].Child(bits[|full[q]|]) == Some(cur)
    ensures Index(|bits|) == Index(|full[cur]| - 1) && |bits| % WORD != 0
  {
    assert NodeOk(a, full, cur);
  }

  /** a' is a with m, for the key bits, put between cur and its parent q. */
  ghost predicate IsSplit(a: Arena, full: Paths, a': Arena, full': Paths,
                          q: Ptr, cur: Ptr, m: Ptr, bits: Bits, word: Bits)
    requires Inv(a, full)
  {
    && q in a && cur in a && m !in a && q != cur && cur != ROOT && a[cur].parent == Some(q)
    && FitsWord(full[q], bits, word) && bits < full[cur]
    && a[q].Child(bits[|full[q]|]) == Some(cur)
    && Index(|bits|) == Index(|full[cur]| - 1)
    && full' == full[m := bits]
    && a'.Keys == a.Keys + {m}
    && a'[q] == a[q].WithChild(bits[|full[q]|], Some(m))
    && a'[cur] == a[cur].(parent := Some(m))
    && a'[m] == Node(Some(q), None, None, |bits|, word, []).WithChild(full[cur][|bits|], Some(cur))
    && (forall x | x in a && x != q && x != cur :: a'[x] == a[x])
  }

  lemma SplitEdgeOther(a: Arena, full: Paths, a': Arena, full': Paths,
                       q: Ptr, cur: Ptr, m: Ptr, bits: Bits, word: Bits, n: Ptr)
    requires Inv(a, full) && IsSplit(a, full, a', full', q, cur, m, bits, word)
    requires n in a && n != cur
    ensures NodeOk(a', full', n)
  {
    assert NodeOk(a, full, n);
    assert LinkedDown(a, full, n, false) && LinkedDown(a', full', n, false);
    assert LinkedDown(a, full, n, true) && LinkedDown(a', full', n, true);
    SameParent(a, full, a', full', n);
  }

  lemma SplitEdgeCurrent(a: Arena, full: Paths, a': Arena, full': Paths,
                         q: Ptr, cur: Ptr, m: Ptr, bits: Bits, word: Bits)
    requires Inv(a, full) && IsSplit(a, full, a', full', q, cur, m, bits, word)
    ensures NodeOk(a', full', cur)
  {
    assert NodeOk(a, full, cur);
    assert LinkedDown(a, full, cur, false) && LinkedDown(a', full', cur, false);
    assert LinkedDown(a, full, cur, true) && LinkedDown(a', full', cur, true);
    NewParent(a, full, a', full', cur, m);
  }

  lemma SplitEdgeNew(a: Arena, full: Paths, a': Arena, full': Paths,
                     q: Ptr, cur: Ptr, m: Ptr, bits: Bits, word: Bits)
    requires Inv(a, full) && IsSplit(a, full, a', full', q, cur, m, bits, word)
    ensures NodeOk(a', full', m)
  {
    assert NodeOk(a, full, q);
    assert LinkedUp(a', full', m);
  }

  lemma SplitEdgeAt(a: Arena, full: Paths, a': Arena, full': Paths,
                    q: Ptr, cur: Ptr, m: Ptr, bits: Bits, word: Bits, n: Ptr)
    requires Inv(a, full) && IsSplit(a, full, a', full', q, cur, m, bits, word) && n in a'
    ensures NodeOk(a', full', n)
  {
    if n == m {
      SplitEdgeNew(a, full, a', full', q, cur, m, bits, word);
    } else if n == cur {
      SplitEdgeCurrent(a, full, a', full', q, cur, m, bits, word);
    } else {
      SplitEdgeOther(a, full, a', full', q, cur, m, bits, word, n);
    }
  }

  lemma SplitEdgeKeepsInv(a: Arena, full: Paths, a': Arena, full': Paths,
                          q: Ptr, cur: Ptr, m: Ptr, bits: Bits, word: Bits)
    requires Inv(a, full) && IsSplit(a, full, a', full', q, cur, m, bits, word)
    ensures Inv(a', full')
  {
    forall n | n in a' {
      SplitEdgeAt(a, full, a', full', q, cur, m, bits, word, n);
    }
  }

  lemma ElemsAt(a: Arena, full: Paths, a': Arena, n: Ptr, es: seq<Elem>, x: Ptr)
    requires Inv(a, full) && n in a && x in a && a' == a[n := a[n].(elems := es)]
    ensures NodeOk(a', full, x)
  {
    assert NodeOk(a, full, x);
    assert LinkedDown(a, full, x, false) && LinkedDown(a', full, x, false);
    assert LinkedDown(a, full, x, true) && LinkedDown(a', full, x, true);
    SameParent(a, full, a', full, x);
  }

  lemma ElemsKeepInv(a: Arena, full: Paths, a': Arena, n: Ptr, es: seq<Elem>)
    requires Inv(a, full) && n in a && a' == a[n := a[n].(elems := es)]
    ensures Inv(a', full)
  {
    forall x | x in a' {
      ElemsAt(a, full, a', n, es, x);
    }
  }

  lemma ElemsKeepCanonical(a: Arena, a': Arena, n: Ptr, es: seq<Elem>)
    requires n in a && a' == a[n := a[n].(elems := es)] && CanonicalExcept(a, n)
    ensures CanonicalExcept(a', n)
    ensures es != [] ==> Canonical(a')
  {
    forall x | x in a' && (x != n || es != []) ensures CanonicalAt(a', x) {
      assert x != n ==> CanonicalAt(a, x);
    }
  }

  /** The child that takes n's place when n goes: the left one if there is one. */
  function Heir(a: Arena, n: Ptr): Option<Ptr>
    requires n in a
  {
    if a[n].child0.Some? then a[n].child0 else a[n].child1
  }

  /** Free n and hand its place under p to its only child, if any. */
  function Bypass(a: Arena, n: Ptr): Arena
    requires n in a && a[n].parent.Some? && a[n].parent.value in a
    requires Heir(a, n).Some? ==> Heir(a, n).value in a
  {
    var p, o := a[n].parent.value, Heir(a, n);
    var a1 := a[p := a[p].WithChild(a[p].child0 != Some(n), o)];
    if o.Some? && o.value in a1 then a1[o.value := a1[o.value].(parent := Some(p))] - {n} else a1 - {n}
  }

  predicate Removable(a: Arena, n: Ptr)
    requires n in a
  {
    && a[n].elems == [] && a[n].parent.Some?
    && (a[n].child0.None? || a[n].child1.None?)
    && (Heir(a, n).Some? ==> a[n].plen % WORD != 0)
  }

  /** What Bypass does, read off the result. */
  ghost predicate Bypassed(a: Arena, a': Arena, n: Ptr, p: Ptr, o: Option<Ptr>, b: bool) {
    && p in a && p in a' && (o.Some? ==> o.value in a && o.value in a')
    && a'.Keys == a.Keys - {n}
    && (forall x | x in a' && x != p && o != Some(x) :: a'[x] == a[x])
    && a'[p] == a[p].WithChild(b, o)
    && (o.Some? ==> a'[o.value] == a[o.value].(parent := Some(p)))
  }

  /** n hangs off p on side b, and its only child, if any, can hang there instead. */
  ghost predicate Between(a: Arena, full: Paths, n: Ptr, p: Ptr, o: Option<Ptr>, b: bool)
    requires Inv(a, full)
  {
    && n in a && p in a && n != ROOT && n != p && a[n].parent == Some(p)
    && full[p] < full[n] && full[n][|full[p]|] == b
    && a[p].Child(b) == Some(n) && a[p].Child(!b) != Some(n)
    && (a[n].child0 == None || a[n].child0 == o) && (a[n].child1 == None || a[n].child1 == o)
    && (o.Some? ==>
          && o.value in a && o.value != p && o.value != n && o.value != ROOT
          && full[n] < full[o.value] && a[o.value].parent == Some(n)
          && Index(|full[o.value]| - 1) == Index(|full[p]|))
  }

  lemma BypassNeighbours(a: Arena, full: Paths, n: Ptr)
    requires Inv(a, full) && n in a && Removable(a, n)
    ensures a[n].parent.value in a && full[a[n].parent.value] < full[n]
    ensures var p := a[n].parent.value;
            Between(a, full, n, p, Heir(a, n), full[n][|full[p]|])
  {
    assert NodeOk(a, full, n);
    var p, o := a[n].parent.value, Heir(a, n);
    assert NodeOk(a, full, p);
    assert LinkedDown(a, full, p, false) && LinkedDown(a, full, p, true);
    if o.Some? {
      assert LinkedDown(a, full, n, false) && LinkedDown(a, full, n, true);
      assert NodeOk(a, full, o.value);
      assert Index(|full[n]|) == Index(|full[n]| - 1);
    }
  }

  lemma BypassFacts(a: Arena, full: Paths, n: Ptr, p: Ptr, o: Option<Ptr>, b: bool)
    requires Inv(a, full) && n in a && Removable(a, n)
    requires o == Heir(a, n) && Between(a, full, n, p, o, b)
    ensures Bypassed(a, Bypass(a, n), n, p, o, b)
  {
    assert (a[p].child0 != Some(n)) == b;
  }

  lemma BypassParent(a: Arena, full: Paths, a': Arena, full': Paths, n: Ptr, p: Ptr, o: Option<Ptr>, b: bool)
    requires Inv(a, full) && Between(a, full, n, p, o, b)
    requires Bypassed(a, a', n, p, o, b) && full' == full - {n}
    ensures NodeOk(a', full', p)
  {
    assert NodeOk(a, full, p);
    assert LinkedDown(a, full, p, !b) && LinkedDown(a', full', p, !b);
    assert LinkedDown(a', full', p, b);
    SameParent(a, full, a', full', p);
  }

  lemma BypassOther(a: Arena, full: Paths, a': Arena, full': Paths, n: Ptr, p: Ptr, o: Option<Ptr>, b: bool, x: Ptr)
    requires Inv(a, full) && Between(a, full, n, p, o, b)
    requires Bypassed(a, a', n, p, o, b) && full' == full - {n}
    requires x in a' && x != p && o != Some(x)
    ensures NodeOk(a', full', x)
  {
    assert NodeOk(a, full, x) && NodeOk(a, full, n);
    assert LinkedDown(a, full, x, false) && LinkedDown(a', full', x, false);
    assert LinkedDown(a, full, x, true) && LinkedDown(a', full', x, true);
    SameParent(a, full, a', full', x);
  }

  lemma BypassHeir(a: Arena, full: Paths, a': Arena, full': Paths, n: Ptr, p: Ptr, o: Ptr, b: bool)
    requires Inv(a, full) && Between(a, full, n, p, Some(o), b)
    requires Bypassed(a, a', n, p, Some(o), b) && full' == full - {n}
    ensures NodeOk(a', full', o)
  {
    assert NodeOk(a, full, o) && NodeOk(a, full, p);
    assert LinkedDown(a, full, o, false) && LinkedDown(a', full', o, false);
    assert LinkedDown(a, full, o, true) && LinkedDown(a', full', o, true);
    NewParent(a, full, a', full', o, p);
  }

  lemma BypassKeepsInv(a: Arena, full: Paths, n: Ptr)
    requires Inv(a, full) && n in a && Removable(a, n)
    ensures a[n].parent.value in a && (Heir(a, n).Some? ==> Heir(a, n).value in a)
    ensures Inv(Bypass(a, n), full - {n})
  {
    BypassNeighbours(a, full, n);
    var p, o := a[n].parent.value, Heir(a, n);
    var b := full[n][|full[p]|];
    BypassFacts(a, full, n, p, o, b);
    BypassedKeepsInv(a, full, Bypass(a, n), full - {n}, n, p, o, b);
  }

  lemma BypassedAt(a: Arena, full: Paths, a': Arena, full': Paths, n: Ptr, p: Ptr, o: Option<Ptr>, b: bool, x: Ptr)
    requires Inv(a, full) && Between(a, full, n, p, o, b)
    requires Bypassed(a, a', n, p, o, b) && full' == full - {n} && x in a'
    ensures NodeOk(a', full', x)
  {
    if o == Some(x) {
      BypassHeir(a, full, a', full', n, p, x, b);
    } else if x == p {
      BypassParent(a, full, a', full', n, p, o, b);
    } else {
      BypassOther(a, full, a', full', n, p, o, b, x);
    }
  }

  lemma BypassedKeepsInv(a: Arena, full: Paths, a': Arena, full': Paths, n: Ptr, p: Ptr, o: Option<Ptr>, b: bool)
    requires Inv(a, full) && Between(a, full, n, p, o, b)
    requires Bypassed(a, a', n, p, o, b) && full' == full - {n}
    ensures Inv(a', full')
  {
    forall x | x in a' {
      BypassedAt(a, full, a', full', n, p, o, b, x);
    }
  }

  // ---------- deleting nodes that are no longer needed ----------

  /** The effect of btrie_delete_maybe (src/btrie.c:120-145): free n if it is not
      needed, hand its child up, or go on with its parent if it had none. */
  ghost function DeleteMaybe(a: Arena, full: Paths, n: Ptr): (a': Arena)
    requires Inv(a, full) && n in a
    ensures a'.Keys <= a.Keys
    decreases a[n].plen
  {
    if !Removable(a, n) then a
    else
      BypassKeepsInv(a, full, n);
      BypassNeighbours(a, full, n);
      assert NodeOk(a, full, n) && NodeOk(a, full, a[n].parent.value);
      if Heir(a, n).Some? then Bypass(a, n)
      else DeleteMaybe(Bypass(a, n), full - {n}, a[n].parent.value)
  }

  /** One round of the deletion. */
  lemma DeleteMaybeStep(a: Arena, full: Paths, n: Ptr)
    requires Inv(a, full) && n in a && Removable(a, n)
    ensures var p := a[n].parent.value;
            && p in a && (Heir(a, n).Some? ==> Heir(a, n).value in a)
            && Inv(Bypass(a, n), full - {n}) && p in Bypass(a, n)
            && Bypass(a, n)[p].plen < a[n].plen
            && DeleteMaybe(a, full, n)
               == if Heir(a, n).Some? then Bypass(a, n) else DeleteMaybe(Bypass(a, n), full - {n}, p)
  {
    BypassKeepsInv(a, full, n);
    BypassNeighbours(a, full, n);
    assert NodeOk(a, full, n) && NodeOk(a, full, a[n].parent.value);
  }

  ghost function Restrict(full: Paths, a: Arena): Paths {
    map x | x in a && x in full :: full[x]
  }

  /** Nothing but empty nodes goes, and what stays keeps its elements. */
  ghost predicate KeepsElements(a: Arena, a': Arena) {
    && a'.Keys <= a.Keys
    && (forall x | x in a && x !in a' :: a[x].elems == [])
    && (forall x | x in a' :: a'[x].elems == a[x].elems)
  }

  lemma BypassIsHarmless(a: Arena, full: Paths, n: Ptr)
    requires Inv(a, full) && n in a && Removable(a, n) && CanonicalExcept(a, n)
    ensures a[n].parent.value in a && (Heir(a, n).Some? ==> Heir(a, n).value in a)
    ensures KeepsElements(a, Bypass(a, n))
    ensures CanonicalExcept(Bypass(a, n), a[n].parent.value)
    ensures Heir(a, n).Some? ==> Canonical(Bypass(a, n))
  {
    BypassNeighbours(a, full, n);
    var p, o := a[n].parent.value, Heir(a, n);
    var a' := Bypass(a, n);
    BypassFacts(a, full, n, p, o, full[n][|full[p]|]);
    forall x | x in a' && (x != p || o.Some?) ensures CanonicalAt(a', x) {
      assert CanonicalAt(a, x);
    }
  }

  lemma {:induction false} DeleteMaybeRestores(a: Arena, full: Paths, n: Ptr)
    requires Inv(a, full) && n in a && CanonicalExcept(a, n)
    ensures var a' := DeleteMaybe(a, full, n);
            Inv(a', Restrict(full, a')) && Canonical(a') && KeepsElements(a, a')
    decreases a[n].plen
  {
    if !Removable(a, n) {
      assert NodeOk(a, full, n);
      assert CanonicalAt(a, n);
      assert Restrict(full, a) == full;
    } else {
      BypassKeepsInv(a, full, n);
      BypassNeighbours(a, full, n);
      BypassIsHarmless(a, full, n);
      var a1, full1 := Bypass(a, n), full - {n};
      if Heir(a, n).Some? {
        assert Restrict(full, a1) == full1;
      } else {
        assert NodeOk(a, full, n) && NodeOk(a, full, a[n].parent.value);
        DeleteMaybeRestores(a1, full1, a[n].parent.value);
        var a' := DeleteMaybe(a1, full1, a[n].parent.value);
        assert Restrict(full1, a') == Restrict(full, a');
      }
    }
  }

  /** A needed node stays, and then nothing at all changes. */
  lemma DeleteMaybeKeepsCanonical(a: Arena, full: Paths, n: Ptr)
    requires Inv(a, full) && n in a && CanonicalAt(a, n)
    ensures DeleteMaybe(a, full, n) == a
  {
    assert NodeOk(a, full, n);
  }

  /** Deleting a leaf that was just attached undoes the attaching. */
  lemma DeleteUndoesAttach(a: Arena, full: Paths, a': Arena, full': Paths, p: Ptr, c: Ptr, bits: Bits, word: Bits)
    requires Inv(a, full) && p in a && c !in a
    requires FitsWord(full[p], bits, word)
    requires a[p].Child(bits[|full[p]|]) == None
    requires a' == AttachLeaf(a, p, bits[|full[p]|], c, |bits|, word) && full' == full[c := bits]
    ensures Inv(a', full')
    ensures DeleteMaybe(a', full', c) == DeleteMaybe(a, full, p)
  {
    AttachLeafKeepsInv(a, full, a', full', p, c, bits, word);
    BypassKeepsInv(a', full', c);
    var b := bits[|full[p]|];
    assert (a'[p].child0 != Some(c)) == b by {
      assert LinkedDown(a, full, p, false) by { assert NodeOk(a, full, p); }
    }
    assert Bypass(a', c) == a;
    assert full' - {c} == full;
  }

  /** Deleting a branching node that was just put in undoes the split. */
  lemma DeleteUndoesSplit(a: Arena, full: Paths, a': Arena, full': Paths,
                          q: Ptr, cur: Ptr, m: Ptr, bits: Bits, word: Bits)
    requires Inv(a, full) && IsSplit(a, full, a', full', q, cur, m, bits, word)
    ensures Inv(a', full')
    ensures DeleteMaybe(a', full', m) == a
  {
    SplitNeighbours(a, full, q, cur, bits, word);
    SplitEdgeKeepsInv(a, full, a', full', q, cur, m, bits, word);
    assert Heir(a', m) == Some(cur);
    BypassNeighbours(a', full', m);
    BypassFacts(a', full', m, q, Some(cur), bits[|full[q]|]);
    var r := Bypass(a', m);
    assert r[q] == a[q] && r[cur] == a[cur];
    assert r == a;
  }
}
