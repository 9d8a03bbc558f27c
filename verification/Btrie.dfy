/**
  The binary trie of src/btrie.c as an object: its nodes, changed in place, and
  the elements inserted in it.
 */
module BtrieModel {
  import opened Wrappers
  import opened FreeSpace
  import opened TrieArena
  import opened Sequences

  // ---------- key words ----------

  /** A key is an array of 32-bit words that is long enough. */
  predicate KeyBuffer(key: Bits, plen: nat) {
    |key| % WORD == 0 && plen <= |key| && plen <= MAX_PLEN
  }

  function WordAt(key: Bits, i: nat): (w: Bits)
    requires WORD * i + WORD <= |key|
    ensures |w| == WORD
  {
    key[WORD * i..WORD * i + WORD]
  }

  /** nthbit(key[index(i)], remain(i)) */
  function NthBit(key: Bits, i: nat): (b: bool)
    requires |key| % WORD == 0 && i < |key|
    ensures b == key[i]
  {
    WordAt(key, Index(i))[i % WORD]
  }

  /** w & mask(r) */
  function Masked(w: Bits, r: nat): (m: Bits)
    requires |w| == WORD && r < WORD
    ensures |m| == WORD && m[..r + 1] == w[..r + 1] && forall i | r < i < WORD :: !m[i]
  {
    w[..r + 1] + seq(WORD - r - 1, _ => false)
  }

  /** key[i] = w */
  function PutWord(key: Bits, i: nat, w: Bits): (k: Bits)
    requires WORD * i + WORD <= |key| && |w| == WORD
    ensures |k| == |key| && k[WORD * i..WORD * i + WORD] == w
    ensures k[..WORD * i] == key[..WORD * i] && k[WORD * i + WORD..] == key[WORD * i + WORD..]
  {
    key[..WORD * i] + w + key[WORD * i + WORD..]
  }

  /** !((v ^ w) & mask(r)) */
  predicate SameMasked(v: Bits, w: Bits, r: nat)
    requires |v| == |w| == WORD && r < WORD
  {
    v[..r + 1] == w[..r + 1]
  }

  /** Comparing one masked word decides the whole comparison once the parent matched. */
  lemma WordDecides(a: Arena, full: Paths, q: Ptr, n: Ptr, key: Bits, len: nat)
    requires Inv(a, full) && n in a && q in a && n != ROOT && a[n].parent == Some(q)
    requires |key| % WORD == 0 && |full[q]| < len <= |full[n]| && len <= |key|
    requires full[q] <= key
    ensures |a[n].key| == WORD && WORD * Index(len - 1) + WORD <= |key|
    ensures SameMasked(WordAt(key, Index(len - 1)), a[n].key, (len - 1) % WORD)
       <==> key[..len] == full[n][..len]
  {
    var w := WordStart(len);
    EdgeWord(a, full, q, n, len);
    assert w == WORD * Index(len - 1);
    assert key[..w] == full[q][..w] == full[n][..w];
    WordAndRest(key, full[n], w, len, WordAt(key, Index(len - 1)), a[n].key);
  }

  /** The word of a node holds the bits of its key there. */
  lemma EdgeWord(a: Arena, full: Paths, q: Ptr, n: Ptr, len: nat)
    requires Inv(a, full) && n in a && q in a && n != ROOT && a[n].parent == Some(q) && |full[q]| < len <= |full[n]|
    ensures |a[n].key| == WORD && full[q] < full[n] && (len - 1) % WORD + 1 == len - WordStart(len)
    ensures WordStart(len) <= |full[q]| && a[n].key[..len - WordStart(len)] == full[n][WordStart(len)..len]
  {
    EdgeIs(a, full, q, n);
    WordStartsAt(|full[q]|, len, |full[n]|);
    LastWord(a, full, n);
    var w := WordStart(len);
    assert a[n].key[..|full[n]| - w][..len - w] == a[n].key[..len - w] && full[n][w..][..len - w] == full[n][w..len];
  }

  lemma LastWord(a: Arena, full: Paths, n: Ptr)
    requires Inv(a, full) && n in a && n != ROOT
    ensures var w := WordStart(|full[n]|);
            |a[n].key| == WORD && w <= |full[n]| <= w + WORD && a[n].key[..|full[n]| - w] == full[n][w..]
  {
    assert NodeOk(a, full, n);
  }

  lemma WordStartsAt(f: nat, len: nat, g: nat)
    requires f < len <= g && Index(g - 1) == Index(f)
    ensures WordStart(len) == WordStart(g) <= f && (len - 1) % WORD + 1 == len - WordStart(len)
  {
  }

  lemma WordAndRest(x: Bits, y: Bits, w: nat, len: nat, v: Bits, u: Bits)
    requires w <= len <= |x| && len <= |y| && len - w <= WORD && w + WORD <= |x|
    requires v == x[w..w + WORD] && |u| == WORD && u[..len - w] == y[w..len] && x[..w] == y[..w]
    ensures v[..len - w] == u[..len - w] <==> x[..len] == y[..len]
  {
    assert v[..len - w] == x[w..len];
    assert x[..len] == x[..w] + x[w..len] && y[..len] == y[..w] + y[w..len];
  }

  /** n is the root or the next node on the way to the key after its parent. */
  ghost predicate Towards(a: Arena, full: Paths, n: Ptr, key: Bits)
    requires Inv(a, full)
  {
    && n in a
    && (n != ROOT ==>
          && a[n].parent.Some? && a[n].parent.value in a
          && var q := a[n].parent.value;
          && full[q] < key && full[q] < full[n]
          && full[n][|full[q]|] == key[|full[q]|])
  }

  /** The test of the lookup loop (src/btrie.c:83-84). */
  predicate NodeMatches(node: Node, key: Bits, plen: nat)
    requires |key| % WORD == 0 && plen <= |key| && |node.key| == WORD
  {
    && node.plen <= plen
    && (node.plen == 0 || SameMasked(WordAt(key, Index(node.plen - 1)), node.key, (node.plen - 1) % WORD))
  }

  lemma NodeMatchesMeansPrefix(a: Arena, full: Paths, n: Ptr, key: Bits, plen: nat)
    requires Inv(a, full) && KeyBuffer(key, plen) && Towards(a, full, n, key[..plen])
    requires |a[n].key| == WORD
    ensures NodeMatches(a[n], key, plen) <==> full[n] <= key[..plen]
  {
    RootIsShort(a, full, n);
    if n != ROOT {
      EdgeIs(a, full, a[n].parent.value, n);
      if a[n].plen <= plen {
        WordDecides(a, full, a[n].parent.value, n, key, a[n].plen);
        assert key[..plen][..a[n].plen] == key[..a[n].plen] && full[n][..a[n].plen] == full[n];
      }
    }
  }

  lemma ChildIsTowards(a: Arena, full: Paths, n: Ptr, key: Bits)
    requires Inv(a, full) && n in a && full[n] < key
    ensures var c := a[n].Child(key[|full[n]|]);
            c.Some? ==> c.value in a && Towards(a, full, c.value, key) && |a[c.value].key| == WORD
                        && a[c.value].parent == Some(n) && a[n].plen < a[c.value].plen <= MAX_PLEN
  {
    assert NodeOk(a, full, n);
    var b := key[|full[n]|];
    if a[n].Child(b).Some? {
      assert LinkedDown(a, full, n, b);
      assert NodeOk(a, full, a[n].Child(b).value);
    }
  }

  // ---------- elements ----------

  /** Every element is in the list of exactly one node, once, and knows which. */
  ghost predicate Placed(a: Arena, where: map<Elem, Ptr>) {
    && (forall n, e | n in a && e in a[n].elems :: e in where && where[e] == n)
    && (forall e | e in where :: where[e] in a && e in a[where[e]].elems)
    && (forall n | n in a :: Distinct(a[n].elems))
  }

  /** What the trie stores: the key of every inserted element. */
  ghost function KeysOf(where: map<Elem, Ptr>, full: Paths): map<Elem, Bits>
    requires forall e | e in where :: where[e] in full
  {
    map e | e in where :: full[where[e]]
  }

  class Btrie {
    var nodes: Arena
    var where: map<Elem, Ptr>  // e->node
    var brk: Ptr             // the next address malloc hands out
    ghost var full: Paths

    ghost predicate Shaped()
      reads this
    {
      Inv(nodes, full) && forall n | n in nodes :: n < brk
    }

    ghost predicate Valid()
      reads this
    {
      Shaped() && Canonical(nodes) && Placed(nodes, where)
    }

    ghost function Contents(): map<Elem, Bits>
      requires Valid()
      reads this
    {
      KeysOf(where, full)
    }

    constructor ()
      ensures Valid() && Contents() == map[]
    {
      // btrie_init zeroes the root
      nodes := map[ROOT := Node(None, None, None, 0, seq(WORD, _ => false), [])];
      where := map[];
      brk := 1;
      full := map[ROOT := []];
      new;
      assert NodeOk(nodes, full, ROOT);
      assert CanonicalAt(nodes, ROOT);
    }

    /** The deepest node on the way to the key. */
    ghost predicate Deepest(n: Ptr, key: Bits)
      requires Shaped()
      reads this
    {
      && n in nodes && full[n] <= key
      && (full[n] != key ==>
            var c := nodes[n].Child(key[|full[n]|]);
            c.Some? ==> c.value in nodes && !(full[c.value] <= key))
    }

    method Lookup(key: Bits, plen: nat) returns (n: Ptr)
      requires Shaped() && KeyBuffer(key, plen)
      ensures Deepest(n, key[..plen])
    {
      n := ROOT;
      assert NodeOk(nodes, full, ROOT);
      NodeMatchesMeansPrefix(nodes, full, ROOT, key, plen);
      while NodeMatches(nodes[n], key, plen)
        invariant n in nodes && Towards(nodes, full, n, key[..plen]) && |nodes[n].key| == WORD
        invariant NodeMatches(nodes[n], key, plen) <==> full[n] <= key[..plen]
        invariant nodes[n].plen == |full[n]| <= MAX_PLEN
        decreases MAX_PLEN - nodes[n].plen
      {
        if nodes[n].plen == plen {
          return;
        }
        var c := nodes[n].Child(NthBit(key, nodes[n].plen));
        if c.None? {
          return;
        }
        ChildIsTowards(nodes, full, n, key[..plen]);
        n := c.value;
        assert NodeOk(nodes, full, n);
        NodeMatchesMeansPrefix(nodes, full, n, key, plen);
      }
      assert NodeOk(nodes, full, n);
      n := nodes[n].parent.value;
    }

    /** Hand n's place to its only child, if any, and free n. */
    method Unlink(n: Ptr)
      requires Shaped() && n in nodes && Removable(nodes, n)
      modifies this
      ensures old(nodes)[n].parent.value in old(nodes)
      ensures Heir(old(nodes), n).Some? ==> Heir(old(nodes), n).value in old(nodes)
      ensures nodes == Bypass(old(nodes), n) && full == old(full) - {n}
      ensures Shaped() && where == old(where) && brk == old(brk)
    {
      BypassKeepsInv(nodes, full, n);
      var o, p := Heir(nodes, n), nodes[n].parent.value;
      nodes := nodes[p := nodes[p].WithChild(nodes[p].child0 != Some(n), o)];
      if o.Some? {
        nodes := nodes[o.value := nodes[o.value].(parent := Some(p))];
      }
      nodes, full := nodes - {n}, full - {n};
    }

    /** btrie_delete_maybe (src/btrie.c:120-145) */
    method DeleteMaybe(start: Ptr)
      requires Shaped() && start in nodes
      modifies this
      ensures nodes == TrieArena.DeleteMaybe(old(nodes), old(full), start)
      ensures Shaped() && full == Restrict(old(full), nodes)
      ensures where == old(where) && brk == old(brk)
    {
      var n := start;
      ghost var goal := TrieArena.DeleteMaybe(nodes, full, n);
      assert Restrict(full, nodes) == full;
      while nodes[n].elems == [] && nodes[n].parent.Some?
            && (nodes[n].child0.None? || nodes[n].child1.None?)
        invariant Shaped() && n in nodes
        invariant goal == TrieArena.DeleteMaybe(nodes, full, n)
        invariant full == Restrict(old(full), nodes)
        invariant where == old(where) && brk == old(brk)
        decreases nodes[n].plen
      {
        var o := Heir(nodes, n);
        if o.Some? && nodes[n].plen % WORD == 0 {
          return;
        }
        DeleteMaybeStep(nodes, full, n);
        var p := nodes[n].parent.value;
        Unlink(n);
        assert full == Restrict(old(full), nodes);
        if o.Some? {
          return;
        }
        n := p;
      }
    }

    /** malloc: a new address, or nothing. */
    method Malloc() returns (p: Option<Ptr>)
      modifies this`brk
      ensures brk >= old(brk)
      ensures p.Some? ==> old(brk) <= p.value < brk
    {
      if * {
        p := None;
      } else {
        p := Some(brk);
        brk := brk + 1;
      }
    }

    /** btrie_new_node and the two fields its caller fills in: a leaf under parent
        for the first len bits of the key, all within one word. */
    method NewLeaf(parent: Ptr, key: Bits, len: nat) returns (r: Option<Ptr>)
      requires Shaped() && KeyBuffer(key, len) && parent in nodes && full[parent] < key[..len]
      requires Index(len - 1) == Index(|full[parent]|)
      requires nodes[parent].Child(key[|full[parent]|]) == None
      requires CanonicalExcept(nodes, parent) && Ready(nodes, parent, key[|full[parent]|])
      modifies this
      ensures Shaped() && where == old(where)
      ensures r.None? ==> nodes == old(nodes) && full == old(full)
      ensures r.Some? ==>
        && IsLeaf(old(nodes), old(full), nodes, full, parent, r.value, key, len)
        && Grown(old(nodes), old(full), nodes, full, r.value, key[..len])
        && CanonicalExcept(nodes, r.value)
        && nodes[r.value].child0 == nodes[r.value].child1 == None && nodes[r.value].plen == len
    {
      r := Malloc();
      if r.Some? {
        NewLeafFits(nodes, full, parent, r.value, key, len);
        var word := WordAt(key, Index(nodes[parent].plen));
        PutNodes(AttachLeaf(nodes, parent, NthBit(key, nodes[parent].plen), r.value, len, word),
                 full[r.value := key[..len]]);
      }
    }

    method PutNodes(nodes': Arena, ghost full': Paths)
      modifies this`nodes, this`full
      ensures nodes == nodes' && full == full'
    {
      nodes, full := nodes', full';
    }

    /** btrie_add_leaf (src/btrie.c:147-171): one node per word down to the key. */
    method AddLeaf(parent: Ptr, key: Bits, plen: nat) returns (r: Option<Ptr>)
      requires Shaped() && KeyBuffer(key, plen) && parent in nodes && full[parent] < key[..plen]
      requires nodes[parent].Child(key[|full[parent]|]) == None
      requires CanonicalExcept(nodes, parent) && Ready(nodes, parent, key[|full[parent]|])
      modifies this
      ensures Shaped() && where == old(where)
      ensures r.None? ==> nodes == TrieArena.DeleteMaybe(old(nodes), old(full), parent)
                          && full == Restrict(old(full), nodes)
      ensures r.Some? ==> Grown(old(nodes), old(full), nodes, full, r.value, key[..plen])
                          && CanonicalExcept(nodes, r.value)
      decreases plen - |full[parent]|, 0
    {
      assert NodeOk(nodes, full, parent);
      var i := Index(nodes[parent].plen);
      var last := Index(plen - 1) == i;
      var len := if last then plen else (i + 1) * WORD;
      LeafLength(full[parent], key, plen, len);
      ghost var a, f := nodes, full;
      r := NewLeaf(parent, key, len);
      if r.None? {
        DeleteMaybe(parent);
      } else if !last {
        r := AddBelow(parent, r.value, key, len, plen, a, f);
      }
    }

    /** The rest of the key, below a leaf that ends with its word */
    method AddBelow(ghost parent: Ptr, node: Ptr, key: Bits, ghost len: nat, plen: nat, ghost a: Arena, ghost f: Paths)
      returns (r: Option<Ptr>)
      requires Inv(a, f) && Shaped() && KeyBuffer(key, plen) && len < plen && len % WORD == 0
      requires IsLeaf(a, f, nodes, full, parent, node, key, len) && Grown(a, f, nodes, full, node, key[..len])
      requires CanonicalExcept(nodes, node)
      requires nodes[node].child0 == nodes[node].child1 == None && nodes[node].plen == len
      modifies this
      ensures Shaped() && where == old(where)
      ensures r.None? ==> parent in a && nodes == TrieArena.DeleteMaybe(a, f, parent) && full == Restrict(f, nodes)
      ensures r.Some? ==> Grown(a, f, nodes, full, r.value, key[..plen]) && CanonicalExcept(nodes, r.value)
      decreases plen - |full[node]|, 1
    {
      ghost var a1, f1 := nodes, full;
      assert full[node] == key[..len] < key[..plen];
      r := AddLeaf(node, key, plen);
      if r.None? {
        LeafUndone(a, f, a1, f1, nodes, parent, node, key, len);
      } else {
        GrownTransitive(a, f, a1, f1, node, key[..len], nodes, full, r.value, key[..plen]);
      }
    }

    /** btrie_longest_match_node (src/btrie.c:173-190).  The variable z counts the
        leading zero bits of no_mask; at 32 the mask is zero and the loop stops. */
    method LongestMatchNode(q: Ptr, current: Ptr, key: Bits, plen: nat) returns (matchLen: nat)
      requires Shaped() && KeyBuffer(key, plen)
      requires q in nodes && current in nodes && nodes[current].parent == Some(q) && current != ROOT
      requires Towards(nodes, full, current, key[..plen])
      requires !(full[current] <= key[..plen])
      ensures |full[q]| < matchLen <= plen && matchLen < |full[current]|
      ensures key[..matchLen] == full[current][..matchLen]
      ensures matchLen < plen ==> key[matchLen] != full[current][matchLen]
    {
      var minMatch := nodes[q].plen + 1;
      var maxMatch := if plen < nodes[current].plen then plen else nodes[current].plen;
      MatchStart(nodes, full, q, current, key, plen);
      assert maxMatch == |full[current]| ==> full[current][..maxMatch] == full[current];
      matchLen := CompareWords(q, current, key, minMatch, maxMatch);
      assert matchLen == maxMatch ==> key[..plen][..matchLen] == key[..matchLen];
    }

    /** Bit by bit, within one word (src/btrie.c:179-187) */
    method CompareWords(q: Ptr, current: Ptr, key: Bits, minMatch: nat, maxMatch: nat) returns (matchLen: nat)
      requires Shaped() && q in nodes && current in nodes && nodes[current].parent == Some(q) && current != ROOT
      requires |key| % WORD == 0 && full[q] <= key && minMatch == |full[q]| + 1 <= maxMatch <= |full[current]|
      requires maxMatch <= |key|
      requires key[..minMatch] == full[current][..minMatch]
      requires var i := Index(minMatch - 1); WORD * i <= minMatch - 1 && maxMatch <= WORD * i + WORD <= |key|
      requires |nodes[current].key| == WORD
      requires maxMatch == WORD * Index(minMatch - 1) + WORD ==> key[..maxMatch] != full[current][..maxMatch]
      ensures minMatch <= matchLen <= maxMatch && key[..matchLen] == full[current][..matchLen]
      ensures matchLen < maxMatch ==> key[matchLen] != full[current][matchLen]
    {
      matchLen := minMatch;
      var i := Index(minMatch - 1);
      var v, w := WordAt(key, i), nodes[current].key;
      InWord(minMatch - 1, i);
      InWord(maxMatch - 1, i);
      var z, zmax := (minMatch - 1) % WORD + 1, (maxMatch - 1) % WORD + 1;
      while z != zmax
        invariant minMatch <= matchLen <= maxMatch && z == matchLen - WORD * i <= WORD
        invariant key[..matchLen] == full[current][..matchLen]
        decreases WORD - z
      {
        z := z + 1;
        MatchStep(nodes, full, q, current, key, matchLen);
        if z == WORD || v[..z] != w[..z] {
          OneBitMore(key, full[current], matchLen);
          break;
        }
        matchLen := matchLen + 1;
      }
    }

    /** The new branching node of btrie_solve_conflict (src/btrie.c:200-212). */
    method InsertAbove(q: Ptr, current: Ptr, key: Bits, len: nat) returns (r: Option<Ptr>)
      requires Shaped() && Canonical(nodes) && KeyBuffer(key, len)
      requires q in nodes && current in nodes && nodes[current].parent == Some(q) && current != ROOT
      requires full[q] < key[..len] < full[current]
      modifies this
      ensures Shaped() && where == old(where)
      ensures r.None? ==> nodes == old(nodes) && full == old(full)
      ensures r.Some? ==>
        && Grown(old(nodes), old(full), nodes, full, r.value, key[..len])
        && CanonicalExcept(nodes, r.value)
        && nodes[r.value].Child(old(full)[current][len]).Some? && nodes[r.value].Child(!old(full)[current][len]).None?
        && TrieArena.DeleteMaybe(nodes, full, r.value) == old(nodes)
    {
      r := Malloc();
      if r.Some? {
        LinkAbove(q, current, r.value, key, len);
      }
    }

    method LinkAbove(q: Ptr, current: Ptr, m: Ptr, key: Bits, len: nat)
      requires Inv(nodes, full) && Canonical(nodes) && KeyBuffer(key, len) && m !in nodes
      requires q in nodes && current in nodes && nodes[current].parent == Some(q) && current != ROOT
      requires full[q] < key[..len] < full[current]
      modifies this`nodes, this`full
      ensures Inv(nodes, full) && Grown(old(nodes), old(full), nodes, full, m, key[..len]) && CanonicalExcept(nodes, m)
      ensures nodes[m].Child(old(full)[current][len]).Some? && nodes[m].Child(!old(full)[current][len]).None?
      ensures TrieArena.DeleteMaybe(nodes, full, m) == old(nodes)
    {
      SplitReady(nodes, full, q, current, key, len);
      var word := WordAt(key, Index(len - 1));
      var linked := nodes[q := nodes[q].WithChild(NthBit(key, nodes[q].plen), Some(m))];
      linked := linked[current := linked[current].(parent := Some(m))];
      // nthbit(current->key, remain(match_len))
      var d := linked[current].key[len % WORD];
      linked := linked[m := Node(Some(q), None, None, len, word, []).WithChild(d, Some(current))];
      SplitDone(nodes, full, linked, full[m := key[..len]], q, current, m, key[..len], word);
      PutNodes(linked, full[m := key[..len]]);
    }

    /** btrie_solve_conflict (src/btrie.c:194-214) */
    method SolveConflict(q: Ptr, current: Ptr, key: Bits, plen: nat) returns (r: Option<Ptr>)
      requires Shaped() && Canonical(nodes) && KeyBuffer(key, plen)
      requires q in nodes && current in nodes && nodes[current].parent == Some(q) && current != ROOT
      requires Towards(nodes, full, current, key[..plen]) && !(full[current] <= key[..plen])
      modifies this
      ensures Shaped() && where == old(where)
      ensures r.None? ==> nodes == old(nodes) && full == old(full)
      ensures r.Some? ==> Grown(old(nodes), old(full), nodes, full, r.value, key[..plen])
                          && CanonicalExcept(nodes, r.value)
    {
      var len := LongestMatchNode(q, current, key, plen);
      ghost var a, f := nodes, full;
      assert full[q] < key[..len] < full[current];
      r := InsertAbove(q, current, key, len);
      if r.Some? && len != plen {
        var m := r.value;
        ghost var a1, f1 := nodes, full;
        assert full[m] < key[..plen];
        r := AddLeaf(m, key, plen);
        if r.None? {
          assert Restrict(f1, nodes) == f;
        } else {
          GrownTransitive(a, f, a1, f1, m, key[..len], nodes, full, r.value, key[..plen]);
        }
      }
    }

    /** btrie_node_goc with create set, and btrie_node_add (src/btrie.c:216-242) */
    method NodeFor(key: Bits, plen: nat) returns (r: Option<Ptr>)
      requires Shaped() && Canonical(nodes) && KeyBuffer(key, plen)
      modifies this
      ensures Shaped() && where == old(where)
      ensures r.None? ==> nodes == old(nodes) && full == old(full)
      ensures r.Some? && r.value in old(nodes) ==>
        nodes == old(nodes) && full == old(full) && full[r.value] == key[..plen]
      ensures r.Some? && r.value !in old(nodes) ==> Grown(old(nodes), old(full), nodes, full, r.value, key[..plen])
      ensures r.Some? ==> CanonicalExcept(nodes, r.value)
    {
      var n := Lookup(key, plen);
      assert NodeOk(nodes, full, n);
      if nodes[n].plen == plen {
        return Some(n);
      }
      var next := nodes[n].Child(NthBit(key, nodes[n].plen));
      if next.Some? {
        ChildIsTowards(nodes, full, n, key[..plen]);
        r := SolveConflict(n, next.value, key, plen);
      } else {
        assert Ready(nodes, n, key[|full[n]|]) by { assert CanonicalAt(nodes, n); }
        DeleteMaybeKeepsCanonical(nodes, full, n);
        ghost var f := full;
        r := AddLeaf(n, key, plen);
        if r.None? {
          assert Restrict(f, nodes) == f;
        }
      }
    }

    /** btrie_add (src/btrie.c:254-263) */
    method Add(e: Elem, key: Bits, len: nat) returns (ok: bool)
      requires Valid() && KeyBuffer(key, len) && e !in where
      modifies this
      ensures Valid()
      ensures ok ==> Contents() == old(Contents())[e := key[..len]]
      ensures !ok ==> nodes == old(nodes) && where == old(where) && full == old(full)
    {
      ghost var a, f := nodes, full;
      var n := NodeFor(key, len);
      if n.None? {
        return false;
      }
      GrownKeepsPlaced(a, f, nodes, full, n.value, key[..len], where);
      KeysAfterAdd(where, f, full, e, n.value);
      Append(n.value, e);
      return true;
    }

    /** list_add_tail and the back pointer. */
    method Append(n: Ptr, e: Elem)
      requires Shaped() && CanonicalExcept(nodes, n) && Placed(nodes, where) && n in nodes && e !in where
      modifies this`nodes, this`where
      ensures Valid() && where == old(where)[e := n]
    {
      ghost var a, w := nodes, where;
      var es := nodes[n].elems + [e];
      where := where[e := n];
      nodes := nodes[n := nodes[n].(elems := es)];
      ElemsKeepInv(a, full, nodes, n, es);
      ElemsKeepCanonical(a, nodes, n, es);
      InsertPlaced(a, w, n, e, nodes);
    }

    /** btrie_remove (src/btrie.c:265-270) */
    method Remove(e: Elem)
      requires Valid() && e in where
      modifies this
      ensures Valid()
      ensures Contents() == old(Contents()) - {e}
    {
      var n := where[e];
      ghost var f, w := full, where;
      Detach(n, e);
      if nodes[n].elems == [] {
        Prune(n);
      }
      forall x | x in w && x != e ensures w[x] in full && full[w[x]] == f[w[x]] {
        assert x in where && where[x] in nodes;
      }
      KeysAfterRemove(w, f, full, e);
    }

    method Prune(n: Ptr)
      requires Shaped() && Placed(nodes, where) && n in nodes && CanonicalExcept(nodes, n)
      modifies this
      ensures Valid() && where == old(where) && full == Restrict(old(full), nodes)
    {
      ghost var a := nodes;
      DeleteMaybeRestores(nodes, full, n);
      DeleteMaybe(n);
      KeepsElementsKeepsPlaced(a, nodes, where);
    }

    /** list_del */
    method Detach(n: Ptr, e: Elem)
      requires Valid() && e in where && where[e] == n
      modifies this`nodes, this`where
      ensures Shaped() && Placed(nodes, where) && where == old(where) - {e} && n in nodes
      ensures CanonicalExcept(nodes, n) && (nodes[n].elems != [] ==> Canonical(nodes))
    {
      ghost var a, w := nodes, where;
      assert CanonicalExcept(a, n);
      var es := Without(nodes[n].elems, e);
      nodes := nodes[n := nodes[n].(elems := es)];
      where := where - {e};
      WithoutPlaced(a, w, e, nodes);
      ElemsKeepInv(a, full, nodes, n, es);
      ElemsKeepCanonical(a, nodes, n, es);
    }

    method CopyLastWord(node: Ptr, buffer: Bits) returns (key: Bits)
      requires Shaped() && node in nodes && node != ROOT && |buffer| % WORD == 0 && |full[node]| <= |buffer|
      ensures Filled(key, buffer, full[node], WordStart(|full[node]|))
    {
      FillLast(nodes, full, node, buffer);
      key := PutWord(buffer, Index(nodes[node].plen - 1), Masked(nodes[node].key, (nodes[node].plen - 1) % WORD));
    }

    /** btrie_get_key (src/btrie.c:272-286): the last word is masked, and words that
        end at a node are copied on the way up. */
    method GetKey(e: Elem, buffer: Bits) returns (key: Bits)
      requires Valid() && e in where && |buffer| % WORD == 0 && |Contents()[e]| <= |buffer|
      ensures Contents()[e] <= key && Filled(key, buffer, Contents()[e], 0)
    {
      var node := where[e];
      key := buffer;
      RootIsShort(nodes, full, node);
      if nodes[node].plen != 0 {
        key := CopyLastWord(node, buffer);
        key := CopyWordsAbove(node, key, buffer);
        FilledIsPrefix(key, buffer, full[node]);
      }
    }

    method CopyWordsAbove(start: Ptr, last: Bits, ghost buffer: Bits) returns (key: Bits)
      requires Shaped() && start in nodes && start != ROOT
      requires Filled(last, buffer, full[start], WordStart(|full[start]|))
      ensures Filled(key, buffer, full[start], 0)
    {
      var node := start;
      key := last;
      UpFrom(nodes, full, node);
      while nodes[node].parent.Some? && nodes[nodes[node].parent.value].plen > 0
        invariant Climbs(start, node, key, buffer)
        decreases nodes[node].plen
      {
        node, key := CopyWordOf(start, node, key, buffer);
      }
      UpFrom(nodes, full, node);
    }

    /** The words below this node are in the key. */
    ghost predicate Climbs(start: Ptr, node: Ptr, key: Bits, buffer: Bits)
      reads this
    {
      && start in full && node in nodes && node in full && node != ROOT && full[node] <= full[start]
      && nodes[node].parent.Some? && nodes[node].parent.value in nodes
      && Filled(key, buffer, full[start], WordStart(|full[node]|))
    }

    /** Go to the parent, and copy its word if it ends with the node. */
    method CopyWordOf(start: Ptr, below: Ptr, last: Bits, ghost buffer: Bits) returns (node: Ptr, key: Bits)
      requires Shaped() && Climbs(start, below, last, buffer) && nodes[nodes[below].parent.value].plen > 0
      ensures Climbs(start, node, key, buffer) && nodes[node].plen < nodes[below].plen
    {
      node, key := nodes[below].parent.value, last;
      if nodes[node].plen % WORD == 0 {
        FillAbove(nodes, full, node, below, key, buffer, full[start]);
        key := PutWord(key, Index(nodes[node].plen - 1), nodes[node].key);
      } else {
        SameWordAbove(nodes, full, node, below);
      }
      UpFrom(nodes, full, node);
    }
  }

  function WordEnd(plen: nat): nat {
    WordStart(plen) + if plen == 0 then 0 else WORD
  }

  /** The key k is written in the buffer from bit `from` on: the rest of its last
      word is zero, and what follows was not touched. */
  ghost predicate Filled(key: Bits, buffer: Bits, k: Bits, from: nat) {
    var end := WordEnd(|k|);
    && |key| == |buffer| && from <= |k| && end <= |key|
    && (forall i | from <= i < |k| :: key[i] == k[i])
    && (forall i | |k| <= i < end :: !key[i])
    && key[end..] == buffer[end..]
  }

  lemma FilledIsPrefix(key: Bits, buffer: Bits, k: Bits)
    requires Filled(key, buffer, k, 0)
    ensures k <= key
  {
  }

  lemma RootIsShort(a: Arena, full: Paths, n: Ptr)
    requires Inv(a, full) && n in a
    ensures |full[n]| == a[n].plen && (n == ROOT <==> a[n].plen == 0)
  {
    assert NodeOk(a, full, n);
  }

  lemma UpFrom(a: Arena, full: Paths, n: Ptr)
    requires Inv(a, full) && n in a && n != ROOT
    ensures a[n].parent.Some? && a[n].parent.value in a
    ensures a[a[n].parent.value].plen == 0 ==> WordStart(|full[n]|) == 0
  {
    assert NodeOk(a, full, n) && NodeOk(a, full, a[n].parent.value);
  }

  lemma FillLast(a: Arena, full: Paths, n: Ptr, buffer: Bits)
    requires Inv(a, full) && n in a && n != ROOT && |buffer| % WORD == 0 && |full[n]| <= |buffer|
    ensures |full[n]| == a[n].plen > 0 && |a[n].key| == WORD && WORD * Index(|full[n]| - 1) + WORD <= |buffer|
    ensures Filled(PutWord(buffer, Index(|full[n]| - 1), Masked(a[n].key, (|full[n]| - 1) % WORD)),
                   buffer, full[n], WordStart(|full[n]|))
  {
    assert NodeOk(a, full, n);
    var k, i := full[n], Index(|full[n]| - 1);
    var w, r := Masked(a[n].key, (|k| - 1) % WORD), |k| - WordStart(|k|);
    assert (|k| - 1) % WORD + 1 == r;
    PutLast(buffer, k, i, w);
  }

  lemma PutLast(buffer: Bits, k: Bits, i: nat, w: Bits)
    requires 0 < |k| <= |buffer| && |w| == WORD && WORD * i < |k| <= WORD * i + WORD <= |buffer|
    requires w[..|k| - WORD * i] == k[WORD * i..] && forall j | |k| - WORD * i <= j < WORD :: !w[j]
    ensures Filled(PutWord(buffer, i, w), buffer, k, WORD * i)
  {
    var key := PutWord(buffer, i, w);
    InWord(|k| - 1, i);
    forall j | WORD * i <= j < WORD * i + WORD ensures key[j] == w[j - WORD * i] {
      assert key[j] == key[WORD * i..WORD * i + WORD][j - WORD * i];
    }
    forall j | WORD * i <= j < |k| ensures w[j - WORD * i] == k[j] {
      assert w[..|k| - WORD * i][j - WORD * i] == k[WORD * i..][j - WORD * i];
    }
  }

  lemma SameWordAbove(a: Arena, full: Paths, q: Ptr, n: Ptr)
    requires Inv(a, full) && n in a && q in a && a[n].parent == Some(q) && n != ROOT && a[q].plen % WORD != 0
    ensures WordStart(|full[q]|) == WordStart(|full[n]|) && full[q] < full[n] && q != ROOT && a[q].plen < a[n].plen
  {
    EdgeIs(a, full, q, n);
    SameWord(|full[q]|, |full[n]|);
  }

  lemma WholeWord(a: Arena, full: Paths, n: Ptr)
    requires Inv(a, full) && n in a && a[n].plen % WORD == 0 && a[n].plen > 0
    ensures |full[n]| == a[n].plen && a[n].key == full[n][a[n].plen - WORD..]
  {
    assert NodeOk(a, full, n);
    assert WordStart(a[n].plen) == a[n].plen - WORD;
  }

  lemma FillAbove(a: Arena, full: Paths, q: Ptr, n: Ptr, key: Bits, buffer: Bits, k: Bits)
    requires Inv(a, full) && n in a && q in a && a[n].parent == Some(q) && n != ROOT && a[q].plen % WORD == 0
    requires a[q].plen > 0
    requires full[n] <= k && Filled(key, buffer, k, WordStart(|full[n]|))
    ensures full[q] < full[n] && q != ROOT && |full[q]| == a[q].plen < a[n].plen && |a[q].key| == WORD
    ensures WORD * Index(|full[q]| - 1) + WORD <= |key|
    ensures Filled(PutWord(key, Index(|full[q]| - 1), a[q].key), buffer, k, WordStart(|full[q]|))
  {
    EdgeIs(a, full, q, n);
    SameWord(|full[q]|, |full[n]|);
    WholeWord(a, full, q);
    FillWord(key, buffer, k, |full[q]|, a[q].key);
  }

  lemma FillWord(key: Bits, buffer: Bits, k: Bits, from: nat, w: Bits)
    requires Filled(key, buffer, k, from) && from % WORD == 0 && WORD <= from && |w| == WORD
    requires w == k[from - WORD..from]
    ensures Filled(PutWord(key, Index(from - 1), w), buffer, k, from - WORD)
  {
    var i := Index(from - 1);
    assert WORD * i + WORD == from;
    var key' := PutWord(key, i, w);
    forall j | from <= j < |key| ensures key'[j] == key[j] {
      assert key'[from..][j - from] == key[from..][j - from];
    }
    forall j | from - WORD <= j < from ensures key'[j] == k[j] {
      assert key'[from - WORD..from][j - (from - WORD)] == w[j - (from - WORD)];
    }
    var end := WordEnd(|k|);
    assert key'[end..] == key'[from..][end - from..];
    assert key[end..] == key[from..][end - from..];
  }

  lemma KeysAfterAdd(where: map<Elem, Ptr>, full: Paths, full': Paths, e: Elem, n: Ptr)
    requires forall x | x in where :: where[x] in full && where[x] in full' && full'[where[x]] == full[where[x]]
    requires e !in where && n in full'
    ensures KeysOf(where[e := n], full') == KeysOf(where, full)[e := full'[n]]
  {
  }

  lemma KeysAfterRemove(where: map<Elem, Ptr>, full: Paths, full': Paths, e: Elem)
    requires forall x | x in where :: where[x] in full
    requires forall x | x in where && x != e :: where[x] in full' && full'[where[x]] == full[where[x]]
    ensures KeysOf(where - {e}, full') == KeysOf(where, full) - {e}
  {
  }

  lemma InsertPlaced(a: Arena, where: map<Elem, Ptr>, n: Ptr, e: Elem, a': Arena)
    requires Placed(a, where) && e !in where && n in a
    requires a' == a[n := a[n].(elems := a[n].elems + [e])]
    ensures Placed(a', where[e := n])
  {
    assert e !in a[n].elems;
    assert Distinct(a'[n].elems) by { assert Distinct(a[n].elems); }
  }

  lemma WithoutPlaced(a: Arena, where: map<Elem, Ptr>, e: Elem, a': Arena)
    requires Placed(a, where) && e in where
    requires a' == a[where[e] := a[where[e]].(elems := Without(a[where[e]].elems, e))]
    ensures Placed(a', where - {e})
  {
    WithoutIs(a[where[e]].elems, e);
  }

  lemma GrownKeepsPlaced(a: Arena, full: Paths, a': Arena, full': Paths, n: Ptr, bits: Bits, where: map<Elem, Ptr>)
    requires Placed(a, where) && a.Keys == full.Keys
    requires (a' == a && full' == full) || Grown(a, full, a', full', n, bits)
    ensures Placed(a', where) && forall e | e in where :: where[e] in full' && full'[where[e]] == full[where[e]]
  {
  }

  lemma KeepsElementsKeepsPlaced(a: Arena, a': Arena, where: map<Elem, Ptr>)
    requires Placed(a, where) && KeepsElements(a, a')
    ensures Placed(a', where)
  {
  }

  lemma SplitReady(a: Arena, full: Paths, q: Ptr, n: Ptr, key: Bits, len: nat)
    requires Inv(a, full) && KeyBuffer(key, len) && q in a && n in a && n != ROOT && a[n].parent == Some(q)
    requires full[q] < key[..len] < full[n]
    ensures Index(len - 1) == Index(|full[q]|) == Index(len) && WORD * Index(|full[q]|) + WORD <= |key|
    ensures FitsWord(full[q], key[..len], WordAt(key, Index(len - 1)))
    ensures q != n && a[q].plen == |full[q]| < len && a[q].Child(key[|full[q]|]) == Some(n)
    ensures Index(len) == Index(|full[n]| - 1)
    ensures |a[n].key| == WORD && a[n].key[len % WORD] == full[n][len]
  {
    assert NodeOk(a, full, n) && NodeOk(a, full, q);
    assert Index(len - 1) == Index(|full[q]|);
    KeyFits(key, full[q], len);
    SplitNeighbours(a, full, q, n, key[..len], WordAt(key, Index(len - 1)));
    SplitSide(a, full, n, len);
  }

  lemma SplitDone(a: Arena, full: Paths, a': Arena, full': Paths,
                  q: Ptr, cur: Ptr, m: Ptr, bits: Bits, word: Bits)
    requires Inv(a, full) && Canonical(a) && IsSplit(a, full, a', full', q, cur, m, bits, word)
    ensures Inv(a', full') && CanonicalExcept(a', m)
    ensures Grown(a, full, a', full', m, bits)
    ensures DeleteMaybe(a', full', m) == a
  {
    DeleteUndoesSplit(a, full, a', full', q, cur, m, bits, word);
    SplitKeepsCanonical(a, full, a', full', q, cur, m, bits, word);
  }

  lemma SplitSide(a: Arena, full: Paths, n: Ptr, len: nat)
    requires Inv(a, full) && n in a && n != ROOT && len < |full[n]|
    requires a[n].parent.Some? && a[n].parent.value in a && |full[a[n].parent.value]| < len
    ensures |a[n].key| == WORD && a[n].key[len % WORD] == full[n][len]
  {
    assert NodeOk(a, full, n);
    var w := WordStart(|full[n]|);
    InWord(len, Index(|full[n]| - 1));
    assert a[n].key[..|full[n]| - w][len - w] == full[n][w..][len - w];
  }

  lemma SplitKeepsCanonical(a: Arena, full: Paths, a': Arena, full': Paths,
                            q: Ptr, cur: Ptr, m: Ptr, bits: Bits, word: Bits)
    requires Inv(a, full) && IsSplit(a, full, a', full', q, cur, m, bits, word) && Canonical(a)
    ensures CanonicalExcept(a', m)
  {
    forall n | n in a' && n != m ensures CanonicalAt(a', n) {
      assert CanonicalAt(a, n);
    }
  }

  lemma InWord(x: nat, i: nat)
    requires WORD * i <= x < WORD * i + WORD
    ensures x % WORD == x - WORD * i && Index(x) == i
  {
  }

  lemma CommonStart(f: Bits, g: Bits, key: Bits, plen: nat)
    requires plen <= |key| && f < key[..plen] && f < g && g[|f|] == key[|f|]
    ensures key[..|f| + 1] == g[..|f| + 1]
    ensures !(g <= key[..plen]) && |g| <= plen ==> key[..|g|] != g
  {
    assert key[..|f| + 1] == f + [key[|f|]] == g[..|f| + 1];
    if |g| <= plen {
      assert key[..|g|] == key[..plen][..|g|];
    }
  }

  lemma MatchStart(a: Arena, full: Paths, q: Ptr, n: Ptr, key: Bits, plen: nat)
    requires Inv(a, full) && KeyBuffer(key, plen) && q in a && n in a && n != ROOT && a[n].parent == Some(q)
    requires Towards(a, full, n, key[..plen])
    requires !(full[n] <= key[..plen])
    ensures a[q].plen == |full[q]| < plen && |a[n].key| == WORD && |full[q]| < |full[n]| == a[n].plen
    ensures key[..|full[q]| + 1] == full[n][..|full[q]| + 1]
    ensures var i := Index(|full[q]|);
            && WORD * i + WORD <= |key| && |full[n]| <= WORD * i + WORD
            && |full[q]| % WORD == |full[q]| - WORD * i
    ensures |full[n]| <= plen ==> key[..|full[n]|] != full[n]
  {
    EdgeIs(a, full, q, n);
    CommonStart(full[q], full[n], key, plen);
    WordOf(|full[q]|, |full[n]|, |key|);
  }

  /** The edge from q to n stays in one word. */
  lemma EdgeIs(a: Arena, full: Paths, q: Ptr, n: Ptr)
    requires Inv(a, full) && q in a && n in a && n != ROOT && a[n].parent == Some(q)
    ensures |full[q]| == a[q].plen && |full[n]| == a[n].plen && full[q] < full[n]
    ensures Index(|full[n]| - 1) == Index(|full[q]|)
    ensures |a[n].key| == WORD == |a[q].key| && (q == ROOT ==> a[q].plen == 0)
  {
    assert NodeOk(a, full, n) && NodeOk(a, full, q);
  }

  lemma WordOf(i: nat, j: nat, len: nat)
    requires i < j && Index(j - 1) == Index(i) && len % WORD == 0 && i < len
    ensures WORD * Index(i) + WORD <= len && j <= WORD * Index(i) + WORD && i % WORD == i - WORD * Index(i)
  {
  }

  lemma SameWord(i: nat, j: nat)
    requires i < j && Index(j - 1) == Index(i)
    ensures i % WORD != 0 ==> WordStart(i) == WordStart(j)
    ensures i % WORD == 0 && i > 0 ==> WordStart(j) == i == WORD * Index(i - 1) + WORD
  {
  }

  lemma MatchStep(a: Arena, full: Paths, q: Ptr, n: Ptr, key: Bits, m: nat)
    requires Inv(a, full) && |key| % WORD == 0 && q in a && n in a && n != ROOT && a[n].parent == Some(q)
    requires full[q] <= key && |full[q]| <= m < |full[n]| && m < |key|
    requires key[..m] == full[n][..m]
    ensures var i := Index(|full[q]|);
            && WORD * i + WORD <= |key| && |a[n].key| == WORD && WORD * i <= m < WORD * i + WORD
            && (WordAt(key, i)[..m + 1 - WORD * i] == a[n].key[..m + 1 - WORD * i] <==> key[m] == full[n][m])
  {
    EdgeIs(a, full, q, n);
    WordOf(|full[q]|, |full[n]|, |key|);
    WordDecides(a, full, q, n, key, m + 1);
    InOneWord(|full[q]|, m, |full[n]|);
    OneBitMore(key, full[n], m);
  }

  lemma OneBitMore(x: Bits, y: Bits, m: nat)
    requires m < |x| && m < |y| && x[..m] == y[..m]
    ensures x[..m + 1] == y[..m + 1] <==> x[m] == y[m]
  {
    assert x[..m + 1] == x[..m] + [x[m]] && y[..m + 1] == y[..m] + [y[m]];
    assert x[..m + 1][m] == x[m] && y[..m + 1][m] == y[m];
  }

  lemma InOneWord(i: nat, m: nat, j: nat)
    requires i <= m < j && Index(j - 1) == Index(i)
    ensures Index(m) == Index(i) && m % WORD + 1 == m + 1 - WORD * Index(i)
  {
  }

  /** After adding a child on side b, p has a reason to exist. */
  predicate Ready(a: Arena, p: Ptr, b: bool)
    requires p in a
  {
    p == ROOT || a[p].elems != [] || a[p].Child(!b).Some? || a[p].plen % WORD == 0
  }

  /** a' is a with c, a leaf for the first len bits of the key, attached to p. */
  ghost predicate IsLeaf(a: Arena, full: Paths, a': Arena, full': Paths, p: Ptr, c: Ptr, key: Bits, len: nat) {
    && p in a && p in full && c !in a && |full[p]| < len <= |key| && full[p] <= key
    && |key| % WORD == 0 && Index(len - 1) == Index(|full[p]|) && len <= MAX_PLEN
    && a[p].Child(key[|full[p]|]) == None
    && a' == AttachLeaf(a, p, key[|full[p]|], c, len, WordAt(key, Index(|full[p]|)))
    && full' == full[c := key[..len]]
  }

  lemma LeafUndone(a: Arena, full: Paths, a1: Arena, full1: Paths, a2: Arena, p: Ptr, c: Ptr, key: Bits, len: nat)
    requires Inv(a, full) && Inv(a1, full1) && IsLeaf(a, full, a1, full1, p, c, key, len)
    requires a2 == DeleteMaybe(a1, full1, c)
    ensures a2 == DeleteMaybe(a, full, p) && Restrict(full1, a2) == Restrict(full, a2)
  {
    KeyFits(key, full[p], len);
    DeleteUndoesAttach(a, full, a1, full1, p, c, key[..len], WordAt(key, Index(|full[p]|)));
  }

  lemma GrownTransitive(a: Arena, full: Paths, a1: Arena, full1: Paths, c: Ptr, bits1: Bits,
                        a2: Arena, full2: Paths, n: Ptr, bits: Bits)
    requires Grown(a, full, a1, full1, c, bits1) && Grown(a1, full1, a2, full2, n, bits)
    ensures Grown(a, full, a2, full2, n, bits)
  {
  }

  lemma NewLeafFits(a: Arena, full: Paths, p: Ptr, c: Ptr, key: Bits, len: nat)
    requires Inv(a, full) && KeyBuffer(key, len) && p in a && full[p] < key[..len] && Index(len - 1) == Index(|full[p]|)
    requires a[p].Child(key[|full[p]|]) == None && CanonicalExcept(a, p) && Ready(a, p, key[|full[p]|]) && c !in a
    ensures a[p].plen == |full[p]| && WORD * Index(|full[p]|) + WORD <= |key|
    ensures var a' := AttachLeaf(a, p, key[|full[p]|], c, len, WordAt(key, Index(|full[p]|)));
            var full' := full[c := key[..len]];
            && Inv(a', full') && IsLeaf(a, full, a', full', p, c, key, len) && Grown(a, full, a', full', c, key[..len])
            && CanonicalExcept(a', c)
  {
    assert NodeOk(a, full, p);
    KeyFits(key, full[p], len);
    var word := WordAt(key, Index(|full[p]|));
    var a' := AttachLeaf(a, p, key[|full[p]|], c, len, word);
    AttachLeafKeepsInv(a, full, a', full[c := key[..len]], p, c, key[..len], word);
    AttachLeafKeepsCanonical(a, a', p, key[|full[p]|], c, len, word);
  }

  /** A leaf ends with the key, or with the word that its parent's key is in. */
  lemma LeafLength(from: Bits, key: Bits, plen: nat, len: nat)
    requires plen <= |key| && from < key[..plen]
    requires len == if Index(plen - 1) == Index(|from|) then plen else (Index(|from|) + 1) * WORD
    ensures |from| < len <= plen && Index(len - 1) == Index(|from|) && from < key[..len]
    ensures Index(plen - 1) != Index(|from|) ==> len < plen && len % WORD == 0
  {
    assert key[..plen][..|from|] == key[..len][..|from|];
  }

  lemma KeyFits(key: Bits, from: Bits, len: nat)
    requires |key| % WORD == 0 && from <= key && |from| < len <= |key| && len <= MAX_PLEN
    requires Index(len - 1) == Index(|from|)
    ensures WORD * Index(|from|) + WORD <= |key|
    ensures FitsWord(from, key[..len], WordAt(key, Index(|from|)))
  {
    var w := WordStart(len);
    assert w == WORD * Index(|from|);
    assert WordAt(key, Index(|from|))[..len - w] == key[w..len] == key[..len][w..];
  }

  lemma AttachLeafKeepsCanonical(a: Arena, a': Arena, p: Ptr, b: bool, c: Ptr, plen: nat, word: Bits)
    requires p in a && c !in a && CanonicalExcept(a, p) && Ready(a, p, b)
    requires a' == AttachLeaf(a, p, b, c, plen, word)
    ensures CanonicalExcept(a', c)
  {
    forall n | n in a' && n != c ensures CanonicalAt(a', n) {
      assert n != p ==> CanonicalAt(a, n);
    }
  }

  /** a' is a with more nodes on the way to a new, still empty node n for the key bits. */
  ghost predicate Grown(a: Arena, full: Paths, a': Arena, full': Paths, n: Ptr, bits: Bits) {
    && a.Keys == full.Keys && a'.Keys == full'.Keys
    && a.Keys <= a'.Keys && n in a' && n !in a
    && full'[n] == bits
    && (forall x | x in a :: full'[x] == full[x] && a'[x].elems == a[x].elems)
    && (forall x | x in a' && x !in a :: a'[x].elems == [])
  }
}
