/**
  Address space as bit strings, and the free space left by a set of stored keys.

  This file knows nothing about tries.  It defines what the available-prefix
  iteration of src/btrie.c is supposed to list, and proves that the definition
  says the right thing: the list is ordered, pairwise disjoint, free, maximal
  and, together with the stored keys, covers the container.
 */
module FreeSpace {
  type Bits = seq<bool>

  // btrie_plen_t is an 8-bit unsigned integer (src/btrie.h:42)
  const MAX_PLEN := 255

  /** One bit string is the beginning of the other: the two prefixes overlap. */
  predicate Comparable(p: Bits, q: Bits) {
    p <= q || q <= p
  }

  /** x lies entirely before y in address order (hence the two are disjoint). */
  ghost predicate Before(x: Bits, y: Bits) {
    exists i | 0 <= i < |x| && i < |y| :: x[..i] == y[..i] && !x[i] && y[i]
  }

  /** No stored key overlaps p. */
  ghost predicate Free(S: set<Bits>, p: Bits) {
    forall k | k in S :: !Comparable(k, p)
  }

  /** p is inside some stored key. */
  ghost predicate Covered(S: set<Bits>, p: Bits) {
    exists k | k in S :: k <= p
  }

  /** No stored key is a proper prefix of p. */
  ghost predicate Clear(S: set<Bits>, p: Bits) {
    forall k | k in S :: k <= p ==> k == p
  }

  /** Some stored key lies strictly below p. */
  ghost predicate Split(S: set<Bits>, p: Bits) {
    exists k | k in S :: p < k
  }

  ghost predicate Bounded(S: set<Bits>) {
    forall k | k in S :: |k| <= MAX_PLEN
  }

  /** The maximal free prefixes inside p, in address order. */
  ghost function Avail(S: set<Bits>, p: Bits): seq<Bits>
    requires Bounded(S)
    decreases if |p| <= MAX_PLEN then MAX_PLEN - |p| + 1 else 0
  {
    if Covered(S, p) then []
    else if Split(S, p) then Avail(S, p + [false]) + Avail(S, p + [true])
    else [p]
  }

  /** What remains to be listed once everything at and before p has been listed. */
  ghost function Rest(S: set<Bits>, p: Bits, containLen: nat): seq<Bits>
    requires Bounded(S)
    requires containLen <= |p|
    decreases |p|
  {
    if |p| == containLen then []
    else
      var up := p[..|p| - 1];
      if p[|p| - 1] then Rest(S, up, containLen)
      else Avail(S, up + [true]) + Rest(S, up, containLen)
  }

  // ---------- bit string facts ----------

  lemma PrefixesOfOneAreComparable(p: Bits, q: Bits, z: Bits)
    requires p <= z && q <= z
    ensures Comparable(p, q)
  {
    if |p| <= |q| {
      assert p == z[..|p|] == q[..|p|];
    } else {
      assert q == z[..|q|] == p[..|q|];
    }
  }

  lemma BeforeExtends(x: Bits, y: Bits, x': Bits, y': Bits)
    requires Before(x, y) && x <= x' && y <= y'
    ensures Before(x', y')
  {
    var i :| 0 <= i < |x| && i < |y| && x[..i] == y[..i] && !x[i] && y[i];
    assert x'[..i] == x[..i] && y'[..i] == y[..i];
  }

  lemma BeforeIsDisjoint(x: Bits, y: Bits)
    requires Before(x, y)
    ensures !Comparable(x, y)
  {
  }

  lemma BeforeIsOneWay(x: Bits, y: Bits)
    requires Before(x, y)
    ensures !Before(y, x)
  {
    var i :| 0 <= i < |x| && i < |y| && x[..i] == y[..i] && !x[i] && y[i];
    if Before(y, x) {
      var j :| 0 <= j < |x| && j < |y| && x[..j] == y[..j] && x[j] && !y[j];
      assert false;
    }
  }

  lemma SiblingsAreOrdered(p: Bits, x: Bits, y: Bits)
    requires p + [false] <= x && p + [true] <= y
    ensures Before(x, y)
  {
    var i := |p|;
    assert x[..i] == p == y[..i];
    assert x[i] == (p + [false])[i] && y[i] == (p + [true])[i];
  }

  lemma NextBit(p: Bits, k: Bits)
    requires p < k
    ensures p + [k[|p|]] <= k
  {
    assert k[..|p| + 1] == p + [k[|p|]];
  }

  // ---------- what Avail means ----------

  /** Every listed prefix lies in the container, is free, and is maximal. */
  lemma {:induction false} AvailIsFree(S: set<Bits>, p: Bits, r: Bits)
    requires Bounded(S) && r in Avail(S, p)
    ensures p <= r && Free(S, r)
    ensures r == p || !Free(S, r[..|r| - 1])
    decreases if |p| <= MAX_PLEN then MAX_PLEN - |p| + 1 else 0
  {
    if Split(S, p) {
      var b := r in Avail(S, p + [true]);
      AvailIsFree(S, p + [b], r);
      assert p <= p + [b] <= r;
      if r == p + [b] {
        assert r[..|r| - 1] == p;
        var k :| k in S && p < k;
      }
    }
  }

  /** The list is in strictly increasing address order, so its members are disjoint. */
  lemma {:induction false} AvailIsOrdered(S: set<Bits>, p: Bits, i: nat, j: nat)
    requires Bounded(S) && i < j < |Avail(S, p)|
    ensures Before(Avail(S, p)[i], Avail(S, p)[j])
    decreases if |p| <= MAX_PLEN then MAX_PLEN - |p| + 1 else 0
  {
    var l, r := Avail(S, p + [false]), Avail(S, p + [true]);
    if j < |l| {
      AvailIsOrdered(S, p + [false], i, j);
    } else if |l| <= i {
      AvailIsOrdered(S, p + [true], i - |l|, j - |l|);
    } else {
      AvailIsFree(S, p + [false], l[i]);
      AvailIsFree(S, p + [true], r[j - |l|]);
      SiblingsAreOrdered(p, l[i], r[j - |l|]);
    }
  }

  /** Free prefixes are not missed: every free prefix of p is inside a listed one. */
  lemma {:induction false} AvailIsComplete(S: set<Bits>, p: Bits, q: Bits) returns (r: Bits)
    requires Bounded(S) && p <= q && Free(S, q)
    ensures r in Avail(S, p) && r <= q
    decreases if |p| <= MAX_PLEN then MAX_PLEN - |p| + 1 else 0
  {
    assert !Covered(S, p) by {
      assert forall k | k in S && k <= p :: k <= q && Comparable(k, q);
    }
    if Split(S, p) {
      var k :| k in S && p < k;
      assert p != q by { assert !Comparable(k, q); }
      NextBit(p, q);
      if q[|p|] {
        r := AvailIsComplete(S, p + [true], q);
      } else {
        r := AvailIsComplete(S, p + [false], q);
      }
    } else {
      r := p;
    }
  }

  /** Addresses split exactly: a full-length address of the container is inside
      a stored key or inside a listed free prefix, never both. */
  lemma AvailCoversExactly(S: set<Bits>, p: Bits, z: Bits)
    requires Bounded(S) && p <= z && MAX_PLEN <= |z|
    ensures (exists k | k in S :: k <= z) <==> !(exists r | r in Avail(S, p) :: r <= z)
  {
    if k :| k in S && k <= z {
      forall r | r in Avail(S, p) ensures !(r <= z) {
        AvailIsFree(S, p, r);
        if r <= z {
          PrefixesOfOneAreComparable(k, r, z);
        }
      }
    } else {
      forall k | k in S ensures !Comparable(k, z) {
        assert z <= k ==> z == k;
      }
      var r := AvailIsComplete(S, p, z);
    }
  }

  // ---------- the order of the walk ----------

  lemma RestOfChild(S: set<Bits>, p: Bits, containLen: nat)
    requires Bounded(S) && containLen <= |p|
    ensures Rest(S, p + [true], containLen) == Rest(S, p, containLen)
    ensures Rest(S, p + [false], containLen)
         == Avail(S, p + [true]) + Rest(S, p, containLen)
  {
    assert (p + [true])[..|p|] == p;
    assert (p + [false])[..|p|] == p;
  }

  lemma AvailOfSplit(S: set<Bits>, p: Bits, containLen: nat)
    requires Bounded(S) && containLen <= |p|
    requires !Covered(S, p) && Split(S, p)
    ensures Avail(S, p) + Rest(S, p, containLen)
         == Avail(S, p + [false]) + Rest(S, p + [false], containLen)
  {
    RestOfChild(S, p, containLen);
  }

  lemma LeftThenRight(S: set<Bits>, c: Bits, p: Bits, before: seq<Bits>, left: seq<Bits>, right: seq<Bits>)
    requires Bounded(S) && c <= p && Split(S, p) && !Covered(S, p)
    requires left == Avail(S, p + [false]) && right == Avail(S, p + [true]) + Rest(S, p + [true], |c|)
    ensures before + (Avail(S, p) + Rest(S, p, |c|)) == (before + left) + right
  {
    AvailOfSplit(S, p, |c|);
    RestOfChild(S, p, |c|);
    Regroup(before, left, right);
  }

  lemma Regroup<T>(x: seq<T>, y: seq<T>, z: seq<T>)
    ensures x + (y + z) == (x + y) + z
  {
  }

  /** If p is on the way to a stored key and not inside one, so is the prefix above it. */
  lemma ClearAbove(S: set<Bits>, p: Bits)
    requires |p| > 0 && Clear(S, p)
    requires Split(S, p) || p in S
    ensures Clear(S, p[..|p| - 1]) && Split(S, p[..|p| - 1]) && !Covered(S, p[..|p| - 1])
  {
    var up := p[..|p| - 1];
    var k :| k in S && (p < k || p == k);
    assert up < k;
    assert forall k | k in S && k <= up :: k <= p && k != p;
  }

  /** What is left once p is done lies after p. */
  lemma {:induction false} RestIsAfter(S: set<Bits>, p: Bits, containLen: nat, x: Bits)
    requires Bounded(S) && containLen <= |p| && x in Rest(S, p, containLen)
    ensures Before(p, x)
    decreases |p|
  {
    if |p| != containLen {
      var up, b := p[..|p| - 1], p[|p| - 1];
      assert p == up + [b];
      RestOfChild(S, up, containLen);
      if !b && x in Avail(S, up + [true]) {
        AvailIsFree(S, up + [true], x);
        SiblingsAreOrdered(up, p, x);
      } else {
        RestIsAfter(S, up, containLen, x);
        BeforeExtends(up, x, p, x);
      }
    }
  }

  /** Reaching p from the container leaves exactly the listed prefixes before p
      behind, and Avail(p) + Rest(p) ahead. */
  lemma {:induction false} AvailFrom(S: set<Bits>, c: Bits, p: Bits) returns (before: seq<Bits>)
    requires Bounded(S) && c <= p
    requires Clear(S, p)
    requires Split(S, p) || p in S || c == p
    ensures Avail(S, c) == before + (Avail(S, p) + Rest(S, p, |c|))
    ensures forall x | x in before :: Before(x, p)
    decreases |p|
  {
    if c == p {
      before := [];
    } else {
      var up, b := p[..|p| - 1], p[|p| - 1];
      assert p == up + [b];
      ClearAbove(S, p);
      before := AvailFrom(S, c, up);
      forall x | x in before ensures Before(x, p) {
        BeforeExtends(x, up, x, p);
      }
      if b {
        var left := Avail(S, up + [false]);
        forall x | x in left ensures Before(x, p) {
          AvailIsFree(S, up + [false], x);
          SiblingsAreOrdered(up, x, p);
        }
        LeftThenRight(S, c, up, before, left, Avail(S, p) + Rest(S, p, |c|));
        before := before + left;
      } else {
        AvailOfSplit(S, up, |c|);
      }
    }
  }
}
