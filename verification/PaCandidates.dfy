/**
  Counting, numbering and picking the free prefixes of one length (src/pa_rules.c:26-106).
 */
module PaCandidates {
  import opened Wrappers
  import opened FreeSpace
  import opened Bytes

  // ---------- numbers and bits ----------

  /** The low len bits of n, the most significant first */
  function ToBits(n: nat, len: nat): (r: Bits)
    ensures |r| == len
  {
    if len == 0 then [] else ToBits(n / 2, len - 1) + [n % 2 == 1]
  }

  lemma {:induction false} ValueOfBits(n: nat, len: nat)
    requires n < Pow2(len)
    ensures Value(ToBits(n, len)) == n
  {
    if len > 0 {
      ValueOfBits(n / 2, len - 1);
      var b := ToBits(n, len);
      assert b[..len - 1] == ToBits(n / 2, len - 1);
    }
  }

  lemma {:induction false} BitsOfValue(b: Bits)
    ensures Value(b) < Pow2(|b|) && ToBits(Value(b), |b|) == b
  {
    if b != [] {
      var c := b[..|b| - 1];
      BitsOfValue(c);
      assert b == c + [b[|b| - 1]];
    }
  }

  lemma {:induction false} Pow2Sum(a: nat, b: nat)
    ensures Pow2(a + b) == Pow2(a) * Pow2(b)
  {
    if a > 0 {
      Pow2Sum(a - 1, b);
      Doubled(Pow2(a - 1), Pow2(b));
    }
  }

  lemma Doubled(x: nat, y: nat)
    ensures 2 * (x * y) == (2 * x) * y
  {
  }

  lemma {:induction false} Pow2Grows(a: nat, b: nat)
    requires a <= b
    ensures 1 <= Pow2(a) <= Pow2(b)
    decreases b
  {
    if a < b {
      Pow2Grows(a, b - 1);
    } else if a > 0 {
      Pow2Grows(a - 1, b - 1);
    }
  }

  lemma Pow2Of32()
    ensures Pow2(32) == 0x1_0000_0000 && Pow2(31) == 0x8000_0000 && Pow2(30) == 0x4000_0000
  {
    assert Pow2(8) == 256;
    Pow2Sum(8, 8);
    Pow2Sum(16, 8);
    Pow2Sum(24, 6);
    assert Pow2(6) == 64;
    assert Pow2(30) == 0x4000_0000;
  }

  // ---------- the n-th prefix of a container ----------

  /** How many numbers pa_rule_prefix_nth tells apart (a number has 32 bits) */
  function Width(container: Bits, plen: nat): nat
    requires |container| <= plen
  {
    if plen - |container| > 32 then 32 else plen - |container|
  }

  /** pa_rule_prefix_nth (src/pa_rules.c:26-36): the container, zeros, and as many low bits of n as fit */
  function Nth(container: Bits, n: nat, plen: nat): (r: Bits)
    requires |container| <= plen
    ensures |r| == plen && container <= r
  {
    Head(container, plen) + ToBits(n, Width(container, plen))
  }

  /** The container and the zeros */
  function Head(container: Bits, plen: nat): (r: Bits)
    requires |container| <= plen
    ensures |r| == plen - Width(container, plen) && container <= r
  {
    if plen - |container| > 32 then container + seq(plen - |container| - 32, _ => false) else container
  }

  /** The numbering follows the order of the addresses, and numbers below 2^w give different ones. */
  lemma NthIsOrdered(container: Bits, n: nat, m: nat, plen: nat)
    requires |container| <= plen && n < m < Pow2(Width(container, plen))
    ensures Less(Nth(container, n, plen), Nth(container, m, plen))
  {
    var w, a := Width(container, plen), Head(container, plen);
    ValueOfBits(n, w);
    ValueOfBits(m, w);
    ValueOrder(ToBits(n, w), ToBits(m, w));
    LessInParts(a, a, ToBits(n, w), ToBits(m, w));
  }

  /** Up to 32 bits of freedom, the numbering reaches every prefix. */
  lemma NthReachesAll(container: Bits, rest: Bits, n: nat, plen: nat)
    requires |rest| <= 32 && plen == |container| + |rest| && n == Value(rest)
    ensures n < Pow2(|rest|) && Nth(container, n, plen) == container + rest
  {
    BitsOfValue(rest);
  }

  lemma NthIsInjective(container: Bits, n: nat, m: nat, plen: nat)
    requires |container| <= plen && n != m && n < Pow2(Width(container, plen)) && m < Pow2(Width(container, plen))
    ensures Nth(container, n, plen) != Nth(container, m, plen)
  {
    var x, y := Nth(container, n, plen), Nth(container, m, plen);
    if n < m {
      NthIsOrdered(container, n, m, plen);
    } else {
      NthIsOrdered(container, m, n, plen);
    }
    LessIsTotal(x, y);
  }

  // ---------- counting ----------

  /** How many prefixes of length d lie in the listed ones of length lo to d */
  function Room(avail: seq<Bits>, d: nat, lo: nat): nat {
    if avail == [] then 0
    else (if lo <= |avail[0]| <= d then Pow2(d - |avail[0]|) else 0) + Room(avail[1..], d, lo)
  }

  /** How many listed prefixes have length len */
  function CountOf(avail: seq<Bits>, len: nat): nat {
    if avail == [] then 0 else (if |avail[0]| == len then 1 else 0) + CountOf(avail[1..], len)
  }

  lemma {:induction false} RoomByLength(avail: seq<Bits>, d: nat, lo: nat)
    requires lo <= d
    ensures Room(avail, d, lo) == Room(avail, d, lo + 1) + CountOf(avail, lo) * Pow2(d - lo)
  {
    if avail != [] {
      RoomByLength(avail[1..], d, lo);
      var c := CountOf(avail[1..], lo);
      assert (c + 1) * Pow2(d - lo) == c * Pow2(d - lo) + Pow2(d - lo);
    }
  }

  lemma {:induction false} RoomAbove(avail: seq<Bits>, d: nat)
    ensures Room(avail, d, d + 1) == 0
  {
    if avail != [] {
      RoomAbove(avail[1..], d);
    }
  }

  lemma {:induction false} CountOfMore(avail: seq<Bits>, x: Bits, len: nat)
    ensures CountOf(avail + [x], len) == CountOf(avail, len) + if |x| == len then 1 else 0
  {
    if avail == [] {
      assert avail + [x] == [x];
    } else {
      assert (avail + [x])[1..] == avail[1..] + [x];
      CountOfMore(avail[1..], x, len);
    }
  }

  // ---------- an independent count ----------

  /** All bit strings of length d that extend p */
  ghost function Extensions(p: Bits, d: nat): set<Bits>
    decreases d - |p|
  {
    if |p| > d then {}
    else if |p| == d then {p}
    else Extensions(p + [false], d) + Extensions(p + [true], d)
  }

  lemma {:induction false} ExtensionsAre(p: Bits, d: nat, x: Bits)
    ensures x in Extensions(p, d) <==> p <= x && |x| == d
    decreases d - |p|
  {
    if |p| < d {
      ExtensionsAre(p + [false], d, x);
      ExtensionsAre(p + [true], d, x);
      if p <= x && |x| == d {
        NextBit(p, x);
        if x[|p|] {
          assert p + [true] <= x;
        } else {
          assert p + [false] <= x;
        }
      }
    } else if |p| == d && p <= x && |x| == d {
      assert x == p;
    }
  }

  lemma {:induction false} ExtensionsCount(p: Bits, d: nat)
    requires |p| <= d
    ensures |Extensions(p, d)| == Pow2(d - |p|)
    decreases d - |p|
  {
    if |p| < d {
      var l, r := Extensions(p + [false], d), Extensions(p + [true], d);
      ExtensionsCount(p + [false], d);
      ExtensionsCount(p + [true], d);
      ExtensionsApart(p, d);
      UnionCount(l, r);
      assert Extensions(p, d) == l + r;
    } else {
      assert Extensions(p, d) == {p};
    }
  }

  lemma UnionCount(l: set<Bits>, r: set<Bits>)
    requires l !! r
    ensures |l + r| == |l| + |r|
  {
  }

  lemma ExtensionsApart(p: Bits, d: nat)
    requires |p| < d
    ensures Extensions(p + [false], d) !! Extensions(p + [true], d)
  {
    forall x | x in Extensions(p + [false], d) ensures x !in Extensions(p + [true], d) {
      ExtensionsAre(p + [false], d, x);
      ExtensionsAre(p + [true], d, x);
      assert x[|p|] == (p + [false])[|p|] != (p + [true])[|p|];
    }
  }

  /** The free prefixes of length d inside p */
  ghost function FreeOfLength(S: set<Bits>, p: Bits, d: nat): set<Bits> {
    set x | x in Extensions(p, d) && Free(S, x)
  }

  /** The available prefixes of length up to d have room for exactly the free prefixes of length d. */
  lemma {:induction false} RoomIsFreeCount(S: set<Bits>, p: Bits, d: nat)
    requires Bounded(S)
    ensures Room(Avail(S, p), d, 0) == |FreeOfLength(S, p, d)|
    decreases if |p| <= MAX_PLEN then MAX_PLEN - |p| + 1 else 0
  {
    var free := FreeOfLength(S, p, d);
    if Covered(S, p) {
      var k :| k in S && k <= p;
      forall x | x in Extensions(p, d) ensures !Free(S, x) {
        ExtensionsAre(p, d, x);
        assert k <= x && Comparable(k, x);
      }
      assert free == {};
    } else if Split(S, p) {
      var l, r := p + [false], p + [true];
      RoomIsFreeCount(S, l, d);
      RoomIsFreeCount(S, r, d);
      RoomOfBoth(Avail(S, l), Avail(S, r), d, 0);
      SplitFree(S, p, d);
    } else {
      UnsplitFree(S, p, d);
    }
  }

  lemma {:induction false} RoomOfBoth(a: seq<Bits>, b: seq<Bits>, d: nat, lo: nat)
    ensures Room(a + b, d, lo) == Room(a, d, lo) + Room(b, d, lo)
    decreases |a|
  {
    if a == [] {
      assert a + b == b;
    } else {
      assert (a + b)[1..] == a[1..] + b;
      RoomOfBoth(a[1..], b, d, lo);
    }
  }

  lemma SplitFree(S: set<Bits>, p: Bits, d: nat)
    requires Split(S, p)
    ensures |FreeOfLength(S, p, d)| == |FreeOfLength(S, p + [false], d)| + |FreeOfLength(S, p + [true], d)|
  {
    var l, r, all := FreeOfLength(S, p + [false], d), FreeOfLength(S, p + [true], d), FreeOfLength(S, p, d);
    if |p| < d {
      ExtensionsApart(p, d);
      assert all == l + r && l !! r;
    } else {
      var k :| k in S && p < k;
      assert forall x | x in all :: x == p && Comparable(k, x);
      assert all == {} && l == {} && r == {};
    }
  }

  lemma UnsplitFree(S: set<Bits>, p: Bits, d: nat)
    requires Bounded(S) && !Covered(S, p) && !Split(S, p)
    ensures |FreeOfLength(S, p, d)| == if |p| <= d then Pow2(d - |p|) else 0
    ensures Room([p], d, 0) == if |p| <= d then Pow2(d - |p|) else 0
  {
    forall x | x in Extensions(p, d) ensures Free(S, x) {
      ExtensionsAre(p, d, x);
      forall k | k in S ensures !Comparable(k, x) {
        if k <= x {
          PrefixesOfOneAreComparable(k, p, x);
        }
      }
    }
    assert FreeOfLength(S, p, d) == Extensions(p, d);
    if |p| <= d {
      ExtensionsCount(p, d);
    }
    assert [p][1..] == [];
  }

  // ---------- the candidate subset ----------

  const COUNT_MAX := 0xffff     // counts have 16 bits

  /** The counts that pa_rule_prefix_count computes */
  ghost predicate Counts(avail: seq<Bits>, count: seq<nat>) {
    forall l | 0 <= l < |count| :: count[l] == if CountOf(avail, l) <= COUNT_MAX then CountOf(avail, l) else COUNT_MAX
  }

  /** Those counts, for the lengths below n */
  ghost function CountsOf(avail: seq<Bits>, n: nat): (r: seq<nat>)
    ensures |r| == n && Counts(avail, r)
  {
    seq(n, l requires 0 <= l < n => if CountOf(avail, l) <= COUNT_MAX then CountOf(avail, l) else COUNT_MAX)
  }

  lemma CountsAreOne(avail: seq<Bits>, count: seq<nat>)
    requires Counts(avail, count)
    ensures count == CountsOf(avail, |count|)
  {
  }

  /** (uint64_t)(1 << k): at 31 the int is negative and its sign is extended. */
  function Shift1(k: nat): nat {
    if k < 31 then Pow2(k) else 0xffff_ffff_8000_0000
  }

  /** c + count * (uint64_t)(1 << k), in 64 bits */
  function Sum64(c: nat, count: nat, k: nat): nat {
    (c + count * Shift1(k)) % 0x1_0000_0000_0000_0000
  }

  /** The 64-bit comparison is the exact one, also where the shift has gone wrong. */
  lemma SumIsExact(c: nat, count: nat, k: nat, limit: nat)
    requires k < 32 && 1 <= count <= COUNT_MAX && c <= limit <= COUNT_MAX
    ensures Sum64(c, count, k) > limit <==> c + count * Pow2(k) > limit
    ensures c + count * Pow2(k) <= limit ==> Sum64(c, count, k) == c + count * Pow2(k)
  {
    if k < 31 {
      SmallShift(c, count, k);
    } else {
      assert k == 31;
      Pow2Of32();
      WrongShift(c, count);
      Product(1, Pow2(31), count, Pow2(31));
    }
  }

  lemma SmallShift(c: nat, count: nat, k: nat)
    requires k < 31 && count <= COUNT_MAX && c <= COUNT_MAX
    ensures Sum64(c, count, k) == c + count * Pow2(k)
  {
    Pow2Small(k);
    var p := Pow2(k);
    SmallProduct(c, count, p);
  }

  lemma Pow2Small(k: nat)
    requires k < 31
    ensures Pow2(k) <= 0x4000_0000
  {
    Pow2Of32();
    Pow2Grows(k, 30);
  }

  lemma SmallProduct(c: nat, count: nat, p: nat)
    requires count <= COUNT_MAX && c <= COUNT_MAX && p <= 0x4000_0000
    ensures (c + count * p) % 0x1_0000_0000_0000_0000 == c + count * p
  {
    Product(count, p, COUNT_MAX, 0x4000_0000);
    SmallSum(c, count * p);
  }

  lemma SmallSum(c: nat, p: nat)
    requires c <= COUNT_MAX && p <= COUNT_MAX * 0x4000_0000
    ensures (c + p) % 0x1_0000_0000_0000_0000 == c + p
  {
  }

  lemma WrongShift(c: nat, count: nat)
    requires 1 <= count <= COUNT_MAX && c <= COUNT_MAX
    ensures (c + count * 0xffff_ffff_8000_0000) % 0x1_0000_0000_0000_0000 > COUNT_MAX
  {
    var w, r := 0x1_0000_0000_0000_0000, 0x1_0000_0000_0000_0000 - count * 0x8000_0000 + c;
    assert c + count * 0xffff_ffff_8000_0000 == (count - 1) * w + r;
    assert 0 <= r < w;
    Remainder(count - 1, r);
  }

  lemma Product(a: nat, b: nat, c: nat, d: nat)
    requires a <= c && b <= d
    ensures a * b <= c * d
  {
    assert a * b <= c * b <= c * d;
  }

  lemma Remainder(q: nat, r: nat)
    requires r < 0x1_0000_0000_0000_0000
    ensures (q * 0x1_0000_0000_0000_0000 + r) % 0x1_0000_0000_0000_0000 == r
  {
  }

  lemma {:induction false} RoomShrinks(avail: seq<Bits>, d: nat, lo: nat, hi: nat)
    requires lo <= hi
    ensures Room(avail, d, hi) <= Room(avail, d, lo)
  {
    if avail != [] {
      RoomShrinks(avail[1..], d, lo, hi);
    }
  }

  /** Seen from length plen, where c prefixes lie in longer available ones: there is more room than
      wanted, or a count is exact. */
  lemma AtLength(avail: seq<Bits>, count: seq<nat>, d: nat, plen: nat, c: nat, limit: nat)
    requires Counts(avail, count) && plen <= d < |count| && c == Room(avail, d, plen + 1) <= limit <= COUNT_MAX
    ensures d - plen >= 32 && count[plen] > 0 ==> limit < Room(avail, d, plen)
    ensures d - plen < 32 && count[plen] > 0 && Sum64(c, count[plen], d - plen) > limit ==> limit < Room(avail, d, plen)
    ensures d - plen < 32 && count[plen] > 0 && Sum64(c, count[plen], d - plen) < limit ==>
      Sum64(c, count[plen], d - plen) == Room(avail, d, plen)
    ensures d - plen < 32 && count[plen] > 0 && Sum64(c, count[plen], d - plen) == limit ==>
      limit <= Room(avail, d, plen)
    ensures count[plen] == 0 ==> c == Room(avail, d, plen)
  {
    var k, n := d - plen, CountOf(avail, plen);
    RoomByLength(avail, d, plen);
    if count[plen] > 0 {
      Pow2Of32();
      Product(count[plen], Pow2(k), n, Pow2(k));
      if k >= 32 {
        Pow2Grows(32, k);
        Product(1, Pow2(32), n, Pow2(k));
      } else {
        SumIsExact(c, count[plen], k, limit);
        Pow2Grows(0, k);
        if n > COUNT_MAX {
          Product(COUNT_MAX, 1, count[plen], Pow2(k));
        }
      }
    }
  }

  /** The desired length, how many candidates there are, the shortest available length they are taken
      from, and how many are taken from that length if not all are */
  datatype Subset = Subset(plen: nat, found: nat, min: nat, overflow: nat)

  /** Exactly the count of the desired length is cut off, at the size of the set. */
  ghost predicate Saturated(avail: seq<Bits>, d: nat, limit: nat) {
    limit == COUNT_MAX < CountOf(avail, d)
  }

  /** c describes the candidates: as many as wanted, or all there are, from the longest available
      prefixes on. */
  ghost predicate Candidates(avail: seq<Bits>, limit: nat, c: Subset) {
    && c.min <= c.plen
    && c.found == (if limit <= Room(avail, c.plen, 0) then limit else Room(avail, c.plen, 0))
    && (c.found > 0 ==> CountOf(avail, c.min) > 0 && Ends(avail, limit, c) && Narrow(avail, c))
  }

  /** Where they end: within the available prefixes of length min, or with the last of these */
  ghost predicate Ends(avail: seq<Bits>, limit: nat, c: Subset) {
    if Saturated(avail, c.plen, limit) then
      c.overflow == 0 && c.min == c.plen && c.found == limit
    else if c.overflow > 0 then
      c.found == limit == Room(avail, c.plen, c.min + 1) + c.overflow < Room(avail, c.plen, c.min)
    else
      c.found == Room(avail, c.plen, c.min)
  }

  /** Prefixes that are taken whole leave less than 32 bits open. */
  ghost predicate Narrow(avail: seq<Bits>, c: Subset) {
    && NarrowFrom(avail, c.plen, c.min + 1)
    && (c.overflow == 0 ==> c.plen < c.min + 32)
  }

  ghost predicate NarrowFrom(avail: seq<Bits>, d: nat, lo: nat) {
    forall l | lo <= l <= d && CountOf(avail, l) > 0 :: d < l + 32
  }

  /** Length, size and list determine the candidates. */
  lemma CandidatesAreOne(avail: seq<Bits>, limit: nat, c: Subset, e: Subset)
    requires Candidates(avail, limit, c) && Candidates(avail, limit, e) && c.plen == e.plen && c.found > 0
    ensures c == e
  {
    if c.min < e.min {
      ShorterIsDifferent(avail, limit, c, e);
    } else if e.min < c.min {
      ShorterIsDifferent(avail, limit, e, c);
    }
  }

  lemma ShorterIsDifferent(avail: seq<Bits>, limit: nat, c: Subset, e: Subset)
    requires Candidates(avail, limit, c) && Candidates(avail, limit, e) && c.plen == e.plen && c.found > 0
    ensures c.min >= e.min
  {
    var d := c.plen;
    if c.min < e.min {
      RoomShrinks(avail, d, c.min + 1, e.min);
      RoomByLength(avail, d, c.min);
      Pow2Grows(0, d - c.min);
      Product(1, 1, CountOf(avail, c.min), Pow2(d - c.min));
      assert false;
    }
  }

  /** More than the limit at length d: only these are counted, and there is more room. */
  lemma SaturatedAt(avail: seq<Bits>, count: seq<nat>, d: nat, plen: nat, c: nat, limit: nat)
    requires Counts(avail, count) && plen <= d < |count| && c == Room(avail, d, plen + 1) <= limit <= COUNT_MAX
    requires d < plen + 32 && count[plen] > 0 && Sum64(c, count[plen], d - plen) == limit
    ensures (plen == d && Saturated(avail, d, limit)) || limit == Room(avail, d, plen)
  {
    var k, n := d - plen, CountOf(avail, plen);
    RoomByLength(avail, d, plen);
    SumIsExact(c, count[plen], k, limit);
    if n > COUNT_MAX {
      Pow2Grows(0, k);
      Product(COUNT_MAX, 1, COUNT_MAX, Pow2(k));
      if plen < d {
        Pow2Grows(1, k);
        Product(COUNT_MAX, 2, COUNT_MAX, Pow2(k));
        assert false;
      }
    }
  }

  /** Where the loop gets past length d, its count is not cut off at the limit. */
  lemma NotSaturated(avail: seq<Bits>, count: seq<nat>, d: nat, limit: nat)
    requires Counts(avail, count) && d < |count| && limit <= COUNT_MAX
    requires count[d] == 0 || Sum64(0, count[d], 0) != limit
    ensures !Saturated(avail, d, limit)
  {
    if count[d] > 0 {
      SumIsExact(0, count[d], 0, limit);
    }
  }

  /** Before length plen is looked at: c candidates lie in longer prefixes, of length min and more. */
  ghost predicate Counting(avail: seq<Bits>, d: nat, limit: nat, plen: nat, c: nat, min: nat) {
    && plen <= d && min <= d && c == Room(avail, d, plen + 1) <= limit && NarrowFrom(avail, d, plen + 1)
    && (c > 0 ==> c < limit && CountOf(avail, min) > 0 && c == Room(avail, d, min) && d < min + 32)
    && (plen < d ==> !Saturated(avail, d, limit))
  }

  /** No available prefix of length plen */
  lemma CountingOn(avail: seq<Bits>, count: seq<nat>, d: nat, limit: nat, plen: nat, c: nat, min: nat)
    requires Counting(avail, d, limit, plen, c, min) && Counts(avail, count) && d < |count| && limit <= COUNT_MAX
    requires count[plen] == 0
    ensures c == Room(avail, d, plen) && NarrowFrom(avail, d, plen) && !Saturated(avail, d, limit)
  {
    AtLength(avail, count, d, plen, c, limit);
    if plen == d {
      NotSaturated(avail, count, d, limit);
    }
  }

  /** Some, and the set is not full with them */
  lemma CountingUp(avail: seq<Bits>, count: seq<nat>, d: nat, limit: nat, plen: nat, c: nat, min: nat)
    requires Counting(avail, d, limit, plen, c, min) && Counts(avail, count) && d < |count| && limit <= COUNT_MAX
    requires count[plen] > 0 && d < plen + 32 && Sum64(c, count[plen], d - plen) < limit
    ensures Sum64(c, count[plen], d - plen) == Room(avail, d, plen)
    ensures CountOf(avail, plen) > 0 && NarrowFrom(avail, d, plen) && !Saturated(avail, d, limit)
  {
    AtLength(avail, count, d, plen, c, limit);
    if plen == d {
      RoomAbove(avail, d);
      NotSaturated(avail, count, d, limit);
    }
  }

  /** The set is full with them. */
  lemma CountingEnds(avail: seq<Bits>, count: seq<nat>, d: nat, limit: nat, plen: nat, c: nat, min: nat)
    requires Counting(avail, d, limit, plen, c, min) && Counts(avail, count) && d < |count| && limit <= COUNT_MAX
    requires count[plen] > 0 && d < plen + 32 && Sum64(c, count[plen], d - plen) == limit
    ensures Candidates(avail, limit, Subset(d, limit, plen, 0))
  {
    AtLength(avail, count, d, plen, c, limit);
    RoomShrinks(avail, d, 0, plen);
    SaturatedAt(avail, count, d, plen, c, limit);
    if limit == Room(avail, d, plen) {
      OnlySaturatedIfLong(avail, d, limit, plen);
    }
  }

  /** They are more than the set still holds. */
  lemma CountingOver(avail: seq<Bits>, count: seq<nat>, d: nat, limit: nat, plen: nat, c: nat, min: nat)
    requires Counting(avail, d, limit, plen, c, min) && Counts(avail, count) && d < |count| && limit <= COUNT_MAX
    requires count[plen] > 0 && (d >= plen + 32 || Sum64(c, count[plen], d - plen) > limit)
    ensures Candidates(avail, limit, Subset(d, limit, plen, limit - c))
  {
    AtLength(avail, count, d, plen, c, limit);
    RoomShrinks(avail, d, 0, plen);
    if plen == d {
      RoomAbove(avail, d);
      NotSaturated(avail, count, d, limit);
    }
  }

  lemma OnlySaturatedIfLong(avail: seq<Bits>, d: nat, limit: nat, plen: nat)
    requires plen <= d && limit == Room(avail, d, plen)
    ensures !Saturated(avail, d, limit)
  {
    RoomShrinks(avail, d, plen, d);
    RoomByLength(avail, d, d);
  }

  /** pa_rule_candidate_subset (src/pa_rules.c:55-81) */
  method CandidateSubset(count: seq<nat>, d: nat, limit: nat, ghost avail: seq<Bits>) returns (r: Subset)
    requires d < |count| && limit <= COUNT_MAX && Counts(avail, count)
    ensures r.plen == d && Candidates(avail, limit, r)
  {
    var plen: nat, c: nat, min: nat := d, 0, 0;
    RoomAbove(avail, d);
    while true
      invariant Counting(avail, d, limit, plen, c, min)
      decreases plen
    {
      if count[plen] != 0 {
        if d - plen >= 32 || Sum64(c, count[plen], d - plen) > limit {
          CountingOver(avail, count, d, limit, plen, c, min);
          return Subset(d, limit, plen, limit - c);
        }
        if Sum64(c, count[plen], d - plen) == limit {
          CountingEnds(avail, count, d, limit, plen, c, min);
          return Subset(d, limit, plen, 0);
        }
        CountingUp(avail, count, d, limit, plen, c, min);
        min := plen;
        c := Sum64(c, count[plen], d - plen);
      } else {
        CountingOn(avail, count, d, limit, plen, c, min);
      }
      if plen == 0 {
        return Subset(d, c, min, 0);
      }
      plen := plen - 1;
    }
  }

  // ---------- picking a candidate ----------

  // numbers have 32 bits
  const WORDS := 0x1_0000_0000

  /** How many prefixes of length d pa_rule_candidate_pick takes from an available prefix */
  function Size(a: Bits, d: nat): nat
    requires |a| <= d
  {
    Pow2(Width(a, d))
  }

  ghost predicate Within(list: seq<Bits>, d: nat) {
    forall i | 0 <= i < |list| :: |list[i]| <= d
  }

  /** Number n of the prefixes of length d inside the listed ones, one after the other */
  ghost function Pick(list: seq<Bits>, n: nat, d: nat): Option<Bits>
    requires Within(list, d)
  {
    if list == [] then None
    else if n < Size(list[0], d) then Some(Nth(list[0], n, d))
    else Pick(list[1..], n - Size(list[0], d), d)
  }

  ghost function Total(list: seq<Bits>, d: nat): nat
    requires Within(list, d)
  {
    if list == [] then 0 else Size(list[0], d) + Total(list[1..], d)
  }

  /** Every number below the total is taken, and picks a prefix of the right length in one of the list. */
  lemma {:induction false} PickIsIn(list: seq<Bits>, n: nat, d: nat)
    requires Within(list, d)
    ensures Pick(list, n, d).Some? <==> n < Total(list, d)
    ensures Pick(list, n, d).Some? ==>
      |Pick(list, n, d).value| == d && exists a | a in list :: a <= Pick(list, n, d).value
    decreases |list|
  {
    if list != [] {
      if n < Size(list[0], d) {
        assert list[0] in list;
      } else {
        PickIsIn(list[1..], n - Size(list[0], d), d);
        assert forall a | a in list[1..] :: a in list;
      }
    }
  }

  ghost predicate Disjoint(list: seq<Bits>) {
    forall i, j | 0 <= i < j < |list| :: !Comparable(list[i], list[j])
  }

  /** Different numbers pick different prefixes. */
  lemma {:induction false} PickIsInjective(list: seq<Bits>, n: nat, m: nat, d: nat)
    requires Within(list, d) && Disjoint(list) && n < m < Total(list, d)
    ensures Pick(list, n, d).Some? && Pick(list, m, d).Some? && Pick(list, n, d).value != Pick(list, m, d).value
    decreases |list|
  {
    PickIsIn(list, n, d);
    PickIsIn(list, m, d);
    var a, size := list[0], Size(list[0], d);
    if m < size {
      NthIsInjective(a, n, m, d);
    } else if n < size {
      PickIsIn(list[1..], m - size, d);
      var y := Pick(list, m, d).value;
      var b :| b in list[1..] && b <= y;
      assert !Comparable(a, b);
      if y == Nth(a, n, d) {
        PrefixesOfOneAreComparable(a, b, y);
      }
    } else {
      PickIsInjective(list[1..], n - size, m - size, d);
    }
  }

  /** Every prefix of length d in a listed one, with up to 32 bits of freedom, is picked. */
  lemma {:induction false} PickReachesAll(list: seq<Bits>, d: nat, a: Bits, x: Bits) returns (n: nat)
    requires Within(list, d) && a in list && a <= x && |x| == d <= |a| + 32
    ensures n < Total(list, d) && Pick(list, n, d) == Some(x)
    decreases |list|
  {
    if a == list[0] {
      n := Value(x[|a|..]);
      assert x == a + x[|a|..];
      NthReachesAll(a, x[|a|..], n, d);
    } else {
      var m := PickReachesAll(list[1..], d, a, x);
      n := m + Size(list[0], d);
    }
  }

  /** The listed prefixes with a length from lo to hi */
  ghost function OfLengths(avail: seq<Bits>, lo: nat, hi: nat): seq<Bits> {
    if avail == [] then []
    else (if lo <= |avail[0]| <= hi then [avail[0]] else []) + OfLengths(avail[1..], lo, hi)
  }

  lemma {:induction false} OfLengthsAre(avail: seq<Bits>, lo: nat, hi: nat)
    ensures forall x | x in OfLengths(avail, lo, hi) :: x in avail && lo <= |x| <= hi
  {
    if avail != [] {
      OfLengthsAre(avail[1..], lo, hi);
    }
  }

  lemma {:induction false} OfLengthsIsDisjoint(avail: seq<Bits>, lo: nat, hi: nat)
    requires Disjoint(avail)
    ensures Disjoint(OfLengths(avail, lo, hi))
  {
    if avail != [] {
      var rest := OfLengths(avail[1..], lo, hi);
      OfLengthsIsDisjoint(avail[1..], lo, hi);
      OfLengthsAre(avail[1..], lo, hi);
      if lo <= |avail[0]| <= hi {
        assert OfLengths(avail, lo, hi) == [avail[0]] + rest;
        forall j | 0 <= j < |rest| ensures !Comparable(avail[0], rest[j]) {
          assert rest[j] in rest;
          var k :| 0 <= k < |avail[1..]| && avail[1..][k] == rest[j];
          assert avail[k + 1] == rest[j];
        }
      } else {
        assert OfLengths(avail, lo, hi) == rest;
      }
    }
  }

  /** What pa_rule_candidate_pick goes through: the longer available prefixes, then the shortest */
  ghost function Order(avail: seq<Bits>, min: nat, max: nat): seq<Bits> {
    OfLengths(avail, min + 1, max) + OfLengths(avail, min, min)
  }

  lemma OrderIsWithin(avail: seq<Bits>, min: nat, max: nat, d: nat)
    requires min <= d && max <= d
    ensures Within(Order(avail, min, max), d)
  {
    var list := Order(avail, min, max);
    OfLengthsAre(avail, min + 1, max);
    OfLengthsAre(avail, min, min);
    forall i | 0 <= i < |list| ensures |list[i]| <= d {
      assert list[i] in OfLengths(avail, min + 1, max) || list[i] in OfLengths(avail, min, min);
    }
  }

  lemma OrderIsDisjoint(avail: seq<Bits>, min: nat, max: nat)
    requires Disjoint(avail)
    ensures Disjoint(Order(avail, min, max))
  {
    var a, b := OfLengths(avail, min + 1, max), OfLengths(avail, min, min);
    OfLengthsIsDisjoint(avail, min + 1, max);
    OfLengthsIsDisjoint(avail, min, min);
    OfLengthsAre(avail, min + 1, max);
    OfLengthsAre(avail, min, min);
    forall i, j | 0 <= i < |a| && 0 <= j < |b| ensures !Comparable(a[i], b[j]) {
      assert a[i] in a && b[j] in b;
      var k :| 0 <= k < |avail| && avail[k] == a[i];
      var l :| 0 <= l < |avail| && avail[l] == b[j];
      assert k != l;
    }
  }

  lemma {:induction false} TotalOfBoth(a: seq<Bits>, b: seq<Bits>, d: nat)
    requires Within(a, d) && Within(b, d)
    ensures Within(a + b, d) && Total(a + b, d) == Total(a, d) + Total(b, d)
    decreases |a|
  {
    if a == [] {
      assert a + b == b;
    } else {
      assert (a + b)[1..] == a[1..] + b;
      TotalOfBoth(a[1..], b, d);
    }
  }

  /** There are as many numbers as there is room, or all that 32 bits can hold. */
  lemma {:induction false} TotalHasRoom(avail: seq<Bits>, lo: nat, hi: nat, d: nat)
    requires lo <= hi <= d
    ensures Within(OfLengths(avail, lo, hi), d)
    ensures Total(OfLengths(avail, lo, hi), d) <= Room(avail, d, lo) - Room(avail, d, hi + 1)
    ensures Total(OfLengths(avail, lo, hi), d) >= WORDS ||
      Total(OfLengths(avail, lo, hi), d) == Room(avail, d, lo) - Room(avail, d, hi + 1)
  {
    if avail != [] {
      TotalHasRoom(avail[1..], lo, hi, d);
      var rest := OfLengths(avail[1..], lo, hi);
      if lo <= |avail[0]| <= hi {
        assert OfLengths(avail, lo, hi) == [avail[0]] + rest;
        TotalOfOneMore(avail[0], rest, d);
        SizeHasRoom(avail[0], d);
      } else {
        assert OfLengths(avail, lo, hi) == rest;
      }
    }
  }

  lemma TotalOfOneMore(a: Bits, rest: seq<Bits>, d: nat)
    requires |a| <= d && Within(rest, d)
    ensures Within([a] + rest, d) && Total([a] + rest, d) == Size(a, d) + Total(rest, d)
  {
    assert ([a] + rest)[1..] == rest;
  }

  lemma SizeHasRoom(a: Bits, d: nat)
    requires |a| <= d
    ensures Size(a, d) <= Pow2(d - |a|) && (Size(a, d) >= WORDS || Size(a, d) == Pow2(d - |a|))
  {
    Pow2Of32();
    Pow2Grows(Width(a, d), d - |a|);
  }

  /** A number below the room of the available prefixes of length min to d is taken. */
  lemma OrderHasRoom(avail: seq<Bits>, min: nat, d: nat, n: nat)
    requires min <= d && n < Room(avail, d, min) && n < WORDS
    ensures Within(Order(avail, min, d), d) && n < Total(Order(avail, min, d), d)
  {
    var a, b := OfLengths(avail, min + 1, d), OfLengths(avail, min, min);
    TotalHasRoom(avail, min, min, d);
    RoomAbove(avail, d);
    if min < d {
      TotalHasRoom(avail, min + 1, d, d);
    } else {
      OfLengthsNothing(avail, d);
    }
    TotalOfBoth(a, b, d);
  }

  lemma {:induction false} OfLengthsNothing(avail: seq<Bits>, d: nat)
    ensures OfLengths(avail, d + 1, d) == []
  {
    if avail != [] {
      OfLengthsNothing(avail[1..], d);
    }
  }

  /** pa_rule_candidate_pick (src/pa_rules.c:85-106) over the list of available prefixes */
  method CandidatePick(avail: seq<Bits>, number: nat, plen: nat, min: nat, max: nat) returns (r: Option<Bits>)
    requires min <= plen && max <= plen && number < WORDS
    ensures Within(Order(avail, min, max), plen) && r == Pick(Order(avail, min, max), number, plen)
  {
    OrderIsWithin(avail, min, max, plen);
    OfLengthsAre(avail, min, min);
    var n;
    r, n := PickPass(avail, number, plen, min + 1, max, OfLengths(avail, min, min));
    if r.Some? {
      return;
    }
    ghost var last := OfLengths(avail, min, min);
    assert last + [] == last;
    r, n := PickPass(avail, n, plen, min, min, []);
  }

  /** The test of the code, for a number of 32 bits (src/pa_rules.c:96) */
  lemma SizeTest(a: Bits, n: nat, plen: nat)
    requires |a| <= plen && n < WORDS
    ensures (plen - |a| >= 32 || n < Pow2(plen - |a|)) <==> n < Size(a, plen)
  {
    Pow2Of32();
  }

  /** One pass over the available prefixes; `later` is what the next pass goes through. */
  method PickPass(avail: seq<Bits>, number: nat, plen: nat, lo: nat, hi: nat, ghost later: seq<Bits>)
    returns (r: Option<Bits>, n: nat)
    requires hi <= plen && Within(OfLengths(avail, lo, hi) + later, plen) && Within(later, plen) && number < WORDS
    ensures Pick(OfLengths(avail, lo, hi) + later, number, plen) == if r.Some? then r else Pick(later, n, plen)
    ensures n <= number
  {
    n := number;
    ghost var list, goal := OfLengths(avail, lo, hi) + later, Pick(OfLengths(avail, lo, hi) + later, number, plen);
    var i := 0;
    assert avail[0..] == avail;
    while i < |avail|
      invariant i <= |avail| && list == OfLengths(avail[i..], lo, hi) + later && Within(list, plen)
      invariant (i == |avail| ==> list == later) && n <= number && goal == Pick(list, n, plen)
    {
      ghost var rest := OfLengths(avail[i + 1..], lo, hi) + later;
      ListSteps(avail, i, lo, hi, later);
      r, n := Consider(avail[i], n, plen, lo, hi, list, rest);
      if r.Some? {
        return;
      }
      list := rest;
      i := i + 1;
    }
    return None, n;
  }

  /** One available prefix (src/pa_rules.c:95-102) */
  method Consider(a: Bits, number: nat, plen: nat, lo: nat, hi: nat, ghost list: seq<Bits>, ghost rest: seq<Bits>)
    returns (r: Option<Bits>, n: nat)
    requires hi <= plen && Within(list, plen) && number < WORDS && list == if lo <= |a| <= hi then [a] + rest else rest
    ensures n <= number && Within(rest, plen) && Pick(list, number, plen) == if r.Some? then r else Pick(rest, n, plen)
  {
    n := number;
    if lo <= |a| <= hi {
      SizeTest(a, n, plen);
      PickStep(list, a, rest, n, plen);
      if plen - |a| >= 32 || n < Pow2(plen - |a|) {
        return Some(Nth(a, n, plen)), n;
      }
      n := n - Size(a, plen);
    }
    return None, n;
  }

  lemma ListSteps(avail: seq<Bits>, i: nat, lo: nat, hi: nat, later: seq<Bits>)
    requires i < |avail|
    ensures var list, rest := OfLengths(avail[i..], lo, hi) + later, OfLengths(avail[i + 1..], lo, hi) + later;
            list == if lo <= |avail[i]| <= hi then [avail[i]] + rest else rest
    ensures i + 1 == |avail| ==> OfLengths(avail[i + 1..], lo, hi) + later == later
  {
    assert avail[i..][1..] == avail[i + 1..];
    var rest := OfLengths(avail[i + 1..], lo, hi);
    if lo <= |avail[i]| <= hi {
      assert OfLengths(avail[i..], lo, hi) == [avail[i]] + rest;
      assert [avail[i]] + rest + later == [avail[i]] + (rest + later);
    } else {
      assert OfLengths(avail[i..], lo, hi) == [] + rest == rest;
    }
  }

  lemma PickStep(list: seq<Bits>, a: Bits, rest: seq<Bits>, n: nat, d: nat)
    requires list == [a] + rest && Within(list, d)
    ensures |a| <= d && Within(rest, d)
    ensures Pick(list, n, d) == if n < Size(a, d) then Some(Nth(a, n, d)) else Pick(rest, n - Size(a, d), d)
  {
    assert list[0] == a && list[1..] == rest;
  }

  // ---------- what is a candidate ----------

  lemma OrderHasAll(avail: seq<Bits>, min: nat, max: nat, a: Bits)
    requires a in avail && min <= |a| <= max
    ensures a in Order(avail, min, max)
  {
    if |a| == min {
      OfLengthsHas(avail, min, min, a);
    } else {
      OfLengthsHas(avail, min + 1, max, a);
    }
  }

  lemma {:induction false} OfLengthsHas(avail: seq<Bits>, lo: nat, hi: nat, a: Bits)
    requires a in avail && lo <= |a| <= hi
    ensures a in OfLengths(avail, lo, hi)
  {
    if avail[0] != a {
      OfLengthsHas(avail[1..], lo, hi, a);
    }
  }

  lemma {:induction false} CountOfHas(avail: seq<Bits>, a: Bits)
    requires a in avail
    ensures CountOf(avail, |a|) > 0
  {
    if avail[0] != a {
      CountOfHas(avail[1..], a);
    }
  }

  /** x is number n of the prefixes that the candidates are taken from. */
  ghost predicate Picks(avail: seq<Bits>, c: Subset, n: nat, x: Bits) {
    && c.min <= c.plen
    && (OrderIsWithin(avail, c.min, c.plen, c.plen); Pick(Order(avail, c.min, c.plen), n, c.plen) == Some(x))
  }

  /** x is one of the candidates. */
  ghost predicate IsCandidate(avail: seq<Bits>, c: Subset, x: Bits) {
    exists n | 0 <= n < c.found :: Picks(avail, c, n, x)
  }

  lemma ContainerInLonger(avail: seq<Bits>, min: nat, d: nat, n: nat, x: Bits) returns (a: Bits)
    requires min <= d && Within(Order(avail, min, d), d) && Pick(Order(avail, min, d), n, d) == Some(x)
    requires Within(OfLengths(avail, min + 1, d), d) && n < Total(OfLengths(avail, min + 1, d), d)
    ensures a in avail && a <= x && min < |a| <= d == |x|
  {
    var long, short := OfLengths(avail, min + 1, d), OfLengths(avail, min, min);
    Totals(avail, min, d);
    PickOfFirst(long, short, n, d);
    PickIsIn(long, n, d);
    a :| a in long && a <= x;
    OfLengthsAre(avail, min + 1, d);
  }

  lemma ContainerInAny(avail: seq<Bits>, min: nat, d: nat, n: nat, x: Bits) returns (a: Bits)
    requires min <= d && Within(Order(avail, min, d), d) && Pick(Order(avail, min, d), n, d) == Some(x)
    ensures a in avail && a <= x && min <= |a| <= d == |x|
  {
    var list := Order(avail, min, d);
    PickIsIn(list, n, d);
    a :| a in list && a <= x;
    assert a in OfLengths(avail, min + 1, d) || a in OfLengths(avail, min, min);
    OfLengthsAre(avail, min + 1, d);
    OfLengthsAre(avail, min, min);
  }

  /** The listed prefixes lie one after the other. */
  ghost predicate Ordered(list: seq<Bits>) {
    forall i, j | 0 <= i < j < |list| :: Before(list[i], list[j])
  }

  lemma BeforeIsLess(x: Bits, y: Bits)
    requires Before(x, y) && |x| == |y|
    ensures Less(x, y)
  {
    var i :| 0 <= i < |x| && x[..i] == y[..i] && !x[i] && y[i];
    assert x == x[..i] + x[i..] && y == y[..i] + y[i..];
    LessInParts(x[..i], y[..i], x[i..], y[i..]);
  }

  lemma {:induction false} OfLengthsIsOrdered(avail: seq<Bits>, lo: nat, hi: nat)
    requires Ordered(avail)
    ensures Ordered(OfLengths(avail, lo, hi))
  {
    if avail != [] {
      var rest := OfLengths(avail[1..], lo, hi);
      OfLengthsIsOrdered(avail[1..], lo, hi);
      if lo <= |avail[0]| <= hi {
        FirstIsBefore(avail, lo, hi);
        assert OfLengths(avail, lo, hi) == [avail[0]] + rest;
      } else {
        assert OfLengths(avail, lo, hi) == rest;
      }
    }
  }

  lemma FirstIsBefore(avail: seq<Bits>, lo: nat, hi: nat)
    requires Ordered(avail) && avail != []
    ensures forall x | x in OfLengths(avail[1..], lo, hi) :: Before(avail[0], x)
  {
    OfLengthsAre(avail[1..], lo, hi);
    forall x | x in OfLengths(avail[1..], lo, hi) ensures Before(avail[0], x) {
      var k :| 0 <= k < |avail[1..]| && avail[1..][k] == x;
      assert avail[k + 1] == x;
    }
  }

  /** The numbering follows the order of the addresses. */
  lemma {:induction false} PickIsOrdered(list: seq<Bits>, n: nat, m: nat, d: nat)
    requires Within(list, d) && Ordered(list) && n < m < Total(list, d)
    ensures Pick(list, n, d).Some? && Pick(list, m, d).Some?
    ensures |Pick(list, n, d).value| == |Pick(list, m, d).value| == d
    ensures Less(Pick(list, n, d).value, Pick(list, m, d).value)
    decreases |list|
  {
    PickIsIn(list, n, d);
    PickIsIn(list, m, d);
    var a, size := list[0], Size(list[0], d);
    if m < size {
      NthIsOrdered(a, n, m, d);
    } else if n < size {
      PickIsIn(list[1..], m - size, d);
      var y := Pick(list, m, d).value;
      var b :| b in list[1..] && b <= y;
      BeforeExtends(a, b, Nth(a, n, d), y);
      BeforeIsLess(Nth(a, n, d), y);
    } else {
      PickIsOrdered(list[1..], n - size, m - size, d);
    }
  }

  lemma {:induction false} PickOfFirst(a: seq<Bits>, b: seq<Bits>, n: nat, d: nat)
    requires Within(a, d) && Within(b, d) && n < Total(a, d)
    ensures Within(a + b, d) && Pick(a + b, n, d) == Pick(a, n, d)
    decreases |a|
  {
    assert (a + b)[1..] == a[1..] + b;
    if n >= Size(a[0], d) {
      PickOfFirst(a[1..], b, n - Size(a[0], d), d);
    }
  }

  lemma {:induction false} PickOfSecond(a: seq<Bits>, b: seq<Bits>, n: nat, d: nat)
    requires Within(a, d) && Within(b, d)
    ensures Within(a + b, d) && Pick(a + b, Total(a, d) + n, d) == Pick(b, n, d)
    decreases |a|
  {
    if a == [] {
      assert a + b == b;
    } else {
      assert (a + b)[1..] == a[1..] + b;
      PickOfSecond(a[1..], b, n, d);
    }
  }

  lemma {:induction false} NothingBelowZeros(x: Bits, n: nat)
    requires |x| == n
    ensures !Less(x, seq(n, _ => false))
  {
    if n > 0 {
      NothingBelowZeros(x[1..], n - 1);
      assert seq(n, _ => false)[1..] == seq(n - 1, _ => false);
    }
  }

  /** Also where more than 32 bits are open, the completions below the n-th one are those with smaller
      numbers. */
  lemma BelowNth(a: Bits, n: nat, d: nat, x: Bits) returns (m: nat)
    requires |a| + 32 < d && n < WORDS && a <= x && |x| == d && Less(x, Nth(a, n, d))
    ensures m < n && x == Nth(a, m, d)
  {
    var h := |a| + (d - |a| - 32);
    var mid, rest, zeros := x[|a|..h], x[h..], seq(d - |a| - 32, _ => false);
    Pow2Of32();
    assert x == a + mid + rest && Nth(a, n, d) == a + zeros + ToBits(n, 32);
    LessInParts(a + mid, a + zeros, rest, ToBits(n, 32));
    LessInParts(a, a, mid, zeros);
    LessIsTotal(a, a);
    NothingBelowZeros(mid, |mid|);
    assert a + mid == a + zeros;
    m := Value(rest);
    BitsOfValue(rest);
    ValueOfBits(n, 32);
    ValueOrder(rest, ToBits(n, 32));
  }

  /** What lies before the n-th prefix is a prefix with a smaller number. */
  lemma BelowPick(list: seq<Bits>, n: nat, d: nat, min: nat, a: Bits, x: Bits) returns (m: nat)
    requires Within(list, d) && Ordered(list) && (forall b | b in list :: |b| == min) && a in list
    requires n < Total(list, d) && n < WORDS && a <= x && |x| == d
    requires Pick(list, n, d).Some? && |Pick(list, n, d).value| == d && Less(x, Pick(list, n, d).value)
    ensures m < n && Pick(list, m, d) == Some(x)
  {
    var last := Pick(list, n, d).value;
    LessIsTotal(x, last);
    if d <= min + 32 {
      m := PickReachesAll(list, d, a, x);
      if n < m {
        PickIsOrdered(list, n, m, d);
      }
    } else {
      Pow2Of32();
      assert list[0] in list && last == Nth(list[0], n, d);
      if a == list[0] {
        m := BelowNth(a, n, d, x);
      } else {
        var j :| 0 <= j < |list| && list[j] == a;
        BeforeExtends(list[0], a, last, x);
        BeforeIsLess(last, x);
        assert false;
      }
    }
  }

  /** How many prefixes are gone through before those of length min, and in all */
  lemma Totals(avail: seq<Bits>, min: nat, d: nat)
    requires min <= d
    ensures Within(OfLengths(avail, min + 1, d), d) && Within(OfLengths(avail, min, min), d)
    ensures Within(Order(avail, min, d), d)
    ensures Total(OfLengths(avail, min + 1, d), d) <= Room(avail, d, min + 1)
    ensures Total(Order(avail, min, d), d) <= Room(avail, d, min)
  {
    var a, b := OfLengths(avail, min + 1, d), OfLengths(avail, min, min);
    TotalHasRoom(avail, min, min, d);
    RoomAbove(avail, d);
    if min < d {
      TotalHasRoom(avail, min + 1, d, d);
    } else {
      OfLengthsNothing(avail, d);
    }
    TotalOfBoth(a, b, d);
  }

  lemma OrderOfOne(avail: seq<Bits>, min: nat)
    ensures Order(avail, min, min) == OfLengths(avail, min, min)
  {
    OfLengthsNothing(avail, min);
  }

  /** The candidate after the last one of the shortest length, if not all of them are candidates */
  ghost predicate IsLast(avail: seq<Bits>, c: Subset, last: Option<Bits>)
    requires c.min <= c.plen
  {
    OrderIsWithin(avail, c.min, c.min, c.plen);
    && (last.Some? <==> c.overflow > 0)
    && (last.Some? ==> |last.value| == c.plen && last == Pick(Order(avail, c.min, c.min), c.overflow, c.plen))
  }

  /** A prefix of the right length in an available one that is not too short, and before the last of
      the shortest, is a candidate. */
  lemma GuessIsCandidate(avail: seq<Bits>, limit: nat, c: Subset, last: Option<Bits>, a: Bits, x: Bits)
    requires Ordered(avail) && Candidates(avail, limit, c) && c.found > 0 && limit <= COUNT_MAX
    requires !Saturated(avail, c.plen, limit) && IsLast(avail, c, last)
    requires a in avail && a <= x && |x| == c.plen && c.min <= |a|
    requires last.Some? && |a| == c.min ==> Less(x, last.value)
    ensures IsCandidate(avail, c, x)
  {
    if |a| > c.min {
      LongerIsWhole(avail, limit, c, a);
      LongerIsCandidate(avail, c, a, x);
    } else if c.overflow == 0 {
      var n := PickOfAny(avail, c.min, c.plen, a, x);
      NumberIsCandidate(avail, c, n, x);
    } else {
      var m := BelowLast(avail, c, last.value, a, x);
      ShortestIsCandidate(avail, c, m, x);
    }
  }

  /** The available prefixes longer than the shortest are taken whole, and leave less than 32 bits open. */
  lemma LongerIsWhole(avail: seq<Bits>, limit: nat, c: Subset, a: Bits)
    requires Candidates(avail, limit, c) && c.found > 0 && !Saturated(avail, c.plen, limit)
    requires a in avail && c.min < |a| <= c.plen
    ensures Room(avail, c.plen, c.min + 1) <= c.found && c.plen < |a| + 32
  {
    CountOfHas(avail, a);
    RoomShrinks(avail, c.plen, c.min, c.min + 1);
  }

  lemma LongerIsCandidate(avail: seq<Bits>, c: Subset, a: Bits, x: Bits)
    requires Room(avail, c.plen, c.min + 1) <= c.found && c.plen < |a| + 32
    requires a in avail && a <= x && |x| == c.plen && c.min < |a|
    ensures IsCandidate(avail, c, x)
  {
    var n := PickOfLonger(avail, c.min, c.plen, a, x);
    NumberIsCandidate(avail, c, n, x);
  }

  lemma BelowLast(avail: seq<Bits>, c: Subset, last: Bits, a: Bits, x: Bits) returns (m: nat)
    requires Ordered(avail) && c.min <= c.plen && c.overflow < WORDS && IsLast(avail, c, Some(last))
    requires a in avail && a <= x && |x| == c.plen && c.min == |a| && Less(x, last)
    ensures m < c.overflow && Within(OfLengths(avail, c.min, c.min), c.plen)
    ensures Pick(OfLengths(avail, c.min, c.min), m, c.plen) == Some(x)
  {
    OrderIsWithin(avail, c.min, c.min, c.plen);
    m := BelowShortest(avail, c.min, c.plen, c.overflow, last, a, x);
  }

  lemma ShortestIsCandidate(avail: seq<Bits>, c: Subset, m: nat, x: Bits)
    requires c.min <= c.plen && m < c.overflow && c.found == Room(avail, c.plen, c.min + 1) + c.overflow
    requires Within(OfLengths(avail, c.min, c.min), c.plen)
    requires Pick(OfLengths(avail, c.min, c.min), m, c.plen) == Some(x)
    ensures IsCandidate(avail, c, x)
  {
    var n := PickOfShortest(avail, c.min, c.plen, m, x);
    NumberIsCandidate(avail, c, n, x);
  }

  lemma NumberIsCandidate(avail: seq<Bits>, c: Subset, n: nat, x: Bits)
    requires c.min <= c.plen && n < c.found && Within(Order(avail, c.min, c.plen), c.plen)
    requires Pick(Order(avail, c.min, c.plen), n, c.plen) == Some(x)
    ensures IsCandidate(avail, c, x)
  {
    assert Picks(avail, c, n, x);
  }

  lemma PickOfAny(avail: seq<Bits>, min: nat, d: nat, a: Bits, x: Bits) returns (n: nat)
    requires a in avail && a <= x && |x| == d <= |a| + 32 && min <= |a|
    ensures Within(Order(avail, min, d), d) && n < Room(avail, d, min) && Pick(Order(avail, min, d), n, d) == Some(x)
  {
    Totals(avail, min, d);
    OrderHasAll(avail, min, d, a);
    n := PickReachesAll(Order(avail, min, d), d, a, x);
  }

  lemma PickOfLonger(avail: seq<Bits>, min: nat, d: nat, a: Bits, x: Bits) returns (n: nat)
    requires a in avail && a <= x && |x| == d <= |a| + 32 && min < |a|
    ensures Within(Order(avail, min, d), d) && n < Room(avail, d, min + 1)
    ensures Pick(Order(avail, min, d), n, d) == Some(x)
  {
    var long := OfLengths(avail, min + 1, d);
    Totals(avail, min, d);
    OfLengthsHas(avail, min + 1, d, a);
    n := PickReachesAll(long, d, a, x);
    PickOfFirst(long, OfLengths(avail, min, min), n, d);
  }

  lemma BelowShortest(avail: seq<Bits>, min: nat, d: nat, n: nat, last: Bits, a: Bits, x: Bits) returns (m: nat)
    requires Ordered(avail) && a in avail && a <= x && |x| == |last| == d && min == |a| && n < WORDS
    requires Within(Order(avail, min, min), d) && Pick(Order(avail, min, min), n, d) == Some(last) && Less(x, last)
    ensures m < n && Within(OfLengths(avail, min, min), d) && Pick(OfLengths(avail, min, min), m, d) == Some(x)
  {
    var short := OfLengths(avail, min, min);
    OrderOfOne(avail, min);
    PickIsIn(short, n, d);
    OfLengthsHas(avail, min, min, a);
    OfLengthsIsOrdered(avail, min, min);
    OfLengthsAre(avail, min, min);
    m := BelowPick(short, n, d, min, a, x);
  }

  lemma PickOfShortest(avail: seq<Bits>, min: nat, d: nat, m: nat, x: Bits) returns (n: nat)
    requires min <= d && Within(OfLengths(avail, min, min), d) && Pick(OfLengths(avail, min, min), m, d) == Some(x)
    ensures Within(Order(avail, min, d), d) && n <= Room(avail, d, min + 1) + m
    ensures Pick(Order(avail, min, d), n, d) == Some(x)
  {
    var long, short := OfLengths(avail, min + 1, d), OfLengths(avail, min, min);
    Totals(avail, min, d);
    n := Total(long, d) + m;
    PickOfSecondIs(Order(avail, min, d), long, short, m, n, d, x);
  }

  lemma PickOfSecondIs(list: seq<Bits>, a: seq<Bits>, b: seq<Bits>, m: nat, n: nat, d: nat, x: Bits)
    requires list == a + b && Within(a, d) && Within(b, d) && n == Total(a, d) + m && Pick(b, m, d) == Some(x)
    ensures Within(list, d) && Pick(list, n, d) == Some(x)
  {
    PickOfSecond(a, b, m, d);
  }
}
