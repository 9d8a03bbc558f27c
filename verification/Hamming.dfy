/**
  hamming_minimize (src/bitops.c:172-200): among the values up to a bound, one that is closest to a
  target.
 */
module Hamming {
  import opened Bytes
  import opened Bitops

  /** In how many places two bit strings differ */
  function Distance(a: seq<bool>, b: seq<bool>): nat
    requires |a| == |b|
  {
    if a == [] then 0 else (if a[0] == b[0] then 0 else 1) + Distance(a[1..], b[1..])
  }

  lemma {:induction false} DistanceZero(a: seq<bool>, b: seq<bool>)
    requires |a| == |b|
    ensures Distance(a, b) == 0 <==> a == b
  {
    if a != [] {
      DistanceZero(a[1..], b[1..]);
      assert a == [a[0]] + a[1..] && b == [b[0]] + b[1..];
    }
  }

  // ---------- the value that is chosen ----------

  /** Zeros as long as the bound has zeros; at its first one the target goes on as it is, or with
      this bit cleared if it would exceed the bound. */
  function Closest(max: seq<bool>, target: seq<bool>): (r: seq<bool>)
    requires |max| == |target|
    ensures |r| == |max|
  {
    if max == [] then []
    else if !max[0] then [false] + Closest(max[1..], target[1..])
    else if Less(max, target) then [false] + target[1..]
    else target
  }

  /** It is within the bound. */
  lemma {:induction false} ClosestIsWithin(max: seq<bool>, target: seq<bool>)
    requires |max| == |target|
    ensures !Less(max, Closest(max, target))
  {
    if max != [] && !max[0] {
      ClosestIsWithin(max[1..], target[1..]);
      assert ([false] + Closest(max[1..], target[1..]))[1..] == Closest(max[1..], target[1..]);
    }
  }

  /** Nothing within the bound is closer to the target. */
  lemma {:induction false} ClosestIsBest(max: seq<bool>, target: seq<bool>, v: seq<bool>)
    requires |max| == |target| == |v| && !Less(max, v)
    ensures Distance(Closest(max, target), target) <= Distance(v, target)
  {
    if max == [] {
    } else if !max[0] {
      assert !v[0] && !Less(max[1..], v[1..]);
      ClosestIsBest(max[1..], target[1..], v[1..]);
      assert ([false] + Closest(max[1..], target[1..]))[1..] == Closest(max[1..], target[1..]);
    } else if Less(max, target) {
      DistanceZero(v, target);
      DistanceZero(target[1..], target[1..]);
      assert ([false] + target[1..])[1..] == target[1..];
    } else {
      DistanceZero(target, target);
    }
  }

  // ---------- what the loop computes ----------

  /** The ones of a bit string */
  function Ones(b: seq<bool>): nat {
    if b == [] then 0 else Ones(b[..|b| - 1]) + (if b[|b| - 1] then 1 else 0)
  }

  lemma {:induction false} DistanceFromZeros(n: nat, b: seq<bool>)
    requires |b| == n
    ensures Distance(Zeros(n), b) == Ones(b)
  {
    if n > 0 {
      DistanceFromZeros(n - 1, b[1..]);
      assert Zeros(n)[1..] == Zeros(n - 1);
      OnesFirst(b);
    }
  }

  lemma {:induction false} OnesFirst(b: seq<bool>)
    requires b != []
    ensures Ones(b) == (if b[0] then 1 else 0) + Ones(b[1..])
  {
    if |b| > 1 {
      var c := b[..|b| - 1];
      OnesFirst(c);
      assert b[1..][..|b| - 2] == c[1..];
    }
  }

  lemma {:induction false} DistanceInParts(a: seq<bool>, b: seq<bool>, c: seq<bool>, d: seq<bool>)
    requires |a| == |b| && |c| == |d|
    ensures Distance(a + c, b + d) == Distance(a, b) + Distance(c, d)
    decreases |a|
  {
    if a == [] {
      assert a + c == c && b + d == d;
    } else {
      assert (a + c)[1..] == a[1..] + c && (b + d)[1..] == b[1..] + d;
      DistanceInParts(a[1..], b[1..], c, d);
    }
  }

  /** The tail that is written once the bound has a one */
  function Tail(max: seq<bool>, target: seq<bool>): (r: seq<bool>)
    requires |max| == |target|
    ensures |r| == |max|
  {
    if max != [] && Less(max, target) then [false] + target[1..] else target
  }

  lemma ClosestAtOne(max: seq<bool>, target: seq<bool>)
    requires |max| == |target| && (max != [] ==> max[0])
    ensures Closest(max, target) == Tail(max, target)
    ensures Distance(Closest(max, target), target) == if max != [] && Less(max, target) then 1 else 0
  {
    if max == [] || !Less(max, target) {
      DistanceZero(target, target);
    } else {
      assert ([false] + target[1..])[1..] == target[1..];
      DistanceZero(target[1..], target[1..]);
    }
  }

  /** z leading zeros of the bound, then its first one, if any */
  lemma {:induction false} ClosestAfterZeros(max: seq<bool>, target: seq<bool>, z: nat)
    requires |max| == |target| && z <= |max| && max[..z] == Zeros(z) && (z < |max| ==> max[z])
    ensures Closest(max, target) == Zeros(z) + Tail(max[z..], target[z..])
    ensures Distance(Closest(max, target), target) ==
      Ones(target[..z]) + if z < |max| && Less(max[z..], target[z..]) then 1 else 0
  {
    if z == 0 {
      assert max[0..] == max && target[0..] == target && target[..0] == [];
      assert Zeros(0) + Tail(max, target) == Tail(max, target);
      ClosestAtOne(max, target);
    } else {
      ZerosGoOn(max, z);
      assert max[1..][z - 1..] == max[z..] && target[1..][z - 1..] == target[z..];
      ClosestAfterZeros(max[1..], target[1..], z - 1);
      ClosestAfterOne(max, target);
      OnesOfMore(target, z);
      OneMoreZero(z, Tail(max[z..], target[z..]));
    }
  }

  lemma OneMoreZero(z: nat, rest: seq<bool>)
    requires z > 0
    ensures [false] + (Zeros(z - 1) + rest) == Zeros(z) + rest
  {
  }

  lemma ZerosGoOn(max: seq<bool>, z: nat)
    requires 0 < z <= |max| && max[..z] == Zeros(z)
    ensures !max[0] && max[1..][..z - 1] == Zeros(z - 1) && Zeros(z) == [false] + Zeros(z - 1)
  {
    assert max[1..][..z - 1] == max[..z][1..] == Zeros(z - 1);
    assert max[0] == max[..z][0] == false;
  }

  lemma ClosestAfterOne(max: seq<bool>, target: seq<bool>)
    requires |max| == |target| > 0 && !max[0]
    ensures var rest := Closest(max[1..], target[1..]);
            && Closest(max, target) == [false] + rest
            && Distance(Closest(max, target), target) == (if target[0] then 1 else 0) + Distance(rest, target[1..])
  {
    assert ([false] + Closest(max[1..], target[1..]))[1..] == Closest(max[1..], target[1..]);
  }

  lemma OnesOfMore(target: seq<bool>, z: nat)
    requires 0 < z <= |target|
    ensures Ones(target[..z]) == (if target[0] then 1 else 0) + Ones(target[1..][..z - 1])
  {
    OnesFirst(target[..z]);
    assert target[..z][1..] == target[1..][..z - 1];
  }

  // ---------- the code ----------

  const TOP: Byte := [true, false, false, false, false, false, false, false]

  /** b & (0x80 >> i) */
  predicate TestBit(b: Byte, i: nat)
    requires i < 8
    ensures TestBit(b, i) == b[i]
  {
    var r := And(b, Shr(TOP, i));
    assert r[i] == b[i];
    r != [false, false, false, false, false, false, false, false]
  }

  lemma BitInBuffer(m: seq<Byte>, k: nat)
    requires k < 8 * |m|
    ensures Expand(m)[k] == m[k / 8][k % 8]
  {
  }

  lemma WindowGrows(m: seq<Byte>, start: nat, n: nat)
    requires start + n < 8 * |m|
    ensures Window(m, start, n + 1) == Window(m, start, n) + [m[(start + n) / 8][(start + n) % 8]]
  {
    BitInBuffer(m, start + n);
  }

  lemma OnesGrow(b: seq<bool>, x: bool)
    ensures Ones(b + [x]) == Ones(b) + if x then 1 else 0
  {
    assert (b + [x])[..|b|] == b;
  }

  /** m[n / 8] & (0x80 >> (n % 8)) */
  predicate GetBit(m: seq<Byte>, n: nat)
    requires n < 8 * |m|
  {
    TestBit(m[n / 8], n % 8)
  }

  /** The first z bits of the bound's window are zeros, and ret of the target's are ones. */
  ghost predicate InRun(max: seq<Byte>, target: seq<Byte>, start: nat, z: nat, ret: nat) {
    && start + z <= 8 * |max| && start + z <= 8 * |target|
    && Window(max, start, z) == Zeros(z) && ret == Ones(Window(target, start, z))
  }

  /** The zeros at the start of the bound, and the ones of the target there (src/bitops.c:184-188) */
  method ZeroRun(max: seq<Byte>, target: seq<Byte>, start: nat, nBits: nat) returns (z: nat, ret: nat)
    requires start + nBits <= 8 * |max| && start + nBits <= 8 * |target|
    ensures z <= nBits && InRun(max, target, start, z, ret)
    ensures z < nBits ==> GetBit(max, start + z)
  {
    z, ret := 0, 0;
    assert Window(max, start, 0) == Zeros(0) && Window(target, start, 0) == [];
    while z != nBits && !GetBit(max, start + z)
      invariant z <= nBits && InRun(max, target, start, z, ret)
      decreases nBits - z
    {
      ret := RunOn(max, target, start, z, ret);
      z := z + 1;
    }
  }

  method RunOn(max: seq<Byte>, target: seq<Byte>, start: nat, z: nat, ret: nat) returns (more: nat)
    requires start + z < 8 * |max| && start + z < 8 * |target| && InRun(max, target, start, z, ret)
    requires !GetBit(max, start + z)
    ensures InRun(max, target, start, z + 1, more)
  {
    RunGrows(max, start, z);
    OnesInWindow(target, start, z);
    more := if GetBit(target, start + z) then ret + 1 else ret;
  }

  lemma OnesInWindow(m: seq<Byte>, start: nat, z: nat)
    requires start + z < 8 * |m|
    ensures Ones(Window(m, start, z + 1)) ==
      Ones(Window(m, start, z)) + if m[(start + z) / 8][(start + z) % 8] then 1 else 0
  {
    WindowGrows(m, start, z);
    OnesGrow(Window(m, start, z), m[(start + z) / 8][(start + z) % 8]);
  }

  lemma RunGrows(m: seq<Byte>, start: nat, z: nat)
    requires start + z < 8 * |m| && Window(m, start, z) == Zeros(z) && !m[(start + z) / 8][(start + z) % 8]
    ensures Window(m, start, z + 1) == Zeros(z + 1)
  {
    WindowGrows(m, start, z);
    assert Zeros(z) + [false] == Zeros(z + 1);
  }

  /** dst[n / 8] & ~(0x80 >> (n % 8)) */
  method ClearBit(dst: array<Byte>, n: nat)
    requires n < 8 * dst.Length
    modifies dst
    ensures Expand(dst[..]) == Expand(old(dst[..]))[n := false]
  {
    var b, i := n / 8, n % 8;
    ghost var m := dst[..];
    var x := And(dst[b], Not(Shr(TOP, i)));
    dst[b] := x;
    assert dst[..] == m[b := x];
    ClearedBits(m, b, i, x);
  }

  lemma ClearedBits(m: seq<Byte>, b: nat, i: nat, x: Byte)
    requires b < |m| && i < 8 && forall j | 0 <= j < 8 :: x[j] == (j != i && m[b][j])
    ensures Expand(m[b := x]) == Expand(m)[8 * b + i := false]
  {
    var r, goal := m[b := x], Expand(m)[8 * b + i := false];
    forall k: nat | k < 8 * |m| ensures Expand(r)[k] == goal[k] {
      assert k == 8 * (k / 8) + k % 8;
    }
  }

  /** Write the target from bit n on, or with this bit cleared (src/bitops.c:191-198). */
  method WriteTail(max: array<Byte>, target: array<Byte>, dst: array<Byte>, n: nat, left: nat, ghost M: seq<bool>,
                   ghost T: seq<bool>)
    returns (more: nat)
    requires dst != max && dst != target && 0 < left
    requires n + left <= 8 * max.Length && n + left <= 8 * target.Length && n + left <= 8 * dst.Length
    requires M == Window(max[..], n, left) && T == Window(target[..], n, left)
    modifies dst
    ensures Expand(dst[..]) == Spliced(Expand(old(dst[..])), Tail(M, T), n, 0, left)
    ensures more == if Less(M, T) then 1 else 0
  {
    ghost var was, t := Expand(dst[..]), Expand(target[..]);
    BMemCpy(dst, 0, target, 0, n, left, n, n);
    SplicedWindow(was, t, n, left);
    var r := BMemCmpS(max[..], target[..], n, left);
    if r < 0 {
      ClearBit(dst, n);
      SplicedCleared(was, T, n);
      return 1;
    }
    return 0;
  }

  lemma SplicedWindow(d: seq<bool>, t: seq<bool>, n: nat, left: nat)
    requires n + left <= |d| && n + left <= |t|
    ensures Spliced(d, t, n, n, left) == Spliced(d, t[n..n + left], n, 0, left)
  {
  }

  lemma SplicedCleared(d: seq<bool>, t: seq<bool>, n: nat)
    requires n + |t| <= |d| && t != []
    ensures Spliced(d, t, n, 0, |t|)[n := false] == Spliced(d, [false] + t[1..], n, 0, |t|)
  {
  }

  lemma SplicedParts(d: seq<bool>, a: seq<bool>, b: seq<bool>, whole: seq<bool>, n: nat, z: nat, left: nat)
    requires |a| == z && |b| == left && n + z + left <= |d| && whole == a + b
    ensures Spliced(Spliced(d, a, n, 0, z), b, n + z, 0, left) == Spliced(d, whole, n, 0, z + left)
  {
  }

  /** hamming_minimize: the window of dst gets the value closest to the target among those up to
      max, its distance is returned, and the other bits stay. */
  method HammingMinimize(max: array<Byte>, target: array<Byte>, dst: array<Byte>, start: nat,
                         nBits: nat) returns (ret: nat)
    requires dst != max && dst != target
    requires start + nBits <= 8 * max.Length && start + nBits <= 8 * target.Length && start + nBits <= 8 * dst.Length
    modifies dst
    ensures var M, T := Window(max[..], start, nBits), Window(target[..], start, nBits);
            && Expand(dst[..]) == Spliced(Expand(old(dst[..])), Closest(M, T), start, 0, nBits)
            && ret == Distance(Closest(M, T), T)
  {
    ghost var was, M, T := Expand(dst[..]), Window(max[..], start, nBits), Window(target[..], start, nBits);
    var z;
    z, ret := ZeroRun(max[..], target[..], start, nBits);
    if z < nBits {
      BitInBuffer(max[..], start + z);
    }
    FirstOne(max[..], target[..], start, nBits, z, M, T);
    ghost var A, B, best := M[z..], T[z..], Closest(M, T);
    ClosestAfterZeros(M, T, z);
    var more := WriteClosest(max, target, dst, start, nBits, z, was, A, B, best);
    ret := ret + more;
  }

  /** Zeros up to the bound's first one, then the tail */
  method WriteClosest(max: array<Byte>, target: array<Byte>, dst: array<Byte>, start: nat, nBits: nat, z: nat,
                      ghost was: seq<bool>, ghost M: seq<bool>, ghost T: seq<bool>,
                      ghost best: seq<bool>) returns (more: nat)
    requires dst != max && dst != target && z <= nBits
    requires start + nBits <= 8 * max.Length && start + nBits <= 8 * target.Length && start + nBits <= 8 * dst.Length
    requires Window(max[..], start, z) == Zeros(z) && was == Expand(dst[..])
    requires M == Window(max[..], start + z, nBits - z) && T == Window(target[..], start + z, nBits - z)
    requires best == Zeros(z) + Tail(M, T)
    modifies dst
    ensures Expand(dst[..]) == Spliced(was, best, start, 0, nBits)
    ensures more == if z < nBits && Less(M, T) then 1 else 0
  {
    ghost var mx, tg := max[..], target[..];
    CopyZeros(max, dst, start, z, was);
    assert max[..] == mx && target[..] == tg;
    if z < nBits {
      more := WriteOn(max, target, dst, start, nBits, z, was, Zeros(z), M, T);
    } else {
      more := 0;
      assert best == Zeros(z) by { assert Tail(M, T) == []; }
    }
  }

  method WriteOn(max: array<Byte>, target: array<Byte>, dst: array<Byte>, start: nat, nBits: nat, z: nat,
                 ghost was: seq<bool>, ghost zeros: seq<bool>, ghost M: seq<bool>,
                 ghost T: seq<bool>) returns (more: nat)
    requires dst != max && dst != target && z < nBits && |zeros| == z && start + nBits <= |was|
    requires start + nBits <= 8 * max.Length && start + nBits <= 8 * target.Length && start + nBits <= 8 * dst.Length
    requires Expand(dst[..]) == Spliced(was, zeros, start, 0, z)
    requires M == Window(max[..], start + z, nBits - z) && T == Window(target[..], start + z, nBits - z)
    modifies dst
    ensures Expand(dst[..]) == Spliced(was, zeros + Tail(M, T), start, 0, nBits)
    ensures more == if Less(M, T) then 1 else 0
  {
    more := WriteTail(max, target, dst, start + z, nBits - z, M, T);
    SplicedParts(was, zeros, Tail(M, T), zeros + Tail(M, T), start, z, nBits - z);
  }

  /** Copy z bits that are all zero. */
  method CopyZeros(max: array<Byte>, dst: array<Byte>, start: nat, z: nat, ghost was: seq<bool>)
    requires dst != max
    requires start + z <= 8 * max.Length && start + z <= 8 * dst.Length
    requires Window(max[..], start, z) == Zeros(z) && was == Expand(dst[..])
    modifies dst
    ensures Expand(dst[..]) == Spliced(was, Zeros(z), start, 0, z)
  {
    ghost var mx := max[..];
    BMemCpy(dst, 0, max, 0, start, z, start, start);
    assert max[..] == mx;
    SplicedWindow(was, Expand(mx), start, z);
  }

  lemma FirstOne(max: seq<Byte>, target: seq<Byte>, start: nat, n: nat, z: nat, M: seq<bool>, T: seq<bool>)
    requires start + n <= 8 * |max| && start + n <= 8 * |target| && z <= n
    requires M == Window(max, start, n) && T == Window(target, start, n)
    requires Window(max, start, z) == Zeros(z) && (z < n ==> Expand(max)[start + z])
    ensures M[..z] == Zeros(z) && (z < n ==> M[z]) && T[..z] == Window(target, start, z)
    ensures M[z..] == Window(max, start + z, n - z) && T[z..] == Window(target, start + z, n - z)
  {
    WindowsInWindow(max, start, n, z);
    WindowsInWindow(target, start, n, z);
  }

  lemma WindowsInWindow(m: seq<Byte>, start: nat, n: nat, z: nat)
    requires start + n <= 8 * |m| && z <= n
    ensures Window(m, start, n)[..z] == Window(m, start, z) && Window(m, start, n)[z..] == Window(m, start + z, n - z)
  {
  }
}
