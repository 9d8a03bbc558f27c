/**
  Copying and comparing runs of bits (src/bitops.c:15-143).
 */
module Bitops {
  import opened Bytes

  /** The bits of a buffer */
  function Expand(buf: seq<Byte>): (r: seq<bool>)
    ensures |r| == 8 * |buf|
  {
    seq(8 * |buf|, k requires 0 <= k < 8 * |buf| => buf[k / 8][k % 8])
  }

  /** d with n bits of s, from `from` on, put at `to` */
  function Spliced(d: seq<bool>, s: seq<bool>, to: nat, from: nat, n: nat): (r: seq<bool>)
    requires to + n <= |d| && from + n <= |s|
    ensures |r| == |d|
  {
    seq(|d|, k requires 0 <= k < |d| => if to <= k < to + n then s[from + (k - to)] else d[k])
  }

  lemma SplicedAt(d: seq<bool>, s: seq<bool>, to: nat, from: nat, n: nat, k: nat)
    requires to + n <= |d| && from + n <= |s| && k < |d|
    ensures Spliced(d, s, to, from, n)[k] == if to <= k < to + n then s[from + (k - to)] else d[k]
  {
  }

  lemma SplicedNone(d: seq<bool>, s: seq<bool>, to: nat, from: nat)
    requires to <= |d| && from <= |s|
    ensures Spliced(d, s, to, from, 0) == d
  {
  }

  lemma SplicedMore(d: seq<bool>, s: seq<bool>, to: nat, from: nat, done: nat, n: nat)
    requires to + done + n <= |d| && from + done + n <= |s|
    ensures Spliced(Spliced(d, s, to, from, done), s, to + done, from + done, n) == Spliced(d, s, to, from, done + n)
  {
  }

  /** Splicing a byte into one byte of a buffer */
  lemma SplicedByte(m: seq<Byte>, b: nat, at: nat, x: Byte, s: seq<Byte>, c: nat, ss: nat, n: nat, to: nat, from: nat)
    requires b < |m| && at + n <= 8 && c < |s| && ss + n <= 8 && x == Spliced(m[b], s[c], at, ss, n)
    requires to == 8 * b + at && from == 8 * c + ss
    ensures Expand(m[b := x]) == Spliced(Expand(m), Expand(s), to, from, n)
  {
    var r := m[b := x];
    var goal := Spliced(Expand(m), Expand(s), to, from, n);
    forall k: nat | k < 8 * |m| ensures Expand(r)[k] == goal[k] {
      SplicedAt(Expand(m), Expand(s), to, from, n, k);
      SplicedByteAt(m, b, at, x, s, c, ss, n, k);
    }
  }

  lemma SplicedByteAt(m: seq<Byte>, b: nat, at: nat, x: Byte, s: seq<Byte>, c: nat, ss: nat, n: nat, k: nat)
    requires b < |m| && at + n <= 8 && c < |s| && ss + n <= 8 && x == Spliced(m[b], s[c], at, ss, n) && k < 8 * |m|
    ensures Expand(m[b := x])[k] == if 8 * b + at <= k < 8 * b + at + n
      then Expand(s)[8 * c + ss + (k - (8 * b + at))]
      else Expand(m)[k]
  {
    if k / 8 == b {
      var i := k % 8;
      assert k == 8 * b + i;
      SplicedAt(m[b], s[c], at, ss, n, i);
      if at <= i < at + n {
        var q := 8 * c + ss + (i - at);
        assert q / 8 == c && q % 8 == ss + (i - at);
      }
    }
  }

  // ---------- copying ----------

  /** bbytecpy (src/bitops.c:15-21) */
  method BByteCpy(d: Byte, s: Byte, fromBit: nat, nBits: nat) returns (r: Byte)
    requires fromBit + nBits <= 8
    ensures r == Spliced(d, s, fromBit, fromBit, nBits)
  {
    var mask := Shr(HighMask(nBits), fromBit);
    var v := And(s, mask);
    r := Or(And(d, Not(mask)), v);
    assert r == Spliced(d, s, fromBit, fromBit, nBits);
  }

  /** The bits of dst are cur, those of src are bits. */
  ghost predicate Holds(dst: array<Byte>, cur: seq<bool>, src: array<Byte>, bits: seq<bool>)
    reads dst, src
  {
    dst != src && Expand(dst[..]) == cur && Expand(src[..]) == bits
  }

  /** Store byte x, which has n bits of byte c of the source. */
  method PutByte(dst: array<Byte>, b: nat, x: Byte, src: array<Byte>, ghost c: nat, ghost at: nat, ghost ss: nat,
                 ghost n: nat,
                 ghost cur: seq<bool>, ghost bits: seq<bool>, ghost to: nat, ghost from: nat)
    requires Holds(dst, cur, src, bits) && b < dst.Length && c < src.Length
    requires at + n <= 8 && ss + n <= 8 && x == Spliced(dst[b], src[c], at, ss, n) && to == 8 * b + at
    requires from == 8 * c + ss
    modifies dst
    ensures to + n <= |cur| && from + n <= |bits| && Holds(dst, Spliced(cur, bits, to, from, n), src, bits)
  {
    SplicedByte(dst[..], b, at, x, src[..], c, ss, n, to, from);
    ghost var m := dst[..];
    dst[b] := x;
    assert dst[..] == m[b := x];
  }

  /** bbytecpy from byte c of one buffer to byte b of another */
  method CopyPart(dst: array<Byte>, b: nat, src: array<Byte>, c: nat, fromBit: nat, nBits: nat,
                  ghost cur: seq<bool>, ghost bits: seq<bool>, ghost to: nat, ghost from: nat)
    requires Holds(dst, cur, src, bits) && b < dst.Length && c < src.Length && fromBit + nBits <= 8
    requires to == 8 * b + fromBit && from == 8 * c + fromBit
    modifies dst
    ensures to + nBits <= |cur| && from + nBits <= |bits| && Holds(dst, Spliced(cur, bits, to, from, nBits), src, bits)
  {
    var r := BByteCpy(dst[b], src[c], fromBit, nBits);
    PutByte(dst, b, r, src, c, fromBit, fromBit, nBits, cur, bits, to, from);
  }

  /** memcpy */
  method CopyBytes(dst: array<Byte>, b: nat, src: array<Byte>, c: nat, n: nat,
                   ghost cur: seq<bool>, ghost bits: seq<bool>, ghost to: nat, ghost from: nat)
    requires Holds(dst, cur, src, bits) && b + n <= dst.Length && c + n <= src.Length && to == 8 * b && from == 8 * c
    modifies dst
    ensures to + 8 * n <= |cur| && from + 8 * n <= |bits| && Holds(dst, Spliced(cur, bits, to, from, 8 * n), src, bits)
  {
    ghost var m, s := dst[..], src[..];
    forall i | 0 <= i < n {
      dst[b + i] := src[c + i];
    }
    ghost var r := dst[..];
    forall i | b <= i < b + n ensures r[i] == s[i - b + c] {
      assert dst[b + (i - b)] == src[c + (i - b)];
    }
    WholeBytes(m, r, s, b, c, n);
  }

  lemma WholeBytes(m: seq<Byte>, r: seq<Byte>, s: seq<Byte>, b: nat, c: nat, n: nat)
    requires b + n <= |m| == |r| && c + n <= |s|
    requires forall i | 0 <= i < |m| :: r[i] == if b <= i < b + n then s[i - b + c] else m[i]
    ensures Expand(r) == Spliced(Expand(m), Expand(s), 8 * b, 8 * c, 8 * n)
  {
    var x, y := Expand(m), Expand(s);
    forall k: nat | k < 8 * |m| ensures Expand(r)[k] == Spliced(x, y, 8 * b, 8 * c, 8 * n)[k] {
      SplicedAt(x, y, 8 * b, 8 * c, 8 * n, k);
      WholeBytesAt(m, r, s, b, c, n, k);
    }
  }

  lemma WholeBytesAt(m: seq<Byte>, r: seq<Byte>, s: seq<Byte>, b: nat, c: nat, n: nat, k: nat)
    requires b + n <= |m| == |r| && c + n <= |s| && k < 8 * |m|
    requires r[k / 8] == if b <= k / 8 < b + n then s[k / 8 - b + c] else m[k / 8]
    ensures Expand(r)[k] == if 8 * b <= k < 8 * b + 8 * n then Expand(s)[8 * c + (k - 8 * b)] else Expand(m)[k]
  {
    if 8 * b <= k < 8 * (b + n) {
      var q := 8 * c + (k - 8 * b);
      assert q / 8 == k / 8 - b + c && q % 8 == k % 8;
    }
  }

  /** bmemcpy (src/bitops.c:23-54) between the parts that start at bytes `d` and `s`, which is from
      bit `from` of one buffer to bit `to` of another.  A copy of no bits at the end of a buffer takes
      the byte past the end and puts it back. */
  method BMemCpy(dst: array<Byte>, d: nat, src: array<Byte>, s: nat, fromBit: nat, nBits: nat, ghost to: nat,
                 ghost from: nat)
    requires dst != src && to == 8 * d + fromBit && from == 8 * s + fromBit
    requires to + nBits <= 8 * dst.Length && from + nBits <= 8 * src.Length
    modifies dst
    ensures Expand(dst[..]) == Spliced(Expand(old(dst[..])), Expand(src[..]), to, from, nBits)
  {
    var toBit := fromBit + nBits;
    var b, toByte := fromBit / 8, toBit / 8;
    var nByte := toByte - b;
    var fromRem, toRem := fromBit % 8, toBit % 8;
    ghost var was, bits := Expand(dst[..]), Expand(src[..]);
    if nBits == 0 && (d + b == dst.Length || s + b == src.Length) {
      SplicedNone(was, bits, to, from);
    } else if nByte == 0 {
      CopyPart(dst, d + b, src, s + b, fromRem, nBits, was, bits, to, from);
    } else {
      CopyAround(dst, d + b, src, s + b, fromRem, nByte, toRem, was, bits, to, from, nBits);
    }
  }

  /** The rest of a byte, some whole bytes, and the start of a last one */
  method CopyAround(dst: array<Byte>, d: nat, src: array<Byte>, s: nat, fromRem: nat, n: nat, toRem: nat,
                    ghost was: seq<bool>, ghost bits: seq<bool>, ghost to: nat, ghost from: nat, ghost nBits: nat)
    requires Holds(dst, was, src, bits) && fromRem < 8 && toRem < 8 && 0 < n
    requires 8 * (d + n) + toRem <= 8 * dst.Length && 8 * (s + n) + toRem <= 8 * src.Length
    requires to == 8 * d + fromRem && from == 8 * s + fromRem && nBits == 8 * n + toRem - fromRem
    requires to + nBits <= |was| && from + nBits <= |bits|
    modifies dst
    ensures Holds(dst, Spliced(was, bits, to, from, nBits), src, bits)
  {
    if fromRem != 0 {
      CopyPart(dst, d, src, s, fromRem, 8 - fromRem, was, bits, to, from);
      CopyOn(dst, d + 1, src, s + 1, n - 1, toRem, was, bits, to, from, 8 - fromRem, nBits);
    } else {
      SplicedNone(was, bits, to, from);
      CopyOn(dst, d, src, s, n, toRem, was, bits, to, from, 0, nBits);
    }
  }

  /** Some whole bytes, and the start of a last one, once `done` bits are there */
  method CopyOn(dst: array<Byte>, d: nat, src: array<Byte>, s: nat, n: nat, toRem: nat,
                ghost was: seq<bool>, ghost bits: seq<bool>, ghost to: nat, ghost from: nat, ghost done: nat,
                ghost nBits: nat)
    requires to + nBits <= |was| && from + nBits <= |bits| && nBits == done + 8 * n + toRem && toRem < 8
    requires Holds(dst, Spliced(was, bits, to, from, done), src, bits)
    requires 8 * (d + n) + toRem <= 8 * dst.Length && 8 * (s + n) + toRem <= 8 * src.Length
    requires to + done == 8 * d && from + done == 8 * s
    modifies dst
    ensures Holds(dst, Spliced(was, bits, to, from, nBits), src, bits)
  {
    CopyBytesMore(dst, d, src, s, n, was, bits, to, from, done);
    CopyLast(dst, d + n, src, s + n, toRem, was, bits, to, from, done + 8 * n, nBits);
  }

  method CopyLast(dst: array<Byte>, d: nat, src: array<Byte>, s: nat, toRem: nat,
                  ghost was: seq<bool>, ghost bits: seq<bool>, ghost to: nat, ghost from: nat, ghost done: nat,
                  ghost nBits: nat)
    requires to + nBits <= |was| && from + nBits <= |bits| && nBits == done + toRem && toRem < 8
    requires Holds(dst, Spliced(was, bits, to, from, done), src, bits)
    requires 8 * d + toRem <= 8 * dst.Length && 8 * s + toRem <= 8 * src.Length && to + done == 8 * d
    requires from + done == 8 * s
    modifies dst
    ensures Holds(dst, Spliced(was, bits, to, from, nBits), src, bits)
  {
    if toRem != 0 {
      CopyPartMore(dst, d, src, s, toRem, was, bits, to, from, done);
    }
  }

  /** The start of a byte, once `done` bits are there */
  method CopyPartMore(dst: array<Byte>, d: nat, src: array<Byte>, s: nat, n: nat,
                      ghost was: seq<bool>, ghost bits: seq<bool>, ghost to: nat, ghost from: nat, ghost done: nat)
    requires to + done + n <= |was| && from + done + n <= |bits| && n < 8 && d < dst.Length && s < src.Length
    requires Holds(dst, Spliced(was, bits, to, from, done), src, bits) && to + done == 8 * d && from + done == 8 * s
    modifies dst
    ensures Holds(dst, Spliced(was, bits, to, from, done + n), src, bits)
  {
    ghost var at, start := to + done, from + done;
    ghost var mid := Spliced(was, bits, to, from, done);
    SplicedMore(was, bits, to, from, done, n);
    CopyPart(dst, d, src, s, 0, n, mid, bits, at, start);
  }

  /** Whole bytes, once `done` bits are there */
  method CopyBytesMore(dst: array<Byte>, d: nat, src: array<Byte>, s: nat, n: nat,
                       ghost was: seq<bool>, ghost bits: seq<bool>, ghost to: nat, ghost from: nat, ghost done: nat)
    requires to + done + 8 * n <= |was| && from + done + 8 * n <= |bits| && d + n <= dst.Length && s + n <= src.Length
    requires Holds(dst, Spliced(was, bits, to, from, done), src, bits) && to + done == 8 * d && from + done == 8 * s
    modifies dst
    ensures Holds(dst, Spliced(was, bits, to, from, done + 8 * n), src, bits)
  {
    ghost var size, at, start := 8 * n, to + done, from + done;
    ghost var mid := Spliced(was, bits, to, from, done);
    SplicedMore(was, bits, to, from, done, size);
    CopyBytes(dst, d, src, s, n, mid, bits, at, start);
  }

  // ---------- shifted copies ----------

  /** One round of the loop of bmemcpy_shift (src/bitops.c:67-90): n bits from offset `ss` of a
      source byte go to offset `ds` of a destination byte. */
  method ShiftByte(d: Byte, s: Byte, ds: nat, ss: nat, left: nat) returns (x: Byte, n: nat)
    requires ds < 8 && ss < 8 && 0 < left
    ensures 0 < n <= left && ds + n <= 8 && ss + n <= 8 && (n == left || (if ss > ds then ss + n == 8 else ds + n == 8))
    ensures x == Spliced(d, s, ds, ss, n)
  {
    var interm := s;
    if ss > ds {
      interm := Shl(interm, ss - ds);
      n := 8 - ss;
    } else {
      interm := Shr(interm, ds - ss);
      n := 8 - ds;
    }
    if n > left {
      n := left;
    }
    x := BByteCpy(d, interm, ds, n);
    assert x == Spliced(d, s, ds, ss, n);
  }

  /** The loop */
  method ShiftLoop(dst: array<Byte>, to: nat, src: array<Byte>, from: nat, nBits: nat)
    requires dst != src && to + nBits <= 8 * dst.Length && from + nBits <= 8 * src.Length && to % 8 != from % 8
    modifies dst
    ensures Expand(dst[..]) == Spliced(Expand(old(dst[..])), Expand(src[..]), to, from, nBits)
  {
    var d: nat, ds: nat, s: nat, ss: nat, left: nat := to / 8, to % 8, from / 8, from % 8, nBits;
    ghost var done: nat, was, bits := 0, Expand(dst[..]), Expand(src[..]);
    while left != 0
      invariant done + left == nBits && Holds(dst, Spliced(was, bits, to, from, done), src, bits)
      invariant left > 0 ==> ds < 8 && ss < 8 && 8 * d + ds == to + done && 8 * s + ss == from + done && ds != ss
      decreases left
    {
      var n := ShiftRound(dst, d, src, s, ds, ss, left, was, bits, to, from, done);
      if ss > ds {
        ds, ss, s := ds + n, 0, s + 1;
      } else {
        ds, d, ss := 0, d + 1, ss + n;
      }
      left, done := left - n, done + n;
    }
  }

  /** The bits that one round copies */
  method ShiftRound(dst: array<Byte>, d: nat, src: array<Byte>, s: nat, ds: nat, ss: nat, left: nat,
                    ghost was: seq<bool>, ghost bits: seq<bool>, ghost to: nat, ghost from: nat,
                    ghost done: nat) returns (n: nat)
    requires ds < 8 && ss < 8 && 0 < left && d < dst.Length && s < src.Length
    requires to + done + left <= |was| && from + done + left <= |bits| && 8 * d + ds == to + done
    requires 8 * s + ss == from + done
    requires Holds(dst, Spliced(was, bits, to, from, done), src, bits)
    modifies dst
    ensures 0 < n <= left && ds + n <= 8 && ss + n <= 8 && (n == left || (if ss > ds then ss + n == 8 else ds + n == 8))
    ensures Holds(dst, Spliced(was, bits, to, from, done + n), src, bits)
  {
    var x;
    x, n := ShiftByte(dst[d], src[s], ds, ss, left);
    PutMore(dst, d, x, src, s, ds, ss, n, was, bits, to, from, done);
  }

  /** Store byte x, once `done` bits are there. */
  method PutMore(dst: array<Byte>, b: nat, x: Byte, src: array<Byte>, ghost c: nat, ghost ds: nat, ghost ss: nat,
                 ghost n: nat,
                 ghost was: seq<bool>, ghost bits: seq<bool>, ghost to: nat, ghost from: nat, ghost done: nat)
    requires to + done + n <= |was| && from + done + n <= |bits| && b < dst.Length && c < src.Length && ds + n <= 8
    requires ss + n <= 8
    requires 8 * b + ds == to + done && 8 * c + ss == from + done && x == Spliced(dst[b], src[c], ds, ss, n)
    requires Holds(dst, Spliced(was, bits, to, from, done), src, bits)
    modifies dst
    ensures Holds(dst, Spliced(was, bits, to, from, done + n), src, bits)
  {
    ghost var mid, at, start := Spliced(was, bits, to, from, done), to + done, from + done;
    SplicedMore(was, bits, to, from, done, n);
    PutByte(dst, b, x, src, c, ds, ss, n, mid, bits, at, start);
  }

  /** bmemcpy_shift (src/bitops.c:56-94): exactly the named bits are copied, and no other changes. */
  method BMemCpyShift(dst: array<Byte>, to: nat, src: array<Byte>, from: nat, nBits: nat)
    requires dst != src && to + nBits <= 8 * dst.Length && from + nBits <= 8 * src.Length
    modifies dst
    ensures Expand(dst[..]) == Spliced(Expand(old(dst[..])), Expand(src[..]), to, from, nBits)
  {
    if to % 8 == from % 8 {
      BMemCpy(dst, to / 8, src, from / 8, to % 8, nBits, to, from);
    } else {
      ShiftLoop(dst, to, src, from, nBits);
    }
  }

  // ---------- comparing ----------

  function Zeros(n: nat): (r: seq<bool>)
    ensures |r| == n
  {
    seq(n, _ => false)
  }

  lemma {:induction false} ZerosAreEqual(n: nat)
    ensures !Less(Zeros(n), Zeros(n))
  {
    LessIsTotal(Zeros(n), Zeros(n));
  }

  lemma ByteInBuffer(m: seq<Byte>, b: nat)
    requires b < |m|
    ensures Expand(m)[8 * b..8 * b + 8] == m[b]
  {
    forall i | 0 <= i < 8 ensures Expand(m)[8 * b..8 * b + 8][i] == m[b][i] {
      assert (8 * b + i) / 8 == b && (8 * b + i) % 8 == i;
    }
  }

  lemma SuffixInBuffer(m: seq<Byte>, b: nat)
    requires b <= |m|
    ensures Expand(m[b..]) == Expand(m)[8 * b..]
  {
    forall k | 0 <= k < 8 * (|m| - b) ensures Expand(m[b..])[k] == Expand(m)[8 * b..][k] {
      assert (8 * b + k) / 8 == b + k / 8 && (8 * b + k) % 8 == k % 8;
    }
  }

  lemma MaskedIs(p: Byte, mask: Byte, lo: nat, hi: nat)
    requires lo <= hi <= 8 && forall i | 0 <= i < 8 :: mask[i] <==> lo <= i < hi
    ensures And(p, mask) == Zeros(lo) + (p[lo..hi] + Zeros(8 - hi))
  {
    var r := Zeros(lo) + (p[lo..hi] + Zeros(8 - hi));
    forall i | 0 <= i < 8 ensures And(p, mask)[i] == r[i] {
    }
  }

  /** Masked bytes compare as numbers like the bits under the mask. */
  lemma MaskedOrder(p: Byte, q: Byte, mask: Byte, lo: nat, hi: nat)
    requires lo <= hi <= 8 && forall i | 0 <= i < 8 :: mask[i] <==> lo <= i < hi
    ensures Value(And(p, mask)) < Value(And(q, mask)) <==> Less(p[lo..hi], q[lo..hi])
    ensures Value(And(p, mask)) == Value(And(q, mask)) <==> p[lo..hi] == q[lo..hi]
  {
    MaskedIs(p, mask, lo, hi);
    MaskedIs(q, mask, lo, hi);
    PaddedValues(And(p, mask), And(q, mask), lo, p[lo..hi], q[lo..hi], 8 - hi);
  }

  lemma PaddedValues(x: seq<bool>, y: seq<bool>, lo: nat, b: seq<bool>, c: seq<bool>, hi: nat)
    requires |b| == |c| && x == Zeros(lo) + (b + Zeros(hi)) && y == Zeros(lo) + (c + Zeros(hi))
    ensures Value(x) < Value(y) <==> Less(b, c)
    ensures Value(x) == Value(y) <==> b == c
  {
    ValueOrder(x, y);
    PaddedOrder(lo, b, c, hi);
  }

  lemma PaddedOrder(lo: nat, b: seq<bool>, c: seq<bool>, hi: nat)
    requires |b| == |c|
    ensures Less(Zeros(lo) + (b + Zeros(hi)), Zeros(lo) + (c + Zeros(hi))) <==> Less(b, c)
    ensures Zeros(lo) + (b + Zeros(hi)) == Zeros(lo) + (c + Zeros(hi)) <==> b == c
  {
    var a, d := Zeros(lo), Zeros(hi);
    LessInParts(a, a, b + d, c + d);
    LessInParts(b, c, d, d);
    ZerosAreEqual(lo);
    ZerosAreEqual(hi);
    if a + (b + d) == a + (c + d) {
      assert b == (a + (b + d))[lo..lo + |b|] == (a + (c + d))[lo..lo + |b|] == c;
    }
  }

  /** r compares x and y as memcmp does. */
  ghost predicate Compares(r: int, x: seq<bool>, y: seq<bool>)
    requires |x| == |y|
  {
    (r < 0 <==> Less(x, y)) && (r == 0 <==> x == y)
  }

  /** Equal beginnings do not matter. */
  lemma ComparesRest(r: int, a: seq<bool>, x: seq<bool>, y: seq<bool>)
    requires |x| == |y| && Compares(r, x, y)
    ensures Compares(r, a + x, a + y)
  {
    LessInParts(a, a, x, y);
    LessIsTotal(a, a);
    if a + x == a + y {
      assert x == (a + x)[|a|..] && y == (a + y)[|a|..];
    }
  }

  /** Unequal beginnings decide. */
  lemma ComparesStart(r: int, a: seq<bool>, b: seq<bool>, x: seq<bool>, y: seq<bool>)
    requires |a| == |b| && |x| == |y| && Compares(r, a, b) && r != 0
    ensures Compares(r, a + x, b + y)
  {
    LessInParts(a, b, x, y);
    assert a == (a + x)[..|a|] && b == (b + y)[..|b|];
  }

  /** The first byte that differs decides. */
  lemma ByteDecides(m1: seq<Byte>, m2: seq<Byte>, i: nat, bitLen: nat, r: int)
    requires 8 * i + 8 <= bitLen <= 8 * |m1| && bitLen <= 8 * |m2| && Expand(m1)[..8 * i] == Expand(m2)[..8 * i]
    requires r == Value(m1[i]) - Value(m2[i]) && r != 0
    ensures Compares(r, Expand(m1)[..bitLen], Expand(m2)[..bitLen])
  {
    var e1, e2 := Expand(m1), Expand(m2);
    BeforeByteAfter(m1, i, bitLen);
    BeforeByteAfter(m2, i, bitLen);
    ValueOrder(m1[i], m2[i]);
    ComparesStart(r, m1[i], m2[i], e1[8 * i + 8..bitLen], e2[8 * i + 8..bitLen]);
    ComparesRest(r, e1[..8 * i], m1[i] + e1[8 * i + 8..bitLen], m2[i] + e2[8 * i + 8..bitLen]);
  }

  lemma BeforeByteAfter(m: seq<Byte>, i: nat, bitLen: nat)
    requires 8 * i + 8 <= bitLen <= 8 * |m|
    ensures Expand(m)[..bitLen] == Expand(m)[..8 * i] + (m[i] + Expand(m)[8 * i + 8..bitLen])
  {
    ByteInBuffer(m, i);
    Cut(Expand(m), 0, 8 * i, bitLen);
    Cut(Expand(m), 8 * i, 8 * i + 8, bitLen);
  }

  lemma StartOfByte(m: seq<Byte>, b: nat, k: nat)
    requires b < |m| && k <= 8
    ensures Expand(m)[8 * b..8 * b + k] == m[b][0..k]
  {
    ByteInBuffer(m, b);
    assert Expand(m)[8 * b..8 * b + 8][..k] == Expand(m)[8 * b..8 * b + k];
  }

  lemma Cut(e: seq<bool>, lo: nat, mid: nat, hi: nat)
    requires lo <= mid <= hi <= |e|
    ensures e[lo..hi] == e[lo..mid] + e[mid..hi]
  {
  }

  lemma EqualByte(m1: seq<Byte>, m2: seq<Byte>, i: nat)
    requires i < |m1| && i < |m2| && Expand(m1)[..8 * i] == Expand(m2)[..8 * i] && Value(m1[i]) == Value(m2[i])
    ensures Expand(m1)[..8 * (i + 1)] == Expand(m2)[..8 * (i + 1)]
  {
    var e1, e2 := Expand(m1), Expand(m2);
    ByteInBuffer(m1, i);
    ByteInBuffer(m2, i);
    ValueOrder(m1[i], m2[i]);
    Cut(e1, 0, 8 * i, 8 * i + 8);
    Cut(e2, 0, 8 * i, 8 * i + 8);
  }

  /** The bits left over in the last byte */
  lemma LastBits(m1: seq<Byte>, m2: seq<Byte>, bytes: nat, rem: nat, mask: Byte, r: int)
    requires bytes < |m1| && bytes < |m2| && rem <= 8 && Expand(m1)[..8 * bytes] == Expand(m2)[..8 * bytes]
    requires forall i | 0 <= i < 8 :: mask[i] <==> i < rem
    requires r == Value(And(m1[bytes], mask)) - Value(And(m2[bytes], mask))
    ensures Compares(r, Expand(m1)[..8 * bytes + rem], Expand(m2)[..8 * bytes + rem])
  {
    var e1, e2, len := Expand(m1), Expand(m2), 8 * bytes + rem;
    MaskedOrder(m1[bytes], m2[bytes], mask, 0, rem);
    StartOfByte(m1, bytes, rem);
    StartOfByte(m2, bytes, rem);
    ComparesRest(r, e1[..8 * bytes], e1[8 * bytes..len], e2[8 * bytes..len]);
    Cut(e1, 0, 8 * bytes, len);
    Cut(e2, 0, 8 * bytes, len);
  }

  /** bmemcmp (src/bitops.c:97-113) */
  method BMemCmp(m1: seq<Byte>, m2: seq<Byte>, bitLen: nat) returns (r: int)
    requires bitLen <= 8 * |m1| && bitLen <= 8 * |m2|
    ensures Compares(r, Expand(m1)[..bitLen], Expand(m2)[..bitLen])
  {
    var bytes := bitLen / 8;
    var i := 0;
    while i < bytes
      invariant i <= bytes && Expand(m1)[..8 * i] == Expand(m2)[..8 * i]
    {
      r := Value(m1[i]) - Value(m2[i]);
      if r != 0 {
        ByteDecides(m1, m2, i, bitLen, r);
        return;
      }
      EqualByte(m1, m2, i);
      i := i + 1;
    }
    var rem := bitLen % 8;
    if rem == 0 {
      LessIsTotal(Expand(m1)[..bitLen], Expand(m2)[..bitLen]);
      return 0;
    }
    var mask := Shl(ONES, 8 - rem);
    r := Value(And(m1[bytes], mask)) - Value(And(m2[bytes], mask));
    LastBits(m1, m2, bytes, rem, mask, r);
  }

  /** Bits start up to start + n of a buffer */
  function Window(m: seq<Byte>, start: nat, n: nat): (r: seq<bool>)
    requires start + n <= 8 * |m|
    ensures |r| == n
  {
    Expand(m)[start..start + n]
  }

  /** A window that lies in one byte */
  lemma WindowInByte(m: seq<Byte>, b: nat, mod: nat, n: nat)
    requires b < |m| && mod + n <= 8
    ensures Window(m, 8 * b + mod, n) == m[b][mod..mod + n]
  {
    ByteInBuffer(m, b);
    assert Expand(m)[8 * b..8 * b + 8][mod..mod + n] == Expand(m)[8 * b + mod..8 * b + mod + n];
  }

  /** A window that begins in byte b and goes on */
  lemma WindowAcross(m: seq<Byte>, b: nat, mod: nat, n: nat)
    requires b < |m| && mod <= 8 <= mod + n && 8 * b + mod + n <= 8 * |m|
    ensures Window(m, 8 * b + mod, n) == m[b][mod..] + Expand(m[b + 1..])[..n - (8 - mod)]
  {
    RestOfByte(m, b, mod);
    BytesAfter(m, b, n - (8 - mod));
    Cut(Expand(m), 8 * b + mod, 8 * b + 8, 8 * b + mod + n);
  }

  lemma RestOfByte(m: seq<Byte>, b: nat, mod: nat)
    requires b < |m| && mod <= 8
    ensures Expand(m)[8 * b + mod..8 * b + 8] == m[b][mod..]
  {
    WindowInByte(m, b, mod, 8 - mod);
    assert m[b][mod..mod + (8 - mod)] == m[b][mod..];
  }

  lemma BytesAfter(m: seq<Byte>, b: nat, n: nat)
    requires b < |m| && 8 * b + 8 + n <= 8 * |m|
    ensures Expand(m)[8 * b + 8..8 * b + 8 + n] == Expand(m[b + 1..])[..n]
  {
    SuffixWindow(m, b + 1, n);
    assert 8 * (b + 1) == 8 * b + 8;
  }

  /** A window that begins with byte b */
  lemma SuffixWindow(m: seq<Byte>, b: nat, n: nat)
    requires b <= |m| && 8 * b + n <= 8 * |m|
    ensures Expand(m[b..])[..n] == Window(m, 8 * b, n)
  {
    SuffixInBuffer(m, b);
  }

  /** bmemcmp_s (src/bitops.c:115-143) */
  method BMemCmpS(m1: seq<Byte>, m2: seq<Byte>, start: nat, nBits: nat) returns (r: int)
    requires start + nBits <= 8 * |m1| && start + nBits <= 8 * |m2|
    ensures Compares(r, Window(m1, start, nBits), Window(m2, start, nBits))
  {
    if nBits == 0 {
      return 0;
    }
    var mod, first, last := start % 8, start / 8, (start + nBits) / 8;
    WhichBytes(start, nBits, first, mod, last);
    if first == last {
      r := CompareInside(m1, m2, first, mod, nBits);
    } else if mod != 0 {
      r := CompareAround(m1, m2, first, mod, nBits);
    } else {
      r := CompareFrom(m1, m2, first, nBits);
    }
  }

  lemma WhichBytes(start: nat, n: nat, first: nat, mod: nat, last: nat)
    requires first == start / 8 && mod == start % 8 && last == (start + n) / 8
    ensures start == 8 * first + mod && mod < 8 && (first == last <==> mod + n < 8)
  {
  }

  /** A window that begins with a byte */
  method CompareFrom(m1: seq<Byte>, m2: seq<Byte>, first: nat, nBits: nat) returns (r: int)
    requires 8 * first + nBits <= 8 * |m1| && 8 * first + nBits <= 8 * |m2|
    ensures Compares(r, Window(m1, 8 * first, nBits), Window(m2, 8 * first, nBits))
  {
    SuffixWindow(m1, first, nBits);
    SuffixWindow(m2, first, nBits);
    r := BMemCmp(m1[first..], m2[first..], nBits);
  }

  /** A window in one byte */
  method CompareInside(m1: seq<Byte>, m2: seq<Byte>, first: nat, mod: nat, nBits: nat) returns (r: int)
    requires first < |m1| && first < |m2| && mod + nBits <= 8
    ensures Compares(r, Window(m1, 8 * first + mod, nBits), Window(m2, 8 * first + mod, nBits))
  {
    WindowInByte(m1, first, mod, nBits);
    WindowInByte(m2, first, mod, nBits);
    r := CompareInByte(m1[first], m2[first], mod, nBits);
  }

  /** A window over several bytes */
  method CompareAround(m1: seq<Byte>, m2: seq<Byte>, first: nat, mod: nat, nBits: nat) returns (r: int)
    requires first < |m1| && first < |m2| && mod <= 8 <= mod + nBits
    requires 8 * first + mod + nBits <= 8 * |m1| && 8 * first + mod + nBits <= 8 * |m2|
    ensures Compares(r, Window(m1, 8 * first + mod, nBits), Window(m2, 8 * first + mod, nBits))
  {
    WindowAcross(m1, first, mod, nBits);
    WindowAcross(m2, first, mod, nBits);
    r := CompareAcross(m1, m2, first, mod, nBits);
  }

  method CompareInByte(p: Byte, q: Byte, mod: nat, nBits: nat) returns (r: int)
    requires mod + nBits <= 8
    ensures Compares(r, p[mod..mod + nBits], q[mod..mod + nBits])
  {
    var mask := Shr(ONES, mod);
    mask := Shr(mask, 8 - nBits - mod);
    mask := Shl(mask, 8 - nBits - mod);
    MaskedOrder(p, q, mask, mod, mod + nBits);
    r := Value(And(p, mask)) - Value(And(q, mask));
  }

  method CompareEnd(p: Byte, q: Byte, mod: nat) returns (r: int)
    requires mod <= 8
    ensures Compares(r, p[mod..], q[mod..])
  {
    var mask := Shr(ONES, mod);
    MaskedOrder(p, q, mask, mod, 8);
    assert p[mod..8] == p[mod..] && q[mod..8] == q[mod..];
    r := Value(And(p, mask)) - Value(And(q, mask));
  }

  /** The rest of a byte, and what follows */
  method CompareAcross(m1: seq<Byte>, m2: seq<Byte>, first: nat, mod: nat, nBits: nat) returns (r: int)
    requires first < |m1| && first < |m2| && mod <= 8 <= mod + nBits
    requires 8 * first + mod + nBits <= 8 * |m1| && 8 * first + mod + nBits <= 8 * |m2|
    ensures Compares(r, m1[first][mod..] + Expand(m1[first + 1..])[..nBits - (8 - mod)],
                        m2[first][mod..] + Expand(m2[first + 1..])[..nBits - (8 - mod)])
  {
    var left := nBits - (8 - mod);
    ghost var a, b, x, y :=
      m1[first][mod..], m2[first][mod..], Expand(m1[first + 1..])[..left], Expand(m2[first + 1..])[..left];
    r := CompareEnd(m1[first], m2[first], mod);
    if r != 0 {
      ComparesStart(r, a, b, x, y);
      return;
    }
    if left != 0 {
      r := BMemCmp(m1[first + 1..], m2[first + 1..], left);
    }
    ComparesRest(r, a, x, y);
  }
}
