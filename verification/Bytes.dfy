/**
  Bytes as their bits, the most significant first, with the operators of uint8_t.
 */
module Bytes {
  type Byte = b: seq<bool> | |b| == 8 witness [false, false, false, false, false, false, false, false]

  function And(a: Byte, b: Byte): (r: Byte)
    ensures forall i | 0 <= i < 8 :: r[i] == (a[i] && b[i])
  {
    seq(8, i requires 0 <= i < 8 => a[i] && b[i])
  }

  function Or(a: Byte, b: Byte): (r: Byte)
    ensures forall i | 0 <= i < 8 :: r[i] == (a[i] || b[i])
  {
    seq(8, i requires 0 <= i < 8 => a[i] || b[i])
  }

  function Not(a: Byte): (r: Byte)
    ensures forall i | 0 <= i < 8 :: r[i] == !a[i]
  {
    seq(8, i requires 0 <= i < 8 => !a[i])
  }

  function Shl(a: Byte, k: nat): (r: Byte)
    ensures forall i | 0 <= i < 8 :: r[i] == (i + k < 8 && a[i + k])
  {
    seq(8, i requires 0 <= i < 8 => i + k < 8 && a[i + k])
  }

  function Shr(a: Byte, k: nat): (r: Byte)
    ensures forall i | 0 <= i < 8 :: r[i] == (k <= i && a[i - k])
  {
    seq(8, i requires 0 <= i < 8 => k <= i && a[i - k])
  }

  const ONES: Byte := [true, true, true, true, true, true, true, true]

  /** bbytecpy_masks (src/bitops.c:12-13): 0x00, 0x80, 0xc0, ..., 0xff */
  function HighMask(n: nat): (r: Byte)
    requires n <= 8
    ensures forall i | 0 <= i < 8 :: r[i] == (i < n)
  {
    seq(8, i requires 0 <= i < 8 => i < n)
  }

  /** The unsigned number that some bits stand for */
  function Value(b: seq<bool>): nat {
    if b == [] then 0 else 2 * Value(b[..|b| - 1]) + (if b[|b| - 1] then 1 else 0)
  }

  function Pow2(n: nat): nat {
    if n == 0 then 1 else 2 * Pow2(n - 1)
  }

  /** Two bit strings of one length compare as numbers like they do bit by bit. */
  lemma {:induction false} ValueOrder(a: seq<bool>, b: seq<bool>)
    requires |a| == |b|
    ensures Value(a) < Value(b) <==> Less(a, b)
    ensures Value(a) == Value(b) <==> a == b
    decreases |a|
  {
    if a != [] {
      var x, y := a[..|a| - 1], b[..|b| - 1];
      ValueOrder(x, y);
      assert a == x + [a[|a| - 1]] && b == y + [b[|b| - 1]];
      LessLast(x, y, a[|a| - 1], b[|b| - 1]);
    }
  }

  /** a comes before b: at the first place where they differ, a has 0. */
  predicate Less(a: seq<bool>, b: seq<bool>)
    requires |a| == |b|
  {
    a != [] && if a[0] == b[0] then Less(a[1..], b[1..]) else b[0]
  }

  lemma {:induction false} LessLast(x: seq<bool>, y: seq<bool>, p: bool, q: bool)
    requires |x| == |y|
    ensures Less(x + [p], y + [q]) <==> Less(x, y) || (x == y && !p && q)
    decreases |x|
  {
    var a, b := x + [p], y + [q];
    if x == [] {
      assert a[1..] == [] && b[1..] == [];
    } else {
      assert a[1..] == x[1..] + [p] && b[1..] == y[1..] + [q];
      LessLast(x[1..], y[1..], p, q);
      if x[0] == y[0] {
        assert x == [x[0]] + x[1..] && y == [y[0]] + y[1..];
      }
    }
  }

  /** The first parts decide, unless they are equal. */
  lemma {:induction false} LessInParts(a: seq<bool>, b: seq<bool>, c: seq<bool>, d: seq<bool>)
    requires |a| == |b| && |c| == |d|
    ensures Less(a + c, b + d) <==> Less(a, b) || (a == b && Less(c, d))
    decreases |a|
  {
    if a == [] {
      assert a + c == c && b + d == d;
    } else {
      assert (a + c)[1..] == a[1..] + c && (b + d)[1..] == b[1..] + d;
      LessInParts(a[1..], b[1..], c, d);
      if a[0] == b[0] {
        assert a == [a[0]] + a[1..] && b == [b[0]] + b[1..];
      }
    }
  }

  lemma {:induction false} LessIsTotal(a: seq<bool>, b: seq<bool>)
    requires |a| == |b|
    ensures Less(a, b) || Less(b, a) || a == b
    ensures !(Less(a, b) && Less(b, a)) && !Less(a, a)
    decreases |a|
  {
    if a != [] {
      LessIsTotal(a[1..], b[1..]);
      assert a == [a[0]] + a[1..] && b == [b[0]] + b[1..];
    }
  }
}
