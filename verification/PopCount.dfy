/**
  The population count of a 64-bit word (src/bitops.c:145-155): masks, shifts and one multiplication
  count the ones of any word.
 */
module PopCount {
  import opened Bytes

  const WORD := 0x1_0000_0000_0000_0000
  const TOP := 0x100_0000_0000_0000
  const M1 := 0x5555_5555_5555_5555
  const M2 := 0x3333_3333_3333_3333
  const M4 := 0x0f0f_0f0f_0f0f_0f0f
  const H01 := 0x0101_0101_0101_0101

  // ---------- & on numbers ----------

  function Both(p: nat, q: nat): nat {
    if p == 1 && q == 1 then 1 else 0
  }

  function BitAnd(x: nat, y: nat): nat {
    if x == 0 || y == 0 then 0 else 2 * BitAnd(x / 2, y / 2) + Both(x % 2, y % 2)
  }

  lemma AndIn2(a: nat, p: nat, c: nat, q: nat)
    requires p < 2 && q < 2
    ensures BitAnd(2 * a + p, 2 * c + q) == 2 * BitAnd(a, c) + Both(p, q)
  {
    if 2 * a + p > 0 && 2 * c + q > 0 {
      assert (2 * a + p) / 2 == a && (2 * c + q) / 2 == c;
    }
  }

  /** Digits in base 4 do not mix ... */
  lemma AndIn4(a: nat, p: nat, c: nat, q: nat)
    requires p < 4 && q < 4
    ensures BitAnd(4 * a + p, 4 * c + q) == 4 * BitAnd(a, c) + BitAnd(p, q)
  {
    AndIn2(2 * a + p / 2, p % 2, 2 * c + q / 2, q % 2);
    AndIn2(a, p / 2, c, q / 2);
    AndIn2(p / 2, p % 2, q / 2, q % 2);
    AndIn2(0, p / 2, 0, q / 2);
  }

  /** ... nor in base 16, ... */
  lemma AndIn16(a: nat, p: nat, c: nat, q: nat)
    requires p < 16 && q < 16
    ensures BitAnd(16 * a + p, 16 * c + q) == 16 * BitAnd(a, c) + BitAnd(p, q)
  {
    var p1, p0, q1, q0 := p / 4, p % 4, q / 4, q % 4;
    assert p == 4 * p1 + p0 && q == 4 * q1 + q0;
    AndOfTwo(a, p1, p0, c, q1, q0);
  }

  lemma AndOfTwo(a: nat, p1: nat, p0: nat, c: nat, q1: nat, q0: nat)
    requires p1 < 4 && p0 < 4 && q1 < 4 && q0 < 4
    ensures BitAnd(16 * a + (4 * p1 + p0), 16 * c + (4 * q1 + q0)) == 16 * BitAnd(a, c) + BitAnd(4 * p1 + p0,
                                                                                                 4 * q1 + q0)
  {
    AndIn4(4 * a + p1, p0, 4 * c + q1, q0);
    AndIn4(a, p1, c, q1);
    AndIn4(p1, p0, q1, q0);
    assert 4 * (4 * a + p1) + p0 == 16 * a + (4 * p1 + p0) && 4 * (4 * c + q1) + q0 == 16 * c + (4 * q1 + q0);
  }

  /** ... nor in base 256. */
  lemma AndIn256(a: nat, p: nat, c: nat, q: nat)
    requires p < 256 && q < 256
    ensures BitAnd(256 * a + p, 256 * c + q) == 256 * BitAnd(a, c) + BitAnd(p, q)
  {
    var p1, p0, q1, q0 := p / 16, p % 16, q / 16, q % 16;
    assert p == 16 * p1 + p0 && q == 16 * q1 + q0;
    AndOfFour(a, p1, p0, c, q1, q0);
  }

  lemma AndOfFour(a: nat, p1: nat, p0: nat, c: nat, q1: nat, q0: nat)
    requires p1 < 16 && p0 < 16 && q1 < 16 && q0 < 16
    ensures BitAnd(256 * a + (16 * p1 + p0), 256 * c + (16 * q1 + q0)) == 256 * BitAnd(a, c) + BitAnd(16 * p1 + p0,
                                                                                                      16 * q1 + q0)
  {
    AndIn16(16 * a + p1, p0, 16 * c + q1, q0);
    AndIn16(a, p1, c, q1);
    AndIn16(p1, p0, q1, q0);
    assert 16 * (16 * a + p1) + p0 == 256 * a + (16 * p1 + p0) && 16 * (16 * c + q1) + q0 == 256 * c + (16 * q1 + q0);
  }

  lemma AndOne(p: nat)
    ensures BitAnd(p, 1) == p % 2
  {
    AndIn2(p / 2, p % 2, 0, 1);
  }

  lemma AndThree(p: nat)
    ensures BitAnd(p, 3) == p % 4
  {
    AndIn2(p / 2, p % 2, 1, 1);
    AndOne(p / 2);
  }

  lemma AndFifteen(p: nat)
    ensures BitAnd(p, 15) == p % 16
  {
    AndIn4(p / 4, p % 4, 3, 3);
    assert p == 4 * (p / 4) + p % 4;
    AndThree(p / 4);
    AndThree(p % 4);
    TwoDigits(p);
  }

  lemma TwoDigits(p: nat)
    ensures p % 16 == 4 * ((p / 4) % 4) + p % 4 && p % 4 % 4 == p % 4
  {
  }

  // ---------- the masks ----------

  /** n times the digit 1 in base 4, 3 in base 16, 15 in base 256 */
  function Mask1(n: nat): nat {
    if n == 0 then 0 else 4 * Mask1(n - 1) + 1
  }

  function Mask2(n: nat): nat {
    if n == 0 then 0 else 16 * Mask2(n - 1) + 3
  }

  function Mask4(n: nat): nat {
    if n == 0 then 0 else 256 * Mask4(n - 1) + 15
  }

  lemma MasksAre()
    ensures Mask1(32) == M1 && Mask2(16) == M2 && Mask4(8) == M4
  {
    assert Mask1(8) == 0x5555 && Mask1(16) == 0x5555_5555 && Mask1(24) == 0x5555_5555_5555;
    assert Mask2(8) == 0x3333_3333;
  }

  // ---------- sums of digits ----------

  /** How many of the low m bits are ones */
  function OnesOf(x: nat, m: nat): nat {
    if m == 0 then 0 else x % 2 + OnesOf(x / 2, m - 1)
  }

  function Sum4(x: nat, n: nat): nat {
    if n == 0 then 0 else x % 4 + Sum4(x / 4, n - 1)
  }

  function Sum16(x: nat, n: nat): nat {
    if n == 0 then 0 else x % 16 + Sum16(x / 16, n - 1)
  }

  function Sum256(x: nat, n: nat): nat {
    if n == 0 then 0 else x % 256 + Sum256(x / 256, n - 1)
  }

  /** The digits are at most 2, 4, 8. */
  ghost predicate Small4(x: nat, n: nat) {
    n == 0 || (x % 4 <= 2 && Small4(x / 4, n - 1))
  }

  ghost predicate Small16(x: nat, n: nat) {
    n == 0 || (x % 16 <= 4 && Small16(x / 16, n - 1))
  }

  ghost predicate Small256(x: nat, n: nat) {
    n == 0 || (x % 256 <= 8 && Small256(x / 256, n - 1))
  }

  lemma Pow2Plus2(m: nat)
    ensures Pow2(m + 2) == 4 * Pow2(m)
  {
    assert Pow2(m + 2) == 2 * Pow2(m + 1);
  }

  lemma Pow2Plus4(m: nat)
    ensures Pow2(m + 4) == 16 * Pow2(m)
  {
    Pow2Plus2(m);
    Pow2Plus2(m + 2);
  }

  lemma Pow2Plus8(m: nat)
    ensures Pow2(m + 8) == 256 * Pow2(m)
  {
    Pow2Plus4(m);
    Pow2Plus4(m + 4);
  }

  // ---------- first step: the ones of each 2 bits ----------

  function Pairs(x: nat, n: nat): nat {
    if n == 0 then 0 else 4 * Pairs(x / 4, n - 1) + (x % 4 - (x % 4) / 2)
  }

  lemma {:induction false} FirstStep(x: nat, n: nat)
    requires x < Pow2(2 * n)
    ensures BitAnd(x / 2, Mask1(n)) <= x && x - BitAnd(x / 2, Mask1(n)) == Pairs(x, n)
  {
    if n > 0 {
      Pow2Plus2(2 * (n - 1));
      FirstStep(x / 4, n - 1);
      FirstDigit(x, x / 4, Mask1(n - 1));
    }
  }

  lemma FirstDigit(x: nat, h: nat, mask: nat)
    requires h == x / 4
    ensures BitAnd(x / 2, 4 * mask + 1) == 4 * BitAnd(h / 2, mask) + (x % 4) / 2
  {
    var b := 2 * (h % 2) + (x % 4) / 2;
    Halved(x, h);
    FirstAnd(h / 2, b, mask);
  }

  lemma Halved(x: nat, h: nat)
    requires h == x / 4
    ensures var b := 2 * (h % 2) + (x % 4) / 2; x / 2 == 4 * (h / 2) + b && b < 4 && b % 2 == (x % 4) / 2
  {
  }

  lemma FirstAnd(k: nat, b: nat, mask: nat)
    requires b < 4
    ensures BitAnd(4 * k + b, 4 * mask + 1) == 4 * BitAnd(k, mask) + b % 2
  {
    AndIn4(k, b, mask, 1);
    AndOne(b);
  }

  lemma {:induction false} PairsCount(x: nat, n: nat)
    ensures Sum4(Pairs(x, n), n) == OnesOf(x, 2 * n) && Small4(Pairs(x, n), n)
  {
    if n > 0 {
      PairsCount(x / 4, n - 1);
      OnesOfPair(x);
      Digit4(Pairs(x / 4, n - 1), x % 4 - (x % 4) / 2);
      assert OnesOf(x, 2 * n) == x % 2 + OnesOf(x / 2, 2 * n - 1);
      assert OnesOf(x / 2, 2 * n - 1) == (x / 2) % 2 + OnesOf(x / 2 / 2, 2 * n - 2);
    }
  }

  lemma OnesOfPair(x: nat)
    ensures x % 4 - (x % 4) / 2 == x % 2 + (x / 2) % 2 && x / 2 / 2 == x / 4
  {
    var h, d := x / 4, x % 4;
    TwoBits(h, d / 2, d % 2);
    assert x == 4 * h + (2 * (d / 2) + d % 2);
  }

  lemma TwoBits(h: nat, u: nat, v: nat)
    requires u < 2 && v < 2
    ensures var x := 4 * h + (2 * u + v);
            && x / 4 == h && x % 4 == 2 * u + v && (x % 4) / 2 == u && x % 2 == v
            && x / 2 == 2 * h + u && (x / 2) % 2 == u && x / 2 / 2 == h
  {
  }

  lemma Digit4(h: nat, d: nat)
    requires d < 4
    ensures (4 * h + d) % 4 == d && (4 * h + d) / 4 == h
  {
  }

  // ---------- second step: of each 4 bits ----------

  function Quads(x: nat, n: nat): nat {
    if n == 0 then 0 else 16 * Quads(x / 16, n - 1) + (x % 4 + (x / 4) % 4)
  }

  lemma {:induction false} SecondStep(x: nat, n: nat)
    requires x < Pow2(4 * n)
    ensures BitAnd(x, Mask2(n)) + BitAnd(x / 4, Mask2(n)) == Quads(x, n)
  {
    if n > 0 {
      var h := x / 16;
      Pow2Plus4(4 * (n - 1));
      SecondStep(h, n - 1);
      SecondDigit(x, h, Mask2(n - 1));
    }
  }

  lemma SecondDigit(x: nat, h: nat, mask: nat)
    requires h == x / 16
    ensures BitAnd(x, 16 * mask + 3) == 16 * BitAnd(h, mask) + x % 4
    ensures BitAnd(x / 4, 16 * mask + 3) == 16 * BitAnd(h / 4, mask) + (x / 4) % 4
  {
    LastDigit(x, h, x % 16);
    SecondAnd(h, x % 16, mask);
    SecondAnd(h / 4, 4 * (h % 4) + (x / 4) % 4, mask);
  }

  lemma SecondAnd(k: nat, b: nat, mask: nat)
    requires b < 16
    ensures BitAnd(16 * k + b, 16 * mask + 3) == 16 * BitAnd(k, mask) + b % 4
  {
    AndIn16(k, b, mask, 3);
    AndThree(b);
  }

  lemma LastDigit(x: nat, h: nat, l: nat)
    requires h == x / 16 && l == x % 16
    ensures x == 16 * h + l && l % 4 == x % 4 && x / 4 == 16 * (h / 4) + (4 * (h % 4) + (x / 4) % 4)
    ensures (4 * (h % 4) + (x / 4) % 4) % 4 == (x / 4) % 4
  {
    var u, v := l / 4, l % 4;
    Quarter(h, u, v);
    assert x == 16 * h + (4 * u + v);
    assert h == 4 * (h / 4) + h % 4;
  }

  lemma Quarter(h: nat, u: nat, v: nat)
    requires u < 4 && v < 4
    ensures (16 * h + (4 * u + v)) / 4 == 4 * h + u && (4 * h + u) % 4 == u && (16 * h + (4 * u + v)) % 4 == v
  {
  }

  lemma {:induction false} QuadsCount(x: nat, n: nat)
    requires Small4(x, 2 * n)
    ensures Sum16(Quads(x, n), n) == Sum4(x, 2 * n) && Small16(Quads(x, n), n)
  {
    if n > 0 {
      TwoDigits4(x, 2 * n - 2);
      QuadsCount(x / 16, n - 1);
      Digit16(Quads(x / 16, n - 1), x % 4 + (x / 4) % 4);
    }
  }

  lemma TwoDigits4(x: nat, m: nat)
    ensures Sum4(x, m + 2) == x % 4 + (x / 4) % 4 + Sum4(x / 16, m)
    ensures Small4(x, m + 2) <==> x % 4 <= 2 && (x / 4) % 4 <= 2 && Small4(x / 16, m)
  {
    assert x / 4 / 4 == x / 16;
    assert Sum4(x, m + 2) == x % 4 + Sum4(x / 4, m + 1) && Sum4(x / 4, m + 1) == (x / 4) % 4 + Sum4(x / 4 / 4, m);
    assert Small4(x / 4, m + 1) <==> (x / 4) % 4 <= 2 && Small4(x / 4 / 4, m);
  }

  lemma Digit16(h: nat, d: nat)
    requires d < 16
    ensures (16 * h + d) % 16 == d && (16 * h + d) / 16 == h
  {
  }

  // ---------- third step: of each 8 bits ----------

  function Octets(x: nat, n: nat): nat {
    if n == 0 then 0 else 256 * Octets(x / 256, n - 1) + (x % 16 + (x / 16) % 16)
  }

  lemma {:induction false} ThirdStep(x: nat, n: nat)
    requires x < Pow2(8 * n) && Small16(x, 2 * n)
    ensures BitAnd(x + x / 16, Mask4(n)) == Octets(x, n)
  {
    if n > 0 {
      Pow2Plus8(8 * (n - 1));
      TwoDigits16(x, 2 * n - 2);
      ThirdStep(x / 256, n - 1);
      assert n == 1 ==> x / 256 == 0;
      ThirdDigit(x, x / 256, Mask4(n - 1));
    }
  }

  lemma ThirdDigit(x: nat, h: nat, mask: nat)
    requires h == x / 256 && x % 16 <= 4 && (x / 16) % 16 <= 4 && (h == 0 || h % 16 <= 4)
    ensures BitAnd(x + x / 16, 256 * mask + 15) == 256 * BitAnd(h + h / 16, mask) + (x % 16 + (x / 16) % 16)
  {
    var u, v := (x / 16) % 16, x % 16;
    Carry(x, h, u, v);
    ThirdAnd(h + h / 16, 16 * (u + h % 16) + (u + v), mask);
  }

  lemma ThirdAnd(k: nat, b: nat, mask: nat)
    requires b < 256
    ensures BitAnd(256 * k + b, 256 * mask + 15) == 256 * BitAnd(k, mask) + b % 16
  {
    AndIn256(k, b, mask, 15);
    AndFifteen(b);
  }

  /** Small digits leave no carry to the next eight bits. */
  lemma Carry(x: nat, h: nat, u: nat, v: nat)
    requires h == x / 256 && v == x % 16 && u == (x / 16) % 16 && u <= 4 && v <= 4 && (h == 0 || h % 16 <= 4)
    ensures var b := 16 * (u + h % 16) + (u + v); x + x / 16 == 256 * (h + h / 16) + b && b < 256 && b % 16 == u + v
  {
    var w := h % 16;
    assert x / 16 == 16 * h + u && h == 16 * (h / 16) + w;
    LowDigit(u + w, u + v);
  }

  lemma LowDigit(a: nat, b: nat)
    requires b < 16
    ensures (16 * a + b) % 16 == b
  {
  }

  lemma {:induction false} OctetsCount(x: nat, n: nat)
    requires Small16(x, 2 * n)
    ensures Sum256(Octets(x, n), n) == Sum16(x, 2 * n) && Small256(Octets(x, n), n)
  {
    if n > 0 {
      TwoDigits16(x, 2 * n - 2);
      OctetsCount(x / 256, n - 1);
      Digit256(Octets(x / 256, n - 1), x % 16 + (x / 16) % 16);
    }
  }

  lemma TwoDigits16(x: nat, m: nat)
    ensures Sum16(x, m + 2) == x % 16 + (x / 16) % 16 + Sum16(x / 256, m)
    ensures Small16(x, m + 2) <==> x % 16 <= 4 && (x / 16) % 16 <= 4 && Small16(x / 256, m)
  {
    assert x / 16 / 16 == x / 256;
    assert Sum16(x, m + 2) == x % 16 + Sum16(x / 16, m + 1);
    assert Sum16(x / 16, m + 1) == (x / 16) % 16 + Sum16(x / 16 / 16, m);
    assert Small16(x / 16, m + 1) <==> (x / 16) % 16 <= 4 && Small16(x / 16 / 16, m);
  }

  lemma Digit256(h: nat, d: nat)
    requires d < 256
    ensures (256 * h + d) % 256 == d && (256 * h + d) / 256 == h
  {
  }

  // ---------- the multiplication ----------

  /** The word with these eight bits each, from the lowest on */
  function Join(c0: nat, c1: nat, c2: nat, c3: nat, c4: nat, c5: nat, c6: nat, c7: nat): nat {
    c0 + 0x100 * c1 + 0x1_0000 * c2 + 0x100_0000 * c3 + 0x1_0000_0000 * c4 + 0x100_0000_0000 * c5 +
    0x1_0000_0000_0000 * c6 + 0x100_0000_0000_0000 * c7
  }

  /** The highest eight bits of the product are the sum of all. */
  lemma TopOfProduct(c0: nat, c1: nat, c2: nat, c3: nat, c4: nat, c5: nat, c6: nat, c7: nat)
    requires c0 <= 8 && c1 <= 8 && c2 <= 8 && c3 <= 8 && c4 <= 8 && c5 <= 8 && c6 <= 8 && c7 <= 8
    ensures (Join(c0, c1, c2, c3, c4, c5, c6, c7) * H01) % WORD / TOP == c0 + c1 + c2 + c3 + c4 + c5 + c6 + c7
  {
    var s1, s2, s3, s4, s5, s6 := c0 + c1, c0 + c1 + c2, c0 + c1 + c2 + c3, c0 + c1 + c2 + c3 + c4,
      c0 + c1 + c2 + c3 + c4 + c5, c0 + c1 + c2 + c3 + c4 + c5 + c6;
    var t := s6 + c7;
    var low := Join(c0, s1, s2, s3, s4, s5, s6, 0);
    var high := Join(t - c0, t - s1, t - s2, t - s3, t - s4, t - s5, t - s6, 0);
    assert Join(c0, c1, c2, c3, c4, c5, c6, c7) * H01 == WORD * high + (TOP * t + low);
    HighestDigit(high, t, low);
  }

  lemma HighestDigit(high: nat, t: nat, low: nat)
    requires t < 256 && low < TOP
    ensures (WORD * high + (TOP * t + low)) % WORD / TOP == t
  {
    assert TOP * t + low < WORD;
    assert (WORD * high + (TOP * t + low)) % WORD == TOP * t + low;
  }

  lemma Product(x: nat)
    requires x < WORD && Small256(x, 8)
    ensures (x * H01) % WORD / TOP == Sum256(x, 8)
  {
    var x1, x2, x3 := x / 256, x / 256 / 256, x / 256 / 256 / 256;
    var x4, x5, x6, x7 := x3 / 256, x3 / 256 / 256, x3 / 256 / 256 / 256, x3 / 256 / 256 / 256 / 256;
    SmallDigits(x, x1, x2, x3, x4);
    SmallDigits(x4, x5, x6, x7, x7 / 256);
    SmallFour(x, x1, x2, x3, x4);
    SmallFour(x4, x5, x6, x7, x7 / 256);
    assert x7 / 256 == 0;
    assert x == Join(x % 256, x1 % 256, x2 % 256, x3 % 256, x4 % 256, x5 % 256, x6 % 256, x7 % 256);
    TopOfProduct(x % 256, x1 % 256, x2 % 256, x3 % 256, x4 % 256, x5 % 256, x6 % 256, x7 % 256);
  }

  lemma SmallDigits(x: nat, x1: nat, x2: nat, x3: nat, x4: nat)
    requires x1 == x / 256 && x2 == x1 / 256 && x3 == x2 / 256 && x4 == x3 / 256
    ensures Sum256(x, 4) == x % 256 + x1 % 256 + x2 % 256 + x3 % 256
    ensures Sum256(x, 8) == Sum256(x, 4) + Sum256(x4, 4)
    ensures x == x % 256 + 0x100 * (x1 % 256) + 0x1_0000 * (x2 % 256) + 0x100_0000 * (x3 % 256) + 0x1_0000_0000 * x4
  {
    assert Sum256(x, 4) == x % 256 + Sum256(x1, 3) && Sum256(x1, 3) == x1 % 256 + Sum256(x2, 2);
    assert Sum256(x2, 2) == x2 % 256 + Sum256(x3, 1) && Sum256(x3, 1) == x3 % 256 + Sum256(x4, 0);
    assert Sum256(x, 8) == x % 256 + Sum256(x1, 7) && Sum256(x1, 7) == x1 % 256 + Sum256(x2, 6);
    assert Sum256(x2, 6) == x2 % 256 + Sum256(x3, 5) && Sum256(x3, 5) == x3 % 256 + Sum256(x4, 4);
  }

  lemma SmallFour(x: nat, x1: nat, x2: nat, x3: nat, x4: nat)
    requires x1 == x / 256 && x2 == x1 / 256 && x3 == x2 / 256 && x4 == x3 / 256
    ensures Small256(x, 4) ==> x % 256 <= 8 && x1 % 256 <= 8 && x2 % 256 <= 8 && x3 % 256 <= 8
    ensures Small256(x, 8) ==> Small256(x, 4) && Small256(x4, 4)
  {
    assert Small256(x, 4) <==> x % 256 <= 8 && Small256(x1, 3);
    assert Small256(x1, 3) <==> x1 % 256 <= 8 && Small256(x2, 2);
    assert Small256(x2, 2) <==> x2 % 256 <= 8 && Small256(x3, 1);
    assert Small256(x3, 1) <==> x3 % 256 <= 8 && Small256(x4, 0);
    assert Small256(x, 8) <==> x % 256 <= 8 && Small256(x1, 7);
    assert Small256(x1, 7) <==> x1 % 256 <= 8 && Small256(x2, 6);
    assert Small256(x2, 6) <==> x2 % 256 <= 8 && Small256(x3, 5);
    assert Small256(x3, 5) <==> x3 % 256 <= 8 && Small256(x4, 4);
  }

  // ---------- the count ----------

  /** Unsigned subtraction and addition of 64 bits */
  function Minus(x: nat, y: nat): nat
    requires y <= WORD
  {
    (x + WORD - y) % WORD
  }

  function Plus(x: nat, y: nat): nat {
    (x + y) % WORD
  }

  lemma NoWrap(x: nat, y: nat)
    ensures y <= x < WORD ==> Minus(x, y) == x - y
    ensures x + y < WORD ==> Plus(x, y) == x + y
  {
  }

  lemma {:induction false} AndIsSmaller(x: nat, y: nat)
    ensures BitAnd(x, y) <= x && BitAnd(x, y) <= y
  {
    if x > 0 && y > 0 {
      AndIsSmaller(x / 2, y / 2);
    }
  }

  function First(x: nat): nat
  {
    AndIsSmaller(x / 2, M1);
    Minus(x, BitAnd(x / 2, M1))
  }

  function Second(x: nat): nat {
    Plus(BitAnd(x, M2), BitAnd(x / 4, M2))
  }

  function Third(x: nat): nat {
    BitAnd(Plus(x, x / 16), M4)
  }

  /** popcount_3 (src/bitops.c:150-155), with the wrap-around of 64 bits */
  function PopCount3(x: nat): nat {
    (Third(Second(First(x))) * H01) % WORD / TOP
  }

  lemma {:induction false} QuadsFit(x: nat, n: nat)
    ensures Quads(x, n) < Pow2(4 * n)
  {
    if n > 0 {
      QuadsFit(x / 16, n - 1);
      Pow2Plus4(4 * (n - 1));
    }
  }

  lemma {:induction false} OctetsFit(x: nat, n: nat)
    ensures Octets(x, n) < Pow2(8 * n)
  {
    if n > 0 {
      OctetsFit(x / 256, n - 1);
      Pow2Plus8(8 * (n - 1));
    }
  }

  lemma {:induction false} SmallFits(x: nat, n: nat)
    requires x < Pow2(4 * n) && Small16(x, n)
    ensures 15 * x <= 4 * (Pow2(4 * n) - 1)
  {
    if n > 0 {
      Pow2Plus4(4 * (n - 1));
      SmallFits(x / 16, n - 1);
    }
  }

  lemma WordIs()
    ensures Pow2(64) == WORD
  {
    assert Pow2(8) == 256;
    Pow2Plus8(8);
    Pow2Plus8(16);
    Pow2Plus8(24);
    Pow2Plus8(32);
    Pow2Plus8(40);
    Pow2Plus8(48);
    Pow2Plus8(56);
  }

  lemma FirstIs(x: nat)
    requires x < WORD
    ensures First(x) == Pairs(x, 32) && First(x) <= x
  {
    MasksAre();
    WordIs();
    FirstStep(x, 32);
    NoWrap(x, BitAnd(x / 2, Mask1(32)));
  }

  lemma SecondIs(x: nat)
    requires x < WORD
    ensures Second(x) == Quads(x, 16) < WORD
  {
    MasksAre();
    WordIs();
    SecondStep(x, 16);
    QuadsFit(x, 16);
    NoWrap(BitAnd(x, Mask2(16)), BitAnd(x / 4, Mask2(16)));
  }

  lemma ThirdIs(x: nat)
    requires x < WORD && Small16(x, 16)
    ensures Third(x) == Octets(x, 8) < WORD
  {
    MasksAre();
    WordIs();
    SmallFits(x, 16);
    ThirdStep(x, 8);
    OctetsFit(x, 8);
    NoWrap(x, x / 16);
  }

  /** The count is the number of ones, for every word. */
  lemma CountsOnes(x: nat)
    requires x < WORD
    ensures PopCount3(x) == OnesOf(x, 64)
  {
    FirstIs(x);
    PairsCount(x, 32);
    var a := Pairs(x, 32);
    SecondIs(a);
    QuadsCount(a, 16);
    var b := Quads(a, 16);
    ThirdIs(b);
    OctetsCount(b, 8);
    Product(Octets(b, 8));
  }
}
