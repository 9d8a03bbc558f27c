/**
  hamming_distance_64 (src/bitops.c:157-170): the distance of two bit strings, 64 bits at a time.
 */
module HammingDistance {
  import opened Bytes
  import opened Bitops
  import opened Hamming
  import opened PopCount

  type Bits = seq<bool>

  const WORD_BITS := 64

  function Xor(a: Bits, b: Bits): (r: Bits)
    requires |a| == |b|
    ensures |r| == |a| && forall i | 0 <= i < |a| :: r[i] == (a[i] != b[i])
  {
    seq(|a|, i requires 0 <= i < |a| => a[i] != b[i])
  }

  /** The bytes in the other order */
  function Swapped(w: Bits): (r: Bits)
    requires |w| % 8 == 0
    ensures |r| == |w|
  {
    if w == [] then [] else Swapped(w[8..]) + w[..8]
  }

  lemma {:induction false} SwappedInParts(a: Bits, b: Bits)
    requires |a| % 8 == 0 && |b| % 8 == 0
    ensures Swapped(a + b) == Swapped(b) + Swapped(a)
    decreases |a|
  {
    if a == [] {
      assert a + b == b && Swapped(a) == [];
    } else {
      assert (a + b)[8..] == a[8..] + b && (a + b)[..8] == a[..8];
      SwappedInParts(a[8..], b);
    }
  }

  lemma {:induction false} SwappedTwice(w: Bits)
    requires |w| % 8 == 0
    ensures Swapped(Swapped(w)) == w
  {
    if w != [] {
      SwappedTwice(w[8..]);
      SwappedInParts(Swapped(w[8..]), w[..8]);
      SwappedByte(w[..8]);
      assert w == w[..8] + w[8..];
    }
  }

  lemma SwappedByte(b: Bits)
    requires |b| == 8
    ensures Swapped(b) == b
  {
    assert b[8..] == [] && b[..8] == b;
  }

  /** What the host makes of eight bytes of memory, read as one word */
  function Load(w: Bits, little: bool): (r: Bits)
    requires |w| == WORD_BITS
    ensures |r| == WORD_BITS
  {
    if little then Swapped(w) else w
  }

  /** be64_to_cpu gives the bits in the order of the memory. */
  lemma BackInOrder(w: Bits, little: bool)
    requires |w| == WORD_BITS
    ensures Load(Load(w, little), little) == w
  {
    SwappedTwice(w);
  }

  // ---------- ones ----------

  lemma {:induction false} OnesInParts(a: Bits, b: Bits)
    ensures Ones(a + b) == Ones(a) + Ones(b)
    decreases |b|
  {
    if b == [] {
      assert a + b == a;
    } else {
      var c := b[..|b| - 1];
      OnesInParts(a, c);
      assert (a + b)[..|a + b| - 1] == a + c;
    }
  }

  lemma {:induction false} OnesSwapped(w: Bits)
    requires |w| % 8 == 0
    ensures Ones(Swapped(w)) == Ones(w)
  {
    if w != [] {
      OnesSwapped(w[8..]);
      OnesInParts(Swapped(w[8..]), w[..8]);
      OnesInParts(w[..8], w[8..]);
      assert w == w[..8] + w[8..];
    }
  }

  lemma {:induction false} OnesOfValue(b: Bits)
    ensures Value(b) < Pow2(|b|) && OnesOf(Value(b), |b|) == Ones(b)
  {
    if b != [] {
      OnesOfValue(b[..|b| - 1]);
      LastBit(Value(b[..|b| - 1]), if b[|b| - 1] then 1 else 0, |b|);
    }
  }

  lemma LastBit(v: nat, bit: nat, m: nat)
    requires bit < 2 && m > 0
    ensures OnesOf(2 * v + bit, m) == bit + OnesOf(v, m - 1)
  {
    assert (2 * v + bit) / 2 == v && (2 * v + bit) % 2 == bit;
  }

  /** The population count of a word is the number of its ones. */
  lemma CountIsOnes(w: Bits)
    requires |w| == WORD_BITS
    ensures Value(w) < WORD && PopCount3(Value(w)) == Ones(w)
  {
    WordIs();
    OnesOfValue(w);
    CountsOnes(Value(w));
  }

  lemma {:induction false} OnesOfXor(a: Bits, b: Bits)
    requires |a| == |b|
    ensures Ones(Xor(a, b)) == Distance(a, b)
    decreases |a|
  {
    if a != [] {
      var n := |a| - 1;
      OnesOfXor(a[..n], b[..n]);
      assert Xor(a, b)[..n] == Xor(a[..n], b[..n]);
      assert a == a[..n] + [a[n]] && b == b[..n] + [b[n]];
      DistanceInParts(a[..n], b[..n], [a[n]], [b[n]]);
    }
  }

  // ---------- the loop ----------

  /** & with hff << (64 - rem): the first rem bits */
  function Masked(w: Bits, rem: nat): (r: Bits)
    requires |w| == WORD_BITS && rem <= WORD_BITS
    ensures |r| == WORD_BITS
  {
    w[..rem] + Zeros(WORD_BITS - rem)
  }

  lemma {:induction false} OnesOfZeros(n: nat)
    ensures Ones(Zeros(n)) == 0
  {
    if n > 0 {
      OnesOfZeros(n - 1);
      assert Zeros(n)[..n - 1] == Zeros(n - 1);
    }
  }

  /** One whole word */
  lemma WordDistance(a: Bits, b: Bits, little: bool)
    requires |a| == |b| == WORD_BITS
    ensures Value(Load(Xor(a, b), little)) < WORD && PopCount3(Value(Load(Xor(a, b), little))) == Distance(a, b)
  {
    CountIsOnes(Load(Xor(a, b), little));
    OnesSwapped(Xor(a, b));
    OnesOfXor(a, b);
  }

  /** The rest */
  lemma RestDistance(a: Bits, b: Bits, rem: nat, little: bool)
    requires |a| == |b| == WORD_BITS && rem <= WORD_BITS
    ensures var w := Masked(Load(Load(Xor(a, b), little), little), rem);
            Value(w) < WORD && PopCount3(Value(w)) == Distance(a[..rem], b[..rem])
  {
    BackInOrder(Xor(a, b), little);
    CountIsOnes(Masked(Xor(a, b), rem));
    OnesInParts(Xor(a, b)[..rem], Zeros(WORD_BITS - rem));
    OnesOfZeros(WORD_BITS - rem);
    OnesOfXor(a[..rem], b[..rem]);
    assert Xor(a, b)[..rem] == Xor(a[..rem], b[..rem]);
  }

  lemma OneMoreWord(m1: Bits, m2: Bits, i: nat, k: nat)
    requires |m1| == |m2| && 64 * i + k <= |m1|
    ensures var j := 64 * i;
            Distance(m1[..j + k], m2[..j + k]) == Distance(m1[..j], m2[..j]) + Distance(m1[j..j + k], m2[j..j + k])
  {
    var j := 64 * i;
    DistanceInParts(m1[..j], m2[..j], m1[j..j + k], m2[j..j + k]);
    assert m1[..j + k] == m1[..j] + m1[j..j + k] && m2[..j + k] == m2[..j] + m2[j..j + k];
  }

  /** hamming_distance_64 over memory of whole words, on a host of either byte order */
  method HammingDistance64(m1: Bits, m2: Bits, nbits: nat, little: bool) returns (dst: nat)
    requires |m1| == |m2| && |m1| % 64 == 0 && nbits <= |m1|
    ensures dst == Distance(m1[..nbits], m2[..nbits])
  {
    dst := 0;
    var n, rem := nbits / 64, nbits % 64;
    for i := 0 to n
      invariant dst == Distance(m1[..64 * i], m2[..64 * i])
    {
      var more := WholeWord(m1[64 * i..64 * i + 64], m2[64 * i..64 * i + 64], little);
      OneMoreWord(m1, m2, i, 64);
      dst := dst + more;
    }
    if rem > 0 {
      var more := PartOfWord(m1[64 * n..64 * n + 64], m2[64 * n..64 * n + 64], rem, little);
      OneMoreWord(m1, m2, n, rem);
      assert m1[64 * n..64 * n + 64][..rem] == m1[64 * n..64 * n + rem];
      assert m2[64 * n..64 * n + 64][..rem] == m2[64 * n..64 * n + rem];
      dst := dst + more;
    }
  }

  method WholeWord(a: Bits, b: Bits, little: bool) returns (r: nat)
    requires |a| == |b| == WORD_BITS
    ensures r == Distance(a, b)
  {
    WordDistance(a, b, little);
    r := PopCount3(Value(Load(Xor(a, b), little)));
  }

  method PartOfWord(a: Bits, b: Bits, rem: nat, little: bool) returns (r: nat)
    requires |a| == |b| == WORD_BITS && rem <= WORD_BITS
    ensures r == Distance(a[..rem], b[..rem])
  {
    RestDistance(a, b, rem, little);
    r := PopCount3(Value(Masked(Load(Load(Xor(a, b), little), little), rem)));
  }
}
