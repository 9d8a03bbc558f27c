/**
  TLVs and the order they are compared in (src/tlv.h, src/tlv.c:183-218).
 */
module Tlvs {
  import opened Wrappers

  /** One attribute: 16-bit id and payload (its padding is not part of it). */
  datatype Tlv = Tlv(id: nat, data: seq<byte>)

  predicate WireSized(t: Tlv) {
    t.id < 0x10000 && |t.data| < 0x10000
  }

  /** A big-endian 16-bit field. */
  function Field(n: nat): seq<byte>
    requires n < 0x10000
  {
    [n / 256, n % 256]
  }

  /** struct tlv_attr: id_len in network byte order, then the payload. */
  function Wire(t: Tlv): seq<byte>
    requires WireSized(t)
  {
    Field(t.id) + Field(|t.data|) + t.data
  }

  /** memcmp over the first len bytes: the difference of the first differing bytes. */
  function Memcmp(a: seq<byte>, b: seq<byte>, len: nat): int
    requires len <= |a| && len <= |b|
  {
    if len == 0 then 0
    else if a[0] != b[0] then a[0] - b[0]
    else Memcmp(a[1..], b[1..], len - 1)
  }

  /** tlv_attr_cmp (src/tlv.c:201-218) on two attributes. */
  function TlvCmp(a: Tlv, b: Tlv): int
    requires WireSized(a) && WireSized(b)
  {
    var header := Memcmp(Wire(a), Wire(b), 4);
    if header != 0 then header
    else
      HeadersDecideLength(a, b);
      Memcmp(Wire(a), Wire(b), |Wire(a)|)
  }

  // ---------- memcmp is lexicographic order ----------

  lemma {:induction false} MemcmpZero(a: seq<byte>, b: seq<byte>, len: nat)
    requires len <= |a| && len <= |b|
    ensures Memcmp(a, b, len) == 0 <==> a[..len] == b[..len]
  {
    if len > 0 {
      MemcmpZero(a[1..], b[1..], len - 1);
      assert a[..len] == [a[0]] + a[1..][..len - 1];
      assert b[..len] == [b[0]] + b[1..][..len - 1];
      if a[..len] == b[..len] {
        assert a[0] == a[..len][0] == b[..len][0] == b[0];
        assert a[1..][..len - 1] == a[..len][1..] == b[..len][1..] == b[1..][..len - 1];
      }
    }
  }

  lemma {:induction false} MemcmpAntisymmetric(a: seq<byte>, b: seq<byte>, len: nat)
    requires len <= |a| && len <= |b|
    ensures Memcmp(b, a, len) == -Memcmp(a, b, len)
  {
    if len > 0 {
      MemcmpAntisymmetric(a[1..], b[1..], len - 1);
    }
  }

  lemma {:induction false} MemcmpTransitive(a: seq<byte>, b: seq<byte>, c: seq<byte>, len: nat)
    requires len <= |a| && len <= |b| && len <= |c|
    requires Memcmp(a, b, len) <= 0 && Memcmp(b, c, len) <= 0
    ensures Memcmp(a, c, len) <= 0
    ensures Memcmp(a, b, len) < 0 || Memcmp(b, c, len) < 0 ==> Memcmp(a, c, len) < 0
  {
    if len > 0 && a[0] == b[0] == c[0] {
      MemcmpTransitive(a[1..], b[1..], c[1..], len - 1);
    }
  }

  // ---------- TlvCmp is a total order on attributes ----------

  lemma HeadersDecideLength(a: Tlv, b: Tlv)
    requires WireSized(a) && WireSized(b)
    ensures Memcmp(Wire(a), Wire(b), 4) == 0 <==> a.id == b.id && |a.data| == |b.data|
  {
    MemcmpZero(Wire(a), Wire(b), 4);
    assert Wire(a)[..4] == Field(a.id) + Field(|a.data|);
    assert Wire(b)[..4] == Field(b.id) + Field(|b.data|);
    if Wire(a)[..4] == Wire(b)[..4] {
      assert Wire(a)[0] == Wire(b)[0] && Wire(a)[1] == Wire(b)[1];
      assert Wire(a)[2] == Wire(b)[2] && Wire(a)[3] == Wire(b)[3];
    }
  }

  lemma TlvCmpZero(a: Tlv, b: Tlv)
    requires WireSized(a) && WireSized(b)
    ensures TlvCmp(a, b) == 0 <==> a == b
  {
    HeadersDecideLength(a, b);
    if a.id == b.id && |a.data| == |b.data| {
      MemcmpZero(Wire(a), Wire(b), |Wire(a)|);
      assert Wire(a)[..|Wire(a)|] == Wire(a) && Wire(b)[..|Wire(a)|] == Wire(b);
      assert a.data == Wire(a)[4..] && b.data == Wire(b)[4..];
    }
  }

  lemma TlvCmpAntisymmetric(a: Tlv, b: Tlv)
    requires WireSized(a) && WireSized(b)
    ensures TlvCmp(b, a) == -TlvCmp(a, b)
  {
    MemcmpAntisymmetric(Wire(a), Wire(b), 4);
    if Memcmp(Wire(a), Wire(b), 4) == 0 {
      HeadersDecideLength(a, b);
      MemcmpAntisymmetric(Wire(a), Wire(b), |Wire(a)|);
    }
  }

  lemma TlvCmpTransitive(a: Tlv, b: Tlv, c: Tlv)
    requires WireSized(a) && WireSized(b) && WireSized(c)
    requires TlvCmp(a, b) <= 0 && TlvCmp(b, c) <= 0
    ensures TlvCmp(a, c) <= 0
    ensures TlvCmp(a, b) < 0 || TlvCmp(b, c) < 0 ==> TlvCmp(a, c) < 0
  {
    HeadersDecideLength(a, b);
    HeadersDecideLength(b, c);
    HeadersDecideLength(a, c);
    MemcmpTransitive(Wire(a), Wire(b), Wire(c), 4);
    if Memcmp(Wire(a), Wire(b), 4) == 0 && Memcmp(Wire(b), Wire(c), 4) == 0 {
      MemcmpTransitive(Wire(a), Wire(b), Wire(c), |Wire(a)|);
    }
  }

  lemma {:induction false} MemcmpParts(a: seq<byte>, b: seq<byte>, x: seq<byte>, y: seq<byte>, n: nat)
    requires |a| == |b| && n <= |x| && n <= |y|
    ensures Memcmp(a + x, b + y, |a| + n) == var r := Memcmp(a, b, |a|); if r != 0 then r else Memcmp(x, y, n)
  {
    if a == [] {
      assert a + x == x && b + y == y;
    } else {
      MemcmpParts(a[1..], b[1..], x, y, n);
      assert (a + x)[1..] == a[1..] + x && (b + y)[1..] == b[1..] + y;
    }
  }

  /** The first byte that differs is smaller. */
  ghost predicate Smaller(a: seq<byte>, b: seq<byte>) {
    exists i | 0 <= i < |a| && i < |b| :: a[..i] == b[..i] && a[i] < b[i]
  }

  lemma {:induction false} MemcmpIsOrder(a: seq<byte>, b: seq<byte>)
    requires |a| == |b|
    ensures Memcmp(a, b, |a|) < 0 <==> Smaller(a, b)
  {
    if a != [] {
      MemcmpIsOrder(a[1..], b[1..]);
      if a[0] < b[0] {
        assert a[..0] == b[..0];
      } else if a[0] == b[0] {
        SmallerRest(a, b);
      } else if Smaller(a, b) {
        var i :| 0 <= i < |a| && a[..i] == b[..i] && a[i] < b[i];
        assert i > 0 && a[..i][0] == b[..i][0];
      }
    }
  }

  lemma SmallerRest(a: seq<byte>, b: seq<byte>)
    requires |a| == |b| > 0 && a[0] == b[0]
    ensures Smaller(a, b) <==> Smaller(a[1..], b[1..])
  {
    if i :| 0 <= i < |a| && a[..i] == b[..i] && a[i] < b[i] {
      assert a[1..][..i - 1] == a[..i][1..] && b[1..][..i - 1] == b[..i][1..];
      assert a[1..][i - 1] < b[1..][i - 1];
    }
    if j :| 0 <= j < |a[1..]| && a[1..][..j] == b[1..][..j] && a[1..][j] < b[1..][j] {
      assert a[..j + 1] == [a[0]] + a[1..][..j] && b[..j + 1] == [b[0]] + b[1..][..j];
      assert a[j + 1] < b[j + 1];
    }
  }

  lemma FieldOrder(n: nat, m: nat)
    requires n < 0x10000 && m < 0x10000
    ensures (Memcmp(Field(n), Field(m), 2) < 0 <==> n < m) && (Memcmp(Field(n), Field(m), 2) == 0 <==> n == m)
  {
    var a, b := Field(n), Field(m);
    assert a[1..][1..] == [] && b[1..][1..] == [];
    var x: int, y: int := a[1], b[1];
    assert Memcmp(a[1..], b[1..], 1) == x - y;
  }

  /** In the fields: by type, then by length, then by payload. */
  lemma TlvCmpOrder(a: Tlv, b: Tlv)
    requires WireSized(a) && WireSized(b)
    ensures TlvCmp(a, b) < 0 <==>
      || a.id < b.id
      || (a.id == b.id && |a.data| < |b.data|)
      || (a.id == b.id && |a.data| == |b.data| && Smaller(a.data, b.data))
  {
    HeaderOrder(a, b);
    HeadersDecideLength(a, b);
    if a.id == b.id && |a.data| == |b.data| {
      var ha, hb := Field(a.id) + Field(|a.data|), Field(b.id) + Field(|b.data|);
      MemcmpParts(ha, hb, a.data, b.data, |a.data|);
      MemcmpZero(ha, hb, 4);
      MemcmpIsOrder(a.data, b.data);
    }
  }

  lemma HeaderOrder(a: Tlv, b: Tlv)
    requires WireSized(a) && WireSized(b)
    ensures Memcmp(Wire(a), Wire(b), 4) < 0 <==> a.id < b.id || (a.id == b.id && |a.data| < |b.data|)
  {
    var la, lb := Field(|a.data|), Field(|b.data|);
    assert Wire(a) == Field(a.id) + (la + a.data) && Wire(b) == Field(b.id) + (lb + b.data);
    MemcmpParts(Field(a.id), Field(b.id), la + a.data, lb + b.data, 2);
    MemcmpParts(la, lb, a.data, b.data, 0);
    FieldOrder(a.id, b.id);
    FieldOrder(|a.data|, |b.data|);
  }

  // ---------- containers ----------

  ghost predicate Sorted(s: seq<Tlv>) {
    && (forall i | 0 <= i < |s| :: WireSized(s[i]))
    && (forall i, j | 0 <= i < j < |s| :: TlvCmp(s[i], s[j]) <= 0)
  }

  /** A TLV container: attributes in the order of TlvCmp. */
  type Container = s: seq<Tlv> | Sorted(s) witness []
}
