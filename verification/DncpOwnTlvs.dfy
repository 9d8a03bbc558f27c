/**
  The TLVs a node publishes itself (src/dncp.c:140-166, src/dncp.c:354-391, src/dncp.c:472-507): a
  vlist ordered by tlv_attr_cmp, whose contents in order are the published container.
 */
module DncpOwnTlvs {
  import opened Tlvs

  /** In order, and nothing twice */
  ghost predicate Rising(s: seq<Tlv>) {
    && (forall i | 0 <= i < |s| :: WireSized(s[i]))
    && (forall i, j | 0 <= i < j < |s| :: TlvCmp(s[i], s[j]) < 0)
  }

  ghost function Contents(s: seq<Tlv>): set<Tlv> {
    set t | t in s
  }

  /** The order of the list, with t put between what is smaller and what is larger */
  lemma InsertedRises(s: seq<Tlv>, t: Tlv, i: nat)
    requires Rising(s) && WireSized(t) && i <= |s|
    requires i > 0 ==> TlvCmp(s[i - 1], t) < 0
    requires i < |s| ==> TlvCmp(t, s[i]) < 0
    ensures Rising(s[..i] + [t] + s[i..]) && Contents(s[..i] + [t] + s[i..]) == Contents(s) + {t}
  {
    SmallerBefore(s, t, i);
    LargerAfter(s, t, i);
    InsertedInOrder(s, t, i, s[..i] + [t] + s[i..]);
    SameContents(s, t, i, s[..i] + [t] + s[i..]);
  }

  lemma SmallerBefore(s: seq<Tlv>, t: Tlv, i: nat)
    requires Rising(s) && WireSized(t) && i <= |s| && (i > 0 ==> TlvCmp(s[i - 1], t) < 0)
    ensures forall j | 0 <= j < i :: TlvCmp(s[j], t) < 0
  {
    forall j | 0 <= j < i ensures TlvCmp(s[j], t) < 0 {
      if j < i - 1 {
        TlvCmpTransitive(s[j], s[i - 1], t);
      }
    }
  }

  lemma LargerAfter(s: seq<Tlv>, t: Tlv, i: nat)
    requires Rising(s) && WireSized(t) && i <= |s| && (i < |s| ==> TlvCmp(t, s[i]) < 0)
    ensures forall j | i <= j < |s| :: TlvCmp(t, s[j]) < 0
  {
    forall j | i <= j < |s| ensures TlvCmp(t, s[j]) < 0 {
      if i < j {
        TlvCmpTransitive(t, s[i], s[j]);
      }
    }
  }

  lemma InsertedInOrder(s: seq<Tlv>, t: Tlv, i: nat, r: seq<Tlv>)
    requires Rising(s) && WireSized(t) && i <= |s| && r == s[..i] + [t] + s[i..]
    requires (forall j | 0 <= j < i :: TlvCmp(s[j], t) < 0) && forall j | i <= j < |s| :: TlvCmp(t, s[j]) < 0
    ensures Rising(r)
  {
    assert forall j | 0 <= j < |r| :: r[j] == if j < i then s[j] else if j == i then t else s[j - 1];
  }

  lemma SameContents(s: seq<Tlv>, t: Tlv, i: nat, r: seq<Tlv>)
    requires i <= |s| && r == s[..i] + [t] + s[i..]
    ensures Contents(r) == Contents(s) + {t}
  {
    assert s == s[..i] + s[i..];
  }

  lemma RemovedRises(s: seq<Tlv>, i: nat)
    requires Rising(s) && i < |s|
    ensures Rising(s[..i] + s[i + 1..]) && Contents(s[..i] + s[i + 1..]) == Contents(s) - {s[i]}
  {
    var r := s[..i] + s[i + 1..];
    assert s == s[..i] + [s[i]] + s[i + 1..];
    forall j | 0 <= j < |s| && j != i ensures s[j] != s[i] {
      TlvCmpZero(s[j], s[i]);
    }
    forall t ensures t in r <==> t in s && t != s[i] {
      assert t in r ==> exists j | 0 <= j < |s| && j != i :: s[j] == t;
    }
  }

  /** What is published is in order, as the merge that tells subscribers needs it (src/dncp_notify.c:95-194). */
  lemma PublishedIsContainer(s: seq<Tlv>)
    requires Rising(s)
    ensures Sorted(s)
  {
  }

  class OwnTlvs {
    var tlvs: seq<Tlv>
    var dirty: bool

    ghost predicate Valid()
      reads this
    {
      Rising(tlvs)
    }

    constructor ()
      ensures Valid() && tlvs == [] && !dirty
    {
      tlvs, dirty := [], false;
    }

    /** The first TLV that is not smaller than t */
    method Find(t: Tlv) returns (i: nat)
      requires Valid() && WireSized(t)
      ensures i <= |tlvs| && (i > 0 ==> TlvCmp(tlvs[i - 1], t) < 0) && (i < |tlvs| ==> TlvCmp(t, tlvs[i]) <= 0)
      ensures t in tlvs <==> i < |tlvs| && tlvs[i] == t
    {
      i := 0;
      while i < |tlvs| && TlvCmp(tlvs[i], t) < 0
        invariant i <= |tlvs| && forall j | 0 <= j < i :: TlvCmp(tlvs[j], t) < 0
      {
        i := i + 1;
      }
      if i < |tlvs| {
        TlvCmpAntisymmetric(tlvs[i], t);
      }
      FoundOrAbsent(tlvs, t, i);
    }

    /** dncp_add_tlv (src/dncp.c:354-368): a TLV equal to one in the list takes its place. */
    method Add(t: Tlv)
      requires Valid() && WireSized(t)
      modifies this
      ensures Valid() && Contents(tlvs) == old(Contents(tlvs)) + {t} && dirty
    {
      var i := Find(t);
      if i == |tlvs| || TlvCmp(t, tlvs[i]) != 0 {
        InsertedRises(tlvs, t, i);
        tlvs := tlvs[..i] + [t] + tlvs[i..];
      } else {
        TlvCmpZero(t, tlvs[i]);
      }
      dirty := true;
    }

    /** dncp_remove_tlv (src/dncp.c:370-375) for a TLV of the list */
    method Remove(t: Tlv)
      requires Valid() && WireSized(t) && t in tlvs
      modifies this
      ensures Valid() && Contents(tlvs) == old(Contents(tlvs)) - {t} && dirty
    {
      var i := Find(t);
      RemovedRises(tlvs, i);
      tlvs := tlvs[..i] + tlvs[i + 1..];
      dirty := true;
    }

    /** dncp_remove_tlvs_by_type (src/dncp.c:377-391) */
    method RemoveByType(id: nat) returns (c: nat)
      requires Valid()
      modifies this
      ensures Valid() && Contents(tlvs) == (set t | t in old(Contents(tlvs)) && t.id != id)
      ensures c == old(|tlvs|) - |tlvs| && dirty == (old(dirty) || c > 0) && (c == 0 ==> tlvs == old(tlvs))
    {
      c := 0;
      ghost var all := Contents(tlvs);
      var i := 0;
      while i < |tlvs|
        invariant i <= |tlvs| && Valid() && c == old(|tlvs|) - |tlvs| && dirty == (old(dirty) || c > 0)
        invariant c == 0 ==> tlvs == old(tlvs)
        invariant Contents(tlvs) <= all && forall t | t in all && t.id != id :: t in tlvs
        invariant forall j | 0 <= j < i :: tlvs[j].id != id
        decreases |tlvs| - i
      {
        if tlvs[i].id == id {
          RemovedRises(tlvs, i);
          tlvs := tlvs[..i] + tlvs[i + 1..];
          c, dirty := c + 1, true;
        } else {
          i := i + 1;
        }
      }
    }
  }

  lemma FoundOrAbsent(s: seq<Tlv>, t: Tlv, i: nat)
    requires Rising(s) && WireSized(t) && i <= |s| && forall j | 0 <= j < i :: TlvCmp(s[j], t) < 0
    requires i < |s| ==> TlvCmp(t, s[i]) <= 0
    ensures t in s <==> i < |s| && s[i] == t
  {
    if j :| 0 <= j < |s| && s[j] == t {
      TlvCmpZero(t, t);
      if i < j {
        TlvCmpTransitive(t, s[i], s[j]);
      }
    }
  }
}
