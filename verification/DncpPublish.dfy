/**
  The own TLVs and the own node (src/dncp.c:472-533): what the node publishes is what its TLVs say,
  unless a subscriber takes back a change just before it is published.
 */
module DncpPublish {
  import opened Wrappers
  import opened Tlvs
  import opened DncpGraph
  import opened DncpModel
  import opened DncpOwnTlvs

  /** The blobs that are built hold the TLVs they are built from. */
  ghost predicate Builds<B(!new)>(build: seq<Tlv> -> B, tlvs: Reader<B>) {
    forall s: seq<Tlv> {:trigger build(s)} :: Rising(s) ==> tlvs(build(s)) == s
  }

  class Publisher<B(==, !new)> {
    const d: Dncp<B>
    const own: OwnTlvs
    const build: seq<Tlv> -> B      // the blob that _produce_new_tlvs makes of TLVs

    ghost predicate Valid()
      reads this, d, own
    {
      d.Valid() && d.own in d.db && own.Valid() && Builds(build, d.tlvs)
    }

    /** Unless there are changes to publish, the own container is what the own TLVs say. */
    ghost predicate UpToDate()
      reads this, d, own
    {
      d.own in d.db && (!own.dirty ==> d.db[d.own].container == Some(build(own.tlvs)))
    }

    /** dncp_init sets the identifier, and that marks the TLVs as changed (src/dncp.c:244-265). */
    constructor (d: Dncp<B>, own: OwnTlvs, build: seq<Tlv> -> B)
      requires d.Valid() && d.own in d.db && own.Valid() && Builds(build, d.tlvs)
      modifies own
      ensures Valid() && UpToDate() && this.d == d && this.own == own && this.build == build
      ensures own.tlvs == old(own.tlvs)
    {
      this.d, this.own, this.build := d, own, build;
      new;
      own.dirty := true;
    }

    /** Then a reader of the own container sees the own TLVs, in order. */
    lemma ShowsOwn()
      requires Valid() && UpToDate() && !own.dirty
      ensures d.db[d.own].container.Some? && d.tlvs(d.db[d.own].container.value) == own.tlvs && Sorted(own.tlvs)
    {
      PublishedIsContainer(own.tlvs);
    }

    method AddTlv(t: Tlv)
      requires Valid() && UpToDate() && WireSized(t)
      modifies own
      ensures Valid() && UpToDate() && own.dirty && Contents(own.tlvs) == old(Contents(own.tlvs)) + {t}
    {
      own.Add(t);
    }

    method RemoveTlv(t: Tlv)
      requires Valid() && UpToDate() && WireSized(t) && t in own.tlvs
      modifies own
      ensures Valid() && UpToDate() && own.dirty && Contents(own.tlvs) == old(Contents(own.tlvs)) - {t}
    {
      own.Remove(t);
    }

    method RemoveTlvsByType(id: nat) returns (c: nat)
      requires Valid() && UpToDate()
      modifies own
      ensures Valid() && UpToDate() && Contents(own.tlvs) == (set t | t in old(Contents(own.tlvs)) && t.id != id)
    {
      c := own.RemoveByType(id);
    }

    /** _produce_new_tlvs (src/dncp.c:472-507) */
    method Produce() returns (a: Option<B>)
      requires Valid()
      modifies own`dirty
      ensures Valid() && !own.dirty && a == NewBlob(old(own.dirty), own.tlvs, d.db[d.own].container, build)
    {
      if !own.dirty {
        return None;
      }
      own.dirty := false;
      if d.db[d.own].container == Some(build(own.tlvs)) {
        return None;
      }
      return Some(build(own.tlvs));
    }

    /** dncp_self_flush (src/dncp.c:509-533).  On hearing that republishing is near, subscribers change the
        TLVs to `after` (`touched` says whether they do).  Afterwards the own container is up to date,
        unless there was a change to publish and they take it back. */
    method Flush(after: seq<Tlv>, touched: bool, now: int, accepted: bool) returns (flushed: bool)
      requires Valid() && UpToDate() && Rising(after) && (!touched ==> after == own.tlvs)
      modifies own, d
      ensures Valid() && !own.dirty && !d.republish && d.own == old(d.own)
      ensures flushed <==> old(NewBlob(own.dirty, own.tlvs, d.db[d.own].container, build)).Some? || old(d.republish)
      ensures d.db[d.own].container == if flushed
        then FlushedBlob(old(own.dirty), old(own.tlvs), touched, after, old(d.db[d.own].container), build)
        else old(d.db[d.own].container)
      ensures own.tlvs == if flushed then after else old(own.tlvs)
      ensures !flushed ==> UpToDate()
      ensures flushed ==>
        (UpToDate() <==> !(touched && Undone(old(own.dirty), old(own.tlvs), after, old(d.db[d.own].container), build)))
    {
      ghost var container, tlvs := d.db[d.own].container, own.tlvs;
      var first := Produce();
      if first.None? && !d.republish {
        flushed := d.SelfFlush(None, None, now, accepted);
        return;
      }
      own.tlvs, own.dirty := after, touched;
      var second := Produce();
      flushed := d.SelfFlush(first, second, now, accepted);
    }

    /** dncp_set_own_node_id (src/dncp.c:244-265) */
    method TakeIdentifier(id: NodeId)
      requires Valid()
      modifies own, d
      ensures Valid() && UpToDate() && d.own == id && own.tlvs == old(own.tlvs)
    {
      d.SetOwnNodeId(id);
      own.dirty := true;
    }
  }

  /** What _produce_new_tlvs gives: a blob, if the TLVs have changed and not back again */
  function NewBlob<B(==)>(dirty: bool, tlvs: seq<Tlv>, container: Option<B>, build: seq<Tlv> -> B): Option<B> {
    if dirty && container != Some(build(tlvs)) then Some(build(tlvs)) else None
  }

  /** The container after a flush: the newer blob, or the older, or what was there */
  function FlushedBlob<B(==)>(dirty: bool, tlvs: seq<Tlv>, touched: bool, after: seq<Tlv>, container: Option<B>,
                              build: seq<Tlv> -> B):
    Option<B>
  {
    var first, second := NewBlob(dirty, tlvs, container, build), NewBlob(touched, after, container, build);
    if second.Some? then second else if first.Some? then first else container
  }

  /** There was something to publish, and afterwards the TLVs are those of the old container. */
  predicate Undone<B(==)>(dirty: bool, tlvs: seq<Tlv>, after: seq<Tlv>, container: Option<B>, build: seq<Tlv> -> B) {
    NewBlob(dirty, tlvs, container, build).Some? && container == Some(build(after))
  }

  /** A TLV is added, and taken back by a subscriber when it is about to be published: it is published, and
      nothing is pending that would correct this. */
  method PublishesStale<B(!new)>(p: Publisher<B>, t: Tlv)
    requires p.Valid() && p.UpToDate() && !p.own.dirty && p.own.tlvs == [] && WireSized(t)
    modifies p.own, p.d
    ensures p.Valid() && !p.UpToDate() && !p.own.dirty && !p.d.republish
    ensures p.own.tlvs == [] && p.d.db[p.d.own].container == Some(p.build([t]))
  {
    p.AddTlv(t);
    OnlyOne(p.own.tlvs, t);
    var flushed := p.Flush([], true, 10, true);
  }

  lemma OnlyOne(s: seq<Tlv>, t: Tlv)
    requires Rising(s) && Contents(s) == {t}
    ensures s == [t]
  {
    assert t in Contents(s);
    forall i | 0 <= i < |s| ensures s[i] == t {
      assert s[i] in Contents(s);
    }
    if |s| > 1 {
      TlvCmpZero(s[0], s[1]);
    }
  }
}
