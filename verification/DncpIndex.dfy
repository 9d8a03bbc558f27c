/**
  The per-type index over the TLVs of each node (src/dncp.c:595-637, src/dncp.c:662-710,
  src/dncp.c:754-771): iterating through it gives what scanning the container would.
 */
module DncpIndex {
  import opened Wrappers
  import opened Tlvs

  type NodeKey = nat

  /** The fields of a node that have to do with the index.  A position in the container stands for
      a pointer to the TLV there, the length of the container for a pointer past its end. */
  datatype IndexedNode = IndexedNode(container: seq<Tlv>, valid: bool, index: Option<seq<Option<nat>>>, dirty: bool)

  /** The containers are sorted by type, since they are sorted by tlv_attr_cmp. */
  ghost predicate ByType(s: seq<Tlv>) {
    forall i, j | 0 <= i < j < |s| :: s[i].id <= s[j].id
  }

  lemma SmallerHasSmallerId(a: Tlv, b: Tlv)
    requires WireSized(a) && WireSized(b) && TlvCmp(a, b) <= 0
    ensures a.id <= b.id
  {
    var x, y := Wire(a), Wire(b);
    assert x[0] == a.id / 256 && x[1] == a.id % 256 && y[0] == b.id / 256 && y[1] == b.id % 256;
    HeadersDecideLength(a, b);
    if x[0] == y[0] && x[1] != y[1] {
      assert Memcmp(x, y, 4) == Memcmp(x[1..], y[1..], 3);
      assert x[1..][0] == x[1] && y[1..][0] == y[1];
    }
  }

  lemma SortedIsByType(s: Container)
    ensures ByType(s)
  {
    forall i, j | 0 <= i < j < |s| ensures s[i].id <= s[j].id {
      assert TlvCmp(s[i], s[j]) <= 0;
      SmallerHasSmallerId(s[i], s[j]);
    }
  }

  /** The linear scan: positions from k on of the TLVs of type t */
  function Scan(s: seq<Tlv>, t: nat, k: nat): seq<nat>
    requires k <= |s|
    decreases |s| - k
  {
    if k == |s| then [] else (if s[k].id == t then [k] else []) + Scan(s, t, k + 1)
  }

  /** Among the first p TLVs, those of type t are the ones from f up to l. */
  ghost predicate Spans(s: seq<Tlv>, p: nat, t: nat, f: Option<nat>, l: Option<nat>)
    requires p <= |s|
  {
    match (f, l)
    case (None, None) => forall i | 0 <= i < p :: s[i].id != t
    case (Some(a), Some(b)) => a < b <= p && forall i | 0 <= i < p :: s[i].id == t <==> a <= i < b
    case _ => false
  }

  function UpTo(a: nat, b: nat): seq<nat>
    requires a <= b
  {
    seq(b - a, i requires 0 <= i => a + i)
  }

  lemma {:induction false} ScanOfSpan(s: seq<Tlv>, t: nat, a: nat, b: nat, k: nat)
    requires k <= |s| && a <= b <= |s|
    requires forall i | k <= i < |s| :: s[i].id == t <==> a <= i < b
    ensures Scan(s, t, k) == if k <= a then UpTo(a, b) else if k <= b then UpTo(k, b) else []
    decreases |s| - k
  {
    if k < |s| {
      ScanOfSpan(s, t, a, b, k + 1);
      if a <= k < b {
        assert UpTo(k, b) == [k] + UpTo(k + 1, b);
      }
    }
  }

  /** tlv_type_to_index gives distinct numbers up to n to some types, and 0 to the others. */
  ghost predicate Numbered(numbers: seq<nat>, n: nat) {
    && (forall t | 0 <= t < |numbers| :: numbers[t] <= n)
    && (forall t, u | 0 <= t < u < |numbers| && numbers[t] == numbers[u] :: numbers[t] == 0)
  }

  /** One half of an index is right for the first p TLVs of s. */
  ghost predicate HalfFits(s: seq<Tlv>, p: nat, numbers: seq<nat>, index: seq<Option<nat>>, offset: nat) {
    && p <= |s|
    && forall t | 0 <= t < |numbers| && numbers[t] > 0 ::
         offset + 2 * numbers[t] <= |index| &&
         Spans(s, p, t, index[offset + 2 * numbers[t] - 2], index[offset + 2 * numbers[t] - 1])
  }

  /** A half of an index without entries */
  ghost predicate HalfEmpty(numbers: seq<nat>, index: seq<Option<nat>>, offset: nat) {
    forall t | 0 <= t < |numbers| && numbers[t] > 0 ::
      && offset + 2 * numbers[t] <= |index|
      && index[offset + 2 * numbers[t] - 2].None? && index[offset + 2 * numbers[t] - 1].None?
  }

  ghost predicate NodeFits(x: IndexedNode, numbers: seq<nat>, n: nat) {
    && ByType(x.container)
    && (x.index.None? ==> x.dirty)
    && (x.index.Some? ==> |x.index.value| == 4 * n)
    && (!x.dirty ==> HalfFits(x.container, |x.container|, numbers, x.index.value, 0) &&
                     if x.valid then HalfFits(x.container, |x.container|, numbers, x.index.value, 2 * n)
                     else HalfEmpty(numbers, x.index.value, 2 * n))
  }

  class Indexes {
    var numbers: seq<nat>                   // tlv_type_to_index
    var count: nat                          // num_tlv_indexes
    var nodes: map<NodeKey, IndexedNode>

    ghost predicate Valid()
      reads this
    {
      Numbered(numbers, count) && forall n | n in nodes :: NodeFits(nodes[n], numbers, count)
    }

    constructor ()
      ensures Valid() && nodes == map[]
    {
      numbers, count, nodes := [], 0, map[];
    }

    /** New data for a node (src/dncp.c:96-98), or a new node */
    method SetContainer(n: NodeKey, container: Container, valid: bool)
      requires Valid()
      modifies this`nodes
      ensures Valid() && nodes.Keys == old(nodes.Keys) + {n}
      ensures nodes[n].container == container && nodes[n].valid == valid && nodes[n].dirty
      ensures forall x | x in old(nodes) && x != n :: nodes[x] == old(nodes)[x]
    {
      SortedIsByType(container);
      var index := if n in nodes then nodes[n].index else None;
      nodes := nodes[n := IndexedNode(container, valid, index, true)];
    }

    /** dncp_add_tlv_index (src/dncp.c:595-637) */
    method AddTlvIndex(t: nat)
      requires Valid()
      modifies this
      ensures Valid() && t < |numbers| && numbers[t] > 0
      ensures SameContainers(old(nodes), nodes)
      ensures t < old(|numbers|) && old(numbers)[t] > 0 ==>
        numbers == old(numbers) && count == old(count) && nodes == old(nodes)
    {
      if t < |numbers| {
        if numbers[t] > 0 {
          return;
        }
      } else {
        numbers := numbers + seq(t + 1 - |numbers|, _ => 0);
      }
      count := count + 1;
      numbers := numbers[t := count];
      nodes := map n | n in nodes :: Unindexed(nodes[n]);
    }

    /** dncp_node_recalculate_index (src/dncp.c:662-710) */
    method RecalculateIndex(n: NodeKey)
      requires Valid() && n in nodes && nodes[n].dirty
      modifies this`nodes
      ensures Valid() && SameContainers(old(nodes), nodes) && !nodes[n].dirty
    {
      var x := nodes[n];
      var half := FillHalf(x.container, numbers, count);
      var index := half + if x.valid then half else seq(2 * count, _ => None);
      HalvesFit(x.container, numbers, count, half, index, x.valid);
      nodes := nodes[n := IndexedNode(x.container, x.valid, Some(index), false)];
    }

    /** Whatever a lookup of type t has to do first (src/dncp.c:757-766) */
    method Prepare(n: NodeKey, t: nat)
      requires Valid() && n in nodes
      modifies this
      ensures Valid() && SameContainers(old(nodes), nodes) && t < |numbers| && numbers[t] > 0 && !nodes[n].dirty
      ensures t < old(|numbers|) && old(numbers)[t] > 0 && !old(nodes)[n].dirty ==>
        numbers == old(numbers) && count == old(count) && nodes == old(nodes)
    {
      if t >= |numbers| || numbers[t] == 0 {
        AddTlvIndex(t);
      }
      if nodes[n].dirty {
        RecalculateIndex(n);
      }
    }

    /** dncp_node_get_tlv_with_type (src/dncp.c:754-771) */
    method GetTlvWithType(n: NodeKey, t: nat, first: bool, valid: bool) returns (r: Option<nat>)
      requires Valid() && n in nodes
      modifies this
      ensures Valid() && SameContainers(old(nodes), nodes) && t < |numbers| && numbers[t] > 0 && !nodes[n].dirty
      ensures r == Looked(nodes[n], numbers, count, t, first, valid)
      ensures t < old(|numbers|) && old(numbers)[t] > 0 && !old(nodes)[n].dirty ==>
        numbers == old(numbers) && count == old(count) && nodes == old(nodes)
    {
      Prepare(n, t);
      r := LookUp(nodes[n], numbers, count, t, first, valid);
    }

    /** dncp_node_for_each_tlv_with_t_v (src/dncp.h:382-385): the TLVs of type t, in order */
    method ForEachTlvOfType(n: NodeKey, t: nat, valid: bool) returns (visited: seq<nat>)
      requires Valid() && n in nodes
      modifies this
      ensures Valid() && SameContainers(old(nodes), nodes)
      ensures visited == if valid && !nodes[n].valid then [] else Scan(nodes[n].container, t, 0)
    {
      var a := GetTlvWithType(n, t, true, valid);
      LookupSpans(nodes[n], numbers, count, t, valid);
      if a.Some? {
        visited := WalkType(n, t, valid, a.value);
      } else {
        visited := [];
      }
    }

    /** The loop, from the first TLV of the type on */
    method WalkType(n: NodeKey, t: nat, valid: bool, first: nat) returns (visited: seq<nat>)
      requires Valid() && n in nodes && t < |numbers| && numbers[t] > 0 && !nodes[n].dirty
      requires Looked(nodes[n], numbers, count, t, false, valid).Some?
      requires first <= Looked(nodes[n], numbers, count, t, false, valid).value
      modifies this
      ensures Valid() && nodes == old(nodes)
      ensures visited == UpTo(first, old(Looked(nodes[n], numbers, count, t, false, valid)).value)
    {
      visited := [];
      var a := first;
      var last := GetTlvWithType(n, t, false, valid);
      ghost var nodes1, numbers1, count1, end := nodes, numbers, count, last.value;
      while Some(a) != last
        invariant Valid() && nodes == nodes1 && numbers == numbers1 && count == count1 && last == Some(end)
        invariant first <= a <= end && visited == UpTo(first, a)
        decreases end - a
      {
        visited := visited + [a];
        UpToNext(first, a);
        a := a + 1;
        last := GetTlvWithType(n, t, false, valid);
      }
    }
  }

  lemma UpToNext(a: nat, b: nat)
    requires a <= b
    ensures UpTo(a, b + 1) == UpTo(a, b) + [b]
  {
  }

  /** The array access of dncp_node_get_tlv_with_type (src/dncp.c:767-770) */
  method LookUp(x: IndexedNode, numbers: seq<nat>, count: nat, t: nat, first: bool,
                valid: bool) returns (r: Option<nat>)
    requires NodeFits(x, numbers, count) && !x.dirty && t < |numbers| && 0 < numbers[t]
    ensures r == Looked(x, numbers, count, t, first, valid)
  {
    var i := (numbers[t] - 1 + if valid then count else 0) * 2 + if first then 0 else 1;
    r := x.index.value[i];
  }

  ghost predicate SameContainers(a: map<NodeKey, IndexedNode>, b: map<NodeKey, IndexedNode>) {
    a.Keys == b.Keys && forall n | n in a :: a[n].container == b[n].container && a[n].valid == b[n].valid
  }

  function Unindexed(x: IndexedNode): IndexedNode {
    if x.index.Some? then x.(index := None, dirty := true) else x
  }

  /** The entry that dncp_node_get_tlv_with_type returns */
  ghost function Looked(x: IndexedNode, numbers: seq<nat>, count: nat, t: nat, first: bool, valid: bool): Option<nat>
    requires NodeFits(x, numbers, count) && !x.dirty && t < |numbers| && 0 < numbers[t]
  {
    var offset := (if valid then 2 * count else 0) + 2 * numbers[t];
    if first then x.index.value[offset - 2] else x.index.value[offset - 1]
  }

  lemma LookupSpans(x: IndexedNode, numbers: seq<nat>, count: nat, t: nat, valid: bool)
    requires NodeFits(x, numbers, count) && !x.dirty && t < |numbers| && 0 < numbers[t]
    ensures var f, l := Looked(x, numbers, count, t, true, valid), Looked(x, numbers, count, t, false, valid);
            && (f.Some? <==> l.Some?) && (f.Some? ==> f.value < l.value)
            && (if valid && !x.valid then [] else Scan(x.container, t, 0)) == if f.Some?
              then UpTo(f.value, l.value)
              else []
  {
    var f, l := Looked(x, numbers, count, t, true, valid), Looked(x, numbers, count, t, false, valid);
    if !valid || x.valid {
      assert Spans(x.container, |x.container|, t, f, l);
      if f.Some? {
        ScanOfSpan(x.container, t, f.value, l.value, 0);
      } else {
        ScanOfSpan(x.container, t, 0, 0, 0);
      }
    }
  }

  lemma HalvesFit(s: seq<Tlv>, numbers: seq<nat>, count: nat, half: seq<Option<nat>>, index: seq<Option<nat>>,
                  valid: bool)
    requires |half| == 2 * count && HalfFits(s, |s|, numbers, half, 0) && Numbered(numbers, count)
    requires index == half + if valid then half else seq(2 * count, _ => None)
    ensures |index| == 4 * count && HalfFits(s, |s|, numbers, index, 0)
    ensures if valid then HalfFits(s, |s|, numbers, index, 2 * count) else HalfEmpty(numbers, index, 2 * count)
  {
  }

  /** The loop of dncp_node_recalculate_index (src/dncp.c:680-701) */
  method FillHalf(s: seq<Tlv>, numbers: seq<nat>, count: nat) returns (index: seq<Option<nat>>)
    requires ByType(s) && Numbered(numbers, count)
    ensures |index| == 2 * count && HalfFits(s, |s|, numbers, index, 0)
  {
    index := seq(2 * count, _ => None);
    var t, idx, p := -1, 0, 0;
    while p < |s|
      invariant p <= |s| && |index| == 2 * count && HalfFits(s, p, numbers, index, 0) && AtType(s, p, numbers, t, idx)
    {
      if s[p].id >= |numbers| {
        StopEarly(s, p, numbers, index);
        return;
      }
      t, idx, index := TakeIn(s, p, numbers, count, t, idx, index);
      p := p + 1;
    }
  }

  /** The type of the TLV before p, or -1, and its number */
  ghost predicate AtType(s: seq<Tlv>, p: nat, numbers: seq<nat>, t: int, idx: nat)
    requires p <= |s|
  {
    t == (if p == 0 then -1 else s[p - 1].id) && (t >= 0 ==> t < |numbers| && idx == numbers[t])
  }

  /** One TLV (src/dncp.c:685-700) */
  method TakeIn(s: seq<Tlv>, p: nat, numbers: seq<nat>, count: nat, t0: int, idx0: nat, index0: seq<Option<nat>>)
    returns (t: int, idx: nat, index: seq<Option<nat>>)
    requires ByType(s) && Numbered(numbers, count) && p < |s| && s[p].id < |numbers|
    requires |index0| == 2 * count && HalfFits(s, p, numbers, index0, 0) && AtType(s, p, numbers, t0, idx0)
    ensures |index| == 2 * count && HalfFits(s, p + 1, numbers, index, 0) && AtType(s, p + 1, numbers, t, idx)
  {
    t, idx, index := t0, idx0, index0;
    if s[p].id != t {
      t := s[p].id;
      idx := numbers[t];
      if idx > 0 {
        index := index[2 * idx - 2 := Some(p)];
      }
    }
    if idx > 0 {
      index := index[2 * idx - 1 := Some(p + 1)];
    }
    OneMoreFits(s, p, numbers, count, index0, index);
  }

  /** The index once the TLV at p is taken in */
  function WithTlv(s: seq<Tlv>, p: nat, numbers: seq<nat>, index: seq<Option<nat>>): seq<Option<nat>>
    requires p < |s| && s[p].id < |numbers| && 2 * numbers[s[p].id] <= |index|
  {
    var idx := numbers[s[p].id];
    var starts := p == 0 || s[p - 1].id != s[p].id;
    if idx == 0 then index
    else if starts then index[2 * idx - 2 := Some(p)][2 * idx - 1 := Some(p + 1)]
    else index[2 * idx - 1 := Some(p + 1)]
  }

  lemma OneMoreFits(s: seq<Tlv>, p: nat, numbers: seq<nat>, count: nat, was: seq<Option<nat>>, index: seq<Option<nat>>)
    requires ByType(s) && Numbered(numbers, count) && p < |s| && s[p].id < |numbers|
    requires |was| == 2 * count && HalfFits(s, p, numbers, was, 0) && index == WithTlv(s, p, numbers, was)
    ensures HalfFits(s, p + 1, numbers, index, 0)
  {
    forall t | 0 <= t < |numbers| && numbers[t] > 0
      ensures Spans(s, p + 1, t, index[2 * numbers[t] - 2], index[2 * numbers[t] - 1])
    {
      assert Spans(s, p, t, was[2 * numbers[t] - 2], was[2 * numbers[t] - 1]);
    }
  }

  lemma StopEarly(s: seq<Tlv>, p: nat, numbers: seq<nat>, index: seq<Option<nat>>)
    requires ByType(s) && p < |s| && HalfFits(s, p, numbers, index, 0) && s[p].id >= |numbers|
    ensures HalfFits(s, |s|, numbers, index, 0)
  {
  }
}
