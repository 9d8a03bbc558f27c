/**
  DNS names as label lists and as escaped text (src/dns_util.h:84-257).
 */
module DnsUtil {
  import opened Wrappers

  type Bytes = seq<byte>

  datatype Result<T> = Ok(value: T) | OutOfSpace | Malformed

  const DOT: byte := 46
  const BACKSLASH: byte := 92
  const ZERO: byte := 48

  // the buffer for one label in escaped2ll (src/dns_util.h:90)
  const MAX_LABEL := 1009

  // ---------- what the two forms mean ----------

  /** A byte as escaped text: as it is, behind a backslash, or as a backslash and three digits; isprint is
      that of the C locale. */
  ghost function EscapedByte(b: byte): (r: Bytes)
    ensures r != [] && forall c | c in r :: 32 <= c <= 126
  {
    if b == BACKSLASH || b == DOT then [BACKSLASH, b]
    else if 32 <= b <= 126 then [b]
    else [BACKSLASH, ZERO + b / 100, ZERO + b / 10 % 10, ZERO + b % 10]
  }

  ghost function EscapedLabel(l: Bytes): Bytes {
    if l == [] then [] else EscapedLabel(l[..|l| - 1]) + EscapedByte(l[|l| - 1])
  }

  /** The text of a label list, without its empty last label */
  ghost function Text(labels: seq<Bytes>): Bytes {
    if labels == [] then [] else EscapedLabel(labels[0]) + [DOT] + Text(labels[1..])
  }

  /** Labels as DNS_PUSH_LABEL writes them: the length is cut to 8 bits. */
  ghost function Wire(labels: seq<Bytes>): Bytes {
    if labels == [] then [] else [|labels[0]| % 256] + labels[0] + Wire(labels[1..])
  }

  /** Labels of a well-formed list, before the empty one that ends it */
  predicate WellFormed(labels: seq<Bytes>) {
    forall i | 0 <= i < |labels| :: 0 < |labels[i]| < 256
  }

  // ---------- reading escaped text ----------

  datatype Token = End | Put(b: byte) | Skip

  predicate Digit(b: byte) {
    ZERO <= b <= ZERO + 9
  }

  /** The next thing in a text, and how long it is; a number is cut to 8 bits, and a zero byte is
      passed over. */
  ghost function Next(text: Bytes): (r: Option<(Token, nat)>)
    requires text != []
    ensures r.Some? ==> 0 < r.value.1 <= |text|
  {
    if text[0] == DOT then Some((End, 1))
    else if text[0] != BACKSLASH then Some((Put(text[0]), 1))
    else if |text| >= 2 && (text[1] == DOT || text[1] == BACKSLASH) then Some((Put(text[1]), 2))
    else if |text| >= 4 && Digit(text[1]) && Digit(text[2]) && Digit(text[3]) then
      var v := (text[1] - ZERO) * 100 + (text[2] - ZERO) * 10 + (text[3] - ZERO);
      Some((if v % 256 == 0 then Skip else Put(v % 256), 4))
    else None
  }

  /** The labels that a text gives, when `part` of the current one has been read */
  ghost function Read(text: Bytes, part: Bytes): Option<seq<Bytes>>
    decreases |text|
  {
    if text == [] then Some(if part == [] then [] else [part])
    else
      var t := Next(text);
      if t.None? then None
      else
        var rest := text[t.value.1..];
        match t.value.0
        case End => var more := Read(rest, []); if more.None? then None else Some([part] + more.value)
        case Put(b) => if |part| == MAX_LABEL then None else Read(rest, part + [b])
        case Skip => Read(rest, part)
  }

  /** An empty label ends the list, unless it has just been written. */
  ghost function Ended(labels: seq<Bytes>): seq<Bytes> {
    if labels != [] && labels[|labels| - 1] == [] then labels else labels + [[]]
  }

  // ---------- the round trip ----------

  lemma Digits(b: byte)
    ensures (b / 100) * 100 + (b / 10 % 10) * 10 + b % 10 == b && 0 <= b / 100 <= 9
  {
    var q := b / 10;
    assert b == 10 * q + b % 10 && q == 10 * (q / 10) + q % 10 && q / 10 == b / 100;
  }

  /** An escaped byte is read as that byte, or passed over if it is zero. */
  lemma NextByte(b: byte, rest: Bytes)
    ensures Next(EscapedByte(b) + rest) == Some((if b == 0 then Skip else Put(b), |EscapedByte(b)|))
  {
    var e := EscapedByte(b);
    var text := e + rest;
    assert forall i | 0 <= i < |e| :: text[i] == e[i];
    Digits(b);
  }

  lemma ReadByte(b: byte, rest: Bytes, part: Bytes)
    requires |part| < MAX_LABEL
    ensures Read(EscapedByte(b) + rest, part) == Read(rest, if b == 0 then part else part + [b])
  {
    var e := EscapedByte(b);
    NextByte(b, rest);
    assert (e + rest)[|e|..] == rest;
  }

  /** A label without its zero bytes */
  ghost function Stripped(l: Bytes): (r: Bytes)
    ensures |r| <= |l|
  {
    if l == [] then []
    else Stripped(l[..|l| - 1]) + if l[|l| - 1] == 0 then [] else [l[|l| - 1]]
  }

  ghost function StrippedAll(labels: seq<Bytes>): seq<Bytes> {
    if labels == [] then [] else [Stripped(labels[0])] + StrippedAll(labels[1..])
  }

  lemma {:induction false} ReadLabel(l: Bytes, rest: Bytes)
    requires |l| <= MAX_LABEL
    ensures Read(EscapedLabel(l) + rest, []) == Read(rest, Stripped(l))
    decreases |l|
  {
    if l == [] {
      assert EscapedLabel(l) + rest == rest;
    } else {
      var m, b := l[..|l| - 1], l[|l| - 1];
      ReadLabel(m, EscapedByte(b) + rest);
      assert EscapedLabel(l) + rest == EscapedLabel(m) + (EscapedByte(b) + rest);
      ReadByte(b, rest, Stripped(m));
      assert Stripped(m) + [] == Stripped(m);
    }
  }

  ghost predicate NoZeros(labels: seq<Bytes>) {
    forall i | 0 <= i < |labels| :: 0 !in labels[i]
  }

  /** The text of any well-formed label list is read as its labels without their zero bytes. */
  lemma {:induction false} ReadText(labels: seq<Bytes>)
    requires WellFormed(labels)
    ensures Read(Text(labels), []) == Some(StrippedAll(labels))
    decreases |labels|
  {
    if labels != [] {
      var l, rest := labels[0], Text(labels[1..]);
      ReadText(labels[1..]);
      ReadOneLabel(l, rest, StrippedAll(labels[1..]));
      assert Text(labels) == EscapedLabel(l) + ([DOT] + rest);
    }
  }

  lemma ReadOneLabel(l: Bytes, rest: Bytes, labels: seq<Bytes>)
    requires |l| <= MAX_LABEL && Read(rest, []) == Some(labels)
    ensures Read(EscapedLabel(l) + ([DOT] + rest), []) == Some([Stripped(l)] + labels)
  {
    ReadLabel(l, [DOT] + rest);
    ReadDot(rest, Stripped(l), labels);
  }

  lemma ReadDot(rest: Bytes, part: Bytes, labels: seq<Bytes>)
    requires Read(rest, []) == Some(labels)
    ensures Read([DOT] + rest, part) == Some([part] + labels)
  {
    assert ([DOT] + rest)[1..] == rest;
  }

  lemma {:induction false} StrippedIsSame(l: Bytes)
    ensures Stripped(l) == l <==> 0 !in l
    ensures 0 in l ==> |Stripped(l)| < |l|
    decreases |l|
  {
    if l != [] {
      var m := l[..|l| - 1];
      StrippedIsSame(m);
      assert l == m + [l[|l| - 1]];
    }
  }

  lemma {:induction false} StrippedAllIsSame(labels: seq<Bytes>)
    ensures StrippedAll(labels) == labels <==> NoZeros(labels)
    decreases |labels|
  {
    if labels != [] {
      StrippedIsSame(labels[0]);
      StrippedAllIsSame(labels[1..]);
      assert labels == [labels[0]] + labels[1..];
      if NoZeros(labels) {
        assert forall i | 0 <= i < |labels[1..]| :: labels[1..][i] == labels[i + 1];
      }
      if StrippedAll(labels) == labels {
        assert StrippedAll(labels[1..]) == StrippedAll(labels)[1..];
        forall i | 0 <= i < |labels| ensures 0 !in labels[i] {
          assert i > 0 ==> labels[i] == labels[1..][i - 1];
        }
      }
    }
  }

  /** Reading gives the labels back if and only if there is no zero byte in them. */
  lemma ReadsBack(labels: seq<Bytes>)
    requires WellFormed(labels)
    ensures Read(Text(labels), []) == Some(labels) <==> NoZeros(labels)
  {
    ReadText(labels);
    StrippedAllIsSame(labels);
  }

  // ---------- the code ----------

  /** l2escaped (src/dns_util.h:172-206) */
  method L2Escaped(l: Bytes, space: int) returns (r: Result<Bytes>)
    ensures r == if |EscapedLabel(l)| <= space || l == [] then Ok(EscapedLabel(l)) else OutOfSpace
  {
    var out, left := [], space;
    var i := 0;
    while i < |l|
      invariant i <= |l| && out == EscapedLabel(l[..i]) && (i > 0 ==> left == space - |out| >= 0)
      invariant (i == 0 ==> left == space)
    {
      var d := l[i];
      assert l[..i + 1][..i] == l[..i];
      LongerText(l, i + 1);
      var e := EscapeByte(d);
      if left < |e| {
        return OutOfSpace;
      }
      out, left := out + e, left - |e|;
      i := i + 1;
    }
    assert l[..|l|] == l;
    return Ok(out);
  }

  method EscapeByte(d: byte) returns (e: Bytes)
    ensures e == EscapedByte(d)
  {
    if d == 92 || d == 46 {
      return [92, d];
    }
    if 32 <= d <= 126 {
      return [d];
    }
    return [92, 48 + d / 100, 48 + d / 10 % 10, 48 + d % 10];
  }

  ghost predicate Plain(l: Bytes) {
    forall c | c in l :: 32 <= c <= 126 && c != 46 && c != 92
  }

  lemma TextOfByte(b: byte)
    ensures if Plain([b]) then EscapedByte(b) == [b] else |EscapedByte(b)| > 1
  {
    assert b in [b];
  }

  /** Escaped text is printable, and a label is its own text exactly if it is printable and has neither
      dots nor backslashes. */
  lemma {:induction false} TextOfLabel(l: Bytes)
    ensures |EscapedLabel(l)| >= |l| && forall c | c in EscapedLabel(l) :: 32 <= c <= 126
    ensures EscapedLabel(l) == l <==> Plain(l)
  {
    if l != [] {
      var rest, b := l[..|l| - 1], l[|l| - 1];
      TextOfLabel(rest);
      TextOfByte(b);
      PlainMore(rest, b);
      assert l == rest + [b];
      if |EscapedByte(b)| == 1 {
        assert EscapedLabel(l)[..|EscapedLabel(rest)|] == EscapedLabel(rest);
      }
    }
  }

  lemma PlainMore(l: Bytes, b: byte)
    ensures Plain(l + [b]) <==> Plain(l) && Plain([b])
  {
    assert b in [b] && b in l + [b];
    if Plain(l + [b]) {
      assert forall c | c in l :: c in l + [b];
    }
  }

  lemma {:induction false} LongerText(l: Bytes, i: nat)
    requires i <= |l|
    ensures |EscapedLabel(l[..i])| <= |EscapedLabel(l)|
    decreases |l|
  {
    if i < |l| {
      var m := l[..|l| - 1];
      LongerText(m, i);
      assert m[..i] == l[..i];
    } else {
      assert l[..i] == l;
    }
  }

  lemma {:induction false} WireOfBoth(a: seq<Bytes>, b: seq<Bytes>)
    ensures Wire(a + b) == Wire(a) + Wire(b)
    decreases |a|
  {
    if a == [] {
      assert a + b == b;
    } else {
      assert (a + b)[1..] == a[1..] + b;
      WireOfBoth(a[1..], b);
    }
  }

  lemma {:induction false} TextOfBoth(a: seq<Bytes>, b: seq<Bytes>)
    ensures Text(a + b) == Text(a) + Text(b)
    decreases |a|
  {
    if a == [] {
      assert a + b == b;
    } else {
      assert (a + b)[1..] == a[1..] + b;
      TextOfBoth(a[1..], b);
    }
  }

  lemma WireOneMore(labels: seq<Bytes>, l: Bytes)
    ensures Wire(labels + [l]) == Wire(labels) + [|l| % 256] + l
  {
    WireOfBoth(labels, [l]);
    assert [l][1..] == [];
    assert Wire([l]) == [|l| % 256] + l + [];
  }

  lemma TextOneMore(labels: seq<Bytes>, l: Bytes)
    ensures Text(labels + [l]) == Text(labels) + EscapedLabel(l) + [DOT]
  {
    TextOfBoth(labels, [l]);
    assert [l][1..] == [];
    assert Text([l]) == EscapedLabel(l) + [DOT] + [];
  }

  /** ll holds the label list L from its start on. */
  ghost predicate Starts(ll: Bytes, L: seq<Bytes>) {
    WellFormed(L) && Wire(L) + [0] <= ll
  }

  /** Where the k-th label of L stands in ll */
  lemma NextLabel(ll: Bytes, L: seq<Bytes>, k: nat)
    requires Starts(ll, L) && k <= |L|
    ensures var pos := |Wire(L[..k])|;
            && pos < |ll| && ll[..pos] == Wire(L[..k])
            && (if k < |L|
        then ll[pos] == |L[k]| && pos + 1 + |L[k]| <= |ll| && ll[pos + 1..pos + 1 + |L[k]|] == L[k]
        else ll[pos] == 0)
  {
    assert L == L[..k] + L[k..];
    WireOfBoth(L[..k], L[k..]);
    var pre := Wire(L[..k]);
    if k < |L| {
      var more := Wire(L[k..][1..]) + [0];
      assert Wire(L) + [0] == pre + ([|L[k]|] + L[k] + more);
      InMiddle(ll, pre, |L[k]|, L[k], more);
    } else {
      assert L[k..] == [];
      assert Wire(L) + [0] == pre + ([0] + [] + []);
      InMiddle(ll, pre, 0, [], []);
    }
  }

  lemma InMiddle(ll: Bytes, pre: Bytes, c: byte, x: Bytes, more: Bytes)
    requires pre + ([c] + x + more) <= ll
    ensures |pre| < |ll| && ll[..|pre|] == pre && ll[|pre|] == c
    ensures |pre| + 1 + |x| <= |ll| && ll[|pre| + 1..|pre| + 1 + |x|] == x
  {
    var w := pre + ([c] + x + more);
    assert ll[..|w|] == w;
    assert w[|pre| + 1..|pre| + 1 + |x|] == x;
  }

  /** A text, and how many bytes of the label list it took */
  datatype Printed = Printed(text: Bytes, read: int)

  /** ll2escaped (src/dns_util.h:215-257): the text, and the number of bytes read.  L is any label list. */
  method Ll2Escaped(ll: Bytes, space: int, ghost L: seq<Bytes>) returns (r: Result<Printed>, ghost labels: seq<Bytes>)
    ensures r.Ok? ==>
      Starts(ll, labels) && r.value == Printed(Text(labels), |Wire(labels)| + 1) && |Text(labels)| < space
    ensures Starts(ll, L) ==> r == if |Text(L)| < space then Ok(Printed(Text(L), |Wire(L)| + 1)) else OutOfSpace
  {
    labels := [];
    if space <= 0 {
      return OutOfSpace, labels;
    }
    var pos: nat, out: Bytes, left := 0, [], space;
    while true
      invariant Reading(ll, L, labels, pos, out, left, space)
      decreases |ll| - pos
    {
      var stop, l, e := NextPrinted(ll, pos, out, left, space, L, labels);
      if stop.Some? {
        return stop.value, labels;
      }
      labels := labels + [l];
      out, left, pos := out + e + [DOT], left - |e| - 1, pos + 1 + |l|;
    }
  }

  /** What the whole function has to answer */
  ghost predicate Answers(ll: Bytes, L: seq<Bytes>, labels: seq<Bytes>, space: int, r: Result<Printed>) {
    && (r.Ok? ==> Starts(ll, labels) && r.value == Printed(Text(labels), |Wire(labels)| + 1) && |Text(labels)| < space)
    && (Starts(ll, L) ==> r == if |Text(L)| < space then Ok(Printed(Text(L), |Wire(L)| + 1)) else OutOfSpace)
  }

  lemma EndAnswers(ll: Bytes, L: seq<Bytes>, labels: seq<Bytes>, pos: nat, out: Bytes, left: int, space: int)
    requires Reading(ll, L, labels, pos, out, left, space) && pos < |ll| && ll[pos] == 0
    ensures Answers(ll, L, labels, space, if left == 0 then OutOfSpace else Ok(Printed(out, pos + 1)))
  {
    Ahead(ll, L, labels, pos);
  }

  lemma BadAnswers(ll: Bytes, L: seq<Bytes>, labels: seq<Bytes>, pos: nat, out: Bytes, left: int, space: int)
    requires Reading(ll, L, labels, pos, out, left, space) && (pos == |ll| || pos + 1 + ll[pos] > |ll|)
    ensures Answers(ll, L, labels, space, Malformed)
  {
    Ahead(ll, L, labels, pos);
  }

  lemma FullAnswers(ll: Bytes, L: seq<Bytes>, labels: seq<Bytes>, pos: nat, out: Bytes, left: int, space: int)
    requires Reading(ll, L, labels, pos, out, left, space) && pos < |ll| && ll[pos] != 0 && pos + 1 + ll[pos] <= |ll|
    requires |EscapedLabel(ll[pos + 1..pos + 1 + ll[pos]])| >= left
    ensures Answers(ll, L, labels, space, OutOfSpace)
  {
    Ahead(ll, L, labels, pos);
  }

  /** One label (src/dns_util.h:226-254), or the end */
  method NextPrinted(ll: Bytes, pos: nat, out: Bytes, left: int, space: int, ghost L: seq<Bytes>,
                     ghost labels: seq<Bytes>)
    returns (stop: Option<Result<Printed>>, l: Bytes, e: Bytes)
    requires Reading(ll, L, labels, pos, out, left, space) && space > 0
    ensures stop.Some? ==> Answers(ll, L, labels, space, stop.value)
    ensures stop.None? ==>
      pos < |ll| && Reading(ll, L, labels + [l], pos + 1 + |l|, out + e + [DOT], left - |e| - 1, space)
  {
    l, e := [], [];
    if pos == |ll| {
      BadAnswers(ll, L, labels, pos, out, left, space);
      return Some(Malformed), l, e;
    }
    var c := ll[pos];
    if c == 0 {
      EndAnswers(ll, L, labels, pos, out, left, space);
      return Some(if left == 0 then OutOfSpace else Ok(Printed(out, pos + 1))), l, e;
    }
    if pos + 1 + c > |ll| {
      BadAnswers(ll, L, labels, pos, out, left, space);
      return Some(Malformed), l, e;
    }
    l := ll[pos + 1..pos + 1 + c];
    var t := L2Escaped(l, left);
    if !t.Ok? || left == |t.value| {
      FullAnswers(ll, L, labels, pos, out, left, space);
      return Some(OutOfSpace), l, e;
    }
    e := t.value;
    ReadingMore(ll, L, labels, pos, out, left, space, l, pos + 1 + c, out + e + [DOT]);
    return None, l, e;
  }

  /** The labels before pos have been printed; if ll holds L, they are the first ones of L. */
  ghost predicate Reading(ll: Bytes, L: seq<Bytes>, labels: seq<Bytes>, pos: nat, out: Bytes, left: int, space: int) {
    && pos <= |ll| && ll[..pos] == Wire(labels) && WellFormed(labels)
    && out == Text(labels) && left == space - |out| >= 0
    && Follows(ll, L, labels)
  }

  ghost predicate Follows(ll: Bytes, L: seq<Bytes>, labels: seq<Bytes>) {
    Starts(ll, L) ==> |labels| <= |L| && labels == L[..|labels|]
  }

  lemma FollowsMore(ll: Bytes, L: seq<Bytes>, labels: seq<Bytes>, pos: nat, l: Bytes)
    requires Follows(ll, L, labels) && pos < |ll| && ll[..pos] == Wire(labels)
    requires ll[pos] != 0 && pos + 1 + ll[pos] <= |ll| && l == ll[pos + 1..pos + 1 + ll[pos]]
    ensures Follows(ll, L, labels + [l])
  {
    if Starts(ll, L) {
      NextLabel(ll, L, |labels|);
      assert L[..|labels| + 1] == L[..|labels|] + [L[|labels|]];
    }
  }

  /** What is at pos if ll holds L, and how much room the rest of L takes */
  lemma Ahead(ll: Bytes, L: seq<Bytes>, labels: seq<Bytes>, pos: nat)
    requires pos <= |ll| && ll[..pos] == Wire(labels) && WellFormed(labels) && Follows(ll, L, labels)
    ensures pos < |ll| && ll[pos] == 0 ==> Starts(ll, labels)
    ensures Starts(ll, L) && pos < |ll| && ll[pos] == 0 ==> labels == L
    ensures Starts(ll, L) ==> pos < |ll| && pos + 1 + ll[pos] <= |ll|
    ensures Starts(ll, L) && ll[pos] != 0 ==>
      |Text(labels)| + |EscapedLabel(ll[pos + 1..pos + 1 + ll[pos]])| + 1 <= |Text(L)|
  {
    if pos < |ll| && ll[pos] == 0 {
      assert ll[..pos + 1] == ll[..pos] + [0];
    }
    if Starts(ll, L) {
      AheadIn(ll, L, |labels|, pos);
    }
  }

  lemma AheadIn(ll: Bytes, L: seq<Bytes>, k: nat, pos: nat)
    requires Starts(ll, L) && k <= |L| && pos == |Wire(L[..k])|
    ensures pos < |ll| && (ll[pos] == 0 ==> L[..k] == L) && pos + 1 + ll[pos] <= |ll|
    ensures ll[pos] != 0 ==> |Text(L[..k])| + |EscapedLabel(ll[pos + 1..pos + 1 + ll[pos]])| + 1 <= |Text(L)|
  {
    NextLabel(ll, L, k);
    if k < |L| {
      LongEnough(L, k);
      assert ll[pos] == |L[k]| && ll[pos + 1..pos + 1 + ll[pos]] == L[k];
    } else {
      assert L[..k] == L;
    }
  }

  lemma ReadingMore(ll: Bytes, L: seq<Bytes>, labels: seq<Bytes>, pos: nat, out: Bytes, left: int, space: int, l: Bytes,
                    pos': nat, out': Bytes)
    requires Reading(ll, L, labels, pos, out, left, space)
    requires pos < |ll| && ll[pos] != 0 && pos' == pos + 1 + ll[pos] <= |ll| && l == ll[pos + 1..pos']
    requires |EscapedLabel(l)| < left && out' == out + EscapedLabel(l) + [DOT]
    ensures Reading(ll, L, labels + [l], pos', out', left - |EscapedLabel(l)| - 1, space)
  {
    FollowsMore(ll, L, labels, pos, l);
    MoreIsRead(ll, labels, pos, l, pos');
    TextOneMore(labels, l);
  }

  lemma MoreIsRead(ll: Bytes, labels: seq<Bytes>, pos: nat, l: Bytes, pos': nat)
    requires pos < |ll| && ll[pos] != 0 && pos' == pos + 1 + ll[pos] <= |ll| && l == ll[pos + 1..pos']
    requires ll[..pos] == Wire(labels) && WellFormed(labels)
    ensures ll[..pos'] == Wire(labels + [l]) && WellFormed(labels + [l])
  {
    WireOneMore(labels, l);
    SliceOn(ll, pos, pos');
    assert |l| % 256 == ll[pos];
  }

  lemma SliceOn(ll: Bytes, pos: nat, pos': nat)
    requires pos < pos' <= |ll|
    ensures ll[..pos'] == ll[..pos] + [ll[pos]] + ll[pos + 1..pos']
  {
  }

  /** The text of the first labels is at most that of all. */
  lemma LongEnough(L: seq<Bytes>, k: nat)
    requires k <= |L|
    ensures |Text(L[..k])| <= |Text(L)|
    ensures k < |L| ==> |Text(L[..k])| + |EscapedLabel(L[k])| + 1 <= |Text(L)|
  {
    assert L == L[..k] + L[k..];
    TextOfBoth(L[..k], L[k..]);
  }

  // ---------- the parser ----------

  /** What a text gives in all, if `pushed` labels have been written and `more` is what the rest gives */
  ghost function Joined(pushed: seq<Bytes>, more: Option<seq<Bytes>>): Option<seq<Bytes>> {
    if more.None? then None else Some(pushed + more.value)
  }

  lemma FirstOnesFit(a: seq<Bytes>, all: seq<Bytes>)
    requires a <= all
    ensures |Wire(a)| <= |Wire(all)| <= |Wire(Ended(all))|
  {
    assert all == a + all[|a|..];
    WireOfBoth(a, all[|a|..]);
    WireOfBoth(all, [[]]);
  }

  /** One step of the reader */
  lemma ReadStep(text: Bytes, i: nat, part: Bytes, pushed: seq<Bytes>)
    requires i < |text|
    ensures var rest := text[i..]; var t := Next(rest);
            && (t.None? ==> Read(rest, part) == None)
            && (t.Some? ==> text[i + t.value.1..] == rest[t.value.1..])
            && (t.Some? && t.value.0.End? ==>
                  Joined(pushed, Read(rest, part)) == Joined(pushed + [part], Read(text[i + t.value.1..], [])))
            && (t.Some? && t.value.0.Put? ==>
                  Read(rest, part) == if |part| == MAX_LABEL
                    then None
                    else Read(text[i + t.value.1..], part + [t.value.0.b]))
            && (t.Some? && t.value.0.Skip? ==> Read(rest, part) == Read(text[i + t.value.1..], part))
  {
    var rest := text[i..];
    var t := Next(rest);
    if t.Some? {
      assert text[i + t.value.1..] == rest[t.value.1..];
      if t.value.0.End? {
        var more := Read(rest[t.value.1..], []);
        if more.Some? {
          assert pushed + ([part] + more.value) == pushed + [part] + more.value;
        }
      }
    }
  }

  /** DNS_PUSH_LABEL (src/dns_util.h:58-72) */
  method PushLabel(out: Bytes, left: int, l: Bytes, ghost pushed: seq<Bytes>) returns (ok: bool, out': Bytes,
                                                                                       left': int)
    requires out == Wire(pushed) && left >= 0
    ensures ok <==> |Wire(pushed + [l])| <= |out| + left
    ensures ok ==> out' == Wire(pushed + [l]) && left' == left - (|out'| - |out|) >= 0
  {
    WireOneMore(pushed, l);
    left' := left - (|l| + 1);
    if left' < 0 {
      return false, out, left';
    }
    return true, out + [|l| % 256] + l, left';
  }

  /** escaped2ll (src/dns_util.h:84-155): the text is read if and only if it is well formed and the
      label list fits. */
  method Escaped2Ll(text: Bytes, space: int) returns (r: Result<Bytes>)
    requires 0 !in text
    ensures r.Ok? <==> space > 0 && Read(text, []).Some? && |Wire(Ended(Read(text, []).value))| <= space
    ensures r.Ok? ==> r.value == Wire(Ended(Read(text, []).value))
  {
    if space <= 0 {
      return OutOfSpace;
    }
    ghost var all := Read(text, []);
    assert text[0..] == text;
    assert all.Some? ==> [] + all.value == all.value;
    r := ReadLabels(text, space, all);
  }

  /** What comes next in the text (src/dns_util.h:100-132) */
  method NextToken(text: Bytes, i: nat) returns (t: Option<(Token, nat)>)
    requires i < |text|
    ensures t == Next(text[i..])
  {
    ghost var rest := text[i..];
    var c := text[i];
    if c == 46 {
      return Some((End, 1));
    }
    if c != 92 {
      return Some((Put(c), 1));
    }
    if i + 1 < |text| && (text[i + 1] == 46 || text[i + 1] == 92) {
      assert rest[1] == text[i + 1];
      return Some((Put(text[i + 1]), 2));
    }
    t := NextNumber(text, i);
  }

  /** Three digits after a backslash */
  method NextNumber(text: Bytes, i: nat) returns (t: Option<(Token, nat)>)
    requires i < |text| && text[i] == 92
    requires i + 1 < |text| ==> text[i + 1] != 46 && text[i + 1] != 92
    ensures t == Next(text[i..])
  {
    ghost var rest := text[i..];
    var v: nat, k := 0, 0;
    while k < 3
      invariant k <= 3 && i + 1 + k <= |text|
      invariant forall j | 1 <= j <= k :: Digit(rest[j])
      invariant v == (if k == 0 then 0 else if k == 1 then rest[1] - ZERO
                      else if k == 2 then (rest[1] - ZERO) * 10 + (rest[2] - ZERO)
                      else (rest[1] - ZERO) * 100 + (rest[2] - ZERO) * 10 + (rest[3] - ZERO))
    {
      if i + 1 + k == |text| {
        return None;
      }
      var c := text[i + 1 + k];
      assert rest[k + 1] == c;
      if c < 48 || c > 57 {
        return None;
      }
      v, k := v * 10 + (c - 48), k + 1;
    }
    return Some((if v % 256 == 0 then Skip else Put(v % 256), 4));
  }

  /** The loop of escaped2ll (src/dns_util.h:100-144) and what follows it */
  method ReadLabels(text: Bytes, space: int, ghost all: Option<seq<Bytes>>) returns (r: Result<Bytes>)
    requires 0 !in text && space > 0 && all == Joined([], Read(text[0..], []))
    ensures r.Ok? <==> all.Some? && |Wire(Ended(all.value))| <= space
    ensures r.Ok? ==> r.value == Wire(Ended(all.value))
  {
    var w := Writer([], [], space, -1);
    var i: nat := 0;
    ghost var pushed: seq<Bytes> := [];
    while i < |text|
      invariant i <= |text| && Writing(w, space, pushed) && all == Joined(pushed, Read(text[i..], w.part))
      decreases |text| - i
    {
      ReadStep(text, i, w.part, pushed);
      var t := NextToken(text, i);
      if t.None? {
        return Malformed;
      }
      var stop;
      stop, w, pushed := TakeToken(w, t.value.0, space, pushed, Read(text[i + t.value.1..], []), all);
      if stop.Some? {
        return stop.value;
      }
      i := i + t.value.1;
    }
    assert text[i..] == [];
    r := Finish(w.out, w.left, w.last, w.part, space, pushed, all);
  }

  /** The label so far, the output, the room left, and the length of the last label written, or -1 */
  datatype Writer = Writer(part: Bytes, out: Bytes, left: int, last: int)

  ghost predicate Writing(w: Writer, space: int, pushed: seq<Bytes>) {
    && w.out == Wire(pushed) && w.left == space - |w.out| >= 0
    && w.last == if pushed == [] then -1 else |pushed[|pushed| - 1]|
  }

  /** One token; `more` is what follows it if it ends a label. */
  method TakeToken(w: Writer, t: Token, space: int, ghost pushed: seq<Bytes>, ghost more: Option<seq<Bytes>>,
                   ghost all: Option<seq<Bytes>>)
    returns (stop: Option<Result<Bytes>>, w': Writer, ghost pushed': seq<Bytes>)
    requires Writing(w, space, pushed) && (t.End? ==> all == Joined(pushed + [w.part], more))
    ensures stop.Some? ==> !stop.value.Ok? && (t.End? ==> all.None? || |Wire(Ended(all.value))| > space) && !t.Skip?
    ensures stop.Some? && t.Put? ==> |w.part| == MAX_LABEL
    ensures stop.None? ==> Writing(w', space, pushed')
    ensures stop.None? ==> match t
                           case End => pushed' == pushed + [w.part] && w'.part == []
                           case Put(b) => |w.part| != MAX_LABEL && pushed' == pushed && w'.part == w.part + [b]
                           case Skip => pushed' == pushed && w'.part == w.part
  {
    stop, w', pushed' := None, w, pushed;
    match t {
      case End =>
        TooLong(pushed, w.part, more, all, space);
        var ok, out, left := PushLabel(w.out, w.left, w.part, pushed);
        if !ok {
          return Some(OutOfSpace), w, pushed;
        }
        pushed' := pushed + [w.part];
        w' := Writer([], out, left, |w.part|);
      case Put(b) =>
        if |w.part| == MAX_LABEL {
          return Some(Malformed), w, pushed;
        }
        w' := w.(part := w.part + [b]);
      case Skip =>
    }
  }

  lemma TooLong(pushed: seq<Bytes>, part: Bytes, more: Option<seq<Bytes>>, all: Option<seq<Bytes>>, space: int)
    requires all == Joined(pushed + [part], more)
    ensures all.Some? ==> |Wire(pushed + [part])| <= |Wire(Ended(all.value))|
  {
    if all.Some? {
      FirstOnesFit(pushed + [part], all.value);
    }
  }

  /** Write what is pending, and the empty label (src/dns_util.h:145-154). */
  method Finish(out: Bytes, left: int, last: int, part: Bytes, space: int, ghost pushed: seq<Bytes>,
                ghost all: Option<seq<Bytes>>)
    returns (r: Result<Bytes>)
    requires out == Wire(pushed) && left == space - |out| >= 0
    requires last == if pushed == [] then -1 else |pushed[|pushed| - 1]|
    requires all == Joined(pushed, Some(if part == [] then [] else [part]))
    ensures r.Ok? <==> |Wire(Ended(all.value))| <= space
    ensures r.Ok? ==> r.value == Wire(Ended(all.value))
  {
    var ok, out', left', last' := true, out, left, last;
    ghost var labels := pushed;
    FirstOnesFit(all.value, all.value);
    if part != [] {
      last' := |part|;
      ok, out', left' := PushLabel(out, left, part, pushed);
      if !ok {
        return OutOfSpace;
      }
      labels := pushed + [part];
    } else {
      assert pushed + [] == pushed;
    }
    assert all.value == labels;
    if last' != 0 {
      assert labels == [] || labels[|labels| - 1] != [];
      ok, out', left' := PushLabel(out', left', [], labels);
      if !ok {
        return OutOfSpace;
      }
    }
    return Ok(out');
  }

  /** Printing a well-formed label list without zero bytes and reading the text back gives the same
      bytes, if there is room for both. */
  method RoundTrip(ll: Bytes, textSpace: int, space: int, ghost L: seq<Bytes>) returns (r: Result<Bytes>)
    requires WellFormed(L) && NoZeros(L) && ll == Wire(L) + [0]
    requires |Text(L)| < textSpace && |ll| <= space
    ensures r == Ok(ll)
  {
    ghost var labels;
    var printed;
    printed, labels := Ll2Escaped(ll, textSpace, L);
    TextHasNoZeros(L);
    ReadsBack(L);
    EndedWire(L);
    assert Starts(ll, L);
    r := Escaped2Ll(printed.value.text, space);
  }

  lemma EndedWire(L: seq<Bytes>)
    requires WellFormed(L)
    ensures Wire(Ended(L)) == Wire(L) + [0]
  {
    var empty: seq<Bytes> := [[]];
    WireOfBoth(L, empty);
    assert empty[1..] == [];
    assert Wire(empty) == [0] + empty[0] + [] == [0];
    assert L == [] || L[|L| - 1] != [];
  }

  lemma {:induction false} TextHasNoZeros(labels: seq<Bytes>)
    ensures 0 !in Text(labels)
  {
    if labels != [] {
      TextOfLabel(labels[0]);
      TextHasNoZeros(labels[1..]);
    }
  }
}
