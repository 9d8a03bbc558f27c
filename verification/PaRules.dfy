/**
  The rules that choose a prefix at random or by Hamming distance (src/pa_rules.c:26-132,
  src/pa_rules.c:255-483).
 */
module PaRules {
  import opened Wrappers
  import opened FreeSpace
  import opened TrieArena
  import opened BtrieModel
  import opened BtrieAvailable
  import opened Bytes
  import opened Bitops
  import opened Hamming
  import opened PaCandidates
  import opened PaHamming

  // ---------- free space ----------

  lemma FreeExtends(S: set<Bits>, a: Bits, x: Bits)
    requires Free(S, a) && a <= x
    ensures Free(S, x)
  {
    forall k | k in S ensures !Comparable(k, x) {
      if k <= x {
        PrefixesOfOneAreComparable(k, a, x);
      }
    }
  }

  /** An available prefix is no longer than the container or the longest stored key. */
  lemma AvailIsShort(S: set<Bits>, p: Bits, r: Bits, len: nat)
    requires Bounded(S) && r in Avail(S, p) && |p| <= len && forall k | k in S :: |k| <= len
    ensures |r| <= len
  {
    AvailIsFree(S, p, r);
    if r != p {
      var up := r[..|r| - 1];
      var k :| k in S && Comparable(k, up);
      assert up <= r && !Comparable(k, r);
    }
  }

  /** The available prefixes lie one after the other, and are pairwise disjoint. */
  lemma AvailIsDisjoint(S: set<Bits>, p: Bits)
    requires Bounded(S)
    ensures Ordered(Avail(S, p)) && Disjoint(Avail(S, p))
  {
    var all := Avail(S, p);
    forall i, j | 0 <= i < j < |all| ensures Before(all[i], all[j]) && !Comparable(all[i], all[j]) {
      AvailIsOrdered(S, p, i, j);
      BeforeIsDisjoint(all[i], all[j]);
    }
  }

  /** S are the keys in the trie; none is longer than a prefix can be. */
  ghost predicate Holds128(t: Btrie, S: set<Bits>)
    reads t
  {
    && t.Valid() && S == StoredKeys(t.nodes, t.full) && Bounded(S)
    && forall k | k in S :: |k| <= PREFIX_BITS
  }

  /** btrie_for_each_available over a pool */
  method ListAvailable(t: Btrie, pool: Bits, subplen: nat, ghost S: set<Bits>) returns (avail: seq<Bits>)
    requires Holds128(t, S) && |pool| == PREFIX_BITS && subplen <= PREFIX_BITS
    ensures avail == Avail(S, pool[..subplen])
    ensures forall x | x in avail :: pool[..subplen] <= x && Free(S, x) && |x| <= PREFIX_BITS
  {
    var buffer: Bits := seq(PREFIX_BITS, _ => false);
    avail := ForEachAvailable(t, buffer, pool, subplen);
    forall x | x in avail ensures pool[..subplen] <= x && Free(S, x) && |x| <= PREFIX_BITS {
      AvailIsFree(S, pool[..subplen], x);
      AvailIsShort(S, pool[..subplen], x, PREFIX_BITS);
    }
  }

  /** The first round of btrie_for_each_available_loop_stop from a tentative prefix on */
  method FirstFree(t: Btrie, tentative: Bits, subplen: nat, d: nat, ghost S: set<Bits>) returns (iter: Option<Bits>)
    requires Holds128(t, S) && |tentative| == PREFIX_BITS && subplen <= PREFIX_BITS && d <= PREFIX_BITS
    ensures iter.Some? ==> Free(S, iter.value) && |iter.value| <= PREFIX_BITS
    ensures iter.Some? && !EmptyWithDirection(S, subplen, FirstLen(subplen, d)) ==>
      iter.value in Avail(S, tentative[..subplen])
    ensures IsFirst(S, tentative, subplen, d, iter)
  {
    var buffer: Bits := seq(PREFIX_BITS, _ => false);
    var spot, key, len;
    ghost var ahead;
    spot, key, len, ahead := FirstAvailable(t, buffer, tentative, subplen, d);
    FirstContains(S, tentative, subplen, d, ahead);
    if spot.None? {
      return None;
    }
    SpotIsFirst(t, spot.value, key[..len], subplen, ahead);
    AheadIsFree(S, tentative, subplen, d, ahead);
    return Some(key[..len]);
  }

  /** An available prefix that the tentative one lies in comes first; in an empty trie with a direction,
      the half of the space that it lies in. */
  ghost predicate IsFirst(S: set<Bits>, tentative: Bits, subplen: nat, d: nat, iter: Option<Bits>)
    requires Bounded(S) && subplen <= |tentative| && d <= |tentative|
  {
    if EmptyWithDirection(S, subplen, FirstLen(subplen, d)) then iter == Some([tentative[0]])
    else forall a | a in Avail(S, tentative[..subplen]) && a <= tentative[..d] :: iter == Some(a)
  }

  lemma FirstContains(S: set<Bits>, tentative: Bits, subplen: nat, d: nat, ahead: seq<Bits>)
    requires Bounded(S) && subplen <= |tentative| && d <= |tentative|
    requires ListsAhead(S, tentative, subplen, FirstLen(subplen, d), ahead)
    ensures IsFirst(S, tentative, subplen, d, if ahead == [] then None else Some(ahead[0]))
  {
    if !EmptyWithDirection(S, subplen, FirstLen(subplen, d)) {
      forall a | a in Avail(S, tentative[..subplen]) && a <= tentative[..d] ensures ahead != [] && ahead[0] == a {
        HeadContains(S, tentative, subplen, d, ahead, a);
      }
    }
  }

  lemma HeadContains(S: set<Bits>, tentative: Bits, subplen: nat, d: nat, ahead: seq<Bits>, a: Bits)
    requires Bounded(S) && subplen <= |tentative| && d <= |tentative|
    requires ListsFrom(S, tentative[..subplen], tentative[..FirstLen(subplen, d)], ahead)
    requires a in Avail(S, tentative[..subplen]) && a <= tentative[..d]
    ensures ahead != [] && ahead[0] == a
  {
    var all, q := Avail(S, tentative[..subplen]), tentative[..FirstLen(subplen, d)];
    var i :| 0 <= i < |all| && all[i] == a;
    var k := |all| - |ahead|;
    assert a <= q;
    if i < k {
      BeforeIsDisjoint(a, q);
    }
    assert ahead[0] == all[k] && ahead[0] in ahead;
    if k < i {
      AvailIsOrdered(S, tentative[..subplen], k, i);
      BeforeExtends(all[k], a, all[k], q);
    }
  }

  lemma SpotIsFirst(t: Btrie, spot: Spot, p: Bits, containLen: nat, ahead: seq<Bits>)
    requires t.Valid() && Bounded(StoredKeys(t.nodes, t.full))
    requires Stands(t.nodes, t.full, Some(spot), p, containLen, ahead)
    ensures ahead != [] && ahead[0] == p
  {
  }

  lemma AheadIsFree(S: set<Bits>, tentative: Bits, subplen: nat, d: nat, ahead: seq<Bits>)
    requires Bounded(S) && subplen <= |tentative| && d <= |tentative| && ahead != []
    requires ListsAhead(S, tentative, subplen, FirstLen(subplen, d), ahead)
    ensures Free(S, ahead[0])
    ensures !EmptyWithDirection(S, subplen, FirstLen(subplen, d)) ==> ahead[0] in Avail(S, tentative[..subplen])
  {
    var all := Avail(S, tentative[..subplen]);
    if !EmptyWithDirection(S, subplen, FirstLen(subplen, d)) {
      assert ahead[0] == all[|all| - |ahead|..][0];
      AvailIsFree(S, tentative[..subplen], ahead[0]);
    }
  }

  // ---------- counting ----------

  /** pa_rule_prefix_count (src/pa_rules.c:38-52) */
  method PrefixCount(avail: seq<Bits>, count: array<nat>)
    requires forall x | x in avail :: |x| < count.Length
    modifies count
    ensures Counts(avail, count[..])
  {
    for l := 0 to count.Length
      invariant forall i | 0 <= i < l :: count[i] == 0
    {
      count[l] := 0;
    }
    ghost var done: seq<Bits> := [];
    for i := 0 to |avail|
      invariant done == avail[..i] && Counts(done, count[..])
    {
      var x := avail[i];
      assert x in avail;
      CountsGrow(done, x, count[..]);
      if count[|x|] != COUNT_MAX {
        count[|x|] := count[|x|] + 1;
      }
      done := done + [x];
    }
    assert avail[..|avail|] == avail;
  }

  lemma CountsGrow(avail: seq<Bits>, x: Bits, count: seq<nat>)
    requires Counts(avail, count) && |x| < |count|
    ensures Counts(avail + [x], if count[|x|] != COUNT_MAX then count[|x| := count[|x|] + 1] else count)
  {
    forall l | 0 <= l < |count| ensures CountOf(avail + [x], l) == CountOf(avail, l) + if |x| == l then 1 else 0 {
      CountOfMore(avail, x, l);
    }
  }

  // ---------- the n-th prefix, in bytes ----------

  lemma {:induction false} LowBits(b: Bits, w: nat)
    requires w <= |b|
    ensures ToBits(Value(b), w) == b[|b| - w..]
  {
    if w > 0 {
      var c := b[..|b| - 1];
      LowBits(c, w - 1);
      assert b[|b| - w..] == c[|c| - (w - 1)..] + [b[|b| - 1]];
    }
  }

  /** What the two copies leave in the first plen bits */
  lemma NthInBuffer(c: Bits, i: Bits, cl: nat, plen: nat)
    requires cl <= plen <= |c| && |i| == 32
    ensures var w := Width(c[..cl], plen);
            Spliced(Spliced(Zeros(|c|), c, 0, 0, cl), i, plen - w, 32 - w, w)[..plen] == Nth(c[..cl], Value(i), plen)
  {
    var w := Width(c[..cl], plen);
    LowBits(i, w);
    HeadInBuffer(c, cl, plen);
    SplicedTail(Spliced(Zeros(|c|), c, 0, 0, cl), i, plen - w, w);
  }

  lemma HeadInBuffer(c: Bits, cl: nat, plen: nat)
    requires cl <= plen <= |c|
    ensures Spliced(Zeros(|c|), c, 0, 0, cl)[..plen - Width(c[..cl], plen)] == Head(c[..cl], plen)
  {
  }

  lemma SplicedTail(first: Bits, i: Bits, start: nat, w: nat)
    requires start + w <= |first| && w <= |i|
    ensures Spliced(first, i, start, |i| - w, w)[..start + w] == first[..start] + i[|i| - w..]
  {
  }

  /** pa_rule_prefix_nth (src/pa_rules.c:26-36); `number` holds n in network byte order. */
  method PrefixNth(dst: array<Byte>, container: array<Byte>, cl: nat, number: array<Byte>, plen: nat)
    requires dst.Length == container.Length == 16 && number.Length == 4 && dst != container && dst != number
    requires cl <= plen <= PREFIX_BITS
    modifies dst
    ensures Expand(dst[..])[..plen] == Nth(Expand(container[..])[..cl], Value(Expand(number[..])), plen)
  {
    ghost var c, i := Expand(container[..]), Expand(number[..]);
    ClearAndCopy(dst, container, cl);
    assert number[..] == old(number[..]) && container[..] == old(container[..]);
    var start := if plen - cl > 32 then plen - 32 else cl;
    CopyLowBits(dst, number, start, plen, Spliced(Zeros(128), c, 0, 0, cl));
    assert number[..] == old(number[..]) && container[..] == old(container[..]);
    NthWritten(c, i, cl, plen, start, Expand(dst[..]));
  }

  lemma NthWritten(c: Bits, i: Bits, cl: nat, plen: nat, start: nat, r: Bits)
    requires |c| == 128 && cl <= plen <= 128 && |i| == 32 && start == if plen - cl > 32 then plen - 32 else cl
    requires r == Spliced(Spliced(Zeros(128), c, 0, 0, cl), i, start, 32 - (plen - start), plen - start)
    ensures r[..plen] == Nth(c[..cl], Value(i), plen)
  {
    NthInBuffer(c, i, cl, plen);
  }

  method ClearAndCopy(dst: array<Byte>, container: array<Byte>, cl: nat)
    requires dst.Length == container.Length == 16 && dst != container && cl <= PREFIX_BITS
    modifies dst
    ensures Expand(dst[..]) == Spliced(Zeros(128), Expand(container[..]), 0, 0, cl)
  {
    var none: Byte := [false, false, false, false, false, false, false, false];
    forall b | 0 <= b < dst.Length {
      dst[b] := none;
    }
    assert Expand(dst[..]) == Zeros(128);
    BMemCpy(dst, 0, container, 0, 0, cl, 0, 0);
  }

  method CopyLowBits(dst: array<Byte>, number: array<Byte>, start: nat, plen: nat, ghost first: Bits)
    requires dst.Length == 16 && number.Length == 4 && dst != number && start <= plen <= start + 32
    requires plen <= PREFIX_BITS
    requires Expand(dst[..]) == first
    modifies dst
    ensures Expand(dst[..]) == Spliced(first, Expand(number[..]), start, 32 - (plen - start), plen - start)
  {
    BMemCpyShift(dst, start, number, 32 - (plen - start), plen - start);
  }

  // ---------- what a rule answers ----------

  datatype Choice =
    | Wait                    // PA_RULE_BACKOFF
    | NoCandidates            // on to pa_rule_random_override_match
    | Rejected                // PA_RULE_NO_MATCH
    | Chosen(prefix: Bits)    // PA_RULE_PUBLISH

  /** x can be assigned: it has the desired length, lies in the pool and overlaps nothing. */
  ghost predicate Assignable(S: set<Bits>, pool: Bits, d: nat, x: Bits) {
    |x| == d && pool <= x && Free(S, x)
  }

  lemma ExtensionIsAssignable(S: set<Bits>, pool: Bits, d: nat, a: Bits, x: Bits)
    requires pool <= a && Free(S, a) && a <= x && |x| == d
    ensures Assignable(S, pool, d, x)
  {
    FreeExtends(S, a, x);
  }

  /** A number below the room picks an assignable prefix. */
  lemma PicksAreAssignable(S: set<Bits>, pool: Bits, d: nat, minPlen: nat, n: nat)
    requires Bounded(S) && minPlen <= d && n < Room(Avail(S, pool), d, minPlen) && n < WORDS
    ensures Within(Order(Avail(S, pool), minPlen, d), d)
    ensures var r := Pick(Order(Avail(S, pool), minPlen, d), n, d); r.Some? && Assignable(S, pool, d, r.value)
  {
    var avail := Avail(S, pool);
    var list := Order(avail, minPlen, d);
    OrderHasRoom(avail, minPlen, d, n);
    PickIsIn(list, n, d);
    var x := Pick(list, n, d).value;
    var a := ContainerInAny(avail, minPlen, d, n, x);
    AvailIsFree(S, pool, a);
    ExtensionIsAssignable(S, pool, d, a, x);
  }

  /** Different numbers pick different prefixes. */
  lemma PicksAreDistinct(S: set<Bits>, pool: Bits, d: nat, minPlen: nat, n: nat, m: nat)
    requires Bounded(S) && minPlen <= d && n < m < Room(Avail(S, pool), d, minPlen) && m < WORDS
    ensures Within(Order(Avail(S, pool), minPlen, d), d)
    ensures Pick(Order(Avail(S, pool), minPlen, d), n, d) != Pick(Order(Avail(S, pool), minPlen, d), m, d)
  {
    var avail := Avail(S, pool);
    OrderHasRoom(avail, minPlen, d, m);
    AvailIsDisjoint(S, pool);
    OrderIsDisjoint(avail, minPlen, d);
    PickIsInjective(Order(avail, minPlen, d), n, m, d);
  }

  /** Every assignable prefix is picked, if the available prefix it lies in is among the ones gone through
      and leaves no more than 32 bits open. */
  lemma PicksReachAll(S: set<Bits>, pool: Bits, d: nat, minPlen: nat, x: Bits) returns (a: Bits, n: nat)
    requires Bounded(S) && minPlen <= d && Assignable(S, pool, d, x)
    ensures a in Avail(S, pool) && a <= x && Within(Order(Avail(S, pool), minPlen, d), d)
    ensures minPlen <= |a| && d <= |a| + 32 ==>
      n < Total(Order(Avail(S, pool), minPlen, d), d) && Pick(Order(Avail(S, pool), minPlen, d), n, d) == Some(x)
  {
    var avail := Avail(S, pool);
    a := AvailIsComplete(S, pool, x);
    OrderIsWithin(avail, minPlen, d, d);
    n := 0;
    if minPlen <= |a| && d <= |a| + 32 {
      OrderHasAll(avail, minPlen, d, a);
      n := PickReachesAll(Order(avail, minPlen, d), d, a, x);
    }
  }

  lemma {:induction false} SomeOfLength(avail: seq<Bits>, len: nat) returns (a: Bits)
    requires CountOf(avail, len) > 0
    ensures a in avail && |a| == len
  {
    if |avail[0]| == len {
      a := avail[0];
    } else {
      a := SomeOfLength(avail[1..], len);
    }
  }

  /** The overflow-th candidate of the shortest length exists. */
  lemma OverflowPicks(avail: seq<Bits>, d: nat, minPlen: nat, overflow: nat)
    requires minPlen <= d && overflow < WORDS && Room(avail, d, minPlen + 1) + overflow < Room(avail, d, minPlen)
    ensures Within(Order(avail, minPlen, minPlen), d) && Pick(Order(avail, minPlen, minPlen), overflow, d).Some?
  {
    var list := OfLengths(avail, minPlen, minPlen);
    TotalHasRoom(avail, minPlen, minPlen, d);
    OfLengthsNothing(avail, minPlen);
    assert Order(avail, minPlen, minPlen) == [] + list == list;
    PickIsIn(list, overflow, d);
  }

  /** Whether a tentative prefix is taken (src/pa_rules.c:318-337); `iter` is the first available
      prefix at or after it. */
  predicate Takes(iter: Bits, tentative: Bits, minPlen: nat, d: nat, last: Option<Bits>)
    requires d <= |tentative| && (last.Some? ==> |last.value| == d)
  {
    && |iter| <= d && iter <= tentative && minPlen <= |iter|
    && (last.Some? && |iter| == minPlen ==> Less(tentative[..d], last.value))
  }

  /** The guesses are held to the candidates: the count of the desired length is not cut off, and the
      search does not start in an empty trie with less than all prefixes in the set. */
  ghost predicate KeptToSet(S: set<Bits>, pool: Bits, limit: nat, c: Subset)
    requires Bounded(S)
  {
    && !Saturated(Avail(S, pool), c.plen, limit)
    && (c.overflow == 0 || !EmptyWithDirection(S, |pool|, FirstLen(|pool|, c.plen)))
  }

  /** A taken tentative prefix is a candidate. */
  lemma TakenIsCandidate(S: set<Bits>, pool: Bits, limit: nat, c: Subset, last: Option<Bits>, iter: Bits,
                         tentative: Bits)
    requires Bounded(S) && Candidates(Avail(S, pool), limit, c) && c.found > 0 && limit <= COUNT_MAX
    requires KeptToSet(S, pool, limit, c) && IsLast(Avail(S, pool), c, last) && pool <= tentative
    requires |pool| <= c.plen <= |tentative|
    requires !EmptyWithDirection(S, |pool|, FirstLen(|pool|, c.plen)) ==> iter in Avail(S, pool)
    requires Takes(iter, tentative, c.min, c.plen, last) && Free(S, tentative[..c.plen])
    ensures IsCandidate(Avail(S, pool), c, tentative[..c.plen])
  {
    var avail, x := Avail(S, pool), tentative[..c.plen];
    AvailIsDisjoint(S, pool);
    if EmptyWithDirection(S, |pool|, FirstLen(|pool|, c.plen)) {
      WholeSpace(S, pool, c.min);
      GuessIsCandidate(avail, limit, c, last, [], x);
    } else {
      GuessIsCandidate(avail, limit, c, last, iter, x);
    }
  }

  /** A candidate is taken. */
  lemma CandidateIsTaken(S: set<Bits>, pool: Bits, limit: nat, c: Subset, last: Option<Bits>, iter: Option<Bits>,
                         tentative: Bits)
    requires Bounded(S) && Candidates(Avail(S, pool), limit, c) && c.found > 0 && limit <= COUNT_MAX
    requires IsLast(Avail(S, pool), c, last) && |pool| <= c.plen <= |tentative| && tentative[..|pool|] == pool
    requires IsFirst(S, tentative, |pool|, c.plen, iter)
    requires IsCandidate(Avail(S, pool), c, tentative[..c.plen])
    ensures iter.Some? && Takes(iter.value, tentative, c.min, c.plen, last)
  {
    AvailIsDisjoint(S, pool);
    var a := CandidateIsBelow(Avail(S, pool), limit, c, last, tentative[..c.plen]);
    if EmptyWithDirection(S, |pool|, FirstLen(|pool|, c.plen)) {
      WholeSpace(S, pool, c.min);
    }
  }

  /** With nothing assigned the whole pool is available. */
  lemma WholeSpace(S: set<Bits>, pool: Bits, min: nat)
    requires S == {} && pool == [] && Bounded(S) && CountOf(Avail(S, pool), min) > 0
    ensures Avail(S, pool) == [[]] && min == 0
  {
    assert !Covered(S, pool) && !Split(S, pool);
    var a := SomeOfLength(Avail(S, pool), min);
  }

  /** Pseudo-random tentatives (src/pa_rules.c:302-339) */
  method TryGuesses(t: Btrie, guesses: seq<Bits>, pool: Bits, subplen: nat, limit: nat, c: Subset, last: Option<Bits>,
                    accept: Bits -> bool, ghost S: set<Bits>) returns (r: Option<Bits>)
    requires Holds128(t, S) && |pool| == PREFIX_BITS && subplen <= c.plen <= PREFIX_BITS && limit <= COUNT_MAX
    requires Candidates(Avail(S, pool[..subplen]), limit, c) && c.found > 0
    requires IsLast(Avail(S, pool[..subplen]), c, last)
    requires forall i | 0 <= i < |guesses| :: |guesses[i]| == PREFIX_BITS && guesses[i][..subplen] == pool[..subplen]
    ensures r.Some? ==> Assignable(S, pool[..subplen], c.plen, r.value) && accept(r.value)
    ensures r.Some? && KeptToSet(S, pool[..subplen], limit, c) ==> IsCandidate(Avail(S, pool[..subplen]), c, r.value)
    ensures GuessTaken(Avail(S, pool[..subplen]), c, guesses, accept, r)
  {
    for i := 0 to |guesses|
      invariant NoGuess(Avail(S, pool[..subplen]), c, guesses, i, accept)
    {
      r := TryGuess(t, guesses[i], pool, subplen, limit, c, last, accept, S);
      if r.Some? {
        return;
      }
      NoGuessMore(Avail(S, pool[..subplen]), c, guesses, i, accept);
    }
    return None;
  }

  /** One of them (src/pa_rules.c:310-338) */
  method TryGuess(t: Btrie, tentative: Bits, pool: Bits, subplen: nat, limit: nat, c: Subset, last: Option<Bits>,
                  accept: Bits -> bool, ghost S: set<Bits>) returns (r: Option<Bits>)
    requires Holds128(t, S) && |pool| == PREFIX_BITS && subplen <= c.plen <= PREFIX_BITS && limit <= COUNT_MAX
    requires Candidates(Avail(S, pool[..subplen]), limit, c) && c.found > 0
    requires IsLast(Avail(S, pool[..subplen]), c, last)
    requires |tentative| == PREFIX_BITS && tentative[..subplen] == pool[..subplen]
    ensures r.Some? ==> Assignable(S, pool[..subplen], c.plen, r.value) && accept(r.value) && r.value <= tentative
    ensures r.Some? && KeptToSet(S, pool[..subplen], limit, c) ==> IsCandidate(Avail(S, pool[..subplen]), c, r.value)
    ensures r.None? ==>
      !(IsCandidate(Avail(S, pool[..subplen]), c, tentative[..c.plen]) && accept(tentative[..c.plen]))
  {
    var iter := FirstFree(t, tentative, subplen, c.plen, S);
    var x := tentative[..c.plen];
    if IsCandidate(Avail(S, pool[..subplen]), c, x) {
      CandidateIsTaken(S, pool[..subplen], limit, c, last, iter, tentative);
    }
    if iter.None? || !Takes(iter.value, tentative, c.min, c.plen, last) || !accept(x) {
      return None;
    }
    assert iter.value <= x && pool[..subplen] <= x && pool[..subplen] <= tentative;
    FreeExtends(S, iter.value, x);
    if KeptToSet(S, pool[..subplen], limit, c) {
      TakenIsCandidate(S, pool[..subplen], limit, c, last, iter.value, tentative);
    }
    return Some(x);
  }

  lemma NoGuessMore(avail: seq<Bits>, c: Subset, guesses: seq<Bits>, i: nat, accept: Bits -> bool)
    requires i < |guesses| && NoGuess(avail, c, guesses, i, accept) && c.plen <= |guesses[i]|
    requires !(IsCandidate(avail, c, guesses[i][..c.plen]) && accept(guesses[i][..c.plen]))
    ensures NoGuess(avail, c, guesses, i + 1, accept)
  {
  }

  /** None of the first k guesses is a candidate that is accepted. */
  ghost predicate NoGuess(avail: seq<Bits>, c: Subset, guesses: seq<Bits>, k: nat, accept: Bits -> bool)
    requires k <= |guesses|
  {
    forall i | 0 <= i < k && c.plen <= |guesses[i]| ::
      !(IsCandidate(avail, c, guesses[i][..c.plen]) && accept(guesses[i][..c.plen]))
  }

  /** r is a guess, and none before it, or there is none. */
  ghost predicate GuessTaken(avail: seq<Bits>, c: Subset, guesses: seq<Bits>, accept: Bits -> bool, r: Option<Bits>) {
    if r.None? then NoGuess(avail, c, guesses, |guesses|, accept)
    else exists i | 0 <= i < |guesses| :: r.value <= guesses[i] && NoGuess(avail, c, guesses, i, accept)
  }

  /** r is the first drawn candidate that is accepted. */
  ghost predicate DrawTaken(avail: seq<Bits>, c: Subset, draws: seq<nat>, accept: Bits -> bool, r: Bits) {
    c.found > 0 && exists i | 0 <= i < |draws| ::
      Picks(avail, c, draws[i] % c.found, r) && RefusesAll(avail, c, draws, i, accept)
  }

  /** Candidate number n is not accepted. */
  ghost predicate Refused(avail: seq<Bits>, c: Subset, n: nat, accept: Bits -> bool) {
    forall x | Picks(avail, c, n, x) :: !accept(x)
  }

  /** None of the first k drawn candidates is accepted. */
  ghost predicate RefusesAll(avail: seq<Bits>, c: Subset, draws: seq<nat>, k: nat, accept: Bits -> bool)
    requires k <= |draws|
  {
    c.found > 0 && forall i | 0 <= i < k :: Refused(avail, c, draws[i] % c.found, accept)
  }

  lemma RefusedOne(avail: seq<Bits>, c: Subset, n: nat, x: Bits, accept: Bits -> bool)
    requires Picks(avail, c, n, x) && !accept(x)
    ensures Refused(avail, c, n, accept)
  {
  }

  /** Random tentatives (src/pa_rules.c:342-353): a candidate, or none of the drawn ones is accepted */
  method TryDraws(avail: seq<Bits>, draws: seq<nat>, c: Subset, accept: Bits -> bool, pool: Bits, limit: nat,
                  ghost S: set<Bits>) returns (r: Option<Bits>)
    requires Bounded(S) && avail == Avail(S, pool) && limit <= COUNT_MAX && Candidates(avail, limit, c) && c.found > 0
    ensures r.Some? ==> Assignable(S, pool, c.plen, r.value) && accept(r.value) && IsCandidate(avail, c, r.value)
    ensures if r.None? then RefusesAll(avail, c, draws, |draws|, accept)
            else DrawTaken(avail, c, draws, accept, r.value)
  {
    for i := 0 to |draws|
      invariant RefusesAll(avail, c, draws, i, accept)
    {
      var n: nat := draws[i] % c.found;
      r := Draw(avail, n, c, accept, pool, limit, S);
      if r.Some? {
        DrawnIsTaken(avail, c, draws, i, n, accept, r.value);
        return;
      }
      RefusesOneMore(avail, c, draws, i, n, accept);
    }
    return None;
  }

  lemma DrawnIsTaken(avail: seq<Bits>, c: Subset, draws: seq<nat>, i: nat, n: nat, accept: Bits -> bool, r: Bits)
    requires i < |draws| && c.found > 0 && n == draws[i] % c.found && Picks(avail, c, n, r)
    requires RefusesAll(avail, c, draws, i, accept)
    ensures DrawTaken(avail, c, draws, accept, r)
  {
  }

  lemma RefusesOneMore(avail: seq<Bits>, c: Subset, draws: seq<nat>, i: nat, n: nat, accept: Bits -> bool)
    requires i < |draws| && c.found > 0 && n == draws[i] % c.found && Refused(avail, c, n, accept)
    requires RefusesAll(avail, c, draws, i, accept)
    ensures RefusesAll(avail, c, draws, i + 1, accept)
  {
  }

  /** One of them (src/pa_rules.c:343-350) */
  method Draw(avail: seq<Bits>, id: nat, c: Subset, accept: Bits -> bool, pool: Bits, limit: nat, ghost S: set<Bits>)
    returns (r: Option<Bits>)
    requires Bounded(S) && avail == Avail(S, pool) && limit <= COUNT_MAX && Candidates(avail, limit, c) && id < c.found
    ensures r.Some? ==> Assignable(S, pool, c.plen, r.value) && accept(r.value) && IsCandidate(avail, c, r.value)
    ensures if r.None? then Refused(avail, c, id, accept) else Picks(avail, c, id, r.value)
  {
    FoundHasRoom(avail, limit, c);
    PicksAreAssignable(S, pool, c.plen, c.min, id);
    r := CandidatePick(avail, id, c.plen, c.min, c.plen);
    assert Picks(avail, c, id, r.value);
    if !accept(r.value) {
      RefusedOne(avail, c, id, r.value, accept);
      return None;
    }
  }

  lemma FoundHasRoom(avail: seq<Bits>, limit: nat, c: Subset)
    requires Candidates(avail, limit, c) && limit <= COUNT_MAX
    ensures c.found <= COUNT_MAX && (c.found > 0 ==> c.found <= Room(avail, c.plen, c.min))
  {
    if c.found > 0 && Saturated(avail, c.plen, limit) {
      RoomByLength(avail, c.plen, c.plen);
    }
  }

  /** Whether the set the rule chooses from is the one the rule is to choose from: the candidates
      for the desired length in what is available of the pool */
  ghost predicate ChoosesFrom(S: set<Bits>, pool: Bits, desired: seq<nat> -> nat, setSize: nat, c: Subset)
    requires Bounded(S)
  {
    c.plen == desired(CountsOf(Avail(S, pool), PREFIX_BITS + 1)) && Candidates(Avail(S, pool), setSize, c)
  }

  /** Count, ask for the length, and delimit the candidates (src/pa_rules.c:283-290, src/pa_rules.c:413-420). */
  method Delimit(t: Btrie, pool: Bits, subplen: nat, desired: seq<nat> -> nat, setSize: nat, ghost S: set<Bits>)
    returns (avail: seq<Bits>, c: Subset)
    requires Holds128(t, S) && |pool| == PREFIX_BITS && subplen <= PREFIX_BITS && setSize <= COUNT_MAX
    requires forall count :: desired(count) <= PREFIX_BITS
    ensures avail == Avail(S, pool[..subplen]) && ChoosesFrom(S, pool[..subplen], desired, setSize, c)
    ensures forall x | x in avail :: pool[..subplen] <= x && Free(S, x)
    ensures c.found == 0 <==> setSize == 0 || FreeOfLength(S, pool[..subplen], c.plen) == {}
  {
    avail := ListAvailable(t, pool, subplen, S);
    var count := new nat[PREFIX_BITS + 1];
    PrefixCount(avail, count);
    CountsAreOne(avail, count[..]);
    var plen := desired(count[..]);
    RoomIsFreeCount(S, pool[..subplen], plen);
    c := CandidateSubset(count[..], plen, setSize, avail);
  }

  /** pa_rule_random_match (src/pa_rules.c:255-358), up to the overriding of other assignments.
      `guesses` are the outputs of pa_rule_prefix_prandom, `draws` those of the random generator. */
  method RandomMatch(t: Btrie, backoff: bool, pool: Bits, subplen: nat, desired: seq<nat> -> nat, setSize: nat,
                     guesses: seq<Bits>, draws: seq<nat>, accept: Bits -> bool, ghost S: set<Bits>)
    returns (r: Choice, ghost c: Subset)
    requires Holds128(t, S) && |pool| == PREFIX_BITS && subplen <= PREFIX_BITS && setSize <= COUNT_MAX
    requires forall count :: desired(count) <= PREFIX_BITS
    requires forall i | 0 <= i < |guesses| :: |guesses[i]| == PREFIX_BITS && guesses[i][..subplen] == pool[..subplen]
    ensures backoff ==> ChoosesFrom(S, pool[..subplen], desired, setSize, c)
    ensures r.Chosen? ==> Assignable(S, pool[..subplen], c.plen, r.prefix) && accept(r.prefix)
    ensures r.Chosen? && KeptToSet(S, pool[..subplen], setSize, c) ==>
      IsCandidate(Avail(S, pool[..subplen]), c, r.prefix)
    ensures r.Chosen? ==>
      || GuessTaken(Avail(S, pool[..subplen]), c, guesses, accept, Some(r.prefix))
      || (GuessTaken(Avail(S, pool[..subplen]), c, guesses, accept, None)
          && DrawTaken(Avail(S, pool[..subplen]), c, draws, accept, r.prefix))
    ensures r.Rejected? ==>
      && GuessTaken(Avail(S, pool[..subplen]), c, guesses, accept, None)
      && RefusesAll(Avail(S, pool[..subplen]), c, draws, |draws|, accept)
    ensures r.Wait? <==> !backoff
    ensures r.NoCandidates? <==> backoff && (setSize == 0 || FreeOfLength(S, pool[..subplen], c.plen) == {})
  {
    if !backoff {
      return Wait, Subset(0, 0, 0, 0);
    }
    var avail, sub := Delimit(t, pool, subplen, desired, setSize, S);
    if sub.found == 0 {
      return NoCandidates, sub;
    }
    PoolIsShort(avail, pool[..subplen], sub.min);
    var last := LastCandidate(avail, setSize, sub);
    var guess := TryGuesses(t, guesses, pool, subplen, setSize, sub, last, accept, S);
    if guess.Some? {
      return Chosen(guess.value), sub;
    }
    var draw := TryDraws(avail, draws, sub, accept, pool[..subplen], setSize, S);
    if draw.Some? {
      return Chosen(draw.value), sub;
    }
    return Rejected, sub;
  }

  lemma PoolIsShort(avail: seq<Bits>, pool: Bits, min: nat)
    requires (forall x | x in avail :: pool <= x) && CountOf(avail, min) > 0
    ensures |pool| <= min
  {
    var a := SomeOfLength(avail, min);
  }

  /** The end of the candidates of the shortest length (src/pa_rules.c:303-308) */
  method LastCandidate(avail: seq<Bits>, limit: nat, c: Subset) returns (last: Option<Bits>)
    requires Candidates(avail, limit, c) && c.found > 0 && limit <= COUNT_MAX
    ensures IsLast(avail, c, last)
  {
    if c.overflow == 0 {
      return None;
    }
    OverflowPicks(avail, c.plen, c.min, c.overflow);
    last := CandidatePick(avail, c.overflow, c.plen, c.min, c.min);
    PickIsIn(Order(avail, c.min, c.min), c.overflow, c.plen);
  }

  /** With nothing assigned, the whole space as the pool and a set that does not hold all prefixes, the
      highest prefix passes the test for a guess, and it is no candidate. */
  lemma GuessBeyondSet(limit: nat, c: Subset, last: Option<Bits>, ones: Bits)
    requires Bounded({}) && Candidates(Avail({}, []), limit, c) && c.found > 0 && limit <= COUNT_MAX && c.overflow > 0
    requires IsLast(Avail({}, []), c, last) && 0 < c.plen <= |ones| && forall i | 0 <= i < |ones| :: ones[i]
    ensures ListsAhead({}, ones, 0, c.plen, [[true]]) && Takes([true], ones, c.min, c.plen, last)
    ensures !IsCandidate(Avail({}, []), c, ones[..c.plen])
  {
    WholeSpace({}, [], c.min);
    assert [true] <= ones;
    forall n: nat | n < c.found ensures !Picks([[]], c, n, ones[..c.plen]) {
      HighestIsNotPicked(limit, c, n, ones[..c.plen]);
    }
  }

  lemma HighestIsNotPicked(limit: nat, c: Subset, n: nat, ones: Bits)
    requires Candidates([[]], limit, c) && c.found > 0 && limit <= COUNT_MAX && c.overflow > 0 && c.min == 0
    requires n < c.found && |ones| == c.plen && forall i | 0 <= i < |ones| :: ones[i]
    ensures !Picks([[]], c, n, ones)
  {
    OrderOfWhole(c.plen);
    Pow2Of32();
    UnsplitRoom(c.plen);
    NthIsOrdered([], n, c.found, c.plen);
    NothingAboveOnes(ones, Nth([], c.found, c.plen));
  }

  lemma OrderOfWhole(d: nat)
    ensures Order([[]], 0, d) == [[]]
  {
    var all: seq<Bits> := [[]];
    assert all[1..] == [];
    assert all[0] == [] && OfLengths(all[1..], 1, d) == [] && OfLengths(all[1..], 0, 0) == [];
    assert OfLengths(all, 1, d) == [] + [];
    assert OfLengths(all, 0, 0) == [[]] + [];
  }

  lemma UnsplitRoom(d: nat)
    ensures Room([[]], d, 0) == Pow2(d)
  {
    var all: seq<Bits> := [[]];
    assert all[1..] == [];
  }

  lemma {:induction false} NothingAboveOnes(ones: Bits, x: Bits)
    requires |x| == |ones| && forall i | 0 <= i < |ones| :: ones[i]
    ensures !Less(ones, x)
  {
    if ones != [] {
      NothingAboveOnes(ones[1..], x[1..]);
    }
  }

  lemma FoundOfSaturated(avail: seq<Bits>, limit: nat, c: Subset)
    requires Candidates(avail, limit, c) && Saturated(avail, c.plen, limit)
    ensures c.found == COUNT_MAX < Room(avail, c.plen, c.plen) && c.min == c.plen
  {
    RoomByLength(avail, c.plen, c.plen);
    RoomShrinks(avail, c.plen, 0, c.plen);
  }

  /** With a count that is cut off at the size of the set, a guess is taken that is no candidate. */
  lemma GuessBeyondCount(S: set<Bits>, pool: Bits, limit: nat, c: Subset) returns (x: Bits)
    requires Bounded(S) && Candidates(Avail(S, pool), limit, c) && Saturated(Avail(S, pool), c.plen, limit)
    ensures x in Avail(S, pool) && |x| == c.plen && Takes(x, x, c.min, c.plen, None)
    ensures !IsCandidate(Avail(S, pool), c, x)
  {
    var avail, d := Avail(S, pool), c.plen;
    FoundOfSaturated(avail, limit, c);
    PicksAreAssignable(S, pool, d, d, COUNT_MAX);
    x := Pick(Order(avail, d, d), COUNT_MAX, d).value;
    var a := ContainerInAny(avail, d, d, COUNT_MAX, x);
    assert a == x;
    forall n: nat | n < c.found ensures !Picks(avail, c, n, x) {
      PicksAreDistinct(S, pool, d, d, n, COUNT_MAX);
    }
  }

  // ---------- by Hamming distance ----------

  /** pa_rule_hamming_match (src/pa_rules.c:389-483), up to the overriding of other assignments;
      `hammer` is the output of pa_rule_prefix_prandom. */
  method HammingMatch(t: Btrie, backoff: bool, pool: Bits, subplen: nat, desired: seq<nat> -> nat, setSize: nat,
                      hammer: Bits, ghost S: set<Bits>) returns (r: Choice, ghost c: Subset)
    requires Holds128(t, S) && |pool| == PREFIX_BITS == |hammer| && subplen <= PREFIX_BITS && setSize <= COUNT_MAX
    requires forall count :: desired(count) <= PREFIX_BITS
    ensures backoff ==> ChoosesFrom(S, pool[..subplen], desired, setSize, c)
    ensures r.Chosen? ==> Assignable(S, pool[..subplen], c.plen, r.prefix)
    ensures r.Wait? <==> !backoff
    ensures r.NoCandidates? <==> backoff && (setSize == 0 || FreeOfLength(S, pool[..subplen], c.plen) == {})
    ensures !r.Rejected?
    ensures r.Chosen? ==> c.plen <= PREFIX_BITS && IsClosest(Avail(S, pool[..subplen]), c, hammer, r.prefix)
    ensures r.Chosen? && c.overflow == 0 && !Saturated(Avail(S, pool[..subplen]), c.plen, setSize) ==>
      IsCandidate(Avail(S, pool[..subplen]), c, r.prefix)
  {
    if !backoff {
      return Wait, Subset(0, 0, 0, 0);
    }
    var avail, sub := Delimit(t, pool, subplen, desired, setSize, S);
    if sub.found == 0 {
      return NoCandidates, sub;
    }
    ghost var a := SomeOfLength(avail, sub.min);
    var best := HammingLoop(avail, hammer, sub.plen, sub.min, sub.overflow);
    OfferedIsAssignable(avail, pool[..subplen], S, sub.plen, sub.min, sub.overflow, best.prefix);
    BestIsClosest(avail, setSize, sub, hammer, best);
    AvailIsDisjoint(S, pool[..subplen]);
    BestIsCandidate(avail, setSize, sub, hammer, best);
    return Chosen(best.prefix), sub;
  }

  lemma OfferedIsAssignable(avail: seq<Bits>, pool: Bits, S: set<Bits>, d: nat, minPlen: nat, overflow: nat, x: Bits)
    requires forall a | a in avail :: pool <= a && Free(S, a)
    requires exists i | 0 <= i < |avail| :: OfferedAt(avail, i, d, minPlen, overflow, x)
    ensures Assignable(S, pool, d, x)
  {
    var i :| 0 <= i < |avail| && OfferedAt(avail, i, d, minPlen, overflow, x);
    assert avail[i] in avail;
    ExtensionIsAssignable(S, pool, d, avail[i], x);
  }
}
