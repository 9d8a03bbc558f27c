/**
  What the Hamming rule chooses among, and its choice (src/pa_rules.c:436-478).
 */
module PaHamming {
  import opened Wrappers
  import opened FreeSpace
  import opened Bytes
  import opened Hamming
  import opened PaCandidates

  // a pa_prefix has 128 bits (PA_RAND_MAX_PLEN)
  const PREFIX_BITS := 128

  // ---------- the choice ----------

  /** In how many of the first |a| bits a differs from the hammer */
  function Off(a: Bits, hammer: Bits): nat
    requires |a| <= |hammer|
  {
    Distance(a, hammer[..|a|])
  }

  /** An available prefix, completed with the bits of the hammer */
  function Completed(a: Bits, hammer: Bits, d: nat): (r: Bits)
    requires |a| <= d <= |hammer|
    ensures |r| == d && a <= r
  {
    a + hammer[|a|..d]
  }

  /** No completion of a is closer to the hammer than the one with its own bits. */
  lemma CompletedIsClosest(a: Bits, hammer: Bits, d: nat, x: Bits)
    requires |a| <= d <= |hammer| && a <= x && |x| == d
    ensures Off(Completed(a, hammer, d), hammer) == Off(a, hammer) <= Off(x, hammer)
  {
    var n := |a|;
    assert hammer[..d] == hammer[..n] + hammer[n..d] && x == a + x[n..];
    DistanceInParts(a, hammer[..n], hammer[n..d], hammer[n..d]);
    DistanceInParts(a, hammer[..n], x[n..], hammer[n..d]);
    DistanceZero(hammer[n..d], hammer[n..d]);
  }

  /** An available prefix of the shortest length, completed within the first `overflow` candidates
      (src/pa_rules.c:453-457) */
  function Limited(a: Bits, hammer: Bits, d: nat, overflow: nat): (r: Bits)
    requires |a| <= d <= |hammer| && 0 < overflow
    ensures |r| == d && a <= r
  {
    a + Closest(Nth(a, overflow - 1, d)[|a|..], hammer[|a|..d])
  }

  lemma {:induction false} DistanceIsSmall(a: Bits, b: Bits)
    requires |a| == |b|
    ensures Distance(a, b) <= |a|
  {
    if a != [] {
      DistanceIsSmall(a[1..], b[1..]);
    }
  }

  /** The best completion so far */
  datatype Best = Best(distance: nat, prefix: Bits)

  /** How many candidates an available prefix holds, as the Hamming rule counts them */
  function Held(a: Bits, d: nat): nat
    requires |a| <= d
  {
    if d - |a| >= 32 then 0x8000_0000 else Pow2(d - |a|)
  }

  /** What is left of the overflow after an available prefix */
  function Left(a: Bits, d: nat, minPlen: nat, overflow: nat): nat
    requires |a| <= d
  {
    if overflow == 0 || |a| != minPlen then overflow
    else if Held(a, d) >= overflow then 0
    else overflow - Held(a, d)
  }

  /** The completions of a that the Hamming rule chooses among: all, except that where the overflow
      runs out only the first ones count. */
  ghost predicate Offered(a: Bits, d: nat, minPlen: nat, overflow: nat, x: Bits)
    requires |a| <= d
  {
    && a <= x && |x| == d
    && (overflow > 0 && |a| == minPlen && Held(a, d) >= overflow ==> !Less(Nth(a, overflow - 1, d)[|a|..], x[|a|..]))
  }

  /** One available prefix (src/pa_rules.c:440-478): the closest of its offered completions, its
      distance, and what is left of the overflow */
  method HammingStep(a: Bits, hammer: Bits, d: nat, minPlen: nat, overflow: nat) returns (x: Bits, hd: nat, left: nat)
    requires |a| <= d <= |hammer|
    ensures Offered(a, d, minPlen, overflow, x) && hd == Off(x, hammer) && left == Left(a, d, minPlen, overflow)
    ensures forall y | Offered(a, d, minPlen, overflow, y) :: hd <= Off(y, hammer)
  {
    left := overflow;
    if overflow > 0 && |a| == minPlen {
      if Held(a, d) >= overflow {
        x := Limited(a, hammer, d, overflow);
        hd := Off(a, hammer) + Distance(x[|a|..], hammer[|a|..d]);
        LimitedIsOffered(a, hammer, d, overflow);
        OffInParts(a, hammer, d, x);
        forall y | Offered(a, d, minPlen, overflow, y) ensures hd <= Off(y, hammer) {
          LimitedIsClosest(a, hammer, d, overflow, y);
        }
        return x, hd, 0;
      }
      left := overflow - Held(a, d);
    }
    x, hd := Completed(a, hammer, d), Off(a, hammer);
    CompletedIsClosest(a, hammer, d, x);
    forall y | Offered(a, d, minPlen, overflow, y) ensures hd <= Off(y, hammer) {
      CompletedIsClosest(a, hammer, d, y);
    }
  }

  lemma OffInParts(a: Bits, hammer: Bits, d: nat, x: Bits)
    requires |a| <= d <= |hammer| && a <= x && |x| == d
    ensures Off(x, hammer) == Off(a, hammer) + Distance(x[|a|..], hammer[|a|..d])
  {
    assert x == a + x[|a|..] && hammer[..d] == hammer[..|a|] + hammer[|a|..d];
    DistanceInParts(a, hammer[..|a|], x[|a|..], hammer[|a|..d]);
  }

  lemma LimitedIsOffered(a: Bits, hammer: Bits, d: nat, overflow: nat)
    requires |a| <= d <= |hammer| && 0 < overflow
    ensures !Less(Nth(a, overflow - 1, d)[|a|..], Limited(a, hammer, d, overflow)[|a|..])
  {
    var max, target := Nth(a, overflow - 1, d)[|a|..], hammer[|a|..d];
    ClosestIsWithin(max, target);
    assert Limited(a, hammer, d, overflow)[|a|..] == Closest(max, target);
  }

  lemma LimitedIsClosest(a: Bits, hammer: Bits, d: nat, overflow: nat, y: Bits)
    requires |a| <= d <= |hammer| && 0 < overflow && a <= y && |y| == d
    requires !Less(Nth(a, overflow - 1, d)[|a|..], y[|a|..])
    ensures Off(Limited(a, hammer, d, overflow), hammer) <= Off(y, hammer)
  {
    var x := Limited(a, hammer, d, overflow);
    assert x[|a|..] == Closest(Nth(a, overflow - 1, d)[|a|..], hammer[|a|..d]);
    ClosestIsBest(Nth(a, overflow - 1, d)[|a|..], hammer[|a|..d], y[|a|..]);
    OffInParts(a, hammer, d, x);
    OffInParts(a, hammer, d, y);
  }

  /** What is left of the overflow before the i-th available prefix */
  function LeftAt(avail: seq<Bits>, i: nat, d: nat, minPlen: nat, overflow: nat): nat
    requires i <= |avail|
  {
    if i == 0 then overflow
    else
      var before := LeftAt(avail, i - 1, d, minPlen, overflow);
      if minPlen <= |avail[i - 1]| <= d then Left(avail[i - 1], d, minPlen, before) else before
  }

  /** x is one of the prefixes that the rule chooses among. */
  ghost predicate OfferedAt(avail: seq<Bits>, i: nat, d: nat, minPlen: nat, overflow: nat, x: Bits)
    requires i < |avail|
  {
    minPlen <= |avail[i]| <= d && Offered(avail[i], d, minPlen, LeftAt(avail, i, d, minPlen, overflow), x)
  }

  /** All that the first j available prefixes offer is farther from the hammer. */
  ghost predicate FartherBefore(avail: seq<Bits>, j: nat, hammer: Bits, d: nat, minPlen: nat, overflow: nat,
                                distance: nat)
    requires j <= |avail| && d <= |hammer|
  {
    forall k, x | 0 <= k < j && OfferedAt(avail, k, d, minPlen, overflow, x) :: distance < Off(x, hammer)
  }

  /** Nothing offered by the first i available prefixes is closer to the hammer. */
  ghost predicate BestOf(avail: seq<Bits>, i: nat, hammer: Bits, d: nat, minPlen: nat, overflow: nat, best: Best)
    requires i <= |avail| && d <= |hammer|
  {
    && (forall j, x | 0 <= j < i && OfferedAt(avail, j, d, minPlen, overflow, x) :: best.distance <= Off(x, hammer))
    && (best.distance < 200 ==> exists j | 0 <= j < i ::
          && OfferedAt(avail, j, d, minPlen, overflow, best.prefix)
          && FartherBefore(avail, j, hammer, d, minPlen, overflow, best.distance))
    && (best.distance < 200 ==> |best.prefix| == d && best.distance == Off(best.prefix, hammer))
  }

  /** The loop over the available prefixes: one of the offered prefixes is found, and none is closer. */
  method HammingLoop(avail: seq<Bits>, hammer: Bits, d: nat, minPlen: nat, overflow: nat) returns (best: Best)
    requires d <= PREFIX_BITS == |hammer|
    requires exists i | 0 <= i < |avail| :: minPlen <= |avail[i]| <= d
    ensures best.distance < 200 && BestOf(avail, |avail|, hammer, d, minPlen, overflow, best)
  {
    best := Best(200, []);
    var left: nat := overflow;
    for i := 0 to |avail|
      invariant left == LeftAt(avail, i, d, minPlen, overflow) && BestOf(avail, i, hammer, d, minPlen, overflow, best)
      invariant (exists j | 0 <= j < i :: minPlen <= |avail[j]| <= d) ==> best.distance < 200
    {
      if minPlen <= |avail[i]| <= d {
        ghost var before := left;
        var x, hd;
        x, hd, left := HammingStep(avail[i], hammer, d, minPlen, left);
        DistanceIsSmall(x, hammer[..d]);
        BestGrows(avail, i, hammer, d, minPlen, overflow, best, x, hd);
        if hd < best.distance {
          best := Best(hd, x);
        }
      }
    }
  }

  lemma BestGrows(avail: seq<Bits>, i: nat, hammer: Bits, d: nat, minPlen: nat, overflow: nat, best: Best, x: Bits,
                  hd: nat)
    requires i < |avail| && d <= |hammer| && BestOf(avail, i, hammer, d, minPlen, overflow, best)
    requires OfferedAt(avail, i, d, minPlen, overflow, x) && hd == Off(x, hammer)
    requires forall y | OfferedAt(avail, i, d, minPlen, overflow, y) :: hd <= Off(y, hammer)
    ensures BestOf(avail, i + 1, hammer, d, minPlen, overflow, if hd < best.distance then Best(hd, x) else best)
  {
    var now := if hd < best.distance then Best(hd, x) else best;
    forall j, y | 0 <= j < i + 1 && OfferedAt(avail, j, d, minPlen, overflow, y)
      ensures now.distance <= Off(y, hammer)
    {
    }
    if now.distance < 200 {
      if hd < best.distance {
        assert FartherBefore(avail, i, hammer, d, minPlen, overflow, hd);
      } else {
        var j :| 0 <= j < i && OfferedAt(avail, j, d, minPlen, overflow, best.prefix)
                 && FartherBefore(avail, j, hammer, d, minPlen, overflow, best.distance);
      }
    }
  }

  /** Without overflow all prefixes of the desired length in the available ones are offered. */
  lemma AllOffered(avail: seq<Bits>, i: nat, d: nat, minPlen: nat, x: Bits)
    requires i < |avail| && minPlen <= |avail[i]| && avail[i] <= x && |x| == d
    ensures OfferedAt(avail, i, d, minPlen, 0, x)
  {
    NoneLeft(avail, i, d, minPlen);
  }

  lemma {:induction false} NoneLeft(avail: seq<Bits>, i: nat, d: nat, minPlen: nat)
    requires i <= |avail|
    ensures LeftAt(avail, i, d, minPlen, 0) == 0
  {
    if i > 0 {
      NoneLeft(avail, i - 1, d, minPlen);
    }
  }

  // ---------- the candidates are offered ----------

  /** The prefixes of the shortest length from the i-th available one on */
  ghost function Shortest(avail: seq<Bits>, i: nat, min: nat, d: nat): (r: seq<Bits>)
    requires i <= |avail| && min <= d
    ensures Within(r, d)
  {
    OfLengthsAre(avail[i..], min, min);
    OfLengths(avail[i..], min, min)
  }

  lemma ShortestStep(avail: seq<Bits>, i: nat, min: nat, d: nat, n: nat)
    requires i < |avail| && min <= d
    ensures Pick(Shortest(avail, i, min, d), n, d) ==
      if |avail[i]| != min then Pick(Shortest(avail, i + 1, min, d), n, d)
      else if n < Size(avail[i], d) then Some(Nth(avail[i], n, d))
      else Pick(Shortest(avail, i + 1, min, d), n - Size(avail[i], d), d)
  {
    var list, rest := Shortest(avail, i, min, d), Shortest(avail, i + 1, min, d);
    ListSteps(avail, i, min, min, []);
    assert rest + [] == rest && list + [] == list;
    if |avail[i]| == min {
      PickStep(list, avail[i], rest, n, d);
    }
  }

  lemma ShortestEnds(avail: seq<Bits>, min: nat, d: nat, n: nat)
    requires min <= d
    ensures Pick(Shortest(avail, |avail|, min, d), n, d).None?
  {
    assert avail[|avail|..] == [];
  }

  /** While the overflow lasts, the first prefixes of the shortest length are offered ... */
  lemma {:induction false} PickedIsOffered(avail: seq<Bits>, i: nat, d: nat, min: nat, overflow: nat, n: nat, x: Bits)
    returns (j: nat)
    requires i <= |avail| && min <= d && overflow < 0x8000_0000
    requires n < LeftAt(avail, i, d, min, overflow) && Pick(Shortest(avail, i, min, d), n, d) == Some(x)
    ensures i <= j < |avail| && OfferedAt(avail, j, d, min, overflow, x)
    decreases |avail| - i
  {
    if i == |avail| {
      ShortestEnds(avail, min, d, n);
      assert false;
    }
    var a, left := avail[i], LeftAt(avail, i, d, min, overflow);
    LeftStep(avail, i, d, min, overflow);
    ShortestStep(avail, i, min, d, n);
    if |a| != min {
      j := PickedIsOffered(avail, i + 1, d, min, overflow, n, x);
    } else {
      if n < Size(a, d) {
        j := i;
        NthIsOffered(a, d, min, left, n);
      } else {
        j := PickedIsOffered(avail, i + 1, d, min, overflow, n - Size(a, d), x);
      }
    }
  }

  lemma {:induction false} LeftShrinks(avail: seq<Bits>, i: nat, d: nat, min: nat, overflow: nat)
    requires i <= |avail|
    ensures LeftAt(avail, i, d, min, overflow) <= overflow
  {
    if i > 0 {
      LeftShrinks(avail, i - 1, d, min, overflow);
    }
  }

  /** How the overflow goes down */
  lemma LeftStep(avail: seq<Bits>, i: nat, d: nat, min: nat, overflow: nat)
    requires i < |avail| && min <= d && overflow < 0x8000_0000
    ensures var left, next := LeftAt(avail, i, d, min, overflow), LeftAt(avail, i + 1, d, min, overflow);
            if |avail[i]| != min then next == left
            else if left <= Size(avail[i], d) then next == 0
            else next == left - Size(avail[i], d)
  {
    LeftShrinks(avail, i, d, min, overflow);
    if |avail[i]| == min {
      HeldIsSize(avail[i], d);
    }
  }

  lemma HeldIsSize(a: Bits, d: nat)
    requires |a| <= d
    ensures Held(a, d) <= Size(a, d) && (Held(a, d) == Size(a, d) || Held(a, d) == 0x8000_0000)
  {
    Pow2Of32();
  }

  lemma NthIsOffered(a: Bits, d: nat, min: nat, left: nat, n: nat)
    requires |a| == min <= d && n < left && n < Size(a, d)
    ensures Offered(a, d, min, left, Nth(a, n, d))
  {
    var x, y := Nth(a, n, d), Nth(a, left - 1, d);
    HeldIsSize(a, d);
    if Held(a, d) >= left {
      LessIsTotal(x, y);
      if n < left - 1 {
        NthIsOrdered(a, n, left - 1, d);
      }
      LessInTail(a, d, left - 1, x);
    }
  }

  /** ... and these are candidates. */
  lemma {:induction false} OfferedIsPicked(avail: seq<Bits>, i: nat, j: nat, d: nat, min: nat, overflow: nat, x: Bits)
    returns (n: nat)
    requires i <= j < |avail| && min <= d && overflow < 0x8000_0000 && LeftAt(avail, j, d, min, overflow) > 0
    requires |avail[j]| == min && OfferedAt(avail, j, d, min, overflow, x)
    ensures n < LeftAt(avail, i, d, min, overflow) && Pick(Shortest(avail, i, min, d), n, d) == Some(x)
    decreases j - i
  {
    var a := avail[i];
    if i == j {
      LeftShrinks(avail, i, d, min, overflow);
      n := OfferedIsNth(a, d, min, LeftAt(avail, i, d, min, overflow), x);
    } else {
      LeftStep(avail, i, d, min, overflow);
      n := OfferedIsPicked(avail, i + 1, j, d, min, overflow, x);
      if |a| == min {
        n := n + Size(a, d);
      }
    }
    ShortestStep(avail, i, min, d, n);
  }

  lemma OfferedIsNth(a: Bits, d: nat, min: nat, left: nat, x: Bits) returns (n: nat)
    requires |a| == min <= d && 0 < left < 0x8000_0000 && Offered(a, d, min, left, x)
    ensures n < left && n < Size(a, d) && x == Nth(a, n, d)
  {
    if d <= |a| + 32 {
      n := NarrowIsNth(a, d, min, left, x);
    } else {
      n := WideIsNth(a, d, min, left, x);
    }
  }

  lemma NarrowIsNth(a: Bits, d: nat, min: nat, left: nat, x: Bits) returns (n: nat)
    requires |a| == min <= d <= |a| + 32 && 0 < left < 0x8000_0000 && Offered(a, d, min, left, x)
    ensures n < left && n < Size(a, d) && x == Nth(a, n, d)
  {
    HeldIsSize(a, d);
    n := Value(x[|a|..]);
    assert x == a + x[|a|..];
    NthReachesAll(a, x[|a|..], n, d);
    if Held(a, d) >= left {
      NotBeyond(a, d, left, n, x);
    }
  }

  lemma NotBeyond(a: Bits, d: nat, left: nat, n: nat, x: Bits)
    requires |a| <= d && 0 < left && n < Size(a, d) && a <= x && x == Nth(a, n, d)
    requires !Less(Nth(a, left - 1, d)[|a|..], x[|a|..])
    ensures n < left
  {
    if left - 1 < n {
      NthIsOrdered(a, left - 1, n, d);
      LessInTail(a, d, left - 1, x);
    }
  }

  lemma LessInTail(a: Bits, d: nat, n: nat, x: Bits)
    requires |a| <= d && a <= x && |x| == d
    ensures Less(Nth(a, n, d), x) <==> Less(Nth(a, n, d)[|a|..], x[|a|..])
    ensures Less(x, Nth(a, n, d)) <==> Less(x[|a|..], Nth(a, n, d)[|a|..])
  {
    var y := Nth(a, n, d);
    assert x == a + x[|a|..] && y == a + y[|a|..];
    LessIsTotal(a, a);
    LessInParts(a, a, y[|a|..], x[|a|..]);
    LessInParts(a, a, x[|a|..], y[|a|..]);
  }

  lemma WideIsNth(a: Bits, d: nat, min: nat, left: nat, x: Bits) returns (n: nat)
    requires |a| == min && |a| + 32 < d && 0 < left < 0x8000_0000 && Offered(a, d, min, left, x)
    ensures n < left && n < Size(a, d) && x == Nth(a, n, d)
  {
    Pow2Of32();
    LessInTail(a, d, left - 1, x);
    LessIsTotal(x, Nth(a, left - 1, d));
    if x == Nth(a, left - 1, d) {
      n := left - 1;
    } else {
      n := BelowNth(a, left - 1, d, x);
    }
  }

  /** Every candidate is offered. */
  lemma CandidateIsOffered(avail: seq<Bits>, limit: nat, c: Subset, x: Bits) returns (j: nat)
    requires Candidates(avail, limit, c) && limit <= COUNT_MAX && IsCandidate(avail, c, x)
    ensures j < |avail| && OfferedAt(avail, j, c.plen, c.min, c.overflow, x)
  {
    var n: nat :| n < c.found && Picks(avail, c, n, x);
    NumberIsBelow(avail, limit, c, n);
    if c.overflow > 0 && Total(OfLengths(avail, c.min + 1, c.plen), c.plen) <= n {
      j := LaterIsOffered(avail, c, n, x);
    } else {
      j := LongerIsOffered(avail, c, n, x);
    }
  }

  lemma NumberIsBelow(avail: seq<Bits>, limit: nat, c: Subset, n: nat)
    requires Candidates(avail, limit, c) && limit <= COUNT_MAX && n < c.found
    ensures n < WORDS && Within(OfLengths(avail, c.min + 1, c.plen), c.plen)
    ensures c.overflow > 0 ==> n < Room(avail, c.plen, c.min + 1) + c.overflow && c.overflow <= COUNT_MAX
  {
    Totals(avail, c.min, c.plen);
  }

  lemma LaterIsOffered(avail: seq<Bits>, c: Subset, n: nat, x: Bits) returns (j: nat)
    requires c.min <= c.plen && Picks(avail, c, n, x) && n < Room(avail, c.plen, c.min + 1) + c.overflow
    requires c.overflow <= COUNT_MAX && n < WORDS && Within(OfLengths(avail, c.min + 1, c.plen), c.plen)
    requires Total(OfLengths(avail, c.min + 1, c.plen), c.plen) <= n
    ensures j < |avail| && OfferedAt(avail, j, c.plen, c.min, c.overflow, x)
  {
    LongerTotal(avail, c.min, c.plen, n);
    var m := n - Room(avail, c.plen, c.min + 1);
    LaterIsShortest(avail, c.min, c.plen, n, m);
    j := PickedIsOffered(avail, 0, c.plen, c.min, c.overflow, m, x);
  }

  lemma LongerIsOffered(avail: seq<Bits>, c: Subset, n: nat, x: Bits) returns (j: nat)
    requires c.min <= c.plen && Picks(avail, c, n, x) && Within(OfLengths(avail, c.min + 1, c.plen), c.plen)
    requires c.overflow == 0 || n < Total(OfLengths(avail, c.min + 1, c.plen), c.plen)
    ensures j < |avail| && OfferedAt(avail, j, c.plen, c.min, c.overflow, x)
  {
    var a := ContainerOf(avail, c, n, x);
    j :| 0 <= j < |avail| && avail[j] == a;
    if c.overflow == 0 {
      AllOffered(avail, j, c.plen, c.min, x);
    }
  }

  lemma LongerTotal(avail: seq<Bits>, min: nat, d: nat, n: nat)
    requires min <= d && Within(OfLengths(avail, min + 1, d), d) && Total(OfLengths(avail, min + 1, d), d) <= n < WORDS
    ensures Total(OfLengths(avail, min + 1, d), d) == Room(avail, d, min + 1)
  {
    RoomAbove(avail, d);
    if min < d {
      TotalHasRoom(avail, min + 1, d, d);
    } else {
      OfLengthsNothing(avail, d);
    }
  }

  lemma LaterIsShortest(avail: seq<Bits>, min: nat, d: nat, n: nat, m: nat)
    requires min <= d && Within(OfLengths(avail, min + 1, d), d) && n == Total(OfLengths(avail, min + 1, d), d) + m
    ensures Within(Order(avail, min, d), d)
    ensures Pick(Order(avail, min, d), n, d) == Pick(Shortest(avail, 0, min, d), m, d)
  {
    assert avail[0..] == avail;
    PickOfSecond(OfLengths(avail, min + 1, d), Shortest(avail, 0, min, d), m, d);
  }

  /** The available prefix a candidate lies in, longer than the shortest if its number says so */
  lemma ContainerOf(avail: seq<Bits>, c: Subset, n: nat, x: Bits) returns (a: Bits)
    requires c.min <= c.plen && Picks(avail, c, n, x) && Within(OfLengths(avail, c.min + 1, c.plen), c.plen)
    ensures a in avail && a <= x && c.min <= |a| <= c.plen == |x|
    ensures n < Total(OfLengths(avail, c.min + 1, c.plen), c.plen) ==> c.min < |a|
  {
    OrderIsWithin(avail, c.min, c.plen, c.plen);
    if n < Total(OfLengths(avail, c.min + 1, c.plen), c.plen) {
      a := ContainerInLonger(avail, c.min, c.plen, n, x);
    } else {
      a := ContainerInAny(avail, c.min, c.plen, n, x);
    }
  }

  /** What is offered while the overflow lasts, or by a longer prefix, is a candidate. */
  lemma OfferedIsCandidate(avail: seq<Bits>, limit: nat, c: Subset, j: nat, x: Bits)
    requires Ordered(avail) && Candidates(avail, limit, c) && limit <= COUNT_MAX && c.found > 0
    requires !Saturated(avail, c.plen, limit) && j < |avail| && OfferedAt(avail, j, c.plen, c.min, c.overflow, x)
    requires c.overflow > 0 && |avail[j]| == c.min ==> LeftAt(avail, j, c.plen, c.min, c.overflow) > 0
    ensures IsCandidate(avail, c, x)
  {
    if |avail[j]| > c.min {
      LongerIsWhole(avail, limit, c, avail[j]);
      LongerIsCandidate(avail, c, avail[j], x);
    } else if c.overflow == 0 {
      GuessIsCandidate(avail, limit, c, None, avail[j], x);
    } else {
      EarlyIsCandidate(avail, c, j, x);
    }
  }

  lemma EarlyIsCandidate(avail: seq<Bits>, c: Subset, j: nat, x: Bits)
    requires c.min <= c.plen && c.overflow < 0x8000_0000 && c.found == Room(avail, c.plen, c.min + 1) + c.overflow
    requires j < |avail| && |avail[j]| == c.min && OfferedAt(avail, j, c.plen, c.min, c.overflow, x)
    requires LeftAt(avail, j, c.plen, c.min, c.overflow) > 0
    ensures IsCandidate(avail, c, x)
  {
    var m := OfferedIsPicked(avail, 0, j, c.plen, c.min, c.overflow, x);
    assert avail[0..] == avail;
    ShortestIsCandidate(avail, c, m, x);
  }

  /** A candidate lies in an available prefix that is not too short, and before the last of the shortest. */
  lemma CandidateIsBelow(avail: seq<Bits>, limit: nat, c: Subset, last: Option<Bits>, x: Bits) returns (a: Bits)
    requires Ordered(avail) && Candidates(avail, limit, c) && limit <= COUNT_MAX
    requires IsLast(avail, c, last) && IsCandidate(avail, c, x)
    ensures a in avail && a <= x && c.min <= |a| && |x| == c.plen
    ensures last.Some? && |a| == c.min ==> Less(x, last.value)
  {
    var n: nat :| n < c.found && Picks(avail, c, n, x);
    NumberIsBelow(avail, limit, c, n);
    OrderIsWithin(avail, c.min, c.plen, c.plen);
    if n < Total(OfLengths(avail, c.min + 1, c.plen), c.plen) {
      a := ContainerInLonger(avail, c.min, c.plen, n, x);
    } else {
      a := ContainerInAny(avail, c.min, c.plen, n, x);
      if last.Some? {
        LastIsAbove(avail, c, n, last.value, x);
      }
    }
  }

  lemma LastIsAbove(avail: seq<Bits>, c: Subset, n: nat, last: Bits, x: Bits)
    requires Ordered(avail) && c.min <= c.plen && IsLast(avail, c, Some(last)) && Picks(avail, c, n, x) && n < WORDS
    requires |x| == c.plen && n < Room(avail, c.plen, c.min + 1) + c.overflow
    requires Within(OfLengths(avail, c.min + 1, c.plen), c.plen)
    requires Total(OfLengths(avail, c.min + 1, c.plen), c.plen) <= n
    ensures Less(x, last)
  {
    var short, m := OfLengths(avail, c.min, c.min), n - Room(avail, c.plen, c.min + 1);
    LongerTotal(avail, c.min, c.plen, n);
    LaterIsShortest(avail, c.min, c.plen, n, m);
    OrderIsWithin(avail, c.min, c.min, c.plen);
    OrderOfOne(avail, c.min);
    assert Shortest(avail, 0, c.min, c.plen) == short by {
      assert avail[0..] == avail;
    }
    OfLengthsIsOrdered(avail, c.min, c.min);
    PicksInOrder(short, m, c.overflow, c.plen, x, last);
  }

  lemma PicksInOrder(list: seq<Bits>, n: nat, m: nat, d: nat, x: Bits, y: Bits)
    requires Within(list, d) && Ordered(list) && n < m && Pick(list, n, d) == Some(x) && Pick(list, m, d) == Some(y)
    ensures |x| == |y| == d && Less(x, y)
  {
    PickIsIn(list, m, d);
    PickIsOrdered(list, n, m, d);
  }

  /** No prefix that is offered, and no candidate, is closer to the hammer than r, and of those as close
      r is offered by the first available prefix. */
  ghost predicate IsClosest(avail: seq<Bits>, c: Subset, hammer: Bits, r: Bits)
    requires |r| <= |hammer| && c.min <= c.plen <= |hammer|
  {
    && (forall j, x | 0 <= j < |avail| && OfferedAt(avail, j, c.plen, c.min, c.overflow, x) ::
          Off(r, hammer) <= Off(x, hammer))
    && (forall x | IsCandidate(avail, c, x) :: |x| == c.plen && Off(r, hammer) <= Off(x, hammer))
    && exists j | 0 <= j < |avail| ::
      && OfferedAt(avail, j, c.plen, c.min, c.overflow, r)
      && FartherBefore(avail, j, hammer, c.plen, c.min, c.overflow, Off(r, hammer))
  }

  lemma BestIsClosest(avail: seq<Bits>, limit: nat, c: Subset, hammer: Bits, best: Best)
    requires Candidates(avail, limit, c) && limit <= COUNT_MAX && c.plen <= |hammer| && best.distance < 200
    requires BestOf(avail, |avail|, hammer, c.plen, c.min, c.overflow, best)
    ensures IsClosest(avail, c, hammer, best.prefix)
  {
    forall x | IsCandidate(avail, c, x) ensures |x| == c.plen && Off(best.prefix, hammer) <= Off(x, hammer) {
      var j := CandidateIsOffered(avail, limit, c, x);
    }
  }

  lemma BestIsCandidate(avail: seq<Bits>, limit: nat, c: Subset, hammer: Bits, best: Best)
    requires Ordered(avail) && Candidates(avail, limit, c) && limit <= COUNT_MAX && c.found > 0 && c.plen <= |hammer|
    requires best.distance < 200 && BestOf(avail, |avail|, hammer, c.plen, c.min, c.overflow, best)
    ensures c.overflow == 0 && !Saturated(avail, c.plen, limit) ==> IsCandidate(avail, c, best.prefix)
  {
    if c.overflow == 0 && !Saturated(avail, c.plen, limit) {
      var j :| 0 <= j < |avail| && OfferedAt(avail, j, c.plen, c.min, c.overflow, best.prefix);
      OfferedIsCandidate(avail, limit, c, j, best.prefix);
    }
  }
}
