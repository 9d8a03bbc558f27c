/** Lists without repetition, as the intrusive lists of the source are. */
module Sequences {
  ghost predicate Distinct<T>(s: seq<T>) {
    forall i, j | 0 <= i < j < |s| :: s[i] != s[j]
  }

  /** list_del */
  function Without<T(==)>(s: seq<T>, x: T): seq<T> {
    if s == [] then [] else if s[0] == x then s[1..] else [s[0]] + Without(s[1..], x)
  }

  lemma {:induction false} WithoutIs<T>(s: seq<T>, x: T)
    requires Distinct(s)
    ensures forall y :: y in Without(s, x) <==> y in s && y != x
    ensures Distinct(Without(s, x)) && |Without(s, x)| == if x in s then |s| - 1 else |s|
  {
    if s != [] {
      if s[0] == x {
        assert s == [x] + s[1..];
      } else {
        WithoutIs(s[1..], x);
        assert s == [s[0]] + s[1..];
        var r := Without(s[1..], x);
        forall y ensures y in [s[0]] + r <==> y in s && y != x {
          assert y in [s[0]] + r <==> y == s[0] || y in r;
        }
        forall j | 0 <= j < |r| ensures s[0] != r[j] {
          assert r[j] in r;
        }
      }
    }
  }

  lemma {:induction false} WithoutLast<T>(s: seq<T>)
    requires Distinct(s) && s != []
    ensures Without(s, s[|s| - 1]) == s[..|s| - 1]
  {
    if |s| > 1 {
      WithoutLast(s[1..]);
      assert s[..|s| - 1] == [s[0]] + s[1..][..|s| - 2];
    }
  }

  lemma {:induction false} WithoutAbsent<T>(s: seq<T>, x: T)
    requires x !in s
    ensures Without(s, x) == s
  {
    if s != [] {
      assert s == [s[0]] + s[1..];
      WithoutAbsent(s[1..], x);
    }
  }
}
