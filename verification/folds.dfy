/** Row filters and column sums over a table held as a sequence in load order. */
module Folds {

  /** The rows satisfying `p`, in their original order (a boolean-mask selection). */
  function Filter<T(!new)>(s: seq<T>, p: T -> bool): (r: seq<T>)
    ensures |r| <= |s|
    ensures forall x :: x in r <==> x in s && p(x)
  {
    if |s| == 0 then []
    else
      assert s == [s[0]] + s[1..];
      (if p(s[0]) then [s[0]] else []) + Filter(s[1..], p)
  }

  /** Nothing is selected when no row satisfies the condition. */
  lemma {:induction false} FilterNone<T(!new)>(s: seq<T>, p: T -> bool)
    requires forall x :: x in s ==> !p(x)
    ensures Filter(s, p) == []
  {
    if |s| > 0 {
      assert forall x :: x in s[1..] ==> x in s;
      FilterNone(s[1..], p);
    }
  }

  /** Selection distributes over concatenation: it keeps rows in load order. */
  lemma {:induction false} FilterConcat<T(!new)>(a: seq<T>, b: seq<T>, p: T -> bool)
    ensures Filter(a + b, p) == Filter(a, p) + Filter(b, p)
  {
    if |a| == 0 {
      assert a + b == b;
    } else {
      assert (a + b)[1..] == a[1..] + b;
      FilterConcat(a[1..], b, p);
    }
  }

  /** Selection keeps every occurrence of a selected row and none of the others. */
  lemma {:induction false} FilterMultiplicity<T(!new)>(s: seq<T>, p: T -> bool, x: T)
    ensures multiset(Filter(s, p))[x] == if p(x) then multiset(s)[x] else 0
  {
    if |s| > 0 {
      assert s == [s[0]] + s[1..];
      FilterMultiplicity(s[1..], p, x);
    }
  }

  /** Selecting from two orderings of the same rows yields the same rows. */
  lemma FilterPermutation<T(!new)>(a: seq<T>, b: seq<T>, p: T -> bool)
    requires multiset(a) == multiset(b)
    ensures multiset(Filter(a, p)) == multiset(Filter(b, p))
  {
    forall x ensures multiset(Filter(a, p))[x] == multiset(Filter(b, p))[x] {
      FilterMultiplicity(a, p, x);
      FilterMultiplicity(b, p, x);
    }
  }

  /** The column `f` summed over the rows. */
  function Sum<T>(s: seq<T>, f: T -> real): real {
    if |s| == 0 then 0.0 else f(s[0]) + Sum(s[1..], f)
  }

  /** The integer column `f` summed over the rows. */
  function SumInt<T>(s: seq<T>, f: T -> int): int {
    if |s| == 0 then 0 else f(s[0]) + SumInt(s[1..], f)
  }

  /** An integer column viewed as a real one. */
  function AsReal<T>(f: T -> int): T -> real {
    x => f(x) as real
  }

  lemma {:induction false} SumConcat<T>(a: seq<T>, b: seq<T>, f: T -> real)
    ensures Sum(a + b, f) == Sum(a, f) + Sum(b, f)
  {
    if |a| == 0 {
      assert a + b == b;
    } else {
      assert (a + b)[1..] == a[1..] + b;
      SumConcat(a[1..], b, f);
    }
  }

  /** A sum does not depend on the order of the rows. */
  lemma {:induction false} SumPermutation<T>(a: seq<T>, b: seq<T>, f: T -> real)
    requires multiset(a) == multiset(b)
    ensures Sum(a, f) == Sum(b, f)
    decreases |a|
  {
    if |a| == 0 {
      assert |b| == |multiset(b)| == 0;
    } else {
      assert a[0] in multiset(b);
      var i :| 0 <= i < |b| && b[i] == a[0];
      RemoveMatching(a, b, i);
      SumPermutation(a[1..], b[..i] + b[i + 1..], f);
      assert b == b[..i] + ([b[i]] + b[i + 1..]);
      SumConcat(b[..i], [b[i]] + b[i + 1..], f);
      SumConcat(b[..i], b[i + 1..], f);
    }
  }

  /** Summing an integer column agrees with summing it as reals. */
  lemma {:induction false} SumIntAsReal<T>(s: seq<T>, f: T -> int)
    ensures SumInt(s, f) as real == Sum(s, AsReal(f))
  {
    if |s| > 0 {
      SumIntAsReal(s[1..], f);
    }
  }

  lemma SumIntPermutation<T>(a: seq<T>, b: seq<T>, f: T -> int)
    requires multiset(a) == multiset(b)
    ensures SumInt(a, f) == SumInt(b, f)
  {
    SumIntAsReal(a, f);
    SumIntAsReal(b, f);
    SumPermutation(a, b, AsReal(f));
  }

  /** A column every entry of which is at most -1 sums to at most minus the row count. */
  lemma {:induction false} SumIntAtMostMinusCount<T>(s: seq<T>, f: T -> int)
    requires forall x :: x in s ==> f(x) <= -1
    ensures SumInt(s, f) <= -|s|
  {
    if |s| > 0 {
      assert forall x :: x in s[1..] ==> x in s;
      SumIntAtMostMinusCount(s[1..], f);
    }
  }

  /** The column `f` of the rows, in row order. */
  function Map<T, U>(s: seq<T>, f: T -> U): (r: seq<U>)
    ensures |r| == |s|
    ensures forall i :: 0 <= i < |s| ==> r[i] == f(s[i])
  {
    if |s| == 0 then [] else [f(s[0])] + Map(s[1..], f)
  }

  /** Removing the element at `i` removes one occurrence of it from the multiset. */
  lemma RemoveAt<T>(b: seq<T>, i: int)
    requires 0 <= i < |b|
    ensures multiset(b) == multiset(b[..i] + b[i + 1..]) + multiset{b[i]}
  {
    assert b == b[..i] + [b[i]] + b[i + 1..];
  }

  /** Taking the same value out of two equal multisets leaves equal multisets. */
  lemma RemoveMatching<T>(a: seq<T>, b: seq<T>, i: int)
    requires multiset(a) == multiset(b)
    requires |a| > 0 && 0 <= i < |b| && b[i] == a[0]
    ensures multiset(a[1..]) == multiset(b[..i] + b[i + 1..])
  {
    var rest := b[..i] + b[i + 1..];
    RemoveAt(b, i);
    RemoveAt(a, 0);
    assert a[..0] + a[1..] == a[1..];
    forall y ensures multiset(a[1..])[y] == multiset(rest)[y] {
      assert multiset(a)[y] == multiset(a[1..])[y] + multiset{a[0]}[y];
      assert multiset(b)[y] == multiset(rest)[y] + multiset{a[0]}[y];
    }
  }

  lemma MapRemoveAt<T, U>(b: seq<T>, i: int, f: T -> U)
    requires 0 <= i < |b|
    ensures Map(b, f)[..i] + Map(b, f)[i + 1..] == Map(b[..i] + b[i + 1..], f)
  {
    var m, rest := Map(b, f), b[..i] + b[i + 1..];
    var r, joined := Map(rest, f), m[..i] + m[i + 1..];
    assert |joined| == |r|;
    forall k | 0 <= k < |r| ensures joined[k] == r[k] {
      if k < i {
        assert joined[k] == m[k] && rest[k] == b[k];
      } else {
        assert joined[k] == m[k + 1] && rest[k] == b[k + 1];
      }
    }
  }

  /** Two orderings of the same rows give the same column values. */
  lemma {:induction false} MapPermutation<T, U>(a: seq<T>, b: seq<T>, f: T -> U)
    requires multiset(a) == multiset(b)
    ensures multiset(Map(a, f)) == multiset(Map(b, f))
    decreases |a|
  {
    if |a| == 0 {
      assert |b| == |multiset(b)| == 0;
    } else {
      assert a[0] in multiset(b);
      var i :| 0 <= i < |b| && b[i] == a[0];
      RemoveMatching(a, b, i);
      MapPermutation(a[1..], b[..i] + b[i + 1..], f);
      MapRemoveAt(b, i, f);
      RemoveAt(Map(b, f), i);
      MapRemoveAt(a, 0, f);
      RemoveAt(Map(a, f), 0);
      assert a[..0] + a[1..] == a[1..];
    }
  }

  /** A column with no positive entry has a sum that is not positive. */
  lemma {:induction false} SumNonPositive<T>(s: seq<T>, f: T -> real)
    requires forall x :: x in s ==> f(x) <= 0.0
    ensures Sum(s, f) <= 0.0
  {
    if |s| > 0 {
      assert forall x :: x in s[1..] ==> x in s;
      SumNonPositive(s[1..], f);
    }
  }

  /** A column with no negative entry has a sum that is not negative. */
  lemma {:induction false} SumNonNegative<T>(s: seq<T>, f: T -> real)
    requires forall x :: x in s ==> f(x) >= 0.0
    ensures Sum(s, f) >= 0.0
  {
    if |s| > 0 {
      assert forall x :: x in s[1..] ==> x in s;
      SumNonNegative(s[1..], f);
    }
  }

  /** A weaker condition selects at least as many rows. */
  lemma {:induction false} FilterMonotone<T(!new)>(s: seq<T>, p: T -> bool, q: T -> bool)
    requires forall x :: p(x) ==> q(x)
    ensures |Filter(s, p)| <= |Filter(s, q)|
  {
    if |s| > 0 {
      FilterMonotone(s[1..], p, q);
    }
  }

  /** Selecting rows by a condition on one column selects as many rows as
      selecting that column's values by the condition. */
  lemma {:induction false} FilterMapLength<T(!new), U(!new)>(s: seq<T>, f: T -> U, q: U -> bool, p: T -> bool)
    requires forall x :: p(x) == q(f(x))
    ensures |Filter(s, p)| == |Filter(Map(s, f), q)|
  {
    if |s| > 0 {
      FilterMapLength(s[1..], f, q, p);
      assert Map(s, f)[1..] == Map(s[1..], f);
    }
  }
}
