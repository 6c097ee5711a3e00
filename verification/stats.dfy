/** Order statistics over an integer column: sorting, the first minimum and
    the linearly interpolated quantile. */
module Stats {
  import opened Folds

  predicate Sorted(s: seq<int>) {
    forall i, j :: 0 <= i < j < |s| ==> s[i] <= s[j]
  }

  /** A value no larger than anything in a sorted sequence may lead it. */
  lemma ConsSorted(h: int, s: seq<int>)
    requires Sorted(s)
    requires forall y :: y in s ==> h <= y
    ensures Sorted([h] + s)
  {
    var r := [h] + s;
    forall i, j | 0 <= i < j < |r| ensures r[i] <= r[j] {
      assert r[j] == s[j - 1] && s[j - 1] in s;
      if i > 0 {
        assert r[i] == s[i - 1];
      }
    }
  }

  /** Inserts `x` into a sorted sequence before the first larger element. */
  function Insert(x: int, s: seq<int>): (r: seq<int>)
    requires Sorted(s)
    ensures Sorted(r)
    ensures multiset(r) == multiset(s) + multiset{x}
  {
    if |s| == 0 then [x]
    else if x <= s[0] then
      ConsSorted(x, s);
      [x] + s
    else
      var rest := Insert(x, s[1..]);
      assert forall y :: y in rest ==> s[0] <= y by {
        forall y | y in rest ensures s[0] <= y {
          assert y in multiset(rest);
        }
      }
      ConsSorted(s[0], rest);
      assert s == [s[0]] + s[1..];
      [s[0]] + rest
  }

  /** The values in ascending order (insertion sort). */
  function Sort(s: seq<int>): (r: seq<int>)
    ensures Sorted(r)
    ensures multiset(r) == multiset(s)
  {
    if |s| == 0 then []
    else
      assert s == [s[0]] + s[1..];
      Insert(s[0], Sort(s[1..]))
  }

  /** Two sorted sequences holding the same values are equal, so the sorted
      order of a column does not depend on the order of the rows. */
  lemma {:induction false} SortedUnique(a: seq<int>, b: seq<int>)
    requires Sorted(a) && Sorted(b)
    requires multiset(a) == multiset(b)
    ensures a == b
    decreases |a|
  {
    if |a| == 0 {
      assert |b| == |multiset(b)| == 0;
    } else {
      assert |b| == |multiset(b)| == |multiset(a)| == |a|;
      assert a[0] in multiset(b) && b[0] in multiset(a);
      assert a[0] == b[0];
      assert a == [a[0]] + a[1..];
      assert b == [b[0]] + b[1..];
      forall y ensures multiset(a[1..])[y] == multiset(b[1..])[y] {
        assert multiset(a)[y] == multiset{a[0]}[y] + multiset(a[1..])[y];
        assert multiset(b)[y] == multiset{b[0]}[y] + multiset(b[1..])[y];
      }
      assert multiset(a[1..]) == multiset(b[1..]);
      SortedUnique(a[1..], b[1..]);
    }
  }

  /** The index of the first smallest value (pandas `idxmin`). */
  function FirstMinIndex(s: seq<int>): (k: nat)
    requires |s| > 0
    ensures k < |s|
    ensures forall j :: 0 <= j < |s| ==> s[k] <= s[j]
    ensures forall j :: 0 <= j < k ==> s[k] < s[j]
  {
    if |s| == 1 then 0
    else
      var k := 1 + FirstMinIndex(s[1..]);
      if s[0] <= s[k] then 0 else k
  }

  /** Only one index is both a minimum and earlier than every other minimum. */
  lemma FirstMinUnique(s: seq<int>, k: int, m: int)
    requires 0 <= k < |s| && 0 <= m < |s|
    requires forall j :: 0 <= j < |s| ==> s[k] <= s[j] && s[m] <= s[j]
    requires forall j :: 0 <= j < k ==> s[k] < s[j]
    requires forall j :: 0 <= j < m ==> s[m] < s[j]
    ensures k == m
  {
    assert s[k] == s[m];
  }

  lemma MulBelow(p: real, n: real)
    requires 0.0 <= p <= 1.0 && 0.0 <= n
    ensures 0.0 <= p * n <= n
  {
    assert n - p * n == (1.0 - p) * n;
  }

  lemma LerpBetween(a: real, b: real, f: real)
    requires a <= b && 0.0 <= f <= 1.0
    ensures a <= a + f * (b - a) <= b
  {
    MulBelow(f, b - a);
    assert 0.0 <= f * (b - a) <= b - a;
  }

  lemma FloorWithin(x: real, m: int)
    requires 0.0 <= x <= m as real
    ensures 0 <= x.Floor <= m
    ensures 0.0 <= x - x.Floor as real < 1.0
  {
  }

  /** The value at the virtual index `pos`: the value at `floor(pos)` plus the
      fractional part of the way to the next value (the last value has no next). */
  function Interpolate(v: seq<int>, pos: real): real
    requires |v| > 0 && 0.0 <= pos <= (|v| - 1) as real
  {
    FloorWithin(pos, |v| - 1);
    var lo := pos.Floor;
    var hi := if lo + 1 < |v| then lo + 1 else lo;
    v[lo] as real + (pos - lo as real) * (v[hi] - v[lo]) as real
  }

  /** In a sorted sequence the interpolated value lies between its lower
      neighbour and the last value. */
  lemma InterpolateBetween(v: seq<int>, pos: real)
    requires |v| > 0 && Sorted(v) && 0.0 <= pos <= (|v| - 1) as real
    ensures 0 <= pos.Floor < |v|
    ensures v[0] as real <= v[pos.Floor] as real <= Interpolate(v, pos) <= v[|v| - 1] as real
  {
    FloorWithin(pos, |v| - 1);
    var lo := pos.Floor;
    var hi := if lo + 1 < |v| then lo + 1 else lo;
    assert v[0] <= v[lo] <= v[hi] <= v[|v| - 1];
    LerpBetween(v[lo] as real, v[hi] as real, pos - lo as real);
  }

  /** numpy's virtual index of the `p` quantile among `n` sorted values. */
  function VirtualIndex(p: real, n: int): (pos: real)
    requires 0.0 <= p <= 1.0 && n > 0
    ensures 0.0 <= pos <= (n - 1) as real
  {
    MulBelow(p, (n - 1) as real);
    p * (n - 1) as real
  }

  /** The `p` quantile of sorted values with linear interpolation between the
      two values around the virtual index `p * (n - 1)` (numpy's "linear" method). */
  function LinearQuantile(v: seq<int>, p: real): (q: real)
    requires |v| > 0 && Sorted(v)
    requires 0.0 <= p <= 1.0
    ensures v[0] as real <= q <= v[|v| - 1] as real
    ensures 0 <= VirtualIndex(p, |v|).Floor < |v|
    ensures v[VirtualIndex(p, |v|).Floor] as real <= q
  {
    InterpolateBetween(v, VirtualIndex(p, |v|));
    Interpolate(v, VirtualIndex(p, |v|))
  }

  /** The values strictly above `t`. */
  function Above(t: real): int -> bool {
    x => x as real > t
  }

  /** How many of `n` sorted positions come after the lower neighbour of the
      virtual index `p * (n - 1)`. */
  function TopCount(n: int, p: real): int
    requires 0.0 <= p <= 1.0 && n > 0
  {
    n - 1 - VirtualIndex(p, n).Floor
  }

  /** In a sorted sequence, nothing up to a position holding a value at most
      `q` lies above `q`. */
  lemma SortedTopShare(v: seq<int>, q: real, lo: int)
    requires Sorted(v)
    requires 0 <= lo < |v| && v[lo] as real <= q
    ensures |Filter(v, Above(q))| <= |v| - 1 - lo
  {
    assert v == v[..lo + 1] + v[lo + 1..];
    FilterConcat(v[..lo + 1], v[lo + 1..], Above(q));
    forall x | x in v[..lo + 1] ensures !Above(q)(x) {
      var i :| 0 <= i <= lo && v[..lo + 1][i] == x;
      assert v[i] <= v[lo];
    }
    FilterNone(v[..lo + 1], Above(q));
  }

  /** At most the values after the virtual index lie above the quantile: the
      `p` quantile leaves at most `n - 1 - floor(p * (n - 1))` values above it. */
  lemma QuantileTopShare(v: seq<int>, p: real)
    requires |v| > 0 && Sorted(v)
    requires 0.0 <= p <= 1.0
    ensures |Filter(v, Above(LinearQuantile(v, p)))| <= TopCount(|v|, p)
  {
    SortedTopShare(v, LinearQuantile(v, p), VirtualIndex(p, |v|).Floor);
  }
}
