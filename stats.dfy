/**
 * Order statistics and sums over sequences of exact reals, shared by the
 * windowed PPG analytics and the discrete-event HRV calculator.
 *
 * Sorting follows `[...xs].sort((a, b) => a - b)`: ascending numeric order.
 * The median used throughout the program is the upper median
 * `sorted[floor(n / 2)]`.
 */
module Stats {

  function Abs(x: real): real {
    if x < 0.0 then -x else x
  }

  /** `Math.round`: the nearest integer, halves rounded up. */
  function JsRound(x: real): int {
    (x + 0.5).Floor
  }

  predicate IsSorted(s: seq<real>) {
    forall i, j :: 0 <= i < j < |s| ==> s[i] <= s[j]
  }

  /** Inserts `x` into an ascending sequence. */
  function Insert(x: real, s: seq<real>): (r: seq<real>)
    requires IsSorted(s)
    ensures |r| == |s| + 1
    ensures IsSorted(r)
    ensures multiset(r) == multiset(s) + multiset{x}
    ensures r[0] == (if |s| == 0 || x <= s[0] then x else s[0])
  {
    if |s| == 0 then [x]
    else if x <= s[0] then [x] + s
    else
      var t := Insert(x, s[1..]);
      assert s == [s[0]] + s[1..];
      PrependSorted(s[0], t);
      [s[0]] + t
  }

  lemma PrependSorted(y: real, t: seq<real>)
    requires IsSorted(t) && (|t| > 0 ==> y <= t[0])
    ensures IsSorted([y] + t)
  {
    var r := [y] + t;
    forall i, j | 0 <= i < j < |r|
      ensures r[i] <= r[j]
    {
      if i > 0 {
        assert r[i] == t[i - 1] && r[j] == t[j - 1];
      } else {
        assert t[0] <= t[j - 1];
      }
    }
  }

  /** Ascending sort (insertion sort); the unique sorted permutation of `s`. */
  function Sort(s: seq<real>): (r: seq<real>)
    ensures |r| == |s|
    ensures IsSorted(r)
    ensures multiset(r) == multiset(s)
  {
    if |s| == 0 then []
    else
      assert s == [s[0]] + s[1..];
      Insert(s[0], Sort(s[1..]))
  }

  /** The upper median `sorted[floor(n / 2)]`. */
  function UpperMedian(s: seq<real>): real
    requires |s| > 0
  {
    Sort(s)[|s| / 2]
  }

  function CountLess(s: seq<real>, m: real): nat {
    if |s| == 0 then 0 else (if s[0] < m then 1 else 0) + CountLess(s[1..], m)
  }

  function CountGreater(s: seq<real>, m: real): nat {
    if |s| == 0 then 0 else (if s[0] > m then 1 else 0) + CountGreater(s[1..], m)
  }

  lemma {:induction false} CountsOfInsert(x: real, t: seq<real>, m: real)
    requires IsSorted(t)
    ensures CountLess(Insert(x, t), m) == CountLess(t, m) + (if x < m then 1 else 0)
    ensures CountGreater(Insert(x, t), m) == CountGreater(t, m) + (if x > m then 1 else 0)
  {
    if |t| == 0 {
    } else if x <= t[0] {
      assert ([x] + t)[1..] == t;
    } else {
      CountsOfInsert(x, t[1..], m);
      var r := Insert(x, t);
      assert r[0] == t[0] && r[1..] == Insert(x, t[1..]);
    }
  }

  /** Sorting does not change how many elements lie below or above a value. */
  lemma {:induction false} CountsOfSort(s: seq<real>, m: real)
    ensures CountLess(Sort(s), m) == CountLess(s, m)
    ensures CountGreater(Sort(s), m) == CountGreater(s, m)
  {
    if |s| > 0 {
      CountsOfSort(s[1..], m);
      CountsOfInsert(s[0], Sort(s[1..]), m);
    }
  }

  lemma {:induction false} CountLessBound(t: seq<real>, m: real, k: nat)
    requires k <= |t|
    requires forall i :: k <= i < |t| ==> t[i] >= m
    ensures CountLess(t, m) <= k
  {
    if |t| > 0 {
      if k == 0 {
        CountLessBound(t[1..], m, 0);
      } else {
        CountLessBound(t[1..], m, k - 1);
      }
    }
  }

  lemma {:induction false} CountGreaterBound(t: seq<real>, m: real, k: nat)
    requires k <= |t|
    requires forall i :: 0 <= i < k ==> t[i] <= m
    ensures CountGreater(t, m) <= |t| - k
  {
    if |t| > 0 {
      if k == 0 {
        CountGreaterBound(t[1..], m, 0);
        assert CountGreater(t[1..], m) <= |t| - 1;
      } else {
        CountGreaterBound(t[1..], m, k - 1);
      }
    }
  }

  /**
   * The upper median is an element of the sequence, at most floor(n/2)
   * elements lie strictly below it, and at most floor((n-1)/2) strictly above:
   * an order-statistic characterisation independent of the sort.
   */
  lemma UpperMedianSpec(s: seq<real>)
    requires |s| > 0
    ensures UpperMedian(s) in multiset(s)
    ensures CountLess(s, UpperMedian(s)) <= |s| / 2
    ensures CountGreater(s, UpperMedian(s)) <= (|s| - 1) / 2
  {
    var t := Sort(s);
    var k := |s| / 2;
    assert t[k] in multiset(t);
    CountsOfSort(s, t[k]);
    SortedCounts(t, k);
  }

  /** In an ascending sequence at most k elements lie below t[k] and at most |t| - 1 - k above it. */
  lemma SortedCounts(t: seq<real>, k: nat)
    requires IsSorted(t) && k < |t|
    ensures CountLess(t, t[k]) <= k
    ensures CountGreater(t, t[k]) <= |t| - 1 - k
  {
    CountLessBound(t, t[k], k);
    CountGreaterBound(t, t[k], k + 1);
  }

  /** The upper median is one of the values. */
  lemma UpperMedianIn(s: seq<real>)
    requires |s| > 0
    ensures UpperMedian(s) in s
  {
    UpperMedianSpec(s);
    assert UpperMedian(s) in multiset(s);
  }

  /** A median of values in [lo, hi] lies in [lo, hi]. */
  lemma UpperMedianWithin(s: seq<real>, lo: real, hi: real)
    requires |s| > 0
    requires forall i :: 0 <= i < |s| ==> lo <= s[i] <= hi
    ensures lo <= UpperMedian(s) <= hi
  {
    UpperMedianSpec(s);
    var m := UpperMedian(s);
    assert m in s by {
      assert m in multiset(s);
    }
  }

  /** Left-to-right sum, as `reduce((a, b) => a + b, 0)`. */
  function Sum(s: seq<real>): real {
    if |s| == 0 then 0.0 else Sum(s[..|s| - 1]) + s[|s| - 1]
  }

  function Mean(s: seq<real>): real
    requires |s| > 0
  {
    Sum(s) / (|s| as real)
  }

  /** Sum of squared deviations from `mean`. */
  function SumSqDev(s: seq<real>, mean: real): real {
    if |s| == 0 then 0.0 else SumSqDev(s[..|s| - 1], mean) + Sq(s[|s| - 1] - mean)
  }

  /** Sum of squared successive differences, (s[1]-s[0])^2 + ... */
  function SumSqSuccDiff(s: seq<real>): real {
    if |s| < 2 then 0.0
    else
      SumSqSuccDiff(s[..|s| - 1]) + Sq(s[|s| - 1] - s[|s| - 2])
  }

  /** Number of successive differences whose absolute value exceeds 50 ms. */
  function Count50(s: seq<real>): nat {
    if |s| < 2 then 0
    else Count50(s[..|s| - 1]) + (if Abs(s[|s| - 1] - s[|s| - 2]) > 50.0 then 1 else 0)
  }

  predicate IsConstant(s: seq<real>) {
    forall i :: 0 <= i < |s| ==> s[i] == s[0]
  }

  lemma {:induction false} SumOfConstant(s: seq<real>, c: real)
    requires forall i :: 0 <= i < |s| ==> s[i] == c
    ensures Sum(s) == (|s| as real) * c
  {
    if |s| > 0 {
      SumOfConstant(s[..|s| - 1], c);
    }
  }

  /** The square of a real; kept as a function so that sums of squares stay linear for the solver. */
  function Sq(x: real): real {
    x * x
  }

  lemma MulPositive(a: real, b: real, q: real)
    requires a > 0.0 && b > 0.0 && q == a * b
    ensures q > 0.0
  {
  }

  lemma SqFacts(x: real)
    ensures Sq(x) >= 0.0
    ensures x != 0.0 ==> Sq(x) > 0.0
  {
    if x > 0.0 {
      MulPositive(x, x, Sq(x));
    } else if x < 0.0 {
      assert Sq(x) == (-x) * (-x);
      MulPositive(-x, -x, Sq(x));
    } else {
      assert Sq(x) == 0.0 * 0.0;
    }
  }

  lemma {:induction false} SumSqDevNonNegative(s: seq<real>, mean: real)
    ensures SumSqDev(s, mean) >= 0.0
  {
    if |s| > 0 {
      SumSqDevNonNegative(s[..|s| - 1], mean);
      SqFacts(s[|s| - 1] - mean);
    }
  }

  /** The squared deviations sum to zero exactly when every element equals `mean`. */
  lemma {:induction false} SumSqDevZero(s: seq<real>, mean: real)
    ensures SumSqDev(s, mean) == 0.0 <==> forall i :: 0 <= i < |s| ==> s[i] == mean
  {
    if |s| > 0 {
      var p := s[..|s| - 1];
      SumSqDevZero(p, mean);
      SumSqDevNonNegative(p, mean);
      SqFacts(s[|s| - 1] - mean);
      assert forall i :: 0 <= i < |p| ==> p[i] == s[i];
      if s[|s| - 1] != mean {
        assert SumSqDev(s, mean) > 0.0;
      }
    }
  }

  lemma {:induction false} SumSqSuccDiffNonNegative(s: seq<real>)
    ensures SumSqSuccDiff(s) >= 0.0
  {
    if |s| >= 2 {
      SumSqSuccDiffNonNegative(s[..|s| - 1]);
      SqFacts(s[|s| - 1] - s[|s| - 2]);
    }
  }

  /** Successive differences square-sum to zero exactly when the sequence is constant. */
  lemma {:induction false} SumSqSuccDiffZero(s: seq<real>)
    ensures SumSqSuccDiff(s) == 0.0 <==> IsConstant(s)
  {
    if |s| >= 2 {
      var p := s[..|s| - 1];
      SumSqSuccDiffZero(p);
      SumSqSuccDiffNonNegative(p);
      SqFacts(s[|s| - 1] - s[|s| - 2]);
      assert forall i :: 0 <= i < |p| ==> p[i] == s[i];
      assert p[0] == s[0] && p[|p| - 1] == s[|s| - 2];
      if s[|s| - 1] != s[|s| - 2] {
        assert SumSqSuccDiff(s) > 0.0;
      }
    } else if |s| == 1 {
      assert IsConstant(s);
    }
  }

  lemma {:induction false} Count50Bound(s: seq<real>)
    ensures |s| >= 1 ==> Count50(s) <= |s| - 1
  {
    if |s| >= 2 {
      Count50Bound(s[..|s| - 1]);
    }
  }

  lemma {:induction false} Count50OfConstant(s: seq<real>)
    requires IsConstant(s)
    ensures Count50(s) == 0
  {
    if |s| >= 2 {
      var p := s[..|s| - 1];
      assert IsConstant(p) by {
        assert forall i :: 0 <= i < |p| ==> p[i] == s[i];
      }
      Count50OfConstant(p);
    }
  }

  // Facts about real division, each proved in a context free of other functions.

  lemma DivRatioBound(a: real, b: real)
    requires 0.0 <= a <= b && b > 0.0
    ensures 0.0 <= a / b <= 1.0
  {
  }

  lemma DivAntitone(n: real, lo: real, m: real)
    requires n >= 0.0 && 0.0 < lo <= m
    ensures n / m <= n / lo
  {
  }

  lemma DivAbove(a: real, m: real, c: real)
    requires m > 0.0
    ensures a / m > c <==> a > c * m
  {
  }

  lemma DivMulCancel(a: real, b: real)
    requires b != 0.0
    ensures (a / b) * b == a
  {
  }
}
