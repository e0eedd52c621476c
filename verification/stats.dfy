/** Descriptive statistics over finite sequences of reals: sums and means,
    a sort, the linear-interpolation quantile (Hyndman & Fan definition 7),
    the median, the sample variance and the median absolute deviation.
    Square roots are not computed here: the engines receive a root function
    and `IsSqrt` says what is assumed of it. */
module Stats {

  /** The sum of a sequence, first element first. */
  function Sum(s: seq<real>): (r: real)
  {
    if |s| == 0 then 0.0 else s[0] + Sum(s[1..])
  }

  /** Arithmetic mean; undefined on the empty sequence. */
  function Mean(s: seq<real>): (m: real)
    requires |s| > 0
  {
    Sum(s) / |s| as real
  }

  /** `s` with `c` added to every element. */
  function Shift(s: seq<real>, c: real): (r: seq<real>)
    ensures |r| == |s|
    ensures forall i :: 0 <= i < |s| ==> r[i] == s[i] + c
  {
    seq(|s|, i requires 0 <= i < |s| => s[i] + c)
  }

  /** `r` is the non-negative square root of `x`. */
  predicate IsRootOf(r: real, x: real)
  {
    0.0 <= r && r * r == x
  }

  /** What the engines assume of the square root they are given. */
  ghost predicate IsSqrt(root: real -> real)
  {
    forall x: real :: 0.0 <= x ==> IsRootOf(root(x), x)
  }

  /** The squared deviations of every element from `c`. */
  function SquaredDeviations(s: seq<real>, c: real): (r: seq<real>)
    ensures |r| == |s|
    ensures forall i :: 0 <= i < |s| ==> r[i] == (s[i] - c) * (s[i] - c)
    ensures forall i :: 0 <= i < |s| ==> 0.0 <= r[i]
  {
    seq(|s|, i requires 0 <= i < |s| => SquareNonNegative(s[i] - c); (s[i] - c) * (s[i] - c))
  }

  lemma SquareNonNegative(x: real)
    ensures 0.0 <= x * x
  {
    if x < 0.0 {
      assert x * x == (-x) * (-x);
    }
  }

  /** Sample variance (divisor n - 1), as a data frame's `std` squares it. */
  function SampleVariance(s: seq<real>): (v: real)
    requires |s| >= 2
    ensures 0.0 <= v
  {
    SumNonNegative(SquaredDeviations(s, Mean(s)));
    Sum(SquaredDeviations(s, Mean(s))) / (|s| - 1) as real
  }

  /** Sample standard deviation, with `root` as the square root. */
  function SampleSd(s: seq<real>, root: real -> real): (sd: real)
    requires |s| >= 2
    ensures IsSqrt(root) ==> IsRootOf(sd, SampleVariance(s))
  {
    root(SampleVariance(s))
  }

  /** Population variance (divisor n). */
  function PopulationVariance(s: seq<real>): (v: real)
    requires |s| > 0
    ensures 0.0 <= v
  {
    SumNonNegative(SquaredDeviations(s, Mean(s)));
    Sum(SquaredDeviations(s, Mean(s))) / |s| as real
  }

  lemma {:induction false} SumNonNegative(s: seq<real>)
    requires forall i :: 0 <= i < |s| ==> 0.0 <= s[i]
    ensures 0.0 <= Sum(s)
  {
    if |s| > 0 {
      SumNonNegative(s[1..]);
    }
  }

  /** A sum of non-negative terms is zero only when every term is. */
  lemma {:induction false} SumZeroIff(s: seq<real>)
    requires forall i :: 0 <= i < |s| ==> 0.0 <= s[i]
    ensures Sum(s) == 0.0 <==> forall i :: 0 <= i < |s| ==> s[i] == 0.0
  {
    if |s| > 0 {
      SumZeroIff(s[1..]);
      SumNonNegative(s[1..]);
      assert forall i :: 1 <= i < |s| ==> s[i] == s[1..][i - 1];
    }
  }

  /** Adding a constant to every element adds n times that constant to the sum. */
  lemma {:induction false} SumShift(s: seq<real>, c: real)
    ensures Sum(Shift(s, c)) == Sum(s) + |s| as real * c
  {
    if |s| > 0 {
      SumShift(s[1..], c);
      assert Shift(s, c)[1..] == Shift(s[1..], c);
    }
  }

  /** n copies of `c` sum to n c. */
  lemma {:induction false} SumOfConstant(s: seq<real>, c: real)
    requires forall i :: 0 <= i < |s| ==> s[i] == c
    ensures Sum(s) == |s| as real * c
  {
    if |s| > 0 {
      SumOfConstant(s[1..], c);
    }
  }

  /** Sums respect pointwise order. */
  lemma {:induction false} SumMonotone(a: seq<real>, b: seq<real>)
    requires |a| == |b|
    requires forall i :: 0 <= i < |a| ==> a[i] <= b[i]
    ensures Sum(a) <= Sum(b)
  {
    if |a| > 0 {
      SumMonotone(a[1..], b[1..]);
    }
  }

  /** The mean lies within any bounds on the elements. */
  lemma MeanBetween(s: seq<real>, lo: real, hi: real)
    requires |s| > 0
    requires forall i :: 0 <= i < |s| ==> lo <= s[i] <= hi
    ensures lo <= Mean(s) <= hi
  {
    SumBetween(s, lo, hi);
    QuotientBetween(Sum(s), |s| as real, lo, hi);
  }

  /** A sum of n terms between `lo` and `hi` lies between n lo and n hi. */
  lemma {:induction false} SumBetween(s: seq<real>, lo: real, hi: real)
    requires forall i :: 0 <= i < |s| ==> lo <= s[i] <= hi
    ensures |s| as real * lo <= Sum(s) <= |s| as real * hi
  {
    if |s| > 0 {
      var m := (|s| - 1) as real;
      SumBetween(s[1..], lo, hi);
      assert m * lo + lo == (m + 1.0) * lo;
      assert m * hi + hi == (m + 1.0) * hi;
    }
  }

  lemma QuotientBetween(x: real, n: real, lo: real, hi: real)
    requires 0.0 < n && n * lo <= x <= n * hi
    ensures lo <= x / n <= hi
  {
    var a, b := n * lo, n * hi;
    DivMonotone(a, x, n);
    DivMonotone(x, b, n);
    CancelFactor(n, lo);
    CancelFactor(n, hi);
  }

  lemma CancelFactor(n: real, x: real)
    requires n != 0.0
    ensures n * x / n == x
  {
    assert n * x / n == x * (n / n);
  }

  /** Mean of a shifted sequence is the shifted mean. */
  lemma MeanShift(s: seq<real>, c: real)
    requires |s| > 0
    ensures Mean(Shift(s, c)) == Mean(s) + c
  {
    SumShift(s, c);
    var n := |s| as real;
    calc {
      Mean(Shift(s, c));
      (Sum(s) + n * c) / n;
      Sum(s) / n + c;
    }
  }

  /** The variance depends only on deviations from the mean, so it ignores
      a common offset. */
  lemma PopulationVarianceShift(s: seq<real>, c: real)
    requires |s| > 0
    ensures PopulationVariance(Shift(s, c)) == PopulationVariance(s)
  {
    MeanShift(s, c);
    var m := Mean(s);
    var a, b := SquaredDeviations(Shift(s, c), m + c), SquaredDeviations(s, m);
    forall i | 0 <= i < |s|
      ensures a[i] == b[i]
    {
      assert Shift(s, c)[i] - (m + c) == s[i] - m;
    }
    assert a == b;
  }

  /** A sequence whose elements all equal one constant has zero variance. */
  lemma PopulationVarianceOfConstant(s: seq<real>, c: real)
    requires |s| > 0
    requires forall i :: 0 <= i < |s| ==> s[i] == c
    ensures PopulationVariance(s) == 0.0
  {
    SumOfConstant(s, c);
    assert Mean(s) == c;
    SumZeroIff(SquaredDeviations(s, c));
  }

  // ---------------------------------------------------------------------
  // Sorting

  predicate Sorted(s: seq<real>)
  {
    forall i, j :: 0 <= i < j < |s| ==> s[i] <= s[j]
  }

  /** Inserts `x` into a sorted sequence, keeping it sorted. */
  function Insert(x: real, s: seq<real>): (r: seq<real>)
    requires Sorted(s)
    ensures Sorted(r)
    ensures |r| == |s| + 1
    ensures multiset(r) == multiset(s) + multiset{x}
    ensures r[0] == if |s| == 0 || x <= s[0] then x else s[0]
  {
    if |s| == 0 then [x]
    else if x <= s[0] then [x] + s
    else
      var rest := Insert(x, s[1..]);
      assert s == [s[0]] + s[1..];
      assert s[0] <= rest[0];
      SortedCons(s[0], rest);
      [s[0]] + rest
  }

  lemma SortedCons(x: real, s: seq<real>)
    requires Sorted(s) && |s| > 0 && x <= s[0]
    ensures Sorted([x] + s)
  {
  }

  /** Ascending sort, a permutation of its input. */
  function Sort(s: seq<real>): (r: seq<real>)
    ensures Sorted(r)
    ensures |r| == |s|
    ensures multiset(r) == multiset(s)
  {
    if |s| == 0 then []
    else
      assert s == [s[0]] + s[1..];
      Insert(s[0], Sort(s[1..]))
  }

  /** The first and last elements of a sorted permutation are the extremes. */
  lemma SortExtremes(s: seq<real>)
    requires |s| > 0
    ensures Sort(s)[0] in s && Sort(s)[|s| - 1] in s
    ensures forall i :: 0 <= i < |s| ==> Sort(s)[0] <= s[i] <= Sort(s)[|s| - 1]
  {
    var r := Sort(s);
    SameMembers(r, s, r[0]);
    SameMembers(r, s, r[|s| - 1]);
    forall i | 0 <= i < |s|
      ensures r[0] <= s[i] <= r[|s| - 1]
    {
      SameMembers(r, s, s[i]);
      SortedBetweenEnds(r, s[i]);
    }
  }

  lemma SameMembers(r: seq<real>, s: seq<real>, x: real)
    requires multiset(r) == multiset(s)
    ensures x in r <==> x in s
  {
    assert x in r <==> x in multiset(r);
    assert x in s <==> x in multiset(s);
  }

  lemma SortedBetweenEnds(r: seq<real>, x: real)
    requires Sorted(r) && x in r
    ensures r[0] <= x <= r[|r| - 1]
  {
    var j :| 0 <= j < |r| && r[j] == x;
  }

  /** Smallest and largest element, the ends of the sorted sequence. */
  function Extremes(s: seq<real>): (r: (real, real))
    requires |s| > 0
    ensures r.0 == Sort(s)[0] && r.1 == Sort(s)[|s| - 1]
    ensures r.0 in s && r.1 in s
    ensures forall i :: 0 <= i < |s| ==> r.0 <= s[i] <= r.1
  {
    SortExtremes(s);
    (Sort(s)[0], Sort(s)[|s| - 1])
  }

  // ---------------------------------------------------------------------
  // Quantiles

  /** The position q (n - 1) at which quantile `q` interpolates. */
  function VirtualIndex(n: nat, q: real): (h: real)
  {
    q * ((n - 1) as real)
  }

  /** The lower order statistic the interpolation starts from. */
  function LowerIndex(n: nat, q: real): (k: nat)
    requires n > 0 && 0.0 <= q <= 1.0
    ensures k <= n - 1
    ensures k as real <= VirtualIndex(n, q) < k as real + 1.0
  {
    VirtualIndexBounds(n, q);
    VirtualIndex(n, q).Floor
  }

  lemma VirtualIndexBounds(n: nat, q: real)
    requires n > 0 && 0.0 <= q <= 1.0
    ensures 0.0 <= VirtualIndex(n, q) <= (n - 1) as real
  {
    var d := (n - 1) as real;
    var h, lo, hi := q * d, 0.0 * d, 1.0 * d;
    MulMonotone(d, 0.0, q);
    MulMonotone(d, q, 1.0);
    assert lo <= h <= hi;
    assert lo == 0.0 && hi == d;
    assert VirtualIndex(n, q) == h;
  }

  /** The `q`-quantile of a sorted sequence by linear interpolation between
      the two order statistics around position (n - 1) q. */
  function Quantile(xs: seq<real>, q: real): (r: real)
    requires |xs| > 0 && Sorted(xs) && 0.0 <= q <= 1.0
    ensures xs[0] <= r <= xs[|xs| - 1]
  {
    var k := LowerIndex(|xs|, q);
    if k + 1 < |xs| then
      var t := VirtualIndex(|xs|, q) - k as real;
      Interpolated(xs[k], xs[k + 1], t)
    else xs[k]
  }

  /** `a + t (b - a)` for `t` in [0, 1), lying between `a` and `b`. */
  function Interpolated(a: real, b: real, t: real): (r: real)
    requires a <= b && 0.0 <= t < 1.0
    ensures a <= r <= b
  {
    InterpolationBetween(a, b, t);
    a + t * (b - a)
  }

  lemma InterpolationBetween(a: real, b: real, t: real)
    requires a <= b && 0.0 <= t <= 1.0
    ensures a <= a + t * (b - a) <= b
  {
    MulMonotone(b - a, 0.0, t);
    MulMonotone(b - a, t, 1.0);
  }

  lemma InterpolatedMonotone(a: real, b: real, t1: real, t2: real)
    requires a <= b && 0.0 <= t1 <= t2 < 1.0
    ensures Interpolated(a, b, t1) <= Interpolated(a, b, t2)
  {
    var w := b - a;
    var x1, x2 := t1 * w, t2 * w;
    MulMonotone(w, t1, t2);
    assert x1 <= x2;
    assert Interpolated(a, b, t1) == a + x1;
    assert Interpolated(a, b, t2) == a + x2;
  }

  lemma MulMonotone(d: real, t1: real, t2: real)
    requires 0.0 <= d && t1 <= t2
    ensures t1 * d <= t2 * d
  {
    assert t2 * d - t1 * d == (t2 - t1) * d;
  }

  /** The virtual index, and hence its floor, grows with the level. */
  lemma VirtualIndexMonotone(n: nat, q1: real, q2: real)
    requires n > 0 && 0.0 <= q1 <= q2 <= 1.0
    ensures VirtualIndex(n, q1) <= VirtualIndex(n, q2)
    ensures LowerIndex(n, q1) <= LowerIndex(n, q2)
  {
    var d := (n - 1) as real;
    MulMonotone(d, q1, q2);
  }

  /** Only zero squares to zero. */
  lemma SquareZero(x: real)
    requires 0.0 <= x && x * x == 0.0
    ensures x == 0.0
  {
    SquareOverSelf(x);
  }

  lemma SquareOverSelf(x: real)
    ensures x != 0.0 ==> x * x / x == x
  {
    if x != 0.0 {
      assert x * x / x == x * (x / x);
    }
  }

  /** A ratio of a non-negative number to a larger one lies in [0, 1). */
  lemma RatioBelowOne(a: real, d: real)
    requires 0.0 <= a < d
    ensures 0.0 <= a / d < 1.0
    ensures a / d * d == a
  {
    if a / d >= 1.0 {
      MulMonotone(d, 1.0, a / d);
    }
  }

  /** Dividing by a positive number keeps the order. */
  lemma DivMonotone(a1: real, a2: real, d: real)
    requires a1 <= a2 && 0.0 < d
    ensures a1 / d <= a2 / d
  {
  }

  /** The quartiles and the median lie in order between the extremes. */
  lemma QuartilesOrdered(xs: seq<real>)
    requires |xs| > 0 && Sorted(xs)
    ensures xs[0] <= Quantile(xs, 0.25) <= Median(xs) <= Quantile(xs, 0.75) <= xs[|xs| - 1]
  {
    QuantileMonotone(xs, 0.25, 0.5);
    QuantileMonotone(xs, 0.5, 0.75);
    MedianIsQuantile(xs);
  }

  /** Quantiles are monotone in the requested level. */
  lemma QuantileMonotone(xs: seq<real>, q1: real, q2: real)
    requires |xs| > 0 && Sorted(xs)
    requires 0.0 <= q1 <= q2 <= 1.0
    ensures Quantile(xs, q1) <= Quantile(xs, q2)
  {
    var n := |xs|;
    var k1, k2 := LowerIndex(n, q1), LowerIndex(n, q2);
    VirtualIndexMonotone(n, q1, q2);
    if k1 == k2 {
      if k1 + 1 < n {
        var t1, t2 := VirtualIndex(n, q1) - k1 as real, VirtualIndex(n, q2) - k1 as real;
        InterpolatedMonotone(xs[k1], xs[k1 + 1], t1, t2);
      } else {
        assert Quantile(xs, q1) == xs[k1] == Quantile(xs, q2);
      }
    } else {
      assert Quantile(xs, q1) <= xs[k1 + 1];
      assert xs[k1 + 1] <= xs[k2];
    }
  }

  /** The 0-quantile is the minimum and the 1-quantile the maximum. */
  lemma QuantileEnds(xs: seq<real>)
    requires |xs| > 0 && Sorted(xs)
    ensures Quantile(xs, 0.0) == xs[0]
    ensures Quantile(xs, 1.0) == xs[|xs| - 1]
  {
    assert LowerIndex(|xs|, 1.0) == |xs| - 1;
  }

  /** The median as a data frame computes it: the middle element of the
      sorted values, or the average of the two middle ones. */
  function Median(xs: seq<real>): (m: real)
    requires |xs| > 0 && Sorted(xs)
    ensures xs[0] <= m <= xs[|xs| - 1]
    ensures |xs| % 2 == 1 ==> m in xs
  {
    var n := |xs|;
    if n % 2 == 1 then xs[n / 2] else (xs[n / 2 - 1] + xs[n / 2]) / 2.0
  }

  /** The median is the 0.5-quantile of the interpolating definition. */
  lemma {:induction false} MedianIsQuantile(xs: seq<real>)
    requires |xs| > 0 && Sorted(xs)
    ensures Median(xs) == Quantile(xs, 0.5)
  {
    var n := |xs|;
    var h := VirtualIndex(n, 0.5);
    if n % 2 == 1 {
      assert h == (n / 2) as real;
      assert LowerIndex(n, 0.5) == n / 2;
      if n / 2 + 1 < n {
        assert Interpolated(xs[n / 2], xs[n / 2 + 1], 0.0) == xs[n / 2];
      }
    } else {
      assert h == (n / 2 - 1) as real + 0.5;
      assert LowerIndex(n, 0.5) == n / 2 - 1;
    }
  }

  /** The median lies between the extremes of a sorted sequence. */
  lemma MedianBounds(xs: seq<real>)
    requires |xs| > 0 && Sorted(xs)
    ensures xs[0] <= Median(xs) <= xs[|xs| - 1]
  {
    MedianIsQuantile(xs);
  }

  /** Absolute value. */
  function Abs(x: real): (r: real)
    ensures 0.0 <= r && (r == x || r == -x)
  {
    if x < 0.0 then -x else x
  }

  /** The absolute deviations of every element from `c`. */
  function AbsoluteDeviations(s: seq<real>, c: real): (r: seq<real>)
    ensures |r| == |s|
    ensures forall i :: 0 <= i < |s| ==> r[i] == Abs(s[i] - c)
  {
    seq(|s|, i requires 0 <= i < |s| => Abs(s[i] - c))
  }

  /** Normal consistency constant: the 0.75 quantile of the standard normal
      distribution. Dividing by it makes the MAD comparable to a standard
      deviation. */
  const MadConsistency: real := 0.6744897501960817

  /** Median absolute deviation from the median, normalised. */
  function Mad(s: seq<real>): (m: real)
    requires |s| > 0
    ensures 0.0 <= m
  {
    var deviations := Sort(AbsoluteDeviations(s, Median(Sort(s))));
    SortExtremes(AbsoluteDeviations(s, Median(Sort(s))));
    MedianBounds(deviations);
    Median(deviations) / MadConsistency
  }
}
