/** Balanced contiguous splitting of a sequence into `k` segments, the way
    `np.array_split(s, k)` does it: with l = |s|, q = l / k and r = l % k,
    the first r segments hold q + 1 elements and the remaining k - r hold q.
    Boundaries depend only on l and k. */
module Segmentation {

  function Min(a: nat, b: nat): (m: nat)
  {
    if a <= b then a else b
  }

  /** Number of elements in segment `j`. */
  function SegmentSize(l: nat, k: nat, j: nat): (size: nat)
    requires k > 0
  {
    l / k + (if j < l % k then 1 else 0)
  }

  /** Index at which segment `j` starts: the running total of the sizes of
      the segments before it. */
  function SegmentStart(l: nat, k: nat, j: nat): (start: nat)
    requires k > 0
  {
    if j == 0 then 0 else SegmentStart(l, k, j - 1) + SegmentSize(l, k, j - 1)
  }

  /** Closed form of the running total. */
  lemma {:induction false} StartClosedForm(l: nat, k: nat, j: nat)
    requires k > 0
    ensures SegmentStart(l, k, j) == j * (l / k) + Min(j, l % k)
  {
    if j > 0 {
      StartClosedForm(l, k, j - 1);
      assert j * (l / k) == (j - 1) * (l / k) + l / k;
    }
  }

  /** Starts are non-decreasing and the segment after the last starts at l. */
  lemma {:induction false} StartBounds(l: nat, k: nat, j: nat)
    requires 0 < k && j <= k
    ensures SegmentStart(l, k, j) <= SegmentStart(l, k, k) == l
    decreases k - j
  {
    StartClosedForm(l, k, k);
    assert k * (l / k) + l % k == l;
    if j < k {
      StartBounds(l, k, j + 1);
    }
  }

  /** The segments of `s`, in order, as `np.array_split` returns them. */
  function Split<T>(s: seq<T>, k: nat): (segments: seq<seq<T>>)
    requires k > 0
    ensures |segments| == k
    ensures forall j :: 0 <= j < k ==> |segments[j]| == SegmentSize(|s|, k, j)
  {
    var l := |s|;
    var segments := seq(k, j requires 0 <= j < k =>
      StartBounds(l, k, j + 1);
      s[SegmentStart(l, k, j)..SegmentStart(l, k, j + 1)]);
    assert forall j :: 0 <= j < k ==> |segments[j]| == SegmentSize(l, k, j) by {
      forall j | 0 <= j < k
        ensures |segments[j]| == SegmentSize(l, k, j)
      {
        StartBounds(l, k, j + 1);
        var a, b := SegmentStart(l, k, j), SegmentStart(l, k, j + 1);
        assert b == a + SegmentSize(l, k, j);
        assert segments[j] == s[a..b];
      }
    }
    segments
  }

  /** The segment that row `t` falls in. */
  function SegmentOf(l: nat, k: nat, t: nat): (j: nat)
    requires 0 < k && t < l
    ensures j < k && SegmentStart(l, k, j) <= t < SegmentStart(l, k, j + 1)
  {
    SegmentFrom(l, k, t, 0)
  }

  function SegmentFrom(l: nat, k: nat, t: nat, j: nat): (j': nat)
    requires 0 < k && j <= k && SegmentStart(l, k, j) <= t < l
    ensures j <= j' < k && SegmentStart(l, k, j') <= t < SegmentStart(l, k, j' + 1)
    decreases k - j
  {
    StartBounds(l, k, j);
    if j < k && t < SegmentStart(l, k, j + 1) then j
    else SegmentFrom(l, k, t, j + 1)
  }

  /** Concatenation of a sequence of sequences. */
  function Flatten<T>(ss: seq<seq<T>>): (flat: seq<T>)
  {
    if |ss| == 0 then [] else ss[0] + Flatten(ss[1..])
  }

  lemma FlattenFrom<T>(ss: seq<seq<T>>, a: nat)
    requires a < |ss|
    ensures Flatten(ss[a..]) == ss[a] + Flatten(ss[a + 1..])
  {
    assert ss[a..][1..] == ss[a + 1..];
  }

  lemma SliceJoin<T>(s: seq<T>, x: nat, y: nat)
    requires x <= y <= |s|
    ensures s[x..] == s[x..y] + s[y..]
  {
  }

  /** Concatenating the segments from segment `a` on gives back the suffix of
      `s` that starts where segment `a` starts. */
  lemma {:induction false} FlattenSplitFrom<T>(s: seq<T>, k: nat, a: nat)
    requires 0 < k && a <= k
    ensures SegmentStart(|s|, k, a) <= |s|
    ensures Flatten(Split(s, k)[a..]) == s[SegmentStart(|s|, k, a)..]
    decreases k - a
  {
    var l := |s|;
    StartBounds(l, k, a);
    if a < k {
      var segments := Split(s, k);
      var x, y := SegmentStart(l, k, a), SegmentStart(l, k, a + 1);
      FlattenSplitFrom(s, k, a + 1);
      assert Flatten(segments[a + 1..]) == s[y..];
      SplitSegment(s, k, a);
      assert segments[a] == s[x..y];
      FlattenFrom(segments, a);
      SliceJoin(s, x, y);
    }
  }

  /** Splitting loses and duplicates nothing: the segments concatenate back
      to the input. */
  lemma SplitFlattens<T>(s: seq<T>, k: nat)
    requires k > 0
    ensures Flatten(Split(s, k)) == s
  {
    FlattenSplitFrom(s, k, 0);
    assert Split(s, k)[0..] == Split(s, k);
  }

  /** Segment `j` is the slice of `s` between its start and the next start. */
  lemma SplitSegment<T>(s: seq<T>, k: nat, j: nat)
    requires 0 < k && j < k
    ensures SegmentStart(|s|, k, j + 1) <= |s|
    ensures Split(s, k)[j] == s[SegmentStart(|s|, k, j)..SegmentStart(|s|, k, j + 1)]
  {
    StartBounds(|s|, k, j + 1);
    var a, b := SegmentStart(|s|, k, j), SegmentStart(|s|, k, j + 1);
    assert Split(s, k)[j] == s[a..b];
  }

  /** Segment sizes differ by at most one, larger segments first. */
  lemma SplitBalanced<T>(s: seq<T>, k: nat)
    requires k > 0
    ensures forall i, j :: 0 <= i < k && 0 <= j < k ==>
      |Split(s, k)[i]| <= |Split(s, k)[j]| + 1
    ensures forall i, j :: 0 <= i <= j < k ==> |Split(s, k)[j]| <= |Split(s, k)[i]|
  {
  }

  /** Two sequences of the same length are cut at the same positions. */
  lemma SameBoundaries<T, U>(s: seq<T>, t: seq<U>, k: nat)
    requires k > 0 && |s| == |t|
    ensures forall j :: 0 <= j < k ==> |Split(s, k)[j]| == |Split(t, k)[j]|
    ensures forall j :: 0 <= j < k ==>
      SegmentStart(|s|, k, j) == SegmentStart(|t|, k, j)
  {
  }

  lemma MulLeft(a: int, b: int, c: int)
    requires a <= b && 0 <= c
    ensures a * c <= b * c
  {
    assert b * c - a * c == (b - a) * c;
  }

  /** With one segment per seven elements and at least fifteen elements
      there are at least two segments, each holding 7 to 10 elements. */
  lemma SegmentsOfSevenSizes(l: nat)
    requires 15 <= l
    ensures 2 <= l / 7
    ensures forall j :: 0 <= j < l / 7 ==> 7 <= SegmentSize(l, l / 7, j) <= 10
  {
    var k := l / 7;
    var q, r := l / k, l % k;
    assert l == k * q + r && r < k;
    assert 7 * k <= l <= 7 * k + 6;
    if q < 7 {
      MulLeft(q + 1, 7, k);
      assert false;
    }
    if 10 < q {
      MulLeft(11, q, k);
      assert false;
    }
    if q == 10 {
      assert r == 0;
    }
  }
}
