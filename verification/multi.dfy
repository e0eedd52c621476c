/** The multi-time-series engine: N aligned series of equal length L are
    each cut into L / 7 balanced segments; every segment is compared, by the
    DIFFSTD distance, with the cross-series mean of that segment position;
    within each series the distances become relative scores against a
    threshold set by the sensitivity, and segments scoring at or above
    max(0.01, (1 - max fraction)-quantile) are flagged. */
module MultiSeries {
  import opened Wrappers
  import opened Stats
  import opened Segmentation

  const MinimumPointsPerSeries: nat := 15
  const MinimumSeries: nat := 2
  /** Target number of points per segment. */
  const PointsPerSegment: nat := 7
  /** Lowest cutoff a series' scores are compared against. */
  const ScoreFloor: real := 0.01
  /** The engine's only test, DIFFSTD, carries weight 1. */
  const DiffStdWeight: real := 1.0

  /** All series have the length of the first. */
  predicate Rectangular(series: seq<seq<real>>)
  {
    forall i :: 0 <= i < |series| ==> |series[i]| == |series[0]|
  }

  /** Number of values over all series. */
  function TotalPoints(series: seq<seq<real>>): (n: nat)
  {
    if |series| == 0 then 0 else |series[0]| + TotalPoints(series[1..])
  }

  lemma {:induction false} TotalPointsRectangular(series: seq<seq<real>>, l: nat)
    requires forall i :: 0 <= i < |series| ==> |series[i]| == l
    ensures TotalPoints(series) == |series| * l
  {
    if |series| > 0 {
      TotalPointsRectangular(series[1..], l);
    }
  }

  // ---------------------------------------------------------------------
  // Validation

  datatype Refusal = TooFewPointsPerSeries | TooFewSeries | InvalidMaxFraction | InvalidSensitivity

  /** Points per series below the minimum, as the quotient total / count
      compares. With no series the quotient is not a number and the
      comparison is false. */
  predicate TooFewPoints(numSeries: nat, numPoints: nat)
  {
    numSeries > 0 && (numPoints as real) / (numSeries as real) < MinimumPointsPerSeries as real
  }

  /** The first failed input check, if any: too few points per series, then
      too few series, then a maximum fraction outside (0, 1], then a
      sensitivity outside (0, 100]. */
  function Validate(numSeries: nat, numPoints: nat, sensitivity: real, maxFraction: real): (refusal: Option<Refusal>)
    ensures refusal == Some(TooFewPointsPerSeries) <==>
      0 < numSeries && numPoints < MinimumPointsPerSeries * numSeries
    ensures refusal == Some(TooFewSeries) <==>
      !TooFewPoints(numSeries, numPoints) && numSeries < MinimumSeries
    ensures refusal == Some(InvalidMaxFraction) <==>
      !TooFewPoints(numSeries, numPoints) && MinimumSeries <= numSeries && !(0.0 < maxFraction <= 1.0)
    ensures refusal == Some(InvalidSensitivity) <==>
      !TooFewPoints(numSeries, numPoints) && MinimumSeries <= numSeries && 0.0 < maxFraction <= 1.0
      && !(0.0 < sensitivity <= 100.0)
    ensures refusal == None <==>
      MinimumPointsPerSeries * numSeries <= numPoints && MinimumSeries <= numSeries
      && 0.0 < maxFraction <= 1.0 && 0.0 < sensitivity <= 100.0
  {
    QuotientBelow(numPoints, numSeries, MinimumPointsPerSeries);
    if TooFewPoints(numSeries, numPoints) then Some(TooFewPointsPerSeries)
    else if numSeries < MinimumSeries then Some(TooFewSeries)
    else if maxFraction <= 0.0 || maxFraction > 1.0 then Some(InvalidMaxFraction)
    else if sensitivity <= 0.0 || sensitivity > 100.0 then Some(InvalidSensitivity)
    else None
  }

  lemma QuotientBelow(a: nat, b: nat, m: nat)
    ensures b > 0 ==> ((a as real) / (b as real) < m as real <==> a < m * b)
  {
    if b == 0 { return; }
    var q := (a as real) / (b as real);
    assert q * (b as real) == a as real;
    if q < m as real {
      MulMonotone(b as real, q, m as real);
    } else {
      MulMonotone(b as real, m as real, q);
    }
  }

  // ---------------------------------------------------------------------
  // Segment means

  /** The values at position `p` of every segment. */
  function Column(segments: seq<seq<real>>, p: nat): (c: seq<real>)
    requires forall i :: 0 <= i < |segments| ==> p < |segments[i]|
    ensures |c| == |segments|
    ensures forall i :: 0 <= i < |segments| ==> c[i] == segments[i][p]
  {
    seq(|segments|, i requires 0 <= i < |segments| => segments[i][p])
  }

  predicate AllOfLength(segments: seq<seq<real>>, width: nat)
  {
    forall i :: 0 <= i < |segments| ==> |segments[i]| == width
  }

  /** Pointwise average of equally long segments, one per series. */
  function SegmentMean(segments: seq<seq<real>>, width: nat): (m: seq<real>)
    requires |segments| > 0 && AllOfLength(segments, width)
    ensures |m| == width
    ensures forall p :: 0 <= p < width ==> m[p] == Mean(Column(segments, p))
  {
    seq(width, p requires 0 <= p < width => Sum(Column(segments, p)) / |segments| as real)
  }

  /** Each entry of the mean segment lies between the smallest and largest
      value the series have at that position. */
  lemma SegmentMeanBetween(segments: seq<seq<real>>, width: nat, p: nat, lo: real, hi: real)
    requires |segments| > 0 && AllOfLength(segments, width) && p < width
    requires forall i :: 0 <= i < |segments| ==> lo <= segments[i][p] <= hi
    ensures lo <= SegmentMean(segments, width)[p] <= hi
  {
    MeanBetween(Column(segments, p), lo, hi);
  }

  /** Shifting every series by `c` shifts the mean segment by `c`. */
  lemma SegmentMeanShift(segments: seq<seq<real>>, width: nat, c: real)
    requires |segments| > 0 && AllOfLength(segments, width)
    ensures AllOfLength(ShiftEach(segments, c), width)
    ensures SegmentMean(ShiftEach(segments, c), width) == Shift(SegmentMean(segments, width), c)
  {
    var shifted := ShiftEach(segments, c);
    forall p | 0 <= p < width
      ensures SegmentMean(shifted, width)[p] == SegmentMean(segments, width)[p] + c
    {
      assert Column(shifted, p) == Shift(Column(segments, p), c);
      MeanShift(Column(segments, p), c);
    }
  }

  /** Every sequence shifted by `c`. */
  function ShiftEach(ss: seq<seq<real>>, c: real): (r: seq<seq<real>>)
    ensures |r| == |ss|
    ensures forall i :: 0 <= i < |ss| ==> r[i] == Shift(ss[i], c)
  {
    seq(|ss|, i requires 0 <= i < |ss| => Shift(ss[i], c))
  }

  /** The segments of every series. */
  function SeriesSegments(series: seq<seq<real>>, k: nat): (segments: seq<seq<seq<real>>>)
    requires k > 0
    ensures |segments| == |series|
    ensures forall i :: 0 <= i < |series| ==> segments[i] == Split(series[i], k)
  {
    seq(|series|, i requires 0 <= i < |series| => Split(series[i], k))
  }

  /** Segment `j` of every series. */
  function SegmentColumn(series: seq<seq<real>>, k: nat, j: nat): (c: seq<seq<real>>)
    requires k > 0 && j < k
    ensures |c| == |series|
    ensures forall i :: 0 <= i < |series| ==> c[i] == Split(series[i], k)[j]
  {
    seq(|series|, i requires 0 <= i < |series| => Split(series[i], k)[j])
  }

  /** The mean segment at every segment position. */
  function SegmentMeans(series: seq<seq<real>>, k: nat): (means: seq<seq<real>>)
    requires |series| > 0 && Rectangular(series) && k > 0
    ensures |means| == k
    ensures forall j :: 0 <= j < k ==> |means[j]| == SegmentSize(|series[0]|, k, j)
  {
    seq(k, j requires 0 <= j < k =>
      SegmentMean(SegmentColumn(series, k, j), SegmentSize(|series[0]|, k, j)))
  }

  // ---------------------------------------------------------------------
  // DIFFSTD

  /** Elementwise differences. */
  function Differences(a: seq<real>, b: seq<real>): (d: seq<real>)
    requires |a| == |b|
    ensures |d| == |a|
    ensures forall i :: 0 <= i < |a| ==> d[i] == a[i] - b[i]
  {
    seq(|a|, i requires 0 <= i < |a| => a[i] - b[i])
  }

  /** DIFFSTD: the population standard deviation of the elementwise
      differences of two equally long segments, `root` being the square
      root. */
  function DiffStd(a: seq<real>, b: seq<real>, root: real -> real): (d: real)
    requires |a| == |b| > 0
    ensures IsSqrt(root) ==> IsRootOf(d, PopulationVariance(Differences(a, b)))
  {
    root(PopulationVariance(Differences(a, b)))
  }

  /** Two segments that differ by a constant are at distance 0. */
  lemma DiffStdOfOffset(a: seq<real>, b: seq<real>, c: real, root: real -> real)
    requires |a| == |b| > 0 && IsSqrt(root)
    requires forall i :: 0 <= i < |a| ==> a[i] - b[i] == c
    ensures DiffStd(a, b, root) == 0.0
  {
    PopulationVarianceOfConstant(Differences(a, b), c);
    SquareZero(DiffStd(a, b, root));
  }

  /** Adding a constant to either segment leaves the distance unchanged. */
  lemma DiffStdShiftInvariant(a: seq<real>, b: seq<real>, c: real, root: real -> real)
    requires |a| == |b| > 0
    ensures DiffStd(Shift(a, c), b, root) == DiffStd(a, b, root)
    ensures DiffStd(a, Shift(b, c), root) == DiffStd(a, b, root)
  {
    assert Differences(Shift(a, c), b) == Shift(Differences(a, b), c);
    assert Differences(a, Shift(b, c)) == Shift(Differences(a, b), -c);
    PopulationVarianceShift(Differences(a, b), c);
    PopulationVarianceShift(Differences(a, b), -c);
  }

  /** The distance from every segment of one series to its mean segment. */
  function SeriesDistances(values: seq<real>, means: seq<seq<real>>, k: nat, root: real -> real): (d: seq<real>)
    requires 0 < k <= |values|
    requires |means| == k && forall j :: 0 <= j < k ==> |means[j]| == SegmentSize(|values|, k, j)
    ensures |d| == k
    ensures IsSqrt(root) ==> forall j :: 0 <= j < k ==> 0.0 <= d[j]
  {
    seq(k, j requires 0 <= j < k =>
      SegmentSizePositive(|values|, k, j);
      DiffStd(Split(values, k)[j], means[j], root))
  }

  lemma SegmentSizePositive(l: nat, k: nat, j: nat)
    requires 0 < k <= l
    ensures 0 < SegmentSize(l, k, j)
  {
  }

  // ---------------------------------------------------------------------
  // Per-row layout of segment values

  /** The value of each segment repeated once per row of that segment. */
  function Expand<T>(segments: seq<seq<real>>, perSegment: seq<T>): (rows: seq<T>)
    requires |perSegment| == |segments|
  {
    Flatten(seq(|segments|, j requires 0 <= j < |segments| =>
      seq(|segments[j]|, p => perSegment[j])))
  }

  /** Index at which the `j`-th inner sequence begins in the flattening. */
  function Offset<T>(ss: seq<seq<T>>, j: nat): (o: nat)
    requires j <= |ss|
  {
    if j == 0 then 0 else Offset(ss, j - 1) + |ss[j - 1]|
  }

  lemma {:induction false} OffsetTail<T>(ss: seq<seq<T>>, j: nat)
    requires 0 < j <= |ss|
    ensures Offset(ss, j) == |ss[0]| + Offset(ss[1..], j - 1)
  {
    if j > 1 {
      OffsetTail(ss, j - 1);
    }
  }

  /** Position `p` of inner sequence `j` sits at `Offset(ss, j) + p` of the
      flattening. */
  lemma {:induction false} FlattenIndex<T>(ss: seq<seq<T>>, j: nat, p: nat)
    requires j < |ss| && p < |ss[j]|
    ensures Offset(ss, j) + p < |Flatten(ss)|
    ensures Flatten(ss)[Offset(ss, j) + p] == ss[j][p]
  {
    if j == 0 {
    } else {
      OffsetTail(ss, j);
      FlattenIndex(ss[1..], j - 1, p);
    }
  }

  lemma {:induction false} FlattenLength<T, U>(ss: seq<seq<T>>, tt: seq<seq<U>>)
    requires |ss| == |tt|
    requires forall j :: 0 <= j < |ss| ==> |ss[j]| == |tt[j]|
    ensures |Flatten(ss)| == |Flatten(tt)|
  {
    if |ss| > 0 {
      FlattenLength(ss[1..], tt[1..]);
    }
  }

  lemma {:induction false} OffsetOfSplit<T>(s: seq<T>, k: nat, j: nat)
    requires 0 < k && j <= k
    ensures Offset(Split(s, k), j) == SegmentStart(|s|, k, j)
  {
    if j > 0 {
      OffsetOfSplit(s, k, j - 1);
    }
  }

  lemma {:induction false} OffsetSameLengths<T, U>(ss: seq<seq<T>>, tt: seq<seq<U>>, j: nat)
    requires |ss| == |tt| && j <= |ss|
    requires forall i :: 0 <= i < |ss| ==> |ss[i]| == |tt[i]|
    ensures Offset(ss, j) == Offset(tt, j)
  {
    if j > 0 {
      OffsetSameLengths(ss, tt, j - 1);
    }
  }

  /** The rows of a per-segment value laid over the segments of `values`. */
  function RowLayout<T>(values: seq<real>, k: nat, perSegment: seq<T>): (rows: seq<seq<T>>)
    requires 0 < k && |perSegment| == k
    ensures |rows| == k
    ensures forall j :: 0 <= j < k ==> |rows[j]| == |Split(values, k)[j]|
  {
    var segments := Split(values, k);
    seq(|segments|, j requires 0 <= j < |segments| => seq(|segments[j]|, p => perSegment[j]))
  }

  /** Expanding over the segments of `values` gives one entry per value. */
  lemma ExpandLength<T>(values: seq<real>, k: nat, perSegment: seq<T>)
    requires 0 < k && |perSegment| == k
    ensures |Expand(Split(values, k), perSegment)| == |values|
  {
    assert Expand(Split(values, k), perSegment) == Flatten(RowLayout(values, k, perSegment));
    FlattenLength(RowLayout(values, k, perSegment), Split(values, k));
    SplitFlattens(values, k);
  }

  /** Every row of segment `j` carries the entry of segment `j`. */
  lemma ExpandAt<T>(values: seq<real>, k: nat, perSegment: seq<T>, j: nat, t: nat)
    requires 0 < k && |perSegment| == k && j < k
    requires SegmentStart(|values|, k, j) <= t < SegmentStart(|values|, k, j + 1)
    ensures t < |Expand(Split(values, k), perSegment)|
    ensures Expand(Split(values, k), perSegment)[t] == perSegment[j]
  {
    var rows := RowLayout(values, k, perSegment);
    assert Expand(Split(values, k), perSegment) == Flatten(rows);
    StartBounds(|values|, k, j + 1);
    OffsetOfSplit(values, k, j);
    OffsetSameLengths(rows, Split(values, k), j);
    FlattenIndex(rows, j, t - SegmentStart(|values|, k, j));
  }

  /** Mapping entries of `perSegment` that all satisfy `P` over the rows
      gives rows that all satisfy `P`. */
  lemma {:induction false} ExpandPreserves<T>(segments: seq<seq<real>>, perSegment: seq<T>, P: T -> bool)
    requires |perSegment| == |segments|
    requires forall j :: 0 <= j < |perSegment| ==> P(perSegment[j])
    ensures forall t :: 0 <= t < |Expand(segments, perSegment)| ==> P(Expand(segments, perSegment)[t])
  {
    if |segments| > 0 {
      ExpandPreserves(segments[1..], perSegment[1..], P);
      ExpandCons(segments, perSegment);
    }
  }

  lemma ExpandCons<T>(segments: seq<seq<real>>, perSegment: seq<T>)
    requires |perSegment| == |segments| > 0
    ensures Expand(segments, perSegment) ==
      seq(|segments[0]|, p => perSegment[0]) + Expand(segments[1..], perSegment[1..])
  {
    var inner := seq(|segments|, j requires 0 <= j < |segments| =>
      seq(|segments[j]|, p => perSegment[j]));
    assert inner[1..] == seq(|segments[1..]|, j requires 0 <= j < |segments[1..]| =>
      seq(|segments[1..][j]|, p => perSegment[1..][j]));
  }

  /** Expansion looks only at segment lengths. */
  lemma ExpandSameLengths<T>(a: seq<seq<real>>, b: seq<seq<real>>, perSegment: seq<T>)
    requires |a| == |b| == |perSegment|
    requires forall j :: 0 <= j < |a| ==> |a[j]| == |b[j]|
    ensures Expand(a, perSegment) == Expand(b, perSegment)
  {
    var ia := seq(|a|, j requires 0 <= j < |a| => seq(|a[j]|, p => perSegment[j]));
    var ib := seq(|b|, j requires 0 <= j < |b| => seq(|b[j]|, p => perSegment[j]));
    assert ia == ib;
  }

  // ---------------------------------------------------------------------
  // Scoring

  /** A relative score, or the not-a-number that 0 / 0 yields. */
  datatype Score = Num(v: real) | NaN

  /** The distance above which a segment scores positively: the mean
      distance plus (1.5 - sensitivity / 100) times itself. */
  function Threshold(meanDistance: real, sensitivity: real): (t: real)
  {
    meanDistance + (1.5 - sensitivity / 100.0) * meanDistance
  }

  /** For a sensitivity up to 100 the threshold is at least one and a half
      times the mean distance, and it is zero only when the mean is. */
  lemma ThresholdBounds(m: real, s: real)
    ensures 0.0 <= m && s <= 100.0 ==> 1.5 * m <= Threshold(m, s)
    ensures s < 250.0 ==> (Threshold(m, s) == 0.0 <==> m == 0.0)
  {
    var factor := 2.5 - s / 100.0;
    assert Threshold(m, s) == factor * m;
    if 0.0 <= m && s <= 100.0 {
      MulMonotone(m, 1.5, factor);
    }
    if s < 250.0 && m != 0.0 {
      ProductNonZero(factor, m);
    }
  }

  /** At the ends of the sensitivity range the threshold is two and a half
      (sensitivity 0) or one and a half (sensitivity 100) times the mean
      distance: a mean of 10 gives 25 and 15. */
  lemma ThresholdAtEnds(m: real)
    ensures Threshold(m, 0.0) == 2.5 * m
    ensures Threshold(m, 100.0) == 1.5 * m
    ensures Threshold(10.0, 0.0) == 25.0 && Threshold(10.0, 100.0) == 15.0
  {
  }

  lemma ProductNonZero(a: real, b: real)
    requires a > 0.0 && b != 0.0
    ensures a * b != 0.0
  {
    if b > 0.0 {
      MulMonotone(a, 0.0, b);
      assert a * b == b * a;
      RatioPositive(a, b);
    } else {
      RatioPositive(a, -b);
      assert a * b == -(a * -b);
    }
  }

  lemma RatioPositive(a: real, b: real)
    requires a > 0.0 && b > 0.0
    ensures a * b > 0.0
  {
  }

  /** A higher sensitivity never raises the threshold. */
  lemma ThresholdAntitone(meanDistance: real, s1: real, s2: real)
    requires 0.0 <= meanDistance && s1 <= s2
    ensures Threshold(meanDistance, s2) <= Threshold(meanDistance, s1)
  {
    MulMonotone(meanDistance, 1.5 - s2 / 100.0, 1.5 - s1 / 100.0);
  }

  /** How far a distance lies above the threshold, as a fraction of the
      threshold; a zero threshold gives not-a-number. */
  function RelativeScore(distance: real, threshold: real): (s: Score)
    ensures s.Num? <==> threshold != 0.0
    ensures s.Num? ==> s.v * threshold == distance - threshold
    ensures 0.0 < threshold && 0.0 <= distance ==> s.Num? && -1.0 <= s.v
    ensures 0.0 < threshold ==> s.Num? && (0.0 <= s.v <==> threshold <= distance)
  {
    if threshold == 0.0 then NaN
    else
      RatioBounds(distance, threshold);
      Num((distance - threshold) / threshold)
  }

  lemma RatioBounds(d: real, t: real)
    requires t != 0.0
    ensures (d - t) / t * t == d - t
    ensures 0.0 < t && 0.0 <= d ==> -1.0 <= (d - t) / t
    ensures 0.0 < t ==> (0.0 <= (d - t) / t <==> t <= d)
  {
    var r := (d - t) / t;
    assert r * t == d - t;
    if 0.0 < t {
      var minusOne, zero := -t / t, 0.0 / t;
      assert minusOne == -1.0 && zero == 0.0;
      if 0.0 <= d {
        DivMonotone(-t, d - t, t);
      }
      if t <= d {
        DivMonotone(0.0, d - t, t);
      } else if 0.0 <= r {
        MulMonotone(t, 0.0, r);
        assert false;
      }
    }
  }

  /** Larger distances score higher against the same positive threshold. */
  lemma RelativeScoreMonotone(d1: real, d2: real, threshold: real)
    requires d1 <= d2 && 0.0 < threshold
    ensures RelativeScore(d1, threshold).v <= RelativeScore(d2, threshold).v
  {
    DivMonotone(d1 - threshold, d2 - threshold, threshold);
  }

  /** No score is not-a-number. */
  predicate AllNumbers(scores: seq<Score>)
  {
    forall i :: 0 <= i < |scores| ==> scores[i].Num?
  }

  /** The values of scores that are all numbers. */
  function Numbers(scores: seq<Score>): (xs: seq<real>)
    requires AllNumbers(scores)
    ensures |xs| == |scores|
    ensures forall i :: 0 <= i < |scores| ==> xs[i] == scores[i].v
  {
    seq(|scores|, i requires 0 <= i < |scores| => scores[i].v)
  }

  /** The (1 - max fraction)-quantile of a series' row scores; any
      not-a-number among them makes it not-a-number. */
  function MaxFractionScore(scores: seq<Score>, maxFraction: real): (q: Score)
    requires |scores| > 0 && 0.0 <= maxFraction <= 1.0
    ensures q.Num? <==> AllNumbers(scores)
    ensures q.Num? ==> Sort(Numbers(scores))[0] <= q.v <= Sort(Numbers(scores))[|scores| - 1]
  {
    if AllNumbers(scores) then
      var sorted := Sort(Numbers(scores));
      Num(Quantile(sorted, 1.0 - maxFraction))
    else
      NaN
  }

  /** The larger of the floor and the quantile score, keeping the floor
      when the quantile is not a number. */
  function Cutoff(scores: seq<Score>, maxFraction: real): (c: real)
    requires |scores| > 0 && 0.0 <= maxFraction <= 1.0
    ensures ScoreFloor <= c
    ensures MaxFractionScore(scores, maxFraction).Num? ==>
      MaxFractionScore(scores, maxFraction).v <= c &&
      (c == ScoreFloor || c == MaxFractionScore(scores, maxFraction).v)
    ensures MaxFractionScore(scores, maxFraction).NaN? ==> c == ScoreFloor
  {
    match MaxFractionScore(scores, maxFraction)
    case NaN => ScoreFloor
    case Num(q) => if ScoreFloor < q then q else ScoreFloor
  }

  /** A larger maximum fraction never raises the cutoff. */
  lemma CutoffAntitone(scores: seq<Score>, mf1: real, mf2: real)
    requires |scores| > 0 && 0.0 <= mf1 <= mf2 <= 1.0
    ensures Cutoff(scores, mf2) <= Cutoff(scores, mf1)
  {
    if AllNumbers(scores) {
      QuantileMonotone(Sort(Numbers(scores)), 1.0 - mf2, 1.0 - mf1);
    }
  }

  /** A row is flagged when its score is a number at or above the cutoff. */
  predicate Flagged(score: Score, cutoff: real): (b: bool)
    ensures score.NaN? ==> !b
    ensures ScoreFloor <= cutoff && b ==> 0.0 < score.v
  {
    score.Num? && cutoff <= score.v
  }

  // ---------------------------------------------------------------------
  // Engine

  /** Where a row sits: not segmented (refused input), or in a numbered
      segment at the given DIFFSTD distance from the mean segment. */
  datatype Placement = Unsegmented | InSegment(number: nat, distance: real)

  datatype MultiRow = MultiRow(value: real, placement: Placement, anomalyScore: Score, isAnomaly: bool)

  /** Per-series scoring diagnostics. */
  datatype SeriesScoring = SeriesScoring(meanDistance: real, threshold: real, cutoff: real)

  datatype SeriesResult = SeriesResult(rows: seq<MultiRow>, scoring: SeriesScoring)

  datatype Diagnostic =
    | Refused(reason: Refusal)
    | Ran(numSegments: nat, segmentMeans: seq<seq<real>>, scoring: seq<SeriesScoring>)

  /** Rows grouped by series, each series in time order. */
  datatype Detection = Detection(rows: seq<seq<MultiRow>>, weight: real, diagnostic: Diagnostic)

  /** Every row unflagged with score 0, as a refused input is returned. */
  function Unscored(values: seq<real>): (rows: seq<MultiRow>)
    ensures |rows| == |values|
    ensures forall t :: 0 <= t < |values| ==>
      rows[t].value == values[t] && rows[t].placement == Unsegmented &&
      rows[t].anomalyScore == Num(0.0) && !rows[t].isAnomaly
  {
    seq(|values|, t requires 0 <= t < |values| => MultiRow(values[t], Unsegmented, Num(0.0), false))
  }

  /** A per-segment value laid over the rows of `values`: every row of
      segment `j` carries entry `j`. */
  function RowExpand<T>(values: seq<real>, k: nat, perSegment: seq<T>): (rows: seq<T>)
    requires 0 < k && |perSegment| == k
    ensures |rows| == |values|
    ensures forall j :: 0 < j <= k ==> SegmentStart(|values|, k, j) <= |values|
    ensures forall j, t :: 0 <= j < k && SegmentStart(|values|, k, j) <= t < SegmentStart(|values|, k, j + 1) ==>
      rows[t] == perSegment[j]
  {
    ExpandLength(values, k, perSegment);
    SegmentsWithin(|values|, k);
    ExpandLayout(values, k, perSegment);
    Expand(Split(values, k), perSegment)
  }

  lemma ExpandLayout<T>(values: seq<real>, k: nat, perSegment: seq<T>)
    requires 0 < k && |perSegment| == k
    requires |Expand(Split(values, k), perSegment)| == |values|
    requires forall j :: 0 < j <= k ==> SegmentStart(|values|, k, j) <= |values|
    ensures forall j, t :: 0 <= j < k && SegmentStart(|values|, k, j) <= t < SegmentStart(|values|, k, j + 1) ==>
      Expand(Split(values, k), perSegment)[t] == perSegment[j]
  {
    forall j, t | 0 <= j < k && SegmentStart(|values|, k, j) <= t < SegmentStart(|values|, k, j + 1)
      ensures Expand(Split(values, k), perSegment)[t] == perSegment[j]
    {
      ExpandAt(values, k, perSegment, j, t);
    }
  }

  lemma RowExpandPreserves<T>(values: seq<real>, k: nat, perSegment: seq<T>, P: T -> bool)
    requires 0 < k && |perSegment| == k
    requires forall j :: 0 <= j < k ==> P(perSegment[j])
    ensures forall t :: 0 <= t < |values| ==> P(RowExpand(values, k, perSegment)[t])
  {
    ExpandPreserves(Split(values, k), perSegment, P);
  }

  lemma SegmentsWithin(l: nat, k: nat)
    requires 0 < k
    ensures forall j :: 0 < j <= k ==> SegmentStart(l, k, j) <= l
  {
    forall j | 0 < j <= k
      ensures SegmentStart(l, k, j) <= l
    {
      StartBounds(l, k, j);
    }
  }

  /** The relative score of every segment against one threshold. */
  function SegmentScores(distances: seq<real>, threshold: real): (scores: seq<Score>)
    ensures |scores| == |distances|
    ensures forall j :: 0 <= j < |distances| ==> scores[j] == RelativeScore(distances[j], threshold)
  {
    seq(|distances|, j requires 0 <= j < |distances| => RelativeScore(distances[j], threshold))
  }

  /** The segment placement of every segment. */
  function SegmentPlacements(distances: seq<real>): (placements: seq<Placement>)
    ensures |placements| == |distances|
    ensures forall j :: 0 <= j < |distances| ==> placements[j] == InSegment(j, distances[j])
  {
    seq(|distances|, j requires 0 <= j < |distances| => InSegment(j, distances[j]))
  }

  /** The anomaly score of every row. */
  function AnomalyScores(rows: seq<MultiRow>): (scores: seq<Score>)
    ensures |scores| == |rows|
    ensures forall t :: 0 <= t < |rows| ==> scores[t] == rows[t].anomalyScore
  {
    seq(|rows|, t requires 0 <= t < |rows| => rows[t].anomalyScore)
  }

  /** The distance of every row's segment; 0 for a row not in a segment. */
  function PlacedDistances(rows: seq<MultiRow>): (distances: seq<real>)
    ensures |distances| == |rows|
    ensures forall t :: 0 <= t < |rows| ==>
      distances[t] == if rows[t].placement.InSegment? then rows[t].placement.distance else 0.0
  {
    seq(|rows|, t requires 0 <= t < |rows| =>
      if rows[t].placement.InSegment? then rows[t].placement.distance else 0.0)
  }

  /** Row by row, the expanded placements carry the expanded distances, and
      the expanded scores are the relative scores of those distances. */
  lemma RowExpandTogether(values: seq<real>, k: nat, distances: seq<real>, threshold: real)
    requires 0 < k && |distances| == k
    ensures forall t :: 0 <= t < |values| ==>
      && RowExpand(values, k, SegmentPlacements(distances))[t] ==
           InSegment(SegmentOf(|values|, k, t), RowExpand(values, k, distances)[t])
      && RowExpand(values, k, SegmentScores(distances, threshold))[t] ==
           RelativeScore(RowExpand(values, k, distances)[t], threshold)
  {
    forall t | 0 <= t < |values|
      ensures RowExpand(values, k, SegmentPlacements(distances))[t] ==
        InSegment(SegmentOf(|values|, k, t), RowExpand(values, k, distances)[t])
      ensures RowExpand(values, k, SegmentScores(distances, threshold))[t] ==
        RelativeScore(RowExpand(values, k, distances)[t], threshold)
    {
      var j := SegmentOf(|values|, k, t);
      assert RowExpand(values, k, distances)[t] == distances[j];
      assert RowExpand(values, k, SegmentPlacements(distances))[t] == SegmentPlacements(distances)[j];
      assert RowExpand(values, k, SegmentScores(distances, threshold))[t] == SegmentScores(distances, threshold)[j];
    }
  }

  /** Scores one series from the distances of its segments: the mean
      distance over its rows sets the threshold, each segment's rows get the
      segment's relative score, and rows at or above the cutoff are flagged. */
  function ScoreSeries(values: seq<real>, k: nat, distances: seq<real>, sensitivity: real, maxFraction: real): (r: SeriesResult)
    requires 0 < k <= |values| && |distances| == k && 0.0 <= maxFraction <= 1.0
    ensures |r.rows| == |values|
    ensures forall t :: 0 <= t < |values| ==>
      && r.rows[t].value == values[t]
      && r.rows[t].placement.InSegment?
      && r.rows[t].placement.number < k
      && (r.rows[t].isAnomaly <==> Flagged(r.rows[t].anomalyScore, r.scoring.cutoff))
    ensures ScoreFloor <= r.scoring.cutoff
    ensures r.scoring.meanDistance == Mean(RowExpand(values, k, distances))
    ensures r.scoring.threshold == Threshold(r.scoring.meanDistance, sensitivity)
    ensures r.scoring.cutoff == Cutoff(RowExpand(values, k, SegmentScores(distances, r.scoring.threshold)), maxFraction)
    ensures (forall j :: 0 <= j < k ==> 0.0 <= distances[j]) ==> 0.0 <= r.scoring.meanDistance
    ensures forall j :: 0 < j <= k ==> SegmentStart(|values|, k, j) <= |values|
    ensures forall j, t :: 0 <= j < k && SegmentStart(|values|, k, j) <= t < SegmentStart(|values|, k, j + 1) ==>
      && r.rows[t].placement == InSegment(j, distances[j])
      && r.rows[t].anomalyScore == RelativeScore(distances[j], r.scoring.threshold)
  {
    MeanOfNonNegative(values, k, distances);
    var meanDistance := Mean(RowExpand(values, k, distances));
    var threshold := Threshold(meanDistance, sensitivity);
    var cutoff := Cutoff(RowExpand(values, k, SegmentScores(distances, threshold)), maxFraction);
    SeriesResult(LaidOutRows(values, k, distances, threshold, cutoff), SeriesScoring(meanDistance, threshold, cutoff))
  }

  /** The rows of one series: each carries its value, its segment's
      placement and relative score, and whether that score reaches the
      cutoff. */
  function LaidOutRows(values: seq<real>, k: nat, distances: seq<real>, threshold: real, cutoff: real): (rows: seq<MultiRow>)
    requires 0 < k <= |values| && |distances| == k
    ensures |rows| == |values|
    ensures forall t :: 0 <= t < |values| ==>
      && rows[t].value == values[t]
      && rows[t].placement.InSegment?
      && rows[t].placement.number < k
      && rows[t].anomalyScore == RowExpand(values, k, SegmentScores(distances, threshold))[t]
      && (rows[t].isAnomaly <==> Flagged(rows[t].anomalyScore, cutoff))
    ensures forall j :: 0 < j <= k ==> SegmentStart(|values|, k, j) <= |values|
    ensures forall j, t :: 0 <= j < k && SegmentStart(|values|, k, j) <= t < SegmentStart(|values|, k, j + 1) ==>
      && rows[t].placement == InSegment(j, distances[j])
      && rows[t].anomalyScore == RelativeScore(distances[j], threshold)
  {
    var rowScores := RowExpand(values, k, SegmentScores(distances, threshold));
    var placements := SegmentPlacements(distances);
    var rowPlacements := RowExpand(values, k, placements);
    RowExpandPreserves(values, k, placements, (p: Placement) => p.InSegment? && p.number < k);
    seq(|values|, t requires 0 <= t < |values| =>
      MultiRow(values[t], rowPlacements[t], rowScores[t], Flagged(rowScores[t], cutoff)))
  }

  /** The scoring rules of one series, read off its rows: the mean distance
      is the mean of the rows' segment distances, the threshold follows from
      it, every row scores its segment's distance against the threshold, and
      the cutoff is the floor or the quantile of the rows' own scores. */
  lemma ScoreSeriesRows(values: seq<real>, k: nat, distances: seq<real>, sensitivity: real, maxFraction: real)
    requires 0 < k <= |values| && |distances| == k && 0.0 <= maxFraction <= 1.0
    ensures var r := ScoreSeries(values, k, distances, sensitivity, maxFraction);
      && r.scoring.meanDistance == Mean(PlacedDistances(r.rows))
      && r.scoring.threshold == Threshold(r.scoring.meanDistance, sensitivity)
      && r.scoring.cutoff == Cutoff(AnomalyScores(r.rows), maxFraction)
      && forall t :: 0 <= t < |values| ==>
           && r.rows[t].placement == InSegment(SegmentOf(|values|, k, t), distances[SegmentOf(|values|, k, t)])
           && r.rows[t].anomalyScore == RelativeScore(r.rows[t].placement.distance, r.scoring.threshold)
  {
    var r := ScoreSeries(values, k, distances, sensitivity, maxFraction);
    var rowDistances := RowExpand(values, k, distances);
    var rowScores := RowExpand(values, k, SegmentScores(distances, r.scoring.threshold));
    var rowPlacements := RowExpand(values, k, SegmentPlacements(distances));
    RowExpandTogether(values, k, distances, r.scoring.threshold);
    forall t | 0 <= t < |values|
      ensures r.rows[t].placement == rowPlacements[t] && r.rows[t].anomalyScore == rowScores[t]
      ensures rowDistances[t] == distances[SegmentOf(|values|, k, t)]
    {
      var j := SegmentOf(|values|, k, t);
      assert r.rows[t].placement == InSegment(j, distances[j]);
      assert r.rows[t].anomalyScore == RelativeScore(distances[j], r.scoring.threshold);
    }
    assert PlacedDistances(r.rows) == rowDistances;
    assert AnomalyScores(r.rows) == rowScores;
  }

  lemma MeanOfNonNegative(values: seq<real>, k: nat, distances: seq<real>)
    requires 0 < k <= |values| && |distances| == k
    ensures (forall j :: 0 <= j < k ==> 0.0 <= distances[j]) ==> 0.0 <= Mean(RowExpand(values, k, distances))
  {
    if forall j :: 0 <= j < k ==> 0.0 <= distances[j] {
      RowExpandPreserves(values, k, distances, (d: real) => 0.0 <= d);
      SumNonNegative(RowExpand(values, k, distances));
    }
  }

  /** When the total is at least fifteen points per series, every series of
      a rectangular input is at least fifteen points long. */
  lemma LengthFromTotal(series: seq<seq<real>>)
    requires |series| > 0 && Rectangular(series)
    requires MinimumPointsPerSeries * |series| <= TotalPoints(series)
    ensures MinimumPointsPerSeries <= |series[0]|
  {
    var n, l := |series|, |series[0]|;
    TotalPointsRectangular(series, l);
    if l < MinimumPointsPerSeries {
      MulLeft(l, 14, n);
    }
  }

  /** The engine: validate, then segment every series, build the mean
      segments, measure every segment against its mean, score and flag each
      series on its own. */
  function Detect(series: seq<seq<real>>, sensitivity: real, maxFraction: real, root: real -> real): (d: Detection)
    requires Rectangular(series)
    ensures |d.rows| == |series|
    ensures forall i :: 0 <= i < |series| ==> |d.rows[i]| == |series[i]|
    ensures forall i, t :: 0 <= i < |series| && 0 <= t < |series[i]| ==> d.rows[i][t].value == series[i][t]
    ensures d.weight == DiffStdWeight
    ensures d.diagnostic.Refused? <==> Validate(|series|, TotalPoints(series), sensitivity, maxFraction).Some?
    ensures d.diagnostic.Refused? ==>
      && d.diagnostic.reason == Validate(|series|, TotalPoints(series), sensitivity, maxFraction).value
      && forall i, t :: 0 <= i < |series| && 0 <= t < |series[i]| ==>
           d.rows[i][t].placement == Unsegmented && d.rows[i][t].anomalyScore == Num(0.0) && !d.rows[i][t].isAnomaly
    ensures d.diagnostic.Ran? ==>
      && MinimumPointsPerSeries <= |series[0]|
      && d.diagnostic.numSegments == |series[0]| / PointsPerSegment
      && |d.diagnostic.segmentMeans| == d.diagnostic.numSegments
      && |d.diagnostic.scoring| == |series|
      && forall i, t :: 0 <= i < |series| && 0 <= t < |series[i]| ==>
           && ScoreFloor <= d.diagnostic.scoring[i].cutoff
           && d.rows[i][t].placement.InSegment?
           && d.rows[i][t].placement.number < d.diagnostic.numSegments
           && (d.rows[i][t].isAnomaly <==> Flagged(d.rows[i][t].anomalyScore, d.diagnostic.scoring[i].cutoff))
    ensures d.diagnostic.Ran? ==> d.diagnostic.segmentMeans == SegmentMeans(series, d.diagnostic.numSegments)
  {
    match Validate(|series|, TotalPoints(series), sensitivity, maxFraction)
    case Some(refusal) =>
      Detection(seq(|series|, i requires 0 <= i < |series| => Unscored(series[i])), DiffStdWeight, Refused(refusal))
    case None =>
      LengthFromTotal(series);
      var k := |series[0]| / PointsPerSegment;
      var means := SegmentMeans(series, k);
      var results := seq(|series|, i requires 0 <= i < |series| =>
        ScoreSeries(series[i], k, SeriesDistances(series[i], means, k, root), sensitivity, maxFraction));
      Detection(seq(|series|, i requires 0 <= i < |series| => results[i].rows), DiffStdWeight,
                Ran(k, means, seq(|series|, i requires 0 <= i < |series| => results[i].scoring)))
  }

  // ---------------------------------------------------------------------
  // Properties of the engine

  /** The engine accepts the input and scores it. */
  predicate Accepted(series: seq<seq<real>>, sensitivity: real, maxFraction: real)
  {
    Validate(|series|, TotalPoints(series), sensitivity, maxFraction).None?
  }

  /** Segments are flagged as a whole: all rows of one segment share its
      placement, its score and its flag. */
  lemma SegmentFlaggedTogether(series: seq<seq<real>>, sensitivity: real, maxFraction: real, root: real -> real,
                               i: nat, j: nat, t1: nat, t2: nat)
    requires Rectangular(series) && Accepted(series, sensitivity, maxFraction)
    requires i < |series| && j < |series[0]| / PointsPerSegment
    requires SegmentStart(|series[i]|, |series[0]| / PointsPerSegment, j) <= t1 < SegmentStart(|series[i]|, |series[0]| / PointsPerSegment, j + 1)
    requires SegmentStart(|series[i]|, |series[0]| / PointsPerSegment, j) <= t2 < SegmentStart(|series[i]|, |series[0]| / PointsPerSegment, j + 1)
    ensures t1 < |series[i]| && t2 < |series[i]|
    ensures var d := Detect(series, sensitivity, maxFraction, root);
      && d.rows[i][t1].placement == d.rows[i][t2].placement
      && d.rows[i][t1].placement.number == j
      && d.rows[i][t1].anomalyScore == d.rows[i][t2].anomalyScore
      && d.rows[i][t1].isAnomaly == d.rows[i][t2].isAnomaly
  {
    var k := |series[0]| / PointsPerSegment;
    DetectSeries(series, sensitivity, maxFraction, root, i);
    var distances := SeriesDistances(series[i], SegmentMeans(series, k), k, root);
    SeriesSegmentTogether(series[i], k, distances, sensitivity, maxFraction, j, t1, t2);
  }

  /** Within one scored series, two rows of segment `j` share its placement
      and its score, hence its flag. */
  lemma SeriesSegmentTogether(values: seq<real>, k: nat, distances: seq<real>, sensitivity: real, maxFraction: real,
                              j: nat, t1: nat, t2: nat)
    requires 0 < k <= |values| && |distances| == k && 0.0 <= maxFraction <= 1.0 && j < k
    requires SegmentStart(|values|, k, j) <= t1 < SegmentStart(|values|, k, j + 1)
    requires SegmentStart(|values|, k, j) <= t2 < SegmentStart(|values|, k, j + 1)
    ensures t1 < |values| && t2 < |values|
    ensures var r := ScoreSeries(values, k, distances, sensitivity, maxFraction);
      && r.rows[t1].placement == r.rows[t2].placement == InSegment(j, distances[j])
      && r.rows[t1].anomalyScore == r.rows[t2].anomalyScore
      && r.rows[t1].isAnomaly == r.rows[t2].isAnomaly
  {
    StartBounds(|values|, k, j + 1);
    var r := ScoreSeries(values, k, distances, sensitivity, maxFraction);
    var score := RelativeScore(distances[j], r.scoring.threshold);
    assert r.rows[t1].anomalyScore == score && r.rows[t2].anomalyScore == score;
    assert r.rows[t1].isAnomaly == Flagged(score, r.scoring.cutoff) == r.rows[t2].isAnomaly;
  }

  /** The scoring rules of every series of an accepted input, read off its
      rows: the threshold is (2.5 - sensitivity / 100) times the mean of the
      rows' segment distances, every row scores its segment's distance
      against it, and the cutoff is the larger of 0.01 and the
      (1 - max fraction)-quantile of the series' own row scores. */
  lemma DetectScoring(series: seq<seq<real>>, sensitivity: real, maxFraction: real, root: real -> real)
    requires Rectangular(series)
    ensures var d := Detect(series, sensitivity, maxFraction, root);
      d.diagnostic.Ran? ==>
        && 0.0 < maxFraction <= 1.0
        && forall i :: 0 <= i < |series| ==>
             && d.diagnostic.scoring[i].meanDistance == Mean(PlacedDistances(d.rows[i]))
             && d.diagnostic.scoring[i].threshold == Threshold(d.diagnostic.scoring[i].meanDistance, sensitivity)
             && d.diagnostic.scoring[i].cutoff == Cutoff(AnomalyScores(d.rows[i]), maxFraction)
             && forall t :: 0 <= t < |series[i]| ==>
                  d.rows[i][t].anomalyScore == RelativeScore(d.rows[i][t].placement.distance, d.diagnostic.scoring[i].threshold)
  {
    var d := Detect(series, sensitivity, maxFraction, root);
    if d.diagnostic.Ran? {
      forall i | 0 <= i < |series|
        ensures d.diagnostic.scoring[i].meanDistance == Mean(PlacedDistances(d.rows[i]))
        ensures d.diagnostic.scoring[i].threshold == Threshold(d.diagnostic.scoring[i].meanDistance, sensitivity)
        ensures d.diagnostic.scoring[i].cutoff == Cutoff(AnomalyScores(d.rows[i]), maxFraction)
        ensures forall t :: 0 <= t < |series[i]| ==>
          d.rows[i][t].anomalyScore == RelativeScore(d.rows[i][t].placement.distance, d.diagnostic.scoring[i].threshold)
      {
        DetectSeries(series, sensitivity, maxFraction, root, i);
        var k := |series[0]| / PointsPerSegment;
        ScoreSeriesRows(series[i], k, SeriesDistances(series[i], SegmentMeans(series, k), k, root), sensitivity, maxFraction);
      }
    }
  }

  /** In an accepted input every row of segment `j` of series `i` is placed
      in segment `j` at the DIFFSTD distance between that segment and the
      mean segment at position `j`. */
  lemma DetectDistances(series: seq<seq<real>>, sensitivity: real, maxFraction: real, root: real -> real,
                        i: nat, j: nat, t: nat)
    requires Rectangular(series) && Accepted(series, sensitivity, maxFraction) && i < |series|
    requires j < |series[0]| / PointsPerSegment
    requires SegmentStart(|series[i]|, |series[0]| / PointsPerSegment, j) <= t
    requires t < SegmentStart(|series[i]|, |series[0]| / PointsPerSegment, j + 1)
    ensures t < |Detect(series, sensitivity, maxFraction, root).rows[i]|
    ensures var k := |series[0]| / PointsPerSegment;
      Detect(series, sensitivity, maxFraction, root).rows[i][t].placement ==
        InSegment(j, DiffStd(Split(series[i], k)[j], SegmentMeans(series, k)[j], root))
  {
    var k := |series[0]| / PointsPerSegment;
    DetectSeries(series, sensitivity, maxFraction, root, i);
    StartBounds(|series[i]|, k, j + 1);
    var distances := SeriesDistances(series[i], SegmentMeans(series, k), k, root);
    var r := ScoreSeries(series[i], k, distances, sensitivity, maxFraction);
    assert r.rows[t].placement == InSegment(j, distances[j]);
  }

  /** The rows and scoring of series `i` in an accepted input come from
      scoring that series alone against the shared mean segments. */
  lemma DetectSeries(series: seq<seq<real>>, sensitivity: real, maxFraction: real, root: real -> real, i: nat)
    requires Rectangular(series) && Accepted(series, sensitivity, maxFraction) && i < |series|
    ensures 0 < |series[0]| / PointsPerSegment <= |series[i]|
    ensures 0.0 <= maxFraction <= 1.0
    ensures var k := |series[0]| / PointsPerSegment;
      var r := ScoreSeries(series[i], k, SeriesDistances(series[i], SegmentMeans(series, k), k, root), sensitivity, maxFraction);
      && Detect(series, sensitivity, maxFraction, root).rows[i] == r.rows
      && Detect(series, sensitivity, maxFraction, root).diagnostic.scoring[i] == r.scoring
  {
    LengthFromTotal(series);
  }

  /** Scoring one series at a larger maximum fraction keeps every score and
      lowers no cutoff, so every flagged row stays flagged. */
  lemma ScoreSeriesMaxFraction(values: seq<real>, k: nat, distances: seq<real>, sensitivity: real, mf1: real, mf2: real)
    requires 0 < k <= |values| && |distances| == k && 0.0 <= mf1 <= mf2 <= 1.0
    ensures forall t :: 0 <= t < |values| ==>
      ScoreSeries(values, k, distances, sensitivity, mf1).rows[t].anomalyScore ==
      ScoreSeries(values, k, distances, sensitivity, mf2).rows[t].anomalyScore
    ensures ScoreSeries(values, k, distances, sensitivity, mf2).scoring.cutoff <=
      ScoreSeries(values, k, distances, sensitivity, mf1).scoring.cutoff
  {
    var threshold := Threshold(Mean(RowExpand(values, k, distances)), sensitivity);
    CutoffAntitone(RowExpand(values, k, SegmentScores(distances, threshold)), mf1, mf2);
  }

  /** Raising the maximum fraction of anomalies never unflags a row. */
  lemma MaxFractionMonotone(series: seq<seq<real>>, sensitivity: real, mf1: real, mf2: real, root: real -> real)
    requires Rectangular(series) && mf1 <= mf2 <= 1.0
    ensures forall i, t :: 0 <= i < |series| && 0 <= t < |series[i]| ==>
      Detect(series, sensitivity, mf1, root).rows[i][t].isAnomaly ==>
      Detect(series, sensitivity, mf2, root).rows[i][t].isAnomaly
  {
    var d1, d2 := Detect(series, sensitivity, mf1, root), Detect(series, sensitivity, mf2, root);
    if d1.diagnostic.Ran? {
      assert d2.diagnostic.Ran?;
      var k := |series[0]| / PointsPerSegment;
      var means := SegmentMeans(series, k);
      forall i | 0 <= i < |series|
        ensures forall t :: 0 <= t < |series[i]| ==> d1.rows[i][t].isAnomaly ==> d2.rows[i][t].isAnomaly
      {
        DetectSeries(series, sensitivity, mf1, root, i);
        DetectSeries(series, sensitivity, mf2, root, i);
        ScoreSeriesMaxFraction(series[i], k, SeriesDistances(series[i], means, k, root), sensitivity, mf1, mf2);
      }
    }
  }

  /** Shifting a sequence shifts each of its segments. */
  lemma SplitShift(v: seq<real>, k: nat, c: real)
    requires k > 0
    ensures forall j :: 0 <= j < k ==> Split(Shift(v, c), k)[j] == Shift(Split(v, k)[j], c)
  {
    forall j | 0 <= j < k
      ensures Split(Shift(v, c), k)[j] == Shift(Split(v, k)[j], c)
    {
      SplitSegment(v, k, j);
      SplitSegment(Shift(v, c), k, j);
      SliceShift(v, SegmentStart(|v|, k, j), SegmentStart(|v|, k, j + 1), c);
    }
  }

  lemma SliceShift(v: seq<real>, a: nat, b: nat, c: real)
    requires a <= b <= |v|
    ensures Shift(v, c)[a..b] == Shift(v[a..b], c)
  {
  }

  /** Shifting every series shifts every mean segment. */
  lemma SegmentMeansShift(series: seq<seq<real>>, k: nat, c: real)
    requires |series| > 0 && Rectangular(series) && k > 0
    ensures Rectangular(ShiftEach(series, c))
    ensures SegmentMeans(ShiftEach(series, c), k) == ShiftEach(SegmentMeans(series, k), c)
  {
    var shifted := ShiftEach(series, c);
    forall j | 0 <= j < k
      ensures SegmentMeans(shifted, k)[j] == Shift(SegmentMeans(series, k)[j], c)
    {
      var column := SegmentColumn(series, k, j);
      forall i | 0 <= i < |series|
        ensures SegmentColumn(shifted, k, j)[i] == ShiftEach(column, c)[i]
      {
        SplitShift(series[i], k, c);
      }
      assert SegmentColumn(shifted, k, j) == ShiftEach(column, c);
      SegmentMeanShift(column, SegmentSize(|series[0]|, k, j), c);
    }
  }

  /** DIFFSTD is unchanged when both segments are shifted together. */
  lemma DiffStdBothShifted(a: seq<real>, b: seq<real>, c: real, root: real -> real)
    requires |a| == |b| > 0
    ensures DiffStd(Shift(a, c), Shift(b, c), root) == DiffStd(a, b, root)
  {
    DiffStdShiftInvariant(a, Shift(b, c), c, root);
    DiffStdShiftInvariant(a, b, c, root);
  }

  /** A series and its mean segments shifted together keep their distances. */
  lemma SeriesDistancesShift(v: seq<real>, means: seq<seq<real>>, k: nat, c: real, root: real -> real)
    requires 0 < k <= |v|
    requires |means| == k && forall j :: 0 <= j < k ==> |means[j]| == SegmentSize(|v|, k, j)
    ensures SeriesDistances(Shift(v, c), ShiftEach(means, c), k, root) == SeriesDistances(v, means, k, root)
  {
    SplitShift(v, k, c);
    forall j | 0 <= j < k
      ensures SeriesDistances(Shift(v, c), ShiftEach(means, c), k, root)[j] == SeriesDistances(v, means, k, root)[j]
    {
      SegmentSizePositive(|v|, k, j);
      DiffStdBothShifted(Split(v, k)[j], means[j], c, root);
    }
  }

  /** Row layouts depend only on the length of the series. */
  lemma RowExpandShift<T>(v: seq<real>, k: nat, perSegment: seq<T>, c: real)
    requires 0 < k && |perSegment| == k
    ensures RowExpand(Shift(v, c), k, perSegment) == RowExpand(v, k, perSegment)
  {
    ExpandSameLengths(Split(Shift(v, c), k), Split(v, k), perSegment);
  }

  /** Scoring a shifted series with the same distances changes only the
      values of its rows. */
  lemma ScoreSeriesShift(v: seq<real>, k: nat, distances: seq<real>, sensitivity: real, maxFraction: real, c: real)
    requires 0 < k <= |v| && |distances| == k && 0.0 <= maxFraction <= 1.0
    ensures ScoreSeries(Shift(v, c), k, distances, sensitivity, maxFraction).scoring ==
      ScoreSeries(v, k, distances, sensitivity, maxFraction).scoring
    ensures forall t :: 0 <= t < |v| ==>
      ScoreSeries(Shift(v, c), k, distances, sensitivity, maxFraction).rows[t] ==
      ScoreSeries(v, k, distances, sensitivity, maxFraction).rows[t].(value := v[t] + c)
  {
    RowExpandShift(v, k, distances, c);
    var threshold := Threshold(Mean(RowExpand(v, k, distances)), sensitivity);
    RowExpandShift(v, k, SegmentScores(distances, threshold), c);
    RowExpandShift(v, k, SegmentPlacements(distances), c);
  }

  /** Shifting every series keeps the shape of the input. */
  lemma ShiftKeepsShape(series: seq<seq<real>>, c: real)
    requires Rectangular(series)
    ensures Rectangular(ShiftEach(series, c))
    ensures TotalPoints(ShiftEach(series, c)) == TotalPoints(series)
  {
    if |series| > 0 {
      TotalPointsRectangular(series, |series[0]|);
      TotalPointsRectangular(ShiftEach(series, c), |series[0]|);
    }
  }

  /** Adding one constant to every value of every series changes nothing
      but the values: refusals, placements, distances, scores, flags and
      per-series scoring are all the same. */
  lemma OffsetInvariance(series: seq<seq<real>>, sensitivity: real, maxFraction: real, root: real -> real, c: real)
    requires Rectangular(series)
    ensures Rectangular(ShiftEach(series, c))
    ensures var d1, d2 := Detect(series, sensitivity, maxFraction, root), Detect(ShiftEach(series, c), sensitivity, maxFraction, root);
      && (d2.diagnostic.Refused? <==> d1.diagnostic.Refused?)
      && (d2.diagnostic.Ran? ==> d1.diagnostic.Ran? && d2.diagnostic.scoring == d1.diagnostic.scoring)
      && forall i, t :: 0 <= i < |series| && 0 <= t < |series[i]| ==>
           d2.rows[i][t] == d1.rows[i][t].(value := series[i][t] + c)
  {
    ShiftKeepsShape(series, c);
    var shifted := ShiftEach(series, c);
    var d1, d2 := Detect(series, sensitivity, maxFraction, root), Detect(shifted, sensitivity, maxFraction, root);
    assert d2.diagnostic.Refused? <==> d1.diagnostic.Refused?;
    if d1.diagnostic.Ran? {
      OffsetRan(series, sensitivity, maxFraction, root, c);
    } else {
      OffsetRefused(series, sensitivity, maxFraction, root, c);
    }
  }

  lemma OffsetRefused(series: seq<seq<real>>, sensitivity: real, maxFraction: real, root: real -> real, c: real)
    requires Rectangular(series) && Rectangular(ShiftEach(series, c))
    requires !Accepted(series, sensitivity, maxFraction) && !Accepted(ShiftEach(series, c), sensitivity, maxFraction)
    ensures forall i, t :: 0 <= i < |series| && 0 <= t < |series[i]| ==>
      Detect(ShiftEach(series, c), sensitivity, maxFraction, root).rows[i][t] ==
      Detect(series, sensitivity, maxFraction, root).rows[i][t].(value := series[i][t] + c)
  {
  }

  lemma OffsetRan(series: seq<seq<real>>, sensitivity: real, maxFraction: real, root: real -> real, c: real)
    requires Rectangular(series) && Accepted(series, sensitivity, maxFraction)
    ensures Rectangular(ShiftEach(series, c)) && Accepted(ShiftEach(series, c), sensitivity, maxFraction)
    ensures var d1, d2 := Detect(series, sensitivity, maxFraction, root), Detect(ShiftEach(series, c), sensitivity, maxFraction, root);
      && d2.diagnostic.scoring == d1.diagnostic.scoring
      && forall i, t :: 0 <= i < |series| && 0 <= t < |series[i]| ==>
           d2.rows[i][t] == d1.rows[i][t].(value := series[i][t] + c)
  {
    ShiftKeepsShape(series, c);
    var shifted := ShiftEach(series, c);
    var d1, d2 := Detect(series, sensitivity, maxFraction, root), Detect(shifted, sensitivity, maxFraction, root);
    forall i | 0 <= i < |series|
      ensures d2.diagnostic.scoring[i] == d1.diagnostic.scoring[i]
      ensures forall t :: 0 <= t < |series[i]| ==> d2.rows[i][t] == d1.rows[i][t].(value := series[i][t] + c)
    {
      OffsetSeries(series, sensitivity, maxFraction, root, c, i);
    }
    assert |d2.diagnostic.scoring| == |series| == |d1.diagnostic.scoring|;
  }

  lemma OffsetSeries(series: seq<seq<real>>, sensitivity: real, maxFraction: real, root: real -> real, c: real, i: nat)
    requires Rectangular(series) && Accepted(series, sensitivity, maxFraction) && i < |series|
    requires Rectangular(ShiftEach(series, c)) && Accepted(ShiftEach(series, c), sensitivity, maxFraction)
    ensures Detect(ShiftEach(series, c), sensitivity, maxFraction, root).diagnostic.scoring[i] ==
      Detect(series, sensitivity, maxFraction, root).diagnostic.scoring[i]
    ensures forall t :: 0 <= t < |series[i]| ==>
      Detect(ShiftEach(series, c), sensitivity, maxFraction, root).rows[i][t] ==
      Detect(series, sensitivity, maxFraction, root).rows[i][t].(value := series[i][t] + c)
  {
    var shifted := ShiftEach(series, c);
    DetectSeries(series, sensitivity, maxFraction, root, i);
    DetectSeries(shifted, sensitivity, maxFraction, root, i);
    OffsetScored(series, |series[0]| / PointsPerSegment, sensitivity, maxFraction, root, c, i);
  }

  /** Series `i` of the shifted input scores as series `i` of the original,
      row for row, with only the values moved by `c`. */
  lemma OffsetScored(series: seq<seq<real>>, k: nat, sensitivity: real, maxFraction: real, root: real -> real, c: real, i: nat)
    requires Rectangular(series) && i < |series| && 0 < k <= |series[0]| && 0.0 <= maxFraction <= 1.0
    ensures Rectangular(ShiftEach(series, c))
    ensures var shifted := ShiftEach(series, c);
      var r1 := ScoreSeries(series[i], k, SeriesDistances(series[i], SegmentMeans(series, k), k, root), sensitivity, maxFraction);
      var r2 := ScoreSeries(shifted[i], k, SeriesDistances(shifted[i], SegmentMeans(shifted, k), k, root), sensitivity, maxFraction);
      && r2.scoring == r1.scoring
      && forall t :: 0 <= t < |series[i]| ==> r2.rows[t] == r1.rows[t].(value := series[i][t] + c)
  {
    var distances := SeriesDistances(series[i], SegmentMeans(series, k), k, root);
    OffsetDistances(series, k, c, root, i);
    ScoreSeriesShift(series[i], k, distances, sensitivity, maxFraction, c);
  }

  /** Shifting every series leaves the distances of series `i` unchanged. */
  lemma OffsetDistances(series: seq<seq<real>>, k: nat, c: real, root: real -> real, i: nat)
    requires Rectangular(series) && i < |series| && 0 < k <= |series[0]|
    ensures Rectangular(ShiftEach(series, c))
    ensures SeriesDistances(ShiftEach(series, c)[i], SegmentMeans(ShiftEach(series, c), k), k, root) ==
      SeriesDistances(series[i], SegmentMeans(series, k), k, root)
  {
    var means := SegmentMeans(series, k);
    SegmentMeansShift(series, k, c);
    SeriesDistancesShift(series[i], means, k, c, root);
  }

  /** A series whose segments all lie at distance 0 has a zero threshold,
      not-a-number scores and no flagged row. */
  lemma ZeroDistancesNothingFlagged(values: seq<real>, k: nat, distances: seq<real>, sensitivity: real, maxFraction: real)
    requires 0 < k <= |values| && |distances| == k && 0.0 <= maxFraction <= 1.0
    requires forall j :: 0 <= j < k ==> distances[j] == 0.0
    ensures ScoreSeries(values, k, distances, sensitivity, maxFraction).scoring.threshold == 0.0
    ensures forall t :: 0 <= t < |values| ==>
      ScoreSeries(values, k, distances, sensitivity, maxFraction).rows[t].anomalyScore == NaN &&
      !ScoreSeries(values, k, distances, sensitivity, maxFraction).rows[t].isAnomaly
  {
    ZeroDistancesZeroThreshold(values, k, distances, sensitivity);
    NaNScoresUnflagged(values, k, distances, sensitivity, maxFraction);
  }

  lemma ZeroDistancesZeroThreshold(values: seq<real>, k: nat, distances: seq<real>, sensitivity: real)
    requires 0 < k <= |values| && |distances| == k
    requires forall j :: 0 <= j < k ==> distances[j] == 0.0
    ensures Threshold(Mean(RowExpand(values, k, distances)), sensitivity) == 0.0
  {
    var rowDistances := RowExpand(values, k, distances);
    RowExpandPreserves(values, k, distances, (d: real) => d == 0.0);
    SumOfConstant(rowDistances, 0.0);
    var n := |rowDistances| as real;
    assert Sum(rowDistances) == n * 0.0 == 0.0;
    assert Mean(rowDistances) == 0.0 / n == 0.0;
    var factor := 1.5 - sensitivity / 100.0;
    assert Threshold(0.0, sensitivity) == 0.0 + factor * 0.0 == 0.0;
  }

  /** With non-negative distances and a sensitivity up to 100 (what
      validation lets through) a zero threshold arises only when every
      segment lies at distance 0, so every score is 0 / 0, not-a-number,
      and no row is flagged. */
  lemma ZeroThresholdNothingFlagged(values: seq<real>, k: nat, distances: seq<real>, sensitivity: real, maxFraction: real)
    requires 0 < k <= |values| && |distances| == k && 0.0 <= maxFraction <= 1.0
    requires sensitivity <= 100.0
    requires forall j :: 0 <= j < k ==> 0.0 <= distances[j]
    ensures var r := ScoreSeries(values, k, distances, sensitivity, maxFraction);
      r.scoring.threshold == 0.0 ==>
        && (forall j :: 0 <= j < k ==> distances[j] == 0.0)
        && forall t :: 0 <= t < |values| ==> r.rows[t].anomalyScore == NaN && !r.rows[t].isAnomaly
  {
    var r := ScoreSeries(values, k, distances, sensitivity, maxFraction);
    if r.scoring.threshold == 0.0 {
      ZeroMeanDistance(values, k, distances, sensitivity);
      NaNScoresUnflagged(values, k, distances, sensitivity, maxFraction);
    }
  }

  /** A zero threshold over non-negative distances, at a sensitivity up to
      100, leaves every segment at distance 0. */
  lemma ZeroMeanDistance(values: seq<real>, k: nat, distances: seq<real>, sensitivity: real)
    requires 0 < k <= |values| && |distances| == k
    requires sensitivity <= 100.0
    requires forall j :: 0 <= j < k ==> 0.0 <= distances[j]
    requires Threshold(Mean(RowExpand(values, k, distances)), sensitivity) == 0.0
    ensures forall j :: 0 <= j < k ==> distances[j] == 0.0
  {
    var rowDistances := RowExpand(values, k, distances);
    ThresholdBounds(Mean(rowDistances), sensitivity);
    MeanZeroSumZero(rowDistances);
    RowExpandPreserves(values, k, distances, (d: real) => 0.0 <= d);
    SumZeroIff(rowDistances);
    forall j | 0 <= j < k
      ensures distances[j] == 0.0
    {
      SegmentSizePositive(|values|, k, j);
      assert rowDistances[SegmentStart(|values|, k, j)] == distances[j];
    }
  }

  lemma MeanZeroSumZero(s: seq<real>)
    requires |s| > 0 && Mean(s) == 0.0
    ensures Sum(s) == 0.0
  {
    var n := |s| as real;
    assert Sum(s) == Mean(s) * n;
  }

  /** The rows of a series scored against a zero threshold. */
  lemma NaNScoresUnflagged(values: seq<real>, k: nat, distances: seq<real>, sensitivity: real, maxFraction: real)
    requires 0 < k <= |values| && |distances| == k && 0.0 <= maxFraction <= 1.0
    requires Threshold(Mean(RowExpand(values, k, distances)), sensitivity) == 0.0
    ensures var r := ScoreSeries(values, k, distances, sensitivity, maxFraction);
      forall t :: 0 <= t < |values| ==> r.rows[t].anomalyScore == NaN && !r.rows[t].isAnomaly
  {
    var r := ScoreSeries(values, k, distances, sensitivity, maxFraction);
    var rowScores := RowExpand(values, k, SegmentScores(distances, 0.0));
    RowExpandPreserves(values, k, SegmentScores(distances, 0.0), (score: Score) => score.NaN?);
    forall t | 0 <= t < |values|
      ensures r.rows[t].anomalyScore == NaN && !r.rows[t].isAnomaly
    {
      assert r.rows[t].anomalyScore == rowScores[t];
    }
  }

  /** The mean of identical segments is that segment. */
  lemma MeanOfIdentical(segments: seq<seq<real>>, width: nat)
    requires |segments| > 0 && AllOfLength(segments, width)
    requires forall i :: 0 <= i < |segments| ==> segments[i] == segments[0]
    ensures SegmentMean(segments, width) == segments[0]
  {
    var n := |segments| as real;
    forall p | 0 <= p < width
      ensures SegmentMean(segments, width)[p] == segments[0][p]
    {
      var x := segments[0][p];
      SumOfConstant(Column(segments, p), x);
      assert Sum(Column(segments, p)) == n * x;
      assert SegmentMean(segments, width)[p] == Sum(Column(segments, p)) / n;
      CancelFactor(n, x);
    }
  }

  /** When every series is the same, every segment equals its mean segment,
      so (with a true square root) every distance is 0 and nothing is
      flagged. */
  lemma IdenticalSeriesNothingFlagged(series: seq<seq<real>>, sensitivity: real, maxFraction: real, root: real -> real)
    requires IsSqrt(root) && |series| > 0
    requires forall i :: 0 <= i < |series| ==> series[i] == series[0]
    ensures Rectangular(series)
    ensures forall i, t :: 0 <= i < |series| && 0 <= t < |series[i]| ==>
      !Detect(series, sensitivity, maxFraction, root).rows[i][t].isAnomaly
  {
    var d := Detect(series, sensitivity, maxFraction, root);
    if d.diagnostic.Ran? {
      var k := |series[0]| / PointsPerSegment;
      DetectSeries(series, sensitivity, maxFraction, root, 0);
      var means := SegmentMeans(series, k);
      var distances := SeriesDistances(series[0], means, k, root);
      forall j | 0 <= j < k
        ensures distances[j] == 0.0
      {
        var column := SegmentColumn(series, k, j);
        MeanOfIdentical(column, SegmentSize(|series[0]|, k, j));
        SegmentSizePositive(|series[0]|, k, j);
        DiffStdOfOffset(Split(series[0], k)[j], means[j], 0.0, root);
      }
      ZeroDistancesNothingFlagged(series[0], k, distances, sensitivity, maxFraction);
      forall i | 0 <= i < |series|
        ensures forall t :: 0 <= t < |series[i]| ==> !d.rows[i][t].isAnomaly
      {
        DetectSeries(series, sensitivity, maxFraction, root, i);
      }
    }
  }

  /** With non-negative distances and a sensitivity up to 100 no score is
      below -1: the threshold is 0 (scores are not-a-number) or positive. */
  lemma ScoresAboveMinusOne(values: seq<real>, k: nat, distances: seq<real>, sensitivity: real, maxFraction: real)
    requires 0 < k <= |values| && |distances| == k && 0.0 <= maxFraction <= 1.0 && sensitivity <= 100.0
    requires forall j :: 0 <= j < k ==> 0.0 <= distances[j]
    ensures forall t :: 0 <= t < |values| ==>
      var score := ScoreSeries(values, k, distances, sensitivity, maxFraction).rows[t].anomalyScore;
      score.NaN? || -1.0 <= score.v
  {
    var m := Mean(RowExpand(values, k, distances));
    MeanOfNonNegative(values, k, distances);
    ThresholdBounds(m, sensitivity);
    var threshold := Threshold(m, sensitivity);
    RowExpandPreserves(values, k, SegmentScores(distances, threshold),
      (score: Score) => score.NaN? || -1.0 <= score.v);
  }

  /** Number of flagged rows. */
  function FlaggedCount(rows: seq<MultiRow>): (n: nat)
    ensures n <= |rows|
  {
    if |rows| == 0 then 0 else (if rows[0].isAnomaly then 1 else 0) + FlaggedCount(rows[1..])
  }

  /** Number of flagged rows over all series. */
  function AnomalyCount(rows: seq<seq<MultiRow>>): (n: nat)
  {
    if |rows| == 0 then 0 else FlaggedCount(rows[0]) + AnomalyCount(rows[1..])
  }

  lemma {:induction false} FlaggedCountMonotone(a: seq<MultiRow>, b: seq<MultiRow>)
    requires |a| == |b|
    requires forall t :: 0 <= t < |a| ==> a[t].isAnomaly ==> b[t].isAnomaly
    ensures FlaggedCount(a) <= FlaggedCount(b)
  {
    if |a| > 0 {
      FlaggedCountMonotone(a[1..], b[1..]);
    }
  }

  lemma {:induction false} AnomalyCountMonotone(a: seq<seq<MultiRow>>, b: seq<seq<MultiRow>>)
    requires |a| == |b|
    requires forall i :: 0 <= i < |a| ==> |a[i]| == |b[i]|
    requires forall i, t :: 0 <= i < |a| && 0 <= t < |a[i]| ==> a[i][t].isAnomaly ==> b[i][t].isAnomaly
    ensures AnomalyCount(a) <= AnomalyCount(b)
  {
    if |a| > 0 {
      FlaggedCountMonotone(a[0], b[0]);
      AnomalyCountMonotone(a[1..], b[1..]);
    }
  }

  /** Raising the maximum fraction of anomalies never lowers the number of
      flagged rows. */
  lemma MaxFractionCountMonotone(series: seq<seq<real>>, sensitivity: real, mf1: real, mf2: real, root: real -> real)
    requires Rectangular(series) && mf1 <= mf2 <= 1.0
    ensures AnomalyCount(Detect(series, sensitivity, mf1, root).rows) <=
      AnomalyCount(Detect(series, sensitivity, mf2, root).rows)
  {
    MaxFractionMonotone(series, sensitivity, mf1, mf2, root);
    AnomalyCountMonotone(Detect(series, sensitivity, mf1, root).rows, Detect(series, sensitivity, mf2, root).rows);
  }

  /** With a true square root every score of an accepted input is either
      not-a-number or at least -1. */
  lemma DetectScoresAboveMinusOne(series: seq<seq<real>>, sensitivity: real, maxFraction: real, root: real -> real)
    requires IsSqrt(root) && Rectangular(series)
    ensures Detect(series, sensitivity, maxFraction, root).diagnostic.Ran? ==>
      forall i, t :: 0 <= i < |series| && 0 <= t < |series[i]| ==>
        var score := Detect(series, sensitivity, maxFraction, root).rows[i][t].anomalyScore;
        score.NaN? || -1.0 <= score.v
  {
    var d := Detect(series, sensitivity, maxFraction, root);
    if d.diagnostic.Ran? {
      var k := |series[0]| / PointsPerSegment;
      var means := SegmentMeans(series, k);
      forall i | 0 <= i < |series|
        ensures forall t :: 0 <= t < |series[i]| ==> d.rows[i][t].anomalyScore.NaN? || -1.0 <= d.rows[i][t].anomalyScore.v
      {
        DetectSeries(series, sensitivity, maxFraction, root, i);
        ScoresAboveMinusOne(series[i], k, SeriesDistances(series[i], means, k, root), sensitivity, maxFraction);
      }
    }
  }
}
