/** The univariate ensemble engine: baseline statistics computed once, three
    bounded per-value tests (distance from the mean in standard deviations,
    distance from the median in MADs, distance outside the quartiles in
    IQRs), a weighted composition of their scores and a threshold derived
    from the sensitivity, possibly raised by the maximum-fraction quantile. */
module Univariate {
  import opened Stats
  import opened Wrappers

  /** The test families the weight table knows about. Only the first three
      are ever run. */
  datatype TestName = Sds | Iqrs | Mads | Grubbs | Dixon | Gesd | GaussianMixture

  /** Fixed weight table: robust dispersion measures weigh more. */
  const Weights: map<TestName, real> :=
    map[Sds := 0.25, Iqrs := 0.35, Mads := 0.45, Grubbs := 0.05, Dixon := 0.15,
        Gesd := 0.3, GaussianMixture := 1.5]

  /** Which tests ran (1) or not (0). All three realised tests always run. */
  const TestsRun: map<TestName, nat> := map[Sds := 1, Mads := 1, Iqrs := 1]

  /** Fence multipliers: 3 standard deviations, 3 MADs, 1.5 IQRs. */
  const SdFence: real := 3.0
  const MadFence: real := 3.0
  const IqrFence: real := 1.5

  const MinimumPoints: nat := 3

  // ---------------------------------------------------------------------
  // Baseline statistics

  datatype Baseline = Baseline(
    mean: real, sd: real, min: real, max: real,
    p25: real, median: real, p75: real, iqr: real, mad: real, len: nat)

  /** Summary statistics of the untransformed values. `root` stands for the
      square root taken by the sample standard deviation. */
  function BaseCalculations(xs: seq<real>, root: real -> real): (b: Baseline)
    requires |xs| >= 2
    ensures b.len == |xs|
    ensures b.min in xs && b.max in xs
    ensures forall i :: 0 <= i < |xs| ==> b.min <= xs[i] <= b.max
    ensures b.min <= b.p25 <= b.median <= b.p75 <= b.max
    ensures b.min <= b.mean <= b.max
    ensures b.iqr == b.p75 - b.p25 && 0.0 <= b.iqr
    ensures 0.0 <= b.mad
    ensures IsSqrt(root) ==> IsRootOf(b.sd, SampleVariance(xs))
  {
    BaselineWithSd(xs, SampleSd(xs, root))
  }

  /** Every baseline statistic but the standard deviation, which is given. */
  function BaselineWithSd(xs: seq<real>, sd: real): (b: Baseline)
    requires |xs| >= 2
    ensures b.sd == sd && b.len == |xs|
    ensures b.min in xs && b.max in xs
    ensures forall i :: 0 <= i < |xs| ==> b.min <= xs[i] <= b.max
    ensures b.min <= b.p25 <= b.median <= b.p75 <= b.max
    ensures b.min <= b.mean <= b.max
    ensures b.iqr == b.p75 - b.p25 && 0.0 <= b.iqr
    ensures 0.0 <= b.mad
  {
    var sorted := Sort(xs);
    BaselineOrder(xs, sorted);
    var ends := Extremes(xs);
    var p25, p75 := Quantile(sorted, 0.25), Quantile(sorted, 0.75);
    Baseline(
      mean := Mean(xs),
      sd := sd,
      min := ends.0,
      max := ends.1,
      p25 := p25,
      median := Median(sorted),
      p75 := p75,
      iqr := p75 - p25,
      mad := Mad(xs),
      len := |xs|)
  }

  /** The order facts behind the baseline: the ends of the sorted values are
      the extremes, and the quartiles, the median and the mean lie between. */
  lemma BaselineOrder(xs: seq<real>, sorted: seq<real>)
    requires |xs| > 0 && sorted == Sort(xs)
    ensures sorted[0] in xs && sorted[|xs| - 1] in xs
    ensures forall i :: 0 <= i < |xs| ==> sorted[0] <= xs[i] <= sorted[|xs| - 1]
    ensures sorted[0] <= Quantile(sorted, 0.25) <= Median(sorted)
    ensures Median(sorted) <= Quantile(sorted, 0.75) <= sorted[|xs| - 1]
    ensures sorted[0] <= Mean(xs) <= sorted[|xs| - 1]
  {
    SortExtremes(xs);
    MeanBetween(xs, sorted[0], sorted[|xs| - 1]);
    QuartilesOrdered(sorted);
  }

  // ---------------------------------------------------------------------
  // The per-value tests

  /** Linear ramp from the midpoint up to a fence `n * distance` away,
      saturating at 1 on and beyond the fence. A zero spread fails the
      strict comparison, so every value saturates without any division. */
  function CheckStat(val: real, midpoint: real, distance: real, n: real): (r: real)
    ensures 0.0 <= r <= 1.0
    ensures r == 1.0 <==> n * distance <= Abs(val - midpoint)
    ensures r < 1.0 ==> r * (n * distance) == Abs(val - midpoint)
    ensures n * distance <= 0.0 ==> r == 1.0
  {
    var deviation := Abs(val - midpoint);
    if deviation < n * distance then
      RatioBelowOne(deviation, n * distance);
      deviation / (n * distance)
    else 1.0
  }

  /** Standard-deviation test: the ramp around the mean. */
  function CheckSd(val: real, mean: real, sd: real, fence: real): (r: real)
    ensures 0.0 <= r <= 1.0
    ensures r == 1.0 <==> fence * sd <= Abs(val - mean)
  {
    CheckStat(val, mean, sd, fence)
  }

  /** MAD test: the ramp around the median. */
  function CheckMad(val: real, median: real, mad: real, fence: real): (r: real)
    ensures 0.0 <= r <= 1.0
    ensures r == 1.0 <==> fence * mad <= Abs(val - median)
  {
    CheckStat(val, median, mad, fence)
  }

  /** A value further from the midpoint never scores lower. */
  lemma CheckStatMonotone(v1: real, v2: real, midpoint: real, distance: real, n: real)
    requires Abs(v1 - midpoint) <= Abs(v2 - midpoint)
    ensures CheckStat(v1, midpoint, distance, n) <= CheckStat(v2, midpoint, distance, n)
  {
    var a1, a2, fence := Abs(v1 - midpoint), Abs(v2 - midpoint), n * distance;
    if a1 < fence && a2 < fence {
      DivMonotone(a1, a2, fence);
    } else if a1 < fence {
      RatioBelowOne(a1, fence);
    }
  }

  /** Inter-quartile test, looking in one direction only: below the median
      it measures how far the value lies under p25, at or above the median
      how far it lies over p75, as a ramp up to `fence * iqr`. */
  function CheckIqr(val: real, median: real, p25: real, p75: real, iqr: real, fence: real): (r: real)
    ensures 0.0 <= r <= 1.0
    ensures p25 <= median <= p75 && p25 < val < p75 ==> r == 0.0
    ensures 0.0 < r ==> val <= p25 || p75 <= val
    ensures val < median && val <= p25 ==> (r == 1.0 <==> fence * iqr <= p25 - val)
    ensures median <= val && p75 <= val ==> (r == 1.0 <==> fence * iqr <= val - p75)
    ensures fence * iqr <= 0.0 ==> r == 0.0 || r == 1.0
    ensures val < median && val <= p25 && p25 - val < fence * iqr ==> r * (fence * iqr) == p25 - val
    ensures median <= val && p75 <= val && val - p75 < fence * iqr ==> r * (fence * iqr) == val - p75
  {
    if val < median then
      if val > p25 then 0.0
      else if p25 - val < fence * iqr then
        RatioBelowOne(Abs(p25 - val), fence * iqr);
        Abs(p25 - val) / (fence * iqr)
      else 1.0
    else
      if val < p75 then 0.0
      else if val - p75 < fence * iqr then
        RatioBelowOne(Abs(val - p75), fence * iqr);
        Abs(val - p75) / (fence * iqr)
      else 1.0
  }

  /** Below the median, lower values score no less; at or above it, higher
      values score no less. */
  lemma CheckIqrMonotone(v1: real, v2: real, median: real, p25: real, p75: real, iqr: real, fence: real)
    requires v1 <= v2
    ensures v2 < median ==>
      CheckIqr(v2, median, p25, p75, iqr, fence) <= CheckIqr(v1, median, p25, p75, iqr, fence)
    ensures median <= v1 ==>
      CheckIqr(v1, median, p25, p75, iqr, fence) <= CheckIqr(v2, median, p25, p75, iqr, fence)
  {
    var f := fence * iqr;
    if v2 < median && v2 <= p25 && p25 - v1 < f {
      DivMonotone(p25 - v2, p25 - v1, f);
    }
    if median <= v1 && p75 <= v1 && v2 - p75 < f {
      DivMonotone(v1 - p75, v2 - p75, f);
    }
  }

  // ---------------------------------------------------------------------
  // Score composition

  function Get<K>(m: map<K, real>, key: K): (r: real)
  {
    if key in m then m[key] else 0.0
  }

  function GetCount<K>(m: map<K, nat>, key: K): (n: nat)
  {
    if key in m then m[key] else 0
  }

  /** A test's weight, zeroed when the test did not run. */
  function TestedWeight(weights: map<TestName, real>, testsRun: map<TestName, nat>, t: TestName): (w: real)
  {
    Get(weights, t) * GetCount(testsRun, t) as real
  }

  predicate WeightsValid(weights: map<TestName, real>, testsRun: map<TestName, nat>)
  {
    (forall t :: t in weights ==> 0.0 <= weights[t]) &&
    (forall t :: t in testsRun ==> testsRun[t] <= 1)
  }

  predicate ScoresBounded(scores: map<TestName, real>)
  {
    forall t :: t in scores ==> 0.0 <= scores[t] <= 1.0
  }

  /** Weighted sum of the standard-deviation, IQR and MAD test scores, each
      weight zeroed when its test did not run. */
  function ComposeScore(scores: map<TestName, real>, weights: map<TestName, real>, testsRun: map<TestName, nat>): (r: real)
    ensures GetCount(testsRun, Sds) == 0 && GetCount(testsRun, Iqrs) == 0 && GetCount(testsRun, Mads) == 0 ==> r == 0.0
    ensures Get(scores, Sds) == 0.0 && Get(scores, Iqrs) == 0.0 && Get(scores, Mads) == 0.0 ==> r == 0.0
  {
    Get(scores, Sds) * TestedWeight(weights, testsRun, Sds)
      + Get(scores, Iqrs) * TestedWeight(weights, testsRun, Iqrs)
      + Get(scores, Mads) * TestedWeight(weights, testsRun, Mads)
  }

  /** Bounded test scores and non-negative weights give a composed score
      between 0 and the total weight of the tests that ran. */
  lemma ComposeBounds(scores: map<TestName, real>, weights: map<TestName, real>, testsRun: map<TestName, nat>)
    requires WeightsValid(weights, testsRun) && ScoresBounded(scores)
    ensures 0.0 <= ComposeScore(scores, weights, testsRun)
    ensures ComposeScore(scores, weights, testsRun) <=
      TestedWeight(weights, testsRun, Sds) + TestedWeight(weights, testsRun, Iqrs) + TestedWeight(weights, testsRun, Mads)
  {
    TermBounds(scores, weights, testsRun, Sds);
    TermBounds(scores, weights, testsRun, Iqrs);
    TermBounds(scores, weights, testsRun, Mads);
    var a := Get(scores, Sds) * TestedWeight(weights, testsRun, Sds);
    var b := Get(scores, Iqrs) * TestedWeight(weights, testsRun, Iqrs);
    var c := Get(scores, Mads) * TestedWeight(weights, testsRun, Mads);
    assert ComposeScore(scores, weights, testsRun) == a + b + c;
  }

  lemma TermBounds(scores: map<TestName, real>, weights: map<TestName, real>, testsRun: map<TestName, nat>, t: TestName)
    ensures WeightsValid(weights, testsRun) ==> 0.0 <= TestedWeight(weights, testsRun, t)
    ensures WeightsValid(weights, testsRun) && ScoresBounded(scores) ==>
      0.0 <= Get(scores, t) * TestedWeight(weights, testsRun, t) <= TestedWeight(weights, testsRun, t)
  {
    if WeightsValid(weights, testsRun) {
      var w := TestedWeight(weights, testsRun, t);
      MulMonotone(Get(weights, t), 0.0, GetCount(testsRun, t) as real);
      if ScoresBounded(scores) {
        MulMonotone(w, 0.0, Get(scores, t));
        MulMonotone(w, Get(scores, t), 1.0);
      }
    }
  }

  /** A test that did not run contributes nothing: its score may be anything. */
  lemma ComposeIgnoresTestNotRun(scores: map<TestName, real>, weights: map<TestName, real>,
                                 testsRun: map<TestName, nat>, t: TestName, x: real)
    requires GetCount(testsRun, t) == 0
    ensures ComposeScore(scores[t := x], weights, testsRun) == ComposeScore(scores, weights, testsRun)
  {
    assert TestedWeight(weights, testsRun, t) == 0.0;
  }

  /** The composed score is monotone in every test score. */
  lemma ComposeMonotone(s1: map<TestName, real>, s2: map<TestName, real>,
                        weights: map<TestName, real>, testsRun: map<TestName, nat>)
    requires WeightsValid(weights, testsRun)
    requires forall t :: Get(s1, t) <= Get(s2, t)
    ensures ComposeScore(s1, weights, testsRun) <= ComposeScore(s2, weights, testsRun)
  {
    TermBounds(map[], weights, testsRun, Sds);
    TermBounds(map[], weights, testsRun, Iqrs);
    TermBounds(map[], weights, testsRun, Mads);
    WeightedSumMonotone(Get(s1, Sds), Get(s1, Iqrs), Get(s1, Mads), Get(s2, Sds), Get(s2, Iqrs), Get(s2, Mads),
      TestedWeight(weights, testsRun, Sds), TestedWeight(weights, testsRun, Iqrs), TestedWeight(weights, testsRun, Mads));
  }

  lemma WeightedSumMonotone(a1: real, a2: real, a3: real, b1: real, b2: real, b3: real, w1: real, w2: real, w3: real)
    requires a1 <= b1 && a2 <= b2 && a3 <= b3
    requires 0.0 <= w1 && 0.0 <= w2 && 0.0 <= w3
    ensures a1 * w1 + a2 * w2 + a3 * w3 <= b1 * w1 + b2 * w2 + b3 * w3
  {
    MulMonotone(w1, a1, b1);
    MulMonotone(w2, a2, b2);
    MulMonotone(w3, a3, b3);
  }

  /** With the engine's weights and all three tests run, a composed score
      lies in [0, 0.25 + 0.35 + 0.45]. */
  lemma EngineScoreBounds(scores: map<TestName, real>)
    requires ScoresBounded(scores)
    ensures 0.0 <= ComposeScore(scores, Weights, TestsRun) <= 1.05
  {
    assert WeightsValid(Weights, TestsRun);
    ComposeBounds(scores, Weights, TestsRun);
    assert TestedWeight(Weights, TestsRun, Sds) == 0.25;
    assert TestedWeight(Weights, TestsRun, Iqrs) == 0.35;
    assert TestedWeight(Weights, TestsRun, Mads) == 0.45;
  }

  // ---------------------------------------------------------------------
  // Outlier determination

  /** Sensitivity 100 (most sensitive) maps to threshold 0, sensitivity 0 to 1. */
  function SensitivityThreshold(sensitivity: real): (t: real)
    ensures sensitivity <= 100.0 ==> 0.0 <= t
  {
    (100.0 - sensitivity) / 100.0
  }

  /** The `(1 - maxFraction)`-quantile of the scores. */
  function MaxFractionScore(scores: seq<real>, maxFraction: real): (q: real)
    requires |scores| > 0 && 0.0 <= maxFraction <= 1.0
    ensures forall i :: 0 <= i < |scores| ==> Sort(scores)[0] <= scores[i] <= Sort(scores)[|scores| - 1]
    ensures Sort(scores)[0] <= q <= Sort(scores)[|scores| - 1]
    ensures maxFraction == 1.0 ==> q == Sort(scores)[0]
    ensures maxFraction == 0.0 ==> q == Sort(scores)[|scores| - 1]
  {
    SortExtremes(scores);
    QuantileEnds(Sort(scores));
    Quantile(Sort(scores), 1.0 - maxFraction)
  }

  /** The threshold flags are compared against: the sensitivity threshold,
      replaced by the max-fraction quantile when that is larger and the
      fraction is below 1. */
  function EffectiveThreshold(scores: seq<real>, sensitivity: real, maxFraction: real): (t: real)
    requires |scores| > 0 && 0.0 <= maxFraction <= 1.0
    ensures SensitivityThreshold(sensitivity) <= t
    ensures maxFraction < 1.0 ==> MaxFractionScore(scores, maxFraction) <= t
    ensures t == SensitivityThreshold(sensitivity) || t == MaxFractionScore(scores, maxFraction)
    ensures maxFraction == 1.0 ==> t == SensitivityThreshold(sensitivity)
  {
    var threshold := SensitivityThreshold(sensitivity);
    var capped := MaxFractionScore(scores, maxFraction);
    if capped > threshold && maxFraction < 1.0 then capped else threshold
  }

  /** Raising the sensitivity or the maximum fraction never raises the
      effective threshold. */
  lemma EffectiveThresholdAntitone(scores: seq<real>, s1: real, s2: real, mf1: real, mf2: real)
    requires |scores| > 0
    requires s1 <= s2 && 0.0 <= mf1 <= mf2 <= 1.0
    ensures EffectiveThreshold(scores, s2, mf2) <= EffectiveThreshold(scores, s1, mf1)
  {
    QuantileMonotone(Sort(scores), 1.0 - mf2, 1.0 - mf1);
  }

  /** Number of true flags. */
  function CountTrue(flags: seq<bool>): (c: nat)
    ensures c <= |flags|
  {
    if |flags| == 0 then 0 else (if flags[0] then 1 else 0) + CountTrue(flags[1..])
  }

  lemma {:induction false} CountTrueMonotone(a: seq<bool>, b: seq<bool>)
    requires |a| == |b|
    requires forall i :: 0 <= i < |a| ==> a[i] ==> b[i]
    ensures CountTrue(a) <= CountTrue(b)
  {
    if |a| > 0 {
      CountTrueMonotone(a[1..], b[1..]);
    }
  }

  lemma {:induction false} CountTrueAll(a: seq<bool>)
    ensures CountTrue(a) == |a| <==> forall i :: 0 <= i < |a| ==> a[i]
    ensures CountTrue(a) == 0 <==> forall i :: 0 <= i < |a| ==> !a[i]
  {
    if |a| > 0 {
      CountTrueAll(a[1..]);
      assert forall i :: 1 <= i < |a| ==> a[i] == a[1..][i - 1];
    }
  }

  // ---------------------------------------------------------------------
  // The engine

  /** Why a request was refused, in the order the checks are made. */
  datatype Refusal = TooFewPoints | InvalidMaxFraction | InvalidSensitivity

  datatype Diagnostic = Refused(reason: Refusal) | Ran(base: Baseline, testsRun: map<TestName, nat>)

  /** One output row: the input value, the per-test scores (empty when the
      tests did not run), the composed score and the flag. */
  datatype Row = Row(value: real, tests: map<TestName, real>, anomalyScore: real, isAnomaly: bool)

  datatype Detection = Detection(rows: seq<Row>, weights: map<TestName, real>, diagnostic: Diagnostic)

  /** The first failed input check, if any: too few values, then a maximum
      fraction outside (0, 1], then a sensitivity outside (0, 100]. */
  function Validate(count: nat, sensitivity: real, maxFraction: real): (refusal: Option<Refusal>)
    ensures refusal == Some(TooFewPoints) <==> count < MinimumPoints
    ensures refusal == Some(InvalidMaxFraction) <==>
      MinimumPoints <= count && !(0.0 < maxFraction <= 1.0)
    ensures refusal == Some(InvalidSensitivity) <==>
      MinimumPoints <= count && 0.0 < maxFraction <= 1.0 && !(0.0 < sensitivity <= 100.0)
    ensures refusal == None <==>
      MinimumPoints <= count && 0.0 < maxFraction <= 1.0 && 0.0 < sensitivity <= 100.0
  {
    if count < MinimumPoints then Some(TooFewPoints)
    else if maxFraction <= 0.0 || maxFraction > 1.0 then Some(InvalidMaxFraction)
    else if sensitivity <= 0.0 || sensitivity > 100.0 then Some(InvalidSensitivity)
    else None
  }

  /** The three test scores of one value against the baseline. */
  function TestScores(val: real, b: Baseline): (scores: map<TestName, real>)
    ensures scores.Keys == {Sds, Mads, Iqrs}
    ensures ScoresBounded(scores)
  {
    map[Sds := CheckSd(val, b.mean, b.sd, SdFence),
        Mads := CheckMad(val, b.median, b.mad, MadFence),
        Iqrs := CheckIqr(val, b.median, b.p25, b.p75, b.iqr, IqrFence)]
  }

  /** Composed score of every value. */
  function Scores(values: seq<real>, b: Baseline): (scores: seq<real>)
    ensures |scores| == |values|
    ensures forall i :: 0 <= i < |values| ==> 0.0 <= scores[i] <= 1.05
  {
    seq(|values|, i requires 0 <= i < |values| =>
      EngineScoreBounds(TestScores(values[i], b));
      ComposeScore(TestScores(values[i], b), Weights, TestsRun))
  }

  /** Every row unflagged with score 0, as returned on a refused request. */
  function Unscored(values: seq<real>): (rows: seq<Row>)
    ensures |rows| == |values|
    ensures forall i :: 0 <= i < |values| ==>
      rows[i] == Row(values[i], map[], 0.0, false)
  {
    seq(|values|, i requires 0 <= i < |values| => Row(values[i], map[], 0.0, false))
  }

  /** Score and flag every value. */
  function Detect(values: seq<real>, sensitivity: real, maxFraction: real, root: real -> real): (d: Detection)
    ensures |d.rows| == |values|
    ensures forall i :: 0 <= i < |values| ==> d.rows[i].value == values[i]
    ensures d.weights == Weights
    ensures d.diagnostic.Refused? <==> Validate(|values|, sensitivity, maxFraction).Some?
    ensures d.diagnostic.Refused? ==>
      d.diagnostic.reason == Validate(|values|, sensitivity, maxFraction).value &&
      forall i :: 0 <= i < |values| ==> !d.rows[i].isAnomaly && d.rows[i].anomalyScore == 0.0
    ensures d.diagnostic.Ran? ==>
      d.diagnostic.base == BaseCalculations(values, root) && d.diagnostic.testsRun == TestsRun &&
      forall i :: 0 <= i < |values| ==>
        && 0.0 <= d.rows[i].anomalyScore <= 1.05
        && d.rows[i].tests.Keys == {Sds, Mads, Iqrs}
        && d.rows[i].tests == TestScores(values[i], d.diagnostic.base)
        && d.rows[i].anomalyScore == Scores(values, d.diagnostic.base)[i]
        && (d.rows[i].isAnomaly <==>
              EffectiveThreshold(Scores(values, d.diagnostic.base), sensitivity, maxFraction)
                <= d.rows[i].anomalyScore)
  {
    match Validate(|values|, sensitivity, maxFraction)
    case Some(refusal) => Detection(Unscored(values), Weights, Refused(refusal))
    case None =>
      var b := BaseCalculations(values, root);
      var scores := Scores(values, b);
      var threshold := EffectiveThreshold(scores, sensitivity, maxFraction);
      Detection(ScoredRows(values, b, threshold), Weights, Ran(b, TestsRun))
  }

  /** The rows of an accepted request: each value with its test scores, its
      composed score and whether that score reaches the threshold. */
  function ScoredRows(values: seq<real>, b: Baseline, threshold: real): (rows: seq<Row>)
    ensures |rows| == |values|
    ensures forall i :: 0 <= i < |values| ==>
      && rows[i].value == values[i]
      && rows[i].tests == TestScores(values[i], b)
      && rows[i].anomalyScore == Scores(values, b)[i]
      && (rows[i].isAnomaly <==> threshold <= rows[i].anomalyScore)
  {
    var scores := Scores(values, b);
    seq(|values|, i requires 0 <= i < |values| =>
      Row(values[i], TestScores(values[i], b), scores[i], scores[i] >= threshold))
  }

  /** The flags of a detection, in row order. */
  function Flags(d: Detection): (flags: seq<bool>)
    ensures |flags| == |d.rows|
    ensures forall i :: 0 <= i < |d.rows| ==> flags[i] == d.rows[i].isAnomaly
  {
    seq(|d.rows|, i requires 0 <= i < |d.rows| => d.rows[i].isAnomaly)
  }

  function AnomalyCount(d: Detection): (n: nat)
  {
    CountTrue(Flags(d))
  }

  /** Each row flagged at a lower sensitivity or fraction is also flagged at
      a higher one: the scores do not depend on either parameter and the
      threshold only falls. */
  lemma FlagsMonotone(values: seq<real>, s1: real, s2: real, mf1: real, mf2: real, root: real -> real)
    requires s1 <= s2 <= 100.0 && mf1 <= mf2 <= 1.0
    ensures forall i :: 0 <= i < |values| ==>
      Detect(values, s1, mf1, root).rows[i].isAnomaly ==> Detect(values, s2, mf2, root).rows[i].isAnomaly
  {
    var d1, d2 := Detect(values, s1, mf1, root), Detect(values, s2, mf2, root);
    if d1.diagnostic.Ran? {
      assert d2.diagnostic.Ran?;
      var scores := Scores(values, BaseCalculations(values, root));
      var t1, t2 := EffectiveThreshold(scores, s1, mf1), EffectiveThreshold(scores, s2, mf2);
      EffectiveThresholdAntitone(scores, s1, s2, mf1, mf2);
      assert t2 <= t1;
      forall i | 0 <= i < |values| && d1.rows[i].isAnomaly
        ensures d2.rows[i].isAnomaly
      {
        assert t1 <= d1.rows[i].anomalyScore == d2.rows[i].anomalyScore;
      }
    }
  }

  /** Raising the sensitivity never decreases the number of anomalies. */
  lemma SensitivityMonotone(values: seq<real>, s1: real, s2: real, maxFraction: real, root: real -> real)
    requires s1 <= s2 <= 100.0 && maxFraction <= 1.0
    ensures AnomalyCount(Detect(values, s1, maxFraction, root)) <= AnomalyCount(Detect(values, s2, maxFraction, root))
  {
    FlagsMonotone(values, s1, s2, maxFraction, maxFraction, root);
    CountTrueMonotone(Flags(Detect(values, s1, maxFraction, root)), Flags(Detect(values, s2, maxFraction, root)));
  }

  /** Raising the maximum fraction never decreases the number of anomalies. */
  lemma MaxFractionMonotone(values: seq<real>, sensitivity: real, mf1: real, mf2: real, root: real -> real)
    requires sensitivity <= 100.0 && mf1 <= mf2 <= 1.0
    ensures AnomalyCount(Detect(values, sensitivity, mf1, root)) <= AnomalyCount(Detect(values, sensitivity, mf2, root))
  {
    FlagsMonotone(values, sensitivity, sensitivity, mf1, mf2, root);
    CountTrueMonotone(Flags(Detect(values, sensitivity, mf1, root)), Flags(Detect(values, sensitivity, mf2, root)));
  }

  /** At full sensitivity with no fraction cap every value is flagged. */
  lemma FullSensitivityFlagsAll(values: seq<real>, root: real -> real)
    requires |values| >= MinimumPoints
    ensures AnomalyCount(Detect(values, 100.0, 1.0, root)) == |values|
  {
    var d := Detect(values, 100.0, 1.0, root);
    FullSensitivityFlagsEach(values, root);
    CountTrueAll(Flags(d));
  }

  /** At full sensitivity the threshold is 0, which every score reaches. */
  lemma FullSensitivityFlagsEach(values: seq<real>, root: real -> real)
    requires |values| >= MinimumPoints
    ensures forall i :: 0 <= i < |values| ==> Detect(values, 100.0, 1.0, root).rows[i].isAnomaly
  {
    var scores := Scores(values, BaseCalculations(values, root));
    assert EffectiveThreshold(scores, 100.0, 1.0) == SensitivityThreshold(100.0) == 0.0;
  }

  /** A refused request flags nothing; in particular a maximum fraction of
      zero yields no anomalies. */
  lemma RefusedFlagsNothing(values: seq<real>, sensitivity: real, maxFraction: real, root: real -> real)
    requires Validate(|values|, sensitivity, maxFraction).Some?
    ensures AnomalyCount(Detect(values, sensitivity, maxFraction, root)) == 0
  {
    CountTrueAll(Flags(Detect(values, sensitivity, maxFraction, root)));
  }
}
