# Anomaly engines of "Finding Ghosts in Your Data", modelled in Dafny

This project models the two statistical anomaly engines of the book's
service and proves properties about them.

- **Univariate ensemble** (`code/src/app/models/univariate.py`).
  - It computes baseline statistics of one column of values.
  - It scores every value with three bounded tests: standard deviations
    from the mean, MADs from the median, and IQRs outside the quartiles.
  - It combines the three scores with a fixed weight table.
  - It flags rows against a threshold. The threshold comes from the
    sensitivity and can be raised by the `(1 - max fraction)`-quantile of
    the scores.
- **Multi-time-series engine** (`code/src/app/models/multi_timeseries.py`).
  - It cuts N aligned series into `length / 7` balanced segments, as
    `np.array_split` does.
  - It averages every segment position across the series.
  - It measures each segment against that mean segment with DIFFSTD. DIFFSTD
    is the population standard deviation of the pointwise differences.
  - Within each series, it turns distances into relative scores against a
    sensitivity-dependent threshold.
  - It flags whole segments whose score reaches `max(0.01, quantile)`.

Files:

- `wrappers.dfy`: `Option`.
- `stats.dfy` (module `Stats`):
  - sums and means;
  - an insertion sort;
  - numpy's default linear-interpolation quantile (Hyndman & Fan
    definition 7);
  - the median;
  - sample and population variance;
  - the normalised MAD.
- `segments.dfy` (module `Segmentation`): `np.array_split` boundaries.
- `univariate.dfy` (module `Univariate`): the univariate engine.
- `multi.dfy` (module `MultiSeries`): the multi-series engine.

Both engines are pure functions from the input (values, sensitivity,
maximum fraction) to a `Detection`. A `Detection` holds:

- the output rows;
- the weight table;
- a diagnostic: either the first failed input check, or the intermediate
  statistics.

Numbers are mathematical reals. The square root is not computed: each
engine takes a function `root`. Properties that need it to be a square
root assume `IsSqrt(root)`, which says that for every x ≥ 0, root(x) ≥ 0
and root(x)² = x.

Three edge cases of the code are modelled as the code behaves:

- **Zero spread in `check_stat`** (`code/src/app/models/univariate.py:89-93`).
  When the spread (sd, MAD) is 0, the strict `<` comparison fails, so the
  test returns 1.0 without dividing. `Univariate.CheckStat` states this.
- **Mean DIFFSTD of 0** (`code/src/app/models/multi_timeseries.py:116-122`).
  A series whose distances average 0 gets threshold 0, and every score is
  `0 / 0`, not a number. `max(0.01, nan)` keeps 0.01, and `nan >= 0.01` is
  false, so nothing in that series is flagged. Scores are modelled as
  `Score = Num(v) | NaN` to carry this case.
- **Zero series.** With zero series, the points-per-series quotient is
  `0 / 0`, which is not a number. The comparison `< 15` is then false, so
  the series-count refusal is reported. `MultiSeries.Validate` models this.

## Model

| member | source | states |
|---|---|---|
| Stats.Sort | code/src/app/models/univariate.py:64-65 | the values the quantile reads are the input rearranged into ascending order (a sorted permutation of the same length) |
| Stats.Quantile | code/src/app/models/univariate.py:64-65 | the linear-interpolation quantile of sorted values lies between their minimum and maximum |
| Stats.QuantileMonotone | code/src/app/models/univariate.py:150 | a higher quantile level never gives a smaller quantile |
| Stats.QuantileEnds | code/src/app/models/univariate.py:150 | level 0 gives the minimum and level 1 the maximum (so a max fraction of 1 asks for the smallest score) |
| Stats.Median | code/src/app/models/univariate.py:67 | the data-frame median of sorted values lies between their minimum and maximum, and for an odd count it is one of the values |
| Stats.MedianIsQuantile | code/src/app/models/univariate.py:67 | the data-frame median (middle element or mean of the two middle ones) equals the 0.5-quantile of the interpolating definition |
| Stats.QuartilesOrdered | code/src/app/models/univariate.py:64-67 | minimum ≤ p25 ≤ median ≤ p75 ≤ maximum |
| Stats.Extremes | code/src/app/models/univariate.py:70-71 | the minimum and maximum are values of the column and bound every value |
| Stats.MeanBetween | code/src/app/models/univariate.py:61 | a mean lies between any lower and upper bound of the values |
| Stats.SampleVariance | code/src/app/models/univariate.py:62 | the sample variance (divisor n − 1) is never negative |
| Stats.SampleSd | code/src/app/models/univariate.py:62 | with a true square root the standard deviation is non-negative and squares to the sample variance |
| Stats.Mad | code/src/app/models/univariate.py:69 | the normalised median absolute deviation is never negative |
| Stats.PopulationVariance | code/src/app/models/multi_timeseries.py:84-91 | the mean squared deviation from the mean is never negative |
| Stats.PopulationVarianceShift | code/src/app/models/multi_timeseries.py:83-91 | adding a constant to every value leaves the population variance unchanged |
| Stats.PopulationVarianceOfConstant | code/src/app/models/multi_timeseries.py:83-91 | values that are all equal have population variance 0 |
| Stats.MeanShift | code/src/app/models/multi_timeseries.py:78 | adding a constant to every value adds it to the mean |
| Segmentation.StartClosedForm | code/src/app/models/multi_timeseries.py:56 | segment j starts at j·(l div k) + min(j, l mod k), so the first l mod k segments have one extra element |
| Segmentation.Split | code/src/app/models/multi_timeseries.py:56 | splitting gives exactly k segments whose sizes are l div k plus one for the first l mod k of them |
| Segmentation.SplitSegment | code/src/app/models/multi_timeseries.py:56 | each segment is the contiguous slice between its start and the next segment's start |
| Segmentation.SplitFlattens | code/src/app/models/multi_timeseries.py:56 | concatenating the segments gives back the series: nothing is lost, duplicated or reordered |
| Segmentation.SplitBalanced | code/src/app/models/multi_timeseries.py:51-56 | segment sizes differ by at most one and never grow from one segment to the next |
| Segmentation.SameBoundaries | code/src/app/models/multi_timeseries.py:56 | two series of equal length are cut at the same positions |
| Segmentation.SegmentsOfSevenSizes | code/src/app/models/multi_timeseries.py:51-56 | with at least 15 points and l div 7 segments there are at least two segments, each holding 7 to 10 points |
| Univariate.BaselineOrder | code/src/app/models/univariate.py:60-75 | the ends of the sorted column are values of it bounding all others, and the quartiles, the median and the mean lie between them in order |
| Univariate.BaseCalculations | code/src/app/models/univariate.py:60-75 | the baseline's extremes are values of the column bounding all others; the quartiles, median and mean lie between them in order; the IQR is p75 − p25 ≥ 0; the MAD is ≥ 0; with a true root the sd squares to the sample variance |
| Univariate.CheckStat | code/src/app/models/univariate.py:83-93 | the score is in [0, 1]; it is 1 exactly when the deviation reaches n·distance; below 1 it is the fraction of n·distance the deviation covers; a zero (or negative) n·distance saturates at 1 |
| Univariate.CheckSd | code/src/app/models/univariate.py:77-78 | the sd test is in [0, 1] and saturates exactly at fence·sd from the mean |
| Univariate.CheckMad | code/src/app/models/univariate.py:80-81 | the MAD test is in [0, 1] and saturates exactly at fence·MAD from the median |
| Univariate.CheckStatMonotone | code/src/app/models/univariate.py:83-93 | a value further from the midpoint never scores lower |
| Univariate.CheckIqr | code/src/app/models/univariate.py:95-123 | the score is in [0, 1]; with ordered quartiles it is 0 strictly between p25 and p75; a positive score needs the value at or beyond a quartile; on each side it saturates exactly at fence·IQR beyond the quartile, and below that the score is the distance beyond the quartile as a fraction of fence·IQR; a zero IQR gives only 0 or 1 |
| Univariate.CheckIqrMonotone | code/src/app/models/univariate.py:95-123 | below the median lower values score no less, at or above it higher values score no less |
| Univariate.ComposeScore | code/src/app/models/univariate.py:132-136 | the weighted score is 0 when none of the three tests ran and when all three scored 0 (bounds, monotonicity and indifference to tests not run are the lemmas below) |
| Univariate.ComposeBounds | code/src/app/models/univariate.py:125-136 | with scores in [0, 1] and non-negative weights the composed score lies between 0 and the total weight of the tests that ran |
| Univariate.ComposeIgnoresTestNotRun | code/src/app/models/univariate.py:127-136 | a test marked as not run contributes nothing: changing its score leaves the composed score unchanged |
| Univariate.ComposeMonotone | code/src/app/models/univariate.py:132-136 | raising any test score never lowers the composed score |
| Univariate.EngineScoreBounds | code/src/app/models/univariate.py:22-24 | with the engine's weights and all three tests run a composed score lies in [0, 0.25 + 0.35 + 0.45] |
| Univariate.TestScores | code/src/app/models/univariate.py:46-54 | each value gets exactly the sd, MAD and IQR scores, each in [0, 1] |
| Univariate.Scores | code/src/app/models/univariate.py:132-136 | every row's composed score lies in [0, 1.05] |
| Univariate.SensitivityThreshold | code/src/app/models/univariate.py:146 | a sensitivity up to 100 gives a non-negative threshold |
| Univariate.MaxFractionScore | code/src/app/models/univariate.py:150 | the (1 − max fraction)-quantile of the scores lies between the smallest and largest score, is the smallest at max fraction 1 and the largest at max fraction 0 |
| Univariate.EffectiveThreshold | code/src/app/models/univariate.py:146-157 | the threshold is at least the sensitivity threshold, is at least the quantile when the fraction is below 1, is always one of the two, and is the sensitivity threshold when the fraction is 1 |
| Univariate.EffectiveThresholdAntitone | code/src/app/models/univariate.py:146-157 | raising the sensitivity or the max fraction never raises the threshold |
| Univariate.Validate | code/src/app/models/univariate.py:26-31 | the refusal reported is the first failed check in the order too few values, max fraction outside (0, 1], sensitivity outside (0, 100]; none is reported exactly when all hold |
| Univariate.Detect | code/src/app/models/univariate.py:10-36 | one output row per input row carrying its value; refusal exactly when validation fails, with every row unflagged at score 0; otherwise each row carries the sd, MAD and IQR tests of its value against the baseline and their weighted score, in [0, 1.05], and a row flagged exactly when its score reaches the effective threshold |
| Univariate.FlagsMonotone | code/src/app/models/univariate.py:146-158 | every row flagged at a lower sensitivity or max fraction is still flagged at a higher one |
| Univariate.SensitivityMonotone | code/src/app/models/univariate.py:146-158 | raising the sensitivity never decreases the anomaly count |
| Univariate.MaxFractionMonotone | code/src/app/models/univariate.py:150-158 | raising the max fraction never decreases the anomaly count |
| Univariate.FullSensitivityFlagsAll | code/src/app/models/univariate.py:146-158 | at sensitivity 100 and max fraction 1 every row of an accepted input is flagged |
| Univariate.RefusedFlagsNothing | code/src/app/models/univariate.py:26-31 | a refused request (including max fraction 0) has no anomalies |
| MultiSeries.Validate | code/src/app/models/multi_timeseries.py:19-28 | the refusal reported is the first failed check in the order fewer than 15 points per series, fewer than 2 series, max fraction outside (0, 1], sensitivity outside (0, 100]; none exactly when all hold |
| MultiSeries.LengthFromTotal | code/src/app/models/multi_timeseries.py:19-21 | when equal-length series pass the points-per-series check, each has at least 15 points |
| MultiSeries.SegmentMeans | code/src/app/models/multi_timeseries.py:74-79 | there is one mean segment per segment position, as long as the segments at that position |
| MultiSeries.SegmentMean | code/src/app/models/multi_timeseries.py:76-78 | the mean segment is as long as the segments, and each entry is the mean of the values the series have at that position |
| MultiSeries.SegmentMeanBetween | code/src/app/models/multi_timeseries.py:74-79 | each entry of a mean segment lies between the smallest and largest value the series have there |
| MultiSeries.SegmentMeansShift | code/src/app/models/multi_timeseries.py:74-79 | adding a constant to every series adds it to every mean segment |
| MultiSeries.MeanOfIdentical | code/src/app/models/multi_timeseries.py:76-78 | the mean of identical segments is that segment |
| MultiSeries.SplitShift | code/src/app/models/multi_timeseries.py:56 | the segments of a shifted series are its segments shifted |
| MultiSeries.DiffStd | code/src/app/models/multi_timeseries.py:81-91 | with a true root DIFFSTD is non-negative and squares to the population variance of the differences |
| MultiSeries.DiffStdOfOffset | code/src/app/models/multi_timeseries.py:81-91 | two segments that differ by a constant are at DIFFSTD 0 |
| MultiSeries.DiffStdShiftInvariant | code/src/app/models/multi_timeseries.py:81-91 | adding a constant to either segment leaves DIFFSTD unchanged |
| MultiSeries.DiffStdBothShifted | code/src/app/models/multi_timeseries.py:81-91 | shifting both segments by the same constant leaves DIFFSTD unchanged |
| MultiSeries.SeriesDistances | code/src/app/models/multi_timeseries.py:93-99 | one distance per segment, each non-negative with a true root |
| MultiSeries.SeriesDistancesShift | code/src/app/models/multi_timeseries.py:93-99 | shifting a series together with its mean segments leaves every distance unchanged |
| MultiSeries.RowExpand | code/src/app/models/multi_timeseries.py:66-70 | a per-segment annotation laid over the rows gives one entry per row, every row of segment j carrying segment j's entry |
| MultiSeries.ExpandAt | code/src/app/models/multi_timeseries.py:97-98 | each row between segment j's start and the next start carries segment j's value |
| MultiSeries.ThresholdBounds | code/src/app/models/multi_timeseries.py:111-116 | for sensitivity up to 100 the threshold is at least 1.5 times the mean distance, and it is 0 exactly when the mean distance is |
| MultiSeries.ThresholdAtEnds | code/src/app/models/multi_timeseries.py:111-116 | the threshold is 2.5 times the mean distance at sensitivity 0 and 1.5 times it at sensitivity 100; a mean of 10 gives 25 and 15 |
| MultiSeries.ThresholdAntitone | code/src/app/models/multi_timeseries.py:116 | a higher sensitivity never raises the threshold |
| MultiSeries.RelativeScore | code/src/app/models/multi_timeseries.py:118-122 | the score is a number exactly when the threshold is non-zero; it is the excess over the threshold in units of the threshold; with a positive threshold it is ≥ −1 for a non-negative distance and ≥ 0 exactly when the distance reaches the threshold |
| MultiSeries.RelativeScoreMonotone | code/src/app/models/multi_timeseries.py:119 | a larger distance never scores lower against the same positive threshold |
| MultiSeries.MaxFractionScore | code/src/app/models/multi_timeseries.py:140 | the (1 − max fraction)-quantile of a series' scores is a number exactly when every score is, and then lies between the smallest and largest score |
| MultiSeries.Cutoff | code/src/app/models/multi_timeseries.py:140-148 | the cutoff is at least 0.01, at least the quantile score when that is a number, always one of the two, and 0.01 when the quantile is not a number |
| MultiSeries.CutoffAntitone | code/src/app/models/multi_timeseries.py:140-148 | a larger max fraction never raises the cutoff |
| MultiSeries.Flagged | code/src/app/models/multi_timeseries.py:154 | a not-a-number score is never flagged (`nan >= x` is false), and against a cutoff of at least 0.01 only a positive score is flagged |
| MultiSeries.ScoreSeries | code/src/app/models/multi_timeseries.py:101-154 | one row per value keeping its value; every row of segment j is placed in segment j with its distance and its relative score; the mean distance is the mean of the distances laid over the rows; the threshold is the mean plus (1.5 − sensitivity/100) times the mean; the cutoff is max(0.01, the (1 − max fraction)-quantile of the rows' scores), so at least 0.01; a row is flagged exactly when its score is a number at or above the cutoff |
| MultiSeries.ScoreSeriesRows | code/src/app/models/multi_timeseries.py:110-154 | read off the scored rows alone: the mean distance is the mean of the rows' segment distances, every row's score is its distance against the threshold, and the cutoff is max(0.01, the (1 − max fraction)-quantile of the rows' own scores) |
| MultiSeries.ZeroDistancesNothingFlagged | code/src/app/models/multi_timeseries.py:111-122 | a series whose segments are all at distance 0 has threshold 0, not-a-number scores and no flagged row |
| MultiSeries.ZeroThresholdNothingFlagged | code/src/app/models/multi_timeseries.py:111-122 | with non-negative distances and a sensitivity up to 100 (what validation admits), a zero threshold means every segment distance is 0, so every score is 0 / 0, not-a-number, and no row is flagged |
| MultiSeries.ScoresAboveMinusOne | code/src/app/models/multi_timeseries.py:111-122 | with non-negative distances and sensitivity up to 100 no score is below −1 |
| MultiSeries.Detect | code/src/app/models/multi_timeseries.py:9-33 | one output row per input value, grouped by series and keeping its value; refusal exactly when validation fails, with every row unsegmented, unflagged and scored 0; otherwise l div 7 segments, the mean segments are the per-position means of the series, every row placed in one, and a row flagged exactly when its score reaches its series' cutoff of at least 0.01 |
| MultiSeries.DetectDistances | code/src/app/models/multi_timeseries.py:74-99 | in an accepted input, every row of segment j of a series is placed in segment j at the DIFFSTD distance between that segment and the mean segment at position j |
| MultiSeries.DetectScoring | code/src/app/models/multi_timeseries.py:100-154 | for every series of an accepted input, its mean distance is the mean of its rows' distances, its threshold follows from that mean and the sensitivity, every row's score is its distance against that threshold, and its cutoff is max(0.01, the (1 − max fraction)-quantile of its rows' scores) |
| MultiSeries.SegmentFlaggedTogether | code/src/app/models/multi_timeseries.py:151-154 | all rows of one segment share their placement, score and flag, so segments are flagged all or nothing |
| MultiSeries.SeriesSegmentTogether | code/src/app/models/multi_timeseries.py:118-154 | within one scored series, two rows of segment j are both placed in segment j with its distance and share score and flag |
| MultiSeries.MaxFractionMonotone | code/src/app/models/multi_timeseries.py:140-154 | a row flagged at a lower max fraction is still flagged at a higher one |
| MultiSeries.MaxFractionCountMonotone | code/src/app/models/multi_timeseries.py:140-154 | raising the max fraction never decreases the number of flagged rows |
| MultiSeries.OffsetInvariance | code/src/app/models/multi_timeseries.py:74-122 | adding one constant to every value of every series changes only the values: refusal, placements, distances, scores, flags and per-series scoring stay the same |
| MultiSeries.OffsetDistances | code/src/app/models/multi_timeseries.py:74-100 | adding one constant to every series leaves every segment's DIFFSTD distance to its mean segment unchanged |
| MultiSeries.IdenticalSeriesNothingFlagged | code/src/app/models/multi_timeseries.py:74-154 | with a true root, when all series are identical no row is flagged |
| MultiSeries.DetectScoresAboveMinusOne | code/src/app/models/multi_timeseries.py:111-122 | with a true root every score of an accepted input is not-a-number or at least −1 |

## Left out

- The web front end (`code/src/web/site.py`) and the FastAPI wiring (`code/src/app/main.py`) are I/O and are not part of this model.
- Square roots are a parameter `root`; the sd and DIFFSTD facts hold under `IsSqrt(root)`. The numeric value of the MAD consistency constant is taken as given, not derived from the normal distribution.
- IEEE-754 rounding, infinities and missing (NaN) input values are not modelled: inputs are mathematical reals, and the only not-a-number is the 0 / 0 score of a series whose mean DIFFSTD is 0.
- pandas plumbing is not modelled: sorting by `(dt, series_key)`, `groupby`, `concat` and column assignment. The multi-series input is a sequence of series that is already grouped and in time order. Output rows are grouped the same way, so the interleaved order that a refused request returns is not reproduced.
- Series of unequal length are excluded by a `Rectangular` precondition. The source assumes it without checking.
- Diagnostic message strings and dictionaries are reduced to a refusal reason or the intermediate statistics. The `min`, `max` and `len` diagnostics are kept in `Baseline` only.
- The weights for `grubbs`, `dixon`, `gesd` and `gaussian_mixture` stay in the weight table, but those tests never run, so no scoring is modelled for them.
- Most exact anomaly counts of the univariate tests are not proved. Two are covered for any input:
  - `code/test/test_univariate.py:75` and `:105`: the 17 flags of the 17-value sample at sensitivity 100 and max fraction 1 follow from `Univariate.FullSensitivityFlagsAll`.
  - `:94`: the 0 flags at max fraction 0 follow from `Univariate.RefusedFlagsNothing`.
- The other counts depend on numeric square roots and quantiles of particular samples, so they are not proved:
  - 15, 8, 5, 2, 2 and 1 at sensitivities 95 to 1 (`:76-81`);
  - 1 to 15 at max fractions 0.01 to 0.9 (`:95-104`);
  - the one-, two- and zero-anomaly samples (`:22-71`).
  Only the monotonicity facts behind them are proved.
- The bound of about ⌈max fraction · N⌉ flagged rows is not proved: ties at the quantile can flag more rows, so it does not hold exactly.
- MultiSeries.RelativeScore: a non-zero distance over a zero threshold is not-a-number in the model, while pandas gives ±infinity and flags +infinity. With a sensitivity up to 100 and non-negative distances, a zero threshold forces every distance to 0 (`MultiSeries.ZeroThresholdNothingFlagged`), so only 0 / 0 occurs. The difference is reachable only through `ScoreSeries` called directly with a sensitivity above 100 (which validation refuses) or with negative distances (which a true square root never gives).
- For the multi-series engine, monotonicity in sensitivity is not proved. It would need the quantile to commute with increasing affine maps of the scores.
