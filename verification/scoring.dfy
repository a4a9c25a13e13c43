/**
 * The single-pass scorer behind `CovertChannelDetector.detect`: four sub-scores
 * with fixed weights over the most recent window of inter-packet delays (IPDs),
 * summed and clamped to 1.0, and a strict comparison against the threshold.
 */
module Scoring {
  import opened Common
  import opened Statistics
  import opened Fifo

  const BimodalWeight: real := 0.5
  const RegularityWeight: real := 0.3
  const BaselineWeight: real := 0.2
  const PatternWeight: real := 0.4

  /** Divisors are floored at one millisecond. */
  const MeanFloor: real := 0.001
  /** Regularity fires below this coefficient of variation. */
  const CvLimit: real := 0.7
  /** Baseline deviation fires above this z-score. */
  const ZLimit: real := 2.0

  /** `np.round(x, 3)`: round half to even at millisecond precision. */
  function RoundMs(x: real): (r: real)
    ensures -0.0005 <= r - x <= 0.0005
  {
    var scaled := x * 1000.0;
    var f := scaled.Floor;
    var frac := scaled - f as real;
    var n := if frac < 0.5 then f
             else if frac > 0.5 then f + 1
             else if f % 2 == 0 then f else f + 1;
    n as real / 1000.0
  }

  function Rounded(delays: seq<real>): (rs: seq<real>)
    ensures |rs| == |delays|
  {
    seq(|delays|, i requires 0 <= i < |delays| => RoundMs(delays[i]))
  }

  /** The count `np.unique(..., return_counts=True)` reports for `v`. */
  function Count(rs: seq<real>, v: real): nat
  {
    multiset(rs)[v]
  }

  /** `len(np.unique(rs)) >= 2`. */
  predicate HasTwoValues(rs: seq<real>)
  {
    exists i, j :: 0 <= i < |rs| && 0 <= j < |rs| && rs[i] != rs[j]
  }

  /**
   * The most frequent value of `pool` in `rs`. `np.argsort` leaves the order of
   * equal counts unspecified; among equally frequent values this model takes the
   * larger one (`TieOrderMatters` shows the choice can change a sub-score).
   */
  function Top(rs: seq<real>, pool: seq<real>): (t: real)
    requires |pool| > 0
    ensures t in pool
    ensures forall x :: x in pool ==> Count(rs, x) < Count(rs, t) || (Count(rs, x) == Count(rs, t) && x <= t)
  {
    if |pool| == 1 then pool[0]
    else
      var u := Top(rs, pool[1..]);
      if Count(rs, pool[0]) > Count(rs, u) || (Count(rs, pool[0]) == Count(rs, u) && pool[0] >= u)
      then pool[0] else u
  }

  /** A least frequent value of `pool` in `rs`: `min(counts)` is its count. */
  function Rarest(rs: seq<real>, pool: seq<real>): (t: real)
    requires |pool| > 0
    ensures t in pool
    ensures forall x :: x in pool ==> Count(rs, t) <= Count(rs, x)
  {
    if |pool| == 1 then pool[0]
    else
      var u := Rarest(rs, pool[1..]);
      if Count(rs, pool[0]) <= Count(rs, u) then pool[0] else u
  }

  /** `s` without any occurrence of `v`. */
  function Without(s: seq<real>, v: real): (r: seq<real>)
    ensures forall x :: x in r <==> x in s && x != v
  {
    if s == [] then []
    else if s[0] == v then Without(s[1..], v)
    else [s[0]] + Without(s[1..], v)
  }

  /** The guard `len(unique_delays) >= 2` is the same as a spread between the extremes. */
  lemma {:induction false} TwoValuesIffSpread(rs: seq<real>)
    requires |rs| > 0
    ensures HasTwoValues(rs) <==> Min(rs) < Max(rs)
  {
    if Min(rs) < Max(rs) {
      var i :| 0 <= i < |rs| && rs[i] == Min(rs);
      var j :| 0 <= j < |rs| && rs[j] == Max(rs);
      assert rs[i] != rs[j];
    }
  }

  /**
   * What `unique_delays[np.argsort(counts)[::-1][:2]]` may return: two distinct
   * values, the first of maximal count and the second of maximal count among the rest.
   */
  predicate IsTopPair(rs: seq<real>, p: (real, real))
  {
    && p.0 in rs && p.1 in rs && p.0 != p.1
    && Count(rs, p.1) <= Count(rs, p.0)
    && forall x :: x in rs && x != p.0 ==> Count(rs, x) <= Count(rs, p.1)
  }

  /** `unique_delays[np.argsort(counts)[::-1][:2]]`, ties broken towards the larger value. */
  function TopTwo(rs: seq<real>): (p: (real, real))
    requires HasTwoValues(rs)
    ensures IsTopPair(rs, p)
  {
    var first := Top(rs, rs);
    var i, j :| 0 <= i < |rs| && 0 <= j < |rs| && rs[i] != rs[j];
    var other := if rs[i] != first then rs[i] else rs[j];
    assert other in Without(rs, first);
    (first, Top(rs, Without(rs, first)))
  }

  /** Sub-score 1: two clusters of comparable size, far apart, at least a factor two in value. */
  function BimodalScore(delays: seq<real>): (r: real)
    ensures r == 0.0 || r == BimodalWeight
    ensures r == BimodalWeight ==> HasTwoValues(Rounded(delays))
  {
    var rs := Rounded(delays);
    if HasTwoValues(rs) then BimodalTest(rs, TopTwo(rs)) else 0.0
  }

  /** Lines 72-81 once two distinct rounded values exist, for the pair `top` the sort returned. */
  function BimodalTest(rs: seq<real>, top: (real, real)): (r: real)
    requires HasTwoValues(rs)
    ensures r == BimodalWeight <==> CountsBalanced(rs) && ValuesApart(rs, top)
  {
    if CountsBalanced(rs) && ValuesApart(rs, top) then BimodalWeight else 0.0
  }

  /** `min(counts) / max(counts) > 0.5`, over every distinct value, not only the top two. */
  predicate CountsBalanced(rs: seq<real>)
    requires |rs| > 0
  {
    Count(rs, Rarest(rs, rs)) as real / Count(rs, Top(rs, rs)) as real > 0.5
  }

  /** The top values differ by a factor above two, and the spread over every distinct value exceeds 0.2. */
  predicate ValuesApart(rs: seq<real>, top: (real, real))
    requires |rs| > 0
  {
    MaxReal(top.0, top.1) / MaxReal(MinReal(top.0, top.1), MeanFloor) > 2.0 && Max(rs) - Min(rs) > 0.2
  }

  /** A window of three equally frequent rounded values. */
  const TieWindow: seq<real> := [0.3, 0.3, 0.6, 0.6, 0.9, 0.9]

  lemma TieWindowCounts()
    ensures HasTwoValues(TieWindow)
    ensures 0.3 in TieWindow && 0.6 in TieWindow && 0.9 in TieWindow
    ensures forall x :: x in TieWindow ==> (x == 0.3 || x == 0.6 || x == 0.9) && Count(TieWindow, x) == 2
  {
    var rs := TieWindow;
    assert rs[0] != rs[2];
    assert multiset(rs) == multiset{0.3, 0.3, 0.6, 0.6, 0.9, 0.9};
  }

  /** Equal counts pass the count test, whatever the values. */
  lemma EqualCountsBalanced(rs: seq<real>, c: nat)
    requires |rs| > 0 && c > 0
    requires forall x :: x in rs ==> Count(rs, x) == c
    ensures CountsBalanced(rs)
  {
    var rarest, top := Count(rs, Rarest(rs, rs)), Count(rs, Top(rs, rs));
    assert rarest == c && top == c;
    HalfOfEqual(rarest, top);
  }

  lemma HalfOfEqual(a: nat, b: nat)
    requires a == b && b > 0
    ensures a as real / b as real > 0.5
  {
    assert a as real / b as real == 1.0;
  }

  lemma TieWindowSpread()
    ensures Max(TieWindow) - Min(TieWindow) > 0.2
  {
    assert Max(TieWindow) >= TieWindow[4] && Min(TieWindow) <= TieWindow[0];
  }

  lemma TieRatios()
    ensures MaxReal(0.9, 0.6) / MaxReal(MinReal(0.9, 0.6), MeanFloor) == 1.5
    ensures MaxReal(0.9, 0.3) / MaxReal(MinReal(0.9, 0.3), MeanFloor) == 3.0
  {
    assert MaxReal(0.9, 0.6) == 0.9 && MaxReal(MinReal(0.9, 0.6), MeanFloor) == 0.6;
    assert MaxReal(0.9, 0.3) == 0.9 && MaxReal(MinReal(0.9, 0.3), MeanFloor) == 0.3;
  }

  /**
   * The order of equal counts matters: in `TieWindow` both (0.9, 0.6) and
   * (0.9, 0.3) are valid top pairs; the first gives a bimodal sub-score of 0
   * and the second 0.5. The model takes (0.9, 0.6).
   */
  lemma TieOrderMatters()
    ensures HasTwoValues(TieWindow)
    ensures IsTopPair(TieWindow, (0.9, 0.6)) && IsTopPair(TieWindow, (0.9, 0.3))
    ensures TopTwo(TieWindow) == (0.9, 0.6)
    ensures BimodalTest(TieWindow, (0.9, 0.6)) == 0.0
    ensures BimodalTest(TieWindow, (0.9, 0.3)) == BimodalWeight
  {
    var rs := TieWindow;
    TieWindowCounts();
    EqualCountsBalanced(rs, 2);
    TieWindowSpread();
    TieRatios();
    var first := Top(rs, rs);
    assert first == 0.9;
    assert 0.6 in Without(rs, first);
    assert Top(rs, Without(rs, first)) == 0.6;
  }

  /** The divisor of the coefficient of variation: the mean, floored at one millisecond. */
  function CvDivisor(delays: seq<real>): (d: real)
    requires |delays| > 0
    ensures d >= MeanFloor
  {
    MaxReal(Mean(delays), MeanFloor)
  }

  /**
   * Sub-score 2: timing too regular for a real network (coefficient of variation
   * below 0.7), tested on squares. An empty window has a NaN mean in numpy,
   * and every comparison with NaN is false.
   */
  function RegularityScore(delays: seq<real>): (r: real)
    ensures r == 0.0 || r == RegularityWeight
    ensures r == RegularityWeight ==> |delays| > 0
  {
    if |delays| == 0 then 0.0
    else
      var d := CvDivisor(delays);
      if Variance(delays) < (CvLimit * d) * (CvLimit * d) then RegularityWeight else 0.0
  }

  /**
   * Sub-score 3: the window mean is more than two baseline standard deviations
   * away from the baseline mean, tested on squares; only once the baseline is
   * established, non-empty and not constant.
   */
  function BaselineScore(delays: seq<real>, baseline: seq<real>, established: bool): (r: real)
    ensures r == 0.0 || r == BaselineWeight
    ensures r == BaselineWeight ==> established && |baseline| > 0 && Variance(baseline) > 0.0
  {
    if established && |baseline| > 0 then
      var baselineVar := Variance(baseline);
      if baselineVar > 0.0 && |delays| > 0 then
        var diff := Mean(delays) - Mean(baseline);
        if diff * diff > ZLimit * ZLimit * baselineVar then BaselineWeight else 0.0
      else 0.0
    else 0.0
  }

  /** How many delays lie within `tol` of `centre`, both ends included. */
  function NearCount(delays: seq<real>, centre: real, tol: real): (n: nat)
    ensures n <= |delays|
  {
    if delays == [] then 0
    else (if centre - tol <= delays[0] <= centre + tol then 1 else 0) + NearCount(delays[1..], centre, tol)
  }

  /** The share of the window near either cluster centre (a delay near both counts twice). */
  function PatternRatio(delays: seq<real>, lo: real, hi: real, tol: real): real
    requires |delays| > 0
  {
    (NearCount(delays, lo, tol) + NearCount(delays, hi, tol)) as real / |delays| as real
  }

  /** The coarse (plus or minus 0.2 s) two-cluster test. */
  predicate CoarseMatch(delays: seq<real>, lo: real, hi: real)
  {
    |delays| > 0 && hi - lo > 0.2 && PatternRatio(delays, lo, hi, 0.2) > 0.6
  }

  /** The fine (plus or minus 0.1 s) two-cluster test. */
  predicate FineMatch(delays: seq<real>, lo: real, hi: real)
  {
    |delays| > 0 && hi - lo > 0.1 && PatternRatio(delays, lo, hi, 0.1) > 0.6
  }

  /**
   * Sub-score 4: the two most frequent rounded delays look like a short and a long
   * bit delay and most of the window sits near them. The fine check runs after the
   * coarse one and can only set the same weight again.
   */
  function PatternScore(delays: seq<real>): (r: real)
    ensures r == 0.0 || r == PatternWeight
  {
    var rs := Rounded(delays);
    if HasTwoValues(rs) then
      var top := TopTwo(rs);
      var lo, hi := MinReal(top.0, top.1), MaxReal(top.0, top.1);
      if hi > 0.5 && lo > 0.1 then
        var afterCoarse := if CoarseMatch(delays, lo, hi) then PatternWeight else 0.0;
        if FineMatch(delays, lo, hi) then PatternWeight else afterCoarse
      else 0.0
    else 0.0
  }

  datatype SubScores = SubScores(bimodal: real, regularity: real, baselineDeviation: real, patternMatch: real)

  /** The `detailed_scores` dictionary: only `total_score` on the early returns. */
  datatype Details = TotalOnly | Detailed(sub: SubScores)

  datatype Verdict = Verdict(isCovert: bool, score: real, details: Details)

  function Score(delays: seq<real>, baseline: seq<real>, established: bool): SubScores
  {
    SubScores(BimodalScore(delays), RegularityScore(delays),
              BaselineScore(delays, baseline, established), PatternScore(delays))
  }

  /** `min(1.0, score)` after the four additions. */
  function Total(s: SubScores): real
  {
    MinReal(1.0, s.bimodal + s.regularity + s.baselineDeviation + s.patternMatch)
  }

  /** `list(ipd_history)[-window_size:]`; Python's `-0` is `0`, so a zero window takes everything. */
  function Window(ipds: seq<real>, windowSize: nat): (d: seq<real>)
    ensures |d| == if windowSize == 0 || |ipds| <= windowSize then |ipds| else windowSize
  {
    if windowSize == 0 then ipds else Last(ipds, windowSize)
  }

  /** The window is the newest part of the history, in arrival order. */
  lemma WindowIsNewest(ipds: seq<real>, windowSize: nat)
    ensures var d := Window(ipds, windowSize);
            forall i :: 0 <= i < |d| ==> d[i] == ipds[|ipds| - |d| + i]
  {
  }

  /**
   * What `detect` returns for a detector holding `packetCount` timestamps, the IPD
   * history `ipds` and the baseline sample set.
   */
  function Evaluate(packetCount: nat, ipds: seq<real>, baseline: seq<real>, established: bool,
                    windowSize: nat, threshold: real): (v: Verdict)
    ensures packetCount < windowSize ==> v == Verdict(false, 0.0, TotalOnly)
    ensures 0.0 <= v.score <= 1.0
    ensures v.isCovert ==> v.score > threshold
    ensures v.details.Detailed? ==> v.isCovert == (v.score > threshold) && v.score == Total(v.details.sub)
  {
    if packetCount < windowSize then Verdict(false, 0.0, TotalOnly)
    else
      var delays := Window(ipds, windowSize);
      if |delays| < windowSize - 1 then Verdict(false, 0.0, TotalOnly)
      else
        var sub := Score(delays, baseline, established);
        var score := Total(sub);
        Verdict(score > threshold, score, Detailed(sub))
  }

  /** Past both guards, `detect` scores the window. */
  lemma EvaluateScored(packetCount: nat, ipds: seq<real>, baseline: seq<real>, established: bool,
                       windowSize: nat, threshold: real)
    requires packetCount >= windowSize && |Window(ipds, windowSize)| >= windowSize - 1
    ensures var sub := Score(Window(ipds, windowSize), baseline, established);
            Evaluate(packetCount, ipds, baseline, established, windowSize, threshold)
            == Verdict(Total(sub) > threshold, Total(sub), Detailed(sub))
  {
  }

  // ---------------------------------------------------------------------------
  // Properties of the scorer
  // ---------------------------------------------------------------------------

  /** Sub-score weights add up to values in a fixed finite set, and the clamp keeps the total in [0, 1]. */
  lemma TotalIsClampedSum(delays: seq<real>, baseline: seq<real>, established: bool)
    ensures var s := Score(delays, baseline, established);
            var sum := s.bimodal + s.regularity + s.baselineDeviation + s.patternMatch;
            && 0.0 <= sum <= BimodalWeight + RegularityWeight + BaselineWeight + PatternWeight
            && Total(s) == (if sum <= 1.0 then sum else 1.0)
            && Total(s) in {0.0, 0.2, 0.3, 0.4, 0.5, 0.6, 0.7, 0.8, 0.9, 1.0}
  {
  }

  /** The pattern sub-score is awarded exactly when the coarse or the fine test passes. */
  lemma PatternEitherTest(delays: seq<real>)
    requires HasTwoValues(Rounded(delays))
    ensures var top := TopTwo(Rounded(delays));
            var lo, hi := MinReal(top.0, top.1), MaxReal(top.0, top.1);
            PatternScore(delays) == PatternWeight
            <==> hi > 0.5 && lo > 0.1 && (CoarseMatch(delays, lo, hi) || FineMatch(delays, lo, hi))
  {
  }

  lemma SquaresOrdered(a: real, b: real)
    requires 0.0 <= a && 0.0 <= b
    ensures a < b <==> a * a < b * b
  {
    if a < b {
      ProductPositive(b, b - a);
      ProductNonNegative(a, b - a);
      assert b * b - a * a == b * (b - a) + a * (b - a);
    } else {
      ProductNonNegative(a, a - b);
      ProductNonNegative(b, a - b);
      assert a * a - b * b == a * (a - b) + b * (a - b);
    }
  }

  lemma ProductPositive(x: real, y: real)
    requires x > 0.0 && y > 0.0
    ensures x * y > 0.0
  {
  }

  lemma ProductNonNegative(x: real, y: real)
    requires x >= 0.0 && y >= 0.0
    ensures x * y >= 0.0
  {
  }

  /**
   * The squared regularity test agrees with the source's `np.std(delays) / max(mean, 0.001) < 0.7`
   * for the (unique non-negative) standard deviation `std`.
   */
  lemma {:induction false} RegularityIsCvTest(delays: seq<real>, std: real)
    requires |delays| > 0
    requires std >= 0.0 && std * std == Variance(delays)
    ensures RegularityScore(delays) == RegularityWeight <==> std / CvDivisor(delays) < CvLimit
  {
    var d := CvDivisor(delays);
    SquaresOrdered(std, CvLimit * d);
    assert std / d < CvLimit <==> std < CvLimit * d;
  }

  /**
   * The squared baseline test agrees with the source's `baseline_std > 0` followed by
   * `abs(current_mean - baseline_mean) / baseline_std > 2.0`.
   */
  lemma {:induction false} BaselineIsZScoreTest(delays: seq<real>, baseline: seq<real>, std: real)
    requires |delays| > 0 && |baseline| > 0
    requires std >= 0.0 && std * std == Variance(baseline)
    ensures BaselineScore(delays, baseline, true) == BaselineWeight
            <==> std > 0.0 && Abs(Mean(delays) - Mean(baseline)) / std > ZLimit
  {
    var diff := Mean(delays) - Mean(baseline);
    var a := Abs(diff);
    assert a * a == diff * diff;
    if std > 0.0 {
      SquaresOrdered(ZLimit * std, a);
      assert a / std > ZLimit <==> a > ZLimit * std;
    } else {
      assert Variance(baseline) == 0.0;
    }
  }

  function Abs(x: real): (r: real)
    ensures r >= 0.0 && (r == x || r == -x)
  {
    if x < 0.0 then -x else x
  }
}
