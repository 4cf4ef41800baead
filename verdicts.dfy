/** The verdict on one metric of one test type (sdcm/microbenchmarking.py,
    lines 90-108): the current value against the last run and against the
    best run, as symmetric percentage differences, and the fixed 5% policy. */
module Verdicts {
  import opened Records
  import opened Baseline

  /** A rise of more than this many percent is a regression. */
  const Threshold: real := 5.0

  function Max(x: real, y: real): real
  {
    if x >= y then x else y
  }

  /** The percentage change from `other` to `cur`, relative to the larger of
      the two; zero when the larger is zero. */
  function Diff(cur: real, other: real): (d: real)
    ensures Max(cur, other) == 0.0 ==> d == 0.0
    ensures Max(cur, other) != 0.0 ==> d * Max(cur, other) == (cur - other) * 100.0
  {
    var mx := Max(cur, other);
    if mx != 0.0 then (cur - other) / mx * 100.0 else 0.0
  }

  /** For non-negative values the difference lies between -100 and 100, has
      the sign of `cur - other`, and is zero exactly when the values agree. */
  lemma DiffRange(cur: real, other: real)
    requires cur >= 0.0 && other >= 0.0
    ensures -100.0 <= Diff(cur, other) <= 100.0
    ensures Diff(cur, other) > 0.0 <==> cur > other
    ensures Diff(cur, other) < 0.0 <==> cur < other
    ensures Diff(cur, other) == 0.0 <==> cur == other
  {
    var d := Diff(cur, other);
    if cur > other {
      assert Max(cur, other) == cur;
      assert d * cur == (cur - other) * 100.0;
      Cancel(d, cur, 100.0);
      Cancel(d, cur, 0.0);
    } else if cur < other {
      assert Max(cur, other) == other;
      assert d * other == (cur - other) * 100.0;
      AtLeastMinus100(d, cur, other);
      Cancel(d, other, -100.0);
      Cancel(d, other, 0.0);
    }
  }

  /** A difference scaled against the larger value `other` is at least -100. */
  lemma AtLeastMinus100(d: real, cur: real, other: real)
    requires cur >= 0.0 && other > 0.0
    requires d * other == (cur - other) * 100.0
    ensures d >= -100.0
  {
    Cancel(d, other, -100.0);
  }

  /** Comparisons survive scaling by a positive factor. */
  lemma Cancel(d: real, x: real, c: real)
    requires x > 0.0
    ensures d * x > c * x <==> d > c
    ensures d * x < c * x <==> d < c
  {
    assert (d - c) * x == d * x - c * x;
    if d > c {
      assert (d - c) * x > 0.0;
    } else if d < c {
      assert (c - d) * x > 0.0;
    }
  }

  /** Both ends are reached: a value that dropped to zero gives -100, a value
      that rose from zero gives 100. */
  lemma DiffBoundsReached(x: real)
    requires x > 0.0
    ensures Diff(0.0, x) == -100.0
    ensures Diff(x, 0.0) == 100.0
  {
    assert (0.0 - x) / x == -1.0;
    assert (x - 0.0) / x == 1.0;
  }

  /** For non-negative values the difference exceeds 5% exactly when the
      current value is more than 100/95 of the other. */
  lemma DiffAboveThreshold(cur: real, other: real)
    requires cur >= 0.0 && other >= 0.0
    ensures Diff(cur, other) > Threshold <==> 95.0 * cur > 100.0 * other
  {
    var d := Diff(cur, other);
    DiffRange(cur, other);
    if cur > other {
      assert Max(cur, other) == cur;
      assert d * cur == (cur - other) * 100.0;
      Cancel(d, cur, Threshold);
    }
  }

  /** The statistics reported for one metric. */
  datatype Verdict = Verdict(
    current: real,
    lastValue: real, lastCommit: string,
    bestValue: real, bestCommit: string,
    diffLast: real, diffBest: real,
    hasRegression: bool)

  /** The verdict on metric `m` for current value `cur`, against a history
      sorted oldest first and the commit under analysis. */
  function MetricVerdict(series: seq<Record>, cur: real, commit: string, m: Metric): (v: Verdict)
    requires |series| > 0
    ensures v.current == cur
    ensures v.lastValue == series[LastIndex(series, commit)].Value(m)
    ensures v.lastCommit == series[LastIndex(series, commit)].commitId
    ensures v.bestValue == series[BestIndex(series, m)].Value(m)
    ensures v.bestCommit == series[BestIndex(series, m)].commitId
    ensures v.diffLast == Diff(cur, v.lastValue) && v.diffBest == Diff(cur, v.bestValue)
    ensures v.hasRegression <==> v.diffLast > Threshold || v.diffBest > Threshold
  {
    var last := series[LastIndex(series, commit)];
    var best := series[BestIndex(series, m)];
    var diffLast := Diff(cur, last.Value(m));
    var diffBest := Diff(cur, best.Value(m));
    Verdict(cur, last.Value(m), last.commitId, best.Value(m), best.commitId,
            diffLast, diffBest, diffLast > Threshold || diffBest > Threshold)
  }

  /** With non-negative values the best run is never above the last one, so
      the comparison with the best run alone decides: a metric regresses
      exactly when its current value exceeds the best ever by more than
      100/95. */
  lemma RegressionDecidedByBest(series: seq<Record>, cur: real, commit: string, m: Metric)
    requires |series| > 0 && cur >= 0.0
    requires forall j :: 0 <= j < |series| ==> series[j].Value(m) >= 0.0
    ensures var v := MetricVerdict(series, cur, commit, m);
            (v.hasRegression <==> v.diffBest > Threshold)
            && (v.hasRegression <==> 95.0 * cur > 100.0 * v.bestValue)
  {
    var v := MetricVerdict(series, cur, commit, m);
    assert v.lastValue >= 0.0;
    assert v.bestValue >= 0.0;
    DiffAboveThreshold(cur, v.lastValue);
    DiffAboveThreshold(cur, v.bestValue);
  }

  /** A change of exactly 5% is not a regression; anything above is. */
  lemma ThresholdIsExclusive(series: seq<Record>, cur: real, commit: string, m: Metric)
    requires |series| > 0
    ensures var v := MetricVerdict(series, cur, commit, m);
            v.diffLast == 5.0 && v.diffBest <= 5.0 ==> !v.hasRegression
    ensures var v := MetricVerdict(series, cur, commit, m);
            v.diffLast > 5.0 ==> v.hasRegression
  {
  }

  /** A single stored run identical to the current one compares equal to
      itself on both counts and raises nothing. */
  lemma SingleIdenticalRun(r: Record, commit: string, m: Metric)
    ensures var v := MetricVerdict([r], r.Value(m), commit, m);
            v.lastValue == v.bestValue == v.current
            && v.diffLast == 0.0 && v.diffBest == 0.0 && !v.hasRegression
  {
    var v := MetricVerdict([r], r.Value(m), commit, m);
    assert v.lastValue == r.Value(m);
    assert v.bestValue == r.Value(m);
  }

  /** Worked example: cpu history 10, 12, 11 (oldest first), newest run of
      another commit, current value 13. The last run is 11 and the best 10,
      giving rises of 200/13% and 300/13%: a regression. */
  lemma CpuExample(r1: Record, r2: Record, r3: Record, commit: string)
    requires r1.Value(Cpu) == 10.0 && r2.Value(Cpu) == 12.0 && r3.Value(Cpu) == 11.0
    requires r3.commitId != commit
    ensures var v := MetricVerdict([r1, r2, r3], 13.0, commit, Cpu);
            v.lastValue == 11.0 && v.bestValue == 10.0 && v.bestCommit == r1.commitId
            && v.diffLast == 200.0 / 13.0 && v.diffBest == 300.0 / 13.0 && v.hasRegression
  {
    var series := [r1, r2, r3];
    assert LastIndex(series, commit) == 2;
    assert BestIndex(series, Cpu) == 0;
  }
}
