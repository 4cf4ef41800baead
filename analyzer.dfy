/** The batch analysis (sdcm/microbenchmarking.py, lines 56-118): group the
    stored history by test type, and for every test type of the current batch
    that has history, sort that history and record a verdict for each of the
    four metrics, flagging the test type when any metric regresses. */
module Analyzer {
  import opened Records
  import opened Grouping
  import opened Ordering
  import opened Baseline
  import opened Verdicts

  /** The report entry of one test type: its per-metric verdicts and whether
      any of them is a regression (the `has_diff` key, present only when true). */
  datatype TestReport = TestReport(hasDiff: bool, stats: map<Metric, Verdict>)

  /** Recording the verdict on metric `m`: its statistics are stored under the
      metric, and a regression sets the flag, which nothing clears. */
  function WithVerdict(e: TestReport, m: Metric, v: Verdict): (e': TestReport)
    ensures e'.stats.Keys == e.stats.Keys + {m}
    ensures e'.hasDiff <==> e.hasDiff || v.hasRegression
    ensures e'.stats[m] == v
    ensures forall k :: k in e.stats && k != m ==> e'.stats[k] == e.stats[k]
  {
    TestReport(e.hasDiff || v.hasRegression, e.stats[m := v])
  }

  /** The entry after recording `vs[j]` for metric `MetricAt(j)`, for each
      `j` in turn. */
  function Collect(vs: seq<Verdict>): (e: TestReport)
    requires |vs| <= MetricCount
    ensures forall m :: m in e.stats <==> m.Index() < |vs|
    ensures forall j :: 0 <= j < |vs| ==> MetricAt(j) in e.stats && e.stats[MetricAt(j)] == vs[j]
    ensures e.hasDiff <==> exists j :: 0 <= j < |vs| && vs[j].hasRegression
  {
    if vs == [] then TestReport(false, map[])
    else
      var n := |vs| - 1;
      WithVerdict(Collect(vs[..n]), MetricAt(n), vs[n])
  }

  lemma PrefixSnoc<T>(q: seq<T>, i: nat)
    requires i < |q|
    ensures q[..i + 1] == q[..i] + [q[i]]
  {
  }

  /** Recording one more verdict extends the entry by that metric alone. */
  lemma CollectSnoc(vs: seq<Verdict>, v: Verdict)
    requires |vs| < MetricCount
    ensures Collect(vs + [v]) == WithVerdict(Collect(vs), MetricAt(|vs|), v)
  {
    assert (vs + [v])[..|vs|] == vs;
  }

  /** The verdicts on the four metrics, in the order of the metric tuple. */
  function MetricVerdicts(series: seq<Record>, cur: Stats, commit: string): seq<Verdict>
    requires |series| > 0
  {
    seq(MetricCount, j requires 0 <= j < MetricCount => MetricVerdict(series, cur.Get(MetricAt(j)), commit, MetricAt(j)))
  }

  /** The complete entry of a test type: the verdicts on the four metrics,
      recorded in the order of the metric tuple. */
  function TestVerdicts(series: seq<Record>, cur: Stats, commit: string): TestReport
    requires |series| > 0
  {
    Collect(MetricVerdicts(series, cur, commit))
  }

  /** The entry holds one verdict per metric, each computed from the history
      and the current value of that metric, and it is flagged exactly when
      some metric regresses. */
  lemma TestVerdictsContents(series: seq<Record>, cur: Stats, commit: string)
    requires |series| > 0
    ensures var e := TestVerdicts(series, cur, commit);
      && (forall m: Metric :: m in e.stats && e.stats[m] == MetricVerdict(series, cur.Get(m), commit, m))
      && (e.hasDiff <==> exists m: Metric :: MetricVerdict(series, cur.Get(m), commit, m).hasRegression)
  {
    var vs := MetricVerdicts(series, cur, commit);
    var e := Collect(vs);
    forall m: Metric
      ensures m in e.stats && e.stats[m] == MetricVerdict(series, cur.Get(m), commit, m)
    {
      MetricAtIndex(m);
      assert vs[m.Index()] == MetricVerdict(series, cur.Get(m), commit, m);
    }
    if e.hasDiff {
      var j :| 0 <= j < |vs| && vs[j].hasRegression;
      assert MetricVerdict(series, cur.Get(MetricAt(j)), commit, MetricAt(j)).hasRegression;
    }
    if m: Metric :| MetricVerdict(series, cur.Get(m), commit, m).hasRegression {
      MetricAtIndex(m);
      assert vs[m.Index()].hasRegression;
    }
  }

  /** Once a metric has flagged the test type, recording the verdicts on
      further metrics never clears the flag. */
  lemma {:induction false} HasDiffNeverCleared(vs: seq<Verdict>, n: nat)
    requires n <= |vs| <= MetricCount
    requires Collect(vs[..n]).hasDiff
    ensures Collect(vs).hasDiff
    decreases |vs| - n
  {
    if n < |vs| {
      var vs' := vs[..n + 1];
      assert vs'[..n] == vs[..n];
      assert Collect(vs').hasDiff;
      if n + 1 < |vs| {
        HasDiffNeverCleared(vs, n + 1);
      } else {
        assert vs' == vs;
      }
    } else {
      assert vs[..n] == vs;
    }
  }

  /** With distinct timestamps the entry does not depend on which sorted
      arrangement of the history it was computed from. */
  lemma TestVerdictsDetermined(s1: seq<Record>, s2: seq<Record>, cur: Stats, commit: string)
    requires |s1| > 0
    requires SortedByTime(s1) && SortedByTime(s2) && DistinctStamps(s1) && DistinctStamps(s2)
    requires multiset(s1) == multiset(s2)
    ensures |s2| > 0 && TestVerdicts(s1, cur, commit) == TestVerdicts(s2, cur, commit)
  {
    SortedPermutationUnique(s1, s2);
  }

  /** The inner `set_results_for`: sort the history in place, then record the
      verdict on metric `m` in the test type's entry. */
  method SetResultsFor(entry: TestReport, a: array<Record>, cur: Stats, commit: string, m: Metric)
    returns (entry': TestReport)
    requires a.Length > 0
    modifies a
    ensures SortedByTime(a[..]) && multiset(a[..]) == old(multiset(a[..]))
    ensures SortedByTime(old(a[..])) ==> a[..] == old(a[..])
    ensures entry' == WithVerdict(entry, m, MetricVerdict(a[..], cur.Get(m), commit, m))
  {
    SortByTimestamp(a);
    var series := a[..];
    var last := series[LastIndex(series, commit)];
    var best := series[BestIndex(series, m)];
    var curVal := cur.Get(m);
    var diffLast := Diff(curVal, last.Value(m));
    var diffBest := Diff(curVal, best.Value(m));
    var stats := Verdict(curVal, last.Value(m), last.commitId, best.Value(m), best.commitId,
                         diffLast, diffBest, false);
    entry' := entry;
    if diffLast > Threshold || diffBest > Threshold {
      entry' := entry'.(hasDiff := true);
      stats := stats.(hasRegression := true);
    }
    entry' := entry'.(stats := entry'.stats[m := stats]);
  }

  /** One pass of the batch loop for a test type with history: copy its
      history, then analyse the four metrics in order, sorting the history
      before each as the source does. `sorted` is the history as sorted. */
  method AnalyzeTestType(bucket: seq<Record>, cur: Stats, commit: string)
    returns (entry: TestReport, ghost sorted: seq<Record>)
    requires |bucket| > 0
    ensures Analysed(bucket, sorted, cur, commit, entry)
  {
    var a := new Record[|bucket|](i requires 0 <= i < |bucket| => bucket[i]);
    assert a[..] == bucket;
    entry := TestReport(false, map[]);
    ghost var vs: seq<Verdict> := [];
    sorted := bucket;
    var i := 0;
    while i < MetricCount
      invariant 0 <= i <= MetricCount && |vs| == i && |sorted| == |bucket|
      invariant a.Length == |bucket|
      invariant multiset(a[..]) == multiset(bucket)
      invariant i > 0 ==> SortedByTime(a[..]) && sorted == a[..]
      invariant vs == MetricVerdicts(sorted, cur, commit)[..i]
      invariant entry == Collect(vs)
    {
      entry, sorted, vs := AnalyzeMetric(entry, a, cur, commit, i, sorted, vs);
      i := i + 1;
    }
    assert vs == MetricVerdicts(sorted, cur, commit);
  }

  /** One pass of the metric loop: sort the history in place and record the
      verdict on metric `MetricAt(i)`. From the second metric on the history
      is already sorted, so it stays as it was. `vs` are the verdicts
      recorded so far. */
  method AnalyzeMetric(entry: TestReport, a: array<Record>, cur: Stats, commit: string, i: nat,
                       ghost sorted: seq<Record>, ghost vs: seq<Verdict>)
    returns (entry': TestReport, ghost sorted': seq<Record>, ghost vs': seq<Verdict>)
    requires 0 < a.Length == |sorted| && i < MetricCount
    requires i > 0 ==> SortedByTime(a[..]) && sorted == a[..]
    requires vs == MetricVerdicts(sorted, cur, commit)[..i] && entry == Collect(vs)
    modifies a
    ensures sorted' == a[..] && |sorted'| == a.Length
    ensures SortedByTime(a[..]) && multiset(a[..]) == old(multiset(a[..]))
    ensures i > 0 ==> sorted' == sorted
    ensures vs' == MetricVerdicts(sorted', cur, commit)[..i + 1] && entry' == Collect(vs')
  {
    var m := MetricAt(i);
    entry' := SetResultsFor(entry, a, cur, commit, m);
    sorted' := a[..];
    ghost var all := MetricVerdicts(sorted', cur, commit);
    assert vs == all[..i];
    PrefixSnoc(all, i);
    CollectSnoc(vs, all[i]);
    vs' := vs + [all[i]];
  }

  /** `entry` is the report entry of a test type whose history is `bucket`:
      the verdicts computed from that history sorted oldest first, `sorted`. */
  predicate Analysed(bucket: seq<Record>, sorted: seq<Record>, cur: Stats, commit: string, entry: TestReport)
  {
    && |sorted| == |bucket| > 0
    && SortedByTime(sorted)
    && multiset(sorted) == multiset(bucket)
    && entry == TestVerdicts(sorted, cur, commit)
  }

  /** Every entry made so far is the analysis of its test type's bucket. */
  predicate ReportSoFar(buckets: map<string, seq<Record>>, current: map<string, Stats>, commit: string,
                        report: map<string, TestReport>, series: map<string, seq<Record>>)
  {
    forall t {:trigger report[t]} :: t in report ==>
      t in buckets && t in current && t in series && Analysed(buckets[t], series[t], current[t], commit, report[t])
  }

  /** The body of the batch loop for a test type with history: analyse it
      and add its entry to the report. */
  method AddTestType(buckets: map<string, seq<Record>>, current: map<string, Stats>, commit: string,
                     report: map<string, TestReport>, ghost series: map<string, seq<Record>>, t: string)
    returns (report': map<string, TestReport>, ghost series': map<string, seq<Record>>)
    requires ReportSoFar(buckets, current, commit, report, series)
    requires t in buckets && t in current && buckets[t] != []
    ensures report'.Keys == report.Keys + {t} && series'.Keys == series.Keys + {t}
    ensures forall k :: k in report && k != t ==> report'[k] == report[k]
    ensures forall k :: k in series && k != t ==> series'[k] == series[k]
    ensures ReportSoFar(buckets, current, commit, report', series')
  {
    var entry, sorted := AnalyzeTestType(buckets[t], current[t], commit);
    report' := report[t := entry];
    series' := series[t := sorted];
    ReportSoFarExtend(buckets, current, commit, report, series, t, entry, sorted);
  }

  /** Adding the analysis of one more test type keeps every entry the
      analysis of its bucket. */
  lemma ReportSoFarExtend(buckets: map<string, seq<Record>>, current: map<string, Stats>, commit: string,
                          report: map<string, TestReport>, series: map<string, seq<Record>>,
                          t: string, entry: TestReport, sorted: seq<Record>)
    requires ReportSoFar(buckets, current, commit, report, series)
    requires t in buckets && t in current
    requires Analysed(buckets[t], sorted, current[t], commit, entry)
    ensures ReportSoFar(buckets, current, commit, report[t := entry], series[t := sorted])
  {
    var report', series' := report[t := entry], series[t := sorted];
    forall k | k in report'
      ensures k in buckets && k in current && k in series'
      ensures Analysed(buckets[k], series'[k], current[k], commit, report'[k])
    {
      if k != t {
        assert report'[k] == report[k] && series'[k] == series[k];
      }
    }
  }

  /** The whole analysis of a batch. `current` maps each test type of the
      batch to its current statistics, `host` is the executing host and
      `commit` the commit under analysis. Test types without history on this
      host are left out of the report; every other one gets the verdicts
      computed from its history sorted oldest first, returned as the ghost
      `series`. */
  method CheckRegression(history: seq<Record>, current: map<string, Stats>, host: string, commit: string)
    returns (report: map<string, TestReport>, ghost series: map<string, seq<Record>>)
    requires |history| > 0
    requires |current| > 0
    ensures report.Keys == set t | t in current && Matching(history, host, t) != []
    ensures series.Keys == report.Keys
    ensures forall t :: t in report ==> Analysed(Matching(history, host, t), series[t], current[t], commit, report[t])
  {
    var buckets := GroupByType(history, host);
    report, series := AnalyzeBuckets(buckets, current, commit);
    forall t | t in report
      ensures Analysed(Matching(history, host, t), series[t], current[t], commit, report[t])
    {
    }
  }

  /** The batch loop over the test types of `current`, in whatever order the
      batch yields them, given the history already grouped by test type. */
  method AnalyzeBuckets(buckets: map<string, seq<Record>>, current: map<string, Stats>, commit: string)
    returns (report: map<string, TestReport>, ghost series: map<string, seq<Record>>)
    requires forall t :: t in buckets ==> buckets[t] != []
    ensures report.Keys == current.Keys * buckets.Keys
    ensures series.Keys == report.Keys
    ensures ReportSoFar(buckets, current, commit, report, series)
  {
    report := map[];
    series := map[];
    var todo := current.Keys;
    while todo != {}
      invariant todo <= current.Keys
      invariant report.Keys == (current.Keys - todo) * buckets.Keys
      invariant series.Keys == report.Keys
      invariant ReportSoFar(buckets, current, commit, report, series)
      decreases todo
    {
      var t :| t in todo;
      if t in buckets {
        report, series := AddTestType(buckets, current, commit, report, series, t);
      }
      todo := todo - {t};
    }
  }
}
