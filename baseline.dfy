/** Choosing the comparison points inside a test type's history, sorted
    oldest first (sdcm/microbenchmarking.py, lines 86-95): the "last" run and
    the "best" run of a metric. */
module Baseline {
  import opened Records

  /** Index of the "last" run. When the newest entry carries the commit under
      analysis it is taken to be the current run, already stored, and the
      entry before it is used, provided there is one; otherwise the newest
      entry is used. Together the four clauses pin the index down: at most one
      entry is skipped, only an entry of the current commit is ever skipped,
      and the newest entry is skipped whenever it has the current commit and
      is not the only one. */
  function LastIndex(series: seq<Record>, commit: string): (k: nat)
    requires |series| > 0
    ensures k < |series| && |series| - 2 <= k
    ensures forall j :: k < j < |series| ==> series[j].commitId == commit
    ensures |series| > 1 && series[|series| - 1].commitId == commit ==> k < |series| - 1
  {
    if |series| > 1 && series[|series| - 1].commitId == commit then |series| - 2 else |series| - 1
  }

  /** `LastIndex` is the one index satisfying its contract. */
  lemma LastIndexUnique(series: seq<Record>, commit: string, k: nat)
    requires |series| > 0
    requires k < |series| && |series| - 2 <= k
    requires forall j :: k < j < |series| ==> series[j].commitId == commit
    requires |series| > 1 && series[|series| - 1].commitId == commit ==> k < |series| - 1
    ensures k == LastIndex(series, commit)
  {
  }

  /** A history of one entry is always its own baseline. */
  lemma LastIndexSingle(r: Record, commit: string)
    ensures LastIndex([r], commit) == 0
  {
  }

  /** The three-run example: the newest run is skipped exactly when it has the
      commit under analysis. */
  lemma LastIndexOfThree(r1: Record, r2: Record, r3: Record, commit: string)
    ensures var series := [r1, r2, r3];
            series[LastIndex(series, commit)] == if commit == r3.commitId then r2 else r3
  {
  }

  /** Index of the run with the smallest value of metric `m`; among equal
      values the oldest, as taking the minimum of a sorted list keeps the first
      one found. */
  function BestIndex(series: seq<Record>, m: Metric): (k: nat)
    requires |series| > 0
    ensures k < |series|
    ensures forall j :: 0 <= j < |series| ==> series[k].Value(m) <= series[j].Value(m)
    ensures forall j :: 0 <= j < k ==> series[j].Value(m) > series[k].Value(m)
  {
    if |series| == 1 then 0
    else
      var k := BestIndex(series[..|series| - 1], m);
      if series[|series| - 1].Value(m) < series[k].Value(m) then |series| - 1 else k
  }

  /** `BestIndex` is the one index satisfying its contract. */
  lemma BestIndexUnique(series: seq<Record>, m: Metric, k: nat)
    requires k < |series|
    requires forall j :: 0 <= j < |series| ==> series[k].Value(m) <= series[j].Value(m)
    requires forall j :: 0 <= j < k ==> series[j].Value(m) > series[k].Value(m)
    ensures k == BestIndex(series, m)
  {
  }
}
