# Microbenchmark regression analysis, modelled in Dafny

This project models the core of the microbenchmark regression analyzer of
`sdcm/microbenchmarking.py`: `MicroBenchmarkingResultsAnalyzer.check_regression`
and the rule that names a test type in `get_results`.

A batch of current results maps each test type to the statistics of its newest
run. The stored history of earlier runs is a list of result documents. The
analysis works in these steps:

- It keeps the documents of the executing host and groups them by test type.
- For every test type of the batch that has history, it sorts that history
  oldest first. For each of the four metrics `aio`, `frag/s`, `cpu` and
  `time (s)` it then compares the current value with two earlier runs:
  - the "last" run: the newest one, or the one before it when the newest
    already carries the commit under analysis;
  - the "best" run: the one with the smallest value, the oldest of equal ones.
- Each comparison is a percentage difference relative to the larger of the
  two values, and zero when that is zero.
- A difference above 5 marks the metric as a regression and flags the test
  type.

The modules follow the steps of the source:

| module | file | what it holds |
|---|---|---|
| `Records` | `records.dfy` | metrics, statistics and result documents |
| `Grouping` | `grouping.dfy` | filtering by host and bucketing by test type |
| `Ordering` | `ordering.dfy` | the in-place sort by timestamp |
| `Baseline` | `baseline.dfy` | choosing the last and the best run |
| `Verdicts` | `verdicts.dfy` | the percentage difference and the per-metric verdict |
| `Analyzer` | `analyzer.dfy` | the per-test-type and the batch loops |
| `Naming` | `naming.dfy` | the name of a test type |

Steps that change state are methods:
- grouping, `GroupByType`;
- sorting, on an `array`;
- the loops.

Each of them is proved against a specification function: `Matching`,
`SortedByTime` with a multiset, `MetricVerdict` and `TestVerdicts`. The
properties of the source are proved as lemmas about those functions.

Metric values are `real`. A document's `_id` timestamp is a `nat` ordered like
the time it encodes. The executing host and the commit under analysis are
parameters.

## Model

| member | source | states |
|---|---|---|
| `Grouping.GroupByType` | sdcm/microbenchmarking.py:56-60 | each test type with at least one record of the host gets the bucket `Matching(results, host, t)`, in arrival order; every other test type has no key |
| `Grouping.MatchingMembers` | sdcm/microbenchmarking.py:57-60 | a record is in a bucket iff it is in the history, is of that host and is of that test type |
| `Grouping.MatchingCount` | sdcm/microbenchmarking.py:57-60 | each matching record appears in the bucket as often as in the history, and no other record appears |
| `Grouping.MatchingConcat` | sdcm/microbenchmarking.py:57-60 | bucketing distributes over concatenation of the history, so records keep their arrival order |
| `Grouping.MatchingSnoc` | sdcm/microbenchmarking.py:60 | appending one record to the history extends its own bucket only, by that record |
| `Ordering.SortByTimestamp` | sdcm/microbenchmarking.py:78 | sorts in place oldest first; the result is a permutation of the input; an already sorted list is left unchanged, so re-sorting before each metric changes nothing |
| `Ordering.InsertLast` | sdcm/microbenchmarking.py:78 | one insertion step: extends the sorted prefix by one element, permutes only, leaves every slot after it untouched, and moves nothing when the prefix already includes it in order |
| `Ordering.SwapAdjacent` | sdcm/microbenchmarking.py:78 | exchanges two neighbours, leaves every other slot alone and preserves the multiset |
| `Ordering.SortedPermutationUnique` | sdcm/microbenchmarking.py:78 | with distinct timestamps, two sorted arrangements of the same documents are equal, so the sorted history is determined by its contents |
| `Ordering.Tail` | sdcm/microbenchmarking.py:78 | dropping the oldest entry of a sorted, stamp-distinct history keeps it sorted and stamp-distinct, removing exactly one copy |
| `Ordering.SameHead` | sdcm/microbenchmarking.py:78 | two sorted, stamp-distinct arrangements of the same documents start with the same one |
| `Ordering.HeadIsLeast` | sdcm/microbenchmarking.py:78 | in a sorted, stamp-distinct history only the first entry has the smallest stamp |
| `Baseline.LastIndex` | sdcm/microbenchmarking.py:86-91 | the "last" run is one of the two newest; only an entry of the current commit is skipped, and the newest is skipped exactly when it has that commit and is not alone |
| `Baseline.LastIndexUnique` | sdcm/microbenchmarking.py:86-89 | `LastIndex`'s contract determines the index: any index meeting it is `LastIndex` |
| `Baseline.LastIndexSingle` | sdcm/microbenchmarking.py:86-89 | a one-entry history uses that entry even when it has the current commit |
| `Baseline.LastIndexOfThree` | sdcm/microbenchmarking.py:86-91 | in a three-run history the last run is the middle one iff the newest has the current commit, else the newest |
| `Baseline.BestIndex` | sdcm/microbenchmarking.py:93-95 | the "best" run has a value no larger than any other, and every older run has a strictly larger value (the first minimum is kept) |
| `Baseline.BestIndexUnique` | sdcm/microbenchmarking.py:93-95 | `BestIndex`'s contract determines the index |
| `Verdicts.Diff` | sdcm/microbenchmarking.py:96-97 | the difference times the larger value is 100 times `cur - other`, and it is zero when the larger value is zero |
| `Verdicts.DiffRange` | sdcm/microbenchmarking.py:96-97 | for non-negative values the difference lies in [-100, 100], has the sign of `cur - other`, and is zero iff the values agree |
| `Verdicts.DiffBoundsReached` | sdcm/microbenchmarking.py:96-97 | both ends are reached: dropping to zero gives -100, rising from zero gives 100 |
| `Verdicts.DiffAboveThreshold` | sdcm/microbenchmarking.py:96-97 | for non-negative values the difference exceeds 5 iff `95 * cur > 100 * other` |
| `Verdicts.MetricVerdict` | sdcm/microbenchmarking.py:86-108 | the verdict reports the current value, the value and commit of the runs chosen by `LastIndex` and `BestIndex`, the two differences, and a regression iff either difference exceeds 5 |
| `Verdicts.RegressionDecidedByBest` | sdcm/microbenchmarking.py:93-106 | with non-negative values, a metric regresses iff its best-run difference exceeds 5, iff `95 * cur > 100 * best` |
| `Verdicts.ThresholdIsExclusive` | sdcm/microbenchmarking.py:106 | a difference of exactly 5 does not raise a regression, and a last-run difference above 5 does |
| `Verdicts.SingleIdenticalRun` | sdcm/microbenchmarking.py:86-108 | a single stored run equal to the current one yields zero differences and no regression |
| `Verdicts.CpuExample` | sdcm/microbenchmarking.py:86-108 | with cpu history 10, 12, 11, another commit last and current 13: last 11, best 10 (oldest run), differences 200/13 and 300/13, a regression |
| `Analyzer.WithVerdict` | sdcm/microbenchmarking.py:106-109 | recording a metric stores its verdict under that metric's key, adds no other key, keeps the other metrics' verdicts, and flags the test type iff it already was or this verdict regresses |
| `Analyzer.Collect` | sdcm/microbenchmarking.py:116-118 | after recording the first n verdicts, the entry has exactly the first n metrics of the tuple, each with its own verdict, and is flagged iff one of them regresses |
| `Analyzer.CollectSnoc` | sdcm/microbenchmarking.py:116-118 | recording one more verdict extends the entry by the next metric of the tuple only |
| `Analyzer.TestVerdictsContents` | sdcm/microbenchmarking.py:98-109 | a finished entry holds every metric, each with the verdict computed from the sorted history and its current value, and is flagged iff some metric regresses |
| `Analyzer.HasDiffNeverCleared` | sdcm/microbenchmarking.py:106-107 | once a metric has flagged the test type, recording further metrics never clears the flag |
| `Analyzer.TestVerdictsDetermined` | sdcm/microbenchmarking.py:78 | with distinct timestamps, the entry does not depend on which sorted arrangement it was computed from |
| `Analyzer.SetResultsFor` | sdcm/microbenchmarking.py:77-109 | sorts the history in place and records metric `m`'s verdict, computed from that sorted history, into the entry; the history stays a permutation, and an already sorted one is unchanged |
| `Analyzer.AnalyzeTestType` | sdcm/microbenchmarking.py:116-118 | the four metrics are analysed in tuple order over a single sorted arrangement of the bucket, and the resulting entry is `TestVerdicts` of it |
| `Analyzer.AnalyzeMetric` | sdcm/microbenchmarking.py:116-118 | one pass of the metric loop: the history is sorted in place (and left as it was from the second metric on), and the entry holds the verdicts of the first i+1 metrics of the tuple |
| `Analyzer.AddTestType` | sdcm/microbenchmarking.py:111-118 | analysing one more test type adds exactly its key, leaves the entry and sorted history of every other test type unchanged, and every entry remains the analysis of its bucket |
| `Analyzer.ReportSoFarExtend` | sdcm/microbenchmarking.py:111-118 | adding the analysis of one more test type to a report whose entries are all analyses of their buckets keeps that property |
| `Analyzer.AnalyzeBuckets` | sdcm/microbenchmarking.py:111-118 | the report's test types are exactly those of the batch that have a bucket, each with the analysis of its bucket, whatever the iteration order |
| `Analyzer.CheckRegression` | sdcm/microbenchmarking.py:53-118 | the report covers exactly the batch's test types with history on this host; each entry holds the verdicts computed from that history sorted oldest first, for every metric, flagged iff some metric regresses |
| `Records.MetricAt` | sdcm/microbenchmarking.py:74 | the metric at position j of the tuple is the one whose index is j |
| `Records.MetricTupleNames` | sdcm/microbenchmarking.py:74 | the tuple holds four distinct metrics, named "aio", "frag/s", "cpu" and "time (s)" in that order |
| `Naming.RemoveSpaces` | sdcm/microbenchmarking.py:148 | no space is left, and every other character occurs as often as in the file name |
| `Naming.RemoveSpacesConcat` | sdcm/microbenchmarking.py:148 | space removal works character by character: it distributes over concatenation |
| `Naming.RemoveSpacesNoSpaces` | sdcm/microbenchmarking.py:148 | a name without spaces is unchanged |
| `Naming.LastIndexOf` | sdcm/microbenchmarking.py:149 | the position of the last occurrence of a character, or -1, with no occurrence after it |
| `Naming.SplitExtRoot` | sdcm/microbenchmarking.py:149 | the root is a prefix of the name; when it is shorter, it stops at a dot that follows some non-dot character of the file part, and no dot or slash follows that dot |
| `Naming.SplitExtRootOfExtension` | sdcm/microbenchmarking.py:149 | for a name `base.ext` whose base has a non-dot character and no slash, and whose extension has neither, the root is exactly `base` |
| `Naming.SplitExtRootNoDot` | sdcm/microbenchmarking.py:149 | a name without a dot after its last `/` is its own root |
| `Naming.SplitExtRootOnlyDots` | sdcm/microbenchmarking.py:149 | a name of dots only, such as `..`, is its own root |
| `Naming.TestTypeName` | sdcm/microbenchmarking.py:148-149 | the test type starts with the directory and an underscore, is no longer than both names together plus one, and has no space after the directory |
| `Naming.TestTypeNameOf` | sdcm/microbenchmarking.py:148-149 | the result file `base.ext` in `dir` gives the test type `dir_` followed by `base` without its spaces; spaces may appear anywhere, the extension included, since they are removed before the split |

Notes on the contracts:

- `CheckRegression` requires a non-empty history and a non-empty batch.
  - The source asserts that the search answered (line 54).
  - It reads the current commit from the first test type of the batch
    (line 75), which fails on an empty batch.
- The grouping keys a test type only when a record is appended to it. The
  batch loop at lines 112-115 reads the key through a default dictionary:
  a test type without history is skipped and gets no entry.
- The timestamps of one test type are distinct. The store keeps one document
  per identifier and type, and the identifier is the timestamp. This is used
  only for the uniqueness of the sorted order.
- For non-negative values the percentage differences lie in [-100, 100]. A value that dropped to zero
  gives exactly -100 (`DiffBoundsReached`), so the lower end is included.
- For non-negative values, the best run never exceeds the last one. The test
  against the last run therefore never decides a regression on its own
  (`RegressionDecidedByBest`).

## Left out

- Querying the result store, reading JSON files, changing directory, and storing documents in the store: these are I/O. The history and the batch are parameters.
- Rendering the HTML report and sending e-mail (lines 120-137): these are I/O.
- Logging: it has no effect on the report.
- The default dictionary at line 112 gains a key for a test type without history: the model does not track that side effect, which nothing reads.
- The command-line entry point: it is not part of this model.
- Floating point: values are exact reals. IEEE rounding of `float(...)` and of the division is not modelled.
- Parsing `_id` with `strptime`: it is modelled as a natural-number timestamp. A malformed `_id`, which raises in the source, is not modelled.
- Missing metric keys, which raise in the source: `Stats` always has all four values.
- Missing document fields: `hostname` is read for every document (line 58), `_type` for every document of this host (line 60), and `versions.scylla-server.commit_id` for the newest, last and best entries of an analysed bucket (lines 86, 91, 95). A missing field raises `KeyError` there and aborts the run. `Record` always carries these fields, so that error path is not modelled.
- Ordering of equal timestamps: both the source's sort and the model's insertion sort are stable, but the model does not state stability. Only sortedness, permutation and no change on already sorted input are proved.
- The history list is sorted in place in the source. The model copies the bucket into an array and sorts that; the copy is not visible to the rest of the analysis.
- Python 2 dictionary iteration order over the batch: the loop takes the test types in an unspecified order, and the report is proved independent of it.
- `SplitExtRoot` follows `os.path.splitext` for `/`-separated paths only. File names listed from a directory contain no separator.
