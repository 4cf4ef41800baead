/** The data the regression analyzer works on: benchmark result records as
    the historical store returns them, and the fixed set of metrics compared. */
module Records {

  /** The four metrics compared for every test type. */
  datatype Metric = Aio | FragPerSec | Cpu | TimeSec {
    /** The metric's key in a result's "stats" mapping. */
    function Name(): string
    {
      match this
      case Aio => "aio"
      case FragPerSec => "frag/s"
      case Cpu => "cpu"
      case TimeSec => "time (s)"
    }

    /** The metric's position in the metric tuple. */
    function Index(): (j: nat)
      ensures j < MetricCount
    {
      match this
      case Aio => 0
      case FragPerSec => 1
      case Cpu => 2
      case TimeSec => 3
    }
  }

  /** The metric tuple ("aio", "frag/s", "cpu", "time (s)") is analysed in
      this order. */
  const MetricCount: nat := 4

  function MetricAt(j: nat): (m: Metric)
    requires j < MetricCount
    ensures m.Index() == j
  {
    if j == 0 then Aio else if j == 1 then FragPerSec else if j == 2 then Cpu else TimeSec
  }

  lemma MetricAtIndex(m: Metric)
    ensures MetricAt(m.Index()) == m
  {
  }

  /** The tuple lists each metric once, under its own name. */
  lemma MetricTupleNames()
    ensures forall j, k :: 0 <= j < k < MetricCount ==> MetricAt(j) != MetricAt(k)
    ensures MetricAt(0).Name() == "aio" && MetricAt(1).Name() == "frag/s"
    ensures MetricAt(2).Name() == "cpu" && MetricAt(3).Name() == "time (s)"
  {
  }

  /** The "stats" part of one benchmark result, one value per metric. */
  datatype Stats = Stats(aio: real, fragPerSec: real, cpu: real, timeSec: real) {
    function Get(m: Metric): real
    {
      match m
      case Aio => aio
      case FragPerSec => fragPerSec
      case Cpu => cpu
      case TimeSec => timeSec
    }
  }

  /** One historical result document: `stamp` is its `_id` read as a point in
      time, `testType` its `_type`, `commitId` the commit of the server under
      test that produced it. */
  datatype Record = Record(stamp: nat, testType: string, hostname: string, commitId: string, stats: Stats) {
    function Value(m: Metric): real
    {
      stats.Get(m)
    }
  }
}
