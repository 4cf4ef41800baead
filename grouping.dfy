/** Filtering the historical records to the current host and bucketing them by
    test type (sdcm/microbenchmarking.py, lines 56-60). */
module Grouping {
  import opened Records

  /** Does `r` belong in the bucket of test type `t` on host `host`? */
  predicate Belongs(r: Record, host: string, t: string)
  {
    r.hostname == host && r.testType == t
  }

  /** The bucket of test type `t`: the records of `rs` on host `host` with that
      type, in the order they arrive. */
  function Matching(rs: seq<Record>, host: string, t: string): (b: seq<Record>)
    ensures |b| <= |rs|
  {
    if rs == [] then []
    else
      var last := rs[|rs| - 1];
      Matching(rs[..|rs| - 1], host, t) + (if Belongs(last, host, t) then [last] else [])
  }

  /** Exactly the records of `rs` that belong to the bucket are in it. */
  lemma {:induction false} MatchingMembers(rs: seq<Record>, host: string, t: string)
    ensures forall r :: r in Matching(rs, host, t) <==> r in rs && Belongs(r, host, t)
  {
    if rs != [] {
      var init := rs[..|rs| - 1];
      assert rs == init + [rs[|rs| - 1]];
      MatchingMembers(init, host, t);
    }
  }

  /** Appending one record extends its own bucket only. */
  lemma MatchingSnoc(rs: seq<Record>, x: Record, host: string, t: string)
    ensures Matching(rs + [x], host, t) == Matching(rs, host, t) + (if Belongs(x, host, t) then [x] else [])
  {
    assert (rs + [x])[..|rs + [x]| - 1] == rs;
  }

  /** Bucketing distributes over concatenation: records keep their arrival order. */
  lemma {:induction false} MatchingConcat(xs: seq<Record>, ys: seq<Record>, host: string, t: string)
    ensures Matching(xs + ys, host, t) == Matching(xs, host, t) + Matching(ys, host, t)
    decreases |ys|
  {
    if ys == [] {
      assert xs + ys == xs;
    } else {
      var ys' := ys[..|ys| - 1];
      assert (xs + ys)[..|xs + ys| - 1] == xs + ys';
      MatchingConcat(xs, ys', host, t);
    }
  }

  /** No matching record is lost or duplicated, and nothing else gets in. */
  lemma {:induction false} MatchingCount(rs: seq<Record>, host: string, t: string, r: Record)
    ensures multiset(Matching(rs, host, t))[r] == if Belongs(r, host, t) then multiset(rs)[r] else 0
  {
    if rs != [] {
      var init := rs[..|rs| - 1];
      assert rs == init + [rs[|rs| - 1]];
      MatchingCount(init, host, t, r);
    }
  }

  /** The grouping loop: walk the records once, appending each record of the
      current host to the list of its test type. A test type gets a key only
      when some record is appended to it. */
  method GroupByType(results: seq<Record>, host: string) returns (buckets: map<string, seq<Record>>)
    ensures forall t :: t in buckets ==> buckets[t] == Matching(results, host, t) && buckets[t] != []
    ensures forall t :: t !in buckets ==> Matching(results, host, t) == []
  {
    buckets := map[];
    var i := 0;
    while i < |results|
      invariant 0 <= i <= |results|
      invariant forall t :: t in buckets ==> buckets[t] == Matching(results[..i], host, t) && buckets[t] != []
      invariant forall t :: t !in buckets ==> Matching(results[..i], host, t) == []
    {
      var res := results[i];
      assert results[..i + 1] == results[..i] + [res];
      forall t {
        MatchingSnoc(results[..i], res, host, t);
      }
      if res.hostname == host {
        var bucket := if res.testType in buckets then buckets[res.testType] else [];
        buckets := buckets[res.testType := bucket + [res]];
      }
      i := i + 1;
    }
    assert results[..i] == results;
  }
}
