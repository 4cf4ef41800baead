/** Ordering a test type's history by timestamp (sdcm/microbenchmarking.py,
    line 78): the list is sorted in place, ascending by the time its `_id`
    encodes. */
module Ordering {
  import opened Records

  /** Oldest first. */
  predicate SortedByTime(s: seq<Record>)
  {
    forall i, j :: 0 <= i < j < |s| ==> s[i].stamp <= s[j].stamp
  }

  /** No two records share a timestamp, as for the documents of one type in the store. */
  predicate DistinctStamps(s: seq<Record>)
  {
    forall i, j :: 0 <= i < |s| && 0 <= j < |s| && i != j ==> s[i].stamp != s[j].stamp
  }

  /** Sorts `a` in place by timestamp, moving each record left past the newer
      ones before it. A list that is already sorted is left as it is, so
      sorting again before every metric changes nothing. */
  method SortByTimestamp(a: array<Record>)
    modifies a
    ensures SortedByTime(a[..])
    ensures multiset(a[..]) == old(multiset(a[..]))
    ensures SortedByTime(old(a[..])) ==> a[..] == old(a[..])
  {
    var i := 0;
    while i < a.Length
      invariant 0 <= i <= a.Length
      invariant SortedByTime(a[..i])
      invariant multiset(a[..]) == old(multiset(a[..]))
      invariant SortedByTime(old(a[..])) ==> a[..] == old(a[..])
    {
      InsertLast(a, i);
      i := i + 1;
    }
    assert a[..i] == a[..];
  }

  /** One step of the sort: `a[..i]` is sorted; move `a[i]` left until
      `a[..i + 1]` is sorted. Nothing moves when `a[..i + 1]` already is. */
  method InsertLast(a: array<Record>, i: nat)
    requires i < a.Length
    requires SortedByTime(a[..i])
    modifies a
    ensures SortedByTime(a[..i + 1])
    ensures multiset(a[..]) == old(multiset(a[..]))
    ensures SortedByTime(old(a[..i + 1])) ==> a[..] == old(a[..])
    ensures forall k :: i < k < a.Length ==> a[k] == old(a[k])
  {
    var j := i;
    while j > 0 && a[j - 1].stamp > a[j].stamp
      invariant 0 <= j <= i
      invariant forall k, l :: 0 <= k < l <= i && k != j && l != j ==> a[k].stamp <= a[l].stamp
      invariant forall l :: j < l <= i ==> a[j].stamp <= a[l].stamp
      invariant multiset(a[..]) == old(multiset(a[..]))
      invariant j == i ==> a[..] == old(a[..])
      invariant j < i ==> old(a[i - 1].stamp) > old(a[i].stamp)
      invariant forall k :: i < k < a.Length ==> a[k] == old(a[k])
    {
      SwapAdjacent(a, j);
      j := j - 1;
    }
  }

  /** Exchanges `a[j - 1]` and `a[j]`. */
  method SwapAdjacent(a: array<Record>, j: nat)
    requires 0 < j < a.Length
    modifies a
    ensures a[j - 1] == old(a[j]) && a[j] == old(a[j - 1])
    ensures forall k :: 0 <= k < a.Length && k != j - 1 && k != j ==> a[k] == old(a[k])
    ensures multiset(a[..]) == old(multiset(a[..]))
  {
    a[j - 1], a[j] := a[j], a[j - 1];
  }

  /** Dropping the first element of a sorted, stamp-distinct sequence keeps
      it sorted and stamp-distinct, and removes one copy of that element. */
  lemma Tail(s: seq<Record>)
    requires |s| > 0
    requires SortedByTime(s) && DistinctStamps(s)
    ensures SortedByTime(s[1..]) && DistinctStamps(s[1..])
    ensures multiset(s[1..]) == multiset(s) - multiset{s[0]}
  {
    assert s == [s[0]] + s[1..];
  }

  /** The first element of a sorted, stamp-distinct sequence is the only one
      with the smallest stamp. */
  lemma HeadIsLeast(s: seq<Record>, k: nat)
    requires k < |s|
    requires SortedByTime(s) && DistinctStamps(s)
    requires s[k].stamp <= s[0].stamp
    ensures k == 0
  {
  }

  /** Two sorted, stamp-distinct arrangements of the same records start with
      the same record. */
  lemma SameHead(s1: seq<Record>, s2: seq<Record>)
    requires |s1| > 0 && |s2| > 0
    requires SortedByTime(s1) && SortedByTime(s2) && DistinctStamps(s2)
    requires multiset(s1) == multiset(s2)
    ensures s1[0] == s2[0]
  {
    assert s1[0] in multiset(s2);
    var k :| 0 <= k < |s2| && s2[k] == s1[0];
    assert s2[0] in multiset(s1);
    var k' :| 0 <= k' < |s1| && s1[k'] == s2[0];
    assert s1[0].stamp <= s1[k'].stamp;
    HeadIsLeast(s2, k);
  }

  /** With distinct timestamps there is only one sorted order: any two sorted
      arrangements of the same records are equal. */
  lemma {:induction false} SortedPermutationUnique(s1: seq<Record>, s2: seq<Record>)
    requires SortedByTime(s1) && SortedByTime(s2)
    requires DistinctStamps(s1) && DistinctStamps(s2)
    requires multiset(s1) == multiset(s2)
    ensures s1 == s2
    decreases |s1|
  {
    assert |s1| == |multiset(s1)| == |multiset(s2)| == |s2|;
    if |s1| > 0 {
      SameHead(s1, s2);
      Tail(s1);
      Tail(s2);
      SortedPermutationUnique(s1[1..], s2[1..]);
      assert s1 == [s1[0]] + s1[1..];
      assert s2 == [s2[0]] + s2[1..];
    }
  }
}
