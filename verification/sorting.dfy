/**
 The bubble sort at the head of `initialize_ranges` in readers_writers.c
 and testrw.c, which puts the writer positions in ascending order.
 */
module Sorting {
  import opened Writers

  predicate Ascending(a: seq<int>) {
    forall p, q :: 0 <= p < q < |a| ==> a[p] <= a[q]
  }

  predicate StrictlyAscending(a: seq<int>) {
    forall p, q :: 0 <= p < q < |a| ==> a[p] < a[q]
  }

  /** The entries from `k` on are in order. */
  predicate SortedFrom(a: seq<int>, k: int) {
    forall p, q :: k <= p < q < |a| && 0 <= p ==> a[p] <= a[q]
  }

  /** No entry before `k` exceeds an entry from `k` on. */
  predicate Split(a: seq<int>, k: int) {
    forall p, q :: 0 <= p < k <= q < |a| ==> a[p] <= a[q]
  }

  /** `a` with the neighbours at `j` and `j + 1` exchanged. */
  function Swap(a: seq<int>, j: nat): (r: seq<int>)
    requires j + 1 < |a|
    ensures |r| == |a| && r[j] == a[j + 1] && r[j + 1] == a[j]
    ensures forall k :: 0 <= k < |a| && k != j && k != j + 1 ==> r[k] == a[k]
    ensures multiset(r) == multiset(a)
  {
    var r := a[j := a[j + 1]][j + 1 := a[j]];
    assert a == a[..j] + [a[j], a[j + 1]] + a[j + 2..];
    assert r == a[..j] + [a[j + 1], a[j]] + a[j + 2..];
    r
  }

  /** One bubbling pass over `a[..m]`: afterwards `a[m - 1]` is the largest
      of them, and the entries from `m` on have not moved. */
  method BubblePass(a0: seq<int>, m: nat) returns (a: seq<int>)
    requires 1 <= m <= |a0|
    ensures |a| == |a0| && multiset(a) == multiset(a0)
    ensures a[m..] == a0[m..]
    ensures forall p :: 0 <= p < m ==> a[p] <= a[m - 1]
  {
    a := a0;
    var j := 0;
    while j < m - 1
      invariant 0 <= j <= m - 1
      invariant |a| == |a0| && multiset(a) == multiset(a0)
      invariant a[m..] == a0[m..]
      invariant forall p :: 0 <= p <= j ==> a[p] <= a[j]
    {
      if a[j] > a[j + 1] {
        a := Swap(a, j);
      }
      j := j + 1;
    }
  }

  /** The sort as written: the outer loop runs `n - 1` passes, pass `i`
      bubbling over the first `n - i` entries. The result is the input
      rearranged into ascending order. */
  method BubbleSort(a0: seq<int>) returns (a: seq<int>)
    ensures multiset(a) == multiset(a0)
    ensures Ascending(a)
  {
    a := a0;
    var n := |a|;
    var i := 0;
    while i < n - 1
      invariant 0 <= i && (n == 0 || i <= n - 1)
      invariant |a| == n && multiset(a) == multiset(a0)
      invariant SortedFrom(a, n - i) && Split(a, n - i)
    {
      var before := a;
      a := BubblePass(a, n - i);
      PassExtendsSorted(before, a, n - i);
      i := i + 1;
    }
  }

  /** A pass over the unsorted prefix grows the sorted suffix by one. */
  lemma PassExtendsSorted(before: seq<int>, after: seq<int>, m: nat)
    requires 1 <= m <= |before| == |after|
    requires SortedFrom(before, m) && Split(before, m)
    requires multiset(after) == multiset(before)
    requires after[m..] == before[m..]
    requires forall p :: 0 <= p < m ==> after[p] <= after[m - 1]
    ensures SortedFrom(after, m - 1) && Split(after, m - 1)
  {
    assert multiset(after[..m]) == multiset(before[..m]) by {
      assert before == before[..m] + before[m..];
      assert after == after[..m] + after[m..];
      assert multiset(before) == multiset(before[..m]) + multiset(before[m..]);
      assert multiset(after) == multiset(after[..m]) + multiset(before[m..]);
      forall x ensures multiset(after[..m])[x] == multiset(before[..m])[x] {
        assert multiset(after)[x] == multiset(after[..m])[x] + multiset(before[m..])[x];
        assert multiset(before)[x] == multiset(before[..m])[x] + multiset(before[m..])[x];
      }
    }
    forall p, q | 0 <= p < m <= q < |after|
      ensures after[p] <= after[q]
    {
      assert after[p] in multiset(after[..m]);
      var k :| 0 <= k < m && before[k] == after[p];
      assert after[q] == before[q];
    }
  }

  /** Two equal entries make their value occur at least twice. */
  lemma EqualPairCountsTwice(a: seq<int>, p: nat, q: nat)
    requires p < q < |a| && a[p] == a[q]
    ensures multiset(a)[a[p]] >= 2
  {
    assert a == a[..q] + [a[q]] + a[q + 1..];
    assert a[..q][p] == a[p];
    assert multiset(a[..q])[a[p]] >= 1;
  }

  /** A sequence without repeats holds each value at most once. */
  lemma {:induction false} DistinctCountsOnce(a: seq<int>, v: int)
    requires Distinct(a)
    ensures multiset(a)[v] <= 1
    decreases |a|
  {
    if |a| > 0 {
      var init := a[..|a| - 1];
      assert a == init + [a[|a| - 1]];
      assert Distinct(init);
      DistinctCountsOnce(init, v);
      if v == a[|a| - 1] {
        assert v !in init;
      }
    }
  }

  /** Sorting distinct positions leaves them strictly ascending and still
      distinct. */
  lemma SortedDistinct(a0: seq<int>, a: seq<int>)
    requires Distinct(a0) && multiset(a) == multiset(a0) && Ascending(a)
    ensures StrictlyAscending(a) && Distinct(a)
  {
    forall p, q | 0 <= p < q < |a|
      ensures a[p] < a[q]
    {
      if a[p] == a[q] {
        EqualPairCountsTwice(a, p, q);
        DistinctCountsOnce(a0, a[p]);
        assert false;
      }
    }
  }

  /** Sorting keeps every position a thread id. */
  lemma SortedInRange(a0: seq<int>, a: seq<int>)
    requires InRange(a0) && multiset(a) == multiset(a0)
    ensures InRange(a)
  {
    forall k | 0 <= k < |a|
      ensures 0 <= a[k] < TotalThreads
    {
      assert a[k] in multiset(a0);
    }
  }
}
