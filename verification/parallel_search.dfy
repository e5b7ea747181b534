/** The OpenMP `parallelSearch` examples. The loop iterations are shared among threads, and
    the only shared write, to `foundIndex`, happens inside `#pragma omp critical`, so a run
    is the iterations executed one at a time in some order: a `schedule` listing every
    index of `vec` once. The sequential order `0, 1, ..., n - 1` is one such schedule. */
module SearchSchedule {

  /** `schedule` runs every iteration `0 .. n - 1` exactly once. */
  predicate IsSchedule(schedule: seq<int>, n: nat)
  {
    && |schedule| == n
    && (forall k :: 0 <= k < |schedule| ==> 0 <= schedule[k] < n)
    && (forall i :: 0 <= i < n ==> i in schedule)
  }

  /** The sequential iteration order. */
  function Sequential(n: nat): (s: seq<int>)
    ensures |s| == n && forall k :: 0 <= k < n ==> s[k] == k
    ensures IsSchedule(s, n)
  {
    var s := seq(n, k => k);
    assert forall i :: 0 <= i < n ==> s[i] == i && i in s;
    s
  }
}

/** 04-Paralelismo/OpenMP/Parallel-Search: `if (foundIndex == -1) foundIndex = i;`, so the
    first match to reach the critical section wins and is never overwritten. */
module GuardedSearch {
  import opened SearchSchedule

  /** The loop under `schedule`. */
  method ParallelSearch(vec: seq<int>, target: int, schedule: seq<int>) returns (foundIndex: int)
    requires IsSchedule(schedule, |vec|)
    ensures foundIndex == -1 <==> target !in vec
    ensures foundIndex != -1 ==> 0 <= foundIndex < |vec| && vec[foundIndex] == target
    ensures foundIndex != -1 ==>
      exists k :: 0 <= k < |schedule| && schedule[k] == foundIndex &&
        forall m :: 0 <= m < k ==> vec[schedule[m]] != target
  {
    foundIndex := -1;
    var k := 0;
    while k < |schedule|
      invariant 0 <= k <= |schedule|
      invariant foundIndex == -1 <==> forall m :: 0 <= m < k ==> vec[schedule[m]] != target
      invariant foundIndex != -1 ==> 0 <= foundIndex < |vec| && vec[foundIndex] == target
      invariant foundIndex != -1 ==>
        exists j :: 0 <= j < k && schedule[j] == foundIndex &&
          forall m :: 0 <= m < j ==> vec[schedule[m]] != target
    {
      var i := schedule[k];
      if vec[i] == target {
        if foundIndex == -1 {
          foundIndex := i;
        }
      }
      k := k + 1;
    }
    if foundIndex == -1 {
      forall i | 0 <= i < |vec|
        ensures vec[i] != target
      {
        assert i in schedule;
        var m :| 0 <= m < |schedule| && schedule[m] == i;
      }
    }
  }

  /** Under the sequential order the guard keeps the smallest matching index. */
  method SequentialSearch(vec: seq<int>, target: int) returns (foundIndex: int)
    ensures foundIndex == -1 <==> target !in vec
    ensures foundIndex != -1 ==> 0 <= foundIndex < |vec| && vec[foundIndex] == target
    ensures foundIndex != -1 ==> forall i :: 0 <= i < foundIndex ==> vec[i] != target
  {
    var order := Sequential(|vec|);
    foundIndex := ParallelSearch(vec, target, order);
    if foundIndex != -1 {
      var k :| 0 <= k < |order| && order[k] == foundIndex &&
        forall m :: 0 <= m < k ==> vec[order[m]] != target;
      forall i | 0 <= i < foundIndex
        ensures vec[i] != target
      {
        assert order[i] == i;
      }
    }
  }

  /** The example: 6 occurs only at index 8 of {5, 3, 8, 2, 9, 1, 4, 7, 6}, so every
      schedule finds 8. */
  method Example(schedule: seq<int>) returns (result: int)
    requires IsSchedule(schedule, 9)
    ensures result == 8
  {
    var vec := [5, 3, 8, 2, 9, 1, 4, 7, 6];
    assert vec[8] == 6;
    result := ParallelSearch(vec, 6, schedule);
  }
}

/** parallel_search.cpp: `foundIndex = i;` on every match, so the last match to reach the
    critical section wins. */
module OverwritingSearch {
  import opened SearchSchedule

  /** The loop under `schedule`. */
  method ParallelSearch(vec: seq<int>, target: int, schedule: seq<int>) returns (foundIndex: int)
    requires IsSchedule(schedule, |vec|)
    ensures foundIndex == -1 <==> target !in vec
    ensures foundIndex != -1 ==> 0 <= foundIndex < |vec| && vec[foundIndex] == target
    ensures foundIndex != -1 ==>
      exists k :: 0 <= k < |schedule| && schedule[k] == foundIndex &&
        forall m :: k < m < |schedule| ==> vec[schedule[m]] != target
  {
    foundIndex := -1;
    var k := 0;
    while k < |schedule|
      invariant 0 <= k <= |schedule|
      invariant foundIndex == -1 <==> forall m :: 0 <= m < k ==> vec[schedule[m]] != target
      invariant foundIndex != -1 ==> 0 <= foundIndex < |vec| && vec[foundIndex] == target
      invariant foundIndex != -1 ==>
        exists j :: 0 <= j < k && schedule[j] == foundIndex &&
          forall m :: j < m < k ==> vec[schedule[m]] != target
    {
      var i := schedule[k];
      if vec[i] == target {
        foundIndex := i;
      }
      k := k + 1;
    }
    if foundIndex == -1 {
      forall i | 0 <= i < |vec|
        ensures vec[i] != target
      {
        assert i in schedule;
        var m :| 0 <= m < |schedule| && schedule[m] == i;
      }
    }
  }

  /** Under the sequential order every match overwrites, leaving the largest matching index. */
  method SequentialSearch(vec: seq<int>, target: int) returns (foundIndex: int)
    ensures foundIndex == -1 <==> target !in vec
    ensures foundIndex != -1 ==> 0 <= foundIndex < |vec| && vec[foundIndex] == target
    ensures foundIndex != -1 ==> forall i :: foundIndex < i < |vec| ==> vec[i] != target
  {
    var order := Sequential(|vec|);
    foundIndex := ParallelSearch(vec, target, order);
    if foundIndex != -1 {
      var k :| 0 <= k < |order| && order[k] == foundIndex &&
        forall m :: k < m < |order| ==> vec[order[m]] != target;
      forall i | foundIndex < i < |vec|
        ensures vec[i] != target
      {
        assert order[i] == i;
      }
    }
  }

  /** The example: every schedule finds 6 at index 8. */
  method Example(schedule: seq<int>) returns (result: int)
    requires IsSchedule(schedule, 9)
    ensures result == 8
  {
    var vec := [5, 3, 8, 2, 9, 1, 4, 7, 6];
    assert vec[8] == 6;
    result := ParallelSearch(vec, 6, schedule);
  }
}
