/** The divide-and-conquer linear search (Divide-and-Conquer/main.c and main.c, which
    share `linear_search` and the partition loop). `main` splits `[0, n)` into one chunk
    per thread; each worker scans its chunk and, at its first match, writes `result` and
    `done` under the mutex unless another worker already has, then exits. A worker's only
    shared effect is that one guarded write, so a run is the workers executed whole, one
    after another, in the order they reach the mutex. */
module ChunkedSearch {
  import opened MachineInt

  /** The part of `struct thread_data` that varies per worker. */
  datatype ThreadData = ThreadData(threadId: int, startIndex: int, endIndex: int)

  predicate InChunk(d: ThreadData, i: int)
  {
    d.startIndex <= i < d.endIndex
  }

  /** The chunk the partition loop gives worker `t` of `numThreads` over `n` elements:
      `[t * step, (t + 1) * step)` with `step = n / numThreads`, the last one ending at `n`. */
  function Chunk(n: nat, numThreads: nat, t: nat): ThreadData
    requires numThreads > 0
  {
    var step := n / numThreads;
    ThreadData(t, t * step, if t == numThreads - 1 then n else (t + 1) * step)
  }

  /** Some chunk of `td` holds index `i`. */
  predicate Covered(td: seq<ThreadData>, i: int)
  {
    exists t :: 0 <= t < |td| && InChunk(td[t], i)
  }

  /** Chunks laid end to end from 0 to `n`. */
  predicate Contiguous(td: seq<ThreadData>, n: int)
  {
    && |td| > 0
    && td[0].startIndex == 0
    && td[|td| - 1].endIndex == n
    && (forall t :: 0 <= t < |td| ==> td[t].startIndex <= td[t].endIndex)
    && (forall t :: 0 <= t < |td| - 1 ==> td[t].endIndex == td[t + 1].startIndex)
  }

  /** The partition loop's chunks lie end to end from 0 to `n`, also when `n < numThreads`
      (then every chunk but the last is empty). */
  lemma ChunksContiguous(n: nat, numThreads: nat)
    requires numThreads > 0
    ensures Contiguous(seq(numThreads, t requires 0 <= t => Chunk(n, numThreads, t)), n)
  {
    var td := seq(numThreads, t requires 0 <= t => Chunk(n, numThreads, t));
    var step := n / numThreads;
    forall t | 0 <= t < numThreads
      ensures td[t].startIndex <= td[t].endIndex
    {
      if t == numThreads - 1 {
        MulMonotone(t, numThreads, step);
        assert numThreads * step <= n;
      } else {
        MulMonotone(t, t + 1, step);
      }
    }
  }

  /** Contiguous chunks never overlap: a later chunk starts where an earlier one has ended. */
  lemma {:induction false} ContiguousOrdered(td: seq<ThreadData>, n: int, t: nat, u: nat)
    requires Contiguous(td, n) && t < u < |td|
    ensures td[t].endIndex <= td[u].startIndex
  {
    if t + 1 < u {
      ContiguousOrdered(td, n, t, u - 1);
    }
  }

  /** Every index below the end of chunk `k` lies in one of the chunks `0 .. k`. */
  lemma {:induction false} ContiguousCoversUpTo(td: seq<ThreadData>, n: int, k: nat, i: int)
    requires Contiguous(td, n) && k < |td| && 0 <= i < td[k].endIndex
    ensures exists t :: 0 <= t <= k && InChunk(td[t], i)
  {
    if i < td[k].startIndex {
      ContiguousCoversUpTo(td, n, k - 1, i);
    } else {
      assert InChunk(td[k], i);
    }
  }

  /** Contiguous chunks partition `[0, n)`: every index is in exactly one chunk, and no
      chunk reaches outside `[0, n)`. */
  lemma ContiguousPartition(td: seq<ThreadData>, n: int)
    requires Contiguous(td, n)
    ensures forall i :: 0 <= i < n ==> Covered(td, i)
    ensures forall t, u, i :: 0 <= t < |td| && 0 <= u < |td| && t != u && InChunk(td[t], i) ==>
      !InChunk(td[u], i)
    ensures forall t, i :: 0 <= t < |td| && InChunk(td[t], i) ==> 0 <= i < n
  {
    forall i | 0 <= i < n
      ensures Covered(td, i)
    {
      ContiguousCoversUpTo(td, n, |td| - 1, i);
    }
    forall t, u | 0 <= t < |td| && 0 <= u < |td| && t != u
      ensures forall i :: InChunk(td[t], i) ==> !InChunk(td[u], i)
    {
      if t < u {
        ContiguousOrdered(td, n, t, u);
      } else {
        ContiguousOrdered(td, n, u, t);
      }
    }
    forall t | 0 <= t < |td|
      ensures 0 <= td[t].startIndex && td[t].endIndex <= n
    {
      if t > 0 {
        ContiguousOrdered(td, n, 0, t);
      }
      if t < |td| - 1 {
        ContiguousOrdered(td, n, t, |td| - 1);
      }
    }
  }

  /** The partition loop of `main`: fills `td` with each worker's chunk. */
  method Partition(arraySize: nat, numThreads: nat) returns (td: array<ThreadData>)
    requires numThreads > 0
    ensures fresh(td) && td.Length == numThreads
    ensures forall t :: 0 <= t < numThreads ==> td[t] == Chunk(arraySize, numThreads, t)
    ensures Contiguous(td[..], arraySize)
  {
    td := new ThreadData[numThreads];
    var step := arraySize / numThreads;
    var t := 0;
    while t < numThreads
      invariant 0 <= t <= numThreads
      invariant forall s :: 0 <= s < t ==> td[s] == Chunk(arraySize, numThreads, s)
    {
      td[t] := ThreadData(t, t * step, (t + 1) * step);
      if t == numThreads - 1 {
        td[t] := td[t].(endIndex := arraySize);
      }
      t := t + 1;
    }
    ChunksContiguous(arraySize, numThreads);
    assert td[..] == seq(numThreads, t requires 0 <= t => Chunk(arraySize, numThreads, t));
  }

  /** The first index of `[lo, hi)` holding `x`, or -1. */
  function FirstMatch(arr: seq<int>, lo: int, hi: int, x: int): int
    requires 0 <= lo && hi <= |arr|
    decreases hi - lo
  {
    if lo >= hi then -1
    else if arr[lo] == x then lo
    else FirstMatch(arr, lo + 1, hi, x)
  }

  /** `FirstMatch` is -1 exactly when `[lo, hi)` holds no `x`; otherwise it is an index of
      the range holding `x` with none before it. */
  lemma {:induction false} FirstMatchMeaning(arr: seq<int>, lo: int, hi: int, x: int)
    requires 0 <= lo && hi <= |arr|
    ensures var r := FirstMatch(arr, lo, hi, x);
      (r == -1 <==> forall i :: lo <= i < hi ==> arr[i] != x)
    ensures var r := FirstMatch(arr, lo, hi, x);
      r != -1 ==> lo <= r < hi && arr[r] == x && forall i :: lo <= i < r ==> arr[i] != x
    decreases hi - lo
  {
    if lo < hi && arr[lo] != x {
      FirstMatchMeaning(arr, lo + 1, hi, x);
    }
  }

  /** `result` and `done`, shared by all workers and guarded by the mutex. */
  class SearchState {
    var result: int
    var done: bool
    /** How many times `result` has been written. */
    ghost var writes: nat

    /** `result` is written at most once, and `done` says whether it has been. */
    ghost predicate Valid()
      reads this
    {
      (writes == 0 && !done && result == -1) || (writes == 1 && done)
    }

    constructor ()
      ensures Valid() && result == -1 && !done && writes == 0
    {
      result, done, writes := -1, false, 0;
    }

    /** The critical section: the first worker to get here records `i`. */
    method Record(i: int)
      requires Valid()
      modifies this
      ensures Valid()
      ensures if old(done) then result == old(result) && writes == old(writes)
              else result == i && done && writes == 1
    {
      if !done {
        result := i;
        done := true;
        writes := writes + 1;
      }
    }
  }

  /** `linear_search`: scans only its own chunk, stops at the first match and records it
      unless another worker already has. */
  method LinearSearch(arr: seq<int>, d: ThreadData, state: SearchState, element: int)
    requires 0 <= d.startIndex && d.endIndex <= |arr|
    requires state.Valid()
    modifies state
    ensures state.Valid()
    ensures var m := FirstMatch(arr, d.startIndex, d.endIndex, element);
      if m == -1 || old(state.done) then
        state.result == old(state.result) && state.done == old(state.done)
      else state.result == m && state.done
  {
    var i := d.startIndex;
    while i < d.endIndex
      invariant d.startIndex <= i || d.startIndex >= d.endIndex
      invariant FirstMatch(arr, d.startIndex, d.endIndex, element) ==
        (if i >= d.endIndex then -1 else FirstMatch(arr, i, d.endIndex, element))
      invariant state.result == old(state.result) && state.done == old(state.done)
      invariant state.writes == old(state.writes)
      decreases d.endIndex - i
    {
      if arr[i] == element {
        state.Record(i);
        return;
      }
      i := i + 1;
    }
  }

  /** The result of the workers taking their turns in `order`: the first match of the first
      worker in `order` whose chunk has one, or -1. */
  function FirstWriter(arr: seq<int>, td: seq<ThreadData>, order: seq<nat>, element: int): int
    requires forall t :: 0 <= t < |td| ==> 0 <= td[t].startIndex && td[t].endIndex <= |arr|
    requires forall k :: 0 <= k < |order| ==> order[k] < |td|
  {
    if order == [] then -1
    else
      var m := FirstMatch(arr, td[order[0]].startIndex, td[order[0]].endIndex, element);
      if m != -1 then m else FirstWriter(arr, td, order[1..], element)
  }

  /** Whatever the order, the first writer's index holds the element; and when every
      chunk takes a turn, the result is -1 only if no chunk holds the element. */
  lemma {:induction false} FirstWriterMeaning(arr: seq<int>, td: seq<ThreadData>, order: seq<nat>, element: int)
    requires forall t :: 0 <= t < |td| ==> 0 <= td[t].startIndex && td[t].endIndex <= |arr|
    requires forall k :: 0 <= k < |order| ==> order[k] < |td|
    ensures var r := FirstWriter(arr, td, order, element);
      r != -1 ==> 0 <= r < |arr| && arr[r] == element
    ensures var r := FirstWriter(arr, td, order, element);
      r == -1 ==> forall k, i :: 0 <= k < |order| && InChunk(td[order[k]], i) ==> arr[i] != element
  {
    if order != [] {
      var d := td[order[0]];
      FirstMatchMeaning(arr, d.startIndex, d.endIndex, element);
      FirstWriterMeaning(arr, td, order[1..], element);
      if FirstWriter(arr, td, order, element) == -1 {
        forall k, i | 0 <= k < |order| && InChunk(td[order[k]], i)
          ensures arr[i] != element
        {
          if k > 0 {
            assert order[k] == order[1..][k - 1];
          }
        }
      }
    }
  }

  /** Runs the workers whole, one after another, in `order`; the shared `result` ends as
      `FirstWriter` says, having been written at most once. */
  method RunWorkers(arr: seq<int>, td: seq<ThreadData>, order: seq<nat>, element: int) returns (result: int)
    requires forall t :: 0 <= t < |td| ==> 0 <= td[t].startIndex && td[t].endIndex <= |arr|
    requires forall k :: 0 <= k < |order| ==> order[k] < |td|
    ensures result == FirstWriter(arr, td, order, element)
  {
    var state := new SearchState();
    var k := 0;
    while k < |order|
      invariant 0 <= k <= |order|
      invariant state.Valid()
      invariant !state.done ==> FirstWriter(arr, td, order, element) == FirstWriter(arr, td, order[k..], element)
      invariant state.done ==> state.result == FirstWriter(arr, td, order, element)
      invariant !state.done ==> state.result == -1
    {
      assert order[k..][1..] == order[k + 1..];
      LinearSearch(arr, td[order[k]], state, element);
      k := k + 1;
    }
    result := state.result;
    if !state.done {
      assert order[k..] == [];
    }
  }

  /** When the chunks partition `[0, |arr|)` and every worker takes a turn, the first
      writer's result is -1 exactly when the element is absent, and otherwise indexes a
      copy of it. */
  lemma FirstWriterFindsElement(arr: seq<int>, td: seq<ThreadData>, order: seq<nat>, element: int)
    requires Contiguous(td, |arr|)
    requires forall t :: 0 <= t < |td| ==> t in order
    requires forall k :: 0 <= k < |order| ==> order[k] < |td|
    ensures forall t :: 0 <= t < |td| ==> 0 <= td[t].startIndex && td[t].endIndex <= |arr|
    ensures var r := FirstWriter(arr, td, order, element);
      (r == -1 <==> element !in arr) && (r != -1 ==> 0 <= r < |arr| && arr[r] == element)
  {
    ContiguousPartition(td, |arr|);
    forall t | 0 <= t < |td|
      ensures 0 <= td[t].startIndex && td[t].endIndex <= |arr|
    {
      if td[t].startIndex < td[t].endIndex {
        assert InChunk(td[t], td[t].startIndex) && InChunk(td[t], td[t].endIndex - 1);
      } else {
        if t > 0 {
          ContiguousOrdered(td, |arr|, 0, t);
        }
        if t < |td| - 1 {
          ContiguousOrdered(td, |arr|, t, |td| - 1);
        }
      }
    }
    FirstWriterMeaning(arr, td, order, element);
    if FirstWriter(arr, td, order, element) == -1 {
      forall i | 0 <= i < |arr|
        ensures arr[i] != element
      {
        assert Covered(td, i);
        var t :| 0 <= t < |td| && InChunk(td[t], i);
        assert t in order;
        var k :| 0 <= k < |order| && order[k] == t;
      }
    }
  }

  /** A whole run: partition `[0, |arr|)` among `numThreads` workers and run them in
      `order`, a permutation of the thread ids. The result is -1 only when the element is
      absent and otherwise indexes a copy of it; so with the element stored in the last
      slot, as both programs do, the search always succeeds. */
  method Search(arr: seq<int>, numThreads: nat, order: seq<nat>, element: int) returns (result: int)
    requires numThreads > 0
    requires |order| == numThreads && forall t :: 0 <= t < numThreads ==> t in order
    requires forall k :: 0 <= k < |order| ==> order[k] < numThreads
    ensures result == -1 <==> element !in arr
    ensures result != -1 ==> 0 <= result < |arr| && arr[result] == element
    ensures |arr| > 0 && arr[|arr| - 1] == element ==> result != -1
  {
    var td := Partition(|arr|, numThreads);
    var chunks := td[..];
    FirstWriterFindsElement(arr, chunks, order, element);
    result := RunWorkers(arr, chunks, order, element);
  }
}

/** Divide-and-Conquer/main.c: 8 threads over `array_size` elements (1,000,000 unless a
    positive size is given), the element 1981202369 stored in the last slot. */
module DivideAndConquer {
  import ChunkedSearch

  const NUM_THREADS: nat := 8
  const ARRAY_SIZE_DEFAULT: nat := 1000000
  const ELEMENT_TO_FIND: int := 1981202369

  /** The size `main` uses: the argument when positive, the default otherwise. */
  function ArraySize(argument: int): (n: nat)
    ensures argument > 0 ==> n == argument
    ensures argument <= 0 ==> n == ARRAY_SIZE_DEFAULT
  {
    if argument > 0 then argument else ARRAY_SIZE_DEFAULT
  }

  /** The search `main` runs, for any contents of the array before the last slot: it
      finds the element, at an index holding it. */
  method SearchForElement(arr: seq<int>, order: seq<nat>) returns (result: int)
    requires |arr| > 0 && arr[|arr| - 1] == ELEMENT_TO_FIND
    requires |order| == NUM_THREADS && forall t :: 0 <= t < NUM_THREADS ==> t in order
    requires forall k :: 0 <= k < |order| ==> order[k] < NUM_THREADS
    ensures 0 <= result < |arr| && arr[result] == ELEMENT_TO_FIND
  {
    result := ChunkedSearch.Search(arr, NUM_THREADS, order, ELEMENT_TO_FIND);
  }
}

/** main.c: 16 threads over a static array of 1,410,065,408 elements. */
module StaticArraySearch {
  import ChunkedSearch
  import opened MachineInt

  const NUM_THREADS: nat := 16
  const ARRAY_SIZE: nat := 1410065408
  const ELEMENT_TO_FIND: int := 1981202369

  /** With these constants every chunk bound `main` computes fits in a C `int`, and the
      first fifteen chunks hold 88,129,088 elements each. */
  lemma ChunkBoundsFitInt()
    ensures ARRAY_SIZE / NUM_THREADS == 88129088
    ensures forall t :: 0 <= t < NUM_THREADS ==>
      InInt32(ChunkedSearch.Chunk(ARRAY_SIZE, NUM_THREADS, t).startIndex) &&
      InInt32(ChunkedSearch.Chunk(ARRAY_SIZE, NUM_THREADS, t).endIndex)
  {
    forall t | 0 <= t < NUM_THREADS
      ensures InInt32(ChunkedSearch.Chunk(ARRAY_SIZE, NUM_THREADS, t).startIndex)
      ensures InInt32(ChunkedSearch.Chunk(ARRAY_SIZE, NUM_THREADS, t).endIndex)
    {
      MulMonotone(t + 1, NUM_THREADS, 88129088);
    }
  }

  /** The search `main` runs: it always finds the element stored in the last slot. */
  method SearchForElement(arr: seq<int>, order: seq<nat>) returns (result: int)
    requires |arr| == ARRAY_SIZE && arr[ARRAY_SIZE - 1] == ELEMENT_TO_FIND
    requires |order| == NUM_THREADS && forall t :: 0 <= t < NUM_THREADS ==> t in order
    requires forall k :: 0 <= k < |order| ==> order[k] < NUM_THREADS
    ensures 0 <= result < ARRAY_SIZE && arr[result] == ELEMENT_TO_FIND
  {
    result := ChunkedSearch.Search(arr, NUM_THREADS, order, ELEMENT_TO_FIND);
  }
}
