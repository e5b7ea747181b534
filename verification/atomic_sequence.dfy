/** Wait-free sequence generators: the C# `AtomicCounter` (a 64-bit `Interlocked.Increment`
    on `_value`) and the C++ `SequenceGenerator` (a pre-increment of a `std::atomic<int>`).
    Every call is one atomic step, so any interleaving of calls is some sequential order of
    them; `Successors` and `Received` describe what that order hands out. */
module AtomicSequence {
  import opened MachineInt

  /** The values returned by `k` successive increments of a counter holding `v0`. */
  function Successors(v0: int, k: nat): seq<int>
  {
    if k == 0 then [] else Successors(v0, k - 1) + [v0 + k]
  }

  /** The i-th of `k` successive increments returns `v0 + i + 1`: no gap, no duplicate. */
  lemma {:induction false} SuccessorsAt(v0: int, k: nat)
    ensures |Successors(v0, k)| == k
    ensures forall i :: 0 <= i < k ==> Successors(v0, k)[i] == v0 + 1 + i
  {
    if k > 0 {
      SuccessorsAt(v0, k - 1);
    }
  }

  /** Successive increments hand out strictly increasing, hence pairwise distinct, values. */
  lemma SuccessorsStrictlyIncreasing(v0: int, k: nat)
    ensures forall i, j :: 0 <= i < j < |Successors(v0, k)| ==>
      Successors(v0, k)[i] < Successors(v0, k)[j]
  {
    SuccessorsAt(v0, k);
  }

  /** The values handed to thread `t` when the i-th call overall is made by `schedule[i]`. */
  function Received(v0: int, schedule: seq<nat>, t: nat): set<int>
  {
    if schedule == [] then {}
    else
      Received(v0, schedule[..|schedule| - 1], t)
        + (if schedule[|schedule| - 1] == t then {v0 + |schedule|} else {})
  }

  /** The number of calls thread `t` makes in `schedule`. */
  function Calls(schedule: seq<nat>, t: nat): nat
  {
    if schedule == [] then 0
    else Calls(schedule[..|schedule| - 1], t) + (if schedule[|schedule| - 1] == t then 1 else 0)
  }

  /** The values thread `t` receives lie in `v0 + 1 .. v0 + K`, one per call it made. */
  lemma {:induction false} ReceivedInRange(v0: int, schedule: seq<nat>, t: nat)
    ensures forall x :: x in Received(v0, schedule, t) ==> v0 < x <= v0 + |schedule|
    ensures |Received(v0, schedule, t)| == Calls(schedule, t)
  {
    if schedule != [] {
      var prefix := schedule[..|schedule| - 1];
      ReceivedInRange(v0, prefix, t);
      assert v0 + |schedule| !in Received(v0, prefix, t);
    }
  }

  /** The i-th call hands `v0 + i + 1` to the thread that made it. */
  lemma {:induction false} ReceivedCovers(v0: int, schedule: seq<nat>, t: nat)
    ensures forall i :: 0 <= i < |schedule| && schedule[i] == t ==> v0 + 1 + i in Received(v0, schedule, t)
  {
    if schedule != [] {
      var prefix := schedule[..|schedule| - 1];
      ReceivedCovers(v0, prefix, t);
      forall i | 0 <= i < |prefix|
        ensures prefix[i] == schedule[i]
      {
      }
    }
  }

  /** No value goes to two different threads. */
  lemma {:induction false} ReceivedDisjoint(v0: int, schedule: seq<nat>, t: nat, u: nat)
    requires t != u
    ensures Received(v0, schedule, t) !! Received(v0, schedule, u)
  {
    if schedule != [] {
      var prefix := schedule[..|schedule| - 1];
      ReceivedDisjoint(v0, prefix, t, u);
      ReceivedInRange(v0, prefix, t);
      ReceivedInRange(v0, prefix, u);
    }
  }

  /** Whatever the interleaving, the values handed out are exactly `v0 + 1 .. v0 + K`
      (`K` calls in all): each lies in that range, each value of the range goes to the
      thread that made the corresponding call, no value goes to two threads, and every
      thread receives as many distinct values as it made calls. */
  lemma ReceivedPartitionsRange(v0: int, schedule: seq<nat>, t: nat, u: nat)
    ensures forall x :: x in Received(v0, schedule, t) ==> v0 < x <= v0 + |schedule|
    ensures forall i :: 0 <= i < |schedule| && schedule[i] == t ==> v0 + 1 + i in Received(v0, schedule, t)
    ensures t != u ==> Received(v0, schedule, t) !! Received(v0, schedule, u)
    ensures |Received(v0, schedule, t)| == Calls(schedule, t)
  {
    ReceivedInRange(v0, schedule, t);
    ReceivedCovers(v0, schedule, t);
    if t != u {
      ReceivedDisjoint(v0, schedule, t, u);
    }
  }

  /** `AtomicCounter` (C#): a 64-bit value behind `Interlocked.Increment`/`Interlocked.Read`. */
  class AtomicCounter {
    var value: int

    ghost predicate Valid()
      reads this
    {
      InInt64(value)
    }

    /** A new counter holds 0. */
    constructor ()
      ensures Valid() && value == 0
    {
      value := 0;
    }

    /** Increments by exactly one (wrapping at 2^63 - 1) and returns the new value. */
    method Next() returns (r: int)
      requires Valid()
      modifies this
      ensures Valid()
      ensures value == Wrap64(old(value) + 1) && r == value
      ensures old(value) < MAX_INT64 ==> r == old(value) + 1
    {
      value := Wrap64(value + 1);
      r := value;
    }

    /** The current value; changes nothing. */
    method Value() returns (r: int)
      requires Valid()
      ensures r == value && InInt64(r)
    {
      r := value;
    }
  }

  /** `k` calls of `Next` return `v0 + 1, ..., v0 + k` and leave `v0 + k`. */
  method NextMany(c: AtomicCounter, k: nat) returns (ids: seq<int>)
    requires c.Valid() && c.value + k <= MAX_INT64
    modifies c
    ensures c.Valid() && c.value == old(c.value) + k
    ensures ids == Successors(old(c.value), k)
  {
    ids := [];
    var j := 0;
    while j < k
      invariant 0 <= j <= k
      invariant c.Valid() && c.value == old(c.value) + j
      invariant ids == Successors(old(c.value), j)
    {
      var id := c.Next();
      ids := ids + [id];
      j := j + 1;
    }
  }

  /** The counter runner: `threads` workers, each calling `Next` `increments` times on a
      fresh counter; the final `Value` is `threads * increments`, the expected total. */
  method RunCounter(threads: nat, increments: nat) returns (final: int)
    requires threads * increments <= MAX_INT64
    ensures final == threads * increments
  {
    var counter := new AtomicCounter();
    var t := 0;
    while t < threads
      invariant 0 <= t <= threads
      invariant counter.Valid() && counter.value == t * increments
    {
      assert (t + 1) * increments <= threads * increments by {
        assert t + 1 <= threads;
      }
      var j := 0;
      while j < increments
        invariant 0 <= j <= increments
        invariant counter.Valid() && counter.value == t * increments + j
      {
        var _ := counter.Next();
        j := j + 1;
      }
      t := t + 1;
    }
    final := counter.Value();
  }

  /** `SequenceGenerator` (C++): `std::atomic<int> current{0}`; `getNext` is `++current`. */
  class SequenceGenerator {
    var current: int

    ghost predicate Valid()
      reads this
    {
      InInt32(current)
    }

    /** The generator starts at 0. */
    constructor ()
      ensures Valid() && current == 0
    {
      current := 0;
    }

    /** Pre-increments `current` (atomic integers wrap) and returns the incremented value. */
    method GetNext() returns (id: int)
      requires Valid()
      modifies this
      ensures Valid()
      ensures current == Wrap32(old(current) + 1) && id == current
      ensures old(current) < MAX_INT32 ==> id == old(current) + 1
    {
      current := Wrap32(current + 1);
      id := current;
    }
  }

  /** The C++ program: `n` threads each take one id from a fresh generator; the ids handed
      out, in the order the atomic increments happen, are exactly `1, ..., n`. */
  method HandOutIds(n: nat) returns (ids: seq<int>)
    requires n <= MAX_INT32
    ensures ids == Successors(0, n)
    ensures |ids| == n && forall i :: 0 <= i < n ==> ids[i] == i + 1
  {
    var generator := new SequenceGenerator();
    ids := [];
    var i := 0;
    while i < n
      invariant 0 <= i <= n
      invariant generator.Valid() && generator.current == i
      invariant ids == Successors(0, i)
    {
      var id := generator.GetNext();
      ids := ids + [id];
      i := i + 1;
    }
    SuccessorsAt(0, n);
  }

  /** The ids collected so far for thread `t`; none before its first call. */
  function IdsOf(received: map<nat, set<int>>, t: nat): set<int>
  {
    if t in received then received[t] else {}
  }

  /** The threads' calls of `GetNext`, in the order the atomic increments happen: the i-th
      call overall is made by `schedule[i]`. Each thread collects the ids it receives, and
      these are exactly `Received` of the generator's starting value. */
  method RunSchedule(generator: SequenceGenerator, schedule: seq<nat>) returns (received: map<nat, set<int>>)
    requires generator.Valid() && generator.current + |schedule| <= MAX_INT32
    modifies generator
    ensures generator.Valid() && generator.current == old(generator.current) + |schedule|
    ensures forall t :: IdsOf(received, t) == Received(old(generator.current), schedule, t)
  {
    ghost var v0 := generator.current;
    received := map[];
    var k := 0;
    while k < |schedule|
      invariant 0 <= k <= |schedule|
      invariant generator.Valid() && generator.current == v0 + k
      invariant forall t :: IdsOf(received, t) == Received(v0, schedule[..k], t)
    {
      var thread := schedule[k];
      var id := generator.GetNext();
      assert schedule[..k + 1][..k] == schedule[..k];
      received := received[thread := IdsOf(received, thread) + {id}];
      k := k + 1;
    }
    assert schedule[..k] == schedule;
  }

  /** The C++ program under any interleaving: a fresh generator, each thread in `schedule`
      calling `getNext`. The ids handed out are `1 .. |schedule|`: each thread's ids lie in
      that range, one per call it made, and no id goes to two threads. */
  method InterleavedIds(schedule: seq<nat>, t: nat, u: nat) returns (received: map<nat, set<int>>)
    requires |schedule| <= MAX_INT32
    ensures forall x :: x in IdsOf(received, t) ==> 1 <= x <= |schedule|
    ensures forall i :: 0 <= i < |schedule| && schedule[i] == t ==> i + 1 in IdsOf(received, t)
    ensures |IdsOf(received, t)| == Calls(schedule, t)
    ensures t != u ==> IdsOf(received, t) !! IdsOf(received, u)
  {
    var generator := new SequenceGenerator();
    received := RunSchedule(generator, schedule);
    ReceivedPartitionsRange(0, schedule, t, u);
  }

  /** With the program's 100 threads, the first id is 1 and the last is 100. */
  lemma HundredThreadsGetOneToHundred()
    ensures |Successors(0, 100)| == 100
    ensures Successors(0, 100)[0] == 1 && Successors(0, 100)[99] == 100
  {
    SuccessorsAt(0, 100);
  }
}
