/** `SharedCounter`: three independent 32-bit counters, one per synchronisation strategy
    (none, a lock, `Interlocked`). Every operation is one atomic step on its own field;
    the unsafe increment has the same sequential effect as the safe ones. */
module SharedCounter {
  import opened MachineInt

  class SharedCounter {
    var counterUnsafe: int
    var counterWithLock: int
    var counterWithInterlocked: int

    ghost predicate Valid()
      reads this
    {
      InInt32(counterUnsafe) && InInt32(counterWithLock) && InInt32(counterWithInterlocked)
    }

    /** All three counters start at 0 (C# field defaults). */
    constructor ()
      ensures Valid()
      ensures counterUnsafe == 0 && counterWithLock == 0 && counterWithInterlocked == 0
    {
      counterUnsafe, counterWithLock, counterWithInterlocked := 0, 0, 0;
    }

    method CounterUnsafe() returns (r: int)
      ensures r == counterUnsafe
    {
      r := counterUnsafe;
    }

    method CounterWithLock() returns (r: int)
      ensures r == counterWithLock
    {
      r := counterWithLock;
    }

    method CounterWithInterlocked() returns (r: int)
      ensures r == counterWithInterlocked
    {
      r := counterWithInterlocked;
    }

    /** `_counterUnsafe++`: read, add one, write back (wrapping, unchecked). */
    method IncrementUnsafe()
      requires Valid()
      modifies this
      ensures Valid()
      ensures counterUnsafe == Wrap32(old(counterUnsafe) + 1)
      ensures counterWithLock == old(counterWithLock)
      ensures counterWithInterlocked == old(counterWithInterlocked)
    {
      counterUnsafe := Wrap32(counterUnsafe + 1);
    }

    /** `lock { _counterWithLock++; }`: adds one to its own field only. */
    method IncrementWithLock()
      requires Valid()
      modifies this
      ensures Valid()
      ensures counterWithLock == Wrap32(old(counterWithLock) + 1)
      ensures counterUnsafe == old(counterUnsafe)
      ensures counterWithInterlocked == old(counterWithInterlocked)
    {
      counterWithLock := Wrap32(counterWithLock + 1);
    }

    /** `Interlocked.Increment(ref _counterWithInterlocked)`. */
    method IncrementWithInterlocked()
      requires Valid()
      modifies this
      ensures Valid()
      ensures counterWithInterlocked == Wrap32(old(counterWithInterlocked) + 1)
      ensures counterUnsafe == old(counterUnsafe)
      ensures counterWithLock == old(counterWithLock)
    {
      counterWithInterlocked := Wrap32(counterWithInterlocked + 1);
    }

    /** `Interlocked.Decrement(ref _counterWithInterlocked)`. */
    method DecrementWithInterlocked()
      requires Valid()
      modifies this
      ensures Valid()
      ensures counterWithInterlocked == Wrap32(old(counterWithInterlocked) - 1)
      ensures counterUnsafe == old(counterUnsafe)
      ensures counterWithLock == old(counterWithLock)
    {
      counterWithInterlocked := Wrap32(counterWithInterlocked - 1);
    }

    /** `Interlocked.Add`: stores old + value (wrapping) and returns the new value. */
    method AddWithInterlocked(value: int) returns (r: int)
      requires Valid() && InInt32(value)
      modifies this
      ensures Valid()
      ensures counterWithInterlocked == Wrap32(old(counterWithInterlocked) + value)
      ensures r == counterWithInterlocked
      ensures counterUnsafe == old(counterUnsafe)
      ensures counterWithLock == old(counterWithLock)
    {
      counterWithInterlocked := Wrap32(counterWithInterlocked + value);
      r := counterWithInterlocked;
    }

    /** `Interlocked.CompareExchange(ref _counterWithInterlocked, newValue, comparand)`:
        returns the original value and stores `newValue` exactly when it equalled `comparand`. */
    method CompareExchangeWithInterlocked(comparand: int, newValue: int) returns (original: int)
      requires Valid() && InInt32(newValue)
      modifies this
      ensures Valid()
      ensures original == old(counterWithInterlocked)
      ensures counterWithInterlocked == if original == comparand then newValue else original
      ensures counterUnsafe == old(counterUnsafe)
      ensures counterWithLock == old(counterWithLock)
    {
      original := counterWithInterlocked;
      if counterWithInterlocked == comparand {
        counterWithInterlocked := newValue;
      }
    }

    /** Sets all three counters to 0. */
    method ResetAll()
      modifies this
      ensures Valid()
      ensures counterUnsafe == 0 && counterWithLock == 0 && counterWithInterlocked == 0
    {
      counterUnsafe := 0;
      counterWithLock := 0;
      counterWithInterlocked := 0;
    }
  }

  /** The three strategies a demonstration run drives. */
  datatype Strategy = Unsafe | WithLock | WithInterlocked

  /** `threads` workers each incrementing `increments` times with the chosen strategy,
      their increments run as whole steps in some order: the chosen counter grows by
      exactly `threads * increments` (when that does not overflow) and the other two are
      untouched. For the lock and `Interlocked` strategies every run is of this kind; for
      `Unsafe` it is only the run in which no two increments interleave, and
      `RunUnsafeSteps` runs the interleaved halves instead. */
  method RunConcurrentIncrements(counter: SharedCounter, strategy: Strategy, threads: nat, increments: nat)
    requires counter.Valid()
    requires 0 <= counter.counterUnsafe && 0 <= counter.counterWithLock && 0 <= counter.counterWithInterlocked
    requires counter.counterUnsafe + threads * increments <= MAX_INT32
    requires counter.counterWithLock + threads * increments <= MAX_INT32
    requires counter.counterWithInterlocked + threads * increments <= MAX_INT32
    modifies counter
    ensures counter.Valid()
    ensures counter.counterUnsafe == old(counter.counterUnsafe) + (if strategy == Unsafe then threads * increments else 0)
    ensures counter.counterWithLock == old(counter.counterWithLock) + (if strategy == WithLock then threads * increments else 0)
    ensures counter.counterWithInterlocked ==
      old(counter.counterWithInterlocked) + (if strategy == WithInterlocked then threads * increments else 0)
  {
    var done := 0;
    var t := 0;
    while t < threads
      invariant 0 <= t <= threads && done == t * increments
      invariant counter.Valid()
      invariant counter.counterUnsafe == old(counter.counterUnsafe) + (if strategy == Unsafe then done else 0)
      invariant counter.counterWithLock == old(counter.counterWithLock) + (if strategy == WithLock then done else 0)
      invariant counter.counterWithInterlocked ==
        old(counter.counterWithInterlocked) + (if strategy == WithInterlocked then done else 0)
    {
      assert (t + 1) * increments <= threads * increments by {
        assert t + 1 <= threads;
      }
      var j := 0;
      while j < increments
        invariant 0 <= j <= increments && done == t * increments + j
        invariant counter.Valid()
        invariant counter.counterUnsafe == old(counter.counterUnsafe) + (if strategy == Unsafe then done else 0)
        invariant counter.counterWithLock == old(counter.counterWithLock) + (if strategy == WithLock then done else 0)
        invariant counter.counterWithInterlocked ==
          old(counter.counterWithInterlocked) + (if strategy == WithInterlocked then done else 0)
      {
        match strategy {
          case Unsafe => counter.IncrementUnsafe();
          case WithLock => counter.IncrementWithLock();
          case WithInterlocked => counter.IncrementWithInterlocked();
        }
        done := done + 1;
        j := j + 1;
      }
      t := t + 1;
    }
  }

  /** One half of the unsafe `_counterUnsafe++`, which reads the field into a register,
      adds one and writes it back: thread `thread` loads the field, or stores its loaded
      value plus one. Threads running `IncrementUnsafe` concurrently interleave these halves. */
  datatype HalfStep = Load(thread: nat) | Store(thread: nat)

  /** The unsafe field and the value each thread has loaded and not yet stored. */
  datatype UnsafeState = UnsafeState(counter: int, pending: map<nat, int>)

  /** The halves applied one after another, first to last, to the field holding `v0`. */
  function UnsafeRun(v0: int, steps: seq<HalfStep>): UnsafeState
  {
    if steps == [] then UnsafeState(v0, map[])
    else
      var s := UnsafeRun(v0, steps[..|steps| - 1]);
      match steps[|steps| - 1]
      case Load(t) => UnsafeState(s.counter, s.pending[t := s.counter])
      case Store(t) => if t in s.pending then UnsafeState(Wrap32(s.pending[t] + 1), s.pending - {t}) else s
  }

  /** Every thread alternates load and store, as its loop of increments does: a load only
      when it has nothing pending, a store only after its own load. */
  predicate Interleaved(v0: int, steps: seq<HalfStep>)
  {
    steps == [] ||
      (var prefix := steps[..|steps| - 1];
       Interleaved(v0, prefix) &&
         match steps[|steps| - 1]
         case Load(t) => t !in UnsafeRun(v0, prefix).pending
         case Store(t) => t in UnsafeRun(v0, prefix).pending)
  }

  /** The number of increments completed: the stores. */
  function Stores(steps: seq<HalfStep>): nat
  {
    if steps == [] then 0
    else Stores(steps[..|steps| - 1]) + (if steps[|steps| - 1].Store? then 1 else 0)
  }

  /** Each increment run whole, the threads taking turns in the order `threads`. */
  function Sequential(threads: seq<nat>): seq<HalfStep>
  {
    if threads == [] then []
    else Sequential(threads[..|threads| - 1]) + [Load(threads[|threads| - 1]), Store(threads[|threads| - 1])]
  }

  /** Interleaved halves never add more than the increments completed, and once one
      increment has completed the field is above its start: an increment can be lost, but
      no value is made up. Every loaded value lies within the same bounds. */
  lemma {:induction false} UnsafeRunBounded(v0: int, steps: seq<HalfStep>)
    requires 0 <= v0 && v0 + Stores(steps) <= MAX_INT32
    requires Interleaved(v0, steps)
    ensures var s := UnsafeRun(v0, steps);
      && v0 <= s.counter <= v0 + Stores(steps)
      && (Stores(steps) > 0 ==> v0 < s.counter)
      && forall t :: t in s.pending ==> v0 <= s.pending[t] <= v0 + Stores(steps)
  {
    if steps != [] {
      var prefix := steps[..|steps| - 1];
      UnsafeRunBounded(v0, prefix);
    }
  }

  /** Each increment run whole completes one store. */
  lemma {:induction false} SequentialStores(threads: seq<nat>)
    ensures Stores(Sequential(threads)) == |threads|
  {
    if threads != [] {
      var prefix := threads[..|threads| - 1];
      var t := threads[|threads| - 1];
      SequentialStores(prefix);
      var s := Sequential(prefix);
      assert (s + [Load(t), Store(t)])[..|s| + 1] == s + [Load(t)];
      assert (s + [Load(t)])[..|s|] == s;
    }
  }

  /** Increments that do not interleave lose nothing: `n` of them add exactly `n`. */
  lemma {:induction false} SequentialLosesNothing(v0: int, threads: seq<nat>)
    requires InInt32(v0) && v0 + |threads| <= MAX_INT32
    ensures UnsafeRun(v0, Sequential(threads)) == UnsafeState(v0 + |threads|, map[])
    ensures Interleaved(v0, Sequential(threads))
  {
    if threads != [] {
      var prefix := threads[..|threads| - 1];
      var t := threads[|threads| - 1];
      SequentialLosesNothing(v0, prefix);
      var s := Sequential(prefix);
      assert Sequential(threads) == s + [Load(t), Store(t)];
      assert (s + [Load(t), Store(t)])[..|s| + 1] == s + [Load(t)];
      assert (s + [Load(t)])[..|s|] == s;
    }
  }

  /** Two threads that both load 100 before either stores write 101 twice: one of the two
      increments is lost. */
  lemma LostIncrement()
    ensures var steps := [Load(0), Load(1), Store(0), Store(1)];
      Interleaved(100, steps) && Stores(steps) == 2 && UnsafeRun(100, steps).counter == 101
  {
    var s1, s2, s3 := [Load(0)], [Load(0), Load(1)], [Load(0), Load(1), Store(0)];
    var steps := s3 + [Store(1)];
    assert s1[..0] == [] && s2[..1] == s1 && s3[..2] == s2 && steps[..3] == s3;
    assert UnsafeRun(100, s1) == UnsafeState(100, map[0 := 100]);
    assert UnsafeRun(100, s2) == UnsafeState(100, map[0 := 100, 1 := 100]);
    assert UnsafeRun(100, s3).counter == 101 && UnsafeRun(100, s3).pending == map[1 := 100];
    assert Interleaved(100, s1) && Interleaved(100, s2) && Interleaved(100, s3);
    assert Stores(s1) == 0 && Stores(s2) == 0 && Stores(s3) == 1;
    assert steps == [Load(0), Load(1), Store(0), Store(1)];
  }

  /** Concurrent `IncrementUnsafe` calls whose halves interleave as `steps`: a load copies
      the field into the thread's register, a store writes the register plus one back. */
  method RunUnsafeSteps(counter: SharedCounter, steps: seq<HalfStep>)
    requires counter.Valid()
    modifies counter
    ensures counter.Valid()
    ensures counter.counterUnsafe == UnsafeRun(old(counter.counterUnsafe), steps).counter
    ensures counter.counterWithLock == old(counter.counterWithLock)
    ensures counter.counterWithInterlocked == old(counter.counterWithInterlocked)
  {
    ghost var v0 := counter.counterUnsafe;
    var registers: map<nat, int> := map[];
    var k := 0;
    while k < |steps|
      invariant 0 <= k <= |steps|
      invariant counter.Valid()
      invariant UnsafeRun(v0, steps[..k]) == UnsafeState(counter.counterUnsafe, registers)
      invariant counter.counterWithLock == old(counter.counterWithLock)
      invariant counter.counterWithInterlocked == old(counter.counterWithInterlocked)
    {
      assert steps[..k + 1][..k] == steps[..k];
      match steps[k] {
        case Load(t) =>
          var value := counter.CounterUnsafe();
          registers := registers[t := value];
        case Store(t) =>
          if t in registers {
            counter.counterUnsafe := Wrap32(registers[t] + 1);
            registers := registers - {t};
          }
      }
      k := k + 1;
    }
    assert steps[..k] == steps;
  }

  /** The counter demonstration: on a fresh counter, 20 threads x 10,000 increments with each
      strategy, with a reset between runs. The unsafe run's halves interleave as
      `unsafeSteps`: it ends above 0 and at most 200,000, and at exactly 200,000 when no two
      increments interleave. The lock and `Interlocked` runs reach 200,000 in any order. */
  method CounterDemo(unsafeSteps: seq<HalfStep>) returns (unsafe: int, withLock: int, withInterlocked: int)
    requires Interleaved(0, unsafeSteps) && Stores(unsafeSteps) == 200_000
    requires forall k :: 0 <= k < |unsafeSteps| ==> unsafeSteps[k].thread < 20
    ensures 0 < unsafe <= 200_000
    ensures (exists threads :: unsafeSteps == Sequential(threads)) ==> unsafe == 200_000
    ensures withLock == 200_000 && withInterlocked == 200_000
  {
    var counter := new SharedCounter();
    RunUnsafeSteps(counter, unsafeSteps);
    unsafe := counter.CounterUnsafe();
    UnsafeRunBounded(0, unsafeSteps);
    if exists threads :: unsafeSteps == Sequential(threads) {
      var threads :| unsafeSteps == Sequential(threads);
      SequentialStores(threads);
      SequentialLosesNothing(0, threads);
    }
    counter.ResetAll();
    RunConcurrentIncrements(counter, WithLock, 20, 10_000);
    withLock := counter.CounterWithLock();
    counter.ResetAll();
    RunConcurrentIncrements(counter, WithInterlocked, 20, 10_000);
    withInterlocked := counter.CounterWithInterlocked();
  }

  /** The compare-and-swap demonstration: after Add(100), CompareExchange(100, 200) returns
      100 and stores 200; CompareExchange(100, 300) then returns 200 and leaves 200. */
  method CompareExchangeDemo() returns (first: int, afterFirst: int, second: int, afterSecond: int)
    ensures first == 100 && afterFirst == 200
    ensures second == 200 && afterSecond == 200
  {
    var counter := new SharedCounter();
    var _ := counter.AddWithInterlocked(100);
    first := counter.CompareExchangeWithInterlocked(100, 200);
    afterFirst := counter.CounterWithInterlocked();
    second := counter.CompareExchangeWithInterlocked(100, 300);
    afterSecond := counter.CounterWithInterlocked();
  }
}
