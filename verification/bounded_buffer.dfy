/** `MonitorSolution.BoundedBuffer<T>`: a FIFO queue with a capacity, guarded by a monitor.
    `Put` waits while the queue is full and `Take` waits while it is empty; each completed
    call is one atomic step under the lock, and its wait becomes a precondition. */
module BoundedBuffer {

  import opened Optional

  /** One completed call on the buffer: a `Put(item)` or a `Take()`. */
  datatype Event<T> = Produce(item: T) | Consume

  /** The queue and the items taken so far. */
  datatype State<T> = State(queue: seq<T>, taken: seq<T>)

  /** The calls of `events` run one after another from `queue`: `None` if some call could
      not have completed (a `Put` on a full queue, a `Take` on an empty one). */
  function Replay<T>(capacity: int, queue: seq<T>, events: seq<Event<T>>): Option<State<T>>
  {
    if events == [] then Some(State(queue, []))
    else
      var before := Replay(capacity, queue, events[..|events| - 1]);
      if before.None? then None
      else
        var s := before.value;
        match events[|events| - 1]
        case Produce(x) =>
          if |s.queue| < capacity then Some(State(s.queue + [x], s.taken)) else None
        case Consume =>
          if |s.queue| > 0 then Some(State(s.queue[1..], s.taken + [s.queue[0]])) else None
  }

  /** The items of the `Put` calls of `events`, in order. */
  function Produced<T>(events: seq<Event<T>>): seq<T>
  {
    if events == [] then []
    else
      Produced(events[..|events| - 1])
        + (if events[|events| - 1].Produce? then [events[|events| - 1].item] else [])
  }

  /** The number of `Take` calls in `events`. */
  function Consumes<T>(events: seq<Event<T>>): nat
  {
    if events == [] then 0
    else Consumes(events[..|events| - 1]) + (if events[|events| - 1].Consume? then 1 else 0)
  }

  function Max(a: int, b: int): int { if a >= b then a else b }

  /** FIFO and the capacity bound, for every run that completes from a queue within
      capacity: what was queued at the start followed by everything put equals everything
      taken followed by what is still queued (so the items taken are a prefix of those put,
      in order); each `Take` took one item; and the queue never exceeds the capacity. */
  lemma {:induction false} ReplayIsFifo<T>(capacity: int, queue: seq<T>, events: seq<Event<T>>)
    requires |queue| <= Max(capacity, 0)
    requires Replay(capacity, queue, events).Some?
    ensures var s := Replay(capacity, queue, events).value;
      queue + Produced(events) == s.taken + s.queue
    ensures var s := Replay(capacity, queue, events).value;
      |s.taken| == Consumes(events) && |s.queue| <= Max(capacity, 0)
  {
    if events != [] {
      var prefix := events[..|events| - 1];
      ReplayIsFifo(capacity, queue, prefix);
      var s := Replay(capacity, queue, prefix).value;
      match events[|events| - 1] {
        case Produce(x) =>
          assert queue + Produced(events) == (queue + Produced(prefix)) + [x];
        case Consume =>
          assert Produced(events) == Produced(prefix);
          assert s.queue == [s.queue[0]] + s.queue[1..];
          calc {
            queue + Produced(events);
            s.taken + s.queue;
            s.taken + ([s.queue[0]] + s.queue[1..]);
            (s.taken + [s.queue[0]]) + s.queue[1..];
          }
      }
    }
  }

  class BoundedBuffer<T> {
    var queue: seq<T>
    const capacity: int
    /** Every item ever put and every item ever taken, in order. */
    ghost var putLog: seq<T>
    ghost var takeLog: seq<T>

    /** The queue holds at most `capacity` items (none when the capacity is not positive)
        and is exactly what was put and not yet taken, oldest first. */
    ghost predicate Valid()
      reads this
    {
      |queue| <= Max(capacity, 0) && putLog == takeLog + queue
    }

    constructor (capacity: int)
      ensures Valid() && this.capacity == capacity
      ensures queue == [] && putLog == [] && takeLog == []
    {
      this.capacity := capacity;
      queue := [];
      putLog, takeLog := [], [];
    }

    /** The queue length, read under the lock; changes nothing. */
    method Count() returns (n: nat)
      requires Valid()
      ensures n == |queue| && n <= Max(capacity, 0)
    {
      n := |queue|;
    }

    /** Completes only when the queue has room; then appends `item` at the tail. */
    method Put(item: T)
      requires Valid() && |queue| < capacity
      modifies this
      ensures Valid()
      ensures queue == old(queue) + [item]
      ensures putLog == old(putLog) + [item] && takeLog == old(takeLog)
    {
      queue := queue + [item];
      putLog := putLog + [item];
    }

    /** Completes only when the queue is non-empty; then removes and returns the head. */
    method Take() returns (item: T)
      requires Valid() && |queue| > 0
      modifies this
      ensures Valid()
      ensures item == old(queue)[0] && queue == old(queue)[1..]
      ensures takeLog == old(takeLog) + [item] && putLog == old(putLog)
    {
      item := queue[0];
      queue := queue[1..];
      takeLog := takeLog + [item];
    }
  }

  /** Performs the calls of a run that can complete, in order; the buffer ends as `Replay`
      says and the items taken are those `Replay` records. */
  method Perform<T>(buffer: BoundedBuffer<T>, events: seq<Event<T>>) returns (taken: seq<T>)
    requires buffer.Valid()
    requires Replay(buffer.capacity, buffer.queue, events).Some?
    modifies buffer
    ensures buffer.Valid()
    ensures State(buffer.queue, taken) == Replay(buffer.capacity, old(buffer.queue), events).value
  {
    taken := [];
    var i := 0;
    while i < |events|
      invariant 0 <= i <= |events|
      invariant buffer.Valid()
      invariant Replay(buffer.capacity, old(buffer.queue), events[..i]) == Some(State(buffer.queue, taken))
    {
      assert events[..i + 1][..i] == events[..i];
      ReplayPrefix(buffer.capacity, old(buffer.queue), events, i + 1);
      match events[i] {
        case Produce(x) =>
          buffer.Put(x);
        case Consume =>
          var item := buffer.Take();
          taken := taken + [item];
      }
      i := i + 1;
    }
    assert events[..|events|] == events;
  }

  /** A run that completes has every prefix completing too. */
  lemma {:induction false} ReplayPrefix<T>(capacity: int, queue: seq<T>, events: seq<Event<T>>, k: nat)
    requires k <= |events|
    requires Replay(capacity, queue, events).Some?
    ensures Replay(capacity, queue, events[..k]).Some?
  {
    if k < |events| {
      var prefix := events[..|events| - 1];
      assert prefix[..k] == events[..k];
      ReplayPrefix(capacity, queue, prefix, k);
    } else {
      assert events[..k] == events;
    }
  }

  /** The items `1, ..., n`. */
  function Range(n: nat): (s: seq<int>)
    ensures |s| == n && forall i :: 0 <= i < n ==> s[i] == i + 1
  {
    seq(n, i => i + 1)
  }

  /** The producer/consumer demonstration, under any interleaving that completes: with
      capacity 5, a producer putting 1..10 and a consumer taking ten times, the consumer
      receives 1..10 in order and the buffer ends empty. */
  method ProducerConsumer(events: seq<Event<int>>) returns (taken: seq<int>, remaining: nat)
    requires Produced(events) == Range(10) && Consumes(events) == 10
    requires Replay(5, [], events).Some?
    ensures taken == Range(10) && remaining == 0
  {
    var buffer := new BoundedBuffer<int>(5);
    taken := Perform(buffer, events);
    ReplayIsFifo(5, [], events);
    assert [] + Produced(events) == Produced(events);
    assert taken + buffer.queue == Range(10);
    remaining := buffer.Count();
  }

  /** `Put` then `Take` on an empty buffer with room returns the item and leaves it empty. */
  method PutThenTake<T>(buffer: BoundedBuffer<T>, x: T) returns (y: T)
    requires buffer.Valid() && buffer.queue == [] && buffer.capacity >= 1
    modifies buffer
    ensures buffer.Valid() && y == x && buffer.queue == []
  {
    buffer.Put(x);
    y := buffer.Take();
  }
}
