/** Counting-semaphore admission from the semaphore solution: `DatabaseConnectionPool`
    with its `DatabaseConnection`s, and `RateLimiter` with its timer refill. The
    `SemaphoreSlim` inside each is represented by its current count. A blocking
    `Wait()` becomes a precondition; a `Release` that would push the count above the
    maximum throws `SemaphoreFullException` in .NET, which the model reports as `ok == false`
    with the state unchanged. */
module Semaphore {
  import opened MachineInt

  class DatabaseConnectionPool {
    /** The semaphore's `CurrentCount`: connections that may still be acquired. */
    var free: int
    const maxConnections: int
    var nextConnectionId: int
    /** Connections acquired and not yet given back. */
    ghost var outstanding: int
    /** The ids handed out, in order. */
    ghost var issued: seq<int>

    /** Free permits stay in `[0, max]` and together with the outstanding connections make
        up `max`; the ids handed out are `1, 2, 3, ...` in 32-bit arithmetic, and the next
        id is the one after the last. */
    ghost predicate Valid()
      reads this
    {
      && 0 < maxConnections
      && 0 <= free <= maxConnections
      && free + outstanding == maxConnections
      && nextConnectionId == Wrap32(|issued| + 1)
      && (forall i :: 0 <= i < |issued| ==> issued[i] == Wrap32(i + 1))
    }

    /** A new pool has all `maxConnections` permits free and hands out id 1 first.
        (`SemaphoreSlim` rejects a maximum that is not positive.) */
    constructor (maxConnections: int)
      requires maxConnections > 0
      ensures Valid()
      ensures this.maxConnections == maxConnections && free == maxConnections
      ensures nextConnectionId == 1 && outstanding == 0 && issued == []
    {
      this.maxConnections := maxConnections;
      free := maxConnections;
      nextConnectionId := 1;
      outstanding := 0;
      issued := [];
    }

    /** Completes only when a permit is free; consumes it and returns a connection whose id
        is `Interlocked.Increment(ref _nextConnectionId) - 1`, the id before the increment. */
    method AcquireConnection() returns (connection: DatabaseConnection)
      requires Valid() && free > 0
      modifies this
      ensures Valid()
      ensures fresh(connection) && connection.pool == this
      ensures connection.id == old(nextConnectionId)
      ensures free == old(free) - 1 && outstanding == old(outstanding) + 1
      ensures issued == old(issued) + [connection.id]
    {
      free := free - 1;
      var before := nextConnectionId;
      var incremented := Wrap32(nextConnectionId + 1);
      nextConnectionId := incremented;
      var connectionId := Wrap32(incremented - 1);
      IncrementThenSubtractOne(before);
      Wrap32Congruent(before + 1, |issued| + 2);
      issued := issued + [connectionId];
      outstanding := outstanding + 1;
      connection := new DatabaseConnection(connectionId, this);
    }

    /** `_semaphore.Release()`: gives one permit back, unless all are already free. */
    method ReleaseConnection() returns (ok: bool)
      requires Valid()
      modifies this
      ensures Valid()
      ensures ok <==> old(free) < maxConnections
      ensures free == (if ok then old(free) + 1 else old(free))
      ensures outstanding == (if ok then old(outstanding) - 1 else old(outstanding))
      ensures nextConnectionId == old(nextConnectionId) && issued == old(issued)
    {
      if free < maxConnections {
        free := free + 1;
        outstanding := outstanding - 1;
        ok := true;
      } else {
        ok := false;
      }
    }
  }

  /** A connection: its id and the pool it came from. */
  class DatabaseConnection {
    const id: int
    const pool: DatabaseConnectionPool

    constructor (id: int, pool: DatabaseConnectionPool)
      ensures this.id == id && this.pool == pool
    {
      this.id := id;
      this.pool := pool;
    }

    /** Disposing returns exactly one permit to the pool. */
    method Dispose() returns (ok: bool)
      requires pool.Valid()
      modifies pool
      ensures pool.Valid()
      ensures ok <==> old(pool.free) < pool.maxConnections
      ensures pool.free == (if ok then old(pool.free) + 1 else old(pool.free))
      ensures pool.outstanding == (if ok then old(pool.outstanding) - 1 else old(pool.outstanding))
      ensures pool.issued == old(pool.issued)
    {
      ok := pool.ReleaseConnection();
    }
  }

  /** Until 2^31 - 1 ids have been handed out, the ids are exactly `1, ..., k`: strictly
      increasing, so no id is ever handed out twice, released or not. */
  lemma IdsNumberedFromOne(pool: DatabaseConnectionPool)
    requires pool.Valid() && |pool.issued| <= MAX_INT32
    ensures forall i :: 0 <= i < |pool.issued| ==> pool.issued[i] == i + 1
    ensures forall i, j :: 0 <= i < j < |pool.issued| ==> pool.issued[i] < pool.issued[j]
  {
    forall i | 0 <= i < |pool.issued|
      ensures pool.issued[i] == i + 1
    {
      assert InInt32(i + 1);
    }
  }

  /** Clients of a fresh pool each acquiring a connection and disposing it (the `using`
      block), one after another: the ids are `1, ..., clients` and all permits end free. */
  method ServeClients(maxConnections: int, clients: nat) returns (ids: seq<int>, freeAfter: int)
    requires maxConnections > 0 && clients <= MAX_INT32
    ensures |ids| == clients && forall i :: 0 <= i < clients ==> ids[i] == i + 1
    ensures freeAfter == maxConnections
  {
    var pool := new DatabaseConnectionPool(maxConnections);
    ids := [];
    var c := 0;
    while c < clients
      invariant 0 <= c <= clients
      invariant pool.Valid() && pool.free == maxConnections && pool.outstanding == 0
      invariant pool.issued == ids && |ids| == c
    {
      var connection := pool.AcquireConnection();
      ids := ids + [connection.id];
      var _ := connection.Dispose();
      c := c + 1;
    }
    IdsNumberedFromOne(pool);
    freeAfter := pool.free;
  }

  /** The pool demonstration: five connections and ten clients; the tenth connection has id
      10 and the pool ends with all five permits free. */
  method ConnectionPoolDemo() returns (lastId: int, freeAfter: int)
    ensures lastId == 10 && freeAfter == 5
  {
    var ids;
    ids, freeAfter := ServeClients(5, 10);
    lastId := ids[9];
  }

  /** `RateLimiter`: a semaphore of `maxRequests` permits, topped up by a periodic timer. */
  class RateLimiter {
    var count: int
    const maxRequests: int

    ghost predicate Valid()
      reads this
    {
      0 < maxRequests && 0 <= count <= maxRequests
    }

    constructor (maxRequestsPerSecond: int)
      requires maxRequestsPerSecond > 0
      ensures Valid() && maxRequests == maxRequestsPerSecond && count == maxRequests
    {
      maxRequests := maxRequestsPerSecond;
      count := maxRequestsPerSecond;
    }

    /** The timer callback, as one atomic step: below the maximum, release the missing
        permits; otherwise do nothing. */
    method Refill()
      requires Valid()
      modifies this
      ensures Valid() && count == maxRequests
    {
      var currentCount := count;
      if currentCount < maxRequests {
        count := count + (maxRequests - currentCount);
      }
    }

    /** `Wait(timeout)`: true and one permit consumed if one is free, else false with the
        count unchanged. A refill that arrives while a request waits is a `Refill` call
        made before this one. */
    method TryAcquire() returns (allowed: bool)
      requires Valid()
      modifies this
      ensures Valid()
      ensures allowed <==> old(count) > 0
      ensures count == (if allowed then old(count) - 1 else old(count))
    {
      if count > 0 {
        count := count - 1;
        allowed := true;
      } else {
        allowed := false;
      }
    }
  }

  /** What happens to a rate limiter: a timer tick or a request. */
  datatype LimiterEvent = Tick | Request

  /** The permit count and the number of requests allowed. */
  datatype Admission = Admission(count: int, granted: nat)

  /** The events applied one after another to a limiter of `max` permits holding `count`. */
  function Admit(max: int, count: int, events: seq<LimiterEvent>): Admission
  {
    if events == [] then Admission(count, 0)
    else
      var a := Admit(max, count, events[..|events| - 1]);
      match events[|events| - 1]
      case Tick => Admission(if a.count < max then max else a.count, a.granted)
      case Request => if a.count > 0 then Admission(a.count - 1, a.granted + 1) else a
  }

  function Ticks(events: seq<LimiterEvent>): nat
  {
    if events == [] then 0
    else Ticks(events[..|events| - 1]) + (if events[|events| - 1] == Tick then 1 else 0)
  }

  /** The count stays in `[0, max]`, and what was allowed plus what is left never exceeds
      the permits at the start plus `max` per refill. */
  lemma {:induction false} AdmissionWithinBudget(max: int, count: int, events: seq<LimiterEvent>)
    requires 0 <= count <= max
    ensures var a := Admit(max, count, events);
      0 <= a.count <= max && a.granted + a.count <= count + max * Ticks(events)
  {
    if events != [] {
      var prefix := events[..|events| - 1];
      AdmissionWithinBudget(max, count, prefix);
      var t := Ticks(prefix);
      if events[|events| - 1] == Tick {
        assert Ticks(events) == t + 1;
        assert max * (t + 1) == max * t + max;
      } else {
        assert Ticks(events) == t;
      }
    }
  }

  /** With no refill, exactly `min(requests, count)` requests are allowed, each taking one
      permit. */
  lemma {:induction false} AdmissionWithoutRefill(max: int, count: int, events: seq<LimiterEvent>)
    requires 0 <= count <= max && Ticks(events) == 0
    ensures Admit(max, count, events).granted == Min(|events|, count)
    ensures Admit(max, count, events).count == count - Admit(max, count, events).granted
  {
    if events != [] {
      var prefix := events[..|events| - 1];
      assert events[|events| - 1] == Request && Ticks(prefix) == 0;
      AdmissionWithoutRefill(max, count, prefix);
    }
  }

  /** The rate limit: the count stays in `[0, max]`, and the requests allowed never exceed
      the permits available at the start plus `max` per refill; with no refill, exactly
      `min(requests, count)` are allowed, each taking one permit. */
  lemma AdmissionBounded(max: int, count: int, events: seq<LimiterEvent>)
    requires 0 <= count <= max
    ensures var a := Admit(max, count, events);
      0 <= a.count <= max && a.granted + a.count <= count + max * Ticks(events)
    ensures Ticks(events) == 0 ==> Admit(max, count, events).granted == Min(|events|, count)
    ensures Ticks(events) == 0 ==>
      Admit(max, count, events).count == count - Admit(max, count, events).granted
  {
    AdmissionWithinBudget(max, count, events);
    if Ticks(events) == 0 {
      AdmissionWithoutRefill(max, count, events);
    }
  }

  /** Applies the events to `limiter`, calling `Refill` on a tick and `TryAcquire` on a
      request; the limiter ends as `Admit` says. */
  method Serve(limiter: RateLimiter, events: seq<LimiterEvent>) returns (granted: nat)
    requires limiter.Valid()
    modifies limiter
    ensures limiter.Valid()
    ensures Admission(limiter.count, granted) == Admit(limiter.maxRequests, old(limiter.count), events)
  {
    granted := 0;
    var i := 0;
    while i < |events|
      invariant 0 <= i <= |events|
      invariant limiter.Valid()
      invariant Admission(limiter.count, granted) == Admit(limiter.maxRequests, old(limiter.count), events[..i])
    {
      assert events[..i + 1][..i] == events[..i];
      if events[i] == Tick {
        limiter.Refill();
      } else {
        var allowed := limiter.TryAcquire();
        if allowed {
          granted := granted + 1;
        }
      }
      i := i + 1;
    }
    assert events[..|events|] == events;
  }

  /** The rate-limiting demonstration: five requests per second and ten requests, each
      waiting up to three seconds. Five are served at once; the other five wait, and the
      first refill, one second in, comes within their timeout, so all ten are allowed. */
  method RateLimitDemo() returns (granted: nat)
    ensures granted == 10
  {
    var limiter := new RateLimiter(5);
    var requests := seq(5, _ => Request);
    NoTicks(requests);
    AdmissionBounded(5, 5, requests);
    var first := Serve(limiter, requests);
    limiter.Refill();
    AdmissionBounded(5, 5, requests);
    var second := Serve(limiter, requests);
    granted := first + second;
  }

  lemma {:induction false} NoTicks(events: seq<LimiterEvent>)
    requires forall k :: 0 <= k < |events| ==> events[k] == Request
    ensures Ticks(events) == 0
  {
    if events != [] {
      NoTicks(events[..|events| - 1]);
    }
  }
}
