/** The `Interlocked` primitives as demonstrated on local variables passed by `ref`.
    Each primitive is one indivisible step on a shared storage location; the location
    is a `Location` object whose `value` field the primitives update in place. */
module Interlocked {
  import opened MachineInt

  /** A 32- or 64-bit integer variable handed to the primitives by reference. */
  class Location {
    const width: Width
    var value: int

    ghost predicate Valid()
      reads this
    {
      InRange(value, width)
    }

    constructor (w: Width, initial: int)
      requires InRange(initial, w)
      ensures Valid() && width == w && value == initial
    {
      width := w;
      value := initial;
    }

    /** `Interlocked.Increment`: adds one (wrapping) and returns the new value. */
    method Increment() returns (r: int)
      requires Valid()
      modifies this
      ensures Valid()
      ensures value == Wrap(old(value) + 1, width)
      ensures r == value
    {
      value := Wrap(value + 1, width);
      r := value;
    }

    /** `Interlocked.Decrement`: subtracts one (wrapping) and returns the new value. */
    method Decrement() returns (r: int)
      requires Valid()
      modifies this
      ensures Valid()
      ensures value == Wrap(old(value) - 1, width)
      ensures r == value
    {
      value := Wrap(value - 1, width);
      r := value;
    }

    /** `Interlocked.Add`: adds `delta` (wrapping) and returns the new value. */
    method Add(delta: int) returns (r: int)
      requires Valid() && InRange(delta, width)
      modifies this
      ensures Valid()
      ensures value == Wrap(old(value) + delta, width)
      ensures r == value
    {
      value := Wrap(value + delta, width);
      r := value;
    }

    /** `Interlocked.Exchange`: stores `newValue` and returns what was there before. */
    method Exchange(newValue: int) returns (original: int)
      requires Valid() && InRange(newValue, width)
      modifies this
      ensures Valid()
      ensures original == old(value) && value == newValue
    {
      original := value;
      value := newValue;
    }

    /** `Interlocked.CompareExchange(ref location, newValue, comparand)`: stores `newValue`
        only when the location holds `comparand`; always returns the original value. */
    method CompareExchange(newValue: int, comparand: int) returns (original: int)
      requires Valid() && InRange(newValue, width)
      modifies this
      ensures Valid()
      ensures original == old(value)
      ensures value == if old(value) == comparand then newValue else old(value)
    {
      original := value;
      if value == comparand {
        value := newValue;
      }
    }

    /** `Interlocked.Read`: a consistent snapshot of the location; changes nothing. */
    method Read() returns (r: int)
      requires Valid()
      ensures r == value && InRange(r, width)
    {
      r := value;
    }
  }

  /** Applies `Increment` `n` times; without overflow no increment is lost. */
  method IncrementMany(loc: Location, n: nat)
    requires loc.Valid() && InRange(loc.value + n, loc.width)
    modifies loc
    ensures loc.Valid()
    ensures loc.value == old(loc.value) + n
  {
    var j := 0;
    while j < n
      invariant 0 <= j <= n
      invariant loc.value == old(loc.value) + j
      invariant loc.Valid()
    {
      assert InRange(loc.value + 1, loc.width) by {
        assert old(loc.value) <= loc.value + 1 <= old(loc.value) + n;
      }
      var _ := loc.Increment();
      j := j + 1;
    }
  }

  /** The update the retry-loop demonstration publishes: `current * 2 + 10` in 32-bit arithmetic. */
  function Doubled(current: int): int {
    Wrap32(current * 2 + 10)
  }

  /** Outcome of the compare-and-swap retry loop starting from `start` when, before the
      CompareExchange of attempt `k`, another thread stores `others[k]` (for `k < |others|`;
      later attempts run undisturbed). Yields the final value and the number of attempts. */
  function CasOutcome(start: int, others: seq<int>): (int, nat)
    decreases |others|
  {
    if others == [] || others[0] == start then (Doubled(start), 1)
    else
      var (v, n) := CasOutcome(others[0], others[1..]);
      (v, n + 1)
  }

  /** No lost update: whatever the interference, the loop publishes the update of a value
      the location really held, after at most one more attempt than there were interfering
      writes, and it never publishes an update of a value it did not read. */
  lemma {:induction false} CasPublishesObservedValue(start: int, others: seq<int>)
    ensures var (v, n) := CasOutcome(start, others);
      1 <= n <= |others| + 1 &&
      (v == Doubled(start) || exists k :: 0 <= k < |others| && v == Doubled(others[k]))
    ensures var (v, n) := CasOutcome(start, others);
      n == 1 <==> (others == [] || others[0] == start)
    decreases |others|
  {
    if others != [] && others[0] != start {
      CasPublishesObservedValue(others[0], others[1..]);
      var (v, n) := CasOutcome(others[0], others[1..]);
      if v != Doubled(others[0]) {
        var k :| 0 <= k < |others[1..]| && v == Doubled(others[1..][k]);
        assert v == Doubled(others[k + 1]);
      }
    }
  }

  /** The do/while retry loop of the demonstration, with the writes of other threads
      given as `others` (see `CasOutcome`). */
  method CasRetryUpdate(loc: Location, others: seq<int>) returns (retries: nat)
    requires loc.Valid() && loc.width == W32
    requires forall k :: 0 <= k < |others| ==> InInt32(others[k])
    modifies loc
    ensures loc.Valid()
    ensures (loc.value, retries) == CasOutcome(old(loc.value), others)
  {
    retries := 0;
    var done := false;
    var pending := others;
    while !done
      invariant loc.Valid() && loc.width == W32
      invariant 0 <= |pending| <= |others| && pending == others[|others| - |pending|..]
      invariant !done ==> retries == |others| - |pending|
      invariant !done ==> CasOutcome(old(loc.value), others) == (CasOutcome(loc.value, pending).0, CasOutcome(loc.value, pending).1 + retries)
      invariant done ==> (loc.value, retries) == CasOutcome(old(loc.value), others)
      decreases !done, |pending|
    {
      var currentValue := loc.value;
      var newValue := Doubled(currentValue);
      retries := retries + 1;
      if pending != [] {
        // another thread's write lands between the read and the CompareExchange
        loc.value := pending[0];
      }
      var seen := loc.CompareExchange(newValue, currentValue);
      done := seen == currentValue;
      if !done {
        pending := pending[1..];
      }
    }
  }

  /** DemonstrateIncrement: 0 becomes 1 after Increment, then 0 again after Decrement;
      10 threads x 10,000 increments of a 64-bit counter from 0 give 100,000. */
  method IncrementDemo() returns (afterIncrement: int, afterDecrement: int, total: int)
    ensures afterIncrement == 1 && afterDecrement == 0 && total == 100_000
  {
    var counter := new Location(W32, 0);
    var longCounter := new Location(W64, 0);
    afterIncrement := counter.Increment();
    IncrementMany(longCounter, 10 * 10_000);
    total := longCounter.Read();
    afterDecrement := counter.Decrement();
  }

  /** DemonstrateAdd: 100 plus 50 gives 150, then plus -30 gives 120; 5 threads x 1,000
      calls of `Add(1)` on a 64-bit location from 0 give 5,000. */
  method AddDemo() returns (first: int, second: int, total: int)
    ensures first == 150 && second == 120 && total == 5_000
  {
    var value := new Location(W32, 100);
    first := value.Add(50);
    second := value.Add(-30);
    var longValue := new Location(W64, 0);
    var k := 0;
    while k < 5 * 1_000
      invariant 0 <= k <= 5 * 1_000
      invariant longValue.Valid() && longValue.width == W64 && longValue.value == k
    {
      var _ := longValue.Add(1);
      k := k + 1;
    }
    total := longValue.Read();
  }

  /** DemonstrateExchange: exchanging 99 into a location holding 42 returns 42 and stores 99. */
  method ExchangeDemo() returns (oldValue: int, newValue: int)
    ensures oldValue == 42 && newValue == 99
  {
    var value := new Location(W32, 42);
    oldValue := value.Exchange(99);
    newValue := value.Read();
  }

  /** DemonstrateCompareExchange: (200, 100) on 100 returns 100 and stores 200; (300, 100)
      then returns 200 and leaves 200; the single-threaded retry loop from 100 yields 210
      after one attempt. */
  method CompareExchangeDemo() returns (first: int, afterFirst: int, second: int, afterSecond: int,
                                        loopResult: int, retries: nat)
    ensures first == 100 && afterFirst == 200
    ensures second == 200 && afterSecond == 200
    ensures loopResult == 210 && retries == 1
  {
    var value := new Location(W32, 100);
    first := value.CompareExchange(200, 100);
    afterFirst := value.Read();
    second := value.CompareExchange(300, 100);
    afterSecond := value.Read();
    value.value := 100;
    retries := CasRetryUpdate(value, []);
    loopResult := value.Read();
  }

  /** DemonstrateRead: an atomic read of a 64-bit location returns the stored value. */
  method ReadDemo() returns (safeRead: int)
    ensures safeRead == 0x0123456789ABCDEF
  {
    var value := new Location(W64, 0x0123456789ABCDEF);
    safeRead := value.Read();
  }
}
