/** Two's-complement machine integers.
    C# `int`/`long` arithmetic in an unchecked context, `Interlocked` operations and
    `std::atomic<int>` increments all wrap around on overflow; the model states that
    wrap-around explicitly, on Dafny's unbounded `int`. */
module MachineInt {

  const TWO_31: int := 0x8000_0000
  const TWO_32: int := 0x1_0000_0000
  const TWO_63: int := 0x8000_0000_0000_0000
  const TWO_64: int := 0x1_0000_0000_0000_0000

  const MIN_INT32: int := -TWO_31
  const MAX_INT32: int := TWO_31 - 1
  const MIN_INT64: int := -TWO_63
  const MAX_INT64: int := TWO_63 - 1

  predicate InInt32(x: int) { MIN_INT32 <= x <= MAX_INT32 }
  predicate InInt64(x: int) { MIN_INT64 <= x <= MAX_INT64 }

  /** The width of a storage location an atomic operation works on. */
  datatype Width = W32 | W64

  predicate InRange(x: int, w: Width) {
    match w
    case W32 => InInt32(x)
    case W64 => InInt64(x)
  }

  /** The 32-bit value whose bit pattern agrees with `x` modulo 2^32. */
  function Wrap32(x: int): (r: int)
    ensures InInt32(r)
    ensures (r - x) % TWO_32 == 0
    ensures InInt32(x) ==> r == x
  {
    (x + TWO_31) % TWO_32 - TWO_31
  }

  /** The 64-bit value whose bit pattern agrees with `x` modulo 2^64. */
  function Wrap64(x: int): (r: int)
    ensures InInt64(r)
    ensures (r - x) % TWO_64 == 0
    ensures InInt64(x) ==> r == x
  {
    (x + TWO_63) % TWO_64 - TWO_63
  }

  function Wrap(x: int, w: Width): (r: int)
    ensures InRange(r, w)
    ensures InRange(x, w) ==> r == x
  {
    match w
    case W32 => Wrap32(x)
    case W64 => Wrap64(x)
  }

  function Min(a: int, b: int): int { if a <= b then a else b }

  /** Multiplying by a non-negative factor keeps the order. */
  lemma MulMonotone(x: int, y: int, a: nat)
    requires x <= y
    ensures x * a <= y * a
  {
  }

  /** Incrementing the largest 32-bit value yields the smallest one, as `Interlocked.Increment` does. */
  lemma Increment32Overflows()
    ensures Wrap32(MAX_INT32 + 1) == MIN_INT32
  {
  }

  /** Two values that agree modulo 2^32 wrap to the same 32-bit value: wrapping is
      determined by the bit pattern alone. */
  lemma {:induction false} Wrap32Congruent(x: int, y: int)
    requires (x - y) % TWO_32 == 0
    ensures Wrap32(x) == Wrap32(y)
  {
    var r, s := Wrap32(x), Wrap32(y);
    var k, m := (x - y) / TWO_32, (r - x) / TWO_32;
    assert x - y == k * TWO_32;
    assert r - x == m * TWO_32;
    var n := (s - y) / TWO_32;
    assert s - y == n * TWO_32;
    assert r - s == (m + k - n) * TWO_32;
  }

  /** `Interlocked.Increment(ref n) - 1`, computed in unchecked 32-bit arithmetic, is the
      value `n` held before the increment, even when the increment wraps around. */
  lemma IncrementThenSubtractOne(n: int)
    requires InInt32(n)
    ensures Wrap32(Wrap32(n + 1) - 1) == n
  {
    Wrap32Congruent(Wrap32(n + 1) - 1, n);
  }
}
