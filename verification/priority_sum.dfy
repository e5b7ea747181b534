/** `calculate_sum` from the thread-priority example: each thread adds `1 + 2 + ... + N`
    into a `long long` with an `int` loop counter. The scheduling priorities only change
    when the threads run, not what they compute. */
module PrioritySum {
  import opened MachineInt

  /** `1 + 2 + ... + n`, term by term; nothing for `n <= 0`. */
  function SumTo(n: int): int
    decreases if n <= 0 then 0 else n
  {
    if n <= 0 then 0 else SumTo(n - 1) + n
  }

  /** Gauss's closed form of the same sum. */
  function Triangular(n: int): int
  {
    if n <= 0 then 0 else n * (n + 1) / 2
  }

  /** The term-by-term sum is the closed form, for every `n`. */
  lemma {:induction false} SumToClosedForm(n: int)
    ensures SumTo(n) == Triangular(n)
    decreases if n <= 0 then 0 else n
  {
    if n > 0 {
      SumToClosedForm(n - 1);
      assert (n - 1) * n + 2 * n == n * (n + 1);
    }
  }

  /** The sum never decreases as `N` grows. */
  lemma {:induction false} SumToMonotone(m: int, n: int)
    requires m <= n
    ensures SumTo(m) <= SumTo(n)
    decreases n - m
  {
    if m < n {
      SumToMonotone(m, n - 1);
    }
  }

  /** For every `int` argument the sum fits in a `long long`: it is at most
      `(2^31 - 1) * 2^31 / 2 < 2^62`. */
  lemma SumFitsInt64(n: int)
    requires InInt32(n)
    ensures InInt64(SumTo(n)) && SumTo(n) >= 0
  {
    SumToClosedForm(n);
    if n > 0 {
      MulMonotone(n, MAX_INT32, n + 1);
      MulMonotone(n + 1, TWO_31, MAX_INT32);
      assert n * (n + 1) <= MAX_INT32 * TWO_31;
    }
  }

  /** The loop `for (int i = 1; i <= N; i++) sum += i;`. At `N == INT_MAX` the final `i++`
      overflows `int`, which C leaves undefined, so that argument is excluded. The running
      sum is always within `long long`, and ends as `1 + ... + N`, which is `N(N+1)/2`. */
  method CalculateSum(n: int) returns (sum: int)
    requires InInt32(n) && n < MAX_INT32
    ensures sum == SumTo(n) && sum == Triangular(n)
    ensures InInt64(sum)
  {
    sum := 0;
    var i := 1;
    while i <= n
      invariant 1 <= i && (n <= 0 ==> i == 1) && (n > 0 ==> i <= n + 1)
      invariant InInt32(i)
      invariant sum == SumTo(i - 1)
      invariant InInt64(sum)
      decreases n - i
    {
      SumFitsInt64(i);
      sum := sum + i;
      i := i + 1;
    }
    SumToClosedForm(n);
  }

  /** The five threads' arguments and what each prints. */
  method PrioritySums() returns (sums: seq<int>)
    ensures sums == [500000500000, 2000001000000, 4500001500000, 8000002000000, 12500002500000]
  {
    var threadArgs := [1000000, 2000000, 3000000, 4000000, 5000000];
    sums := [];
    var t := 0;
    while t < |threadArgs|
      invariant 0 <= t <= |threadArgs|
      invariant |sums| == t && forall k :: 0 <= k < t ==> sums[k] == Triangular(threadArgs[k])
    {
      var sum := CalculateSum(threadArgs[t]);
      sums := sums + [sum];
      t := t + 1;
    }
  }
}
