/** Guarded bank accounts: the model `BankAccount` and the lock-solution
    `BankAccountExample`. Each operation runs inside the account's lock, so any
    interleaving of calls is a sequence of whole operations, which `Run` describes.
    Balances and amounts are C# `decimal`s, exact; here they are integers in the
    smallest currency unit (cents), so 1000.00 is 100000. */
module BankAccount {
  import opened MachineInt

  datatype Operation = Deposit(amount: int) | Withdraw(amount: int)

  /** The balance after a sequence of operations and how many withdrawals succeeded. */
  datatype Outcome = Outcome(balance: int, successes: nat)

  /** One locked operation: a deposit adds; a withdrawal subtracts only if the balance
      covers it at the moment of the check. */
  function Step(o: Outcome, op: Operation): Outcome
  {
    match op
    case Deposit(a) => Outcome(o.balance + a, o.successes)
    case Withdraw(a) =>
      if o.balance >= a then Outcome(o.balance - a, o.successes + 1) else o
  }

  /** The operations applied one after another, first to last, from `initial`. */
  function Run(initial: int, ops: seq<Operation>): Outcome
  {
    if ops == [] then Outcome(initial, 0)
    else Step(Run(initial, ops[..|ops| - 1]), ops[|ops| - 1])
  }

  /** `d` deposits of `a` from `initial` leave `initial + d * a`, in whatever order the
      depositing threads get the lock: no deposit is lost. */
  lemma {:induction false} DepositsAccumulate(initial: int, ops: seq<Operation>, a: int)
    requires forall k :: 0 <= k < |ops| ==> ops[k] == Deposit(a)
    ensures Run(initial, ops) == Outcome(initial + |ops| * a, 0)
  {
    if ops != [] {
      DepositsAccumulate(initial, ops[..|ops| - 1], a);
    }
  }

  /** Withdrawals of `a > 0` from a non-negative balance: exactly `min(attempts,
      initial / a)` succeed, and the balance is what those took from it. */
  lemma {:induction false} WithdrawalsSucceed(initial: int, ops: seq<Operation>, a: int)
    requires initial >= 0 && a > 0
    requires forall k :: 0 <= k < |ops| ==> ops[k] == Withdraw(a)
    ensures Run(initial, ops).successes == Min(|ops|, initial / a)
    ensures Run(initial, ops).balance == initial - Run(initial, ops).successes * a
  {
    if ops != [] {
      var prefix := ops[..|ops| - 1];
      WithdrawalsSucceed(initial, prefix, a);
      var o := Run(initial, prefix);
      var s := o.successes;
      assert Run(initial, ops) == Step(o, Withdraw(a)) by {
        assert ops[|ops| - 1] == Withdraw(a);
      }
      WithdrawStep(initial, a, s, |prefix|, o.balance);
    }
  }

  /** One more withdrawal after `s = min(n, initial / a)` successes: it succeeds exactly
      when fewer than `initial / a` have, and the count and balance stay as stated. */
  lemma WithdrawStep(initial: int, a: int, s: nat, n: nat, balance: int)
    requires initial >= 0 && a > 0
    requires s == Min(n, initial / a) && balance == initial - s * a
    ensures balance >= a ==> s + 1 == Min(n + 1, initial / a) && balance - a == initial - (s + 1) * a
    ensures balance < a ==> s == Min(n + 1, initial / a)
  {
    CoveredIff(initial, a, s);
    if balance >= a {
      assert (s + 1) * a == s * a + a;
    }
  }

  /** Attempts to withdraw `a > 0` each from a non-negative balance: exactly
      `min(attempts, initial / a)` succeed, the balance is what those took from it, so
      `successes * a <= initial` and the balance never goes negative. */
  lemma WithdrawalsBounded(initial: int, ops: seq<Operation>, a: int)
    requires initial >= 0 && a > 0
    requires forall k :: 0 <= k < |ops| ==> ops[k] == Withdraw(a)
    ensures Run(initial, ops).successes == Min(|ops|, initial / a)
    ensures Run(initial, ops).balance == initial - Run(initial, ops).successes * a
    ensures Run(initial, ops).successes * a <= initial
    ensures Run(initial, ops).balance >= 0
  {
    WithdrawalsSucceed(initial, ops, a);
    CoveredIff(initial, a, Run(initial, ops).successes);
  }

  /** After `s <= initial / a` withdrawals of `a`, the remaining balance covers another
      one exactly when `s < initial / a`. */
  lemma CoveredIff(initial: int, a: int, s: nat)
    requires initial >= 0 && a > 0 && s <= initial / a
    ensures initial - s * a >= 0
    ensures initial - s * a >= a <==> s < initial / a
  {
    var q, r := initial / a, initial % a;
    assert initial == q * a + r && 0 <= r < a;
    MulMonotone(s, q, a);
    if s < q {
      MulMonotone(s + 1, q, a);
      assert (s + 1) * a == s * a + a;
    } else {
      assert initial - s * a == r;
    }
  }

  /** With non-negative deposits, a non-negative balance stays non-negative under any
      sequence of deposits and withdrawals. */
  lemma {:induction false} BalanceNeverNegative(initial: int, ops: seq<Operation>)
    requires initial >= 0
    requires forall k :: 0 <= k < |ops| ==> ops[k].Deposit? ==> ops[k].amount >= 0
    ensures Run(initial, ops).balance >= 0
  {
    if ops != [] {
      BalanceNeverNegative(initial, ops[..|ops| - 1]);
    }
  }

  /** `BankAccount` from the models: the unsafe and safe variants have the same effect
      when each call runs alone. */
  class BankAccount {
    var balance: int

    constructor (initialBalance: int)
      ensures balance == initialBalance
    {
      balance := initialBalance;
    }

    method Balance() returns (b: int)
      ensures b == balance
    {
      b := balance;
    }

    /** Read, add, write back; as one step it adds `amount`. */
    method DepositUnsafe(amount: int)
      modifies this
      ensures balance == old(balance) + amount
    {
      var currentBalance := balance;
      var newBalance := currentBalance + amount;
      balance := newBalance;
    }

    /** Check, then subtract; as one step it succeeds iff the balance covers `amount`. */
    method WithdrawUnsafe(amount: int) returns (ok: bool)
      modifies this
      ensures ok <==> old(balance) >= amount
      ensures balance == if ok then old(balance) - amount else old(balance)
    {
      if balance >= amount {
        balance := balance - amount;
        return true;
      }
      return false;
    }

    /** The locked deposit: the balance grows by exactly `amount` (the sleeps do not matter). */
    method DepositSafe(amount: int)
      modifies this
      ensures balance == old(balance) + amount
    {
      var currentBalance := balance;
      var newBalance := currentBalance + amount;
      balance := newBalance;
    }

    /** The locked check-then-act: true and `amount` subtracted iff the balance covers it,
        otherwise false with the balance unchanged. */
    method WithdrawSafe(amount: int) returns (ok: bool)
      modifies this
      ensures ok <==> old(balance) >= amount
      ensures balance == if ok then old(balance) - amount else old(balance)
      ensures ok ==> balance >= 0
    {
      if balance >= amount {
        balance := balance - amount;
        return true;
      }
      return false;
    }

    method Reset(newBalance: int)
      modifies this
      ensures balance == newBalance
    {
      balance := newBalance;
    }
  }

  /** Performs `ops` with the locked operations; the account ends as `Run` says. */
  method Perform(account: BankAccount, ops: seq<Operation>) returns (successes: nat)
    modifies account
    ensures Outcome(account.balance, successes) == Run(old(account.balance), ops)
  {
    successes := 0;
    var i := 0;
    while i < |ops|
      invariant 0 <= i <= |ops|
      invariant Outcome(account.balance, successes) == Run(old(account.balance), ops[..i])
    {
      assert ops[..i + 1][..i] == ops[..i];
      match ops[i] {
        case Deposit(a) =>
          account.DepositSafe(a);
        case Withdraw(a) =>
          var ok := account.WithdrawSafe(a);
          if ok {
            successes := successes + 1;
          }
      }
      i := i + 1;
    }
    assert ops[..|ops|] == ops;
  }

  function Repeat(op: Operation, n: nat): (s: seq<Operation>)
    ensures |s| == n && forall k :: 0 <= k < n ==> s[k] == op
  {
    seq(n, _ => op)
  }

  /** 10 threads x 100 deposits of 1.00 on 1000.00 end at 2000.00. */
  method DepositDemo() returns (final: int)
    ensures final == 2000_00
  {
    var account := new BankAccount(1000_00);
    var ops := Repeat(Deposit(1_00), 10 * 100);
    var _ := Perform(account, ops);
    DepositsAccumulate(1000_00, ops, 1_00);
    final := account.Balance();
  }

  /** 5 threads withdrawing 30.00 each from 100.00: exactly 3 succeed, 10.00 remain. */
  method WithdrawalDemo() returns (successes: nat, final: int)
    ensures successes == 3 && final == 10_00
  {
    var account := new BankAccount(100_00);
    var ops := Repeat(Withdraw(30_00), 5);
    successes := Perform(account, ops);
    WithdrawalsBounded(100_00, ops, 30_00);
    final := account.Balance();
  }

  /** `BankAccountExample` from the lock solution: a private lock object guards `_balance`. */
  class BankAccountExample {
    var balance: int

    constructor (initialBalance: int)
      ensures balance == initialBalance
    {
      balance := initialBalance;
    }

    /** The balance, read under the lock; changes nothing. */
    method Balance() returns (b: int)
      ensures b == balance
    {
      b := balance;
    }

    method Deposit(amount: int)
      modifies this
      ensures balance == old(balance) + amount
    {
      balance := balance + amount;
    }

    /** Check-then-act inside the lock. */
    method Withdraw(amount: int) returns (ok: bool)
      modifies this
      ensures ok <==> old(balance) >= amount
      ensures balance == if ok then old(balance) - amount else old(balance)
    {
      if balance >= amount {
        balance := balance - amount;
        return true;
      }
      return false;
    }
  }

  /** The lock-basics demonstration: 5 threads x 100 deposits of 10.00 on 1000.00 end at
      1000.00 + 5 * 100 * 10.00. */
  method LockBasicsDemo() returns (final: int)
    ensures final == 1000_00 + 5 * 100 * 10_00
  {
    var account := new BankAccountExample(1000_00);
    var t := 0;
    while t < 5
      invariant 0 <= t <= 5
      invariant account.balance == 1000_00 + t * 100 * 10_00
    {
      var j := 0;
      while j < 100
        invariant 0 <= j <= 100
        invariant account.balance == 1000_00 + t * 100 * 10_00 + j * 10_00
      {
        account.Deposit(10_00);
        j := j + 1;
      }
      t := t + 1;
    }
    final := account.Balance();
  }
}
