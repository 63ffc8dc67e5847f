/**
 * Sequential meaning of the account store, on balances held as a sequence of
 * amounts indexed by account number. Each operation yields a `Step`: the
 * outcome the caller sees and the balances afterwards. The class `BankImpl`
 * (module Bank) is proved to take exactly these steps.
 */
module Ledger {

  /** The outcome of one store operation, compared by value. A failure is only its kind. */
  datatype Outcome =
    | Amount(value: int)   // a successful read, deposit or withdrawal
    | Done                 // a successful transfer (the Java method is void)
    | InvalidArgument      // IllegalArgumentException
    | Underflow            // IllegalStateException("Underflow")
    | Overflow             // IllegalStateException("Overflow")
  {
    predicate Failed() { InvalidArgument? || Underflow? || Overflow? }
  }

  /** The range of a Java `long`. */
  const LONG_MIN: int := -0x8000_0000_0000_0000
  const LONG_MAX: int := 0x7fff_ffff_ffff_ffff

  predicate IsLong(x: int) { LONG_MIN <= x <= LONG_MAX }

  datatype Step = Step(outcome: Outcome, balances: seq<int>)

  /** Every balance lies in [0, maxAmount]. */
  predicate InBounds(b: seq<int>, maxAmount: int) {
    forall i :: 0 <= i < |b| ==> 0 <= b[i] <= maxAmount
  }

  /** The sum of all balances, accumulated from the first account to the last. */
  function Sum(b: seq<int>): int {
    if b == [] then 0 else Sum(b[..|b| - 1]) + b[|b| - 1]
  }

  function GetAmountStep(b: seq<int>, index: int): Step
    requires 0 <= index < |b|
  {
    Step(Amount(b[index]), b)
  }

  function GetTotalAmountStep(b: seq<int>): Step {
    Step(Amount(Sum(b)), b)
  }

  function DepositStep(b: seq<int>, index: int, amount: int, maxAmount: int): Step
    requires 0 <= index < |b|
  {
    if amount <= 0 then Step(InvalidArgument, b)
    else if amount > maxAmount || b[index] + amount > maxAmount then Step(Overflow, b)
    else Step(Amount(b[index] + amount), b[index := b[index] + amount])
  }

  function WithdrawStep(b: seq<int>, index: int, amount: int): Step
    requires 0 <= index < |b|
  {
    if amount <= 0 then Step(InvalidArgument, b)
    else if b[index] - amount < 0 then Step(Underflow, b)
    else Step(Amount(b[index] - amount), b[index := b[index] - amount])
  }

  function TransferStep(b: seq<int>, from: int, to: int, amount: int, maxAmount: int): Step
    requires 0 <= from < |b| && 0 <= to < |b|
  {
    if amount <= 0 then Step(InvalidArgument, b)
    else if from == to then Step(InvalidArgument, b)
    else if amount > b[from] then Step(Underflow, b)
    else if amount > maxAmount || b[to] + amount > maxAmount then Step(Overflow, b)
    else Step(Done, b[from := b[from] - amount][to := b[to] + amount])
  }

  /** Changing one balance by `d` changes the sum by `d`. */
  lemma {:induction false} SumUpdate(b: seq<int>, i: int, d: int)
    requires 0 <= i < |b|
    ensures Sum(b[i := b[i] + d]) == Sum(b) + d
  {
    var last := |b| - 1;
    var b' := b[i := b[i] + d];
    assert b'[..last] == if i == last then b[..last] else b[..last][i := b[i] + d];
    if i < last {
      SumUpdate(b[..last], i, d);
    }
  }

  /** A total of amounts that are all non-negative is non-negative. */
  lemma {:induction false} SumNonNegative(b: seq<int>, maxAmount: int)
    requires InBounds(b, maxAmount)
    ensures 0 <= Sum(b)
  {
    if b != [] {
      SumNonNegative(b[..|b| - 1], maxAmount);
    }
  }

  lemma GetAmountFacts(b: seq<int>, index: int)
    requires 0 <= index < |b|
    ensures GetAmountStep(b, index).outcome == Amount(b[index])
    ensures GetAmountStep(b, index).balances == b
  {
  }

  /** getTotalAmount reports the sum of the balances, which is never negative, and changes nothing. */
  lemma GetTotalAmountFacts(b: seq<int>, maxAmount: int)
    requires InBounds(b, maxAmount)
    ensures GetTotalAmountStep(b).balances == b
    ensures GetTotalAmountStep(b).outcome.Amount?
    ensures GetTotalAmountStep(b).outcome.value == Sum(b) >= 0
  {
    SumNonNegative(b, maxAmount);
  }

  /**
   * Deposit: a non-positive amount is rejected first, then an amount that would
   * push the balance past maxAmount, and no other call fails; otherwise only
   * that account grows by `amount`, the new balance is returned and the total
   * grows by `amount`.
   */
  lemma DepositFacts(b: seq<int>, index: int, amount: int, maxAmount: int)
    requires 0 <= index < |b|
    ensures var s := DepositStep(b, index, amount, maxAmount);
      && (s.outcome == InvalidArgument <==> amount <= 0)
      && (s.outcome == Overflow <==> 0 < amount && (amount > maxAmount || b[index] + amount > maxAmount))
      && (s.outcome.Failed() <==> amount <= 0 || amount > maxAmount || b[index] + amount > maxAmount)
      && (s.outcome.Failed() <==> s.balances == b && !s.outcome.Amount?)
      && (!s.outcome.Failed() ==>
            && s.outcome == Amount(b[index] + amount)
            && |s.balances| == |b|
            && s.balances[index] == b[index] + amount
            && (forall j :: 0 <= j < |b| && j != index ==> s.balances[j] == b[j])
            && Sum(s.balances) == Sum(b) + amount)
      && (InBounds(b, maxAmount) ==> InBounds(s.balances, maxAmount))
  {
    if 0 < amount && amount <= maxAmount && b[index] + amount <= maxAmount {
      SumUpdate(b, index, amount);
    }
  }

  /**
   * Withdraw: a non-positive amount is rejected first, then an amount larger than
   * the balance, and no other call fails; otherwise only that account shrinks
   * by `amount`.
   */
  lemma WithdrawFacts(b: seq<int>, index: int, amount: int, maxAmount: int)
    requires 0 <= index < |b|
    ensures var s := WithdrawStep(b, index, amount);
      && (s.outcome == InvalidArgument <==> amount <= 0)
      && (s.outcome == Underflow <==> 0 < amount && b[index] < amount)
      && (s.outcome.Failed() <==> amount <= 0 || b[index] < amount)
      && (s.outcome.Failed() <==> s.balances == b && !s.outcome.Amount?)
      && (!s.outcome.Failed() ==>
            && s.outcome == Amount(b[index] - amount)
            && |s.balances| == |b|
            && s.balances[index] == b[index] - amount
            && (forall j :: 0 <= j < |b| && j != index ==> s.balances[j] == b[j])
            && Sum(s.balances) == Sum(b) - amount)
      && (InBounds(b, maxAmount) ==> InBounds(s.balances, maxAmount))
  {
    if 0 < amount && amount <= b[index] {
      SumUpdate(b, index, -amount);
    }
  }

  /**
   * Transfer checks, in order: non-positive amount, equal endpoints, not enough
   * funds at `from`, overflow at `to`. On success exactly `amount` moves from
   * `from` to `to`, every other account is untouched and the total is unchanged.
   */
  lemma TransferFacts(b: seq<int>, from: int, to: int, amount: int, maxAmount: int)
    requires 0 <= from < |b| && 0 <= to < |b|
    ensures var s := TransferStep(b, from, to, amount, maxAmount);
      && (s.outcome == InvalidArgument <==> amount <= 0 || from == to)
      && (s.outcome == Underflow <==> 0 < amount && from != to && amount > b[from])
      && (s.outcome == Overflow <==>
            0 < amount && from != to && amount <= b[from] && (amount > maxAmount || b[to] + amount > maxAmount))
      && (s.outcome.Failed() <==> s.balances == b && s.outcome != Done)
      && (!s.outcome.Failed() ==>
            && s.outcome == Done
            && |s.balances| == |b|
            && s.balances[from] == b[from] - amount
            && s.balances[to] == b[to] + amount
            && (forall j :: 0 <= j < |b| && j != from && j != to ==> s.balances[j] == b[j])
            && Sum(s.balances) == Sum(b))
      && (InBounds(b, maxAmount) ==> InBounds(s.balances, maxAmount))
  {
    if 0 < amount && from != to && amount <= b[from] && amount <= maxAmount && b[to] + amount <= maxAmount {
      var mid := b[from := b[from] - amount];
      SumUpdate(b, from, -amount);
      SumUpdate(mid, to, amount);
    }
  }

  /**
   * The store computes on Java `long` values. With balances in [0, maxAmount] and
   * maxAmount at most half of Long.MAX_VALUE, every sum and difference that
   * deposit, withdraw and transfer evaluate fits in a long, for any long amount:
   * the difference once the amount is positive, because no balance is negative;
   * the sum once the amount is also at most maxAmount, which the short-circuit
   * `amount > MAX_AMOUNT ||` guarantees before the sum is formed.
   */
  lemma StepArithmeticFits(b: seq<int>, i: int, amount: int, maxAmount: int)
    requires 0 <= i < |b| && InBounds(b, maxAmount)
    requires IsLong(amount) && 2 * maxAmount <= LONG_MAX
    ensures 0 < amount ==> IsLong(b[i] - amount)
    ensures 0 < amount <= maxAmount ==> IsLong(b[i] + amount)
  {
  }

  /** With every balance at most maxAmount, the total is at most |b| * maxAmount. */
  lemma {:induction false} SumAtMost(b: seq<int>, maxAmount: int)
    requires InBounds(b, maxAmount)
    ensures 0 <= Sum(b) <= |b| * maxAmount
  {
    if b != [] {
      SumAtMost(b[..|b| - 1], maxAmount);
    }
  }

  /**
   * getTotalAmount adds the balances one by one into a long. Every partial sum it
   * holds is the sum of a prefix, and each fits in a long when |b| * maxAmount
   * does.
   */
  lemma TotalFitsLong(b: seq<int>, maxAmount: int)
    requires InBounds(b, maxAmount) && |b| * maxAmount <= LONG_MAX
    ensures forall k :: 0 <= k <= |b| ==> IsLong(Sum(b[..k]))
  {
    forall k | 0 <= k <= |b|
      ensures IsLong(Sum(b[..k]))
    {
      SumAtMost(b[..k], maxAmount);
      if k < |b| {
        assert 0 <= b[k] <= maxAmount;
        assert (|b| - k) * maxAmount >= 0;
      }
    }
  }
}
