/**
 * The operations the linearizability test hands to its worker threads: one
 * variant per store method, bound to its arguments. `Apply` is an operation's
 * meaning on a balance sequence; `Invoke` runs it against a store object and
 * turns a failure into its outcome kind.
 */
module Operations {
  import opened Ledger
  import opened Bank

  datatype Operation =
    | GetAmount(index: int)
    | GetTotalAmount
    | Deposit(index: int, amount: int)
    | Withdraw(index: int, amount: int)
    | Transfer(from: int, to: int, amount: int)

  /** Every account the operation names exists in a store of `n` accounts. */
  predicate IndicesIn(op: Operation, n: int) {
    match op
    case GetAmount(i) => 0 <= i < n
    case GetTotalAmount => true
    case Deposit(i, _) => 0 <= i < n
    case Withdraw(i, _) => 0 <= i < n
    case Transfer(f, t, _) => 0 <= f < n && 0 <= t < n
  }

  function Apply(op: Operation, b: seq<int>, maxAmount: int): (s: Step)
    requires IndicesIn(op, |b|)
    ensures |s.balances| == |b|
  {
    match op
    case GetAmount(i) => GetAmountStep(b, i)
    case GetTotalAmount => GetTotalAmountStep(b)
    case Deposit(i, a) => DepositStep(b, i, a, maxAmount)
    case Withdraw(i, a) => WithdrawStep(b, i, a)
    case Transfer(f, t, a) => TransferStep(b, f, t, a, maxAmount)
  }

  /** How much a step with this outcome adds to the total of all balances. */
  function NetChange(op: Operation, o: Outcome): int {
    if o.Failed() then 0
    else match op
      case Deposit(_, a) => a
      case Withdraw(_, a) => -a
      case _ => 0
  }

  /**
   * Every operation keeps all balances in [0, maxAmount], keeps the number of
   * accounts, changes nothing when it fails, and changes the total by exactly
   * its own net effect.
   */
  lemma ApplyFacts(op: Operation, b: seq<int>, maxAmount: int)
    requires IndicesIn(op, |b|)
    ensures var s := Apply(op, b, maxAmount);
      && |s.balances| == |b|
      && (InBounds(b, maxAmount) ==> InBounds(s.balances, maxAmount))
      && (s.outcome.Failed() ==> s.balances == b)
      && Sum(s.balances) == Sum(b) + NetChange(op, s.outcome)
  {
    match op
    case GetAmount(i) =>
    case GetTotalAmount =>
    case Deposit(i, a) => DepositFacts(b, i, a, maxAmount);
    case Withdraw(i, a) => WithdrawFacts(b, i, a, maxAmount);
    case Transfer(f, t, a) => TransferFacts(b, f, t, a, maxAmount);
  }

  /** Runs `op` against `bank`, mapping each exception to its outcome kind. */
  method Invoke(op: Operation, bank: BankImpl) returns (o: Outcome)
    requires bank.Valid() && IndicesIn(op, bank.accounts.Length)
    modifies bank`trace, bank.accounts
    ensures bank.Valid()
    ensures Step(o, bank.accounts[..]) == Apply(op, old(bank.accounts[..]), bank.maxAmount)
  {
    match op
    case GetAmount(i) =>
      var v := bank.GetAmount(i);
      o := Amount(v);
    case GetTotalAmount =>
      var v := bank.GetTotalAmount();
      o := Amount(v);
    case Deposit(i, a) =>
      o := bank.Deposit(i, a);
    case Withdraw(i, a) =>
      o := bank.Withdraw(i, a);
    case Transfer(f, t, a) =>
      o := bank.Transfer(f, t, a);
  }
}
