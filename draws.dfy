/**
 * How the linearizability test turns its random draws into a run: the
 * run's accounts (a rejection loop over account draws), the amounts
 * (nextRndAmount, and nextRndAmountOrInvalid with its 1% of invalid
 * amounts) and each thread's operation. The random generator itself is
 * not modelled: its values arrive as sequences of draws.
 */
module Draws {
  import opened Wrappers
  import opened Ledger
  import opened Operations
  import opened Permutations

  /** `base` in nextRndAmount. */
  const AMOUNT_BASE: int := 1_000_000_000

  /**
   * nextRndAmount from its two draws, `low` of `rnd.nextInt(base)` and `high`
   * of `rnd.nextInt(MAX_AMOUNT / base)`: always a valid amount, and the two
   * draws can be read back from it.
   */
  function NextRndAmount(low: int, high: int, maxAmount: int): (r: int)
    requires 0 <= low < AMOUNT_BASE && 0 <= high < maxAmount / AMOUNT_BASE
    ensures 1 <= r <= maxAmount
    ensures (r - 1) % AMOUNT_BASE == low && (r - 1) / AMOUNT_BASE == high
  {
    1 + low + high * AMOUNT_BASE
  }

  /** The six invalid amounts nextRndAmountOrInvalid can return, by the draw of `rnd.nextInt(6)`. */
  function InvalidAmount(which: int, maxAmount: int): (r: int)
    requires 0 <= which < 6
  {
    if which == 0 then 0
    else if which == 1 then -1
    else if which == 2 then LONG_MIN
    else if which == 3 then maxAmount + 1
    else if which == 4 then maxAmount + 2
    else LONG_MAX
  }

  /**
   * nextRndAmountOrInvalid: when the draw `percent` of `rnd.nextInt(100)` is
   * 0 an invalid amount picked by `which`, otherwise the valid `amount`.
   */
  function AmountOrInvalid(percent: int, which: int, amount: int, maxAmount: int): (r: int)
    requires 0 <= percent < 100 && 0 <= which < 6
    requires 0 < maxAmount < LONG_MAX
    ensures percent != 0 ==> r == amount
    ensures percent == 0 ==> r <= 0 || r > maxAmount
  {
    if percent == 0 then InvalidAmount(which, maxAmount) else amount
  }

  /**
   * An amount outside [1, maxAmount] makes every updating operation fail
   * on a store whose balances are in bounds: the balances stay as they were.
   */
  lemma InvalidAmountFails(op: Operation, b: seq<int>, maxAmount: int)
    requires IndicesIn(op, |b|) && InBounds(b, maxAmount)
    requires op.Deposit? || op.Withdraw? || op.Transfer?
    requires op.amount <= 0 || op.amount > maxAmount
    ensures Apply(op, b, maxAmount).outcome.Failed()
    ensures Apply(op, b, maxAmount).balances == b
  {
    match op
    case Deposit(i, a) =>
    case Withdraw(i, a) =>
      assert 0 <= b[i] <= maxAmount;
    case Transfer(f, t, a) =>
      assert 0 <= b[f] <= maxAmount;
  }

  /** The distinct values of `s` in order of first appearance. */
  function Dedup(s: seq<int>): seq<int> {
    if s == [] then []
    else
      var d := Dedup(s[..|s| - 1]);
      if s[|s| - 1] in d then d else d + [s[|s| - 1]]
  }

  /** Dedup keeps exactly the values of `s`, each once. */
  lemma {:induction false} DedupFacts(s: seq<int>)
    ensures Distinct(Dedup(s))
    ensures forall x :: x in Dedup(s) <==> x in s
  {
    if s != [] {
      var s' := s[..|s| - 1];
      DedupFacts(s');
      assert s == s' + [s[|s| - 1]];
    }
  }

  /** Deduplicating a prefix of `s` gives a prefix of deduplicating `s`. */
  lemma {:induction false} DedupPrefix(s: seq<int>, k: nat)
    requires k <= |s|
    ensures |Dedup(s[..k])| <= |Dedup(s)| && Dedup(s[..k]) == Dedup(s)[..|Dedup(s[..k])|]
    decreases |s| - k
  {
    if k < |s| {
      var s' := s[..|s| - 1];
      assert s[..k] == s'[..k];
      DedupPrefix(s', k);
    } else {
      assert s[..k] == s;
    }
  }

  /** The first pair of consecutive draws that picks two different run accounts. */
  function FirstUnequalPair(accounts: seq<int>, draws: seq<int>): (r: Option<(int, int)>)
    requires forall k :: 0 <= k < |draws| ==> 0 <= draws[k] < |accounts|
    ensures r.Some? ==> r.value.0 != r.value.1 && r.value.0 in accounts && r.value.1 in accounts
    decreases |draws|
  {
    if |draws| < 2 then None
    else if accounts[draws[0]] != accounts[draws[1]] then Some((accounts[draws[0]], accounts[draws[1]]))
    else FirstUnequalPair(accounts, draws[2..])
  }

  /**
   * The random choices for one thread's operation: the operation kind
   * (`rnd.nextInt(5)`), the run-account draws (`rnd.nextInt(RUN_ACCOUNTS)`,
   * one, or pairs for a transfer) and the amount.
   */
  datatype OpChoice = OpChoice(kind: int, accountDraws: seq<int>, amount: int)

  predicate ChoiceIn(c: OpChoice, runAccounts: nat) {
    0 <= c.kind < 5 && forall k :: 0 <= k < |c.accountDraws| ==> 0 <= c.accountDraws[k] < runAccounts
  }

  /** The operation doOneRun builds from the choices, or None when the account draws run out. */
  function ChosenOp(accounts: seq<int>, c: OpChoice): (r: Option<Operation>)
    requires ChoiceIn(c, |accounts|)
    ensures r.Some? ==> (c.kind == 1 <==> r.value.GetTotalAmount?)
    ensures r.Some? && !r.value.GetTotalAmount? ==> c.accountDraws != []
    ensures r.Some? && r.value.GetAmount? ==> c.kind == 0 && r.value.index == accounts[c.accountDraws[0]]
    ensures r.Some? && r.value.Deposit? ==> c.kind == 2 && r.value == Deposit(accounts[c.accountDraws[0]], c.amount)
    ensures r.Some? && r.value.Withdraw? ==> c.kind == 3 && r.value == Withdraw(accounts[c.accountDraws[0]], c.amount)
    ensures r.Some? && r.value.Transfer? ==>
      && c.kind == 4 && r.value.amount == c.amount
      && r.value.from != r.value.to && r.value.from in accounts && r.value.to in accounts
    ensures r.None? <==> (c.kind != 1 && c.accountDraws == []) || (c.kind == 4 && FirstUnequalPair(accounts, c.accountDraws).None?)
  {
    if c.kind == 1 then Some(GetTotalAmount)
    else if c.accountDraws == [] then None
    else if c.kind == 0 then Some(GetAmount(accounts[c.accountDraws[0]]))
    else if c.kind == 2 then Some(Deposit(accounts[c.accountDraws[0]], c.amount))
    else if c.kind == 3 then Some(Withdraw(accounts[c.accountDraws[0]], c.amount))
    else match FirstUnequalPair(accounts, c.accountDraws)
      case None => None
      case Some(pair) => Some(Transfer(pair.0, pair.1, c.amount))
  }

  /** The operation chosen names only accounts among the run's accounts, so only existing accounts. */
  lemma ChosenOpIndices(accounts: seq<int>, c: OpChoice, n: int)
    requires ChoiceIn(c, |accounts|) && forall i :: 0 <= i < |accounts| ==> 0 <= accounts[i] < n
    requires ChosenOp(accounts, c).Some?
    ensures IndicesIn(ChosenOp(accounts, c).value, n)
  {
  }
}
