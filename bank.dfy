/**
 * The account store: a fixed array of balances, one lock per account. The
 * locks are not modelled for their concurrency; every method instead appends
 * to the ghost `trace` the lock and unlock events it performs, in order.
 */
module Bank {
  import opened Ledger
  import opened LockOrder

  class BankImpl {
    /** The bound on any balance and any single amount (the interface's MAX_AMOUNT). */
    const maxAmount: int
    /** The balance of each account, by index. */
    const accounts: array<int>
    /** Every lock and unlock performed on this store so far. */
    ghost var trace: seq<LockEvent>

    /** Balances stay in [0, maxAmount] and every lock ever taken has been given back. */
    ghost predicate Valid()
      reads this, accounts
    {
      0 < maxAmount && InBounds(accounts[..], maxAmount) && Matched(trace)
    }

    /** A store of `n` accounts, numbered 0..n-1, each with balance 0. */
    constructor (n: nat, maxAmount: int)
      requires 0 < maxAmount
      ensures Valid() && fresh(accounts)
      ensures this.maxAmount == maxAmount && accounts.Length == n
      ensures forall i :: 0 <= i < n ==> accounts[i] == 0
      ensures trace == []
    {
      var a := new int[n];
      for i := 0 to n
        invariant forall k :: 0 <= k < i ==> a[k] == 0
      {
        a[i] := 0;
      }
      this.maxAmount := maxAmount;
      accounts := a;
      trace := [];
    }

    method GetNumberOfAccounts() returns (n: int)
      ensures n == accounts.Length
    {
      n := accounts.Length;
    }

    method GetAmount(index: int) returns (r: int)
      requires Valid() && 0 <= index < accounts.Length
      modifies this`trace
      ensures Valid()
      ensures Step(Amount(r), accounts[..]) == GetAmountStep(old(accounts[..]), index)
      ensures trace == old(trace) + SingleSegment(index)
    {
      trace := trace + [Lock(index)];
      r := accounts[index];
      trace := trace + [Unlock(index)];
      assert trace == old(trace) + SingleSegment(index);
      assert Matched(trace) by {
        SingleSegmentDiscipline(index);
        MatchedConcat(old(trace), SingleSegment(index));
      }
    }

    method GetTotalAmount() returns (r: int)
      requires Valid()
      modifies this`trace
      ensures Valid()
      ensures Step(Amount(r), accounts[..]) == GetTotalAmountStep(old(accounts[..]))
      ensures trace == old(trace) + LockUp(accounts.Length) + UnlockDown(accounts.Length)
    {
      var n := accounts.Length;
      for i := 0 to n
        invariant trace == old(trace) + LockUp(i)
      {
        assert LockUp(i + 1) == LockUp(i) + [Lock(i)];
        trace := trace + [Lock(i)];
      }
      var sum := 0;
      for i := 0 to n
        invariant sum == Sum(accounts[..i])
      {
        assert accounts[..i + 1][..i] == accounts[..i];
        sum := sum + accounts[i];
      }
      assert accounts[..n] == accounts[..];
      r := sum;
      var i := n - 1;
      while i >= 0
        invariant -1 <= i < n
        invariant trace == old(trace) + LockUp(n) + UnlockDown(n)[..n - 1 - i]
      {
        assert UnlockDown(n)[..n - 1 - (i - 1)] == UnlockDown(n)[..n - 1 - i] + [Unlock(i)];
        trace := trace + [Unlock(i)];
        i := i - 1;
      }
      assert UnlockDown(n)[..n] == UnlockDown(n);
      assert old(trace) + LockUp(n) + UnlockDown(n) == old(trace) + (LockUp(n) + UnlockDown(n));
      assert Matched(trace) by {
        TotalSegmentDiscipline(n);
        MatchedConcat(old(trace), LockUp(n) + UnlockDown(n));
      }
    }

    method Deposit(index: int, amount: int) returns (r: Outcome)
      requires Valid() && 0 <= index < accounts.Length
      modifies this`trace, accounts
      ensures Valid()
      ensures Step(r, accounts[..]) == DepositStep(old(accounts[..]), index, amount, maxAmount)
      ensures trace == old(trace) + SingleSegment(index)
    {
      trace := trace + [Lock(index)];
      if amount <= 0 {
        r := InvalidArgument;
      } else if amount > maxAmount || accounts[index] + amount > maxAmount {
        r := Overflow;
      } else {
        accounts[index] := accounts[index] + amount;
        r := Amount(accounts[index]);
      }
      trace := trace + [Unlock(index)];
      assert InBounds(accounts[..], maxAmount) by {
        DepositFacts(old(accounts[..]), index, amount, maxAmount);
      }
      assert trace == old(trace) + SingleSegment(index);
      assert Matched(trace) by {
        SingleSegmentDiscipline(index);
        MatchedConcat(old(trace), SingleSegment(index));
      }
    }

    method Withdraw(index: int, amount: int) returns (r: Outcome)
      requires Valid() && 0 <= index < accounts.Length
      modifies this`trace, accounts
      ensures Valid()
      ensures Step(r, accounts[..]) == WithdrawStep(old(accounts[..]), index, amount)
      ensures trace == old(trace) + SingleSegment(index)
    {
      trace := trace + [Lock(index)];
      if amount <= 0 {
        r := InvalidArgument;
      } else if accounts[index] - amount < 0 {
        r := Underflow;
      } else {
        accounts[index] := accounts[index] - amount;
        r := Amount(accounts[index]);
      }
      trace := trace + [Unlock(index)];
      assert InBounds(accounts[..], maxAmount) by {
        WithdrawFacts(old(accounts[..]), index, amount, maxAmount);
      }
      assert trace == old(trace) + SingleSegment(index);
      assert Matched(trace) by {
        SingleSegmentDiscipline(index);
        MatchedConcat(old(trace), SingleSegment(index));
      }
    }

    method Transfer(fromIndex: int, toIndex: int, amount: int) returns (r: Outcome)
      requires Valid() && 0 <= fromIndex < accounts.Length && 0 <= toIndex < accounts.Length
      modifies this`trace, accounts
      ensures Valid()
      ensures Step(r, accounts[..]) == TransferStep(old(accounts[..]), fromIndex, toIndex, amount, maxAmount)
      ensures trace == old(trace) + TransferSegment(fromIndex, toIndex)
    {
      ghost var b := accounts[..];
      if fromIndex < toIndex {
        trace := trace + [Lock(fromIndex), Lock(toIndex)];
      } else {
        trace := trace + [Lock(toIndex), Lock(fromIndex)];
      }
      if amount <= 0 {
        r := InvalidArgument;
      } else if fromIndex == toIndex {
        r := InvalidArgument;
      } else if amount > accounts[fromIndex] {
        r := Underflow;
      } else if amount > maxAmount || accounts[toIndex] + amount > maxAmount {
        r := Overflow;
      } else {
        accounts[fromIndex] := accounts[fromIndex] - amount;
        accounts[toIndex] := accounts[toIndex] + amount;
        r := Done;
        assert accounts[..] == b[fromIndex := b[fromIndex] - amount][toIndex := b[toIndex] + amount];
      }
      if toIndex > fromIndex {
        trace := trace + [Unlock(toIndex), Unlock(fromIndex)];
      } else {
        trace := trace + [Unlock(fromIndex), Unlock(toIndex)];
      }
      assert InBounds(accounts[..], maxAmount) by {
        TransferFacts(b, fromIndex, toIndex, amount, maxAmount);
      }
      assert trace == old(trace) + TransferSegment(fromIndex, toIndex);
      assert Matched(trace) by {
        TransferSegmentDiscipline(fromIndex, toIndex);
        MatchedConcat(old(trace), TransferSegment(fromIndex, toIndex));
      }
    }
  }
}
