/**
 * What the linearizability test computes sequentially: the balances it seeds
 * every fresh store with, the outcome vector of running the threads'
 * operations one after another in a given order.
 */
module Replay {
  import opened Wrappers
  import opened Ledger
  import opened Operations
  import opened ResultsVector
  import opened Permutations

  /** Every operation names only accounts of a store with `n` accounts. */
  predicate OpsIn(ops: seq<Operation>, n: int) {
    forall t :: 0 <= t < |ops| ==> IndicesIn(ops[t], n)
  }

  /** The balances after depositing `amounts[i]` on `accounts[i]`, in order (initBank). */
  function Seeded(b: seq<int>, accounts: seq<int>, amounts: seq<int>, maxAmount: int): (r: seq<int>)
    requires |accounts| == |amounts|
    requires forall i :: 0 <= i < |accounts| ==> 0 <= accounts[i] < |b|
    ensures |r| == |b|
    decreases |accounts|
  {
    if accounts == [] then b
    else Seeded(DepositStep(b, accounts[0], amounts[0], maxAmount).balances, accounts[1..], amounts[1..], maxAmount)
  }

  /** The balances after running `ops[order[0]]`, `ops[order[1]]`, ... from `b`. */
  function BalancesAfter(b: seq<int>, ops: seq<Operation>, order: seq<int>, maxAmount: int): (r: seq<int>)
    requires OpsIn(ops, |b|)
    requires forall k :: 0 <= k < |order| ==> 0 <= order[k] < |ops|
    ensures |r| == |b|
    decreases |order|
  {
    if order == [] then b
    else BalancesAfter(Apply(ops[order[0]], b, maxAmount).balances, ops, order[1..], maxAmount)
  }

  /** The vector left by running the operations in `order` from `b`, each writing its thread's slot. */
  function Play(b: seq<int>, ops: seq<Operation>, order: seq<int>, slots: Vec, maxAmount: int): (r: Vec)
    requires OpsIn(ops, |b|)
    requires forall k :: 0 <= k < |order| ==> 0 <= order[k] < |ops| && order[k] < |slots|
    ensures |r| == |slots|
    decreases |order|
  {
    if order == [] then slots
    else
      var s := Apply(ops[order[0]], b, maxAmount);
      Play(s.balances, ops, order[1..], slots[order[0] := Some(s.outcome)], maxAmount)
  }

  /** The outcome vector of one sequential execution, in the thread order `q`, from the seeded balances. */
  function OutcomesOf(seed: seq<int>, ops: seq<Operation>, q: seq<int>, maxAmount: int): Vec
    requires OpsIn(ops, |seed|) && IsPermutation(q, |ops|)
  {
    Play(seed, ops, q, seq(|ops|, _ => None), maxAmount)
  }

  /** The vectors of all the listed thread orders. */
  function AdmissibleOf(seed: seq<int>, ops: seq<Operation>, qs: seq<seq<int>>, maxAmount: int): set<Vec>
    requires OpsIn(ops, |seed|)
  {
    set q | q in qs && IsPermutation(q, |ops|) :: OutcomesOf(seed, ops, q, maxAmount)
  }

  lemma AdmissibleConcat(seed: seq<int>, ops: seq<Operation>, a: seq<seq<int>>, b: seq<seq<int>>, maxAmount: int)
    requires OpsIn(ops, |seed|)
    ensures AdmissibleOf(seed, ops, a + b, maxAmount)
         == AdmissibleOf(seed, ops, a, maxAmount) + AdmissibleOf(seed, ops, b, maxAmount)
  {
    var all := AdmissibleOf(seed, ops, a + b, maxAmount);
    forall v | v in all
      ensures v in AdmissibleOf(seed, ops, a, maxAmount) + AdmissibleOf(seed, ops, b, maxAmount)
    {
      var q :| q in a + b && IsPermutation(q, |ops|) && v == OutcomesOf(seed, ops, q, maxAmount);
      assert q in a || q in b;
    }
  }

  /** The vectors of every thread order: the outcomes some sequential execution can produce. */
  lemma AdmissibleOfAll(seed: seq<int>, ops: seq<Operation>, maxAmount: int)
    requires OpsIn(ops, |seed|)
    ensures forall v :: v in AdmissibleOf(seed, ops, Ext([], |ops|), maxAmount) <==>
      exists q :: IsPermutation(q, |ops|) && v == OutcomesOf(seed, ops, q, maxAmount)
  {
    AllPermutations(|ops|);
  }

  /**
   * A slot that the order names ends up with the outcome its operation had
   * when it ran; a slot it does not name keeps its old content.
   */
  lemma {:induction false} PlaySlot(b: seq<int>, ops: seq<Operation>, order: seq<int>, slots: Vec, maxAmount: int, k: nat)
    requires OpsIn(ops, |b|) && Distinct(order)
    requires forall i :: 0 <= i < |order| ==> 0 <= order[i] < |ops| && order[i] < |slots|
    requires k < |order|
    ensures Play(b, ops, order, slots, maxAmount)[order[k]]
         == Some(Apply(ops[order[k]], BalancesAfter(b, ops, order[..k], maxAmount), maxAmount).outcome)
    decreases |order|
  {
    var s := Apply(ops[order[0]], b, maxAmount);
    var slots' := slots[order[0] := Some(s.outcome)];
    if k == 0 {
      PlayKeeps(s.balances, ops, order[1..], slots', maxAmount, order[0]);
      assert order[..0] == [];
    } else {
      assert order[1..][..k - 1] == order[..k][1..];
      assert order[1..][k - 1] == order[k];
      assert Distinct(order[1..]) by {
        forall i, j | 0 <= i < j < |order[1..]| ensures order[1..][i] != order[1..][j] {
          assert order[1..][i] == order[i + 1] && order[1..][j] == order[j + 1];
        }
      }
      PlaySlot(s.balances, ops, order[1..], slots', maxAmount, k - 1);
    }
  }

  lemma {:induction false} PlayKeeps(b: seq<int>, ops: seq<Operation>, order: seq<int>, slots: Vec, maxAmount: int, t: int)
    requires OpsIn(ops, |b|)
    requires forall i :: 0 <= i < |order| ==> 0 <= order[i] < |ops| && order[i] < |slots|
    requires 0 <= t < |slots| && t !in order
    ensures Play(b, ops, order, slots, maxAmount)[t] == slots[t]
    decreases |order|
  {
    if order != [] {
      var s := Apply(ops[order[0]], b, maxAmount);
      PlayKeeps(s.balances, ops, order[1..], slots[order[0] := Some(s.outcome)], maxAmount, t);
    }
  }

  /** Slots named by the order do not depend on what they held before. */
  lemma {:induction false} PlayOverwrites(b: seq<int>, ops: seq<Operation>, order: seq<int>, s1: Vec, s2: Vec, maxAmount: int, t: int)
    requires OpsIn(ops, |b|) && |s1| == |s2|
    requires forall i :: 0 <= i < |order| ==> 0 <= order[i] < |ops| && order[i] < |s1|
    requires t in order
    ensures Play(b, ops, order, s1, maxAmount)[t] == Play(b, ops, order, s2, maxAmount)[t]
    decreases |order|
  {
    var s := Apply(ops[order[0]], b, maxAmount);
    var s1', s2' := s1[order[0] := Some(s.outcome)], s2[order[0] := Some(s.outcome)];
    if t in order[1..] {
      PlayOverwrites(s.balances, ops, order[1..], s1', s2', maxAmount, t);
    } else {
      assert t == order[0];
      PlayKeeps(s.balances, ops, order[1..], s1', maxAmount, t);
      PlayKeeps(s.balances, ops, order[1..], s2', maxAmount, t);
    }
  }

  /** Playing a full permutation gives the same vector whatever the slots held before. */
  lemma PlayPermutation(b: seq<int>, ops: seq<Operation>, q: seq<int>, slots: Vec, maxAmount: int)
    requires OpsIn(ops, |b|) && IsPermutation(q, |ops|) && |slots| == |ops|
    ensures Play(b, ops, q, slots, maxAmount) == OutcomesOf(b, ops, q, maxAmount)
  {
    var none: Vec := seq(|ops|, _ => None);
    forall t | 0 <= t < |slots|
      ensures Play(b, ops, q, slots, maxAmount)[t] == Play(b, ops, q, none, maxAmount)[t]
    {
      PermutationCovers(q, |ops|, t);
      PlayOverwrites(b, ops, q, slots, none, maxAmount, t);
    }
  }

  /** A permutation of 0..n-1 names every number below n. */
  lemma PermutationCovers(q: seq<int>, n: nat, t: int)
    requires IsPermutation(q, n) && 0 <= t < n
    ensures t in q
  {
    ExtShape([], n);
    ExtComplete([], n, q);
    assert q in Ext([], n);
    if t !in q {
      FreeAll(q, n);
      FreeMissing(q, n, t);
    }
  }

  /** If some number below j is unused, Free counts it. */
  lemma {:induction false} FreeMissing(q: seq<int>, j: nat, t: int)
    requires 0 <= t < j && t !in q
    ensures Free(q, j) > 0
  {
    if t < j - 1 {
      FreeMissing(q, j - 1, t);
    }
  }

  /**
   * When the run accounts are distinct, exist and start at 0 and every amount
   * is in [1, maxAmount], seeding puts `amounts[i]` on `accounts[i]` and
   * leaves every other balance as it was.
   */
  lemma {:induction false} SeededContents(b: seq<int>, accounts: seq<int>, amounts: seq<int>, maxAmount: int)
    requires |accounts| == |amounts| && Distinct(accounts)
    requires forall i :: 0 <= i < |accounts| ==> 0 <= accounts[i] < |b| && b[accounts[i]] == 0
    requires forall i :: 0 <= i < |amounts| ==> 1 <= amounts[i] <= maxAmount
    ensures var r := Seeded(b, accounts, amounts, maxAmount);
      && (forall i :: 0 <= i < |accounts| ==> r[accounts[i]] == amounts[i])
      && (forall j :: 0 <= j < |b| && j !in accounts ==> r[j] == b[j])
    decreases |accounts|
  {
    if accounts != [] {
      var b' := b[accounts[0] := amounts[0]];
      assert DepositStep(b, accounts[0], amounts[0], maxAmount).balances == b';
      assert Distinct(accounts[1..]) by {
        forall i, j | 0 <= i < j < |accounts[1..]| ensures accounts[1..][i] != accounts[1..][j] {
          assert accounts[1..][i] == accounts[i + 1] && accounts[1..][j] == accounts[j + 1];
        }
      }
      forall i | 0 <= i < |accounts[1..]| ensures b'[accounts[1..][i]] == 0 {
        assert accounts[1..][i] == accounts[i + 1] != accounts[0];
      }
      SeededContents(b', accounts[1..], amounts[1..], maxAmount);
      var r := Seeded(b', accounts[1..], amounts[1..], maxAmount);
      assert accounts[0] !in accounts[1..] by {
        forall i | 0 <= i < |accounts[1..]| ensures accounts[1..][i] != accounts[0] {
          assert accounts[1..][i] == accounts[i + 1];
        }
      }
      forall i | 0 <= i < |accounts| ensures r[accounts[i]] == amounts[i] {
        if i > 0 {
          assert accounts[i] == accounts[1..][i - 1] && amounts[i] == amounts[1..][i - 1];
        }
      }
    }
  }
}
