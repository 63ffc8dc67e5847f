/**
 * The linearizability test's checker, run single-threaded: it picks the run's
 * accounts and operations, enumerates every sequential order of the threads'
 * operations (serialScan), stores each order's outcome vector in an
 * open-addressing table of Results objects, and for every concurrent
 * execution looks the observed vector up in that table (findResults).
 */
module Linearizability {
  import opened Wrappers
  import opened Ledger
  import opened Bank
  import opened Operations
  import opened ResultsVector
  import opened Permutations
  import opened OpenAddressing
  import opened Replay
  import opened Draws

  /** Accounts in every store the test creates. */
  const N: nat := 10
  /** Accounts a run's operations touch. */
  const RUN_ACCOUNTS: nat := 3
  /** Worker threads, one operation each per run. */
  const THREADS: nat := 4

  /** `(used & (1 << j)) != 0`: bit `j` of the mask is set. */
  predicate Has(used: bv32, j: int)
    requires 0 <= j < 32
  {
    (used & (1 << j)) != 0
  }

  /** The set bits of `used` below THREADS are exactly the threads already placed in `p`. */
  predicate UsedMask(used: bv32, p: seq<int>) {
    forall j :: 0 <= j < THREADS ==> (Has(used, j) <==> j in p)
  }

  lemma BitOr(used: bv32, j: int, k: int)
    requires 0 <= j < THREADS && 0 <= k < THREADS
    ensures Has(used | (1 << j), k) <==> Has(used, k) || j == k
  {
    // Thread numbers are below THREADS, so both shifts are one of four constants.
    assert j == 0 || j == 1 || j == 2 || j == 3;
    assert k == 0 || k == 1 || k == 2 || k == 3;
  }

  /** Setting thread `j`'s bit records placing `j` next. */
  lemma MaskAdd(used: bv32, p: seq<int>, j: int)
    requires UsedMask(used, p) && 0 <= j < THREADS && j !in p
    ensures UsedMask(used | (1 << j), p + [j])
  {
    forall k | 0 <= k < THREADS
      ensures Has(used | (1 << j), k) <==> k in p + [j]
    {
      BitOr(used, j, k);
      assert k in p + [j] <==> k in p || k == j;
    }
  }

  /** No thread is placed yet, and no bit is set. */
  lemma MaskEmpty()
    ensures UsedMask(0, [])
  {
    forall j | 0 <= j < THREADS ensures !Has(0, j) {
    }
  }

  /** The vector a complete execution leaves: every thread has written its outcome. */
  function AsVec(observed: seq<Outcome>): (v: Vec)
    ensures |v| == |observed| && forall t :: 0 <= t < |v| ==> v[t] == Some(observed[t])
  {
    seq(|observed|, t requires 0 <= t < |observed| => Some(observed[t]))
  }

  /**
   * The draws are enough for doOneRun: they hold RUN_ACCOUNTS distinct
   * accounts, and every thread's choice yields an operation on them.
   */
  predicate DrawsSuffice(accountDraws: seq<int>, choices: seq<OpChoice>)
    requires |choices| == THREADS && forall t :: 0 <= t < THREADS ==> ChoiceIn(choices[t], RUN_ACCOUNTS)
  {
    |Dedup(accountDraws)| >= RUN_ACCOUNTS &&
    forall t :: 0 <= t < THREADS ==> ChosenOp(Dedup(accountDraws)[..RUN_ACCOUNTS], choices[t]).Some?
  }

  /** The first `n` executions all produced vectors in `s`. */
  ghost predicate AllIn(observed: seq<seq<Outcome>>, n: int, s: set<Vec>)
    requires n <= |observed|
  {
    forall e :: 0 <= e < n ==> AsVec(observed[e]) in s
  }

  /** A count of zero for every slot of the table. */
  const NO_COUNTS: seq<int> := seq(RESULTS_HASH_SIZE, _ => 0)

  /** How many of the executions produced the vector `v`. */
  function Occurrences(observed: seq<seq<Outcome>>, v: Vec): nat {
    if observed == [] then 0
    else Occurrences(observed[..|observed| - 1], v) + (if AsVec(observed[|observed| - 1]) == v then 1 else 0)
  }

  /** The number of occupied slots of `t` whose count in `c` is positive. */
  function Seen(t: Table, c: seq<int>): nat
    requires |c| == |t|
  {
    if t == [] then 0
    else Seen(t[..|t| - 1], c[..|c| - 1]) + (if t[|t| - 1].Some? && c[|c| - 1] > 0 then 1 else 0)
  }

  /** The stored vectors that at least one execution produced. */
  ghost function ObservedKeys(t: Table, observed: seq<seq<Outcome>>): set<Vec> {
    set v | v in Keys(t) && Occurrences(observed, v) > 0
  }

  /**
   * When each slot's count is the number of executions that produced its
   * vector, the slots with a positive count are as many as the stored
   * vectors some execution produced.
   */
  lemma {:induction false} SeenObserved(t: Table, c: seq<int>, observed: seq<seq<Outcome>>)
    requires |c| == |t| && NoDup(t)
    requires forall k :: 0 <= k < |t| && t[k].Some? ==> c[k] == Occurrences(observed, t[k].value)
    ensures Seen(t, c) == |ObservedKeys(t, observed)|
  {
    if t != [] {
      var last := |t| - 1;
      var p := t[..last];
      KeysLast(t);
      NoDupLast(t);
      SeenObserved(p, c[..last], observed);
      if t[last].Some? && Occurrences(observed, t[last].value) > 0 {
        assert ObservedKeys(t, observed) == ObservedKeys(p, observed) + {t[last].value};
      } else {
        assert ObservedKeys(t, observed) == ObservedKeys(p, observed);
      }
    }
  }

  /** How one run of the test ends. */
  datatype RunResult =
    | DrawsExhausted                       // a rejection loop ran out of draws
    | NonLinearizable(execution: int)      // the AssertionError: no sequential order explains this execution
    | Completed(seen: int, total: int)     // the counts doOneRun prints

  class LinearizabilityTest {
    const maxAmount: int
    const runAccounts: array<int>
    const baseAmount: array<int>
    const runOps: array<Operation>
    /** The vector the current execution writes its outcomes into. */
    const results: Results
    const resultsHash: array<Results?>
    var bank: BankImpl?
    /** The thread orders serialScan has completed, in visiting order. */
    ghost var leaves: seq<seq<int>>

    /** The slot arrays of the stored Results objects. */
    ghost function EntrySlots(): set<object>
      reads resultsHash
    {
      set k | 0 <= k < resultsHash.Length && resultsHash[k] != null :: resultsHash[k].slots
    }

    /** The table as a value: each slot empty or holding the stored vector. */
    ghost var table: Table

    /** The sizes of the test's fixed arrays; no update can change them. */
    ghost predicate Shape() {
      && 0 < maxAmount
      && runAccounts.Length == RUN_ACCOUNTS && baseAmount.Length == RUN_ACCOUNTS && runAccounts != baseAmount
      && runOps.Length == THREADS && results.slots.Length == THREADS
      && resultsHash.Length == RESULTS_HASH_SIZE
    }

    /** The table value mirrors the array of Results objects and is a good open-addressing table. */
    ghost predicate Valid()
      reads this`table, resultsHash, EntrySlots()
    {
      && Shape()
      && |table| == RESULTS_HASH_SIZE
      && results.slots !in EntrySlots()
      && (forall k :: Mirrors(k))
      && Good(table)
    }

    /** Slot `k` of the array is empty exactly when the table value's is, and otherwise holds a separate copy of the stored vector. */
    ghost predicate Mirrors(k: int)
      reads this`table, resultsHash, if 0 <= k < resultsHash.Length && resultsHash[k] != null then {resultsHash[k].slots} else {}
    {
      0 <= k < resultsHash.Length && |table| == resultsHash.Length ==>
        && (resultsHash[k] == null <==> table[k].None?)
        && (resultsHash[k] != null ==> resultsHash[k].slots != results.slots && table[k] == Some(resultsHash[k].slots[..]))
    }

    /** The run's setup is complete: distinct existing accounts, valid seed amounts, operations on existing accounts. */
    ghost predicate RunReady()
      reads runAccounts, baseAmount, runOps
    {
      && runAccounts.Length == RUN_ACCOUNTS && baseAmount.Length == RUN_ACCOUNTS && runOps.Length == THREADS
      && Distinct(runAccounts[..])
      && (forall i :: 0 <= i < RUN_ACCOUNTS ==> 0 <= runAccounts[i] < N && 1 <= baseAmount[i] <= maxAmount)
      && OpsIn(runOps[..], N)
    }

    /** The balances initBank gives a fresh store. */
    ghost function Seed(): seq<int>
      reads runAccounts, baseAmount, runOps
      requires RunReady()
    {
      Seeded(seq(N, _ => 0), runAccounts[..], baseAmount[..], maxAmount)
    }

    /** The outcome vector of running the operations sequentially in thread order `q` on a seeded store. */
    ghost function Outcomes(q: seq<int>): Vec
      reads runAccounts, baseAmount, runOps
      requires RunReady() && IsPermutation(q, THREADS)
    {
      OutcomesOf(Seed(), runOps[..], q, maxAmount)
    }

    /** Some thread order, run sequentially, gives exactly the vector `v`. */
    ghost predicate Explained(v: Vec)
      reads runAccounts, baseAmount, runOps
      requires RunReady()
    {
      exists q :: IsPermutation(q, THREADS) && v == Outcomes(q)
    }

    /** Some thread order explains each of the first `n` executions' vectors. */
    ghost predicate AllExplained(observed: seq<seq<Outcome>>, n: int)
      reads runAccounts, baseAmount, runOps
      requires RunReady() && n <= |observed|
    {
      forall e :: 0 <= e < n ==> Explained(AsVec(observed[e]))
    }

    /** The outcome vectors of the listed thread orders. */
    ghost function Admissible(qs: seq<seq<int>>): set<Vec>
      reads runAccounts, baseAmount, runOps
      requires RunReady()
    {
      AdmissibleOf(Seed(), runOps[..], qs, maxAmount)
    }

    /** The field initialisers: empty table, an empty vector, no store yet. */
    constructor (maxAmount: int)
      requires 0 < maxAmount
      ensures Valid() && this.maxAmount == maxAmount
      ensures Keys(table) == {} && Filled(table) == 0
      ensures results.slots[..] == seq(THREADS, _ => None)
      ensures bank == null && leaves == []
    {
      this.maxAmount := maxAmount;
      runAccounts := new int[RUN_ACCOUNTS];
      baseAmount := new int[RUN_ACCOUNTS];
      runOps := new Operation[THREADS](_ => GetTotalAmount);
      results := new Results(THREADS);
      resultsHash := new Results?[RESULTS_HASH_SIZE](_ => null);
      bank := null;
      leaves := [];
      table := seq(RESULTS_HASH_SIZE, _ => None);
      new;
      EmptyTable(table);
    }

    /** `Arrays.fill(resultsHash, null)`; no order has been visited yet. */
    method Clear()
      requires Valid()
      modifies resultsHash, this`table, this`leaves
      ensures Valid()
      ensures forall k :: 0 <= k < resultsHash.Length ==> resultsHash[k] == null
      ensures Keys(table) == {} && Filled(table) == 0 && leaves == [] && Entries() == {}
    {
      for k := 0 to resultsHash.Length
        invariant forall i :: 0 <= i < k ==> resultsHash[i] == null
        invariant forall i :: k <= i < resultsHash.Length ==> resultsHash[i] == old(resultsHash[i])
      {
        resultsHash[k] := null;
      }
      table := seq(RESULTS_HASH_SIZE, _ => None);
      leaves := [];
      EmptyTable(table);
    }

    /**
     * The probe loop of both lookups: from the home slot of the current
     * vector's hash, step down one slot at a time (wrapping from 0 to the last
     * slot) until a slot is empty or holds an equal vector. The slot found
     * holds the vector exactly when the table has it; when it is empty, it is
     * where storing the vector keeps the table good.
     */
    method ProbeSlot() returns (hIndex: int)
      requires Valid() && Filled(table) < RESULTS_HASH_SIZE
      ensures 0 <= hIndex < RESULTS_HASH_SIZE
      ensures StopsAt(results.slots[..], hIndex)
      ensures resultsHash[hIndex] == null <==> results.slots[..] !in Keys(table)
      ensures resultsHash[hIndex] != null ==> resultsHash[hIndex].slots[..] == results.slots[..]
      ensures resultsHash[hIndex] == null ==>
        var t' := table[hIndex := Some(results.slots[..])];
        Good(t') && Keys(t') == Keys(table) + {results.slots[..]} && Filled(t') == Filled(table) + 1
    {
      ghost var key := results.slots[..];
      ghost var home := Home(key);
      hIndex := HomeIndex(results.HashCode());
      ProbeHome(home);
      ProbeStops(table, key, home);
      ghost var d := StopDist(table, key, home, 0).value;
      ghost var steps: nat := 0;
      while true
        invariant 0 <= hIndex < RESULTS_HASH_SIZE && hIndex == Probe(home, steps)
        invariant StopDist(table, key, home, steps) == Some(d)
        decreases d - steps
      {
        var hRes := resultsHash[hIndex];
        assert Mirrors(hIndex);
        assert table[hIndex] == if hRes == null then None else Some(hRes.slots[..]);
        if hRes == null || hRes.Equals(results) {
          assert d == steps && Probe(Home(key), d) == hIndex;
          LookupCorrect(table, key, d);
          if hRes == null {
            InsertCorrect(table, key, d);
          }
          return;
        }
        ghost var prev := hIndex;
        if hIndex == 0 {
          hIndex := RESULTS_HASH_SIZE;
        }
        hIndex := hIndex - 1;
        assert hIndex == Prev(prev);
        ProbeStep(home, steps);
        steps := steps + 1;
      }
    }

    /**
     * Return the entry for the current vector, storing a copy of it with
     * count 0 where the probe stopped when the table does not have it yet.
     */
    method FindOrCreateResults() returns (hRes: Results)
      requires Valid() && Filled(table) < RESULTS_HASH_SIZE
      modifies resultsHash, this`table
      ensures Valid()
      ensures hRes.slots[..] == results.slots[..] && hRes in resultsHash[..]
      ensures forall o :: o in Entries() ==> o in old(Entries()) || (fresh(o) && o.count == 0)
      ensures old(results.slots[..] in Keys(table)) ==> unchanged(resultsHash) && table == old(table)
      ensures old(results.slots[..] !in Keys(table)) ==>
        && fresh(hRes) && hRes.count == 0
        && Keys(table) == old(Keys(table)) + {results.slots[..]}
        && Filled(table) == old(Filled(table)) + 1
      ensures old(results.slots[..] !in Keys(table)) ==> exists k ::
        && old(StopsAt(results.slots[..], k)) && old(resultsHash[k]) == null
        && resultsHash[..] == old(resultsHash[..])[k := hRes]
        && table == old(table)[k := Some(results.slots[..])]
    {
      var hIndex := ProbeSlot();
      var e := resultsHash[hIndex];
      if e == null {
        hRes := StoreCopy(hIndex);
      } else {
        hRes := e;
      }
      assert resultsHash[hIndex] == hRes;
    }

    /** `resultsHash[hIndex] = new Results(results)` on an empty slot. */
    method StoreCopy(hIndex: int) returns (hRes: Results)
      requires Valid() && 0 <= hIndex < resultsHash.Length && resultsHash[hIndex] == null
      requires Good(table[hIndex := Some(results.slots[..])])
      modifies resultsHash, this`table
      ensures Valid()
      ensures fresh(hRes) && hRes.count == 0 && hRes.slots[..] == results.slots[..]
      ensures resultsHash[..] == old(resultsHash[..])[hIndex := hRes]
      ensures table == old(table)[hIndex := Some(results.slots[..])]
    {
      hRes := new Results.Copy(results);
      resultsHash[hIndex] := hRes;
      table := table[hIndex := Some(results.slots[..])];
    }

    /**
     * Slot `k` is where the probe for `key` stops: the first slot of its
     * probe sequence that is empty or holds an equal key.
     */
    ghost predicate StopsAt(key: Vec, k: int)
      reads this`table
      requires |table| == RESULTS_HASH_SIZE
    {
      var d := StopDist(table, key, Home(key), 0);
      d.Some? && k == Probe(Home(key), d.value)
    }

    /** Return the entry for the current vector, or null when no sequential order produced it. */
    method FindResults() returns (hRes: Results?)
      requires Valid() && Filled(table) < RESULTS_HASH_SIZE
      ensures hRes == null <==> results.slots[..] !in Keys(table)
      ensures hRes != null ==> hRes.slots[..] == results.slots[..] && hRes in resultsHash[..]
    {
      var hIndex := ProbeSlot();
      hRes := resultsHash[hIndex];
    }

    /** The Results objects the table holds. */
    ghost function Entries(): set<Results>
      reads resultsHash
    {
      set k | 0 <= k < resultsHash.Length && resultsHash[k] != null :: resultsHash[k]
    }

    /** initBank: install `b` as the store and deposit each run account's base amount on it. */
    method InitBank(b: BankImpl)
      requires RunReady() && b.Valid() && b.maxAmount == maxAmount
      requires b.accounts.Length == N && forall i :: 0 <= i < N ==> b.accounts[i] == 0
      requires b.accounts != runAccounts && b.accounts != baseAmount
      modifies this`bank, b`trace, b.accounts
      ensures bank == b && b.Valid()
      ensures b.accounts[..] == Seed()
    {
      assert b.accounts[..] == seq(N, _ => 0);
      bank := b;
      for i := 0 to RUN_ACCOUNTS
        invariant bank == b && b.Valid()
        invariant Seeded(b.accounts[..], runAccounts[i..], baseAmount[i..], maxAmount) == Seed()
      {
        assert runAccounts[i..][1..] == runAccounts[i + 1..] && baseAmount[i..][1..] == baseAmount[i + 1..];
        var _ := bank.Deposit(runAccounts[i], baseAmount[i]);
      }
    }

    /**
     * Seed the fresh store `b` and run the threads' operations on it one
     * after another in the complete order `order`, writing each outcome
     * into its thread's slot of the current vector: the leaf of serialScan.
     */
    method RunInOrder(order: array<int>)
      requires Valid() && RunReady()
      requires order.Length == THREADS && IsPermutation(order[..], THREADS)
      requires order != runAccounts && order != baseAmount
      modifies this`bank, results.slots
      ensures Valid() && unchanged(resultsHash) && table == old(table)
      ensures results.slots[..] == Outcomes(order[..])
    {
      ghost var p := order[..];
      var b := new BankImpl(N, maxAmount);
      InitBank(b);
      ghost var slots0 := results.slots[..];
      for k := 0 to THREADS
        invariant bank == b && b.Valid() && b.maxAmount == maxAmount && b.accounts.Length == N
        invariant order[..] == p
        invariant Play(b.accounts[..], runOps[..], p[k..], results.slots[..], maxAmount)
               == Play(Seed(), runOps[..], p, slots0, maxAmount)
      {
        assert p[k..][1..] == p[k + 1..];
        var o := Invoke(runOps[order[k]], bank);
        results.Set(order[k], o);
      }
      PlayPermutation(Seed(), runOps[..], p, slots0, maxAmount);
    }

    /**
     * The table records the visited orders: its vectors are exactly those of
     * the orders in `leaves`, and it uses at most one slot per order.
     */
    ghost predicate Recorded()
      reads this`table, this`leaves, runAccounts, baseAmount, runOps
    {
      RunReady() && |table| == RESULTS_HASH_SIZE && Keys(table) == Admissible(leaves) && Filled(table) <= |leaves|
    }

    /** The leaf's findOrCreateResults: store the vector of the complete order `p` unless the table has it already. */
    method RecordOrder(ghost p: seq<int>)
      requires Valid() && Recorded() && |leaves| + 1 < RESULTS_HASH_SIZE
      requires IsPermutation(p, THREADS) && results.slots[..] == Outcomes(p)
      modifies this`leaves, this`table, resultsHash
      ensures Valid() && Recorded() && leaves == old(leaves) + [p]
      ensures forall o :: o in Entries() ==> o in old(Entries()) || (fresh(o) && o.count == 0)
    {
      assert Admissible(leaves + [p]) == Admissible(leaves) + {Outcomes(p)} by {
        AdmissibleConcat(Seed(), runOps[..], leaves, [p], maxAmount);
      }
      var _ := FindOrCreateResults();
      leaves := leaves + [p];
    }

    /**
     * serialScan: extend the thread order `order[..i]` in every possible
     * way, trying the smallest free thread first; for each complete order,
     * run the operations in that order on a freshly seeded store, writing
     * each outcome into its thread's slot, and record the vector.
     */
    method SerialScan(i: int, used: bv32, order: array<int>)
      requires Valid() && Recorded()
      requires order.Length == THREADS && order != runAccounts && order != baseAmount
      requires 0 <= i <= THREADS && Partial(order[..i], THREADS) && UsedMask(used, order[..i])
      requires |leaves| + |Ext(order[..i], THREADS)| < RESULTS_HASH_SIZE
      modifies this`bank, this`leaves, this`table, resultsHash, results.slots, order
      ensures Valid() && Recorded() && order[..i] == old(order[..i])
      ensures leaves == old(leaves) + Ext(old(order[..i]), THREADS)
      ensures forall o :: o in Entries() ==> o in old(Entries()) || (fresh(o) && o.count == 0)
      decreases THREADS - i, 2
    {
      ghost var p := order[..i];
      if i >= THREADS {
        assert order[..] == p;
        RunInOrder(order);
        RecordOrder(p);
        assert Ext(p, THREADS) == [p];
        return;
      }
      ghost var L0 := leaves;
      assert Ext(p, THREADS) == ExtUpTo(p, THREADS, THREADS);
      for j := 0 to THREADS
        invariant Valid() && Recorded() && order[..i] == p
        invariant leaves == L0 + ExtUpTo(p, THREADS, j)
        invariant forall o :: o in Entries() ==> o in old(Entries()) || (fresh(o) && o.count == 0)
      {
        ScanStep(i, used, order, j, L0);
      }
    }

    /**
     * One iteration of serialScan's loop: when thread `j` is still free,
     * place it at position `i` and recurse.
     */
    method ScanStep(i: int, used: bv32, order: array<int>, j: int, ghost L0: seq<seq<int>>)
      requires Valid() && Recorded()
      requires order.Length == THREADS && order != runAccounts && order != baseAmount
      requires 0 <= i < THREADS && Partial(order[..i], THREADS) && UsedMask(used, order[..i])
      requires 0 <= j < THREADS && |L0| + |Ext(order[..i], THREADS)| < RESULTS_HASH_SIZE
      requires leaves == L0 + ExtUpTo(order[..i], THREADS, j)
      modifies this`bank, this`leaves, this`table, resultsHash, results.slots, order
      ensures Valid() && Recorded() && order[..i] == old(order[..i])
      ensures leaves == L0 + ExtUpTo(old(order[..i]), THREADS, j + 1)
      ensures forall o :: o in Entries() ==> o in old(Entries()) || (fresh(o) && o.count == 0)
      decreases THREADS - i, 1
    {
      ghost var p := order[..i];
      ExtUpToStep(p, THREADS, j);
      if !Has(used, j) {
        Place(i, used, order, j);
        assert leaves == L0 + (ExtUpTo(p, THREADS, j) + Ext(p + [j], THREADS));
      }
    }

    /** Put the free thread `j` at position `i` of the order and scan every completion. */
    method Place(i: int, used: bv32, order: array<int>, j: int)
      requires Valid() && Recorded()
      requires order.Length == THREADS && order != runAccounts && order != baseAmount
      requires 0 <= i < THREADS && Partial(order[..i], THREADS) && UsedMask(used, order[..i])
      requires 0 <= j < THREADS && !Has(used, j)
      requires |leaves| + |Ext(order[..i] + [j], THREADS)| < RESULTS_HASH_SIZE
      modifies this`bank, this`leaves, this`table, resultsHash, results.slots, order
      ensures Valid() && Recorded() && order[..i] == old(order[..i])
      ensures leaves == old(leaves) + Ext(old(order[..i]) + [j], THREADS)
      ensures forall o :: o in Entries() ==> o in old(Entries()) || (fresh(o) && o.count == 0)
      decreases THREADS - i, 0
    {
      ghost var p := order[..i];
      order[i] := j;
      assert order[..i + 1] == p + [j];
      PartialExtend(p, THREADS, j);
      MaskAdd(used, p, j);
      SerialScan(i + 1, used | (1 << j), order);
      assert order[..i] == order[..i + 1][..i];
    }

    /**
     * The checking half of doOneExecution, once the threads have written
     * their outcomes: the execution is linearizable exactly when some
     * sequential order produced the same vector; its entry's count goes up
     * by one and no other entry's count changes.
     */
    method Verdict() returns (linearizable: bool)
      requires Valid() && Filled(table) < RESULTS_HASH_SIZE
      modifies Entries()
      ensures Valid() && table == old(table) && unchanged(resultsHash)
      ensures linearizable <==> results.slots[..] in Keys(table)
      ensures linearizable ==> exists k :: (0 <= k < resultsHash.Length && resultsHash[k] != null &&
        resultsHash[k].slots[..] == results.slots[..] && resultsHash[k].count == old(resultsHash[k].count) + 1)
      ensures forall k :: 0 <= k < resultsHash.Length && resultsHash[k] != null ==>
        resultsHash[k].count == old(resultsHash[k].count) + (if resultsHash[k].slots[..] == results.slots[..] then 1 else 0)
    {
      var hRes := FindResults();
      if hRes == null {
        forall k | 0 <= k < resultsHash.Length && resultsHash[k] != null
          ensures resultsHash[k].slots[..] != results.slots[..]
        {
          assert Mirrors(k);
        }
        return false;
      }
      ghost var k0 :| 0 <= k0 < resultsHash.Length && resultsHash[k0] == hRes;
      hRes.IncCount();
      forall k | 0 <= k < resultsHash.Length && resultsHash[k] != null && resultsHash[k].slots[..] == results.slots[..]
        ensures k == k0
      {
        assert Mirrors(k) && Mirrors(k0);
        assert Unshared(table, k, k0);
      }
      return true;
    }

    /**
     * doOneExecution. The threads' concurrent calls are not modelled: each
     * thread `t`, running its operation on the freshly seeded store, writes
     * the outcome `observed[t]` into its slot; then the vector is checked.
     */
    method DoOneExecution(observed: seq<Outcome>) returns (linearizable: bool)
      requires Valid() && RunReady() && Filled(table) < RESULTS_HASH_SIZE && |observed| == THREADS
      modifies this`bank, results.slots, Entries()
      ensures Valid() && table == old(table) && unchanged(resultsHash)
      ensures results.slots[..] == AsVec(observed)
      ensures linearizable <==> AsVec(observed) in Keys(table)
      ensures forall k :: 0 <= k < resultsHash.Length && resultsHash[k] != null ==>
        resultsHash[k].count == old(resultsHash[k].count) + (if table[k] == Some(AsVec(observed)) then 1 else 0)
    {
      var b := new BankImpl(N, maxAmount);
      InitBank(b);
      StoreObserved(observed);
      linearizable := Verdict();
      forall k | 0 <= k < resultsHash.Length && resultsHash[k] != null
        ensures table[k] == Some(results.slots[..]) <==> resultsHash[k].slots[..] == results.slots[..]
      {
        assert Mirrors(k);
      }
    }

    /** Each thread's `results.set(i, …)` of its own outcome, after the threads have joined. */
    method StoreObserved(observed: seq<Outcome>)
      requires Shape() && |observed| == THREADS
      modifies results.slots
      ensures results.slots[..] == AsVec(observed)
    {
      for t := 0 to THREADS
        invariant forall t' :: 0 <= t' < t ==> results.slots[t'] == Some(observed[t'])
      {
        results.Set(t, observed[t]);
      }
      assert results.slots[..] == AsVec(observed);
    }

    /** doOneRun's EXECUTIONS loop, over the observed vectors; it stops at the first one no order explains. */
    method RunExecutions(observed: seq<seq<Outcome>>, ghost c0: seq<int>) returns (failed: Option<int>)
      requires Valid() && RunReady() && Filled(table) < RESULTS_HASH_SIZE
      requires forall e :: 0 <= e < |observed| ==> |observed[e]| == THREADS
      requires Tallied(c0, [])
      modifies this`bank, results.slots, Entries()
      ensures Valid() && table == old(table) && unchanged(resultsHash)
      ensures failed.None? <==> AllIn(observed, |observed|, Keys(table))
      ensures failed.Some? ==> 0 <= failed.value < |observed| && AsVec(observed[failed.value]) !in Keys(table)
      ensures failed.Some? ==> AllIn(observed, failed.value, Keys(table))
      ensures failed.Some? ==> Tallied(c0, observed[..failed.value + 1])
      ensures failed.None? ==> Tallied(c0, observed)
    {
      assert observed[..0] == [];
      for e := 0 to |observed|
        invariant Valid() && table == old(table) && unchanged(resultsHash)
        invariant AllIn(observed, e, Keys(table))
        invariant Tallied(c0, observed[..e])
      {
        var linearizable := ExecuteNext(observed, e, c0);
        if !linearizable {
          failed := Some(e);
          return;
        }
      }
      failed := None;
      assert observed[..|observed|] == observed;
    }

    /**
     * One pass of the EXECUTIONS loop: execution `e` runs, and the counts,
     * taken against the snapshot `c0`, now cover the executions up to `e`.
     */
    method ExecuteNext(observed: seq<seq<Outcome>>, e: int, ghost c0: seq<int>) returns (linearizable: bool)
      requires Valid() && RunReady() && Filled(table) < RESULTS_HASH_SIZE
      requires 0 <= e < |observed| && |observed[e]| == THREADS && Tallied(c0, observed[..e])
      modifies this`bank, results.slots, Entries()
      ensures Valid() && table == old(table) && unchanged(resultsHash)
      ensures linearizable <==> AsVec(observed[e]) in Keys(table)
      ensures Tallied(c0, observed[..e + 1])
    {
      linearizable := DoOneExecution(observed[e]);
      assert observed[..e + 1][..e] == observed[..e];
    }

    /** The count of each stored entry is its count in `c0` plus the executions among `obs` that produced its vector. */
    ghost predicate Tallied(c0: seq<int>, obs: seq<seq<Outcome>>)
      reads this`table, resultsHash, Entries()
    {
      forall k :: 0 <= k < resultsHash.Length && resultsHash[k] != null && k < |table| && table[k].Some? && k < |c0| ==>
        resultsHash[k].count == c0[k] + Occurrences(obs, table[k].value)
    }

    /** No stored entry has been counted yet, as right after the table is built. */
    ghost predicate Unseen()
      reads resultsHash, Entries()
    {
      forall k :: 0 <= k < resultsHash.Length && resultsHash[k] != null ==> resultsHash[k].count == 0
    }

    /** Before any execution, the counts are those of the all-zero snapshot. */
    lemma UnseenTallied()
      requires Unseen()
      ensures Tallied(NO_COUNTS, [])
    {
    }

    /** The count of each slot's entry, 0 for an empty slot. */
    ghost function CountsOf(s: seq<Results?>): (c: seq<int>)
      reads s
      ensures |c| == |s| && forall k :: 0 <= k < |s| && s[k] != null ==> c[k] == s[k].count
    {
      seq(|s|, k requires 0 <= k < |s| reads s => if s[k] != null then s[k].count else 0)
    }

    /** With every stored entry counted by the executions, the positive counts are the observed stored vectors. */
    lemma TalliedSeen(observed: seq<seq<Outcome>>)
      requires Valid() && Tallied(NO_COUNTS, observed)
      ensures Seen(table, CountsOf(resultsHash[..])) == |ObservedKeys(table, observed)|
    {
      var c := CountsOf(resultsHash[..]);
      forall k | 0 <= k < |table| && table[k].Some? ensures c[k] == Occurrences(observed, table[k].value) {
        assert Mirrors(k);
      }
      SeenObserved(table, c, observed);
    }

    /** When the table's vectors are the explained ones, vectors found in it are explained. */
    lemma ExplainedPrefix(observed: seq<seq<Outcome>>, n: int)
      requires RunReady() && 0 <= n <= |observed|
      requires forall v :: v in Keys(table) <==> Explained(v)
      requires AllIn(observed, n, Keys(table))
      ensures AllExplained(observed, n)
    {
      forall e | 0 <= e < n ensures Explained(AsVec(observed[e])) {
        assert AsVec(observed[e]) in Keys(table);
      }
    }

    /** The summary loop of doOneRun: how many vectors are stored and how many were observed. */
    method CountResults() returns (seen: int, total: int)
      requires Valid()
      ensures total == Filled(table) == |Keys(table)| && seen == Seen(table, CountsOf(resultsHash[..]))
      ensures 0 <= seen <= total
    {
      ghost var c := CountsOf(resultsHash[..]);
      seen, total := 0, 0;
      for k := 0 to resultsHash.Length
        invariant total == Filled(table[..k]) && seen == Seen(table[..k], c[..k])
        invariant 0 <= seen <= total
      {
        assert Mirrors(k);
        assert table[..k + 1][..k] == table[..k] && c[..k + 1][..k] == c[..k];
        var r := resultsHash[k];
        if r != null {
          total := total + 1;
          var c := r.GetCount();
          if c > 0 {
            seen := seen + 1;
          }
        }
      }
      assert table[..resultsHash.Length] == table && c[..resultsHash.Length] == c;
      FilledKeys(table);
    }

    /**
     * The do/while loop of doOneRun's transfer case: draw two run accounts
     * at a time until they differ.
     */
    method PickTransferPair(draws: seq<int>) returns (pair: Option<(int, int)>)
      requires runAccounts.Length == RUN_ACCOUNTS
      requires forall k :: 0 <= k < |draws| ==> 0 <= draws[k] < RUN_ACCOUNTS
      ensures pair == FirstUnequalPair(runAccounts[..], draws)
    {
      var d := 0;
      while true
        invariant 0 <= d <= |draws|
        invariant FirstUnequalPair(runAccounts[..], draws[d..]) == FirstUnequalPair(runAccounts[..], draws)
        decreases |draws| - d
      {
        if |draws| - d < 2 {
          return None;
        }
        var i := runAccounts[draws[d]];
        var j := runAccounts[draws[d + 1]];
        assert draws[d..][2..] == draws[d + 2..];
        d := d + 2;
        if i != j {
          return Some((i, j));
        }
      }
    }

    /** doOneRun's operation switch, one thread at a time; false when the account draws run out. */
    method ChooseOps(choices: seq<OpChoice>) returns (ok: bool)
      requires runAccounts.Length == RUN_ACCOUNTS && runOps.Length == THREADS
      requires |choices| == THREADS && forall t :: 0 <= t < THREADS ==> ChoiceIn(choices[t], RUN_ACCOUNTS)
      modifies runOps
      ensures ok <==> forall t :: 0 <= t < THREADS ==> ChosenOp(runAccounts[..], choices[t]).Some?
      ensures ok ==> forall t :: 0 <= t < THREADS ==> runOps[t] == ChosenOp(runAccounts[..], choices[t]).value
    {
      for threadNo := 0 to THREADS
        invariant forall t :: 0 <= t < threadNo ==> ChosenOp(runAccounts[..], choices[t]) == Some(runOps[t])
      {
        var c := choices[threadNo];
        var op: Operation;
        if c.kind == 1 {
          op := GetTotalAmount;
        } else if c.accountDraws == [] {
          return false;
        } else if c.kind == 0 {
          op := GetAmount(runAccounts[c.accountDraws[0]]);
        } else if c.kind == 2 {
          op := Deposit(runAccounts[c.accountDraws[0]], c.amount);
        } else if c.kind == 3 {
          op := Withdraw(runAccounts[c.accountDraws[0]], c.amount);
        } else {
          var pair := PickTransferPair(c.accountDraws);
          if pair.None? {
            return false;
          }
          op := Transfer(pair.value.0, pair.value.1, c.amount);
        }
        runOps[threadNo] := op;
      }
      return true;
    }

    /**
     * doOneRun's choice of the run's accounts: for each one, draw accounts
     * until one differs from those already chosen, then give it its base
     * amount. The accounts are the first RUN_ACCOUNTS distinct draws; false
     * when the draws run out first.
     */
    method ChooseRunAccounts(draws: seq<int>, amounts: seq<int>) returns (ok: bool)
      requires runAccounts.Length == RUN_ACCOUNTS && baseAmount.Length == RUN_ACCOUNTS && runAccounts != baseAmount
      requires forall k :: 0 <= k < |draws| ==> 0 <= draws[k] < N
      requires |amounts| == RUN_ACCOUNTS
      modifies runAccounts, baseAmount
      ensures ok <==> |Dedup(draws)| >= RUN_ACCOUNTS
      ensures ok ==> runAccounts[..] == Dedup(draws)[..RUN_ACCOUNTS] && baseAmount[..] == amounts
    {
      var d := 0;
      for i := 0 to RUN_ACCOUNTS
        invariant d <= |draws| && runAccounts[..i] == Dedup(draws[..d]) && baseAmount[..i] == amounts[..i]
      {
        var isNew := false;
        while !isNew
          invariant d <= |draws| && baseAmount[..i] == amounts[..i]
          invariant !isNew ==> runAccounts[..i] == Dedup(draws[..d])
          invariant isNew ==> runAccounts[..i + 1] == Dedup(draws[..d])
          decreases |draws| - d
        {
          if d == |draws| {
            assert draws[..d] == draws;
            return false;
          }
          assert draws[..d + 1][..d] == draws[..d];
          runAccounts[i] := draws[d];
          d := d + 1;
          isNew := true;
          for j := 0 to i
            invariant isNew <==> forall j' :: 0 <= j' < j ==> runAccounts[j'] != runAccounts[i]
          {
            if runAccounts[i] == runAccounts[j] {
              isNew := false;
            }
          }
          assert isNew <==> runAccounts[i] !in runAccounts[..i];
          assert runAccounts[..i + 1] == runAccounts[..i] + [runAccounts[i]];
        }
        baseAmount[i] := amounts[i];
      }
      ok := true;
      DedupPrefix(draws, d);
    }

    /** The selection part of doOneRun: the run's accounts with their base amounts, then each thread's operation. */
    method ChooseRun(accountDraws: seq<int>, amounts: seq<int>, choices: seq<OpChoice>) returns (ok: bool)
      requires Shape()
      requires forall k :: 0 <= k < |accountDraws| ==> 0 <= accountDraws[k] < N
      requires |amounts| == RUN_ACCOUNTS && forall k :: 0 <= k < RUN_ACCOUNTS ==> 1 <= amounts[k] <= maxAmount
      requires |choices| == THREADS && forall t :: 0 <= t < THREADS ==> ChoiceIn(choices[t], RUN_ACCOUNTS)
      modifies runAccounts, baseAmount, runOps
      ensures ok <==> DrawsSuffice(accountDraws, choices)
      ensures ok ==> && RunReady()
                     && runAccounts[..] == Dedup(accountDraws)[..RUN_ACCOUNTS] && baseAmount[..] == amounts
                     && forall t :: 0 <= t < THREADS ==> runOps[t] == ChosenOp(runAccounts[..], choices[t]).value
    {
      ok := ChooseRunAccounts(accountDraws, amounts);
      if !ok {
        return;
      }
      ok := ChooseOps(choices);
      if !ok {
        return;
      }
      ghost var accounts := runAccounts[..];
      assert Distinct(accounts) && forall i :: 0 <= i < RUN_ACCOUNTS ==> 0 <= accounts[i] < N by {
        DedupFacts(accountDraws);
        forall i | 0 <= i < RUN_ACCOUNTS ensures 0 <= accounts[i] < N {
          assert accounts[i] in Dedup(accountDraws);
        }
      }
      forall t | 0 <= t < THREADS ensures IndicesIn(runOps[t], N) {
        ChosenOpIndices(accounts, choices[t], N);
      }
    }

    /**
     * `Arrays.fill(resultsHash, null)` and `serialScan(0, 0, new int[THREADS])`:
     * the table then holds exactly the vectors of the thread orders, one per
     * order at most.
     */
    method ScanAll()
      requires Valid() && RunReady()
      modifies this`bank, this`leaves, this`table, resultsHash, results.slots
      ensures Valid() && Recorded() && leaves == Ext([], THREADS) && |leaves| == Fact(THREADS)
      ensures forall v :: v in Keys(table) <==> Explained(v)
      ensures forall o :: o in Entries() ==> fresh(o) && o.count == 0
      ensures Unseen()
    {
      Clear();
      assert Admissible([]) == {};
      var order := new int[THREADS];
      assert order[..0] == [];
      MaskEmpty();
      AllPermutations(THREADS);
      assert Fact(THREADS) == 24;
      SerialScan(0, 0, order);
      AdmissibleOfAll(Seed(), runOps[..], maxAmount);
    }

    /**
     * The rest of doOneRun once the table is built: check every execution's
     * vector, then count the stored and the observed vectors.
     */
    method CheckAll(observed: seq<seq<Outcome>>) returns (r: RunResult)
      requires Valid() && Recorded() && |leaves| == Fact(THREADS)
      requires forall v :: v in Keys(table) <==> Explained(v)
      requires forall e :: 0 <= e < |observed| ==> |observed[e]| == THREADS
      requires Unseen()
      modifies this`bank, results.slots, Entries()
      ensures Valid() && Recorded() && table == old(table) && leaves == old(leaves)
      ensures !r.DrawsExhausted?
      ensures r.NonLinearizable? ==>
        && 0 <= r.execution < |observed|
        && !Explained(AsVec(observed[r.execution]))
        && AllExplained(observed, r.execution)
      ensures r.Completed? ==>
        && AllExplained(observed, |observed|)
        && r.total == |Keys(table)| && r.seen == |ObservedKeys(table, observed)|
        && 0 <= r.seen <= r.total <= Fact(THREADS)
    {
      UnseenTallied();
      var failed := RunExecutions(observed, NO_COUNTS);
      if failed.Some? {
        ExplainedPrefix(observed, failed.value);
        return NonLinearizable(failed.value);
      }
      r := Summarize(observed);
    }

    /**
     * doOneRun's summary once every execution passed: how many vectors are
     * stored (one per distinct vector of the thread orders) and how many of
     * them some execution produced.
     */
    method Summarize(observed: seq<seq<Outcome>>) returns (r: RunResult)
      requires Valid() && RunReady() && Filled(table) <= Fact(THREADS)
      requires forall v :: v in Keys(table) <==> Explained(v)
      requires AllIn(observed, |observed|, Keys(table))
      requires Tallied(NO_COUNTS, observed)
      ensures r.Completed? && AllExplained(observed, |observed|)
      ensures r.total == |Keys(table)| && r.seen == |ObservedKeys(table, observed)|
      ensures 0 <= r.seen <= r.total <= Fact(THREADS)
    {
      ExplainedPrefix(observed, |observed|);
      var seen, total := CountResults();
      TalliedSeen(observed);
      return Completed(seen, total);
    }

    /**
     * doOneRun: choose the run, record the vector of every thread order,
     * check every execution's vector and count the vectors. An execution
     * fails exactly when no thread order explains its vector.
     */
    method DoOneRun(accountDraws: seq<int>, amounts: seq<int>, choices: seq<OpChoice>, observed: seq<seq<Outcome>>)
      returns (r: RunResult)
      requires Valid()
      requires forall k :: 0 <= k < |accountDraws| ==> 0 <= accountDraws[k] < N
      requires |amounts| == RUN_ACCOUNTS && forall k :: 0 <= k < RUN_ACCOUNTS ==> 1 <= amounts[k] <= maxAmount
      requires |choices| == THREADS && forall t :: 0 <= t < THREADS ==> ChoiceIn(choices[t], RUN_ACCOUNTS)
      requires forall e :: 0 <= e < |observed| ==> |observed[e]| == THREADS
      modifies this`bank, this`leaves, this`table, resultsHash, results.slots, runAccounts, baseAmount, runOps
      ensures Valid()
      ensures r.DrawsExhausted? <==> !DrawsSuffice(accountDraws, choices)
      ensures !r.DrawsExhausted? ==>
        && RunReady() && leaves == Ext([], THREADS)
        && forall v :: v in Keys(table) <==> Explained(v)
      ensures r.NonLinearizable? ==>
        && 0 <= r.execution < |observed|
        && !Explained(AsVec(observed[r.execution]))
        && AllExplained(observed, r.execution)
      ensures r.Completed? ==>
        && AllExplained(observed, |observed|)
        && r.total == |Keys(table)| && r.seen == |ObservedKeys(table, observed)|
        && 0 <= r.seen <= r.total <= Fact(THREADS)
    {
      var ok := ChooseRun(accountDraws, amounts, choices);
      if !ok {
        return DrawsExhausted;
      }
      ScanAll();
      r := CheckAll(observed);
    }
  }
}
