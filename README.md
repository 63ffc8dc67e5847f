# Fine-grained bank and its linearizability test, in Dafny

The system is a bank with a fixed number of accounts. Each account has its own
re-entrant lock. It offers `getAmount`, `getTotalAmount`, `deposit`, `withdraw`
and `transfer`. Single-account operations lock one account, `getTotalAmount`
locks all of them in ascending order, and `transfer` locks its two accounts in
ascending order. A linearizability test drives the bank from four threads. For
each run it:

- picks three distinct run accounts and their base amounts;
- gives every thread one random operation on those accounts;
- enumerates every sequential order of the four operations (`serialScan`);
- stores the outcome vector of each order in an open-addressing hash table of
  `Results` objects;
- runs many concurrent executions, each of which must produce a vector that is
  in the table (`findResults`).

A vector that is not in the table is a non-linearizable execution.

The model is split into these modules:

- `Ledger`: the sequential meaning of every bank operation on a sequence of
  balances, as a pair of outcome and new balances (`Step`). Each exception
  becomes an outcome kind.
- `LockOrder`: ghost lock/unlock traces and the discipline the bank follows.
  Locks are taken in ascending order, released in descending order, and every
  lock taken is released.
- `Bank`: class `BankImpl`, whose balance array is updated in place. Every
  method is proved to take exactly the `Ledger` step and to append exactly its
  lock segment to the ghost trace.
- `Operations`: the `Operation` values the threads run. `Apply` gives their
  meaning, and `Invoke` runs one against a `BankImpl`.
- `ResultsVector`: class `Results`, an outcome vector with an observation
  count. Equality and hash use the slots only.
- `Permutations`: the sequence of complete thread orders in the order
  `serialScan` visits them (`Ext`). It is proved to list every permutation
  exactly once, 4! of them for four threads.
- `OpenAddressing`: the results table as a value. It covers probing from the
  masked hash downwards with wrap-around, lookup correctness, and insertion
  preserving the probe chains.
- `Replay`: sequential replay of the threads' operations in a given order on a
  seeded store.
- `Draws`: how `doOneRun` turns random draws into amounts, run accounts and
  operations.
- `Linearizability`: class `LinearizabilityTest`. It has the fixed arrays of
  the source (`runAccounts`, `baseAmount`, `runOps`, `resultsHash`), the
  current vector `results` and the store `bank`. Its methods follow the Java
  methods, including the recursive `serialScan`.

The main results:

- `serialScan` leaves the table holding exactly the outcome vectors of all
  thread orders, in at most 24 slots.
- An execution is accepted exactly when some sequential order of the four
  operations yields its outcome vector.
- A rejected execution has no such order.

## Model

| member | source | states |
|---|---|---|
| Ledger.SumUpdate | src/main/java/ru/ifmo/pp/fgb/BankImpl.java:61-65 | the running total of the balances changes by exactly `d` when one balance changes by `d` |
| Ledger.SumNonNegative | src/main/java/ru/ifmo/pp/fgb/BankImpl.java:61-65 | a total of balances that are all in range is never negative |
| Ledger.GetAmountFacts | src/main/java/ru/ifmo/pp/fgb/BankImpl.java:43-50 | getAmount returns the account's balance and changes no balance |
| Ledger.GetTotalAmountFacts | src/main/java/ru/ifmo/pp/fgb/BankImpl.java:56-72 | getTotalAmount returns the sum of all balances, which is non-negative, and changes nothing |
| Ledger.DepositFacts | src/main/java/ru/ifmo/pp/fgb/BankImpl.java:78-91 | InvalidArgument exactly for a non-positive amount; otherwise Overflow exactly when the amount or the new balance would exceed MAX_AMOUNT; it fails exactly in those cases, so every other call succeeds; a failure changes nothing; a success raises only that account by the amount, returns the new balance, raises the total by the amount and keeps balances in range |
| Ledger.WithdrawFacts | src/main/java/ru/ifmo/pp/fgb/BankImpl.java:97-110 | InvalidArgument exactly for a non-positive amount; otherwise Underflow exactly when the balance is smaller than the amount; it fails exactly in those cases, so every other call succeeds; a failure changes nothing; a success lowers only that account, returns the new balance, lowers the total by the amount and keeps balances in range |
| Ledger.TransferFacts | src/main/java/ru/ifmo/pp/fgb/BankImpl.java:124-136 | checks in source order: InvalidArgument for a non-positive amount or equal accounts, then Underflow when `from` holds less than the amount, then Overflow at `to`; a failure changes nothing; a success moves exactly the amount, touches no other account, keeps the total and keeps balances in range |
| Ledger.StepArithmeticFits | src/main/java/ru/ifmo/pp/fgb/BankImpl.java:84-133 | with balances in range and MAX_AMOUNT at most half of `Long.MAX_VALUE`, every sum and difference deposit, withdraw and transfer evaluate fits in a `long`, for any `long` amount |
| Ledger.SumAtMost | src/main/java/ru/ifmo/pp/fgb/BankImpl.java:61-65 | with every balance in `[0, MAX_AMOUNT]`, the total lies between 0 and the number of accounts times MAX_AMOUNT |
| Ledger.TotalFitsLong | src/main/java/ru/ifmo/pp/fgb/BankImpl.java:61-65 | when the number of accounts times MAX_AMOUNT fits in a `long`, so does every partial sum getTotalAmount holds |
| LockOrder.HeldAfterConcat | src/main/java/ru/ifmo/pp/fgb/BankImpl.java:159-165 | replaying two traces one after the other gives the locks held after their concatenation |
| LockOrder.MatchedConcat | src/main/java/ru/ifmo/pp/fgb/BankImpl.java:159-165 | appending a balanced segment to a balanced trace keeps it balanced |
| LockOrder.HeldAfterLockUp | src/main/java/ru/ifmo/pp/fgb/BankImpl.java:57-59 | locking accounts 0..n-1 adds each of them once to the held locks |
| LockOrder.HeldAfterUnlockDown | src/main/java/ru/ifmo/pp/fgb/BankImpl.java:68-70 | unlocking accounts n-1..0 removes each of them once |
| LockOrder.SingleSegmentDiscipline | src/main/java/ru/ifmo/pp/fgb/BankImpl.java:44-49 | the lock/unlock pair of a single-account operation is balanced, ordered and two-phase |
| LockOrder.TransferSegmentDiscipline | src/main/java/ru/ifmo/pp/fgb/BankImpl.java:117-144 | transfer takes the smaller index first and releases the larger first; the segment is balanced and two-phase in all cases, and strictly ordered when the accounts differ |
| LockOrder.TotalSegmentDiscipline | src/main/java/ru/ifmo/pp/fgb/BankImpl.java:57-70 | locking all accounts upwards and then unlocking them downwards is balanced, strictly ascending on acquire, strictly descending on release, and two-phase |
| Bank.BankImpl.constructor | src/main/java/ru/ifmo/pp/fgb/BankImpl.java:24-29 | a fresh store of `n` accounts, all zero, with an empty lock trace |
| Bank.BankImpl.GetNumberOfAccounts | src/main/java/ru/ifmo/pp/fgb/BankImpl.java:35-37 | returns the number of accounts |
| Bank.BankImpl.GetAmount | src/main/java/ru/ifmo/pp/fgb/BankImpl.java:43-50 | takes exactly the getAmount step on the balances and appends lock then unlock of that account to the trace |
| Bank.BankImpl.GetTotalAmount | src/main/java/ru/ifmo/pp/fgb/BankImpl.java:56-72 | returns the sum of the balances, changes none, and appends locks 0..n-1 then unlocks n-1..0 |
| Bank.BankImpl.Deposit | src/main/java/ru/ifmo/pp/fgb/BankImpl.java:78-91 | takes exactly the deposit step, including both error paths, and keeps every balance in range and every lock released |
| Bank.BankImpl.Withdraw | src/main/java/ru/ifmo/pp/fgb/BankImpl.java:97-110 | takes exactly the withdraw step, including both error paths, and keeps every balance in range and every lock released |
| Bank.BankImpl.Transfer | src/main/java/ru/ifmo/pp/fgb/BankImpl.java:116-147 | takes exactly the transfer step with its four checks in order, and appends the two locks in ascending and the two unlocks in descending index order |
| Operations.Apply | src/test/java/ru/ifmo/pp/fgb/LinearizabilityTest.java:113 | an operation keeps the number of accounts |
| Operations.ApplyFacts | src/test/java/ru/ifmo/pp/fgb/LinearizabilityTest.java:113 | every operation keeps balances in range, changes nothing when it fails, and changes the total by exactly its net amount |
| Operations.Invoke | src/test/java/ru/ifmo/pp/fgb/LinearizabilityTest.java:113 | running an operation on the store object takes exactly its `Apply` step, with an exception mapped to its outcome kind |
| ResultsVector.Hash | src/test/java/ru/ifmo/pp/fgb/Results.java:43-45 | the hash is a 32-bit value |
| ResultsVector.Results.constructor | src/test/java/ru/ifmo/pp/fgb/Results.java:14-16 | `n` empty slots in new storage, with count 0 |
| ResultsVector.Results.Copy | src/test/java/ru/ifmo/pp/fgb/Results.java:18-20 | the same slots in new storage, with count 0 |
| ResultsVector.Results.Set | src/test/java/ru/ifmo/pp/fgb/Results.java:22-24 | slot `i` holds the value and no other slot changes |
| ResultsVector.Results.IncCount | src/test/java/ru/ifmo/pp/fgb/Results.java:26-28 | the count goes up by one and the slots are untouched |
| ResultsVector.Results.GetCount | src/test/java/ru/ifmo/pp/fgb/Results.java:30-32 | returns the count |
| ResultsVector.Results.Equals | src/test/java/ru/ifmo/pp/fgb/Results.java:35-40 | true exactly when the other object exists and has equal slots; the count takes no part |
| ResultsVector.Results.HashCode | src/test/java/ru/ifmo/pp/fgb/Results.java:43-45 | a 32-bit value read from the slots alone |
| ResultsVector.EqualsIsEquivalence | src/test/java/ru/ifmo/pp/fgb/Results.java:35-40 | equality is reflexive, symmetric and transitive |
| ResultsVector.EqualsImpliesSameHash | src/test/java/ru/ifmo/pp/fgb/Results.java:35-45 | equal vectors have equal hash codes |
| ResultsVector.CopyIsIndependent | src/test/java/ru/ifmo/pp/fgb/Results.java:18-24 | after `set` on the original, the copy keeps the old slots; the two then differ exactly when the slot value changed |
| Permutations.PartialExtend | src/test/java/ru/ifmo/pp/fgb/LinearizabilityTest.java:117-120 | placing a free thread keeps the prefix a repetition-free order |
| Permutations.DistinctConcat | src/test/java/ru/ifmo/pp/fgb/LinearizabilityTest.java:117-121 | concatenating two repetition-free sequences with no common element stays repetition-free |
| Permutations.ExtShape | src/test/java/ru/ifmo/pp/fgb/LinearizabilityTest.java:109-122 | every order the scan completes from a prefix is a permutation extending that prefix |
| Permutations.ExtUpToShape | src/test/java/ru/ifmo/pp/fgb/LinearizabilityTest.java:117-121 | the orders completed by the first `j` loop iterations are permutations extending the prefix, with next thread below `j` |
| Permutations.ExtDistinct | src/test/java/ru/ifmo/pp/fgb/LinearizabilityTest.java:109-122 | the scan never completes the same order twice |
| Permutations.ExtUpToDistinct | src/test/java/ru/ifmo/pp/fgb/LinearizabilityTest.java:117-121 | the first `j` loop iterations complete no order twice |
| Permutations.ExtComplete | src/test/java/ru/ifmo/pp/fgb/LinearizabilityTest.java:109-122 | every permutation extending the prefix is completed by the scan |
| Permutations.ExtUpToIncludes | src/test/java/ru/ifmo/pp/fgb/LinearizabilityTest.java:117-121 | the first `k` iterations include every completion of placing a free thread below `k` next |
| Permutations.FreeRemoveLast | src/test/java/ru/ifmo/pp/fgb/LinearizabilityTest.java:118 | placing thread `x` removes it from the free threads below `j`, if it is below `j` |
| Permutations.FreeAll | src/test/java/ru/ifmo/pp/fgb/LinearizabilityTest.java:118 | a prefix of length `m` leaves `n - m` free threads |
| Permutations.FreeEmpty | src/test/java/ru/ifmo/pp/fgb/LinearizabilityTest.java:118 | with nothing placed, all `j` threads below `j` are free |
| Permutations.ExtCount | src/test/java/ru/ifmo/pp/fgb/LinearizabilityTest.java:109-122 | from a prefix of length `m` the scan completes `(n - m)!` orders |
| Permutations.ExtUpToCount | src/test/java/ru/ifmo/pp/fgb/LinearizabilityTest.java:117-121 | the first `j` iterations complete (free threads below `j`) × `(n - m - 1)!` orders |
| Permutations.ExtUpToGrows | src/test/java/ru/ifmo/pp/fgb/LinearizabilityTest.java:117-121 | later iterations never complete fewer orders in total |
| Permutations.ExtUpToStep | src/test/java/ru/ifmo/pp/fgb/LinearizabilityTest.java:117-121 | one loop iteration adds the completions of placing `j` when `j` is free, and nothing otherwise |
| Permutations.AllPermutations | src/test/java/ru/ifmo/pp/fgb/LinearizabilityTest.java:109-122 | from the empty prefix the scan visits exactly the permutations of the threads, each once, `n!` in all |
| OpenAddressing.HomeIndex | src/test/java/ru/ifmo/pp/fgb/LinearizabilityTest.java:144 | masking the hash with `RESULTS_HASH_SIZE - 1` gives a slot of the table |
| OpenAddressing.StopDist | src/test/java/ru/ifmo/pp/fgb/LinearizabilityTest.java:146-158 | the number of probe steps until the first empty slot or equal key, and no such slot before it; none within one lap only if every slot is taken by another key |
| OpenAddressing.ProbeHome | src/test/java/ru/ifmo/pp/fgb/LinearizabilityTest.java:144 | probe step 0 is the home slot |
| OpenAddressing.ProbeStep | src/test/java/ru/ifmo/pp/fgb/LinearizabilityTest.java:155-157 | the source's `if (hIndex == 0) hIndex = SIZE; hIndex--` is one probe step |
| OpenAddressing.ProbeDist | src/test/java/ru/ifmo/pp/fgb/LinearizabilityTest.java:155-157 | every slot is reached from a home slot after a number of steps below the table size |
| OpenAddressing.ProbeInjective | src/test/java/ru/ifmo/pp/fgb/LinearizabilityTest.java:155-157 | within one lap the probe never visits a slot twice |
| OpenAddressing.EmptySlotExists | src/test/java/ru/ifmo/pp/fgb/LinearizabilityTest.java:146-148 | a table that is not full has an empty slot |
| OpenAddressing.FilledUpdate | src/test/java/ru/ifmo/pp/fgb/LinearizabilityTest.java:150 | storing into an empty slot adds one filled slot |
| OpenAddressing.FilledKeys | src/test/java/ru/ifmo/pp/fgb/LinearizabilityTest.java:89-91 | with no vector stored twice, the filled slots are exactly as many as the distinct stored vectors |
| OpenAddressing.FilledEmpty | src/test/java/ru/ifmo/pp/fgb/LinearizabilityTest.java:82 | a table of empty slots has none filled |
| OpenAddressing.ProbeStops | src/test/java/ru/ifmo/pp/fgb/LinearizabilityTest.java:146-158 | the probe loop ends within one lap while the table has an empty slot |
| OpenAddressing.LookupCorrect | src/test/java/ru/ifmo/pp/fgb/LinearizabilityTest.java:165-172 | the probe stops on an equal key exactly when the table holds the key, and on an empty slot exactly when it does not |
| OpenAddressing.StoredKeyFound | src/test/java/ru/ifmo/pp/fgb/LinearizabilityTest.java:165-172 | a stored key is found where its probe stops |
| OpenAddressing.InsertKeepsChains | src/test/java/ru/ifmo/pp/fgb/LinearizabilityTest.java:148-151 | storing a key where its probe stopped keeps every key reachable from its home slot |
| OpenAddressing.InsertCorrect | src/test/java/ru/ifmo/pp/fgb/LinearizabilityTest.java:148-151 | storing a missing key where its probe stopped keeps the table good, adds exactly that key and fills one more slot |
| OpenAddressing.EmptyTable | src/test/java/ru/ifmo/pp/fgb/LinearizabilityTest.java:82 | the cleared table is good, holds no key and has no slot filled |
| Replay.Seeded | src/test/java/ru/ifmo/pp/fgb/LinearizabilityTest.java:137-141 | seeding keeps the number of accounts |
| Replay.BalancesAfter | src/test/java/ru/ifmo/pp/fgb/LinearizabilityTest.java:112-113 | replaying operations keeps the number of accounts |
| Replay.Play | src/test/java/ru/ifmo/pp/fgb/LinearizabilityTest.java:112-113 | replaying operations into a vector keeps its length |
| Replay.AdmissibleConcat | src/test/java/ru/ifmo/pp/fgb/LinearizabilityTest.java:117-121 | the vectors of two lists of orders together are the union of each list's vectors |
| Replay.AdmissibleOfAll | src/test/java/ru/ifmo/pp/fgb/LinearizabilityTest.java:109-122 | the vectors of the scanned orders are exactly the vectors of some permutation of the threads |
| Replay.PlaySlot | src/test/java/ru/ifmo/pp/fgb/LinearizabilityTest.java:112-113 | the slot of the `k`-th thread in the order holds that operation's outcome on the balances left by the `k` before it |
| Replay.PlayKeeps | src/test/java/ru/ifmo/pp/fgb/LinearizabilityTest.java:112-113 | a thread not in the order keeps its slot |
| Replay.PlayOverwrites | src/test/java/ru/ifmo/pp/fgb/LinearizabilityTest.java:112-113 | a thread in the order has the same slot whatever the vector held before |
| Replay.PlayPermutation | src/test/java/ru/ifmo/pp/fgb/LinearizabilityTest.java:112-113 | for a complete order the previous contents of the vector do not matter |
| Replay.PermutationCovers | src/test/java/ru/ifmo/pp/fgb/LinearizabilityTest.java:112-113 | a complete order names every thread |
| Replay.FreeMissing | src/test/java/ru/ifmo/pp/fgb/LinearizabilityTest.java:118 | a thread missing from the order counts as free |
| Replay.SeededContents | src/test/java/ru/ifmo/pp/fgb/LinearizabilityTest.java:137-141 | after initBank each run account holds its base amount and every other account is unchanged |
| Draws.NextRndAmount | src/test/java/ru/ifmo/pp/fgb/LinearizabilityTest.java:194-197 | a valid amount in `[1, MAX_AMOUNT]`, from which both draws can be read back |
| Draws.AmountOrInvalid | src/test/java/ru/ifmo/pp/fgb/LinearizabilityTest.java:180-192 | the valid amount unless the percent draw is 0; then one of the six invalid amounts, each at most 0 or above MAX_AMOUNT |
| Draws.InvalidAmountFails | src/test/java/ru/ifmo/pp/fgb/LinearizabilityTest.java:180-190 | an invalid amount makes deposit, withdraw and transfer fail with the balances unchanged |
| Draws.DedupFacts | src/test/java/ru/ifmo/pp/fgb/LinearizabilityTest.java:42-50 | the accepted account draws are distinct and are exactly the values drawn |
| Draws.DedupPrefix | src/test/java/ru/ifmo/pp/fgb/LinearizabilityTest.java:42-50 | the accounts accepted from a prefix of the draws are a prefix of those accepted from all draws |
| Draws.FirstUnequalPair | src/test/java/ru/ifmo/pp/fgb/LinearizabilityTest.java:69-74 | a transfer pair names two different run accounts |
| Draws.ChosenOp | src/test/java/ru/ifmo/pp/fgb/LinearizabilityTest.java:53-81 | each kind 0..4 gives getAmount, getTotalAmount, deposit, withdraw or transfer on run accounts with the drawn amount; no operation only when the account draws run out |
| Draws.ChosenOpIndices | src/test/java/ru/ifmo/pp/fgb/LinearizabilityTest.java:176-178 | a chosen operation names only existing accounts |
| Linearizability.BitOr | src/test/java/ru/ifmo/pp/fgb/LinearizabilityTest.java:118-120 | `used \| (1 << j)` has bit `k` set exactly when `used` had it or `k == j` |
| Linearizability.MaskAdd | src/test/java/ru/ifmo/pp/fgb/LinearizabilityTest.java:118-120 | the mask passed to the recursive call marks exactly the threads in the extended prefix |
| Linearizability.MaskEmpty | src/test/java/ru/ifmo/pp/fgb/LinearizabilityTest.java:83 | mask 0 marks no thread, matching the empty prefix |
| Linearizability.AsVec | src/test/java/ru/ifmo/pp/fgb/LinearizabilityTest.java:216 | every slot of a completed execution holds its thread's outcome |
| Linearizability.LinearizabilityTest.constructor | src/test/java/ru/ifmo/pp/fgb/LinearizabilityTest.java:26-32 | the field initialisers: an empty table that is good, an empty vector, no store |
| Linearizability.LinearizabilityTest.Clear | src/test/java/ru/ifmo/pp/fgb/LinearizabilityTest.java:82 | every slot is null; the table holds nothing and stays good |
| Linearizability.LinearizabilityTest.ProbeSlot | src/test/java/ru/ifmo/pp/fgb/LinearizabilityTest.java:144-158 | the slot found is empty exactly when the vector is not stored, and otherwise holds an equal vector; storing there keeps the table good and adds exactly that vector |
| Linearizability.LinearizabilityTest.FindOrCreateResults | src/test/java/ru/ifmo/pp/fgb/LinearizabilityTest.java:143-160 | returns an entry equal to the current vector, and every entry afterwards is an old one or a fresh one with count 0; when the vector was stored nothing changes; otherwise a fresh copy with count 0 goes into the empty slot where the probe stopped, no other slot changes, the stored vectors gain exactly that one and one more slot is filled |
| Linearizability.LinearizabilityTest.StoreCopy | src/test/java/ru/ifmo/pp/fgb/LinearizabilityTest.java:149-150 | the empty slot now holds a fresh copy with count 0, and no other slot changes |
| Linearizability.LinearizabilityTest.FindResults | src/test/java/ru/ifmo/pp/fgb/LinearizabilityTest.java:162-174 | returns null exactly when the vector is not stored, and otherwise an equal entry of the table |
| Linearizability.LinearizabilityTest.InitBank | src/test/java/ru/ifmo/pp/fgb/LinearizabilityTest.java:137-141 | installs the store and leaves exactly the seed balances in it |
| Linearizability.LinearizabilityTest.RunInOrder | src/test/java/ru/ifmo/pp/fgb/LinearizabilityTest.java:110-113 | the vector afterwards is exactly the replay of the operations in the given order on the seeded store |
| Linearizability.LinearizabilityTest.RecordOrder | src/test/java/ru/ifmo/pp/fgb/LinearizabilityTest.java:114 | the table then holds exactly the vectors of the visited orders plus this one, in no more slots than orders |
| Linearizability.LinearizabilityTest.SerialScan | src/test/java/ru/ifmo/pp/fgb/LinearizabilityTest.java:109-122 | visits exactly the completions of the prefix, in scan order; afterwards the table holds exactly the vectors of all orders visited |
| Linearizability.LinearizabilityTest.ScanStep | src/test/java/ru/ifmo/pp/fgb/LinearizabilityTest.java:117-121 | one loop iteration visits the completions of placing `j` exactly when `j` is free |
| Linearizability.LinearizabilityTest.Place | src/test/java/ru/ifmo/pp/fgb/LinearizabilityTest.java:119-120 | visits exactly the completions of the prefix extended by `j` |
| Linearizability.LinearizabilityTest.Verdict | src/test/java/ru/ifmo/pp/fgb/LinearizabilityTest.java:128-134 | linearizable exactly when the vector is stored; then the entry equal to it has its count raised by one and no other entry's count changes; the table is untouched |
| Linearizability.LinearizabilityTest.DoOneExecution | src/test/java/ru/ifmo/pp/fgb/LinearizabilityTest.java:124-135 | the current vector holds the observed outcomes; the execution is accepted exactly when that vector is stored; the count of the entry equal to it rises by one, every other count stays, and the table is untouched |
| Linearizability.LinearizabilityTest.StoreObserved | src/test/java/ru/ifmo/pp/fgb/LinearizabilityTest.java:214-218 | each thread's slot holds its observed outcome |
| Linearizability.LinearizabilityTest.RunExecutions | src/test/java/ru/ifmo/pp/fgb/LinearizabilityTest.java:84-86 | no failure exactly when every observed vector is stored; a failure names the first execution whose vector is not stored, all earlier ones being stored; each entry's count has grown by the number of executions, up to the one that stopped the loop, that produced its vector |
| Linearizability.LinearizabilityTest.ExecuteNext | src/test/java/ru/ifmo/pp/fgb/LinearizabilityTest.java:84-86 | one iteration: accepted exactly when the execution's vector is stored; the counts afterwards include this execution |
| Linearizability.LinearizabilityTest.CountResults | src/test/java/ru/ifmo/pp/fgb/LinearizabilityTest.java:87-95 | `total` is the number of filled slots, which equals the number of distinct stored vectors; `seen` is the number of stored entries with a positive count; `seen <= total` |
| Linearizability.LinearizabilityTest.TalliedSeen | src/test/java/ru/ifmo/pp/fgb/LinearizabilityTest.java:87-95 | when every count is the number of executions that produced its vector, the entries with a positive count are exactly as many as the stored vectors some execution produced |
| Linearizability.LinearizabilityTest.ExplainedPrefix | src/test/java/ru/ifmo/pp/fgb/LinearizabilityTest.java:84-86 | once the table holds exactly the explainable vectors, executions whose vectors are stored are explained by some thread order |
| Linearizability.LinearizabilityTest.UnseenTallied | src/test/java/ru/ifmo/pp/fgb/LinearizabilityTest.java:82-83 | when every entry has count 0, the counts are the all-zero snapshot plus no execution |
| Linearizability.LinearizabilityTest.CountsOf | src/test/java/ru/ifmo/pp/fgb/LinearizabilityTest.java:92 | one count per slot, equal to that entry's `getCount()` wherever the slot is not null |
| Linearizability.SeenObserved | src/test/java/ru/ifmo/pp/fgb/LinearizabilityTest.java:89-93 | counting the slots with a positive count gives the number of stored vectors that occur among the observed executions |
| Linearizability.LinearizabilityTest.PickTransferPair | src/test/java/ru/ifmo/pp/fgb/LinearizabilityTest.java:69-74 | the first pair of drawn run accounts that differ, or none when the draws run out |
| Linearizability.LinearizabilityTest.ChooseOps | src/test/java/ru/ifmo/pp/fgb/LinearizabilityTest.java:53-81 | succeeds exactly when every thread's choice yields an operation, and then stores those operations |
| Linearizability.LinearizabilityTest.ChooseRunAccounts | src/test/java/ru/ifmo/pp/fgb/LinearizabilityTest.java:42-52 | succeeds exactly when the draws contain three distinct accounts; the run accounts are then the first three distinct draws, each with its base amount |
| Linearizability.LinearizabilityTest.ChooseRun | src/test/java/ru/ifmo/pp/fgb/LinearizabilityTest.java:41-81 | succeeds exactly when the draws suffice; the run is then ready, with distinct existing accounts and operations on them |
| Linearizability.LinearizabilityTest.ScanAll | src/test/java/ru/ifmo/pp/fgb/LinearizabilityTest.java:82-83 | after visiting all 24 orders, the table holds exactly the vectors that some permutation of the threads, replayed in sequence, produces; every entry is new, with count 0 |
| Linearizability.LinearizabilityTest.CheckAll | src/test/java/ru/ifmo/pp/fgb/LinearizabilityTest.java:84-95 | never reports exhausted draws; a non-linearizable verdict names the first execution that no thread order explains, every earlier one being explained; completion means every execution is explained, `total` is the number of distinct explainable vectors, `seen` is the number of those that some execution produced, and `seen <= total <= 4!` |
| Linearizability.LinearizabilityTest.Summarize | src/test/java/ru/ifmo/pp/fgb/LinearizabilityTest.java:87-95 | with every execution stored and counted, the run completes: every execution is explained, `total` is the number of stored vectors, `seen` is the number of those some execution produced, and both are at most 4! |
| Linearizability.LinearizabilityTest.DoOneRun | src/test/java/ru/ifmo/pp/fgb/LinearizabilityTest.java:41-95 | the run ends with exhausted draws exactly when the draws do not suffice; otherwise the table is exactly the explainable vectors, a non-linearizable verdict names the first execution no order explains, and completion means all are explained, with `total` the number of distinct explainable vectors and `seen` the number some execution produced |

## Left out

- Concurrency is not modelled: there are no worker threads (`TestThread`), no `Phaser` and no thread interleavings. Each execution's outcome vector is an input to `DoOneExecution`, so the model proves the checker correct for any vector the threads could produce. It does not prove that the fine-grained bank is linearizable.
- Locks are not modelled as mutual exclusion. Each `BankImpl` method records its lock and unlock calls in a ghost trace, and the proofs cover the order of those calls and that every lock is released.
- `SequentialBank` is not part of this model. `serialScan` replays the orders on the `BankImpl` model, whose semantics are sequential here.
- Randomness: `java.util.Random` and its seed are not modelled. Draws arrive as sequences. Where the source's rejection loops would draw again forever, the model stops with `DrawsExhausted` once the draws run out.
- Draws.NextRndAmount, Draws.AmountOrInvalid and Draws.ChosenOp take the drawn values as separate parameters and are not tied to a generator's stream.
- `testLinearizability`, `RUNS`, `EXECUTIONS`: the outer repetition is left out. One run is `DoOneRun`, and it takes any number of executions.
- Printing (`System.out.printf`, `dumpRun`, `Results.toString`) is left out. The `AssertionError` on a non-linearizable execution is the `NonLinearizable` result.
- ResultsVector.Hash: the exact values of `Arrays.hashCode` on boxed longs and exception objects are not reproduced. The hash keeps the same polynomial shape modulo 2^32. The table's correctness does not depend on the hash values.
- Java `long` arithmetic is modelled with unbounded integers. `withdraw`'s `account.amount - amount` and `transfer`'s `amount > from.amount` run for every positive amount, including `MAX_AMOUNT + 1` and `Long.MAX_VALUE`; they stay in range because no balance is negative (`Ledger.StepArithmeticFits`). The sums in `deposit` and `transfer` are formed only after `amount <= MAX_AMOUNT`, and fit only when `2 * MAX_AMOUNT <= Long.MAX_VALUE`. The running total of `getTotalAmount` fits only when `N * MAX_AMOUNT <= Long.MAX_VALUE` (`Ledger.TotalFitsLong`). `MAX_AMOUNT` is declared in `Bank.java`, which is not part of this model. The store therefore takes `maxAmount` as any positive parameter: both bounds are assumptions stated in those lemmas, not conditions the store's invariant carries. Where they fail, the model's results differ from Java's wrapped ones.
- Draws.NextRndAmount, Draws.AmountOrInvalid and Draws.InvalidAmountFails are standalone facts about the amount generator. A run takes each thread's amount (`OpChoice.amount`) as any integer, so a run with an invalid amount is covered without these functions being called.
- Bank.BankImpl.GetAmount, Bank.BankImpl.Deposit, Bank.BankImpl.Withdraw and Bank.BankImpl.Transfer require their indices to lie in `[0, N)`, so the `ArrayIndexOutOfBoundsException` of a bad index is not modelled. Every call in the test passes a run account, and those are proved to lie in that range (`Draws.ChosenOpIndices`).
- Draws.ChosenOp: a kind 0, 2 or 3 choice with no account draw at all yields no operation, and the run ends with `DrawsExhausted`. The source draws exactly one account for these kinds and has no rejection loop there; an empty draw list stands only for a generator the model was given too few values of.
- `runOps` starts filled with `GetTotalAmount` values instead of Java's `null`. It is always overwritten before use.
- Results slots hold outcomes (`Option<Outcome>`) instead of arbitrary `Object` values. `Operation.java` is not part of this model, so an operation's failure is taken to be reported by its kind only (InvalidArgument, Underflow or Overflow).
- The table's capacity: the source assumes 1024 slots are enough. The model states that a run fills at most 24 of them.
