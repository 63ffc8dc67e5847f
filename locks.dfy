/**
 * Ghost traces of per-account lock acquisitions and releases. Each account's
 * lock is a re-entrant lock; the trace records, in program order, which lock an
 * operation takes and gives back. The discipline of the store is: take locks in
 * ascending account order, give them back in descending order, and give back
 * every lock that was taken.
 */
module LockOrder {

  datatype LockEvent = Lock(index: int) | Unlock(index: int)

  /** The locks held (with re-entry counts) after a trace, or Violation if a lock not held is released. */
  datatype Holding = Held(locks: multiset<int>) | Violation

  function HeldAfter(h: Holding, t: seq<LockEvent>): Holding
    decreases |t|
  {
    if t == [] || h.Violation? then h
    else match t[0]
      case Lock(i) => HeldAfter(Held(h.locks + multiset{i}), t[1..])
      case Unlock(i) => if i in h.locks then HeldAfter(Held(h.locks - multiset{i}), t[1..]) else Violation
  }

  /** Every acquire is matched by a later release, and nothing is released that is not held. */
  predicate Matched(t: seq<LockEvent>) {
    HeldAfter(Held(multiset{}), t) == Held(multiset{})
  }

  /** The locks are acquired in strictly ascending account order. */
  predicate AcquiredAscending(t: seq<LockEvent>) {
    forall p, q :: 0 <= p < q < |t| && t[p].Lock? && t[q].Lock? ==> t[p].index < t[q].index
  }

  /** The locks are released in strictly descending account order. */
  predicate ReleasedDescending(t: seq<LockEvent>) {
    forall p, q :: 0 <= p < q < |t| && t[p].Unlock? && t[q].Unlock? ==> t[p].index > t[q].index
  }

  /** No lock is taken after the first one is given back. */
  predicate TwoPhase(t: seq<LockEvent>) {
    forall p, q :: 0 <= p < q < |t| && t[p].Unlock? ==> t[q].Unlock?
  }

  /** The trace of getAmount, deposit and withdraw on one account. */
  function SingleSegment(index: int): seq<LockEvent> {
    [Lock(index), Unlock(index)]
  }

  /** The trace of transfer, branch for branch as the store takes and releases the two locks. */
  function TransferSegment(from: int, to: int): seq<LockEvent> {
    (if from < to then [Lock(from), Lock(to)] else [Lock(to), Lock(from)])
    + (if to > from then [Unlock(to), Unlock(from)] else [Unlock(from), Unlock(to)])
  }

  /** Locking accounts 0, 1, ..., n-1. */
  function LockUp(n: nat): seq<LockEvent> {
    seq(n, i => Lock(i))
  }

  /** Unlocking accounts n-1, ..., 1, 0. */
  function UnlockDown(n: nat): seq<LockEvent> {
    seq(n, i => Unlock(n - 1 - i))
  }

  /** The locks 0..n-1, each once. */
  function Range(n: nat): multiset<int> {
    multiset(seq(n, i => i))
  }

  lemma {:induction false} HeldAfterConcat(h: Holding, a: seq<LockEvent>, b: seq<LockEvent>)
    ensures HeldAfter(h, a + b) == HeldAfter(HeldAfter(h, a), b)
    decreases |a|
  {
    if a == [] {
      assert a + b == b;
    } else if h.Violation? {
      assert HeldAfter(Violation, b) == Violation by {
        if b != [] { }
      }
    } else {
      assert (a + b)[1..] == a[1..] + b;
      match a[0]
      case Lock(i) => HeldAfterConcat(Held(h.locks + multiset{i}), a[1..], b);
      case Unlock(i) =>
        if i in h.locks {
          HeldAfterConcat(Held(h.locks - multiset{i}), a[1..], b);
        } else {
          assert HeldAfter(Violation, b) == Violation by {
            if b != [] { }
          }
        }
    }
  }

  /** Two matched traces in a row form a matched trace. */
  lemma MatchedConcat(a: seq<LockEvent>, b: seq<LockEvent>)
    requires Matched(a) && Matched(b)
    ensures Matched(a + b)
  {
    HeldAfterConcat(Held(multiset{}), a, b);
  }

  lemma {:induction false} HeldAfterLockUp(m: multiset<int>, n: nat)
    ensures HeldAfter(Held(m), LockUp(n)) == Held(m + Range(n))
  {
    if n > 0 {
      assert LockUp(n) == LockUp(n - 1) + [Lock(n - 1)];
      assert seq(n, i => i) == seq(n - 1, i => i) + [n - 1];
      HeldAfterConcat(Held(m), LockUp(n - 1), [Lock(n - 1)]);
      HeldAfterLockUp(m, n - 1);
    } else {
      assert seq(0, i => i) == [];
    }
  }

  lemma {:induction false} HeldAfterUnlockDown(m: multiset<int>, n: nat)
    ensures HeldAfter(Held(m + Range(n)), UnlockDown(n)) == Held(m)
  {
    if n > 0 {
      assert UnlockDown(n) == [Unlock(n - 1)] + UnlockDown(n - 1);
      assert seq(n, i => i) == seq(n - 1, i => i) + [n - 1];
      assert m + Range(n) == m + Range(n - 1) + multiset{n - 1};
      assert (m + Range(n)) - multiset{n - 1} == m + Range(n - 1);
      HeldAfterUnlockDown(m, n - 1);
    } else {
      assert seq(0, i => i) == [];
    }
  }

  /** One account's operation locks and unlocks that account once. */
  lemma SingleSegmentDiscipline(index: int)
    ensures Matched(SingleSegment(index))
    ensures AcquiredAscending(SingleSegment(index)) && ReleasedDescending(SingleSegment(index))
    ensures TwoPhase(SingleSegment(index))
  {
    var t := SingleSegment(index);
    assert t[1..] == [Unlock(index)] && t[1..][1..] == [];
    assert multiset{} + multiset{index} == multiset{index};
    assert multiset{index} - multiset{index} == multiset{};
    assert HeldAfter(Held(multiset{index}), [Unlock(index)]) == Held(multiset{});
  }

  /**
   * transfer takes the lower-numbered lock first and returns the higher-numbered
   * one first; with distinct accounts the order is strict, with equal ones the
   * same re-entrant lock is taken twice and returned twice.
   */
  lemma TransferSegmentDiscipline(from: int, to: int)
    ensures var t := TransferSegment(from, to);
      && Matched(t) && TwoPhase(t)
      && |t| == 4
      && t[0] == Lock(if from < to then from else to)
      && t[1] == Lock(if from < to then to else from)
      && t[2] == Unlock(if from < to then to else from)
      && t[3] == Unlock(if from < to then from else to)
      && (from != to ==> AcquiredAscending(t) && ReleasedDescending(t))
  {
    var t := TransferSegment(from, to);
    var lo, hi := if from < to then from else to, if from < to then to else from;
    assert t == [Lock(lo), Lock(hi), Unlock(hi), Unlock(lo)];
    assert Matched(t) by {
      assert t[1..] == [Lock(hi), Unlock(hi), Unlock(lo)];
      assert t[2..] == [Unlock(hi), Unlock(lo)];
      assert t[3..] == [Unlock(lo)];
      var both := multiset{lo} + multiset{hi};
      assert both - multiset{hi} == multiset{lo};
      assert multiset{} + multiset{lo} == multiset{lo};
      assert multiset{lo} - multiset{lo} == multiset{};
      assert HeldAfter(Held(multiset{lo}), [Unlock(lo)]) == Held(multiset{}) by {
        assert [Unlock(lo)][1..] == [];
      }
      assert HeldAfter(Held(both), t[2..]) == Held(multiset{}) by {
        assert t[2..][1..] == [Unlock(lo)];
      }
      assert HeldAfter(Held(multiset{lo}), t[1..]) == Held(multiset{}) by {
        assert t[1..][1..] == t[2..];
      }
    }
  }

  /** getTotalAmount locks 0..n-1 ascending, then unlocks n-1..0 descending, matching every lock. */
  lemma TotalSegmentDiscipline(n: nat)
    ensures var t := LockUp(n) + UnlockDown(n);
      && Matched(t) && AcquiredAscending(t) && ReleasedDescending(t) && TwoPhase(t)
  {
    var t := LockUp(n) + UnlockDown(n);
    assert Matched(t) by {
      HeldAfterConcat(Held(multiset{}), LockUp(n), UnlockDown(n));
      HeldAfterLockUp(multiset{}, n);
      HeldAfterUnlockDown(multiset{}, n);
      assert multiset{} + Range(n) == Range(n);
    }
    assert forall p :: 0 <= p < n ==> t[p] == Lock(p);
    assert forall p :: n <= p < |t| ==> t[p] == Unlock(2 * n - 1 - p);
    assert AcquiredAscending(t) by {
      forall p, q | 0 <= p < q < |t| && t[p].Lock? && t[q].Lock?
        ensures t[p].index < t[q].index
      {
        assert q < n;
      }
    }
    assert ReleasedDescending(t) by {
      forall p, q | 0 <= p < q < |t| && t[p].Unlock? && t[q].Unlock?
        ensures t[p].index > t[q].index
      {
        assert n <= p;
      }
    }
  }
}
