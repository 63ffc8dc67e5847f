/**
 * The outcome vector of one execution: one slot per worker thread, `None`
 * until that thread's outcome is written. Vectors are compared and hashed by
 * their slots only; the side `count` of how often a vector was observed takes
 * no part in either.
 */
module ResultsVector {
  import opened Wrappers
  import opened Ledger

  /** The slot contents of an outcome vector, as a value. */
  type Vec = seq<Option<Outcome>>

  /** Java's 32-bit int, held as its unsigned value: arithmetic on hashes wraps modulo WORD. */
  const WORD: int := 0x1_0000_0000

  /**
   * Hash of one outcome. The hashes of the Java values (boxed longs, exception
   * objects) are not reproduced: any function of the outcome's value will do,
   * since equal outcomes are identical values here.
   */
  function OutcomeHash(o: Outcome): int {
    match o
    case Amount(v) => v % WORD
    case Done => 1
    case InvalidArgument => 2
    case Underflow => 3
    case Overflow => 4
  }

  function SlotHash(s: Option<Outcome>): int {
    match s
    case None => 0
    case Some(o) => OutcomeHash(o)
  }

  /** Polynomial hash in the shape of Arrays.hashCode, wrapping like a Java int. */
  function Hash(v: Vec): (r: int)
    ensures 0 <= r < WORD
  {
    if v == [] then 1 else (31 * Hash(v[..|v| - 1]) + SlotHash(v[|v| - 1])) % WORD
  }

  class Results {
    /** One slot per thread; the array itself is never replaced. */
    const slots: array<Option<Outcome>>
    /** How many executions produced this vector. */
    var count: int

    /** A vector of `n` empty slots with count 0. */
    constructor (n: nat)
      ensures fresh(slots) && slots.Length == n
      ensures slots[..] == seq(n, _ => None)
      ensures count == 0
    {
      var a := new Option<Outcome>[n];
      for i := 0 to n
        invariant forall k :: 0 <= k < i ==> a[k] == None
      {
        a[i] := None;
      }
      slots := a;
      count := 0;
    }

    /** A copy of `other`'s slots in new storage, with count 0. */
    constructor Copy(other: Results)
      ensures fresh(slots) && slots[..] == other.slots[..]
      ensures count == 0
    {
      var n := other.slots.Length;
      var a := new Option<Outcome>[n];
      for i := 0 to n
        invariant forall k :: 0 <= k < i ==> a[k] == other.slots[k]
      {
        a[i] := other.slots[i];
      }
      slots := a;
      count := 0;
    }

    method Set(i: int, v: Outcome)
      requires 0 <= i < slots.Length
      modifies slots
      ensures slots[..] == old(slots[..])[i := Some(v)]
    {
      slots[i] := Some(v);
    }

    method IncCount()
      modifies this`count
      ensures count == old(count) + 1
      ensures slots[..] == old(slots[..])
    {
      count := count + 1;
    }

    method GetCount() returns (c: int)
      ensures c == count
    {
      c := count;
    }

    /** Equality as Arrays.equals has it: the same number of slots, equal slot by slot. */
    predicate Equals(o: Results?)
      reads slots, if o == null then {} else {o.slots}
      ensures Equals(o) <==> o != null && slots[..] == o.slots[..]
    {
      if this == o then true
      else if o == null then false
      else slots.Length == o.slots.Length && forall i :: 0 <= i < slots.Length ==> slots[i] == o.slots[i]
    }

    /** hashCode: a 32-bit value of the slots alone, so equal vectors hash alike. */
    function HashCode(): (h: int)
      reads slots
      ensures 0 <= h < WORD
    {
      Hash(slots[..])
    }
  }

  /** Equality of outcome vectors is an equivalence relation. */
  lemma EqualsIsEquivalence(a: Results, b: Results, c: Results)
    ensures a.Equals(a)
    ensures a.Equals(b) ==> b.Equals(a)
    ensures a.Equals(b) && b.Equals(c) ==> a.Equals(c)
  {
  }

  /** Equal vectors have equal hashes, whatever their counts. */
  lemma EqualsImpliesSameHash(a: Results, b: Results)
    requires a.Equals(b)
    ensures a.HashCode() == b.HashCode()
  {
  }

  /**
   * A copy has its own storage: after `set` on the original, the copy still
   * holds the slots the original had when it was copied.
   */
  method CopyIsIndependent(original: Results, i: int, v: Outcome) returns (copy: Results)
    requires 0 <= i < original.slots.Length
    modifies original.slots
    ensures fresh(copy) && fresh(copy.slots) && copy.count == 0
    ensures copy.slots[..] == old(original.slots[..])
    ensures original.slots[..] == old(original.slots[..])[i := Some(v)]
    ensures !copy.Equals(original) <==> old(original.slots[i]) != Some(v)
  {
    copy := new Results.Copy(original);
    original.Set(i, v);
    assert copy.slots[i] == old(original.slots[i]);
  }
}
