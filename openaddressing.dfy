/**
 * The admissible-outcome table as a value: a sequence of RESULTS_HASH_SIZE
 * slots, each empty or holding an outcome vector. A key's probe starts at
 * its home slot (its hash masked to the table size) and steps down by one,
 * wrapping from slot 0 to the last slot, until it meets an empty slot or an
 * equal key. Nothing is ever deleted, so no tombstones are needed.
 */
module OpenAddressing {
  import opened Wrappers
  import opened ResultsVector

  /** The table size; a power of two, so that masking a hash gives a slot. */
  const RESULTS_HASH_SIZE: int := 1024

  type Table = seq<Option<Vec>>

  /** `h & (RESULTS_HASH_SIZE - 1)` on a 32-bit hash: its low ten bits. */
  function HomeIndex(h: int): (r: int)
    ensures 0 <= r < RESULTS_HASH_SIZE
  {
    h % RESULTS_HASH_SIZE
  }

  function Home(key: Vec): int {
    HomeIndex(Hash(key))
  }

  /** The slot visited `s` steps after the home slot `h`. */
  function Probe(h: int, s: int): int {
    (h - s) % RESULTS_HASH_SIZE
  }

  /** The number of steps from home slot `h` down to slot `p`. */
  function Dist(h: int, p: int): int {
    (h - p) % RESULTS_HASH_SIZE
  }

  /** One probe step as the source writes it: `if (i == 0) i = SIZE; i--`. */
  function Prev(i: int): int {
    if i == 0 then RESULTS_HASH_SIZE - 1 else i - 1
  }

  /** A probe for `key` stops at an empty slot or at an equal key. */
  predicate Stops(e: Option<Vec>, key: Vec) {
    e.None? || e == Some(key)
  }

  /** The number of steps after which a probe from `h` that has already made `s` steps stops, if it does within one lap. */
  function StopDist(t: Table, key: Vec, h: int, s: nat): (r: Option<nat>)
    requires |t| == RESULTS_HASH_SIZE
    ensures r.Some? ==> s <= r.value < RESULTS_HASH_SIZE && Stops(t[Probe(h, r.value)], key)
    ensures r.Some? ==> forall s' :: s <= s' < r.value ==> !Stops(t[Probe(h, s')], key)
    ensures r.None? ==> forall s' :: s <= s' < RESULTS_HASH_SIZE ==> !Stops(t[Probe(h, s')], key)
    decreases RESULTS_HASH_SIZE - s
  {
    if s >= RESULTS_HASH_SIZE then None
    else if Stops(t[Probe(h, s)], key) then Some(s)
    else StopDist(t, key, h, s + 1)
  }

  ghost function Keys(t: Table): set<Vec> {
    set i | 0 <= i < |t| && t[i].Some? :: t[i].value
  }

  /** The number of occupied slots. */
  function Filled(t: Table): nat {
    if t == [] then 0 else Filled(t[..|t| - 1]) + (if t[|t| - 1].Some? then 1 else 0)
  }

  /** Slots `i` and `j` do not hold the same key, unless they are one slot. */
  ghost predicate Unshared(t: Table, i: int, j: int) {
    0 <= i < |t| && 0 <= j < |t| && t[i].Some? && t[i] == t[j] ==> i == j
  }

  /** No key is stored twice. */
  ghost predicate NoDup(t: Table) {
    forall i, j :: Unshared(t, i, j)
  }

  /** If slot `p` holds a key, the slot `s` steps after that key's home is occupied whenever it comes before `p`. */
  ghost predicate ChainedAt(t: Table, p: int, s: int)
    requires |t| == RESULTS_HASH_SIZE
  {
    0 <= p < |t| && t[p].Some? && 0 <= s < Dist(Home(t[p].value), p) ==> t[Probe(Home(t[p].value), s)].Some?
  }

  /** Every slot between a stored key's home and the key itself is occupied. */
  ghost predicate ChainOk(t: Table) {
    |t| == RESULTS_HASH_SIZE && forall p, s :: ChainedAt(t, p, s)
  }

  ghost predicate Good(t: Table) {
    |t| == RESULTS_HASH_SIZE && NoDup(t) && ChainOk(t)
  }

  /** A probe begins at its home slot. */
  lemma ProbeHome(h: int)
    requires 0 <= h < RESULTS_HASH_SIZE
    ensures Probe(h, 0) == h
  {
  }

  /** Stepping with Prev is stepping one slot further along the probe sequence. */
  lemma ProbeStep(h: int, s: int)
    ensures Prev(Probe(h, s)) == Probe(h, s + 1)
  {
  }

  lemma ProbeDist(h: int, p: int)
    requires 0 <= p < RESULTS_HASH_SIZE
    ensures 0 <= Dist(h, p) < RESULTS_HASH_SIZE && Probe(h, Dist(h, p)) == p
  {
  }

  /** Within one lap the probe from `h` visits distinct slots. */
  lemma ProbeInjective(h: int, s: int, s': int)
    requires 0 <= s < RESULTS_HASH_SIZE && 0 <= s' < RESULTS_HASH_SIZE && s != s'
    ensures Probe(h, s) != Probe(h, s')
  {
  }

  /** A table with fewer occupied slots than slots has an empty slot. */
  lemma {:induction false} EmptySlotExists(t: Table) returns (z: int)
    requires Filled(t) < |t|
    ensures 0 <= z < |t| && t[z].None?
  {
    var last := |t| - 1;
    if t[last].None? {
      z := last;
    } else {
      z := EmptySlotExists(t[..last]);
    }
  }

  /** Filling an empty slot adds one to the number of occupied slots. */
  lemma {:induction false} FilledUpdate(t: Table, r: int, v: Vec)
    requires 0 <= r < |t| && t[r].None?
    ensures Filled(t[r := Some(v)]) == Filled(t) + 1
  {
    var last := |t| - 1;
    var t' := t[r := Some(v)];
    if r < last {
      assert t'[..last] == t[..last][r := Some(v)];
      FilledUpdate(t[..last], r, v);
    } else {
      assert t'[..last] == t[..last];
    }
  }

  lemma {:induction false} FilledEmpty(t: Table)
    requires forall i :: 0 <= i < |t| ==> t[i].None?
    ensures Filled(t) == 0
  {
    if t != [] {
      FilledEmpty(t[..|t| - 1]);
    }
  }

  /** With no key stored twice, the occupied slots are as many as the distinct keys. */
  lemma {:induction false} FilledKeys(t: Table)
    requires NoDup(t)
    ensures Filled(t) == |Keys(t)|
  {
    if t != [] {
      var p := t[..|t| - 1];
      KeysLast(t);
      NoDupLast(t);
      FilledKeys(p);
    }
  }

  /** The keys of a table are those of all but its last slot, and the last slot's key. */
  lemma KeysLast(t: Table)
    requires t != []
    ensures Keys(t) == Keys(t[..|t| - 1]) + (if t[|t| - 1].Some? then {t[|t| - 1].value} else {})
  {
    var p := t[..|t| - 1];
    forall v | v in Keys(t) ensures v in Keys(p) || (t[|t| - 1].Some? && v == t[|t| - 1].value) {
      var i :| 0 <= i < |t| && t[i].Some? && t[i].value == v;
      if i < |p| {
        assert p[i] == t[i];
      }
    }
  }

  /** Dropping the last slot keeps keys unique, and the last slot's key is not among the others. */
  lemma NoDupLast(t: Table)
    requires NoDup(t) && t != []
    ensures NoDup(t[..|t| - 1])
    ensures t[|t| - 1].Some? ==> t[|t| - 1].value !in Keys(t[..|t| - 1])
  {
    var last := |t| - 1;
    var p := t[..last];
    forall i, j ensures Unshared(p, i, j) {
      assert Unshared(t, i, j);
    }
    forall i | 0 <= i < |p| && p[i].Some? && t[last].Some? ensures p[i].value != t[last].value {
      assert Unshared(t, i, last);
    }
  }

  /** While an empty slot exists, every probe stops within one lap. */
  lemma ProbeStops(t: Table, key: Vec, h: int)
    requires |t| == RESULTS_HASH_SIZE && Filled(t) < RESULTS_HASH_SIZE
    ensures StopDist(t, key, h, 0).Some?
  {
    var z := EmptySlotExists(t);
    ProbeDist(h, z);
    assert Stops(t[Probe(h, Dist(h, z))], key);
  }

  /**
   * Lookup is exact: the probe for `key` from its home slot ends on an equal
   * key if the table holds one, and on an empty slot otherwise.
   */
  lemma LookupCorrect(t: Table, key: Vec, d: nat)
    requires ChainOk(t) && StopDist(t, key, Home(key), 0) == Some(d)
    ensures t[Probe(Home(key), d)] == Some(key) <==> key in Keys(t)
    ensures t[Probe(Home(key), d)].None? <==> key !in Keys(t)
  {
    var h := Home(key);
    var r := Probe(h, d);
    assert t[r].Some? ==> t[r].value in Keys(t);
    if key in Keys(t) {
      var p :| 0 <= p < |t| && t[p] == Some(key);
      StoredKeyFound(t, key, d, p);
    }
  }

  lemma StoredKeyFound(t: Table, key: Vec, d: nat, p: int)
    requires ChainOk(t) && StopDist(t, key, Home(key), 0) == Some(d)
    requires 0 <= p < |t| && t[p] == Some(key)
    ensures t[Probe(Home(key), d)] == Some(key)
  {
    var h := Home(key);
    var dp := Dist(h, p);
    ProbeDist(h, p);
    assert Stops(t[Probe(h, dp)], key);
    assert d <= dp;
    if d < dp {
      assert Home(t[p].value) == h;
      assert ChainedAt(t, p, d);
      assert t[Probe(h, d)].Some?;
    }
  }

  lemma InsertKeepsChains(t: Table, key: Vec, d: nat)
    requires ChainOk(t) && StopDist(t, key, Home(key), 0) == Some(d)
    requires t[Probe(Home(key), d)].None?
    ensures ChainOk(t[Probe(Home(key), d) := Some(key)])
  {
    var h := Home(key);
    var r := Probe(h, d);
    var t' := t[r := Some(key)];
    ProbeDist(h, r);
    assert Dist(h, r) == d by {
      if Dist(h, r) != d {
        ProbeInjective(h, Dist(h, r), d);
      }
    }
    forall p, s | 0 <= p < |t'| && t'[p].Some? && 0 <= s < Dist(Home(t'[p].value), p)
      ensures t'[Probe(Home(t'[p].value), s)].Some?
    {
      if p != r {
        assert ChainedAt(t, p, s);
        assert t[Probe(Home(t[p].value), s)].Some?;
      } else {
        assert !Stops(t[Probe(h, s)], key);
      }
    }
  }

  /**
   * Storing a missing key in the empty slot where its probe stopped keeps the
   * chains intact and the keys distinct, and adds exactly that key and slot.
   */
  lemma InsertCorrect(t: Table, key: Vec, d: nat)
    requires Good(t) && StopDist(t, key, Home(key), 0) == Some(d)
    requires t[Probe(Home(key), d)].None?
    ensures var t' := t[Probe(Home(key), d) := Some(key)];
      && Good(t')
      && key !in Keys(t)
      && Keys(t') == Keys(t) + {key}
      && Filled(t') == Filled(t) + 1
  {
    var r := Probe(Home(key), d);
    var t' := t[r := Some(key)];
    LookupCorrect(t, key, d);
    assert key !in Keys(t);
    InsertKeepsChains(t, key, d);
    forall i, j ensures Unshared(t', i, j) {
      if 0 <= i < |t| && 0 <= j < |t| && i != r && j != r {
        assert Unshared(t, i, j);
      }
      if 0 <= i < |t| && 0 <= j < |t| && i != j && (i == r || j == r) {
        assert t[i] == t'[i] || t[j] == t'[j];
        assert t[i].Some? ==> t[i].value in Keys(t);
        assert t[j].Some? ==> t[j].value in Keys(t);
      }
    }
    FilledUpdate(t, r, key);
    assert Keys(t') == Keys(t) + {key} by {
      forall v | v in Keys(t) ensures v in Keys(t') {
        var i :| 0 <= i < |t| && t[i] == Some(v);
        assert t'[i] == t[i];
      }
      assert t'[r] == Some(key);
    }
  }

  /** A cleared table is good and holds nothing. */
  lemma EmptyTable(t: Table)
    requires |t| == RESULTS_HASH_SIZE && forall i :: 0 <= i < |t| ==> t[i].None?
    ensures Good(t) && Keys(t) == {} && Filled(t) == 0
  {
    FilledEmpty(t);
  }
}
