/**
 * The order in which the linearizability test's serialScan visits the
 * permutations of 0..n-1: depth first, trying the smallest unused number
 * first at every position. `Ext(p, n)` lists every completion of the partial
 * order `p`; `ExtUpTo(p, n, j)` lists those whose next element is below `j`.
 */
module Permutations {

  predicate Distinct<T(==)>(s: seq<T>) {
    forall i, j :: 0 <= i < j < |s| ==> s[i] != s[j]
  }

  /** A prefix of a permutation of 0..n-1: distinct numbers, each in [0, n). */
  predicate Partial(p: seq<int>, n: int) {
    |p| <= n && Distinct(p) && forall i :: 0 <= i < |p| ==> 0 <= p[i] < n
  }

  predicate IsPermutation(q: seq<int>, n: int) {
    |q| == n && Partial(q, n)
  }

  function Fact(n: nat): nat {
    if n == 0 then 1 else n * Fact(n - 1)
  }

  function Ext(p: seq<int>, n: nat): seq<seq<int>>
    requires Partial(p, n)
    decreases n - |p|, 1, 0
  {
    if |p| == n then [p] else ExtUpTo(p, n, n)
  }

  function ExtUpTo(p: seq<int>, n: nat, j: nat): seq<seq<int>>
    requires Partial(p, n) && |p| < n && j <= n
    decreases n - |p|, 0, j
  {
    if j == 0 then []
    else ExtUpTo(p, n, j - 1) + (if j - 1 in p then [] else Ext(p + [j - 1], n))
  }

  /** Numbers below `j` that `p` does not use yet. */
  function Free(p: seq<int>, j: nat): nat {
    if j == 0 then 0 else Free(p, j - 1) + (if j - 1 in p then 0 else 1)
  }

  lemma PartialExtend(p: seq<int>, n: nat, j: int)
    requires Partial(p, n) && |p| < n && 0 <= j < n && j !in p
    ensures Partial(p + [j], n)
  {
  }

  lemma DistinctConcat<T>(a: seq<T>, b: seq<T>)
    requires Distinct(a) && Distinct(b)
    requires forall x, y :: x in a && y in b ==> x != y
    ensures Distinct(a + b)
  {
    var c := a + b;
    forall i, j | 0 <= i < j < |c| ensures c[i] != c[j] {
      if j < |a| {
      } else if i >= |a| {
        assert c[i] == b[i - |a|] && c[j] == b[j - |a|];
      } else {
        assert c[i] in a && c[j] in b;
      }
    }
  }

  /** Every listed completion is a permutation of 0..n-1 that extends `p`. */
  lemma {:induction false} ExtShape(p: seq<int>, n: nat)
    requires Partial(p, n)
    ensures forall q :: q in Ext(p, n) ==> IsPermutation(q, n) && q[..|p|] == p
    decreases n - |p|, 1, 0
  {
    if |p| < n {
      ExtUpToShape(p, n, n);
    }
  }

  lemma {:induction false} ExtUpToShape(p: seq<int>, n: nat, j: nat)
    requires Partial(p, n) && |p| < n && j <= n
    ensures forall q :: q in ExtUpTo(p, n, j) ==> IsPermutation(q, n) && q[..|p|] == p && q[|p|] < j
    decreases n - |p|, 0, j
  {
    if j > 0 {
      ExtUpToShape(p, n, j - 1);
      if j - 1 !in p {
        var p' := p + [j - 1];
        PartialExtend(p, n, j - 1);
        ExtShape(p', n);
        forall q | q in Ext(p', n) ensures q[..|p|] == p && q[|p|] == j - 1 {
          assert q[..|p|] == q[..|p'|][..|p|];
          assert q[|p|] == q[..|p'|][|p|];
        }
      }
    }
  }

  /** No completion is listed twice. */
  lemma {:induction false} ExtDistinct(p: seq<int>, n: nat)
    requires Partial(p, n)
    ensures Distinct(Ext(p, n))
    decreases n - |p|, 1, 0
  {
    if |p| < n {
      ExtUpToDistinct(p, n, n);
    }
  }

  lemma {:induction false} ExtUpToDistinct(p: seq<int>, n: nat, j: nat)
    requires Partial(p, n) && |p| < n && j <= n
    ensures Distinct(ExtUpTo(p, n, j))
    decreases n - |p|, 0, j
  {
    if j > 0 {
      ExtUpToDistinct(p, n, j - 1);
      if j - 1 !in p {
        var p' := p + [j - 1];
        PartialExtend(p, n, j - 1);
        ExtDistinct(p', n);
        ExtUpToShape(p, n, j - 1);
        ExtShape(p', n);
        var done, next := ExtUpTo(p, n, j - 1), Ext(p', n);
        forall x, y | x in done && y in next ensures x != y {
          assert y[|p|] == y[..|p'|][|p|];
        }
        DistinctConcat(done, next);
      }
    }
  }

  /** Every permutation of 0..n-1 that extends `p` is listed. */
  lemma {:induction false} ExtComplete(p: seq<int>, n: nat, q: seq<int>)
    requires Partial(p, n) && IsPermutation(q, n) && q[..|p|] == p
    ensures q in Ext(p, n)
    decreases n - |p|
  {
    if |p| == n {
      assert q == q[..|p|];
    } else {
      var j := q[|p|];
      assert j !in p by {
        forall i | 0 <= i < |p| ensures p[i] != j {
          assert p[i] == q[i];
        }
      }
      var p' := p + [j];
      assert q[..|p'|] == p';
      PartialExtend(p, n, j);
      ExtComplete(p', n, q);
      ExtUpToIncludes(p, n, n, j);
    }
  }

  lemma {:induction false} ExtUpToIncludes(p: seq<int>, n: nat, k: nat, j: int)
    requires Partial(p, n) && |p| < n && k <= n && 0 <= j < k && j !in p
    ensures forall q :: q in Ext(p + [j], n) ==> q in ExtUpTo(p, n, k)
    decreases k
  {
    if j < k - 1 {
      ExtUpToIncludes(p, n, k - 1, j);
    }
  }

  lemma {:induction false} FreeRemoveLast(p: seq<int>, x: int, j: nat)
    requires x !in p
    ensures Free(p + [x], j) == Free(p, j) - (if 0 <= x < j then 1 else 0)
  {
    if j > 0 {
      FreeRemoveLast(p, x, j - 1);
    }
  }

  lemma {:induction false} FreeAll(p: seq<int>, n: nat)
    requires Partial(p, n)
    ensures Free(p, n) == n - |p|
  {
    if p == [] {
      FreeEmpty(n);
    } else {
      var p', x := p[..|p| - 1], p[|p| - 1];
      assert p == p' + [x];
      assert x !in p' by {
        forall i | 0 <= i < |p'| ensures p'[i] != x {
          assert p'[i] == p[i];
        }
      }
      assert Partial(p', n) by {
        forall i | 0 <= i < |p'| ensures 0 <= p'[i] < n {
          assert p'[i] == p[i];
        }
      }
      FreeAll(p', n);
      FreeRemoveLast(p', x, n);
    }
  }

  lemma {:induction false} FreeEmpty(j: nat)
    ensures Free([], j) == j
  {
    if j > 0 {
      FreeEmpty(j - 1);
    }
  }

  /** A partial order of length |p| has (n - |p|)! completions. */
  lemma {:induction false} ExtCount(p: seq<int>, n: nat)
    requires Partial(p, n)
    ensures |Ext(p, n)| == Fact(n - |p|)
    decreases n - |p|, 1, 0
  {
    if |p| < n {
      ExtUpToCount(p, n, n);
      FreeAll(p, n);
    }
  }

  lemma {:induction false} ExtUpToCount(p: seq<int>, n: nat, j: nat)
    requires Partial(p, n) && |p| < n && j <= n
    ensures |ExtUpTo(p, n, j)| == Free(p, j) * Fact(n - |p| - 1)
    decreases n - |p|, 0, j
  {
    if j > 0 {
      ExtUpToCount(p, n, j - 1);
      if j - 1 !in p {
        PartialExtend(p, n, j - 1);
        ExtCount(p + [j - 1], n);
        var f := Fact(n - |p| - 1);
        assert (Free(p, j - 1) + 1) * f == Free(p, j - 1) * f + f;
      }
    }
  }

  /** ExtUpTo only grows as `j` grows. */
  lemma {:induction false} ExtUpToGrows(p: seq<int>, n: nat, j: nat, k: nat)
    requires Partial(p, n) && |p| < n && j <= k <= n
    ensures |ExtUpTo(p, n, j)| <= |ExtUpTo(p, n, k)|
    decreases k
  {
    if j < k {
      ExtUpToGrows(p, n, j, k - 1);
    }
  }

  /** One more candidate for the next element: `j` adds its completions unless `p` already uses it. */
  lemma ExtUpToStep(p: seq<int>, n: nat, j: nat)
    requires Partial(p, n) && |p| < n && j < n
    ensures ExtUpTo(p, n, j + 1) == ExtUpTo(p, n, j) + (if j in p then [] else Ext(p + [j], n))
    ensures |ExtUpTo(p, n, j + 1)| <= |Ext(p, n)|
  {
    ExtUpToGrows(p, n, j + 1, n);
  }

  /**
   * Starting from the empty order, the enumeration lists every permutation of
   * 0..n-1, nothing else, each exactly once: n! lists in all.
   */
  lemma AllPermutations(n: nat)
    ensures |Ext([], n)| == Fact(n)
    ensures Distinct(Ext([], n))
    ensures forall q :: q in Ext([], n) <==> IsPermutation(q, n)
  {
    ExtCount([], n);
    ExtDistinct([], n);
    ExtShape([], n);
    forall q | IsPermutation(q, n) ensures q in Ext([], n) {
      ExtComplete([], n, q);
    }
  }
}
