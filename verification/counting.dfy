/**
  Counting infected nodes and reasoning about permutations of node indices.

  A column of the time-series matrix holds one 0/1 entry per node; summing it
  gives the number of infected nodes, which `Count` computes on the boolean
  view of the column. Seeding and the per-step visit both rely on random
  permutations of the node indices; `IsPermutation` states what such a
  permutation is, and `PermutationCovers` proves that it visits every node.
 */
module Counting {

  /** The number of `true` entries of `bs`, counted from the front. */
  ghost function Count(bs: seq<bool>): (c: nat)
    ensures c <= |bs|
  {
    if |bs| == 0 then 0
    else Count(bs[..|bs| - 1]) + (if bs[|bs| - 1] then 1 else 0)
  }

  /** The all-susceptible state of `n` nodes (a freshly zeroed column). */
  ghost function Zeros(n: nat): (z: seq<bool>)
    ensures |z| == n && Count(z) == 0
  {
    var z := seq(n, _ => false);
    CountZeroIffNone(z);
    z
  }

  /** A column sums to zero exactly when no entry is set. */
  lemma {:induction false} CountZeroIffNone(bs: seq<bool>)
    ensures Count(bs) == 0 <==> forall k :: 0 <= k < |bs| ==> !bs[k]
  {
    if |bs| > 0 {
      var init := bs[..|bs| - 1];
      CountZeroIffNone(init);
      assert forall k :: 0 <= k < |init| ==> init[k] == bs[k];
    }
  }

  /** If every entry set in `b` is set in `a`, `b` counts no more than `a`. */
  lemma {:induction false} CountMono(a: seq<bool>, b: seq<bool>)
    requires |a| == |b|
    requires forall k :: 0 <= k < |b| && b[k] ==> a[k]
    ensures Count(b) <= Count(a)
  {
    if |a| > 0 {
      CountMono(a[..|a| - 1], b[..|b| - 1]);
    }
  }

  /** The indices whose entry is set. */
  ghost function TrueIndices(bs: seq<bool>): set<nat>
  {
    set k: nat | k < |bs| && bs[k]
  }

  lemma {:induction false} CountIsCard(bs: seq<bool>)
    ensures Count(bs) == |TrueIndices(bs)|
  {
    if |bs| == 0 {
      assert TrueIndices(bs) == {};
    } else {
      var last := |bs| - 1;
      var init := bs[..last];
      CountIsCard(init);
      assert TrueIndices(bs) == TrueIndices(init) + (if bs[last] then {last} else {});
    }
  }

  /** The node indices 0 .. n-1. */
  ghost function Range(n: nat): set<nat>
  {
    if n == 0 then {} else Range(n - 1) + {n - 1}
  }

  lemma {:induction false} InRange(n: nat, v: nat)
    ensures v in Range(n) <==> v < n
  {
    if n > 0 {
      InRange(n - 1, v);
    }
  }

  lemma {:induction false} CardRange(n: nat)
    ensures |Range(n)| == n
  {
    if n > 0 {
      CardRange(n - 1);
      InRange(n - 1, n - 1);
    }
  }

  predicate Distinct(p: seq<nat>)
  {
    forall k, l :: 0 <= k < l < |p| ==> p[k] != p[l]
  }

  /** `p` lists the indices 0 .. n-1, each once, in some order. */
  predicate IsPermutation(p: seq<nat>, n: nat)
  {
    |p| == n && (forall k :: 0 <= k < n ==> p[k] < n) && Distinct(p)
  }

  /** The positions in `A` mapped through `p`. */
  ghost function Image(A: set<nat>, p: seq<nat>): set<nat>
    requires forall a :: a in A ==> a < |p|
  {
    set a | a in A :: p[a]
  }

  /** A sequence without repetitions maps a set of positions onto a set of the same size. */
  lemma {:induction false} ImageCard(A: set<nat>, p: seq<nat>)
    requires forall a :: a in A ==> a < |p|
    requires Distinct(p)
    ensures |Image(A, p)| == |A|
    decreases |A|
  {
    if A == {} {
      assert Image(A, p) == {};
    } else {
      var x :| x in A;
      var rest := A - {x};
      ImageCard(rest, p);
      assert Image(A, p) == Image(rest, p) + {p[x]};
      assert p[x] !in Image(rest, p);
    }
  }

  lemma SubsetSameCard(A: set<nat>, B: set<nat>)
    requires A <= B && |A| == |B|
    ensures A == B
  {
    var d := B - A;
    assert B == A + d;
    assert A * d == {};
    assert |d| == 0;
  }

  /** A permutation of 0 .. n-1 contains every index: visiting nodes in its order visits them all. */
  lemma PermutationCovers(p: seq<nat>, n: nat)
    requires IsPermutation(p, n)
    ensures forall v :: 0 <= v < n ==> v in p
  {
    forall a | a in Range(n)
      ensures a < n
    {
      InRange(n, a);
    }
    var img := Image(Range(n), p);
    ImageCard(Range(n), p);
    CardRange(n);
    forall v | v in img
      ensures v in Range(n)
    {
      var a :| a in Range(n) && p[a] == v;
      InRange(n, v);
    }
    SubsetSameCard(img, Range(n));
    forall v: nat | v < n
      ensures v in p
    {
      InRange(n, v);
      assert v in img;
    }
  }
}
