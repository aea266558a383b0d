/** Sequence facts shared by the table operations: distinctness, index
    ranges, permutations, and picking elements by a list of indices. */
module Seqs {

  predicate Distinct<T(==)>(xs: seq<T>)
  {
    forall i, j :: 0 <= i < j < |xs| ==> xs[i] != xs[j]
  }

  /** Each element is new when it is reached: `Distinct` read one element at
      a time, the form a left-to-right pass uses. */
  predicate EachNew<T(==)>(xs: seq<T>)
  {
    forall j :: 0 <= j < |xs| ==> xs[j] !in xs[..j]
  }

  lemma DistinctEachNew<T>(xs: seq<T>)
    requires Distinct(xs)
    ensures EachNew(xs)
  {
  }

  /** The positions 0, 1, ..., n-1 in order. */
  function Range(n: nat): (r: seq<nat>)
    ensures |r| == n
    ensures forall i :: 0 <= i < n ==> r[i] == i
  {
    seq(n, i requires 0 <= i < n => i)
  }

  /** `perm` lists each position below `n` exactly once. */
  predicate IsPermutation(perm: seq<nat>, n: nat)
  {
    && |perm| == n
    && (forall i :: 0 <= i < n ==> perm[i] < n)
    && multiset(perm) == multiset(Range(n))
  }

  /** The elements of `s` at the positions listed in `idx`, in that order. */
  function Pick<T>(s: seq<T>, idx: seq<nat>): (r: seq<T>)
    requires forall i :: 0 <= i < |idx| ==> idx[i] < |s|
    ensures |r| == |idx|
  {
    seq(|idx|, i requires 0 <= i < |idx| => s[idx[i]])
  }

  lemma PickAppend<T>(s: seq<T>, a: seq<nat>, b: seq<nat>)
    requires forall i :: 0 <= i < |a| ==> a[i] < |s|
    requires forall i :: 0 <= i < |b| ==> b[i] < |s|
    ensures Pick(s, a + b) == Pick(s, a) + Pick(s, b)
  {
  }

  lemma PickRange<T>(s: seq<T>)
    ensures Pick(s, Range(|s|)) == s
  {
  }

  /** Dropping position `k` of `b` removes one copy of `b[k]` from its multiset,
      and one copy of `s[b[k]]` from the multiset of what `b` picks. */
  lemma PickDropOne<T>(s: seq<T>, b: seq<nat>, k: nat)
    requires forall i :: 0 <= i < |b| ==> b[i] < |s|
    requires k < |b|
    ensures var rest := b[..k] + b[k + 1..];
      && (forall i :: 0 <= i < |rest| ==> rest[i] < |s|)
      && multiset(rest) == multiset(b) - multiset{b[k]}
      && multiset(Pick(s, b)) == multiset(Pick(s, rest)) + multiset{s[b[k]]}
  {
    var lo, hi := b[..k], b[k + 1..];
    assert b == lo + [b[k]] + hi;
    var rest := lo + hi;
    forall i | 0 <= i < |rest| ensures rest[i] < |s| {
      if i < |lo| { assert rest[i] == b[i]; } else { assert rest[i] == b[i + 1]; }
    }
    assert multiset(b) == multiset(lo) + multiset{b[k]} + multiset(hi);
    PickAppend(s, lo + [b[k]], hi);
    PickAppend(s, lo, [b[k]]);
    PickAppend(s, lo, hi);
    assert Pick(s, b) == Pick(s, lo) + [s[b[k]]] + Pick(s, hi);
  }

  /** Picking by two index lists that hold the same positions, counted with
      multiplicity, yields the same multiset of elements. */
  lemma {:induction false} PickSameMultiset<T>(s: seq<T>, a: seq<nat>, b: seq<nat>)
    requires forall i :: 0 <= i < |a| ==> a[i] < |s|
    requires forall i :: 0 <= i < |b| ==> b[i] < |s|
    requires multiset(a) == multiset(b)
    ensures multiset(Pick(s, a)) == multiset(Pick(s, b))
  {
    if a == [] {
      assert |multiset(b)| == 0;
      assert b == [];
    } else {
      var x := a[0];
      assert x in multiset(b);
      var k :| 0 <= k < |b| && b[k] == x;
      var rest := b[..k] + b[k + 1..];
      PickDropOne(s, b, k);
      PickDropOne(s, a, 0);
      var tail := a[..0] + a[1..];
      assert tail == a[1..];
      assert multiset(rest) == multiset(tail);
      PickSameMultiset(s, tail, rest);
    }
  }

  /** Reordering a sequence by a permutation keeps its multiset of elements. */
  lemma PermutedMultiset<T>(s: seq<T>, perm: seq<nat>)
    requires IsPermutation(perm, |s|)
    ensures multiset(Pick(s, perm)) == multiset(s)
  {
    PickSameMultiset(s, perm, Range(|s|));
    PickRange(s);
  }

  /** A list without repetitions has as many elements as its set of elements. */
  lemma {:induction false} DistinctCardinality<T>(xs: seq<T>)
    requires Distinct(xs)
    ensures |set x | x in xs| == |xs|
  {
    if xs != [] {
      var t := xs[1..];
      assert Distinct(t) by {
        forall i, j | 0 <= i < j < |t| ensures t[i] != t[j] { assert t[i] == xs[i + 1] && t[j] == xs[j + 1]; }
      }
      DistinctCardinality(t);
      assert xs == [xs[0]] + t;
      assert (set x | x in xs) == (set x | x in t) + {xs[0]};
      assert xs[0] !in t by {
        forall k | 0 <= k < |t| ensures t[k] != xs[0] { assert t[k] == xs[k + 1]; }
      }
    }
  }

  /** Two lists without repetitions that hold the same elements are
      reorderings of each other: same length, same multiset. */
  lemma SameElementsSameLength<T>(xs: seq<T>, ys: seq<T>)
    requires Distinct(xs) && Distinct(ys)
    requires forall x :: x in xs <==> x in ys
    ensures |xs| == |ys|
  {
    DistinctCardinality(xs);
    DistinctCardinality(ys);
    assert (set x | x in xs) == (set y | y in ys);
  }
}
