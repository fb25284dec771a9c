/**
 Sequence vocabulary shared by the ranking model: the identity order, index
 gathering (NumPy's fancy indexing `a[idx]`), reversal (`a[::-1]`), zipping,
 sortedness, and the multiset facts that make a gathered sequence a
 permutation of its source.
 */
module Permutations {

  /** The identity order 0, 1, ..., n-1. */
  function Range(n: nat): (r: seq<nat>)
    ensures |r| == n
    ensures forall k :: 0 <= k < n ==> r[k] == k
  {
    seq(n, k => k)
  }

  /** Every entry of `p` is a valid position of a sequence of length `n`. */
  ghost predicate InBounds(p: seq<nat>, n: nat) {
    forall k :: 0 <= k < |p| ==> p[k] < n
  }

  /** `p` lists each of 0, 1, ..., n-1 exactly once. */
  ghost predicate IsPermutationOf(p: seq<nat>, n: nat) {
    && |p| == n
    && InBounds(p, n)
    && multiset(p) == multiset(Range(n))
  }

  /** `xs[p]`: the elements of `xs` at the positions listed in `p`, in that order. */
  function Gather<T>(xs: seq<T>, p: seq<nat>): (r: seq<T>)
    requires InBounds(p, |xs|)
    ensures |r| == |p|
    ensures forall k :: 0 <= k < |p| ==> r[k] == xs[p[k]]
  {
    seq(|p|, k requires 0 <= k < |p| => xs[p[k]])
  }

  /** `xs[::-1]`. */
  function Reverse<T>(xs: seq<T>): (r: seq<T>)
    ensures |r| == |xs|
    ensures forall k :: 0 <= k < |xs| ==> r[k] == xs[|xs| - 1 - k]
  {
    seq(|xs|, k requires 0 <= k < |xs| => xs[|xs| - 1 - k])
  }

  /** Position-wise pairs of two equally long sequences. */
  function Zip<A, B>(a: seq<A>, b: seq<B>): (r: seq<(A, B)>)
    requires |a| == |b|
    ensures |r| == |a|
    ensures forall k :: 0 <= k < |a| ==> r[k].0 == a[k] && r[k].1 == b[k]
  {
    seq(|a|, k requires 0 <= k < |a| => (a[k], b[k]))
  }

  ghost predicate NonDecreasing(s: seq<real>) {
    forall j, k :: 0 <= j < k < |s| ==> s[j] <= s[k]
  }

  ghost predicate NonIncreasing(s: seq<real>) {
    forall j, k :: 0 <= j < k < |s| ==> s[j] >= s[k]
  }

  /** Reversal only reorders: it keeps every element with its multiplicity. */
  lemma {:induction false} ReverseKeepsMultiset<T>(xs: seq<T>)
    ensures multiset(Reverse(xs)) == multiset(xs)
  {
    if |xs| > 0 {
      ReverseKeepsMultiset(xs[1..]);
      assert Reverse(xs) == Reverse(xs[1..]) + [xs[0]];
      assert xs == [xs[0]] + xs[1..];
    }
  }

  /** Reversing a permutation of 0..n-1 gives a permutation of 0..n-1. */
  lemma ReversePermutation(p: seq<nat>, n: nat)
    requires IsPermutationOf(p, n)
    ensures IsPermutationOf(Reverse(p), n)
  {
    ReverseKeepsMultiset(p);
  }

  /** Gathering with the identity order gives the sequence back. */
  lemma GatherRange<T>(xs: seq<T>)
    ensures InBounds(Range(|xs|), |xs|)
    ensures Gather(xs, Range(|xs|)) == xs
  {
  }

  /** Gathering commutes with zipping. */
  lemma GatherZip<A, B>(a: seq<A>, b: seq<B>, p: seq<nat>)
    requires |a| == |b|
    requires InBounds(p, |a|)
    ensures Gather(Zip(a, b), p) == Zip(Gather(a, p), Gather(b, p))
  {
  }

  /** Dropping the entry at position `j` removes one copy of it from the multiset. */
  lemma MultisetRemoveAt<T>(q: seq<T>, j: nat)
    requires j < |q|
    ensures multiset(q[..j] + q[j + 1..]) == multiset(q) - multiset{q[j]}
  {
    assert q == q[..j] + [q[j]] + q[j + 1..];
  }

  /** Gathering without position `j` of the index list drops one copy of the element it selects. */
  lemma GatherRemoveAt<T>(xs: seq<T>, q: seq<nat>, j: nat)
    requires InBounds(q, |xs|) && j < |q|
    ensures InBounds(q[..j] + q[j + 1..], |xs|)
    ensures multiset(Gather(xs, q[..j] + q[j + 1..])) == multiset(Gather(xs, q)) - multiset{xs[q[j]]}
  {
    var g := Gather(xs, q);
    assert Gather(xs, q[..j] + q[j + 1..]) == g[..j] + g[j + 1..];
    MultisetRemoveAt(g, j);
  }

  /** The element selected by position `j` of the index list is among the gathered ones. */
  lemma GatherHas<T>(xs: seq<T>, q: seq<nat>, j: nat)
    requires InBounds(q, |xs|) && j < |q|
    ensures xs[q[j]] in multiset(Gather(xs, q))
  {
    assert Gather(xs, q)[j] == xs[q[j]];
  }

  /** Two multisets that agree after removing one copy of a common element agree. */
  lemma MultisetCancel<T>(a: multiset<T>, b: multiset<T>, x: T)
    requires x in a && x in b
    requires a - multiset{x} == b - multiset{x}
    ensures a == b
  {
    assert a == (a - multiset{x}) + multiset{x};
    assert b == (b - multiset{x}) + multiset{x};
  }

  /**
   Two index lists holding the same positions with the same multiplicities
   gather the same elements with the same multiplicities.
   */
  lemma {:induction false} GatherSameMultiset<T>(xs: seq<T>, p: seq<nat>, q: seq<nat>)
    requires InBounds(p, |xs|) && InBounds(q, |xs|)
    requires multiset(p) == multiset(q)
    ensures multiset(Gather(xs, p)) == multiset(Gather(xs, q))
    decreases |p|
  {
    if |p| == 0 {
      assert |multiset(q)| == 0;
    } else {
      assert p[0] in multiset(q);
      var j :| 0 <= j < |q| && q[j] == p[0];
      var p', q' := p[..0] + p[1..], q[..j] + q[j + 1..];
      MultisetRemoveAt(p, 0);
      MultisetRemoveAt(q, j);
      GatherRemoveAt(xs, p, 0);
      GatherRemoveAt(xs, q, j);
      GatherSameMultiset(xs, p', q');
      GatherHas(xs, p, 0);
      GatherHas(xs, q, j);
      MultisetCancel(multiset(Gather(xs, p)), multiset(Gather(xs, q)), xs[p[0]]);
    }
  }

  /** Gathering with a permutation of all positions is a permutation of the sequence. */
  lemma GatherPermutation<T>(xs: seq<T>, p: seq<nat>)
    requires IsPermutationOf(p, |xs|)
    ensures multiset(Gather(xs, p)) == multiset(xs)
  {
    GatherRange(xs);
    GatherSameMultiset(xs, p, Range(|xs|));
  }

  /** A non-decreasing order of a multiset of scores is unique. */
  lemma {:induction false} SortedPermutationsEqual(a: seq<real>, b: seq<real>)
    requires NonDecreasing(a) && NonDecreasing(b)
    requires multiset(a) == multiset(b)
    ensures a == b
    decreases |a|
  {
    if |a| == 0 {
      assert |multiset(b)| == 0;
    } else {
      assert |b| > 0 by { assert |multiset(b)| == |multiset(a)|; }
      assert a[0] in multiset(b);
      var j :| 0 <= j < |b| && b[j] == a[0];
      assert b[0] <= a[0];
      assert b[0] in multiset(a);
      var i :| 0 <= i < |a| && a[i] == b[0];
      assert a[0] <= b[0];
      assert a == [a[0]] + a[1..];
      assert b == [b[0]] + b[1..];
      assert a[0] == b[0];
      assert multiset(a[1..]) == multiset(a) - multiset{a[0]};
      assert multiset(b[1..]) == multiset(b) - multiset{b[0]};
      SortedPermutationsEqual(a[1..], b[1..]);
    }
  }
}
