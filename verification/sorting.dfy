/**
 `np.argsort(scores)`: an order of the positions of `scores` under which the
 scores read in ascending order. NumPy's default sort kind is not stable, so
 the specification `IsArgsort` fixes nothing about how equal scores are
 ordered; `Argsort` is one concrete order meeting it.
 */
module Sorting {
  import opened Permutations

  /** `p` is a sorting permutation of `s`: every position once, scores ascending. */
  ghost predicate IsArgsort(s: seq<real>, p: seq<nat>) {
    IsPermutationOf(p, |s|) && NonDecreasing(Gather(s, p))
  }

  /** The positions in `p` select non-decreasing scores of `s`. */
  ghost predicate SortedBy(s: seq<real>, p: seq<nat>)
    requires InBounds(p, |s|)
  {
    forall j, k :: 0 <= j < k < |p| ==> s[p[j]] <= s[p[k]]
  }

  /**
   Inserts position `i` into the order `p`, before the first position whose
   score is strictly larger than `s[i]`.
   */
  function Insert(s: seq<real>, i: nat, p: seq<nat>): (r: seq<nat>)
    requires i < |s| && InBounds(p, |s|)
    ensures |r| == |p| + 1
    ensures forall k :: 0 <= k < |r| ==> r[k] == i || r[k] in p
    ensures InBounds(r, |s|)
    ensures multiset(r) == multiset(p) + multiset{i}
    decreases |p|
  {
    if |p| == 0 then [i]
    else if s[i] < s[p[0]] then [i] + p
    else
      assert p == [p[0]] + p[1..];
      [p[0]] + Insert(s, i, p[1..])
  }

  /** Inserting into a sorted order keeps it sorted. */
  lemma {:induction false} InsertSorted(s: seq<real>, i: nat, p: seq<nat>)
    requires i < |s| && InBounds(p, |s|)
    requires SortedBy(s, p)
    ensures SortedBy(s, Insert(s, i, p))
    decreases |p|
  {
    if |p| > 0 && s[p[0]] <= s[i] {
      var rest := Insert(s, i, p[1..]);
      InsertSorted(s, i, p[1..]);
      forall k | 0 <= k < |rest|
        ensures s[p[0]] <= s[rest[k]]
      {
        if rest[k] != i {
          var m :| 0 <= m < |p[1..]| && p[1..][m] == rest[k];
          assert p[1 + m] == rest[k];
        }
      }
      assert Insert(s, i, p) == [p[0]] + rest;
    }
  }

  /** Inserting position `n` into a permutation of 0..n-1 gives a permutation of 0..n. */
  lemma InsertExtendsPermutation(s: seq<real>, n: nat, p: seq<nat>)
    requires n < |s| && IsPermutationOf(p, n) && InBounds(p, |s|)
    ensures IsPermutationOf(Insert(s, n, p), n + 1)
  {
    var r := Insert(s, n, p);
    assert Range(n + 1) == Range(n) + [n];
    forall k | 0 <= k < |r|
      ensures r[k] < n + 1
    {
      if r[k] != n {
        assert r[k] in p;
      }
    }
  }

  /** A sorting order of the first `n` positions of `s`. */
  function ArgsortPrefix(s: seq<real>, n: nat): (r: seq<nat>)
    requires n <= |s|
    ensures IsPermutationOf(r, n)
    ensures InBounds(r, |s|)
    ensures SortedBy(s, r)
    decreases n
  {
    if n == 0 then []
    else
      var p := ArgsortPrefix(s, n - 1);
      InsertSorted(s, n - 1, p);
      InsertExtendsPermutation(s, n - 1, p);
      Insert(s, n - 1, p)
  }

  /** A sorting permutation of the scores, ascending. */
  function Argsort(s: seq<real>): (r: seq<nat>)
    ensures IsArgsort(s, r)
  {
    ArgsortPrefix(s, |s|)
  }

  /** Any two sorting permutations select the same score sequence. */
  lemma ArgsortScoresUnique(s: seq<real>, p: seq<nat>, q: seq<nat>)
    requires IsArgsort(s, p) && IsArgsort(s, q)
    ensures Gather(s, p) == Gather(s, q)
  {
    GatherPermutation(s, p);
    GatherPermutation(s, q);
    SortedPermutationsEqual(Gather(s, p), Gather(s, q));
  }

  /** When no two scores are equal there is exactly one sorting permutation. */
  lemma ArgsortUniqueWhenDistinct(s: seq<real>, p: seq<nat>, q: seq<nat>)
    requires forall j, k :: 0 <= j < k < |s| ==> s[j] != s[k]
    requires IsArgsort(s, p) && IsArgsort(s, q)
    ensures p == q
  {
    ArgsortScoresUnique(s, p, q);
    forall k | 0 <= k < |p|
      ensures p[k] == q[k]
    {
      assert Gather(s, p)[k] == Gather(s, q)[k];
    }
  }
}
