/**
 `Recommender.scores2recos`: turns the scores of the candidate items into a
 recommendation list. The positions are sorted by ascending score
 (`np.argsort`), the order is reversed when `rev` holds, and the same order
 is applied to the candidate item indices and to the scores.
 */
module Ranking {
  import opened Permutations
  import opened Sorting

  /** The pair `scores2recos` returns: ranked item indices and their scores. */
  datatype Recos = Recos(items: seq<int>, scores: seq<real>)

  /** The order that is applied: the ascending one, or its reverse when `rev` holds. */
  function Oriented(order: seq<nat>, rev: bool): (o: seq<nat>)
    ensures |o| == |order|
  {
    if rev then Reverse(order) else order
  }

  /**
   `scores2recos` for the sorting permutation `order` that `np.argsort`
   returned: any order meeting `IsArgsort`, since NumPy does not fix how
   equal scores are ordered. One order is applied to both inputs, and the
   scores come out ascending, or descending when `rev` holds.
   */
  function RankBy(scores: seq<real>, targets: seq<int>, rev: bool, order: seq<nat>): (r: Recos)
    requires |targets| == |scores|
    requires IsArgsort(scores, order)
    ensures |r.items| == |r.scores| == |scores|
    ensures !rev ==> forall k :: 0 <= k < |scores| ==>
      r.items[k] == targets[order[k]] && r.scores[k] == scores[order[k]]
    ensures rev ==> forall k :: 0 <= k < |scores| ==>
      r.items[k] == targets[order[|scores| - 1 - k]] && r.scores[k] == scores[order[|scores| - 1 - k]]
    ensures !rev ==> NonDecreasing(r.scores)
    ensures rev ==> NonIncreasing(r.scores)
  {
    var o := Oriented(order, rev);
    ReversePermutation(order, |scores|);
    Recos(Gather(targets, o), Gather(scores, o))
  }

  /**
   The ranking neither drops nor invents anything: the (item, score) pairs,
   the items and the scores are each a permutation of the input's.
   */
  lemma RankByPermutes(scores: seq<real>, targets: seq<int>, rev: bool, order: seq<nat>)
    requires |targets| == |scores|
    requires IsArgsort(scores, order)
    ensures var r := RankBy(scores, targets, rev, order);
      && multiset(Zip(r.items, r.scores)) == multiset(Zip(targets, scores))
      && multiset(r.items) == multiset(targets)
      && multiset(r.scores) == multiset(scores)
  {
    var o := Oriented(order, rev);
    ReversePermutation(order, |scores|);
    GatherPermutation(targets, o);
    GatherPermutation(scores, o);
    GatherPermutation(Zip(targets, scores), o);
    GatherZip(targets, scores, o);
  }

  /**
   `scores2recos(scores, target_i_indices, rev)` with the concrete `Argsort`
   standing for `np.argsort`.
   */
  function Scores2Recos(scores: seq<real>, targets: seq<int>, rev: bool): (r: Recos)
    requires |targets| == |scores|
    ensures |r.items| == |r.scores| == |scores|
    ensures multiset(Zip(r.items, r.scores)) == multiset(Zip(targets, scores))
    ensures multiset(r.items) == multiset(targets)
    ensures multiset(r.scores) == multiset(scores)
    ensures !rev ==> NonDecreasing(r.scores)
    ensures rev ==> NonIncreasing(r.scores)
  {
    RankByPermutes(scores, targets, rev, Argsort(scores));
    RankBy(scores, targets, rev, Argsort(scores))
  }

  /**
   Both outputs for `rev` are exactly the reverses of the outputs without it,
   because the one sorting permutation is reversed before it is applied.
   */
  lemma RevReversesRanking(scores: seq<real>, targets: seq<int>, order: seq<nat>)
    requires |targets| == |scores|
    requires IsArgsort(scores, order)
    ensures RankBy(scores, targets, true, order).items == Reverse(RankBy(scores, targets, false, order).items)
    ensures RankBy(scores, targets, true, order).scores == Reverse(RankBy(scores, targets, false, order).scores)
  {
    var up, down := RankBy(scores, targets, false, order), RankBy(scores, targets, true, order);
    assert down.items == Reverse(up.items);
    assert down.scores == Reverse(up.scores);
  }

  /** The same relation for `Scores2Recos`, whose argsort is computed once per input. */
  lemma Scores2RecosRev(scores: seq<real>, targets: seq<int>)
    requires |targets| == |scores|
    ensures Scores2Recos(scores, targets, true).items == Reverse(Scores2Recos(scores, targets, false).items)
    ensures Scores2Recos(scores, targets, true).scores == Reverse(Scores2Recos(scores, targets, false).scores)
  {
    RevReversesRanking(scores, targets, Argsort(scores));
  }

  /**
   The ranked scores do not depend on how the sort orders equal scores:
   every sorting permutation gives the same score list.
   */
  lemma RankedScoresIndependentOfTies(scores: seq<real>, targets: seq<int>, rev: bool, p: seq<nat>, q: seq<nat>)
    requires |targets| == |scores|
    requires IsArgsort(scores, p) && IsArgsort(scores, q)
    ensures RankBy(scores, targets, rev, p).scores == RankBy(scores, targets, rev, q).scores
  {
    ArgsortScoresUnique(scores, p, q);
    var a, b := RankBy(scores, targets, rev, p).scores, RankBy(scores, targets, rev, q).scores;
    forall k | 0 <= k < |scores|
      ensures a[k] == b[k]
    {
      if rev {
        assert a[k] == Gather(scores, p)[|scores| - 1 - k];
      } else {
        assert a[k] == Gather(scores, p)[k];
      }
    }
  }

  /** With pairwise distinct scores the whole ranking is determined by the input. */
  lemma DistinctScoresFixRanking(scores: seq<real>, targets: seq<int>, rev: bool, order: seq<nat>)
    requires |targets| == |scores|
    requires forall j, k :: 0 <= j < k < |scores| ==> scores[j] != scores[k]
    requires IsArgsort(scores, order)
    ensures RankBy(scores, targets, rev, order) == Scores2Recos(scores, targets, rev)
  {
    ArgsortUniqueWhenDistinct(scores, order, Argsort(scores));
  }

  /** The scores 0.3, 0.1, 0.2 have the sorting permutation 1, 2, 0. */
  lemma ExampleArgsort()
    ensures IsArgsort([0.3, 0.1, 0.2], [1, 2, 0])
  {
    var s: seq<real>, p: seq<nat> := [0.3, 0.1, 0.2], [1, 2, 0];
    assert Range(3) == [0, 1, 2];
    assert multiset(p) == multiset([0, 1, 2]);
    assert Gather(s, p) == [0.1, 0.2, 0.3];
  }

  /** Scores 0.3, 0.1, 0.2 for items 7, 8, 9 rank as 8, 9, 7 ascending, for every argsort. */
  lemma ExampleAscending(order: seq<nat>)
    requires IsArgsort([0.3, 0.1, 0.2], order)
    ensures RankBy([0.3, 0.1, 0.2], [7, 8, 9], false, order) == Recos([8, 9, 7], [0.1, 0.2, 0.3])
  {
    ExampleArgsort();
    ArgsortUniqueWhenDistinct([0.3, 0.1, 0.2], order, [1, 2, 0]);
    var r := RankBy([0.3, 0.1, 0.2], [7, 8, 9], false, [1, 2, 0]);
    assert r.items == [8, 9, 7];
    assert r.scores == [0.1, 0.2, 0.3];
  }

  /** The concrete `Scores2Recos` gives that same ranking. */
  lemma ExampleScores2Recos()
    ensures Scores2Recos([0.3, 0.1, 0.2], [7, 8, 9], false) == Recos([8, 9, 7], [0.1, 0.2, 0.3])
  {
    ExampleAscending(Argsort([0.3, 0.1, 0.2]));
  }

  /** The same input with `rev` ranks 7, 9, 8 with scores 0.3, 0.2, 0.1. */
  lemma ExampleDescending(order: seq<nat>)
    requires IsArgsort([0.3, 0.1, 0.2], order)
    ensures RankBy([0.3, 0.1, 0.2], [7, 8, 9], true, order) == Recos([7, 9, 8], [0.3, 0.2, 0.1])
  {
    var s, t := [0.3, 0.1, 0.2], [7, 8, 9];
    ExampleAscending(order);
    RevReversesRanking(s, t, order);
    var up := RankBy(s, t, false, order);
    assert up.items == [8, 9, 7] && up.scores == [0.1, 0.2, 0.3];
    assert Reverse(up.items) == [7, 9, 8];
    assert Reverse(up.scores) == [0.3, 0.2, 0.1];
  }

  /**
   Equal scores 0.5, 0.5 for items 1, 2: both the input order and the
   swapped one are sorting permutations, so either ranking 1, 2 or 2, 1 is
   an admissible result; the sort does not promise to keep input order.
   */
  lemma ExampleTiesNotStable()
    ensures IsArgsort([0.5, 0.5], [0, 1]) && IsArgsort([0.5, 0.5], [1, 0])
    ensures RankBy([0.5, 0.5], [1, 2], false, [0, 1]).items == [1, 2]
    ensures RankBy([0.5, 0.5], [1, 2], false, [1, 0]).items == [2, 1]
  {
    var s: seq<real>, p: seq<nat>, q: seq<nat> := [0.5, 0.5], [0, 1], [1, 0];
    assert Range(2) == p;
    assert multiset(q) == multiset(p);
    assert Gather(s, p) == s && Gather(s, q) == s;
  }
}
