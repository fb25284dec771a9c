# flurs base recommender — Dafny model

A model of `flurs/base.py`, the abstract base of the flurs incremental
recommenders for positive-only feedback. The file holds two pieces of real
behaviour, and both are modelled here:

- **Entity registry** (`Recommender.__init__`, `is_new_user`, `add_user`,
  `is_new_item`, `add_item`): two counters and two maps keyed by integer
  index. A user record holds the set of observed item indices; an item record
  is empty. Module `Registry` models the state as an immutable datatype and
  the operations as pure functions. A registration history (`Replay`) from a
  fresh recommender connects the operations to each other.
- **Score-to-ranking conversion** (`Recommender.scores2recos`): `np.argsort`
  sorts the positions of `scores` ascending. The order is reversed when `rev`
  holds. The same order is applied to `target_i_indices` and to `scores`.
  Module `Sorting` states what a sorting permutation is (`IsArgsort`) and gives
  one concrete insertion-sort `Argsort`. Module `Ranking` models the
  conversion twice. `RankBy` works for any sorting permutation, because
  NumPy's default sort kind does not fix the order of equal scores.
  `Scores2Recos` uses the concrete `Argsort`. Module `Permutations` holds the
  sequence vocabulary: fancy indexing (`Gather`), `[::-1]` (`Reverse`),
  zipping, and the multiset facts behind "is a permutation".

Scores are `real`: only their order is used. Item and user indices are
`int`. A `User` or `Item` object is represented only by its `index`.

Two behaviours of the code are worth stating up front:

- `scores2recos` calls `np.argsort` with the default sort kind, which does
  not fix the order of equal scores (flurs/base.py:133).
  `ExampleTiesNotStable` shows that both orders of two equal scores are
  admissible, and `RankBy` is stated for every admissible order.
- `add_user`/`add_item` do not reject a known index: they overwrite the
  record and increment the counter again (flurs/base.py:53-54, 76-77).
  `AddUser`/`AddItem` model that as written. Their contracts state both
  cases: on a new index the counters stay equal to the map sizes, and on a
  known index the counter runs one ahead of the map size.
  `GuardedReplayValid` shows that a history registering only new indices
  keeps the counters equal to the map sizes.

## Model

| member | source | states |
|---|---|---|
| Registry.Init | flurs/base.py:13-24 | a new recommender has both counters at 0, each counter equal to its map's size, and every user and item index new |
| Registry.IsNewUser | flurs/base.py:33-43 | `u` is new exactly when it is not a key of `users`; a pure lookup that changes nothing |
| Registry.IsNewItem | flurs/base.py:56-66 | `i` is new exactly when it is not a key of `items`; a pure lookup that changes nothing |
| Registry.AddUser | flurs/base.py:45-54 | afterwards the user is known, its observed set is empty, the user count grew by exactly 1, the key set gained exactly that index, other user records are unchanged, and the item side is untouched; from a state with counters equal to map sizes, a new index keeps them equal and a known index leaves `n_user` one above the number of user records |
| Registry.AddItem | flurs/base.py:68-77 | afterwards the item is known, its record is the empty record, the item count grew by exactly 1, the key set gained exactly that index, other item records are unchanged, and the user side is untouched; from a state with counters equal to map sizes, a new index keeps them equal and a known index leaves `n_item` one above the number of item records |
| Registry.ReplayIsNewUser | flurs/base.py:33-54 | after any registration history, `is_new_user(u)` holds exactly when no registration named user `u` |
| Registry.ReplayIsNewItem | flurs/base.py:56-77 | after any registration history, `is_new_item(i)` holds exactly when no registration named item `i` |
| Registry.GuardedReplayValid | flurs/base.py:13-77 | a history that registers each index at most once keeps both counters equal to their map sizes |
| Registry.ReplayMonotone | flurs/base.py:45-77 | registrations never remove a user or item key and never decrease a counter |
| Sorting.Argsort | flurs/base.py:133 | the computed order lists every position exactly once and reads the scores in ascending order |
| Sorting.ArgsortScoresUnique | flurs/base.py:133 | any two sorting permutations of the same scores select the same score sequence |
| Sorting.ArgsortUniqueWhenDistinct | flurs/base.py:133 | when no two scores are equal, there is exactly one sorting permutation |
| Ranking.RankBy | flurs/base.py:120-138 | both outputs have the input length, a single order is applied to items and scores (reversed when `rev` holds), and the scores come out non-decreasing, or non-increasing when `rev` holds |
| Ranking.RankByPermutes | flurs/base.py:133-138 | the (item, score) pairs, the items and the scores of the ranking are each a permutation of the input's |
| Ranking.Scores2Recos | flurs/base.py:120-138 | with the concrete argsort: equal lengths, pairs preserved as a multiset, items and scores permutations of the input, ascending or (with `rev`) descending scores |
| Ranking.RevReversesRanking | flurs/base.py:133-138 | for one argsort order, the `rev` outputs are exactly the reverse of the non-`rev` outputs, for items and scores |
| Ranking.Scores2RecosRev | flurs/base.py:133-138 | the same reversal relation for `Scores2Recos` |
| Ranking.RankedScoresIndependentOfTies | flurs/base.py:133-138 | the ranked score list does not depend on how the sort orders equal scores |
| Ranking.DistinctScoresFixRanking | flurs/base.py:133-138 | with pairwise distinct scores, the ranking for any sorting permutation equals `Scores2Recos` |
| Ranking.ExampleArgsort | flurs/base.py:133 | scores 0.3, 0.1, 0.2 are sorted by the order 1, 2, 0 |
| Ranking.ExampleAscending | flurs/base.py:120-138 | scores 0.3, 0.1, 0.2 for items 7, 8, 9 give items 8, 9, 7 with scores 0.1, 0.2, 0.3 |
| Ranking.ExampleScores2Recos | flurs/base.py:120-138 | the concrete `Scores2Recos` ranks that input as items 8, 9, 7 with scores 0.1, 0.2, 0.3 |
| Ranking.ExampleDescending | flurs/base.py:120-138 | the same input with `rev` gives items 7, 9, 8 with scores 0.3, 0.2, 0.1 |
| Ranking.ExampleTiesNotStable | flurs/base.py:133 | for equal scores 0.5, 0.5 both orders are sorting permutations, so items 1, 2 and items 2, 1 are both admissible |

## Left out

- `init_model`, `update`, `predict`, `recommend` and `FeatureRecommender.recommend`: abstract, with bodies `pass` or `return`, so there is no behaviour to model.
- The marking of observed items in a user record: only concrete subclasses' `update` does that.
- `ABCMeta` / `abstractmethod` enforcement: a Python runtime mechanism, and `__metaclass__` has no effect in Python 3.
- Floating-point scores, including NaN ordering: scores are `real`, totally ordered.
- The `User`, `Item` and `Event` objects: only the integer `index` is modelled.
- Ranking.RankBy: requires `scores` and `target_i_indices` of equal length. NumPy would accept a longer index array and rank only its first `len(scores)` entries, and would raise an index error for a shorter one; the documented shapes are equal.
- Ranking.Scores2Recos: the same equal-length requirement as `RankBy`.
- Sorting.Argsort: one concrete tie order stands in for NumPy's unspecified one. `RankBy` covers every other admissible order.
