/**
 The entity bookkeeping of `Recommender`: how many users and items have been
 registered, and one record per registered index. A user's record holds the
 set of item indices the user has observed; an item's record is empty.
 Registration is not guarded: registering a known index again overwrites its
 record and still increments the counter, so callers check `IsNewUser` /
 `IsNewItem` first.
 */
module Registry {

  datatype UserRecord = UserRecord(observed: set<int>)

  datatype ItemRecord = ItemRecord

  datatype Recommender = Recommender(
    nUser: nat,
    users: map<int, UserRecord>,
    nItem: nat,
    items: map<int, ItemRecord>)

  /** Each counter agrees with the number of records it counts. */
  ghost predicate Valid(r: Recommender) {
    r.nUser == |r.users| && r.nItem == |r.items|
  }

  /** A freshly constructed recommender: no users, no items. */
  function Init(): (r: Recommender)
    ensures Valid(r)
    ensures r.nUser == 0 && r.nItem == 0
    ensures forall u :: IsNewUser(r, u)
    ensures forall i :: IsNewItem(r, i)
  {
    Recommender(0, map[], 0, map[])
  }

  /** `is_new_user`: a pure lookup of `u` among the registered user keys. */
  predicate IsNewUser(r: Recommender, u: int): (b: bool)
    ensures b <==> u !in r.users.Keys
  {
    u !in r.users
  }

  /** `is_new_item`: a pure lookup of `i` among the registered item keys. */
  predicate IsNewItem(r: Recommender, i: int): (b: bool)
    ensures b <==> i !in r.items.Keys
  {
    i !in r.items
  }

  /**
   Registers user `u` with an empty observed set and counts it. Every other
   user record and the whole item side are left as they were. On a new
   index the counters stay equal to the map sizes; on a known index the
   user count runs one ahead of the records.
   */
  function AddUser(r: Recommender, u: int): (r': Recommender)
    ensures !IsNewUser(r', u)
    ensures r'.users[u].observed == {}
    ensures r'.nUser == r.nUser + 1
    ensures r'.users.Keys == r.users.Keys + {u}
    ensures forall v :: v != u && v in r.users ==> r'.users[v] == r.users[v]
    ensures r'.nItem == r.nItem && r'.items == r.items
    ensures Valid(r) && IsNewUser(r, u) ==> Valid(r')
    ensures Valid(r) && !IsNewUser(r, u) ==> r'.nUser == |r'.users| + 1
  {
    r.(users := r.users[u := UserRecord({})], nUser := r.nUser + 1)
  }

  /**
   Registers item `i` with an empty record and counts it. Every other item
   record and the whole user side are left as they were. On a new index the
   counters stay equal to the map sizes; on a known index the item count
   runs one ahead of the records.
   */
  function AddItem(r: Recommender, i: int): (r': Recommender)
    ensures !IsNewItem(r', i)
    ensures r'.items[i] == ItemRecord
    ensures r'.nItem == r.nItem + 1
    ensures r'.items.Keys == r.items.Keys + {i}
    ensures forall j :: j != i && j in r.items ==> r'.items[j] == r.items[j]
    ensures r'.nUser == r.nUser && r'.users == r.users
    ensures Valid(r) && IsNewItem(r, i) ==> Valid(r')
    ensures Valid(r) && !IsNewItem(r, i) ==> r'.nItem == |r'.items| + 1
  {
    r.(items := r.items[i := ItemRecord], nItem := r.nItem + 1)
  }

  /** One registration call, as a driver issues it on first sight of an index. */
  datatype Registration = NewUser(user: int) | NewItem(item: int)

  function Apply(r: Recommender, op: Registration): Recommender {
    match op
    case NewUser(u) => AddUser(r, u)
    case NewItem(i) => AddItem(r, i)
  }

  /** The recommender after the registrations `ops`, in order, from `Init()`. */
  function Replay(ops: seq<Registration>): Recommender
    decreases |ops|
  {
    if |ops| == 0 then Init() else Apply(Replay(ops[..|ops| - 1]), ops[|ops| - 1])
  }

  /** Every registration in `ops` is of an index not registered before it. */
  ghost predicate Guarded(ops: seq<Registration>) {
    forall j, k :: 0 <= j < k < |ops| ==> ops[j] != ops[k]
  }

  /** A user index is new exactly when no registration in the history named it. */
  lemma {:induction false} ReplayIsNewUser(ops: seq<Registration>, u: int)
    ensures IsNewUser(Replay(ops), u) <==> NewUser(u) !in ops
    decreases |ops|
  {
    if |ops| > 0 {
      var init, last := ops[..|ops| - 1], ops[|ops| - 1];
      ReplayIsNewUser(init, u);
      assert Replay(ops) == Apply(Replay(init), last);
      assert NewUser(u) in ops <==> NewUser(u) in init || last == NewUser(u) by {
        assert ops == init + [last];
      }
    }
  }

  /** An item index is new exactly when no registration in the history named it. */
  lemma {:induction false} ReplayIsNewItem(ops: seq<Registration>, i: int)
    ensures IsNewItem(Replay(ops), i) <==> NewItem(i) !in ops
    decreases |ops|
  {
    if |ops| > 0 {
      var init, last := ops[..|ops| - 1], ops[|ops| - 1];
      ReplayIsNewItem(init, i);
      assert Replay(ops) == Apply(Replay(init), last);
      assert NewItem(i) in ops <==> NewItem(i) in init || last == NewItem(i) by {
        assert ops == init + [last];
      }
    }
  }

  /**
   A history in which every registration was guarded by `IsNewUser` /
   `IsNewItem` leaves the counters equal to the number of records.
   */
  lemma {:induction false} GuardedReplayValid(ops: seq<Registration>)
    requires Guarded(ops)
    ensures Valid(Replay(ops))
    decreases |ops|
  {
    if |ops| > 0 {
      var init, last := ops[..|ops| - 1], ops[|ops| - 1];
      assert Guarded(init);
      GuardedReplayValid(init);
      assert last !in init;
      match last
      case NewUser(u) =>
        ReplayIsNewUser(init, u);
      case NewItem(i) =>
        ReplayIsNewItem(init, i);
    }
  }

  /**
   Records are never removed and counters never decrease: what a prefix of
   the history registered is still registered after all of it.
   */
  lemma {:induction false} ReplayMonotone(ops: seq<Registration>, n: nat)
    requires n <= |ops|
    ensures Replay(ops[..n]).users.Keys <= Replay(ops).users.Keys
    ensures Replay(ops[..n]).items.Keys <= Replay(ops).items.Keys
    ensures Replay(ops[..n]).nUser <= Replay(ops).nUser
    ensures Replay(ops[..n]).nItem <= Replay(ops).nItem
    decreases |ops|
  {
    if n < |ops| {
      var init := ops[..|ops| - 1];
      assert ops[..n] == init[..n];
      ReplayMonotone(init, n);
    } else {
      assert ops[..n] == ops;
    }
  }
}
