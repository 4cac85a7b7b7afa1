/** `UserDbStorage`: users kept in a `user` table and friendship in a `friends` table of
    (user_id, friend_id) pairs. Friendship here is DIRECTED: adding one pair says nothing about
    the reverse pair. The database's generated key is a parameter of `AddUser`. */
module UserDbStorage {
  import opened Outcomes
  import opened Dates
  import opened Model
  import opened Text
  import IdStore
  import Ranking

  /** One row of the `user` table; `birthday` is written from a value the code dereferences. */
  datatype UserRow = UserRow(login: Option<string>, name: Option<string>, email: Option<string>, birthday: Date)

  /** The two tables. `friends` has at most one row per pair, since rows are written with `MERGE`. */
  datatype UserTables = UserTables(users: map<int, UserRow>, friends: set<(int, int)>)

  /** The friend ids recorded for `id`, whether or not they name a user. */
  function FriendIds(db: UserTables, id: int): set<int> {
    set p | p in db.friends && p.0 == id :: p.1
  }

  lemma FriendIdsMeaning(db: UserTables, id: int, f: int)
    ensures f in FriendIds(db, id) <==> (id, f) in db.friends
  {
    if (id, f) in db.friends {
      assert (id, f).1 == f;
    }
  }

  /** `userFromRowSet` after `getUser`'s lookup: the row's fields plus the friend rows of the id. */
  function GetUser(db: UserTables, id: int): (r: Option<User>)
    ensures r.Some? <==> id in db.users
    ensures r.Some? ==> r.value.id == id
    ensures r.Some? ==> var row := db.users[id];
      && r.value.email == row.email && r.value.login == row.login && r.value.name == row.name
      && r.value.birthday == Some(row.birthday)
    ensures r.Some? ==> forall f :: f in r.value.friends <==> (id, f) in db.friends
  {
    if id !in db.users then None
    else
      var row := db.users[id];
      forall f ensures f in FriendIds(db, id) <==> (id, f) in db.friends {
        FriendIdsMeaning(db, id, f);
      }
      Some(User(id, row.email, row.login, row.name, Some(row.birthday), FriendIds(db, id)))
  }

  /** `addUser`: inserts the row under the generated key `newId` and reads it back. Only the
      `user` table changes; the friends the result shows are whatever rows already name `newId`. */
  function AddUser(db: UserTables, u: User, newId: int): (r: (UserTables, User))
    requires newId !in db.users && u.birthday.Some?
    ensures r.0.users.Keys == db.users.Keys + {newId} && r.0.friends == db.friends
    ensures forall id :: id in db.users ==> r.0.users[id] == db.users[id]
    ensures GetUser(r.0, newId) == Some(r.1)
    ensures r.1.(friends := u.friends) == u.(id := newId)
  {
    var db' := db.(users := db.users[newId := UserRow(u.login, u.name, u.email, u.birthday.value)]);
    assert FriendIds(db', newId) == FriendIds(db, newId);
    (db', GetUser(db', newId).value)
  }

  /** `updateUser`: rewrites the row of `u.id`; when no row has that id nothing changes and the
      lookup afterwards finds nothing, so `NotFound`. The friend rows are not touched: the result
      shows the stored friends, not `u.friends`. */
  function UpdateUser(db: UserTables, u: User): (r: Result<(UserTables, User)>)
    requires u.birthday.Some?
    ensures r.Err? <==> u.id !in db.users
    ensures r.Err? ==> r.error == NotFound(UserRecord, u.id)
    ensures r.Ok? ==> var (db', updated) := r.value;
      && db'.users.Keys == db.users.Keys && db'.friends == db.friends
      && (forall id :: id in db.users && id != u.id ==> db'.users[id] == db.users[id])
      && GetUser(db', u.id) == Some(updated)
      && updated.(friends := u.friends) == u
      && updated.friends == FriendIds(db, u.id)
  {
    if u.id !in db.users then Err(NotFound(UserRecord, u.id))
    else
      var db' := db.(users := db.users[u.id := UserRow(u.login, u.name, u.email, u.birthday.value)]);
      assert FriendIds(db', u.id) == FriendIds(db, u.id);
      Ok((db', GetUser(db', u.id).value))
  }

  /** `addFriend`: records that `userId` counts `friendId` as a friend. Nobody else's friends
      change, `friendId`'s included. Neither id is checked against the `user` table. */
  function AddFriend(db: UserTables, userId: int, friendId: int): (r: UserTables)
    ensures r.users == db.users
    ensures FriendIds(r, userId) == FriendIds(db, userId) + {friendId}
    ensures forall id :: id != userId ==> FriendIds(r, id) == FriendIds(db, id)
  {
    var r := db.(friends := db.friends + {(userId, friendId)});
    forall id ensures FriendIds(r, id) == FriendIds(db, id) + (if id == userId then {friendId} else {}) {
      forall f ensures f in FriendIds(r, id) <==> f in FriendIds(db, id) || (id == userId && f == friendId) {
        FriendIdsMeaning(r, id, f);
        FriendIdsMeaning(db, id, f);
      }
    }
    r
  }

  /** `deleteFriend`: removes that one pair; the reverse pair, if any, stays. */
  function DeleteFriend(db: UserTables, userId: int, friendId: int): (r: UserTables)
    ensures r.users == db.users
    ensures FriendIds(r, userId) == FriendIds(db, userId) - {friendId}
    ensures forall id :: id != userId ==> FriendIds(r, id) == FriendIds(db, id)
  {
    var r := db.(friends := db.friends - {(userId, friendId)});
    forall id ensures FriendIds(r, id) == FriendIds(db, id) - (if id == userId then {friendId} else {}) {
      forall f ensures f in FriendIds(r, id) <==> f in FriendIds(db, id) && !(id == userId && f == friendId) {
        FriendIdsMeaning(r, id, f);
        FriendIdsMeaning(db, id, f);
      }
    }
    r
  }

  /** Friendship is one-way: after `a` adds `b`, `b`'s friends are what they were. */
  lemma AddFriendIsOneWay(db: UserTables, a: int, b: int)
    requires a != b && a !in FriendIds(db, b)
    ensures b in FriendIds(AddFriend(db, a, b), a)
    ensures a !in FriendIds(AddFriend(db, a, b), b)
  {
  }

  /** `MERGE` makes a repeated add a no-op. */
  lemma AddFriendIdempotent(db: UserTables, a: int, b: int)
    ensures AddFriend(AddFriend(db, a, b), a, b) == AddFriend(db, a, b)
  {
  }

  /** Deleting a pair that was just added, and was not there before, restores the tables. */
  lemma DeleteFriendUndoesAdd(db: UserTables, a: int, b: int)
    requires b !in FriendIds(db, a)
    ensures DeleteFriend(AddFriend(db, a, b), a, b) == db
  {
    FriendIdsMeaning(db, a, b);
  }

  /** `ORDER BY u.name`: a null name sorts first (the database's default for ascending order),
      names compare character by character. */
  predicate NameBefore(a: User, b: User) {
    NullFirstLess(a.name, b.name)
  }

  lemma NameBeforeIsStrictWeakOrder()
    ensures Ranking.StrictWeakOrder(NameBefore)
  {
    forall a, b | NameBefore(a, b) ensures !NameBefore(b, a) {
      NullFirstLessAsymmetric(a.name, b.name);
    }
    forall a, b, c | NameBefore(a, c) ensures NameBefore(a, b) || NameBefore(b, c) {
      NullFirstLessSplits(a.name, b.name, c.name);
    }
  }

  /** The users of `ids`, looked up one by one. */
  function Load(db: UserTables, ids: seq<int>): (r: seq<User>)
    requires forall i :: 0 <= i < |ids| ==> ids[i] in db.users
    ensures |r| == |ids|
    ensures forall i :: 0 <= i < |r| ==> Some(r[i]) == GetUser(db, ids[i])
  {
    seq(|ids|, i requires 0 <= i < |ids| => GetUser(db, ids[i]).value)
  }

  /** The users a query selects, in the order `ORDER BY u.name` gives them; rows with equal names
      come in an order the database chooses. */
  method SelectOrderedByName(db: UserTables, ids: set<int>) returns (r: seq<User>)
    requires ids <= db.users.Keys
    ensures Ranking.Sorted(r, NameBefore)
    ensures |r| == |ids|
    ensures forall i :: 0 <= i < |r| ==> GetUser(db, r[i].id) == Some(r[i])
    ensures forall i, j :: 0 <= i < j < |r| ==> r[i].id != r[j].id
    ensures forall id :: (exists i :: 0 <= i < |r| && r[i].id == id) <==> id in ids
  {
    var order := IdStore.Enumerate(ids);
    assert forall i :: 0 <= i < |order| ==> order[i] in ids;
    var loaded := Load(db, order);
    assert IdStore.Distinct(loaded) by {
      forall i, j | 0 <= i < j < |loaded| ensures loaded[i] != loaded[j] {
        assert loaded[i].id == order[i] && loaded[j].id == order[j];
      }
    }
    r := Ranking.Sort(loaded, NameBefore);
    Ranking.SortPermutes(loaded, NameBefore);
    NameBeforeIsStrictWeakOrder();
    Ranking.SortSorted(loaded, NameBefore);
    IdStore.PermutationKeepsDistinct(loaded, r);
    PermutedUsers(db, ids, order, loaded, r);
  }

  /** A permutation of the users loaded for `order` holds exactly the users of `ids`. */
  lemma PermutedUsers(db: UserTables, ids: set<int>, order: seq<int>, loaded: seq<User>, r: seq<User>)
    requires forall i :: 0 <= i < |order| ==> order[i] in ids && order[i] in db.users
    requires forall id :: id in ids ==> exists i :: 0 <= i < |order| && order[i] == id
    requires loaded == Load(db, order) && multiset(r) == multiset(loaded) && IdStore.Distinct(r)
    ensures forall i :: 0 <= i < |r| ==> GetUser(db, r[i].id) == Some(r[i])
    ensures forall i, j :: 0 <= i < j < |r| ==> r[i].id != r[j].id
    ensures forall id :: (exists i :: 0 <= i < |r| && r[i].id == id) <==> id in ids
  {
    forall i | 0 <= i < |r| ensures GetUser(db, r[i].id) == Some(r[i]) && r[i].id in ids {
      assert r[i] in multiset(loaded);
      var k :| 0 <= k < |loaded| && loaded[k] == r[i];
    }
    forall i, j | 0 <= i < j < |r| ensures r[i].id != r[j].id {
      assert r[i] != r[j];
    }
    forall id | id in ids ensures exists i :: 0 <= i < |r| && r[i].id == id {
      var k :| 0 <= k < |order| && order[k] == id;
      assert loaded[k] in multiset(r);
      var i :| 0 <= i < |r| && r[i] == loaded[k];
    }
  }

  /** `getUsersList`: every user once, in the table's own order. */
  method GetUsersList(db: UserTables) returns (r: seq<User>)
    ensures |r| == |db.users|
    ensures forall i :: 0 <= i < |r| ==> GetUser(db, r[i].id) == Some(r[i])
    ensures forall i, j :: 0 <= i < j < |r| ==> r[i].id != r[j].id
    ensures forall id :: (exists i :: 0 <= i < |r| && r[i].id == id) <==> id in db.users
  {
    var order := IdStore.Enumerate(db.users.Keys);
    forall i | 0 <= i < |order| ensures order[i] in db.users {
      assert order[i] in db.users.Keys;
    }
    r := Load(db, order);
    forall id | id in db.users ensures exists i :: 0 <= i < |r| && r[i].id == id {
      var k :| 0 <= k < |order| && order[k] == id;
      assert r[k].id == id;
    }
  }

  /** `getFriends`: the users `userId` counts as friends, joined with the `user` table, ordered by
      name. */
  method GetFriends(db: UserTables, userId: int) returns (r: seq<User>)
    ensures Ranking.Sorted(r, NameBefore)
    ensures forall i :: 0 <= i < |r| ==> GetUser(db, r[i].id) == Some(r[i])
    ensures forall i, j :: 0 <= i < j < |r| ==> r[i].id != r[j].id
    ensures forall id :: (exists i :: 0 <= i < |r| && r[i].id == id) <==>
      (userId, id) in db.friends && id in db.users
  {
    var ids := FriendIds(db, userId) * db.users.Keys;
    r := SelectOrderedByName(db, ids);
    forall id ensures (exists i :: 0 <= i < |r| && r[i].id == id) <==>
      (userId, id) in db.friends && id in db.users
    {
      FriendIdsMeaning(db, userId, id);
      assert id in ids <==> id in FriendIds(db, userId) && id in db.users;
    }
  }

  /** `getCommonFriends`: the users both ids count as friends, ordered by name. */
  method GetCommonFriends(db: UserTables, userId: int, otherId: int) returns (r: seq<User>)
    ensures Ranking.Sorted(r, NameBefore)
    ensures forall i :: 0 <= i < |r| ==> GetUser(db, r[i].id) == Some(r[i])
    ensures forall i, j :: 0 <= i < j < |r| ==> r[i].id != r[j].id
    ensures forall id :: (exists i :: 0 <= i < |r| && r[i].id == id) <==>
      (userId, id) in db.friends && (otherId, id) in db.friends && id in db.users
  {
    var ids := FriendIds(db, userId) * FriendIds(db, otherId) * db.users.Keys;
    r := SelectOrderedByName(db, ids);
    forall id ensures (exists i :: 0 <= i < |r| && r[i].id == id) <==>
      (userId, id) in db.friends && (otherId, id) in db.friends && id in db.users
    {
      FriendIdsMeaning(db, userId, id);
      FriendIdsMeaning(db, otherId, id);
      assert id in ids <==> id in FriendIds(db, userId) && id in FriendIds(db, otherId) && id in db.users;
    }
  }
}
