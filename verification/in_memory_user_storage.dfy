/** `InMemoryUserStorage`: users in an id-keyed map, with friendship held in the users' own friend
    sets. `addFriend` and `deleteFriend` change both sets, so they keep the relation symmetric;
    `addUser` and `updateUser` store whatever friend set they are given. The Java class hands out
    its stored objects, and its callers mutate them in place; here every such mutation is an
    explicit replacement in the map. */
module InMemoryUserStorage {
  import opened Outcomes
  import opened Model
  import IdStore

  type Users = IdStore.Store<User>

  /** The store's invariant: ids come from the counter and each record carries its own key. */
  predicate Consistent(s: Users) {
    IdStore.Valid(s) && forall id :: id in s.rows ==> s.rows[id].id == id
  }

  /** The constructor: an empty map and `lastId` 0, so the first user gets id 1. */
  function Init(): (s: Users)
    ensures Consistent(s) && |s.rows| == 0
    ensures IdStore.NextId(s) == 1
  {
    IdStore.Empty()
  }

  /** `getUser`: the stored user, or null for an unknown id. */
  function GetUser(s: Users, id: int): (r: Option<User>)
    requires Consistent(s)
    ensures r.Some? <==> id in s.rows
    ensures r.Some? ==> r.value == s.rows[id] && r.value.id == id
  {
    IdStore.Get(s, id)
  }

  /** `getUsersList`: every stored user exactly once. */
  function GetUsersList(s: Users): (r: seq<User>)
    requires Consistent(s)
    ensures |r| == |s.rows|
    ensures forall i :: 0 <= i < |r| ==> r[i].id in s.rows && r[i] == s.rows[r[i].id]
    ensures forall i, j :: 0 <= i < j < |r| ==> r[i].id < r[j].id
    ensures forall id :: id in s.rows ==> exists i :: 0 <= i < |r| && r[i].id == id
  {
    var r := IdStore.Values(s);
    forall id | id in s.rows ensures exists i :: 0 <= i < |r| && r[i].id == id {
      var i :| 0 <= i < |IdStore.Ids(s)| && IdStore.Ids(s)[i] == id;
      assert r[i].id == id;
    }
    r
  }

  /** `addUser`: stores the user under `++lastId` and returns it with that id. */
  function AddUser(s: Users, u: User): (r: (Users, User))
    requires Consistent(s)
    ensures Consistent(r.0)
    ensures r.1 == u.(id := r.1.id)
    ensures r.1.id == IdStore.NextId(s) && r.1.id !in s.rows
    ensures r.0.rows.Keys == s.rows.Keys + {r.1.id}
    ensures GetUser(r.0, r.1.id) == Some(r.1)
    ensures forall id :: id in s.rows ==> r.0.rows[id] == s.rows[id]
  {
    var stored := u.(id := IdStore.NextId(s));
    (IdStore.Append(s, stored), stored)
  }

  /** `updateUser`: replaces the user stored under `u.id`, or throws `NotFound` if there is none. */
  function UpdateUser(s: Users, u: User): (r: Result<(Users, User)>)
    requires Consistent(s)
    ensures r.Err? <==> u.id !in s.rows
    ensures r.Err? ==> r.error == NotFound(UserRecord, u.id)
    ensures r.Ok? ==> Consistent(r.value.0) && r.value.1 == u
    ensures r.Ok? ==> GetUser(r.value.0, u.id) == Some(u)
    ensures r.Ok? ==> r.value.0.lastId == s.lastId && r.value.0.rows.Keys == s.rows.Keys
    ensures r.Ok? ==> forall id :: id in s.rows && id != u.id ==> r.value.0.rows[id] == s.rows[id]
  {
    if u.id !in s.rows then Err(NotFound(UserRecord, u.id))
    else Ok((IdStore.Put(s, u.id, u), u))
  }

  /** `y` is among `x`'s friends. */
  predicate FriendOf(s: Users, x: int, y: int)
    requires Consistent(s)
  {
    x in s.rows && y in s.rows[x].friends
  }

  /** Friendship between stored users goes both ways. */
  predicate Symmetric(s: Users)
    requires Consistent(s)
  {
    forall x, y :: x in s.rows && y in s.rows ==> (FriendOf(s, x, y) <==> FriendOf(s, y, x))
  }

  /** `user` with `extra` added to its friends. */
  function Befriend(user: User, extra: int): User {
    user.(friends := user.friends + {extra})
  }

  /** `user` with `gone` removed from its friends. */
  function Unfriend(user: User, gone: int): User {
    user.(friends := user.friends - {gone})
  }

  /** `addFriend`: each user's friend set gains the other's id. The Java method dereferences both
      users without a check, so both must exist. */
  function AddFriend(s: Users, userId: int, friendId: int): (r: Users)
    requires Consistent(s) && userId in s.rows && friendId in s.rows
    ensures Consistent(r) && r.lastId == s.lastId && r.rows.Keys == s.rows.Keys
    ensures r.rows[userId].friends == s.rows[userId].friends + {friendId}
    ensures r.rows[friendId].friends == s.rows[friendId].friends + {userId}
    // nothing but the two friend sets changes
    ensures r.rows[userId].(friends := s.rows[userId].friends) == s.rows[userId]
    ensures r.rows[friendId].(friends := s.rows[friendId].friends) == s.rows[friendId]
    ensures forall id :: id in s.rows && id != userId && id != friendId ==> r.rows[id] == s.rows[id]
  {
    var s1 := IdStore.Put(s, userId, Befriend(s.rows[userId], friendId));
    IdStore.Put(s1, friendId, Befriend(s1.rows[friendId], userId))
  }

  /** `deleteFriend`: each user's friend set loses the other's id; a missing edge is left missing. */
  function DeleteFriend(s: Users, userId: int, friendId: int): (r: Users)
    requires Consistent(s) && userId in s.rows && friendId in s.rows
    ensures Consistent(r) && r.lastId == s.lastId && r.rows.Keys == s.rows.Keys
    ensures r.rows[userId].friends == s.rows[userId].friends - {friendId}
    ensures r.rows[friendId].friends == s.rows[friendId].friends - {userId}
    // nothing but the two friend sets changes
    ensures r.rows[userId].(friends := s.rows[userId].friends) == s.rows[userId]
    ensures r.rows[friendId].(friends := s.rows[friendId].friends) == s.rows[friendId]
    ensures forall id :: id in s.rows && id != userId && id != friendId ==> r.rows[id] == s.rows[id]
  {
    var s1 := IdStore.Put(s, userId, Unfriend(s.rows[userId], friendId));
    IdStore.Put(s1, friendId, Unfriend(s1.rows[friendId], userId))
  }

  /** Adding a friendship twice is the same as adding it once. */
  lemma AddFriendIdempotent(s: Users, userId: int, friendId: int)
    requires Consistent(s) && userId in s.rows && friendId in s.rows
    ensures AddFriend(AddFriend(s, userId, friendId), userId, friendId) == AddFriend(s, userId, friendId)
  {
    var once := AddFriend(s, userId, friendId);
    var twice := AddFriend(once, userId, friendId);
    assert twice.rows[userId] == once.rows[userId];
    assert twice.rows[friendId] == once.rows[friendId];
    assert twice.rows == once.rows;
  }

  /** Deleting a friendship that is not there changes nothing. */
  lemma DeleteAbsentFriendIsNoOp(s: Users, userId: int, friendId: int)
    requires Consistent(s) && userId in s.rows && friendId in s.rows
    requires !FriendOf(s, userId, friendId) && !FriendOf(s, friendId, userId)
    ensures DeleteFriend(s, userId, friendId) == s
  {
    var r := DeleteFriend(s, userId, friendId);
    assert r.rows[userId] == s.rows[userId];
    assert r.rows[friendId] == s.rows[friendId];
    assert r.rows == s.rows;
  }

  /** `addFriend` keeps friendship symmetric and makes the two users friends of each other. */
  lemma AddFriendKeepsSymmetry(s: Users, userId: int, friendId: int)
    requires Consistent(s) && userId in s.rows && friendId in s.rows && Symmetric(s)
    ensures Symmetric(AddFriend(s, userId, friendId))
    ensures FriendOf(AddFriend(s, userId, friendId), userId, friendId)
    ensures FriendOf(AddFriend(s, userId, friendId), friendId, userId)
  {
    var r := AddFriend(s, userId, friendId);
    forall x, y | x in r.rows && y in r.rows
      ensures FriendOf(r, x, y) <==> FriendOf(r, y, x)
    {
      assert FriendOf(s, x, y) <==> FriendOf(s, y, x);
    }
  }

  /** `deleteFriend` keeps friendship symmetric and leaves neither user a friend of the other. */
  lemma DeleteFriendKeepsSymmetry(s: Users, userId: int, friendId: int)
    requires Consistent(s) && userId in s.rows && friendId in s.rows && Symmetric(s)
    ensures Symmetric(DeleteFriend(s, userId, friendId))
    ensures !FriendOf(DeleteFriend(s, userId, friendId), userId, friendId)
    ensures !FriendOf(DeleteFriend(s, userId, friendId), friendId, userId)
  {
    var r := DeleteFriend(s, userId, friendId);
    forall x, y | x in r.rows && y in r.rows
      ensures FriendOf(r, x, y) <==> FriendOf(r, y, x)
    {
      assert FriendOf(s, x, y) <==> FriendOf(s, y, x);
    }
  }

  /** Looks up each id in turn, null where no user is stored. */
  function Resolve(s: Users, ids: seq<int>): (r: seq<Option<User>>)
    requires Consistent(s)
    ensures |r| == |ids|
    ensures forall i :: 0 <= i < |ids| ==> r[i] == GetUser(s, ids[i])
  {
    seq(|ids|, i requires 0 <= i < |ids| => GetUser(s, ids[i]))
  }

  /** `getFriends`: one entry per id in the user's friend set, in the set's iteration order
      (returned as `order`), null for an id no user is stored under. */
  method GetFriends(s: Users, userId: int) returns (order: seq<int>, r: seq<Option<User>>)
    requires Consistent(s) && userId in s.rows
    ensures IdStore.Distinct(order) && forall id :: id in order <==> id in s.rows[userId].friends
    ensures |r| == |order| == |s.rows[userId].friends|
    ensures forall i :: 0 <= i < |r| ==> r[i] == GetUser(s, order[i])
  {
    order := IdStore.Enumerate(s.rows[userId].friends);
    r := Resolve(s, order);
  }

  /** `getCommonFriends`: one entry per id in both users' friend sets, in the first set's
      iteration order, null for an id no user is stored under. */
  method GetCommonFriends(s: Users, userId: int, otherId: int) returns (order: seq<int>, r: seq<Option<User>>)
    requires Consistent(s) && userId in s.rows && otherId in s.rows
    ensures IdStore.Distinct(order)
    ensures forall id :: id in order <==> id in s.rows[userId].friends && id in s.rows[otherId].friends
    ensures |r| == |order|
    ensures forall i :: 0 <= i < |r| ==> r[i] == GetUser(s, order[i])
  {
    var friends1 := IdStore.Enumerate(s.rows[userId].friends);
    var friends2 := s.rows[otherId].friends;
    order := [];
    var k := 0;
    while k < |friends1|
      invariant 0 <= k <= |friends1|
      invariant IdStore.Distinct(order)
      invariant forall id :: id in order <==> id in friends1[..k] && id in friends2
    {
      if friends1[k] in friends2 {
        assert friends1[k] !in friends1[..k];
        order := order + [friends1[k]];
      }
      assert friends1[..k + 1] == friends1[..k] + [friends1[k]];
      k := k + 1;
    }
    assert friends1[..k] == friends1;
    r := Resolve(s, order);
  }
}
