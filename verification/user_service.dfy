/** `UserService` over the in-memory user storage: validation (with the display-name default)
    before a user is stored, `NotFound` for unknown ids, and friend additions and removals made on
    both users. `addUser` and `updateUser` store the friend set they are sent as it is, so only
    `AddFriend` and `DeleteFriend` keep friendship symmetric. The friend queries skip ids that no
    longer resolve to a user. `today` stands for `LocalDate.now()`. */
module UserService {
  import opened Outcomes
  import opened Dates
  import opened Model
  import opened Validation
  import opened Text
  import IdStore
  import Storage = InMemoryUserStorage

  type Users = Storage.Users

  /** `addUser`: validates, then stores the user with its display name defaulted. */
  function AddUser(s: Users, u: User, today: Date): (r: Result<(Users, User)>)
    requires Storage.Consistent(s)
    ensures r.Ok? <==> UserValid(u, today)
    ensures r.Err? ==> r.error == ValidateUser(u, today).error
    ensures r.Ok? ==> var (s', added) := r.value;
      && Storage.Consistent(s')
      && added.id !in s.rows
      && Storage.GetUser(s', added.id) == Some(added)
      && added.(id := u.id) == ValidateUser(u, today).value
      && added.id == IdStore.NextId(s) && s'.lastId == added.id
      && s'.rows.Keys == s.rows.Keys + {added.id}
      && forall id :: id in s.rows ==> s'.rows[id] == s.rows[id]
  {
    match ValidateUser(u, today)
    case Err(e) => Err(e)
    case Ok(valid) => Ok(Storage.AddUser(s, valid))
  }

  /** `updateUser`: validates first, so an invalid user is refused even under an unknown id; then
      replaces the stored user or throws `NotFound`. */
  function UpdateUser(s: Users, u: User, today: Date): (r: Result<(Users, User)>)
    requires Storage.Consistent(s)
    ensures !UserValid(u, today) ==> r == Err(ValidateUser(u, today).error)
    ensures UserValid(u, today) && u.id !in s.rows ==> r == Err(NotFound(UserRecord, u.id))
    ensures r.Ok? <==> UserValid(u, today) && u.id in s.rows
    ensures r.Ok? ==> var (s', updated) := r.value;
      && Storage.Consistent(s')
      && updated == ValidateUser(u, today).value
      && Storage.GetUser(s', u.id) == Some(updated)
      && s'.lastId == s.lastId && s'.rows.Keys == s.rows.Keys
      && forall id :: id in s.rows && id != u.id ==> s'.rows[id] == s.rows[id]
  {
    match ValidateUser(u, today)
    case Err(e) => Err(e)
    case Ok(valid) => Storage.UpdateUser(s, valid)
  }

  /** `getUser`: the stored user, or `NotFound` naming the id. */
  function GetUser(s: Users, id: int): (r: Result<User>)
    requires Storage.Consistent(s)
    ensures r.Err? <==> id !in s.rows
    ensures r.Err? ==> r.error == NotFound(UserRecord, id)
    ensures r.Ok? ==> r.value == s.rows[id] && r.value.id == id
  {
    match Storage.GetUser(s, id)
    case None => Err(NotFound(UserRecord, id))
    case Some(u) => Ok(u)
  }

  /** `getUsers`: every stored user exactly once. */
  function GetUsers(s: Users): (r: seq<User>)
    requires Storage.Consistent(s)
    ensures |r| == |s.rows|
    ensures forall i :: 0 <= i < |r| ==> GetUser(s, r[i].id) == Ok(r[i])
    ensures forall i, j :: 0 <= i < j < |r| ==> r[i].id != r[j].id
    ensures forall id :: id in s.rows ==> exists i :: 0 <= i < |r| && r[i].id == id
  {
    Storage.GetUsersList(s)
  }

  /** `addFriend`: `NotFound` for the first of the two ids that is unknown; otherwise each becomes
      a friend of the other and nothing else changes. */
  function AddFriend(s: Users, userId: int, friendId: int): (r: Result<Users>)
    requires Storage.Consistent(s)
    ensures userId !in s.rows ==> r == Err(NotFound(UserRecord, userId))
    ensures userId in s.rows && friendId !in s.rows ==> r == Err(NotFound(UserRecord, friendId))
    ensures r.Ok? <==> userId in s.rows && friendId in s.rows
    ensures r.Ok? ==> var s' := r.value;
      && Storage.Consistent(s') && s'.rows.Keys == s.rows.Keys
      && Storage.FriendOf(s', userId, friendId) && Storage.FriendOf(s', friendId, userId)
      && s'.lastId == s.lastId
      && s'.rows[userId].friends == s.rows[userId].friends + {friendId}
      && s'.rows[friendId].friends == s.rows[friendId].friends + {userId}
      // nothing but the two friend sets changes
      && s'.rows[userId].(friends := s.rows[userId].friends) == s.rows[userId]
      && s'.rows[friendId].(friends := s.rows[friendId].friends) == s.rows[friendId]
      && forall id :: id in s.rows && id != userId && id != friendId ==> s'.rows[id] == s.rows[id]
  {
    if userId !in s.rows then Err(NotFound(UserRecord, userId))
    else if friendId !in s.rows then Err(NotFound(UserRecord, friendId))
    else Ok(Storage.AddFriend(s, userId, friendId))
  }

  /** `deleteFriend`: the same existence checks; afterwards neither is a friend of the other, and
      deleting a friendship that is not there is a no-op. */
  function DeleteFriend(s: Users, userId: int, friendId: int): (r: Result<Users>)
    requires Storage.Consistent(s)
    ensures userId !in s.rows ==> r == Err(NotFound(UserRecord, userId))
    ensures userId in s.rows && friendId !in s.rows ==> r == Err(NotFound(UserRecord, friendId))
    ensures r.Ok? <==> userId in s.rows && friendId in s.rows
    ensures r.Ok? ==> var s' := r.value;
      && Storage.Consistent(s') && s'.rows.Keys == s.rows.Keys
      && !Storage.FriendOf(s', userId, friendId) && !Storage.FriendOf(s', friendId, userId)
      && s'.lastId == s.lastId
      && s'.rows[userId].friends == s.rows[userId].friends - {friendId}
      && s'.rows[friendId].friends == s.rows[friendId].friends - {userId}
      // nothing but the two friend sets changes
      && s'.rows[userId].(friends := s.rows[userId].friends) == s.rows[userId]
      && s'.rows[friendId].(friends := s.rows[friendId].friends) == s.rows[friendId]
      && forall id :: id in s.rows && id != userId && id != friendId ==> s'.rows[id] == s.rows[id]
  {
    if userId !in s.rows then Err(NotFound(UserRecord, userId))
    else if friendId !in s.rows then Err(NotFound(UserRecord, friendId))
    else Ok(Storage.DeleteFriend(s, userId, friendId))
  }

  /** Deleting a friendship between two stored users who are not friends changes nothing. */
  lemma DeleteAbsentFriendIsNoOp(s: Users, userId: int, friendId: int)
    requires Storage.Consistent(s) && userId in s.rows && friendId in s.rows
    requires !Storage.FriendOf(s, userId, friendId) && !Storage.FriendOf(s, friendId, userId)
    ensures DeleteFriend(s, userId, friendId) == Ok(s)
  {
    var s' := DeleteFriend(s, userId, friendId).value;
    assert s'.rows[userId] == s.rows[userId];
    assert s'.rows[friendId] == s.rows[friendId];
    assert s'.rows == s.rows;
  }

  /** `updateUser` stores the friend set it is sent: clearing user 1's friends in a store where
      users 1 and 2 are friends both ways succeeds and leaves 2 a friend of 1 but not the reverse. */
  lemma UpdateUserCanBreakSymmetry()
    ensures var a := User(1, Some("a@b"), Some("a"), Some("a"), Some(Date(2000, 1, 1)), {2});
      var b := User(2, Some("b@b"), Some("b"), Some("b"), Some(Date(2000, 1, 1)), {1});
      var s: Users := IdStore.Store(2, map[1 := a, 2 := b]);
      var r := UpdateUser(s, a.(friends := {}), Date(2020, 1, 1));
      && Storage.Consistent(s) && Storage.Symmetric(s)
      && r.Ok?
      && Storage.FriendOf(r.value.0, 2, 1) && !Storage.FriendOf(r.value.0, 1, 2)
      && !Storage.Symmetric(r.value.0)
  {
    var a := User(1, Some("a@b"), Some("a"), Some("a"), Some(Date(2000, 1, 1)), {2});
    assert !IsWhitespace("a@b"[0]) && "a@b"[1] == '@';
    assert !IsWhitespace("a"[0]) && ' ' !in "a";
    assert UserValid(a.(friends := {}), Date(2020, 1, 1));
  }

  /** The users of `ids` that resolve, in order, skipping the ones that do not. */
  method ResolveKnown(s: Users, ids: seq<int>) returns (r: seq<User>)
    requires Storage.Consistent(s) && IdStore.Distinct(ids)
    ensures forall i :: 0 <= i < |r| ==> r[i].id in s.rows && r[i] == s.rows[r[i].id]
    ensures forall id :: (exists i :: 0 <= i < |r| && r[i].id == id) <==> id in ids && id in s.rows
    ensures forall i, j :: 0 <= i < j < |r| ==> r[i].id != r[j].id
  {
    r := [];
    var k := 0;
    while k < |ids|
      invariant 0 <= k <= |ids|
      invariant forall i :: 0 <= i < |r| ==> r[i].id in s.rows && r[i] == s.rows[r[i].id]
      invariant forall id :: (exists i :: 0 <= i < |r| && r[i].id == id) <==> id in ids[..k] && id in s.rows
      invariant forall i, j :: 0 <= i < j < |r| ==> r[i].id != r[j].id
    {
      assert ids[..k + 1] == ids[..k] + [ids[k]];
      if ids[k] in s.rows {
        assert ids[k] !in ids[..k];
        var r' := r + [s.rows[ids[k]]];
        forall id | id in ids[..k + 1] && id in s.rows
          ensures exists i :: 0 <= i < |r'| && r'[i].id == id
        {
          if id == ids[k] {
            assert r'[|r|].id == id;
          } else {
            var i :| 0 <= i < |r| && r[i].id == id;
            assert r'[i].id == id;
          }
        }
        r := r';
      }
      k := k + 1;
    }
    assert ids[..k] == ids;
  }

  /** `getFriends`: `NotFound` for an unknown user; otherwise each friend that still resolves,
      once. */
  method GetFriends(s: Users, userId: int) returns (r: Result<seq<User>>)
    requires Storage.Consistent(s)
    ensures r.Err? <==> userId !in s.rows
    ensures r.Err? ==> r.error == NotFound(UserRecord, userId)
    ensures r.Ok? ==> var fs := r.value;
      && (forall i :: 0 <= i < |fs| ==> GetUser(s, fs[i].id) == Ok(fs[i]))
      && (forall i, j :: 0 <= i < j < |fs| ==> fs[i].id != fs[j].id)
      && forall id :: (exists i :: 0 <= i < |fs| && fs[i].id == id)
           <==> id in s.rows[userId].friends && id in s.rows
  {
    if userId !in s.rows {
      return Err(NotFound(UserRecord, userId));
    }
    var order := IdStore.Enumerate(s.rows[userId].friends);
    var friends := ResolveKnown(s, order);
    r := Ok(friends);
  }

  /** `getCommonFriends`: `NotFound` for the first unknown id; otherwise each user, once, whose id is
      in both friend sets and still resolves. */
  method GetCommonFriends(s: Users, userId: int, otherId: int) returns (r: Result<seq<User>>)
    requires Storage.Consistent(s)
    ensures userId !in s.rows ==> r == Err(NotFound(UserRecord, userId))
    ensures userId in s.rows && otherId !in s.rows ==> r == Err(NotFound(UserRecord, otherId))
    ensures r.Ok? <==> userId in s.rows && otherId in s.rows
    ensures r.Ok? ==> var fs := r.value;
      && (forall i :: 0 <= i < |fs| ==> GetUser(s, fs[i].id) == Ok(fs[i]))
      && (forall i, j :: 0 <= i < j < |fs| ==> fs[i].id != fs[j].id)
      && forall id :: (exists i :: 0 <= i < |fs| && fs[i].id == id)
           <==> id in s.rows[userId].friends && id in s.rows[otherId].friends && id in s.rows
  {
    if userId !in s.rows {
      return Err(NotFound(UserRecord, userId));
    }
    if otherId !in s.rows {
      return Err(NotFound(UserRecord, otherId));
    }
    var order := IdStore.Enumerate(s.rows[userId].friends * s.rows[otherId].friends);
    var common := ResolveKnown(s, order);
    r := Ok(common);
  }

  /** Adding a user with no display name and login "user" stores the name "user". */
  lemma NameDefaultsToLogin(s: Users, u: User, today: Date)
    requires Storage.Consistent(s) && UserValid(u, today)
    requires u.login == Some("user") && u.name == None
    ensures AddUser(s, u, today).Ok?
    ensures var (s', added) := AddUser(s, u, today).value;
      GetUser(s', added.id).value.name == Some("user")
  {
  }
}
