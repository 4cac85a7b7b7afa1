/** `InMemoryUsersManager`: the user store that copies on the way in. `addUser` and `updateUser` store
    a copy of the user they are given, and `getUser` hands out a copy; `addUser`, `updateUser` and
    `getUsersList` hand back the stored objects themselves, so a caller that mutates those changes
    the store. Here users are immutable values, so neither the copies nor that aliasing can be told
    apart. `getUser` answers null, not `NotFound`, for an unknown id, and `clear` empties the map
    without resetting the counter. */
module InMemoryUsersManager {
  import opened Outcomes
  import opened Model
  import IdStore

  type Users = IdStore.Store<User>

  predicate Consistent(s: Users) {
    IdStore.Valid(s) && forall id :: id in s.rows ==> s.rows[id].id == id
  }

  function Init(): (s: Users)
    ensures Consistent(s) && |s.rows| == 0
    ensures IdStore.NextId(s) == 1
  {
    IdStore.Empty()
  }

  /** `getUsersList`: every stored user exactly once. */
  function GetUsersList(s: Users): (r: seq<User>)
    requires Consistent(s)
    ensures |r| == |s.rows|
    ensures forall i :: 0 <= i < |r| ==> r[i].id in s.rows && r[i] == s.rows[r[i].id]
    ensures forall id :: id in s.rows ==> exists i :: 0 <= i < |r| && r[i].id == id
  {
    var r := IdStore.Values(s);
    forall id | id in s.rows ensures exists i :: 0 <= i < |r| && r[i].id == id {
      var i :| 0 <= i < |IdStore.Ids(s)| && IdStore.Ids(s)[i] == id;
      assert r[i].id == id;
    }
    r
  }

  /** `addUser`: stores a copy of the user under `++lastId` and returns that copy. */
  function AddUser(s: Users, u: User): (r: (Users, User))
    requires Consistent(s)
    ensures Consistent(r.0)
    ensures r.1 == u.(id := r.1.id)
    ensures r.1.id == IdStore.NextId(s) && r.1.id !in s.rows
    ensures r.0.rows.Keys == s.rows.Keys + {r.1.id}
    ensures GetUser(r.0, r.1.id) == Some(r.1)
    ensures forall id :: id in s.rows ==> r.0.rows[id] == s.rows[id]
  {
    var copy := u.(id := IdStore.NextId(s));
    (IdStore.Append(s, copy), copy)
  }

  /** `updateUser`: stores a copy of the user under its id, or throws `NotFound` when that id is
      not stored. */
  function UpdateUser(s: Users, u: User): (r: Result<(Users, User)>)
    requires Consistent(s)
    ensures r.Err? <==> u.id !in s.rows
    ensures r.Err? ==> r.error == NotFound(UserRecord, u.id)
    ensures r.Ok? ==> r.value.0.lastId == s.lastId && r.value.0.rows.Keys == s.rows.Keys
    ensures r.Ok? ==> Consistent(r.value.0) && r.value.1 == u
    ensures r.Ok? ==> GetUser(r.value.0, u.id) == Some(u)
    ensures r.Ok? ==> forall id :: id in s.rows && id != u.id ==> r.value.0.rows[id] == s.rows[id]
  {
    if u.id !in s.rows then Err(NotFound(UserRecord, u.id))
    else Ok((IdStore.Put(s, u.id, u), u))
  }

  /** `getUser`: a copy of the stored user, or null. */
  function GetUser(s: Users, id: int): (r: Option<User>)
    requires Consistent(s)
    ensures r.Some? <==> id in s.rows
    ensures r.Some? ==> r.value == s.rows[id] && r.value.id == id
  {
    IdStore.Get(s, id)
  }

  /** `clear`: no user is stored afterwards, and the counter keeps its value. */
  function Clear(s: Users): (r: Users)
    requires Consistent(s)
    ensures Consistent(r) && |r.rows| == 0
    ensures forall id :: GetUser(r, id) == None
    ensures IdStore.NextId(r) == IdStore.NextId(s)
  {
    IdStore.Clear(s)
  }

  /** After `clear`, the next user still gets an id no user ever had before the clear. */
  lemma ClearKeepsIdsFresh(s: Users, u: User)
    requires Consistent(s)
    ensures var added := AddUser(Clear(s), u).1;
      added.id > s.lastId && forall id :: id in s.rows ==> id < added.id
  {
  }

  /** Adding a user and then updating it under the returned id reads back every field written,
      as UsersManagersTest.updUser_updList expects. */
  lemma UpdateRoundTrip(s: Users, u: User, v: User)
    requires Consistent(s)
    ensures var (s1, added) := AddUser(s, u);
      var updated := UpdateUser(s1, v.(id := added.id));
      && updated.Ok?
      && GetUser(updated.value.0, added.id) == Some(v.(id := added.id))
  {
  }
}
