/** `InMemoryFilmStorage`: films in an id-keyed map with a `lastId` counter. Unlike the user
    storage, `getFilm` throws `NotFound` for an unknown id instead of returning null. */
module InMemoryFilmStorage {
  import opened Outcomes
  import opened Model
  import IdStore

  type Films = IdStore.Store<Film>

  /** The store's invariant: ids come from the counter and each record carries its own key. */
  predicate Consistent(s: Films) {
    IdStore.Valid(s) && forall id :: id in s.rows ==> s.rows[id].id == id
  }

  /** The constructor: an empty map and `lastId` 0, so the first film gets id 1. */
  function Init(): (s: Films)
    ensures Consistent(s) && |s.rows| == 0
    ensures IdStore.NextId(s) == 1
  {
    IdStore.Empty()
  }

  /** `getFilmsList`: every stored film exactly once. */
  function GetFilmsList(s: Films): (r: seq<Film>)
    requires Consistent(s)
    ensures |r| == |s.rows|
    ensures forall i :: 0 <= i < |r| ==> r[i].id in s.rows && r[i] == s.rows[r[i].id]
    ensures forall i, j :: 0 <= i < j < |r| ==> r[i].id < r[j].id
    ensures forall id :: id in s.rows ==> exists i :: 0 <= i < |r| && r[i].id == id
  {
    var r := IdStore.Values(s);
    forall id | id in s.rows ensures exists i :: 0 <= i < |r| && r[i].id == id {
      var i :| 0 <= i < |IdStore.Ids(s)| && IdStore.Ids(s)[i] == id;
      assert r[i].id == id;
    }
    r
  }

  /** `addFilm`: stores the film under `++lastId` and returns it with that id. */
  function AddFilm(s: Films, f: Film): (r: (Films, Film))
    requires Consistent(s)
    ensures Consistent(r.0)
    ensures r.1 == f.(id := r.1.id)
    ensures r.1.id == IdStore.NextId(s) && r.1.id !in s.rows
    ensures r.0.rows.Keys == s.rows.Keys + {r.1.id}
    ensures r.0.rows[r.1.id] == r.1
    ensures forall id :: id in s.rows ==> r.0.rows[id] == s.rows[id]
  {
    var stored := f.(id := IdStore.NextId(s));
    (IdStore.Append(s, stored), stored)
  }

  /** `updateFilm`: replaces the film stored under `f.id`, or throws `NotFound` if there is none. */
  function UpdateFilm(s: Films, f: Film): (r: Result<(Films, Film)>)
    requires Consistent(s)
    ensures r.Err? <==> f.id !in s.rows
    ensures r.Err? ==> r.error == NotFound(FilmRecord, f.id)
    ensures r.Ok? ==> r.value.0.lastId == s.lastId && r.value.0.rows.Keys == s.rows.Keys
    ensures r.Ok? ==> Consistent(r.value.0) && r.value.1 == f && r.value.0.rows[f.id] == f
    ensures r.Ok? ==> forall id :: id in s.rows && id != f.id ==> r.value.0.rows[id] == s.rows[id]
  {
    if f.id !in s.rows then Err(NotFound(FilmRecord, f.id))
    else Ok((IdStore.Put(s, f.id, f), f))
  }

  /** `getFilm`: the stored film, or `NotFound`. */
  function GetFilm(s: Films, id: int): (r: Result<Film>)
    requires Consistent(s)
    ensures r.Err? <==> id !in s.rows
    ensures r.Err? ==> r.error == NotFound(FilmRecord, id)
    ensures r.Ok? ==> r.value == s.rows[id] && r.value.id == id
  {
    if id in s.rows then Ok(s.rows[id]) else Err(NotFound(FilmRecord, id))
  }

  /** A film read back after `addFilm` has every field it was added with, under a fresh id. */
  lemma AddThenGet(s: Films, f: Film)
    requires Consistent(s)
    ensures var (s', added) := AddFilm(s, f);
      && GetFilm(s', added.id) == Ok(f.(id := added.id))
      && added.id !in s.rows
  {
  }

  /** A film read back after `updateFilm` is the one written, and the others are as they were. */
  lemma UpdateThenGet(s: Films, f: Film, other: int)
    requires Consistent(s) && f.id in s.rows && other != f.id
    ensures UpdateFilm(s, f).Ok?
    ensures GetFilm(UpdateFilm(s, f).value.0, f.id) == Ok(f)
    ensures GetFilm(UpdateFilm(s, f).value.0, other) == GetFilm(s, other)
  {
  }

  /** Ids are handed out as 1, 2, 3, ...: each `addFilm` takes the next integer, and none is reused. */
  lemma IdsCountUp(f1: Film, f2: Film, f3: Film)
    ensures var (s1, a) := AddFilm(Init(), f1);
      var (s2, b) := AddFilm(s1, f2);
      var (_, c) := AddFilm(s2, f3);
      a.id == 1 && b.id == 2 && c.id == 3
  {
  }

  /** An id, once handed out, is never handed out again by a later `addFilm`. */
  lemma {:induction false} IdsNeverReused(s: Films, fs: seq<Film>, f: Film)
    requires Consistent(s)
    ensures AddFilm(AddAll(s, fs), f).1.id > s.lastId
    decreases |fs|
  {
    if fs != [] {
      var (s1, _) := AddFilm(s, fs[0]);
      IdsNeverReused(s1, fs[1..], f);
    }
  }

  /** The store after adding each film of `fs` in turn. */
  function AddAll(s: Films, fs: seq<Film>): (r: Films)
    requires Consistent(s)
    ensures Consistent(r)
    decreases |fs|
  {
    if fs == [] then s else AddAll(AddFilm(s, fs[0]).0, fs[1..])
  }
}
