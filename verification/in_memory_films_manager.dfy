/** `InMemoryFilmsManager`: the film store that copies on the way in. `addFilm` and `updateFilm` store
    a copy of the film they are given, and `getFilm` hands out a copy; `addFilm`, `updateFilm` and
    `getFilmsList` hand back the stored objects themselves, so a caller that mutates those changes
    the store. Here films are immutable values, so neither the copies nor that aliasing can be told
    apart. `getFilm` answers null, not `NotFound`, for an unknown id, and `clear` empties the map
    without resetting the counter. */
module InMemoryFilmsManager {
  import opened Outcomes
  import opened Model
  import IdStore

  type Films = IdStore.Store<Film>

  predicate Consistent(s: Films) {
    IdStore.Valid(s) && forall id :: id in s.rows ==> s.rows[id].id == id
  }

  function Init(): (s: Films)
    ensures Consistent(s) && |s.rows| == 0
    ensures IdStore.NextId(s) == 1
  {
    IdStore.Empty()
  }

  /** `getFilmsList`: every stored film exactly once. */
  function GetFilmsList(s: Films): (r: seq<Film>)
    requires Consistent(s)
    ensures |r| == |s.rows|
    ensures forall i :: 0 <= i < |r| ==> r[i].id in s.rows && r[i] == s.rows[r[i].id]
    ensures forall id :: id in s.rows ==> exists i :: 0 <= i < |r| && r[i].id == id
  {
    var r := IdStore.Values(s);
    forall id | id in s.rows ensures exists i :: 0 <= i < |r| && r[i].id == id {
      var i :| 0 <= i < |IdStore.Ids(s)| && IdStore.Ids(s)[i] == id;
      assert r[i].id == id;
    }
    r
  }

  /** `addFilm`: stores a copy of the film under `++lastId` and returns that copy. */
  function AddFilm(s: Films, f: Film): (r: (Films, Film))
    requires Consistent(s)
    ensures Consistent(r.0)
    ensures r.1 == f.(id := r.1.id)
    ensures r.1.id == IdStore.NextId(s) && r.1.id !in s.rows
    ensures r.0.rows.Keys == s.rows.Keys + {r.1.id}
    ensures GetFilm(r.0, r.1.id) == Some(r.1)
    ensures forall id :: id in s.rows ==> r.0.rows[id] == s.rows[id]
  {
    var copy := f.(id := IdStore.NextId(s));
    (IdStore.Append(s, copy), copy)
  }

  /** `updateFilm`: stores a copy of the film under its id, or throws `NotFound` when that id is
      not stored. */
  function UpdateFilm(s: Films, f: Film): (r: Result<(Films, Film)>)
    requires Consistent(s)
    ensures r.Err? <==> f.id !in s.rows
    ensures r.Err? ==> r.error == NotFound(FilmRecord, f.id)
    ensures r.Ok? ==> r.value.0.lastId == s.lastId && r.value.0.rows.Keys == s.rows.Keys
    ensures r.Ok? ==> Consistent(r.value.0) && r.value.1 == f
    ensures r.Ok? ==> GetFilm(r.value.0, f.id) == Some(f)
    ensures r.Ok? ==> forall id :: id in s.rows && id != f.id ==> r.value.0.rows[id] == s.rows[id]
  {
    if f.id !in s.rows then Err(NotFound(FilmRecord, f.id))
    else Ok((IdStore.Put(s, f.id, f), f))
  }

  /** `getFilm`: a copy of the stored film, or null. */
  function GetFilm(s: Films, id: int): (r: Option<Film>)
    requires Consistent(s)
    ensures r.Some? <==> id in s.rows
    ensures r.Some? ==> r.value == s.rows[id] && r.value.id == id
  {
    IdStore.Get(s, id)
  }

  /** `clear`: no film is stored afterwards, and the counter keeps its value. */
  function Clear(s: Films): (r: Films)
    requires Consistent(s)
    ensures Consistent(r) && |r.rows| == 0
    ensures forall id :: GetFilm(r, id) == None
    ensures IdStore.NextId(r) == IdStore.NextId(s)
  {
    IdStore.Clear(s)
  }

  /** After `clear`, the next film still gets an id no film ever had before the clear. */
  lemma ClearKeepsIdsFresh(s: Films, f: Film)
    requires Consistent(s)
    ensures var added := AddFilm(Clear(s), f).1;
      added.id > s.lastId && forall id :: id in s.rows ==> id < added.id
  {
  }

  /** Adding a film and then updating it under the returned id reads back every field written,
      as FilmsManagerTests.updFilm_updList expects. */
  lemma UpdateRoundTrip(s: Films, f: Film, g: Film)
    requires Consistent(s)
    ensures var (s1, added) := AddFilm(s, f);
      var updated := UpdateFilm(s1, g.(id := added.id));
      && updated.Ok?
      && GetFilm(updated.value.0, added.id) == Some(g.(id := added.id))
  {
  }
}
