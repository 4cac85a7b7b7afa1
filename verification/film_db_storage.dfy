/** `FilmDbStorage`: films in a `film` table, likes in a `user_film` table of (film_id, user_id)
    pairs, genre links in a `film_genre` table of (film_id, genre_id) pairs, and the `rating` and
    `genre` vocabularies as id-to-label tables. The database's generated key is a parameter of
    `AddFilm`; the `user` table is `UserDbStorage`'s. */
module FilmDbStorage {
  import opened Outcomes
  import opened Dates
  import opened Model
  import opened Text
  import IdStore
  import Ranking
  import UserDb = UserDbStorage

  /** One row of the `film` table. Release date and duration are written from values the code
      dereferences; `ratingId` is null for a film without a rating. */
  datatype FilmRow = FilmRow(
    name: Option<string>,
    description: Option<string>,
    releaseDate: Date,
    duration: int32,
    ratingId: Option<int>)

  datatype FilmTables = FilmTables(
    films: map<int, FilmRow>,
    likes: set<(int, int)>,
    filmGenres: set<(int, int)>,
    ratings: map<int, string>,
    genres: map<int, string>)

  /** `checkMpa`: no rating, or a rating without an id, means "no rating"; a rating id missing from
      the `rating` table is a validation error naming it. */
  function CheckMpa(db: FilmTables, mpa: Option<MpaRef>): (r: Result<Option<int>>)
    ensures r.Err? <==> mpa.Some? && mpa.value.id.Some? && mpa.value.id.value !in db.ratings
    ensures r.Err? ==> r.error == ValidationFailed(UnknownMpa(mpa.value.id.value))
    ensures r.Ok? ==> (r.value == None <==> mpa.None? || mpa.value.id.None?)
    ensures r.Ok? && r.value.Some? ==> Some(r.value.value) == mpa.value.id && r.value.value in db.ratings
  {
    if mpa.None? || mpa.value.id.None? then Ok(None)
    else if mpa.value.id.value !in db.ratings then Err(ValidationFailed(UnknownMpa(mpa.value.id.value)))
    else Ok(Some(mpa.value.id.value))
  }

  /** The genres linked to `filmId` that the `genre` table knows (the inner join of
      `getCommonFilmGenres`). */
  function GenreIds(db: FilmTables, filmId: int): set<int> {
    set p | p in db.filmGenres && p.0 == filmId && p.1 in db.genres :: p.1
  }

  lemma GenreIdsMeaning(db: FilmTables, filmId: int, g: int)
    ensures g in GenreIds(db, filmId) <==> (filmId, g) in db.filmGenres && g in db.genres
  {
    if (filmId, g) in db.filmGenres && g in db.genres {
      assert (filmId, g).1 == g;
    }
  }

  /** The rating a row reads back as. `getInt` turns a null `rating_id` into 0 and 0 counts as "no
      rating", which leaves the film's empty rating object; the label comes from a left join, so
      a dangling id reads back with no label. */
  function MpaOf(db: FilmTables, ratingId: Option<int>): (r: Option<MpaRef>)
    ensures r.Some?
    ensures r.value.id.Some? <==> ratingId.Some? && ratingId.value != 0
    ensures r.value.id.Some? ==>
      && r.value.id == ratingId
      && (r.value.name.Some? <==> ratingId.value in db.ratings)
      && (r.value.name.Some? ==> r.value.name.value == db.ratings[ratingId.value])
    ensures r.value.id.None? ==> r.value.name.None?
  {
    if ratingId.Some? && ratingId.value != 0 then
      var title := if ratingId.value in db.ratings then Some(db.ratings[ratingId.value]) else None;
      Some(MpaRef(ratingId, title))
    else Some(MpaRef(None, None))
  }

  /** `filmFromRowSet`: the row's columns, its known genres and its rating. Likes are not read. */
  function FilmFromRow(db: FilmTables, id: int): (r: Film)
    requires id in db.films
    ensures r.id == id && r.userLikes == {}
    ensures r.name == db.films[id].name && r.description == db.films[id].description
    ensures r.releaseDate == Some(db.films[id].releaseDate) && r.duration == Some(db.films[id].duration)
    ensures r.mpa == MpaOf(db, db.films[id].ratingId)
    ensures forall g :: g in r.genres <==> (id, g) in db.filmGenres && g in db.genres
  {
    var row := db.films[id];
    forall g ensures g in GenreIds(db, id) <==> (id, g) in db.filmGenres && g in db.genres {
      GenreIdsMeaning(db, id, g);
    }
    Film(id, row.name, row.description, Some(row.releaseDate), Some(row.duration),
      MpaOf(db, row.ratingId), GenreIds(db, id), {})
  }

  /** `getFilm`: the film, or nothing when no row has the id. */
  function GetFilm(db: FilmTables, id: int): (r: Option<Film>)
    ensures r.Some? <==> id in db.films
    ensures r.Some? ==> r.value == FilmFromRow(db, id)
  {
    if id in db.films then Some(FilmFromRow(db, id)) else None
  }

  /** `updateGenre`: deletes the film's genre links, then links it to every listed genre the
      `genre` table knows. An empty list links nothing. Nothing else changes. */
  function UpdateGenre(db: FilmTables, filmId: int, given: set<int>): (r: FilmTables)
    ensures r.films == db.films && r.likes == db.likes
    ensures r.ratings == db.ratings && r.genres == db.genres
    ensures forall g :: (filmId, g) in r.filmGenres <==> g in given && g in db.genres
    ensures forall p: (int, int) :: p.0 != filmId ==> (p in r.filmGenres <==> p in db.filmGenres)
    ensures GenreIds(r, filmId) == given * db.genres.Keys
  {
    var kept := set p | p in db.filmGenres && p.0 != filmId;
    var linked := set g | g in given && g in db.genres :: (filmId, g);
    var r := db.(filmGenres := kept + linked);
    forall g ensures (filmId, g) in r.filmGenres <==> g in given && g in db.genres {
      if g in given && g in db.genres {
        assert (filmId, g) in linked;
      }
    }
    forall g ensures g in GenreIds(r, filmId) <==> g in given * db.genres.Keys {
      GenreIdsMeaning(r, filmId, g);
    }
    r
  }

  /** `addFilm`: `checkMpa` first, then the row under the generated key `newId`, then its genre
      links, and the film read back. */
  function AddFilm(db: FilmTables, f: Film, newId: int): (r: Result<(FilmTables, Film)>)
    requires newId !in db.films && f.releaseDate.Some? && f.duration.Some?
    ensures r.Err? <==> CheckMpa(db, f.mpa).Err?
    ensures r.Err? ==> r.error == CheckMpa(db, f.mpa).error
    ensures r.Ok? ==> var (db', added) := r.value;
      && db'.films.Keys == db.films.Keys + {newId}
      && (forall id :: id in db.films ==> db'.films[id] == db.films[id])
      && (forall p: (int, int) :: p.0 != newId ==> (p in db'.filmGenres <==> p in db.filmGenres))
      && db'.likes == db.likes && db'.ratings == db.ratings && db'.genres == db.genres
      && db'.films[newId].ratingId == CheckMpa(db, f.mpa).value
      && GetFilm(db', newId) == Some(added)
      && added.(mpa := f.mpa, genres := f.genres, userLikes := f.userLikes) == f.(id := newId)
      && added.mpa == MpaOf(db, CheckMpa(db, f.mpa).value)
      && added.genres == f.genres * db.genres.Keys
      && added.userLikes == {}
  {
    match CheckMpa(db, f.mpa)
    case Err(e) => Err(e)
    case Ok(mpa) =>
      var row := FilmRow(f.name, f.description, f.releaseDate.value, f.duration.value, mpa);
      var db' := UpdateGenre(db.(films := db.films[newId := row]), newId, f.genres);
      Ok((db', FilmFromRow(db', newId)))
  }

  /** The rating a film reads back with, given the rating it was written with: none, no id, or id
      0 read back as the empty rating; any other accepted id reads back with its label. */
  lemma RatingReadBack(db: FilmTables, mpa: Option<MpaRef>)
    requires CheckMpa(db, mpa).Ok?
    ensures MpaOf(db, CheckMpa(db, mpa).value) ==
      if mpa.None? || mpa.value.id.None? || mpa.value.id == Some(0) then Some(MpaRef(None, None))
      else Some(MpaRef(mpa.value.id, Some(db.ratings[mpa.value.id.value])))
  {
  }

  /** Whatever rating a film is added with, it reads back as `RatingReadBack` says. */
  lemma AddFilmReadsBackRating(db: FilmTables, f: Film, newId: int)
    requires newId !in db.films && f.releaseDate.Some? && f.duration.Some?
    requires CheckMpa(db, f.mpa).Ok?
    ensures AddFilm(db, f, newId).Ok?
    ensures GetFilm(AddFilm(db, f, newId).value.0, newId).value.mpa ==
      if f.mpa.None? || f.mpa.value.id.None? || f.mpa.value.id == Some(0) then Some(MpaRef(None, None))
      else Some(MpaRef(f.mpa.value.id, Some(db.ratings[f.mpa.value.id.value])))
  {
    RatingReadBack(db, f.mpa);
  }

  /** A film added with a known rating id other than 0 and known genres reads back as given, with
      the rating's label filled in and no likes. */
  lemma AddFilmRoundTrip(db: FilmTables, f: Film, newId: int, m: int)
    requires newId !in db.films && f.releaseDate.Some? && f.duration.Some?
    requires f.mpa.Some? && f.mpa.value.id == Some(m) && m in db.ratings && m != 0
    requires f.genres <= db.genres.Keys
    ensures AddFilm(db, f, newId).Ok?
    ensures var (db', added) := AddFilm(db, f, newId).value;
      GetFilm(db', newId) == Some(f.(id := newId, mpa := Some(MpaRef(Some(m), Some(db.ratings[m]))), userLikes := {}))
  {
    var (db', added) := AddFilm(db, f, newId).value;
    assert added.genres == f.genres;
  }

  /** `updateFilm` as the code does it: after `checkMpa` it rewrites the row (a no-op for an unknown
      id) and the genre links, and only then finds the film missing. The tables come back with the
      result, since they may have changed even when the result is `NotFound`. */
  function UpdateFilmAsWritten(db: FilmTables, f: Film): (r: (FilmTables, Result<Film>))
    requires f.releaseDate.Some? && f.duration.Some?
    ensures CheckMpa(db, f.mpa).Err? ==> r == (db, Err(CheckMpa(db, f.mpa).error))
    ensures CheckMpa(db, f.mpa).Ok? && f.id !in db.films ==>
      r.1 == Err(NotFound(FilmRecord, f.id)) && r.0 == UpdateGenre(db, f.id, f.genres)
  {
    match CheckMpa(db, f.mpa)
    case Err(e) => (db, Err(e))
    case Ok(mpa) =>
      var row := FilmRow(f.name, f.description, f.releaseDate.value, f.duration.value, mpa);
      var db1 := if f.id in db.films then db.(films := db.films[f.id := row]) else db;
      var db2 := UpdateGenre(db1, f.id, f.genres);
      if f.id in db2.films then (db2, Ok(FilmFromRow(db2, f.id)))
      else (db2, Err(NotFound(FilmRecord, f.id)))
  }

  /** The discrepancy: updating an unknown film with a known genre fails with `NotFound` yet leaves
      a genre link for the missing film behind. */
  lemma UpdateFilmAsWrittenLeavesGenreLinks()
    ensures var db := FilmTables(map[], {}, {}, map[], map[1 := "Комедия"]);
      var f := Film(99, Some("x"), None, Some(Date(2000, 1, 1)), Some(90), None, {1}, {});
      var (db', result) := UpdateFilmAsWritten(db, f);
      && result == Err(NotFound(FilmRecord, 99))
      && (99, 1) in db'.filmGenres && db' != db
  {
    var db := FilmTables(map[], {}, {}, map[], map[1 := "Комедия"]);
    var f := Film(99, Some("x"), None, Some(Date(2000, 1, 1)), Some(90), None, {1}, {});
    assert (99, 1) in UpdateGenre(db, 99, {1}).filmGenres;
  }

  /** `updateFilm` as intended: `checkMpa`, then `NotFound` for an unknown id with nothing written,
      then the row, the genre links, and the film read back. */
  function UpdateFilm(db: FilmTables, f: Film): (r: Result<(FilmTables, Film)>)
    requires f.releaseDate.Some? && f.duration.Some?
    ensures CheckMpa(db, f.mpa).Err? ==> r == Err(CheckMpa(db, f.mpa).error)
    ensures CheckMpa(db, f.mpa).Ok? && f.id !in db.films ==> r == Err(NotFound(FilmRecord, f.id))
    ensures r.Ok? <==> CheckMpa(db, f.mpa).Ok? && f.id in db.films
    ensures r.Ok? ==> var (db', updated) := r.value;
      && db'.films.Keys == db.films.Keys
      && (forall id :: id in db.films && id != f.id ==> db'.films[id] == db.films[id])
      && (forall p: (int, int) :: p.0 != f.id ==> (p in db'.filmGenres <==> p in db.filmGenres))
      && db'.likes == db.likes && db'.ratings == db.ratings && db'.genres == db.genres
      && db'.films[f.id].ratingId == CheckMpa(db, f.mpa).value
      && GetFilm(db', f.id) == Some(updated)
      && updated.(mpa := f.mpa, genres := f.genres, userLikes := f.userLikes) == f
      && updated.mpa == MpaOf(db, CheckMpa(db, f.mpa).value)
      && updated.genres == f.genres * db.genres.Keys
  {
    match CheckMpa(db, f.mpa)
    case Err(e) => Err(e)
    case Ok(mpa) =>
      if f.id !in db.films then Err(NotFound(FilmRecord, f.id))
      else
        var row := FilmRow(f.name, f.description, f.releaseDate.value, f.duration.value, mpa);
        var db' := UpdateGenre(db.(films := db.films[f.id := row]), f.id, f.genres);
        Ok((db', FilmFromRow(db', f.id)))
  }

  /** Whatever rating a stored film is updated with, it reads back as `RatingReadBack` says. */
  lemma UpdateFilmReadsBackRating(db: FilmTables, f: Film)
    requires f.releaseDate.Some? && f.duration.Some?
    requires CheckMpa(db, f.mpa).Ok? && f.id in db.films
    ensures UpdateFilm(db, f).Ok?
    ensures GetFilm(UpdateFilm(db, f).value.0, f.id).value.mpa ==
      if f.mpa.None? || f.mpa.value.id.None? || f.mpa.value.id == Some(0) then Some(MpaRef(None, None))
      else Some(MpaRef(f.mpa.value.id, Some(db.ratings[f.mpa.value.id.value])))
  {
    RatingReadBack(db, f.mpa);
  }

  /** Whenever the film exists, or the rating check fails, the corrected update does exactly what
      the code does; they differ only in leaving the tables alone on `NotFound`. */
  lemma UpdateFilmAgreesWithCode(db: FilmTables, f: Film)
    requires f.releaseDate.Some? && f.duration.Some?
    ensures var (db', result) := UpdateFilmAsWritten(db, f);
      match UpdateFilm(db, f)
      case Ok((db'', updated)) => db' == db'' && result == Ok(updated)
      case Err(e) => result == Err(e) && (f.id !in db.films ==> CheckMpa(db, f.mpa).Ok? || db' == db)
  {
  }

  /** `getLikes`: the ids of the users who liked the film. The film itself is not looked up. */
  function GetLikes(db: FilmTables, filmId: int): (r: set<int>)
    ensures forall u :: u in r <==> (filmId, u) in db.likes
  {
    var r := set p | p in db.likes && p.0 == filmId :: p.1;
    forall u | (filmId, u) in db.likes ensures u in r {
      assert (filmId, u).1 == u;
    }
    r
  }

  /** The `count_likes` column of `getPopular`. */
  function LikeCount(db: FilmTables, filmId: int): nat {
    |GetLikes(db, filmId)|
  }

  /** `addUserLike`: the film, then the user, must exist, else a validation error naming the id;
      the pair is inserted only when missing. */
  function AddUserLike(db: FilmTables, users: UserDb.UserTables, filmId: int, userId: int): (r: Result<FilmTables>)
    ensures filmId !in db.films ==> r == Err(ValidationFailed(UnknownFilm(filmId)))
    ensures filmId in db.films && userId !in users.users ==> r == Err(ValidationFailed(UnknownUser(userId)))
    ensures r.Ok? <==> filmId in db.films && userId in users.users
    ensures r.Ok? ==> var db' := r.value;
      && db'.films == db.films && db'.filmGenres == db.filmGenres
      && db'.ratings == db.ratings && db'.genres == db.genres
      && GetLikes(db', filmId) == GetLikes(db, filmId) + {userId}
      && forall id :: id != filmId ==> GetLikes(db', id) == GetLikes(db, id)
  {
    if filmId !in db.films then Err(ValidationFailed(UnknownFilm(filmId)))
    else if userId !in users.users then Err(ValidationFailed(UnknownUser(userId)))
    else Ok(db.(likes := db.likes + {(filmId, userId)}))
  }

  /** `deleteUserLike`: the same checks, then the pair is removed if present. */
  function DeleteUserLike(db: FilmTables, users: UserDb.UserTables, filmId: int, userId: int): (r: Result<FilmTables>)
    ensures filmId !in db.films ==> r == Err(ValidationFailed(UnknownFilm(filmId)))
    ensures filmId in db.films && userId !in users.users ==> r == Err(ValidationFailed(UnknownUser(userId)))
    ensures r.Ok? <==> filmId in db.films && userId in users.users
    ensures r.Ok? ==> var db' := r.value;
      && db'.films == db.films && db'.filmGenres == db.filmGenres
      && db'.ratings == db.ratings && db'.genres == db.genres
      && GetLikes(db', filmId) == GetLikes(db, filmId) - {userId}
      && forall id :: id != filmId ==> GetLikes(db', id) == GetLikes(db, id)
  {
    if filmId !in db.films then Err(ValidationFailed(UnknownFilm(filmId)))
    else if userId !in users.users then Err(ValidationFailed(UnknownUser(userId)))
    else Ok(db.(likes := db.likes - {(filmId, userId)}))
  }

  /** A repeated like changes nothing; a first like raises the film's count by one. */
  lemma AddUserLikeIdempotent(db: FilmTables, users: UserDb.UserTables, filmId: int, userId: int)
    requires AddUserLike(db, users, filmId, userId).Ok?
    ensures var once := AddUserLike(db, users, filmId, userId).value;
      && AddUserLike(once, users, filmId, userId) == Ok(once)
      && LikeCount(once, filmId) == LikeCount(db, filmId) + (if userId in GetLikes(db, filmId) then 0 else 1)
  {
    var once := AddUserLike(db, users, filmId, userId).value;
    assert once.likes + {(filmId, userId)} == once.likes;
    var before := GetLikes(db, filmId);
    if userId in before {
      assert before + {userId} == before;
    } else {
      assert |before + {userId}| == |before| + 1;
    }
  }

  /** Removing a like just added, which was not there before, restores the tables. */
  lemma DeleteUserLikeUndoesAdd(db: FilmTables, users: UserDb.UserTables, filmId: int, userId: int)
    requires AddUserLike(db, users, filmId, userId).Ok? && userId !in GetLikes(db, filmId)
    ensures DeleteUserLike(AddUserLike(db, users, filmId, userId).value, users, filmId, userId) == Ok(db)
  {
  }

  /** `ORDER BY count_likes DESC, film.name`: more likes first, then names ascending. */
  predicate RanksAhead(db: FilmTables, a: Film, b: Film) {
    || LikeCount(db, a.id) > LikeCount(db, b.id)
    || (LikeCount(db, a.id) == LikeCount(db, b.id) && NullFirstLess(a.name, b.name))
  }

  lemma RanksAheadIsStrictWeakOrder(db: FilmTables)
    ensures Ranking.StrictWeakOrder((a, b) => RanksAhead(db, a, b))
  {
    forall a, b | RanksAhead(db, a, b) ensures !RanksAhead(db, b, a) {
      if LikeCount(db, a.id) == LikeCount(db, b.id) {
        NullFirstLessAsymmetric(a.name, b.name);
      }
    }
    forall a, b, c | RanksAhead(db, a, c) ensures RanksAhead(db, a, b) || RanksAhead(db, b, c) {
      if LikeCount(db, a.id) == LikeCount(db, c.id) && LikeCount(db, b.id) == LikeCount(db, a.id) {
        NullFirstLessSplits(a.name, b.name, c.name);
      }
    }
  }

  /** The films of `ids`, read one by one. */
  function LoadFilms(db: FilmTables, ids: seq<int>): (r: seq<Film>)
    requires forall i :: 0 <= i < |ids| ==> ids[i] in db.films
    ensures |r| == |ids|
    ensures forall i :: 0 <= i < |r| ==> Some(r[i]) == GetFilm(db, ids[i])
  {
    seq(|ids|, i requires 0 <= i < |ids| => FilmFromRow(db, ids[i]))
  }

  /** Every film row once, read, in the order the table gives. */
  method ScanFilms(db: FilmTables) returns (r: seq<Film>)
    ensures |r| == |db.films|
    ensures IdStore.Distinct(r)
    ensures forall i :: 0 <= i < |r| ==> GetFilm(db, r[i].id) == Some(r[i])
    ensures forall id :: id in db.films ==> exists i :: 0 <= i < |r| && r[i].id == id
  {
    var order := IdStore.Enumerate(db.films.Keys);
    forall i | 0 <= i < |order| ensures order[i] in db.films {
      assert order[i] in db.films.Keys;
    }
    r := LoadFilms(db, order);
    forall i, j | 0 <= i < j < |r| ensures r[i] != r[j] {
      assert r[i].id == order[i] && r[j].id == order[j];
    }
    forall id | id in db.films ensures exists i :: 0 <= i < |r| && r[i].id == id {
      var k :| 0 <= k < |order| && order[k] == id;
      assert r[k].id == id;
    }
  }

  /** `getFilmsList`: every film once. */
  method GetFilmsList(db: FilmTables) returns (r: seq<Film>)
    ensures |r| == |db.films|
    ensures forall i :: 0 <= i < |r| ==> GetFilm(db, r[i].id) == Some(r[i])
    ensures forall i, j :: 0 <= i < j < |r| ==> r[i].id != r[j].id
    ensures forall id :: (exists i :: 0 <= i < |r| && r[i].id == id) <==> id in db.films
  {
    r := ScanFilms(db);
    forall i, j | 0 <= i < j < |r| ensures r[i].id != r[j].id {
      assert r[i] != r[j];
    }
  }

  /** Some film of `fs` has id `id`. */
  predicate Returned(fs: seq<Film>, id: int) {
    exists i :: 0 <= i < |fs| && fs[i].id == id
  }

  /** `RanksAhead` as the ordering `getPopular` sorts by. */
  function Rank(db: FilmTables): (Film, Film) -> bool {
    (a, b) => RanksAhead(db, a, b)
  }

  /** Every film of `fs` is the one stored under its id. */
  predicate AllStored(db: FilmTables, fs: seq<Film>) {
    forall i :: 0 <= i < |fs| ==> GetFilm(db, fs[i].id) == Some(fs[i])
  }

  /** No two films of `fs` share an id. */
  predicate DistinctIds(fs: seq<Film>) {
    forall i, j :: 0 <= i < j < |fs| ==> fs[i].id != fs[j].id
  }

  /** No film of `fs` ranks ahead of one listed before it. */
  predicate RankOrdered(db: FilmTables, fs: seq<Film>) {
    forall i, j :: 0 <= i < j < |fs| ==> !RanksAhead(db, fs[j], fs[i])
  }

  /** No stored film missing from `top` ranks ahead of a film in `top`. */
  predicate LeavesNoBetter(db: FilmTables, top: seq<Film>) {
    forall id, i :: id in db.films && !Returned(top, id) && 0 <= i < |top| ==>
      !RanksAhead(db, FilmFromRow(db, id), top[i])
  }

  /** `getPopular`: the films ranked by `RanksAhead`, the first `count` of them. Films tied on both
      likes and name come in an order the database chooses. */
  method GetPopular(db: FilmTables, count: nat) returns (r: seq<Film>)
    ensures |r| == if count < |db.films| then count else |db.films|
    ensures AllStored(db, r) && DistinctIds(r)
    ensures RankOrdered(db, r)
    ensures LeavesNoBetter(db, r)
  {
    var scanned := ScanFilms(db);
    var sorted := Ranking.Sort(scanned, Rank(db));
    SortedByRank(db, scanned);
    Ranking.SortPermutes(scanned, Rank(db));
    PopularStored(db, scanned, sorted);
    var n := if count < |sorted| then count else |sorted|;
    PopularTop(db, scanned, sorted, n);
    PrefixKeeps(db, sorted, n);
    r := sorted[..n];
  }

  lemma SortedByRank(db: FilmTables, s: seq<Film>)
    ensures RankOrdered(db, Ranking.Sort(s, Rank(db)))
    ensures Ranking.Sorted(Ranking.Sort(s, Rank(db)), Rank(db))
  {
    RanksAheadIsStrictWeakOrder(db);
    assert Rank(db) == (a, b) => RanksAhead(db, a, b);
    Ranking.SortSorted(s, Rank(db));
  }

  lemma PrefixKeeps(db: FilmTables, fs: seq<Film>, n: nat)
    requires n <= |fs|
    requires AllStored(db, fs) && DistinctIds(fs) && RankOrdered(db, fs)
    ensures AllStored(db, fs[..n]) && DistinctIds(fs[..n]) && RankOrdered(db, fs[..n])
  {
  }

  lemma PopularStored(db: FilmTables, scanned: seq<Film>, sorted: seq<Film>)
    requires multiset(sorted) == multiset(scanned) && IdStore.Distinct(scanned)
    requires AllStored(db, scanned)
    ensures AllStored(db, sorted) && DistinctIds(sorted)
  {
    IdStore.PermutationKeepsDistinct(scanned, sorted);
    forall i | 0 <= i < |sorted| ensures GetFilm(db, sorted[i].id) == Some(sorted[i]) {
      assert sorted[i] in multiset(scanned);
    }
  }

  lemma PopularTop(db: FilmTables, scanned: seq<Film>, sorted: seq<Film>, n: nat)
    requires multiset(sorted) == multiset(scanned) && n <= |sorted|
    requires Ranking.Sorted(sorted, Rank(db))
    requires AllStored(db, scanned)
    requires forall id :: id in db.films ==> exists i :: 0 <= i < |scanned| && scanned[i].id == id
    ensures LeavesNoBetter(db, sorted[..n])
  {
    forall id, i | id in db.films && !Returned(sorted[..n], id) && 0 <= i < n
      ensures !RanksAhead(db, FilmFromRow(db, id), sorted[i])
    {
      var k :| 0 <= k < |scanned| && scanned[k].id == id;
      var f := scanned[k];
      assert f in multiset(sorted);
      assert f !in sorted[..n];
      Ranking.TopOfSorted(sorted, n, Rank(db), f);
      assert !Rank(db)(f, sorted[i]);
    }
  }
}
