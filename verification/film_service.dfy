/** `FilmService` over the in-memory film and user storages: validation before a film is stored,
    likes as a set of user ids inside each film, and the popularity query. */
module FilmService {
  import opened Outcomes
  import opened Model
  import opened Validation
  import IdStore
  import Ranking
  import Storage = InMemoryFilmStorage
  import UserStorage = InMemoryUserStorage
  import UserService

  type Films = Storage.Films
  type Users = UserStorage.Users

  /** `addFilm`: only a valid film reaches the storage; an invalid one leaves it untouched. */
  function AddFilm(s: Films, f: Film): (r: Result<(Films, Film)>)
    requires Storage.Consistent(s)
    ensures r.Ok? <==> FilmValid(f)
    ensures r.Err? ==> r.error == ValidateFilm(f).error
    ensures r.Ok? ==> var (s', added) := r.value;
      && Storage.Consistent(s')
      && added == f.(id := added.id) && added.id !in s.rows
      && Storage.GetFilm(s', added.id) == Ok(added)
      && s'.rows.Keys == s.rows.Keys + {added.id}
      && forall id :: id in s.rows ==> s'.rows[id] == s.rows[id]
  {
    match ValidateFilm(f)
    case Err(e) => Err(e)
    case Ok(valid) => Ok(Storage.AddFilm(s, valid))
  }

  /** `updateFilm`: validation first, then the storage's `NotFound` for an unknown id. */
  function UpdateFilm(s: Films, f: Film): (r: Result<(Films, Film)>)
    requires Storage.Consistent(s)
    ensures !FilmValid(f) ==> r == Err(ValidateFilm(f).error)
    ensures FilmValid(f) && f.id !in s.rows ==> r == Err(NotFound(FilmRecord, f.id))
    ensures r.Ok? <==> FilmValid(f) && f.id in s.rows
    ensures r.Ok? ==> var (s', updated) := r.value;
      && Storage.Consistent(s') && updated == f
      && Storage.GetFilm(s', f.id) == Ok(f)
      && s'.rows.Keys == s.rows.Keys
      && forall id :: id in s.rows && id != f.id ==> s'.rows[id] == s.rows[id]
  {
    match ValidateFilm(f)
    case Err(e) => Err(e)
    case Ok(valid) => Storage.UpdateFilm(s, valid)
  }

  /** `getFilm`: the stored film, or `NotFound` naming the id. */
  function GetFilm(s: Films, id: int): (r: Result<Film>)
    requires Storage.Consistent(s)
    ensures r.Err? <==> id !in s.rows
    ensures r.Err? ==> r.error == NotFound(FilmRecord, id)
    ensures r.Ok? ==> r.value == s.rows[id] && r.value.id == id
  {
    Storage.GetFilm(s, id)
  }

  /** `getFilms`: every stored film once. */
  function GetFilms(s: Films): (r: seq<Film>)
    requires Storage.Consistent(s)
    ensures |r| == |s.rows|
    ensures forall i :: 0 <= i < |r| ==> GetFilm(s, r[i].id) == Ok(r[i])
    ensures forall id :: id in s.rows ==> exists i :: 0 <= i < |r| && r[i].id == id
    ensures forall i, j :: 0 <= i < j < |r| ==> r[i].id != r[j].id
  {
    Storage.GetFilmsList(s)
  }

  /** The ids of the users who liked the film stored under `filmId`. */
  function Likes(s: Films, filmId: int): set<int>
    requires filmId in s.rows
  {
    s.rows[filmId].userLikes
  }

  /** `addUserLike`: `NotFound` for an unknown film, then for an unknown user; otherwise the user's
      id joins the film's likes and nothing else changes. */
  function AddUserLike(s: Films, users: Users, filmId: int, userId: int): (r: Result<Films>)
    requires Storage.Consistent(s) && UserStorage.Consistent(users)
    ensures filmId !in s.rows ==> r == Err(NotFound(FilmRecord, filmId))
    ensures filmId in s.rows && userId !in users.rows ==> r == Err(NotFound(UserRecord, userId))
    ensures r.Ok? <==> filmId in s.rows && userId in users.rows
    ensures r.Ok? ==> var s' := r.value;
      && Storage.Consistent(s') && s'.rows.Keys == s.rows.Keys && s'.lastId == s.lastId
      && Likes(s', filmId) == Likes(s, filmId) + {userId}
      && s'.rows[filmId].(userLikes := Likes(s, filmId)) == s.rows[filmId]
      && forall id :: id in s.rows && id != filmId ==> s'.rows[id] == s.rows[id]
  {
    match GetFilm(s, filmId)
    case Err(e) => Err(e)
    case Ok(film) =>
      match UserService.GetUser(users, userId)
      case Err(e) => Err(e)
      case Ok(user) =>
        Ok(Storage.UpdateFilm(s, film.(userLikes := film.userLikes + {user.id})).value.0)
  }

  /** `deleteUserLike`: the same existence checks; afterwards the user's id is not among the film's
      likes, and nothing else changes. */
  function DeleteUserLike(s: Films, users: Users, filmId: int, userId: int): (r: Result<Films>)
    requires Storage.Consistent(s) && UserStorage.Consistent(users)
    ensures filmId !in s.rows ==> r == Err(NotFound(FilmRecord, filmId))
    ensures filmId in s.rows && userId !in users.rows ==> r == Err(NotFound(UserRecord, userId))
    ensures r.Ok? <==> filmId in s.rows && userId in users.rows
    ensures r.Ok? ==> var s' := r.value;
      && Storage.Consistent(s') && s'.rows.Keys == s.rows.Keys && s'.lastId == s.lastId
      && Likes(s', filmId) == Likes(s, filmId) - {userId}
      && s'.rows[filmId].(userLikes := Likes(s, filmId)) == s.rows[filmId]
      && forall id :: id in s.rows && id != filmId ==> s'.rows[id] == s.rows[id]
  {
    match GetFilm(s, filmId)
    case Err(e) => Err(e)
    case Ok(film) =>
      match UserService.GetUser(users, userId)
      case Err(e) => Err(e)
      case Ok(user) =>
        Ok(Storage.UpdateFilm(s, film.(userLikes := film.userLikes - {user.id})).value.0)
  }

  /** A repeated like is a no-op: liking twice leaves the store as liking once. */
  lemma AddUserLikeIdempotent(s: Films, users: Users, filmId: int, userId: int)
    requires Storage.Consistent(s) && UserStorage.Consistent(users)
    requires AddUserLike(s, users, filmId, userId).Ok?
    ensures var once := AddUserLike(s, users, filmId, userId).value;
      AddUserLike(once, users, filmId, userId) == Ok(once)
  {
    var once := AddUserLike(s, users, filmId, userId).value;
    var twice := AddUserLike(once, users, filmId, userId).value;
    assert twice.rows[filmId] == once.rows[filmId];
    assert twice.rows == once.rows;
  }

  /** Removing a like that is not there is a no-op. */
  lemma DeleteAbsentLikeIsNoOp(s: Films, users: Users, filmId: int, userId: int)
    requires Storage.Consistent(s) && UserStorage.Consistent(users)
    requires filmId in s.rows && userId in users.rows && userId !in Likes(s, filmId)
    ensures DeleteUserLike(s, users, filmId, userId) == Ok(s)
  {
    var r := DeleteUserLike(s, users, filmId, userId).value;
    assert r.rows[filmId] == s.rows[filmId];
    assert r.rows == s.rows;
  }

  /** The popularity order: a film with more likes ranks ahead. */
  function MoreLiked(a: Film, b: Film): bool {
    |a.userLikes| > |b.userLikes|
  }

  lemma MoreLikedIsStrictWeakOrder()
    ensures Ranking.StrictWeakOrder(MoreLiked)
  {
  }

  function Min(a: int, b: int): int {
    if a < b then a else b
  }

  /** The number of films `/films/popular` asks for when the request names no `count`. */
  const DefaultPopularCount: int := 10

  /** The `/films/popular` endpoint: the request's `count`, or `DefaultPopularCount` when it names
      none, passed on to `GetPopular`. */
  function PopularRequest(s: Films, count: Option<int>): (r: Result<seq<Film>>)
    requires Storage.Consistent(s)
    ensures count.Some? ==> r == GetPopular(s, count.value)
  {
    GetPopular(s, if count.Some? then count.value else DefaultPopularCount)
  }

  /** A request without `count` gets the ten most liked films, or every film when fewer are
      stored. */
  lemma DefaultPopularIsTen(s: Films)
    requires Storage.Consistent(s)
    ensures PopularRequest(s, None).Ok?
    ensures |PopularRequest(s, None).value| == if |s.rows| < 10 then |s.rows| else 10
  {
  }

  /** `getPopular`: the films sorted by like count, most liked first, equal counts in listing
      order, cut to `count`. `Stream.limit` refuses a negative `count`. */
  function GetPopular(s: Films, count: int): (r: Result<seq<Film>>)
    requires Storage.Consistent(s)
    ensures r.Err? <==> count < 0
    ensures r.Err? ==> r.error == IllegalArgument
    ensures r.Ok? ==> |r.value| == Min(count, |s.rows|)
    ensures r.Ok? ==> forall i :: 0 <= i < |r.value| ==> GetFilm(s, r.value[i].id) == Ok(r.value[i])
    ensures r.Ok? ==> forall i, j :: 0 <= i < j < |r.value| ==> r.value[i].id != r.value[j].id
    // most liked first
    ensures r.Ok? ==> forall i, j :: 0 <= i < j < |r.value| ==>
      |r.value[i].userLikes| >= |r.value[j].userLikes|
    // a top-`count`: no film left out has more likes than any film returned
    ensures r.Ok? ==> forall id, i :: id in s.rows && 0 <= i < |r.value| && !Returned(r.value, id) ==>
      |s.rows[id].userLikes| <= |r.value[i].userLikes|
  {
    if count < 0 then Err(IllegalArgument)
    else
      PopularFacts(s, count);
      Ok(Top(s, count))
  }

  /** The first `count` films of the film list sorted by `MoreLiked`. */
  function Top(s: Films, count: nat): seq<Film>
    requires Storage.Consistent(s)
  {
    var sorted := Ranking.Sort(GetFilms(s), MoreLiked);
    sorted[..Min(count, |sorted|)]
  }

  /** Some film of `fs` has id `id`. */
  predicate Returned(fs: seq<Film>, id: int) {
    exists i :: 0 <= i < |fs| && fs[i].id == id
  }

  lemma PopularFacts(s: Films, count: nat)
    requires Storage.Consistent(s)
    ensures var top := Top(s, count);
      && |top| == Min(count, |s.rows|)
      && (forall i :: 0 <= i < |top| ==> GetFilm(s, top[i].id) == Ok(top[i]))
      && (forall i, j :: 0 <= i < j < |top| ==> top[i].id != top[j].id)
      && (forall i, j :: 0 <= i < j < |top| ==> |top[i].userLikes| >= |top[j].userLikes|)
      && (forall id, i :: id in s.rows && 0 <= i < |top| && !Returned(top, id) ==>
            |s.rows[id].userLikes| <= |top[i].userLikes|)
  {
    TopStoredOnce(s, count);
    TopOrdered(s, count);
    TopLeavesNoBetter(s, count);
  }

  /** Every film of `fs` is the one stored under its id. */
  predicate AllStored(s: Films, fs: seq<Film>)
    requires Storage.Consistent(s)
  {
    forall i :: 0 <= i < |fs| ==> GetFilm(s, fs[i].id) == Ok(fs[i])
  }

  /** No two films of `fs` share an id. */
  predicate DistinctIds(fs: seq<Film>) {
    forall i, j :: 0 <= i < j < |fs| ==> fs[i].id != fs[j].id
  }

  lemma TopStoredOnce(s: Films, count: nat)
    requires Storage.Consistent(s)
    ensures |Top(s, count)| == Min(count, |s.rows|)
    ensures AllStored(s, Top(s, count)) && DistinctIds(Top(s, count))
  {
    var listed := GetFilms(s);
    var sorted := Ranking.Sort(listed, MoreLiked);
    TopIsPrefix(s, count, sorted);
    Ranking.SortPermutes(listed, MoreLiked);
    SortedStored(s, listed, sorted);
    SortedDistinct(s, listed, sorted);
    PrefixStoredOnce(s, sorted, Min(count, |sorted|));
  }

  lemma TopIsPrefix(s: Films, count: nat, sorted: seq<Film>)
    requires Storage.Consistent(s) && sorted == Ranking.Sort(GetFilms(s), MoreLiked)
    ensures |sorted| == |s.rows|
    ensures Top(s, count) == sorted[..Min(count, |sorted|)]
  {
  }

  lemma PrefixStoredOnce(s: Films, fs: seq<Film>, n: nat)
    requires Storage.Consistent(s) && n <= |fs|
    requires AllStored(s, fs) && DistinctIds(fs)
    ensures AllStored(s, fs[..n]) && DistinctIds(fs[..n])
  {
  }

  lemma SortedStored(s: Films, listed: seq<Film>, sorted: seq<Film>)
    requires Storage.Consistent(s) && listed == GetFilms(s)
    requires multiset(sorted) == multiset(listed)
    ensures AllStored(s, sorted)
  {
    forall i | 0 <= i < |sorted| ensures GetFilm(s, sorted[i].id) == Ok(sorted[i]) {
      assert sorted[i] in multiset(listed);
    }
  }

  lemma SortedDistinct(s: Films, listed: seq<Film>, sorted: seq<Film>)
    requires Storage.Consistent(s)
    requires DistinctIds(listed) && multiset(sorted) == multiset(listed)
    requires AllStored(s, sorted)
    ensures DistinctIds(sorted)
  {
    assert IdStore.Distinct(listed) by {
      forall i, j | 0 <= i < j < |listed| ensures listed[i] != listed[j] {
        assert listed[i].id != listed[j].id;
      }
    }
    IdStore.PermutationKeepsDistinct(listed, sorted);
    forall i, j | 0 <= i < j < |sorted| ensures sorted[i].id != sorted[j].id {
      assert sorted[i] != sorted[j];
      assert GetFilm(s, sorted[i].id) == Ok(sorted[i]);
      assert GetFilm(s, sorted[j].id) == Ok(sorted[j]);
    }
  }

  lemma TopOrdered(s: Films, count: nat)
    requires Storage.Consistent(s)
    ensures var top := Top(s, count);
      forall i, j :: 0 <= i < j < |top| ==> |top[i].userLikes| >= |top[j].userLikes|
  {
    var sorted := Ranking.Sort(GetFilms(s), MoreLiked);
    SortedByLikes(GetFilms(s));
    SortedOrdered(sorted, Min(count, |sorted|));
  }

  lemma TopLeavesNoBetter(s: Films, count: nat)
    requires Storage.Consistent(s)
    ensures LeavesNoBetter(s, Top(s, count))
  {
    var listed := GetFilms(s);
    var sorted := Ranking.Sort(listed, MoreLiked);
    TopIsPrefix(s, count, sorted);
    SortedByLikes(listed);
    Ranking.SortPermutes(listed, MoreLiked);
    SortedTop(s, listed, sorted, Min(count, |sorted|));
  }

  /** No stored film missing from `top` has more likes than a film in `top`. */
  predicate LeavesNoBetter(s: Films, top: seq<Film>) {
    forall id, i :: id in s.rows && 0 <= i < |top| && !Returned(top, id) ==>
      |s.rows[id].userLikes| <= |top[i].userLikes|
  }

  lemma SortedByLikes(listed: seq<Film>)
    ensures Ranking.Sorted(Ranking.Sort(listed, MoreLiked), MoreLiked)
  {
    MoreLikedIsStrictWeakOrder();
    Ranking.SortSorted(listed, MoreLiked);
  }

  lemma SortedOrdered(sorted: seq<Film>, n: nat)
    requires Ranking.Sorted(sorted, MoreLiked) && n <= |sorted|
    ensures forall i, j :: 0 <= i < j < n ==> |sorted[i].userLikes| >= |sorted[j].userLikes|
  {
    forall i, j | 0 <= i < j < n ensures |sorted[i].userLikes| >= |sorted[j].userLikes| {
      assert !MoreLiked(sorted[j], sorted[i]);
    }
  }

  lemma SortedTop(s: Films, listed: seq<Film>, sorted: seq<Film>, n: nat)
    requires Storage.Consistent(s) && listed == GetFilms(s)
    requires multiset(sorted) == multiset(listed) && Ranking.Sorted(sorted, MoreLiked)
    requires n <= |sorted|
    ensures LeavesNoBetter(s, sorted[..n])
  {
    forall id, i | id in s.rows && 0 <= i < n && !Returned(sorted[..n], id)
      ensures |s.rows[id].userLikes| <= |sorted[i].userLikes|
    {
      var k :| 0 <= k < |listed| && listed[k].id == id;
      var f := listed[k];
      assert f in multiset(sorted);
      assert f !in sorted[..n];
      Ranking.TopOfSorted(sorted, n, MoreLiked, f);
      assert !MoreLiked(f, sorted[i]);
      assert f == s.rows[id];
    }
  }

  /** Stability: among the films returned, those with equally many likes as `e` come in the order
      the film list gives them. */
  lemma GetPopularIsStable(s: Films, count: int, e: Film)
    requires Storage.Consistent(s) && count >= 0
    ensures Ranking.LevelWith(GetPopular(s, count).value, MoreLiked, e)
         <= Ranking.LevelWith(GetFilms(s), MoreLiked, e)
  {
    var listed := GetFilms(s);
    var sorted := Ranking.Sort(listed, MoreLiked);
    PopularFacts(s, count);
    MoreLikedIsStrictWeakOrder();
    Ranking.SortKeepsLevelOrder(listed, MoreLiked, e);
    Ranking.LevelWithPrefix(sorted, Min(count, |sorted|), MoreLiked, e);
  }
}
