# filmorate storage and relationship core, in Dafny

This project models the storage and relationship layer of filmorate, a film-rating service.
Users register, like films and befriend each other. The service can list the most-liked films
and the friends two users share. The model covers these parts:

- **Validation** of films and users (`FilmService.validate`, `UserService.validate`).
- **The in-memory stores**. These are `InMemoryFilmStorage`, `InMemoryUserStorage`,
  `InMemoryFilmsManager` and `InMemoryUsersManager`. Each is an id-keyed map with a `lastId`
  counter (module `IdStore`).
- **The services** over the in-memory stores (`FilmService`, `UserService`). They cover likes,
  the popularity ranking, and friendship added and removed on both users at once.
- **The database stores** (`FilmDbStorage`, `UserDbStorage`), modelled as tables of rows and
  pairs. Here friendship is a directed pair, likes live in their own table, and the popularity
  ranking breaks ties by name.

Java `null` is `Option`, and an exception is an `Err` of `Outcomes.Result`. A store is an
immutable value: an operation returns the new store rather than changing the old one. The Java
in-memory classes hand out their stored objects, and the services change those objects in place.
The model writes each such change as an explicit replacement in the map. The current date is the
parameter `today`. The key a database generates on insert is the parameter `newId`.

The ranking operations sort with `Ranking.Sort`, a stable insertion sort. It is proved correct
for any strict weak order: each sort key used is first proved to be one. A top-`count` result is
then proved to contain nothing ranked behind a film it leaves out.

## Model

Paths are under `src/main/java/ru/yandex/practicum/filmorate/` unless they start with `src/test`.

| member | source | states |
|---|---|---|
| Text.Utf16LengthBounds | src/main/java/ru/yandex/practicum/filmorate/service/film/FilmService.java:100 | `String.length` counts UTF-16 units: at least one and at most two per character |
| Text.Utf16LengthOfBmp | src/main/java/ru/yandex/practicum/filmorate/service/film/FilmService.java:100 | a text of Basic Multilingual Plane characters has as many UTF-16 units as characters |
| Text.LexLessTransitive | src/main/java/ru/yandex/practicum/filmorate/storage/user/UserDbStorage.java:125 | the order the database sorts names in is transitive |
| Text.LexLessTotal | src/main/java/ru/yandex/practicum/filmorate/storage/user/UserDbStorage.java:125 | any two different names are ordered one way or the other |
| Text.NullFirstLessSplits | src/main/java/ru/yandex/practicum/filmorate/storage/user/UserDbStorage.java:125 | in ascending name order with nulls first, any value lies after the lower of two ordered values or before the higher |
| Validation.ValidateFilm | src/main/java/ru/yandex/practicum/filmorate/service/film/FilmService.java:95-109 | a film passes exactly when its name is not blank, its description has at most 200 UTF-16 units, its release date is on or after 1895-12-28 and its duration is positive; otherwise the first failing check, in that order, is reported |
| Validation.DescriptionBoundary | src/test/java/ru/yandex/practicum/filmorate/managers/FilmsManagerTests.java:96-120 | from a valid film, a description of 200 characters passes and one of 201 fails with the long-description error; a missing description passes |
| Validation.ReleaseDateBoundary | src/test/java/ru/yandex/practicum/filmorate/managers/FilmsManagerTests.java:122-139 | 28 December 1895 passes; 27 December 1895 and a missing date fail with the release-date error |
| Validation.DurationBoundary | src/test/java/ru/yandex/practicum/filmorate/managers/FilmsManagerTests.java:141-162 | a duration of 1 passes; 0, -1 and a missing duration fail with the duration error |
| Validation.NameBoundary | src/test/java/ru/yandex/practicum/filmorate/managers/FilmsManagerTests.java:84-94 | a blank or missing name fails with the blank-name error, even when the duration is also missing |
| Validation.ValidateUser | src/main/java/ru/yandex/practicum/filmorate/service/user/UserService.java:108-122 | a user passes exactly when the email is not blank and has '@', the login is not blank and has no space, and the birthday is not after today; otherwise the first failing check is reported; on success only the name may change, to the login, and only when it was missing or blank |
| Validation.ValidateUserIdempotent | src/main/java/ru/yandex/practicum/filmorate/service/user/UserService.java:119-121 | validating a user a second time changes nothing |
| Validation.UserBoundaries | src/test/java/ru/yandex/practicum/filmorate/managers/UsersManagersTest.java:86-126 | a birthday of today passes and tomorrow fails; "user" and " " fail as emails; "User Login" and "" fail as logins; a missing name becomes the login |
| IdStore.Enumerate | src/main/java/ru/yandex/practicum/filmorate/service/user/UserService.java:83 | iterating a set visits each element exactly once, in some order |
| Ranking.InsertPermutes | src/main/java/ru/yandex/practicum/filmorate/service/film/FilmService.java:81-83 | inserting an element adds exactly that element: the result holds the input's elements plus the new one, with their multiplicities |
| Ranking.SortPermutes | src/main/java/ru/yandex/practicum/filmorate/service/film/FilmService.java:81-83 | sorting is a permutation: the result holds exactly the input's elements, with their multiplicities |
| Ranking.SortSorted | src/main/java/ru/yandex/practicum/filmorate/service/film/FilmService.java:81-83 | sorting by a strict weak order leaves no element behind one it ranks ahead of |
| Ranking.SortKeepsLevelOrder | src/main/java/ru/yandex/practicum/filmorate/service/film/FilmService.java:81-83 | the sort is stable: elements ranked equal keep their input order |
| Ranking.TopOfSorted | src/main/java/ru/yandex/practicum/filmorate/service/film/FilmService.java:83-84 | nothing left out of a prefix of a sorted sequence ranks ahead of anything in it |
| InMemoryUserStorage.Init | src/main/java/ru/yandex/practicum/filmorate/storage/user/InMemoryUserStorage.java:15-18 | a new store is empty and its first id is 1 |
| InMemoryUserStorage.GetUsersList | src/main/java/ru/yandex/practicum/filmorate/storage/user/InMemoryUserStorage.java:20-23 | every stored user appears exactly once, with ids ascending |
| InMemoryUserStorage.AddUser | src/main/java/ru/yandex/practicum/filmorate/storage/user/InMemoryUserStorage.java:25-30 | the user is stored under the next counter value, which is a new id; other users are unchanged |
| InMemoryUserStorage.UpdateUser | src/main/java/ru/yandex/practicum/filmorate/storage/user/InMemoryUserStorage.java:32-40 | NotFound exactly when the id is not stored; otherwise the user is replaced and no other user or id changes |
| InMemoryUserStorage.GetUser | src/main/java/ru/yandex/practicum/filmorate/storage/user/InMemoryUserStorage.java:42-45 | returns the stored user, or none when the id is not stored |
| InMemoryUserStorage.AddFriend | src/main/java/ru/yandex/practicum/filmorate/storage/user/InMemoryUserStorage.java:47-53 | each user's friend set gains the other's id; nothing else changes |
| InMemoryUserStorage.DeleteFriend | src/main/java/ru/yandex/practicum/filmorate/storage/user/InMemoryUserStorage.java:55-61 | each user's friend set loses the other's id; nothing else changes |
| InMemoryUserStorage.AddFriendIdempotent | src/main/java/ru/yandex/practicum/filmorate/storage/user/InMemoryUserStorage.java:47-53 | adding the same friendship twice is the same as adding it once |
| InMemoryUserStorage.DeleteAbsentFriendIsNoOp | src/main/java/ru/yandex/practicum/filmorate/storage/user/InMemoryUserStorage.java:55-61 | deleting a friendship that does not exist changes nothing |
| InMemoryUserStorage.AddFriendKeepsSymmetry | src/main/java/ru/yandex/practicum/filmorate/storage/user/InMemoryUserStorage.java:47-53 | if friendship was symmetric before an add, it stays symmetric, and the two users are now friends both ways |
| InMemoryUserStorage.DeleteFriendKeepsSymmetry | src/main/java/ru/yandex/practicum/filmorate/storage/user/InMemoryUserStorage.java:55-61 | if friendship was symmetric before a delete, it stays symmetric, and the two users are now friends in neither direction |
| InMemoryUserStorage.GetFriends | src/main/java/ru/yandex/practicum/filmorate/storage/user/InMemoryUserStorage.java:63-71 | one lookup per friend id, each id once; an id that no longer resolves yields null |
| InMemoryUserStorage.GetCommonFriends | src/main/java/ru/yandex/practicum/filmorate/storage/user/InMemoryUserStorage.java:73-84 | one lookup per id in both friend sets, each once |
| InMemoryFilmStorage.Init | src/main/java/ru/yandex/practicum/filmorate/storage/film/InMemoryFilmStorage.java:18-21 | a new store is empty and its first id is 1 |
| InMemoryFilmStorage.GetFilmsList | src/main/java/ru/yandex/practicum/filmorate/storage/film/InMemoryFilmStorage.java:23-26 | every stored film appears exactly once, with ids ascending |
| InMemoryFilmStorage.AddFilm | src/main/java/ru/yandex/practicum/filmorate/storage/film/InMemoryFilmStorage.java:28-33 | the film is stored under the next counter value, which is a new id; other films are unchanged |
| InMemoryFilmStorage.UpdateFilm | src/main/java/ru/yandex/practicum/filmorate/storage/film/InMemoryFilmStorage.java:35-43 | NotFound exactly when the id is not stored; otherwise the film is replaced and no other film or id changes |
| InMemoryFilmStorage.GetFilm | src/main/java/ru/yandex/practicum/filmorate/storage/film/InMemoryFilmStorage.java:45-52 | returns the stored film, or NotFound when the id is not stored |
| InMemoryFilmStorage.AddThenGet | src/main/java/ru/yandex/practicum/filmorate/storage/film/InMemoryFilmStorage.java:28-52 | a film read back after adding it is the film as given, under a new id |
| InMemoryFilmStorage.UpdateThenGet | src/main/java/ru/yandex/practicum/filmorate/storage/film/InMemoryFilmStorage.java:35-52 | a film read back after updating it is the one written; other films read as before |
| InMemoryFilmStorage.IdsCountUp | src/main/java/ru/yandex/practicum/filmorate/storage/film/InMemoryFilmStorage.java:30 | starting from an empty store, the first three films get ids 1, 2 and 3 |
| InMemoryFilmStorage.IdsNeverReused | src/main/java/ru/yandex/practicum/filmorate/storage/film/InMemoryFilmStorage.java:30 | after any number of adds, the next id is greater than every id handed out before them |
| InMemoryFilmsManager.Init | src/main/java/ru/yandex/practicum/filmorate/managers/memory/InMemoryFilmsManager.java:19-22 | a new manager is empty and its first id is 1 |
| InMemoryFilmsManager.GetFilmsList | src/main/java/ru/yandex/practicum/filmorate/managers/memory/InMemoryFilmsManager.java:24-27 | every stored film appears exactly once, in no promised order |
| InMemoryFilmsManager.AddFilm | src/main/java/ru/yandex/practicum/filmorate/managers/memory/InMemoryFilmsManager.java:29-35 | a copy of the film is stored under a new id and reads back equal to the returned film |
| InMemoryFilmsManager.UpdateFilm | src/main/java/ru/yandex/practicum/filmorate/managers/memory/InMemoryFilmsManager.java:37-46 | NotFound exactly when the id is not stored; otherwise the copy replaces it and nothing else changes |
| InMemoryFilmsManager.GetFilm | src/main/java/ru/yandex/practicum/filmorate/managers/memory/InMemoryFilmsManager.java:48-52 | returns a copy of the stored film, or none |
| InMemoryFilmsManager.Clear | src/main/java/ru/yandex/practicum/filmorate/managers/memory/InMemoryFilmsManager.java:54-57 | afterwards no id finds a film, and the counter is unchanged |
| InMemoryFilmsManager.ClearKeepsIdsFresh | src/main/java/ru/yandex/practicum/filmorate/managers/memory/InMemoryFilmsManager.java:54-57 | the first film added after a clear gets an id greater than every id stored before it |
| InMemoryFilmsManager.UpdateRoundTrip | src/test/java/ru/yandex/practicum/filmorate/managers/FilmsManagerTests.java:56-82 | adding a film and then updating it under the returned id reads back every field written |
| InMemoryUsersManager.Init | src/main/java/ru/yandex/practicum/filmorate/managers/memory/InMemoryUsersManager.java:19-22 | a new manager is empty and its first id is 1 |
| InMemoryUsersManager.GetUsersList | src/main/java/ru/yandex/practicum/filmorate/managers/memory/InMemoryUsersManager.java:24-27 | every stored user appears exactly once, in no promised order |
| InMemoryUsersManager.AddUser | src/main/java/ru/yandex/practicum/filmorate/managers/memory/InMemoryUsersManager.java:29-35 | a copy of the user is stored under a new id and reads back equal to the returned user |
| InMemoryUsersManager.UpdateUser | src/main/java/ru/yandex/practicum/filmorate/managers/memory/InMemoryUsersManager.java:37-46 | NotFound exactly when the id is not stored; otherwise the copy replaces it and nothing else changes |
| InMemoryUsersManager.GetUser | src/main/java/ru/yandex/practicum/filmorate/managers/memory/InMemoryUsersManager.java:48-52 | returns a copy of the stored user, or none |
| InMemoryUsersManager.Clear | src/main/java/ru/yandex/practicum/filmorate/managers/memory/InMemoryUsersManager.java:54-57 | afterwards no id finds a user, and the counter is unchanged |
| InMemoryUsersManager.ClearKeepsIdsFresh | src/main/java/ru/yandex/practicum/filmorate/managers/memory/InMemoryUsersManager.java:54-57 | the first user added after a clear gets an id greater than every id stored before it |
| InMemoryUsersManager.UpdateRoundTrip | src/test/java/ru/yandex/practicum/filmorate/managers/UsersManagersTest.java:58-84 | adding a user and then updating it under the returned id reads back every field written |
| UserService.AddUser | src/main/java/ru/yandex/practicum/filmorate/service/user/UserService.java:38-42 | succeeds exactly for a valid user, which is stored under the next counter id with its name defaulted while every other user stays as it was; otherwise the validation error |
| UserService.UpdateUser | src/main/java/ru/yandex/practicum/filmorate/service/user/UserService.java:44-48 | validation errors come before NotFound; succeeds exactly for a valid user whose id is stored, which replaces the stored user while the others and the id counter stay as they were |
| UserService.UpdateUserCanBreakSymmetry | src/main/java/ru/yandex/practicum/filmorate/service/user/UserService.java:44-48 | the update stores the friend set it is sent, so clearing one side of a two-way friendship succeeds and leaves friendship one-sided |
| UserService.GetUser | src/main/java/ru/yandex/practicum/filmorate/service/user/UserService.java:50-57 | the stored user, or NotFound naming the id |
| UserService.GetUsers | src/main/java/ru/yandex/practicum/filmorate/service/user/UserService.java:59-61 | every stored user, once each: as many entries as users, each the stored record, no id twice, every stored id present |
| UserService.AddFriend | src/main/java/ru/yandex/practicum/filmorate/service/user/UserService.java:63-69 | NotFound for the first unknown id; otherwise the two become friends both ways; their other fields, every other user and the id counter stay as they were |
| UserService.DeleteFriend | src/main/java/ru/yandex/practicum/filmorate/service/user/UserService.java:71-77 | NotFound for the first unknown id; otherwise the two are friends in neither direction; their other fields, every other user and the id counter stay as they were |
| UserService.DeleteAbsentFriendIsNoOp | src/main/java/ru/yandex/practicum/filmorate/service/user/UserService.java:71-77 | deleting a friendship between two stored users who are not friends returns the store unchanged |
| UserService.ResolveKnown | src/main/java/ru/yandex/practicum/filmorate/service/user/UserService.java:83-88 | the users of the ids that resolve, in order and once each; ids that do not resolve are skipped |
| UserService.GetFriends | src/main/java/ru/yandex/practicum/filmorate/service/user/UserService.java:79-90 | NotFound for an unknown user; otherwise each stored friend exactly once |
| UserService.GetCommonFriends | src/main/java/ru/yandex/practicum/filmorate/service/user/UserService.java:92-106 | NotFound for the first unknown id; otherwise each stored user in both friend sets, exactly once |
| UserService.NameDefaultsToLogin | src/main/java/ru/yandex/practicum/filmorate/service/user/UserService.java:119-121 | a user added without a name reads back with the login as its name |
| FilmService.AddFilm | src/main/java/ru/yandex/practicum/filmorate/service/film/FilmService.java:40-44 | succeeds exactly for a valid film, which is stored unchanged under a new id; otherwise the validation error and no change |
| FilmService.UpdateFilm | src/main/java/ru/yandex/practicum/filmorate/service/film/FilmService.java:46-50 | validation errors come before NotFound; succeeds exactly for a valid film whose id is stored |
| FilmService.GetFilm | src/main/java/ru/yandex/practicum/filmorate/service/film/FilmService.java:52-59 | the stored film, or NotFound naming the id |
| FilmService.GetFilms | src/main/java/ru/yandex/practicum/filmorate/service/film/FilmService.java:61-63 | every stored film exactly once |
| FilmService.AddUserLike | src/main/java/ru/yandex/practicum/filmorate/service/film/FilmService.java:65-70 | NotFound for an unknown film, then for an unknown user; otherwise the user's id joins the film's likes and nothing else changes |
| FilmService.DeleteUserLike | src/main/java/ru/yandex/practicum/filmorate/service/film/FilmService.java:72-77 | the same checks; otherwise the user's id leaves the film's likes and nothing else changes |
| FilmService.AddUserLikeIdempotent | src/main/java/ru/yandex/practicum/filmorate/service/film/FilmService.java:65-70 | liking a film twice is the same as liking it once |
| FilmService.DeleteAbsentLikeIsNoOp | src/main/java/ru/yandex/practicum/filmorate/service/film/FilmService.java:72-77 | removing a like that is not there changes nothing |
| FilmService.MoreLikedIsStrictWeakOrder | src/main/java/ru/yandex/practicum/filmorate/service/film/FilmService.java:83 | "more likes first" is a strict weak order, so sorting by it is well defined |
| FilmService.GetPopular | src/main/java/ru/yandex/practicum/filmorate/service/film/FilmService.java:79-86 | IllegalArgument for a negative count; otherwise min(count, number of films) distinct stored films, most liked first, and no film left out has more likes than one returned |
| FilmService.PopularRequest | src/main/java/ru/yandex/practicum/filmorate/controller/FilmController.java:74-78 | a request naming `count` is answered by the popularity ranking for that count |
| FilmService.DefaultPopularIsTen | src/main/java/ru/yandex/practicum/filmorate/controller/FilmController.java:74-78 | a request without `count` succeeds with the ten most liked films, or all films when fewer are stored |
| FilmService.GetPopularIsStable | src/main/java/ru/yandex/practicum/filmorate/service/film/FilmService.java:81-85 | films with equal like counts are returned in their order in the film list |
| UserDbStorage.FriendIdsMeaning | src/main/java/ru/yandex/practicum/filmorate/storage/user/UserDbStorage.java:165-170 | a user's friend ids are exactly the friend_id of the rows with that user_id |
| UserDbStorage.GetUser | src/main/java/ru/yandex/practicum/filmorate/storage/user/UserDbStorage.java:85-96 | a user exactly when a row has the id, with that row's email, login, name and birthday; its friends are exactly the friend rows of the id |
| UserDbStorage.AddUser | src/main/java/ru/yandex/practicum/filmorate/storage/user/UserDbStorage.java:43-61 | inserts one row under the generated key; the user read back has the fields it was added with; nothing else changes |
| UserDbStorage.UpdateUser | src/main/java/ru/yandex/practicum/filmorate/storage/user/UserDbStorage.java:63-83 | NotFound exactly when no row has the id; otherwise only that row changes, and the result has the new fields and the stored friends |
| UserDbStorage.AddFriend | src/main/java/ru/yandex/practicum/filmorate/storage/user/UserDbStorage.java:98-105 | the first user's friend ids gain the second's; nobody else's friends change |
| UserDbStorage.DeleteFriend | src/main/java/ru/yandex/practicum/filmorate/storage/user/UserDbStorage.java:107-114 | the first user's friend ids lose the second's; nobody else's friends change |
| UserDbStorage.AddFriendIsOneWay | src/test/java/ru/yandex/practicum/filmorate/storage/UserDbStorageTest.java:55-70 | after a adds b, b is a's friend, but a does not become b's friend |
| UserDbStorage.AddFriendIdempotent | src/main/java/ru/yandex/practicum/filmorate/storage/user/UserDbStorage.java:100-104 | because of MERGE, adding the same pair twice is the same as adding it once |
| UserDbStorage.DeleteFriendUndoesAdd | src/test/java/ru/yandex/practicum/filmorate/storage/UserDbStorageTest.java:72-87 | deleting a pair just added, which was not there before, restores the tables |
| UserDbStorage.NameBeforeIsStrictWeakOrder | src/main/java/ru/yandex/practicum/filmorate/storage/user/UserDbStorage.java:125 | ORDER BY name with nulls first is a strict weak order |
| UserDbStorage.SelectOrderedByName | src/main/java/ru/yandex/practicum/filmorate/storage/user/UserDbStorage.java:120-132 | the selected users, each once and as stored, sorted by name |
| UserDbStorage.GetUsersList | src/main/java/ru/yandex/practicum/filmorate/storage/user/UserDbStorage.java:29-41 | every user row exactly once |
| UserDbStorage.GetFriends | src/main/java/ru/yandex/practicum/filmorate/storage/user/UserDbStorage.java:116-133 | exactly the existing users the given user has friend rows for, once each, sorted by name |
| UserDbStorage.GetCommonFriends | src/main/java/ru/yandex/practicum/filmorate/storage/user/UserDbStorage.java:135-154 | exactly the existing users both users have friend rows for, once each, sorted by name |
| FilmDbStorage.CheckMpa | src/main/java/ru/yandex/practicum/filmorate/storage/film/FilmDbStorage.java:242-258 | no rating, or a rating without an id, gives none; an id missing from the rating table fails validation naming the id; otherwise the id |
| FilmDbStorage.GenreIdsMeaning | src/main/java/ru/yandex/practicum/filmorate/storage/genre/GenreDbStorage.java:69-95 | a film's genres are exactly its linked genre ids that the genre table knows |
| FilmDbStorage.MpaOf | src/main/java/ru/yandex/practicum/filmorate/storage/film/FilmDbStorage.java:211-215 | a rating id of null or 0 reads back as the empty rating; any other id reads back with its label when the rating table has it |
| FilmDbStorage.FilmFromRow | src/main/java/ru/yandex/practicum/filmorate/storage/film/FilmDbStorage.java:199-218 | a film read from a row has that row's columns, the rating its `rating_id` reads back as, and its known genres; likes are not read |
| FilmDbStorage.GetFilm | src/main/java/ru/yandex/practicum/filmorate/storage/film/FilmDbStorage.java:118-135 | a film exactly when a row has the id |
| FilmDbStorage.UpdateGenre | src/main/java/ru/yandex/practicum/filmorate/storage/film/FilmDbStorage.java:220-240 | the film's genre links become exactly the listed genres the genre table knows; other films' links and all other tables are unchanged |
| FilmDbStorage.AddFilm | src/main/java/ru/yandex/practicum/filmorate/storage/film/FilmDbStorage.java:56-86 | fails exactly when the rating check fails; otherwise one new row under the generated key, with the checked rating id in `rating_id`, read back with the given fields, that rating, its known genres and no likes; other films' rows and genre links stay as they were |
| FilmDbStorage.RatingReadBack | src/main/java/ru/yandex/practicum/filmorate/storage/film/FilmDbStorage.java:242-258 | a rating that passes the check reads back as the empty rating when it is missing, has no id, or has id 0, and otherwise with its id and the rating table's label |
| FilmDbStorage.AddFilmReadsBackRating | src/main/java/ru/yandex/practicum/filmorate/storage/film/FilmDbStorage.java:56-86 | whatever accepted rating a film is added with, the stored film reads back with the rating that rule gives |
| FilmDbStorage.AddFilmRoundTrip | src/test/java/ru/yandex/practicum/filmorate/storage/FilmDbStorageTest.java:27-38 | a film added with a known rating and known genres reads back as given, with the rating's label filled in |
| FilmDbStorage.UpdateFilmAsWritten | src/main/java/ru/yandex/practicum/filmorate/storage/film/FilmDbStorage.java:88-116 | for an unknown id with a valid rating the result is NotFound, yet the genre links have already been rewritten |
| FilmDbStorage.UpdateFilmAsWrittenLeavesGenreLinks | src/main/java/ru/yandex/practicum/filmorate/storage/film/FilmDbStorage.java:98-113 | updating missing film 99 with known genre 1 returns NotFound and leaves the link (99, 1) behind |
| FilmDbStorage.UpdateFilm | src/main/java/ru/yandex/practicum/filmorate/storage/film/FilmDbStorage.java:88-116 | the rating check first, then NotFound with nothing written, otherwise the row (with the checked rating id in `rating_id`) and genre links replaced and the film read back with that rating; other films' rows and genre links stay as they were |
| FilmDbStorage.UpdateFilmReadsBackRating | src/main/java/ru/yandex/practicum/filmorate/storage/film/FilmDbStorage.java:88-116 | whatever accepted rating a stored film is updated with, it reads back with the rating that rule gives |
| FilmDbStorage.UpdateFilmAgreesWithCode | src/main/java/ru/yandex/practicum/filmorate/storage/film/FilmDbStorage.java:88-116 | the corrected update and the code agree on every result, and on the tables whenever the film exists |
| FilmDbStorage.GetLikes | src/main/java/ru/yandex/practicum/filmorate/storage/film/FilmDbStorage.java:183-197 | exactly the user ids of the film's like rows |
| FilmDbStorage.AddUserLike | src/main/java/ru/yandex/practicum/filmorate/storage/film/FilmDbStorage.java:137-148 | fails validation for an unknown film, then for an unknown user; otherwise the user joins the film's likes and no other film's likes change |
| FilmDbStorage.DeleteUserLike | src/main/java/ru/yandex/practicum/filmorate/storage/film/FilmDbStorage.java:150-160 | the same checks; otherwise the user leaves the film's likes and no other film's likes change |
| FilmDbStorage.AddUserLikeIdempotent | src/main/java/ru/yandex/practicum/filmorate/storage/film/FilmDbStorage.java:142-147 | a repeated like changes nothing; a first like raises the like count by exactly one |
| FilmDbStorage.DeleteUserLikeUndoesAdd | src/test/java/ru/yandex/practicum/filmorate/storage/FilmDbStorageTest.java:78-98 | removing a like just added, which was not there before, restores the tables |
| FilmDbStorage.RanksAheadIsStrictWeakOrder | src/main/java/ru/yandex/practicum/filmorate/storage/film/FilmDbStorage.java:173 | ordering by like count descending, then name ascending, is a strict weak order |
| FilmDbStorage.ScanFilms | src/main/java/ru/yandex/practicum/filmorate/storage/film/FilmDbStorage.java:43-51 | each film row is read exactly once |
| FilmDbStorage.GetFilmsList | src/main/java/ru/yandex/practicum/filmorate/storage/film/FilmDbStorage.java:38-54 | every film exactly once |
| FilmDbStorage.GetPopular | src/main/java/ru/yandex/practicum/filmorate/storage/film/FilmDbStorage.java:162-181 | min(count, number of films) distinct stored films, in like-count-then-name order; no film left out ranks ahead of one returned |
| FilmDbStorage.PopularTop | src/main/java/ru/yandex/practicum/filmorate/storage/film/FilmDbStorage.java:173-174 | no film beyond the first count of the sorted rows ranks ahead of one within them |

## Left out

- Controllers, `ErrorHandler`, the genre and rating lookup services and storages, and logging are not part of this model. The genre and rating tables appear only as tables the film store reads.
- Identifier generation by the database is a parameter (`newId`), required to be unused.
- Foreign keys and the schema are not part of this model. Friend and like rows may name missing users or films, and only the reads' inner joins filter them.
- `Long` overflow of the in-memory `lastId` counter is not modelled; ids are unbounded integers.
- A `null` id passed to a store is not modelled. It never matches a stored id, so it behaves like any id that is not stored.
- Java `HashMap` value order: the two in-memory storages list by ascending id, which is the model's choice. A `HashMap` gives that order only while the ids stay below its table size and below 65536. The managers promise no order, because there the real order differs: `clear` keeps the table's capacity while `lastId` keeps growing, so after 12 adds and a `clear`, ids 13 to 17 in a 16-bucket table come out as 16, 17, 13, 14, 15. `HashSet` iteration and unordered SQL results use `IdStore.Enumerate`, which may choose any order.
- `Film.copy` and `User.copy` (a Gson round trip) become plain value copies. The model's records are immutable values, so a copy is indistinguishable from the original.
- Object aliasing is not modelled. `InMemoryFilmStorage` and `InMemoryUserStorage` store the caller's own object. The managers' `addFilm`, `updateFilm`, `getFilmsList` (and the user counterparts) hand out the stored objects. In Java a caller that later mutates such an object changes the store; with immutable values that cannot happen, so the model does not tell copying classes from aliasing ones.
- A film's genre list becomes a set of genre ids. A genre listed twice is linked once, and the order in which genres read back is not modelled.
- UserService.AddUser and `UpdateUser` store the friend set they are sent as it is, as `addUser` and `updateUser` of the in-memory storage do, so they need not keep friendship symmetric; `UserService.UpdateUserCanBreakSymmetry` shows a case. Only `AddFriend` and `DeleteFriend` are proved to keep it.
- The source's `Film` and `User` classes show neither `genres`, `userLikes` nor `friends`. The model adds them as sets of ids, taken from how the services and the database stores use them.
- The source's `Film` class does not show the rating field. `FilmDbStorage.MpaOf` takes a film without a rating to carry an empty rating object, because `filmFromRowSet` calls `getMpa().setId` without a null check.
- Name order compares Unicode scalar values. Java and the database compare UTF-16 code units, and the two disagree only when a supplementary character meets one in U+E000..U+FFFF.
- The SQL statement `IN ()` produced by `updateGenre` for an empty genre list is taken to link no genres.
- FilmDbStorage.GetPopular: `count` is a natural number. A negative or null `LIMIT` is not modelled.
- FilmService.GetPopular: a null `count` (a `NullPointerException` when `limit` unboxes it) is not modelled.
- InMemoryUserStorage.AddFriend: both ids are required to be stored, since the Java method dereferences the lookups without a check. The same holds for `DeleteFriend`, `GetFriends` and `GetCommonFriends` of that class.
- UserDbStorage.AddUser: a birthday is required, since the Java method formats it without a null check. The same holds for `UpdateUser`.
- FilmDbStorage.AddFilm: a release date and a duration are required, for the same reason. The same holds for `UpdateFilm` and `UpdateFilmAsWritten`.
- `UserService` and `FilmService` are composed with the in-memory stores. They change the objects the store returns and rely on those objects being the stored ones. Over the database stores those changes are not written back, so that combination is not modelled.
- Validation.LoginWellFormed rejects only the space character, as the code does. Another whitespace character, such as a tab, passes unless the whole login is blank.
- FilmDbStorage.AddUserLike and `DeleteUserLike` report a missing film or user as a validation error, as the code does, not as NotFound.

## Findings

| source | as written | input that shows it | evidently intended | confidence | as-written member | corrected member |
|---|---|---|---|---|---|---|
| src/main/java/ru/yandex/practicum/filmorate/storage/film/FilmDbStorage.java:98-113 | `updateFilm` runs `updateGenre` before it checks that the film exists | an update of film id 99, with no such film, listing genre 1, which exists | a failed update leaves the tables as they were; here the NotFound comes after a genre link (99, 1) has been written for a film that does not exist | medium; not executed, and a foreign key in the schema, which is not part of this model, would instead turn the insert into a database error | FilmDbStorage.UpdateFilmAsWritten, FilmDbStorage.UpdateFilmAsWrittenLeavesGenreLinks | FilmDbStorage.UpdateFilm |
