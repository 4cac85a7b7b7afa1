/** The two entities of the system. Each datatype carries every field the core reads or writes,
    across the in-memory and the database-backed variants. A field Java may leave null is an
    `Option`. Records are values, so the copy a store keeps can never be changed through the
    caller's reference. */
module Model {
  import opened Outcomes
  import opened Dates

  /** Java's `Integer`. */
  type int32 = x: int | -0x8000_0000 <= x < 0x8000_0000

  /** A film's content-rating reference: the rating's id and label, either possibly null. */
  datatype MpaRef = MpaRef(id: Option<int>, name: Option<string>)

  /** A film. `genres` holds genre ids. `userLikes` holds the ids of users who liked the film; the
      in-memory stores keep it here and the database keeps it in a table of its own. */
  datatype Film = Film(
    id: int,
    name: Option<string>,
    description: Option<string>,
    releaseDate: Option<Date>,
    duration: Option<int32>,
    mpa: Option<MpaRef>,
    genres: set<int>,
    userLikes: set<int>)

  /** A user. `friends` holds the ids of the users this one counts as friends. */
  datatype User = User(
    id: int,
    email: Option<string>,
    login: Option<string>,
    name: Option<string>,
    birthday: Option<Date>,
    friends: set<int>)
}
