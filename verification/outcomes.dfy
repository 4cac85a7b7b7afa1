/** Nullable values, the two exceptions the core throws, and the result of an operation
    that either succeeds with a value or fails with one of those exceptions. */
module Outcomes {

  /** A Java reference that may be null. */
  datatype Option<+T> = None | Some(value: T)

  /** The kind of record a `NotFoundException` is about. */
  datatype Subject = FilmRecord | UserRecord

  /** Why a `ValidationException` was thrown. Where the message names an id, so does the reason. */
  datatype Reason =
    | BlankName
    | LongDescription
    | BadReleaseDate
    | BadDuration
    | BadEmail
    | BadLogin
    | BadBirthday
    | UnknownMpa(mpaId: int)
    | UnknownFilm(filmId: int)
    | UnknownUser(userId: int)

  datatype Error =
    | ValidationFailed(reason: Reason)
    | NotFound(subject: Subject, id: int)
      /** `Stream.limit` refuses a negative size with an `IllegalArgumentException`. */
    | IllegalArgument

  datatype Result<+T> = Ok(value: T) | Err(error: Error)
}
