/** The field checks `FilmService.validate` and `UserService.validate` make before a record may be
    stored. Each runs its checks in a fixed order and the first one that fails decides the error. */
module Validation {
  import opened Outcomes
  import opened Dates
  import opened Text
  import opened Model

  /** The longest description a film may have, in UTF-16 units. */
  const MaxDescriptionLength: nat := 200

  /** The first public film screening; no film may be released before it. */
  const EarliestRelease: Date := Date(1895, 12, 28)

  // ---- Film ----

  predicate NameGiven(f: Film) {
    f.name.Some? && !IsBlank(f.name.value)
  }

  predicate DescriptionFits(f: Film) {
    f.description.None? || Utf16Length(f.description.value) <= MaxDescriptionLength
  }

  predicate ReleasedInTime(f: Film) {
    f.releaseDate.Some? && !IsBefore(f.releaseDate.value, EarliestRelease)
  }

  predicate DurationPositive(f: Film) {
    f.duration.Some? && f.duration.value > 0
  }

  /** Everything a film must satisfy before a store accepts it. */
  predicate FilmValid(f: Film) {
    NameGiven(f) && DescriptionFits(f) && ReleasedInTime(f) && DurationPositive(f)
  }

  /** `FilmService.validate`: the film itself when it is valid, otherwise the first failing check
      in the order name, description, release date, duration. */
  function ValidateFilm(f: Film): (r: Result<Film>)
    ensures r.Ok? <==> FilmValid(f)
    ensures r.Ok? ==> r.value == f
    ensures r == Err(ValidationFailed(BlankName)) <==> !NameGiven(f)
    ensures r == Err(ValidationFailed(LongDescription)) <==> NameGiven(f) && !DescriptionFits(f)
    ensures r == Err(ValidationFailed(BadReleaseDate))
        <==> NameGiven(f) && DescriptionFits(f) && !ReleasedInTime(f)
    ensures r == Err(ValidationFailed(BadDuration))
        <==> NameGiven(f) && DescriptionFits(f) && ReleasedInTime(f) && !DurationPositive(f)
  {
    if !NameGiven(f) then Err(ValidationFailed(BlankName))
    else if !DescriptionFits(f) then Err(ValidationFailed(LongDescription))
    else if !ReleasedInTime(f) then Err(ValidationFailed(BadReleaseDate))
    else if !DurationPositive(f) then Err(ValidationFailed(BadDuration))
    else Ok(f)
  }

  /** `n` copies of one character. */
  function Repeat(c: char, n: nat): (s: string)
    ensures |s| == n && forall i :: 0 <= i < n ==> s[i] == c
  {
    seq(n, _ => c)
  }

  /** A description of 200 characters passes and one of 201 fails; a missing one passes. */
  lemma DescriptionBoundary(f: Film)
    requires FilmValid(f)
    ensures ValidateFilm(f.(description := Some(Repeat('*', 200)))).Ok?
    ensures ValidateFilm(f.(description := Some(Repeat('*', 201))))
         == Err(ValidationFailed(LongDescription))
    ensures ValidateFilm(f.(description := None)).Ok?
  {
    Utf16LengthOfBmp(Repeat('*', 200));
    Utf16LengthOfBmp(Repeat('*', 201));
  }

  /** 28 December 1895 passes, the day before fails, and so does a missing date. */
  lemma ReleaseDateBoundary(f: Film)
    requires FilmValid(f)
    ensures ValidateFilm(f.(releaseDate := Some(Date(1895, 12, 28)))).Ok?
    ensures ValidateFilm(f.(releaseDate := Some(Date(1895, 12, 27))))
         == Err(ValidationFailed(BadReleaseDate))
    ensures ValidateFilm(f.(releaseDate := None)) == Err(ValidationFailed(BadReleaseDate))
  {
  }

  /** A duration of 1 passes; 0, -1 and a missing duration fail. */
  lemma DurationBoundary(f: Film)
    requires FilmValid(f)
    ensures ValidateFilm(f.(duration := Some(1))).Ok?
    ensures ValidateFilm(f.(duration := Some(-1))) == Err(ValidationFailed(BadDuration))
    ensures ValidateFilm(f.(duration := Some(0))) == Err(ValidationFailed(BadDuration))
    ensures ValidateFilm(f.(duration := None)) == Err(ValidationFailed(BadDuration))
  {
  }

  /** A blank or missing name fails first, whatever else is wrong. */
  lemma NameBoundary(f: Film)
    requires FilmValid(f)
    ensures ValidateFilm(f.(name := Some("  "), duration := None)) == Err(ValidationFailed(BlankName))
    ensures ValidateFilm(f.(name := None)) == Err(ValidationFailed(BlankName))
  {
    assert IsWhitespace("  "[0]);
  }

  // ---- User ----

  predicate EmailWellFormed(u: User) {
    u.email.Some? && !IsBlank(u.email.value) && '@' in u.email.value
  }

  /** The source rejects a login holding the space character; other whitespace is let through
      unless the whole login is blank. */
  predicate LoginWellFormed(u: User) {
    u.login.Some? && !IsBlank(u.login.value) && ' ' !in u.login.value
  }

  predicate BornBy(u: User, today: Date) {
    u.birthday.Some? && !IsAfter(u.birthday.value, today)
  }

  predicate UserValid(u: User, today: Date) {
    EmailWellFormed(u) && LoginWellFormed(u) && BornBy(u, today)
  }

  predicate HasDisplayName(u: User) {
    u.name.Some? && !IsBlank(u.name.value)
  }

  /** `UserService.validate`, with `today` standing for `LocalDate.now()`: the first failing check in
      the order email, login, birthday; otherwise the user with a missing or blank display name
      replaced by the login. */
  function ValidateUser(u: User, today: Date): (r: Result<User>)
    ensures r.Ok? <==> UserValid(u, today)
    ensures r == Err(ValidationFailed(BadEmail)) <==> !EmailWellFormed(u)
    ensures r == Err(ValidationFailed(BadLogin)) <==> EmailWellFormed(u) && !LoginWellFormed(u)
    ensures r == Err(ValidationFailed(BadBirthday))
        <==> EmailWellFormed(u) && LoginWellFormed(u) && !BornBy(u, today)
    // only the display name may change, and afterwards there is one
    ensures r.Ok? ==> r.value.(name := u.name) == u && HasDisplayName(r.value)
    ensures r.Ok? && HasDisplayName(u) ==> r.value == u
    ensures r.Ok? && !HasDisplayName(u) ==> r.value.name == u.login
  {
    if !EmailWellFormed(u) then Err(ValidationFailed(BadEmail))
    else if !LoginWellFormed(u) then Err(ValidationFailed(BadLogin))
    else if !BornBy(u, today) then Err(ValidationFailed(BadBirthday))
    else if HasDisplayName(u) then Ok(u)
    else Ok(u.(name := u.login))
  }

  /** Validating an already validated user changes nothing: the defaulted name is not blank. */
  lemma ValidateUserIdempotent(u: User, today: Date)
    requires ValidateUser(u, today).Ok?
    ensures ValidateUser(ValidateUser(u, today).value, today) == ValidateUser(u, today)
  {
  }

  /** The boundaries the user checks draw: today is an acceptable birthday and the next day is
      not; an email without '@' and a login with a space are refused; a missing name becomes the
      login. The "next day" is `today` with its day number raised by one, which may not be a real
      calendar date (32 December); the birthday check only compares dates, so the order is all
      that matters. */
  lemma UserBoundaries(u: User, today: Date)
    requires UserValid(u, today)
    ensures ValidateUser(u.(birthday := Some(today)), today).Ok?
    ensures ValidateUser(u.(birthday := Some(today.(day := today.day + 1))), today)
         == Err(ValidationFailed(BadBirthday))
    ensures ValidateUser(u.(email := Some("user")), today) == Err(ValidationFailed(BadEmail))
    ensures ValidateUser(u.(email := Some(" ")), today) == Err(ValidationFailed(BadEmail))
    ensures ValidateUser(u.(login := Some("User Login")), today) == Err(ValidationFailed(BadLogin))
    ensures ValidateUser(u.(login := Some("")), today) == Err(ValidationFailed(BadLogin))
    ensures ValidateUser(u.(login := Some("user"), name := None), today)
         == Ok(u.(login := Some("user"), name := Some("user")))
  {
    assert "User Login"[4] == ' ';
    assert IsWhitespace(" "[0]);
    assert !IsWhitespace("user"[0]);
  }
}
