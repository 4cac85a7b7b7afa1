/** Calendar dates as `java.time.LocalDate` compares them: by year, then month, then day. */
module Dates {

  datatype Date = Date(year: int, month: int, day: int)

  /** `a.isBefore(b)`. */
  predicate IsBefore(a: Date, b: Date) {
    || a.year < b.year
    || (a.year == b.year && a.month < b.month)
    || (a.year == b.year && a.month == b.month && a.day < b.day)
  }

  /** `a.isAfter(b)`: strictly later, which is `b.isBefore(a)`. */
  predicate IsAfter(a: Date, b: Date) {
    IsBefore(b, a)
  }

  /** Two distinct dates are ordered one way or the other, and never both ways. */
  lemma Trichotomy(a: Date, b: Date)
    ensures a == b || IsBefore(a, b) || IsAfter(a, b)
    ensures !(IsBefore(a, b) && IsAfter(a, b))
    ensures !IsBefore(a, a)
  {
  }
}
