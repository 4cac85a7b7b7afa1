/** The few facts about Java strings the core relies on: `isBlank`, `length` (UTF-16 code units)
    and `compareTo` (used by the database when it orders rows by name). */
module Text {
  import opened Outcomes

  /** `Character.isWhitespace`: the Unicode space, line and paragraph separators other than the
      non-breaking spaces U+00A0, U+2007 and U+202F, plus the ASCII controls U+0009..U+000D and
      U+001C..U+001F. */
  predicate IsWhitespace(c: char) {
    || ('\t' <= c <= '\r')
    || ('\U{1C}' <= c <= '\U{1F}')
    || c == ' '
    || c == '\U{1680}'
    || ('\U{2000}' <= c <= '\U{2006}')
    || ('\U{2008}' <= c <= '\U{200A}')
    || c == '\U{2028}'
    || c == '\U{2029}'
    || c == '\U{205F}'
    || c == '\U{3000}'
  }

  /** `String.isBlank`: empty, or whitespace only. */
  predicate IsBlank(s: string) {
    forall i :: 0 <= i < |s| ==> IsWhitespace(s[i])
  }

  /** `String.length`: a character outside the Basic Multilingual Plane takes two UTF-16 units. */
  function Utf16Length(s: string): nat {
    if s == [] then 0
    else (if s[0] as int >= 0x1_0000 then 2 else 1) + Utf16Length(s[1..])
  }

  lemma {:induction false} Utf16LengthBounds(s: string)
    ensures |s| <= Utf16Length(s) <= 2 * |s|
  {
    if s != [] {
      Utf16LengthBounds(s[1..]);
    }
  }

  /** For text inside the Basic Multilingual Plane, Java's length is the number of characters. */
  lemma {:induction false} Utf16LengthOfBmp(s: string)
    requires forall i :: 0 <= i < |s| ==> (s[i] as int) < 0x1_0000
    ensures Utf16Length(s) == |s|
  {
    if s != [] {
      Utf16LengthOfBmp(s[1..]);
    }
  }

  /** `a.compareTo(b) < 0`: lexicographic, a proper prefix first. */
  predicate LexLess(a: string, b: string) {
    if a == [] then b != []
    else if b == [] then false
    else if a[0] != b[0] then a[0] < b[0]
    else LexLess(a[1..], b[1..])
  }

  /** `LexLess` is a strict total order on strings. */
  lemma {:induction false} LexLessIrreflexive(a: string)
    ensures !LexLess(a, a)
  {
    if a != [] {
      LexLessIrreflexive(a[1..]);
    }
  }

  lemma {:induction false} LexLessTransitive(a: string, b: string, c: string)
    requires LexLess(a, b) && LexLess(b, c)
    ensures LexLess(a, c)
  {
    if a != [] && b != [] && c != [] && a[0] == b[0] && b[0] == c[0] {
      LexLessTransitive(a[1..], b[1..], c[1..]);
    }
  }

  lemma {:induction false} LexLessTotal(a: string, b: string)
    ensures a == b || LexLess(a, b) || LexLess(b, a)
  {
    if a != [] && b != [] && a[0] == b[0] {
      LexLessTotal(a[1..], b[1..]);
      if a[1..] == b[1..] {
        assert a == [a[0]] + a[1..] && b == [b[0]] + b[1..];
      }
    }
  }

  lemma LexLessAsymmetric(a: string, b: string)
    requires LexLess(a, b)
    ensures !LexLess(b, a)
  {
    if LexLess(b, a) {
      LexLessTransitive(a, b, a);
      LexLessIrreflexive(a);
    }
  }

  /** Ascending order on a nullable text column: null first, then `LexLess`. */
  predicate NullFirstLess(a: Option<string>, b: Option<string>) {
    match (a, b)
    case (None, None) => false
    case (None, Some(_)) => true
    case (Some(_), None) => false
    case (Some(x), Some(y)) => LexLess(x, y)
  }

  lemma NullFirstLessAsymmetric(a: Option<string>, b: Option<string>)
    requires NullFirstLess(a, b)
    ensures !NullFirstLess(b, a)
  {
    if a.Some? && b.Some? {
      LexLessAsymmetric(a.value, b.value);
    }
  }

  /** Whatever lies between two ordered values is after the first or before the second. */
  lemma NullFirstLessSplits(a: Option<string>, b: Option<string>, c: Option<string>)
    requires NullFirstLess(a, c)
    ensures NullFirstLess(a, b) || NullFirstLess(b, c)
  {
    if a.Some? && b.Some? && c.Some? {
      LexLessTotal(a.value, b.value);
      if LexLess(b.value, a.value) {
        LexLessTransitive(b.value, a.value, c.value);
      }
    }
  }
}
