/**
 * Bean-validation constraints as plain predicates over optional values
 * (`None` is Java's `null`). As in the annotations' own validators, every
 * constraint except `@NotNull` and `@NotBlank` accepts `null`.
 */
module Constraints {
  import opened Wrappers
  import opened Calendar
  import Text

  /** One constraint's contribution to the violation list: its message, when it does not hold. */
  function Rule(holds: bool, message: string): (r: seq<string>)
    ensures r == [] <==> holds
    ensures !holds ==> message in r
  {
    if holds then [] else [message]
  }

  predicate NotNull<T>(o: Option<T>)
  {
    o.Some?
  }

  /** `@NotBlank`: present, and something is left after `trim()`. */
  predicate NotBlank(o: Option<string>)
  {
    o.Some? && Text.Trim(o.value) != []
  }

  /** `@Size(min, max)` on a string. */
  predicate SizeBetween(o: Option<string>, min: nat, max: nat)
  {
    o.None? || min <= |o.value| <= max
  }

  /** `@Size(min)`: the default maximum is the largest `int`, which no Java string exceeds. */
  predicate SizeAtLeast(o: Option<string>, min: nat)
  {
    o.None? || |o.value| >= min
  }

  /** `@Min(min)` on an integer. */
  predicate AtLeast(o: Option<int>, min: int)
  {
    o.None? || o.value >= min
  }

  /** `@Max(max)` on an integer. */
  predicate AtMost(o: Option<int>, max: int)
  {
    o.None? || o.value <= max
  }

  /** `@Past`: strictly before today. */
  predicate InPast(o: Option<Date>, today: Date)
  {
    o.None? || o.value < today
  }

  /** `@Future`: strictly after today. */
  predicate InFuture(o: Option<Date>, today: Date)
  {
    o.None? || o.value > today
  }

  /** `@FutureOrPresent`: today or later. */
  predicate TodayOrLater(o: Option<Date>, today: Date)
  {
    o.None? || o.value >= today
  }

  /** `@Pattern`: the whole string matches. */
  predicate Matches(o: Option<string>, pattern: string -> bool)
  {
    o.None? || pattern(o.value)
  }

  /** A string is blank exactly when it holds no character beyond U+0020. */
  lemma NotBlankWitness(o: Option<string>)
    ensures NotBlank(o) <==> o.Some? && exists i :: 0 <= i < |o.value| && !Text.IsTrimmable(o.value[i])
  {
  }

  // The regular expressions of the `@Pattern` annotations, each as a predicate
  // on the whole string.

  predicate IsUsernameChar(c: char)
  {
    Text.IsLetter(c) || Text.IsDigit(c) || c == '_'
  }

  predicate IsNameChar(c: char)
  {
    Text.IsLetter(c) || Text.IsRegexSpace(c)
  }

  predicate IsCourseCodeChar(c: char)
  {
    Text.IsLetter(c) || Text.IsDigit(c) || c == '-'
  }

  /** `^[a-zA-Z0-9_]+$` */
  predicate UsernamePattern(s: string)
  {
    |s| >= 1 && forall i :: 0 <= i < |s| ==> IsUsernameChar(s[i])
  }

  /** `^[A-Za-z\s]+$` */
  predicate NamePattern(s: string)
  {
    |s| >= 1 && forall i :: 0 <= i < |s| ==> IsNameChar(s[i])
  }

  /** `^[A-Za-z0-9-]+$` */
  predicate CourseCodePattern(s: string)
  {
    |s| >= 1 && forall i :: 0 <= i < |s| ==> IsCourseCodeChar(s[i])
  }

  /** `^09\d{9}$` */
  predicate PhonePattern(s: string)
  {
    |s| == 11 && s[0] == '0' && s[1] == '9' && Text.AllDigits(s[2..])
  }

  /** `^\d{10}$` */
  predicate TenDigitsPattern(s: string)
  {
    |s| == 10 && Text.AllDigits(s)
  }

  /** `^T\d{5}$` */
  predicate TeacherCodePattern(s: string)
  {
    |s| == 6 && s[0] == 'T' && Text.AllDigits(s[1..])
  }
}
