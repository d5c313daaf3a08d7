/** `java.time.LocalDate`, as a day number: a later date is a larger number. */
module Calendar {

  type Date = int

  /** `a.isBefore(b)`. */
  predicate IsBefore(a: Date, b: Date)
  {
    a < b
  }
}
