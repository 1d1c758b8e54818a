/**
 * java.time values as plain data. A LocalDate is a (year, month, day) triple and a
 * LocalDateTime a date plus the nanoseconds elapsed since midnight; both are
 * compared field by field, as java.time compares them. The clock is never read:
 * every operation that calls `now()` in the Java code takes `now` as a parameter.
 */
module Time {

  datatype Date = Date(year: int, month: int, day: int)

  datatype DateTime = DateTime(date: Date, nanoOfDay: int)

  /** Time of day (LocalTime), as seconds since midnight. */
  type TimeOfDay = int

  predicate ValidDate(d: Date) {
    1 <= d.month <= 12 && 1 <= d.day <= DaysInMonth(d.year, d.month)
  }

  /** A LocalTime: a second within the day. */
  predicate ValidTimeOfDay(t: TimeOfDay) {
    0 <= t < 86_400
  }

  /** A LocalDateTime: a valid date and a nanosecond within that day. */
  predicate ValidDateTime(t: DateTime) {
    ValidDate(t.date) && 0 <= t.nanoOfDay < 86_400_000_000_000
  }

  predicate IsLeapYear(y: int) {
    y % 4 == 0 && (y % 100 != 0 || y % 400 == 0)
  }

  function DaysInMonth(y: int, m: int): int {
    if m == 2 then (if IsLeapYear(y) then 29 else 28)
    else if m in {4, 6, 9, 11} then 30
    else 31
  }

  /** LocalDate.isBefore */
  predicate DateBefore(a: Date, b: Date) {
    a.year < b.year
    || (a.year == b.year && a.month < b.month)
    || (a.year == b.year && a.month == b.month && a.day < b.day)
  }

  /** LocalDateTime.isBefore */
  predicate Before(a: DateTime, b: DateTime) {
    DateBefore(a.date, b.date) || (a.date == b.date && a.nanoOfDay < b.nanoOfDay)
  }

  /** LocalDateTime.isAfter */
  predicate After(a: DateTime, b: DateTime) {
    Before(b, a)
  }

  /** LocalDate.atStartOfDay */
  function AtStartOfDay(d: Date): (r: DateTime)
    ensures r.date == d && forall t: DateTime :: t.date == d && t.nanoOfDay >= 0 ==> !Before(t, r)
  {
    DateTime(d, 0)
  }

  /** `Before` is a strict total order on timestamps. */
  lemma BeforeIsStrictTotalOrder(a: DateTime, b: DateTime, c: DateTime)
    ensures !Before(a, a)
    ensures Before(a, b) && Before(b, c) ==> Before(a, c)
    ensures a != b ==> Before(a, b) || Before(b, a)
    ensures Before(a, b) ==> !Before(b, a)
  {
  }
}
