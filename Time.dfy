/**
 * `java.time.LocalDateTime` as a count of seconds since 1970-01-01T00:00,
 * with the whole days between two instants as `ChronoUnit.DAYS` counts them.
 */
module Time {
  import opened JavaLang

  const SecondsPerDay: int := 86400
  const SecondsPerHour: int := 3600

  /** `LocalDateTime.MIN`, -999999999-01-01T00:00, in seconds since the epoch. */
  const MinTimestamp: int := -31557014135596800
  /** `LocalDateTime.MAX`, +999999999-12-31T23:59:59, in whole seconds since the epoch. */
  const MaxTimestamp: int := 31556889832780799

  /** A date-time a `LocalDateTime` can hold, to the second. */
  type Timestamp = t: int | MinTimestamp <= t <= MaxTimestamp

  /**
   * `ChronoUnit.DAYS.between(from, to)`: the number of complete 24-hour days
   * from `from` to `to`, negative when `to` is earlier, rounded toward zero.
   */
  function DaysBetween(from: int, to: int): (d: int)
    ensures to >= from ==> d >= 0 && d * SecondsPerDay <= to - from < (d + 1) * SecondsPerDay
    ensures to < from ==> d <= 0 && (d - 1) * SecondsPerDay < to - from <= d * SecondsPerDay
  {
    TruncDiv(to - from, SecondsPerDay)
  }

  /** Swapping the two instants negates the day count. */
  lemma DaysBetweenAntisymmetric(a: int, b: int)
    ensures DaysBetween(a, b) == -DaysBetween(b, a)
  {
    TruncDivNegate(a - b, SecondsPerDay);
  }

  /** `t.minusDays(days)`: a local date-time has no daylight-saving gaps. */
  function MinusDays(t: int, days: int): int {
    t - days * SecondsPerDay
  }

  /** `t.minusHours(hours)`. */
  function MinusHours(t: int, hours: int): int {
    t - hours * SecondsPerHour
  }
}
