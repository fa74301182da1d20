/** Proleptic Gregorian calendar arithmetic and the instant representation.

    An instant is a whole number of microseconds since 1970-01-01T00:00:00 UTC,
    the resolution of Python's `datetime`. Python's `timedelta.days` is the floor
    of a difference in days, which Dafny's `/` computes for a positive divisor. */
module Calendar {

  /** Microseconds since the Unix epoch, UTC. */
  type Instant = int

  const MicrosPerMilli: int := 1_000
  const MicrosPerSecond: int := 1_000_000
  const MicrosPerMinute: int := 60 * MicrosPerSecond
  const MicrosPerDay: int := 86_400 * MicrosPerSecond

  predicate IsLeap(year: int) {
    year % 4 == 0 && (year % 100 != 0 || year % 400 == 0)
  }

  function DaysInMonth(year: int, month: int): (n: int)
    requires 1 <= month <= 12
    ensures 28 <= n <= 31
  {
    if month == 2 then (if IsLeap(year) then 29 else 28)
    else if month == 4 || month == 6 || month == 9 || month == 11 then 30
    else 31
  }

  /** A broken-down UTC date and time, as `datetime(year, month, ...)` takes it. */
  datatype CivilTime = CivilTime(year: int, month: int, day: int,
                                 hour: int, minute: int, second: int, micro: int)
  {
    /** The ranges `datetime` accepts; anything else raises `ValueError`. */
    predicate Valid() {
      && 1 <= year <= 9999
      && 1 <= month <= 12
      && 1 <= day <= DaysInMonth(year, month)
      && 0 <= hour <= 23
      && 0 <= minute <= 59
      && 0 <= second <= 59
      && 0 <= micro <= 999_999
    }
  }

  /** Days from 1970-01-01 to the given date (negative before it). */
  function DaysFromCivil(year: int, month: int, day: int): int
    requires 1 <= month <= 12
  {
    var y := if month <= 2 then year - 1 else year;
    var era := y / 400;
    var yoe := y - era * 400;
    var mp := (month + 9) % 12;
    var doy := (153 * mp + 2) / 5 + day - 1;
    var doe := yoe * 365 + yoe / 4 - yoe / 100 + doy;
    era * 146_097 + doe - 719_468
  }

  lemma EpochIsDayZero()
    ensures DaysFromCivil(1970, 1, 1) == 0
  {
  }

  /** The instant a valid civil time denotes. */
  function ToInstant(t: CivilTime): Instant
    requires t.Valid()
  {
    DaysFromCivil(t.year, t.month, t.day) * MicrosPerDay
    + t.hour * 3_600 * MicrosPerSecond + t.minute * MicrosPerMinute
    + t.second * MicrosPerSecond + t.micro
  }

  /** `(later - earlier).days`: the floor of the difference in whole days. */
  function DaysBetween(earlier: Instant, later: Instant): (days: int)
    ensures days * MicrosPerDay <= later - earlier < (days + 1) * MicrosPerDay
  {
    (later - earlier) / MicrosPerDay
  }

  /** The UTC calendar day of an instant, as days since the epoch
      (`.date()`, and SQL's `DATE(ts)`). */
  function DayOf(t: Instant): (d: int)
    ensures d * MicrosPerDay <= t < (d + 1) * MicrosPerDay
  {
    t / MicrosPerDay
  }
}
