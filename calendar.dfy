/** The calendar helpers the date engine relies on: the proleptic Gregorian
    leap rule, year and ISO week lengths, the Month and Weekday enumerations
    with their numbering conventions, and the component-range error. */
module Calendar {
  import opened Wrappers

  /** The representable years (the default configuration, without large dates). */
  const MIN_YEAR: int := -9999
  const MAX_YEAR: int := 9999

  /** Proleptic Gregorian rule: every fourth year, except centuries not divisible by 400. */
  predicate IsLeapYear(year: int) {
    year % 4 == 0 && (year % 100 != 0 || year % 400 == 0)
  }

  function DaysInYear(year: int): (n: int)
    ensures n == 365 || n == 366
    ensures n == 366 <==> IsLeapYear(year)
  {
    if IsLeapYear(year) then 366 else 365
  }

  /** Days from 0001-01-01 (day 0, a Monday) to January 1st of `year`.
      Dafny's `/` by a positive constant is floor division. */
  function DaysBeforeYear(year: int): int {
    var y := year - 1;
    365 * y + y / 4 - y / 100 + y / 400
  }

  /** The weekday of January 1st, counted from Monday = 0. */
  function NewYearWeekday(year: int): (j: int)
    ensures 0 <= j < 7
  {
    DaysBeforeYear(year) % 7
  }

  /** ISO 8601: a year has 53 weeks when it starts on a Thursday, or when it
      is a leap year starting on a Wednesday. */
  function WeeksInYear(year: int): (n: int)
    ensures n == 52 || n == 53
  {
    WeeksOfYearStarting(NewYearWeekday(year), IsLeapYear(year))
  }

  function WeeksOfYearStarting(jan1: int, isLeapYear: bool): (n: int)
    ensures n == 52 || n == 53
  {
    if jan1 == 3 || (isLeapYear && jan1 == 2) then 53 else 52
  }

  datatype Month =
    | January | February | March | April | May | June
    | July | August | September | October | November | December
  {
    /** The month number, January = 1. */
    function Number(): (n: int)
      ensures 1 <= n <= 12
    {
      match this
      case January => 1 case February => 2 case March => 3 case April => 4
      case May => 5 case June => 6 case July => 7 case August => 8
      case September => 9 case October => 10 case November => 11 case December => 12
    }

    /** The number of days of the month in the given year. */
    function Length(year: int): (n: int)
      ensures 28 <= n <= 31
      ensures n == 29 <==> this == February && IsLeapYear(year)
    {
      match this
      case February => if IsLeapYear(year) then 29 else 28
      case April | June | September | November => 30
      case _ => 31
    }
  }

  /** Months with the same number are the same month. */
  lemma MonthNumbering(a: Month, b: Month)
    requires a.Number() == b.Number()
    ensures a == b
  {
    match a
    case January => case February => case March => case April =>
    case May => case June => case July => case August =>
    case September => case October => case November => case December =>
  }

  function MonthFromNumber(n: int): (m: Option<Month>)
    ensures m.Some? <==> 1 <= n <= 12
    ensures m.Some? ==> m.value.Number() == n
  {
    match n
    case 1 => Some(January) case 2 => Some(February) case 3 => Some(March)
    case 4 => Some(April) case 5 => Some(May) case 6 => Some(June)
    case 7 => Some(July) case 8 => Some(August) case 9 => Some(September)
    case 10 => Some(October) case 11 => Some(November) case 12 => Some(December)
    case _ => None
  }

  datatype Weekday = Monday | Tuesday | Wednesday | Thursday | Friday | Saturday | Sunday
  {
    /** The enumeration's discriminant (`weekday as i8`), Monday = 0. */
    function NumberDaysFromMonday(): (n: int)
      ensures 0 <= n < 7
    {
      match this
      case Monday => 0 case Tuesday => 1 case Wednesday => 2 case Thursday => 3
      case Friday => 4 case Saturday => 5 case Sunday => 6
    }

    function NumberFromMonday(): (n: int)
      ensures 1 <= n <= 7 && n == NumberDaysFromMonday() + 1
    {
      NumberDaysFromMonday() + 1
    }

    function NumberDaysFromSunday(): (n: int)
      ensures 0 <= n < 7 && n == (NumberDaysFromMonday() + 1) % 7
    {
      match this
      case Sunday => 0 case Monday => 1 case Tuesday => 2 case Wednesday => 3
      case Thursday => 4 case Friday => 5 case Saturday => 6
    }

    function NumberFromSunday(): (n: int)
      ensures 1 <= n <= 7 && n == NumberDaysFromSunday() + 1
    {
      NumberDaysFromSunday() + 1
    }
  }

  /** Weekdays are told apart by their numbers. */
  lemma WeekdayNumbering(a: Weekday, b: Weekday)
    requires a.NumberDaysFromMonday() == b.NumberDaysFromMonday()
    ensures a == b
  {
  }

  /** The weekday with the given Monday-based zero-indexed number. */
  function WeekdayFromDaysFromMonday(n: int): (w: Weekday)
    requires 0 <= n < 7
    ensures w.NumberDaysFromMonday() == n
  {
    match n
    case 0 => Monday case 1 => Tuesday case 2 => Wednesday case 3 => Thursday
    case 4 => Friday case 5 => Saturday case _ => Sunday
  }

  /** A value out of the range of a named date component. */
  datatype ComponentRange = ComponentRange(
    name: string,
    minimum: int,
    maximum: int,
    value: int,
    conditionalMessage: Option<string>)
}

/** The two duration types date arithmetic accepts, reduced to what it
    reads from them: the signed duration (whole seconds and a nanosecond
    part of the same sign) and the unsigned standard-library duration. */
module Durations {
  import opened Ints

  const SECONDS_PER_DAY: int := 86_400

  /** A signed duration; the nanoseconds are below one second and never of
      the opposite sign to the seconds. */
  datatype DurationParts = DurationParts(seconds: i64, nanoseconds: i32)

  predicate DurationInvariant(p: DurationParts) {
    && -1_000_000_000 < p.nanoseconds < 1_000_000_000
    && (p.seconds > 0 ==> p.nanoseconds >= 0)
    && (p.seconds < 0 ==> p.nanoseconds <= 0)
  }

  type Duration = p: DurationParts | DurationInvariant(p) witness DurationParts(0, 0)

  /** `whole_days`: the seconds divided by a day's, truncating toward zero. */
  function WholeDays(duration: Duration): (n: int)
    ensures duration.seconds >= 0 ==>
      0 <= n && n * SECONDS_PER_DAY <= duration.seconds < (n + 1) * SECONDS_PER_DAY
    ensures duration.seconds < 0 ==>
      n <= 0 && (n - 1) * SECONDS_PER_DAY < duration.seconds <= n * SECONDS_PER_DAY
  {
    var s: int := duration.seconds;
    if s >= 0 then s / SECONDS_PER_DAY else -((-s) / SECONDS_PER_DAY)
  }

  function IsNegative(duration: Duration): bool {
    duration.seconds < 0 || duration.nanoseconds < 0
  }

  function IsPositive(duration: Duration): bool {
    duration.seconds > 0 || duration.nanoseconds > 0
  }

  /** `Duration::days`, which panics unless the seconds fit an i64. */
  function Days(days: int): (r: Duration)
    requires -0x8000_0000_0000_0000 <= days * SECONDS_PER_DAY < 0x8000_0000_0000_0000
    ensures WholeDays(r) == days && r.nanoseconds == 0
  {
    DurationParts(days * SECONDS_PER_DAY, 0)
  }

  /** `Duration::weeks`, which panics unless the seconds fit an i64. */
  function Weeks(weeks: int): (r: Duration)
    requires -0x8000_0000_0000_0000 <= weeks * 7 * SECONDS_PER_DAY < 0x8000_0000_0000_0000
    ensures WholeDays(r) == 7 * weeks && r.nanoseconds == 0
  {
    DurationParts(weeks * 604_800, 0)
  }

  /** `core::time::Duration`: unsigned seconds and nanoseconds. */
  datatype StdDuration = StdDuration(secs: u64, nanos: u32)

  function StdWholeDays(duration: StdDuration): (n: int)
    ensures 0 <= n && n * SECONDS_PER_DAY <= duration.secs < (n + 1) * SECONDS_PER_DAY
  {
    duration.secs / SECONDS_PER_DAY
  }
}
