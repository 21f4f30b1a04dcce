/**
 * Wall-clock date-times, dates and time zones as the scheduling rules use them.
 *
 * A date-time (Java's LocalDateTime) is a count of seconds since 1970-01-01T00:00
 * on some wall clock; a date (LocalDate) is a count of days since 1970-01-01; a
 * time of day (LocalTime) is a count of seconds since midnight. Sub-second
 * precision is not modelled.
 */
module ZonedTime {

  const SecondsPerMinute := 60
  const SecondsPerHour := 3600
  const SecondsPerDay := 86400

  /** The date-time at `timeOfDay` seconds past midnight of day `date`. */
  function DateTimeOf(date: int, timeOfDay: int): int {
    date * SecondsPerDay + timeOfDay
  }

  /** The calendar date of a date-time (LocalDateTime.toLocalDate). */
  function DateOf(t: int): int {
    t / SecondsPerDay
  }

  /** The clock time of a date-time (LocalDateTime.toLocalTime). */
  function TimeOfDay(t: int): (tod: int)
    ensures 0 <= tod < SecondsPerDay
  {
    t % SecondsPerDay
  }

  /** The clock time hh:mm (LocalTime.of(hour, minute)). */
  function LocalTimeOf(hour: int, minute: int): int {
    hour * SecondsPerHour + minute * SecondsPerMinute
  }

  /** Splitting a date-time into date and clock time and joining them again is lossless. */
  lemma DateTimeSplit(t: int)
    ensures DateTimeOf(DateOf(t), TimeOfDay(t)) == t
  {
  }

  /** Joining a date and a clock time and splitting them again gives both back. */
  lemma {:induction false} DateTimeJoin(date: int, timeOfDay: int)
    requires 0 <= timeOfDay < SecondsPerDay
    ensures DateOf(DateTimeOf(date, timeOfDay)) == date
    ensures TimeOfDay(DateTimeOf(date, timeOfDay)) == timeOfDay
  {
    var t := DateTimeOf(date, timeOfDay);
    assert t == date * SecondsPerDay + timeOfDay;
    DivModUnique(t, SecondsPerDay, date, timeOfDay);
  }

  lemma DivModUnique(n: int, d: int, q: int, r: int)
    requires 0 < d && 0 <= r < d && n == q * d + r
    ensures n / d == q && n % d == r
  {
    var q', r' := n / d, n % d;
    assert n == q' * d + r' && 0 <= r' < d;
    if q' > q {
      MulDistance(q', q, d);
    } else if q' < q {
      MulDistance(q, q', d);
    }
  }

  lemma MulDistance(a: int, b: int, d: int)
    requires a > b && d > 0
    ensures a * d >= b * d + d
  {
    var k := a - b - 1;
    assert k >= 0;
    assert a * d == b * d + d + k * d;
    MulNonNegative(k, d);
  }

  lemma {:induction false} MulNonNegative(k: int, d: int)
    requires k >= 0 && d >= 0
    ensures k * d >= 0
    decreases k
  {
    if k > 0 {
      MulNonNegative(k - 1, d);
      assert k * d == (k - 1) * d + d;
    }
  }

  // ---------------------------------------------------------------- weeks

  /** ISO day of week of a date: 1 = Monday ... 7 = Sunday (1970-01-01 was a Thursday). */
  function DayOfWeek(date: int): (dow: int)
    ensures 1 <= dow <= 7
  {
    (date + 3) % 7 + 1
  }

  /** The Monday of the ISO week holding `date` (LocalDate.with(DayOfWeek.MONDAY)). */
  function WeekMonday(date: int): int {
    date - (DayOfWeek(date) - 1)
  }

  /** The Sunday of the ISO week holding `date` (LocalDate.with(DayOfWeek.SUNDAY)). */
  function WeekSunday(date: int): int {
    date + (7 - DayOfWeek(date))
  }

  /** The week adjusters give a Monday and a Sunday six days apart that enclose the date. */
  lemma {:induction false} WeekBounds(date: int)
    ensures DayOfWeek(WeekMonday(date)) == 1 && DayOfWeek(WeekSunday(date)) == 7
    ensures WeekSunday(date) == WeekMonday(date) + 6
    ensures WeekMonday(date) <= date <= WeekSunday(date)
  {
    var m := WeekMonday(date);
    DivModUnique(m + 3, 7, (date + 3) / 7, 0);
    DivModUnique(WeekSunday(date) + 3, 7, (date + 3) / 7, 6);
  }

  /** A date lies between the Monday and the Sunday of `today`'s week exactly when it has the same Monday. */
  lemma {:induction false} SameWeekIff(today: int, date: int)
    ensures WeekMonday(today) <= date <= WeekSunday(today) <==> WeekMonday(date) == WeekMonday(today)
  {
    WeekBounds(today);
    WeekBounds(date);
    var m := WeekMonday(today);
    if m <= date <= m + 6 {
      DivModUnique(date + 3, 7, (m + 3) / 7, date - m);
    }
  }

  // ---------------------------------------------------------------- months

  /** A proleptic Gregorian calendar date. */
  datatype Date = Date(year: int, month: int, day: int)

  /**
   * The calendar date of a day count, by the usual era/day-of-era computation
   * on 400-year Gregorian cycles that start on a 1 March.
   */
  function CivilFromDays(days: int): (d: Date)
    ensures 1 <= d.month <= 12
  {
    var z := days + 719468;
    var era := z / 146097;
    DateInEra(era, z - era * 146097)
  }

  /** The date `dayOfEra` days after 1 March of year `400 * era`. */
  function DateInEra(era: int, dayOfEra: int): (d: Date)
    requires 0 <= dayOfEra < 146097
    ensures 1 <= d.month <= 12
  {
    YearOfEra(dayOfEra);
    var yearOfEra := EraYear(dayOfEra);
    DateInYear(400 * era + yearOfEra, dayOfEra - (365 * yearOfEra + yearOfEra / 4 - yearOfEra / 100))
  }

  /** The year of its cycle day `dayOfEra` falls in, counting years from 1 March. */
  function EraYear(dayOfEra: int): int {
    (dayOfEra - dayOfEra / 1460 + dayOfEra / 36524 - dayOfEra / 146096) / 365
  }

  /** The date `dayOfYear` days after 1 March of year `y`. */
  function DateInYear(y: int, dayOfYear: int): (d: Date)
    requires 0 <= dayOfYear < 366
    ensures 1 <= d.month <= 12
  {
    var mp := (5 * dayOfYear + 2) / 153;
    var month := if mp < 10 then mp + 3 else mp - 9;
    Date(y + (if month <= 2 then 1 else 0), month, dayOfYear - (153 * mp + 2) / 5 + 1)
  }

  // ---------------------------------------------------------------- the Gregorian calendar

  /** Every fourth year is a leap year, except centuries not divisible by 400. */
  predicate IsLeapYear(y: int) {
    y % 4 == 0 && (y % 100 != 0 || y % 400 == 0)
  }

  function YearLength(y: int): int {
    if IsLeapYear(y) then 366 else 365
  }

  /** The length of month `m` of year `y`. */
  function DaysInMonth(y: int, m: int): int
    requires 1 <= m <= 12
  {
    if m == 2 then (if IsLeapYear(y) then 29 else 28)
    else if m == 4 || m == 6 || m == 9 || m == 11 then 30
    else 31
  }

  /** A date that exists in the calendar. */
  predicate ValidDate(d: Date) {
    1 <= d.month <= 12 && 1 <= d.day <= DaysInMonth(d.year, d.month)
  }

  /** The number of leap years from year 1 to year `y`, counted negatively below year 1. */
  function LeapYearsThrough(y: int): int {
    y / 4 - y / 100 + y / 400
  }

  /** The days from 1970-01-01 to 1 January of year `y`. */
  function DaysBeforeYear(y: int): int {
    365 * (y - 1970) + LeapYearsThrough(y - 1) - LeapYearsThrough(1969)
  }

  /** The days from 1 January to the first of month `m`. */
  function DaysBeforeMonth(y: int, m: int): int
    requires 1 <= m <= 12
  {
    [0, 31, 59, 90, 120, 151, 181, 212, 243, 273, 304, 334][m - 1] + (if m > 2 && IsLeapYear(y) then 1 else 0)
  }

  /** The day count of a date: days since 1970-01-01. */
  function DaysFromCivil(d: Date): int
    requires 1 <= d.month <= 12
  {
    DaysBeforeYear(d.year) + DaysBeforeMonth(d.year, d.month) + d.day - 1
  }

  lemma {:induction false} DivStep(y: int, d: int)
    requires d > 0
    ensures y / d - (y - 1) / d == if y % d == 0 then 1 else 0
  {
    if y % d == 0 {
      DivModUnique(y - 1, d, y / d - 1, d - 1);
    } else {
      DivModUnique(y - 1, d, y / d, y % d - 1);
    }
  }

  /** `LeapYearsThrough` grows by one exactly at a leap year. */
  lemma {:induction false} LeapStep(y: int)
    ensures LeapYearsThrough(y) - LeapYearsThrough(y - 1) == if IsLeapYear(y) then 1 else 0
  {
    DivStep(y, 4);
    DivStep(y, 100);
    DivStep(y, 400);
    if y % 400 == 0 {
      DivModUnique(y, 100, y / 400 * 4, 0);
    }
    if y % 100 == 0 {
      DivModUnique(y, 4, y / 100 * 25, 0);
    }
  }

  /**
   * The day counts are the calendar's: the year 1970 starts at day 0, each year
   * is as long as its leap status says, and each month starts where the previous
   * one ends, the last ending with the year.
   */
  lemma {:induction false} CalendarSteps(y: int, m: int)
    requires 1 <= m <= 12
    ensures DaysBeforeYear(1970) == 0
    ensures DaysBeforeYear(y + 1) == DaysBeforeYear(y) + YearLength(y)
    ensures DaysBeforeMonth(y, 1) == 0
    ensures m < 12 ==> DaysBeforeMonth(y, m + 1) == DaysBeforeMonth(y, m) + DaysInMonth(y, m)
    ensures DaysBeforeMonth(y, 12) + DaysInMonth(y, 12) == YearLength(y)
  {
    LeapStep(y);
  }

  /** Adding whole 400-year cycles does not change whether a year is a leap year. */
  lemma {:induction false} LeapPeriodic(y: int, k: int)
    ensures IsLeapYear(y + 400 * k) == IsLeapYear(y)
  {
    DivModUnique(y + 400 * k, 4, y / 4 + 100 * k, y % 4);
    DivModUnique(y + 400 * k, 100, y / 100 + 4 * k, y % 100);
    DivModUnique(y + 400 * k, 400, y / 400 + k, y % 400);
  }

  /** The leap years through year `400 * era + yoe`. */
  lemma {:induction false} LeapYearsInCycles(era: int, yoe: int)
    requires 0 <= yoe < 400
    ensures LeapYearsThrough(400 * era + yoe) == 97 * era + yoe / 4 - yoe / 100
  {
    var y := 400 * era + yoe;
    DivModUnique(y, 4, 100 * era + yoe / 4, yoe % 4);
    DivModUnique(y, 100, 4 * era + yoe / 100, yoe % 100);
    DivModUnique(y, 400, era, yoe);
  }

  /**
   * The day count of 1 March of year `400 * era + yoe`, the origin of the
   * March-based years CivilFromDays works with.
   */
  lemma {:induction false} MarchFirst(era: int, yoe: int)
    requires 0 <= yoe < 400
    ensures var y := 400 * era + yoe;
      DaysBeforeYear(y) + (if IsLeapYear(y) then 1 else 0) + 59
        == 146097 * era + 365 * yoe + yoe / 4 - yoe / 100 - 719468
  {
    var y := 400 * era + yoe;
    LeapStep(y);
    LeapYearsInCycles(era, yoe);
    assert LeapYearsThrough(1969) == 477;
  }

  /**
   * Within a 400-year cycle that starts on 1 March, day `doe` falls in the
   * March-based year CivilFromDays computes, and lies before that year's end
   * (366 days when the February that closes it is a leap day's).
   */
  lemma {:induction false} YearOfEra(doe: int)
    requires 0 <= doe < 146097
    ensures var yoe := EraYear(doe);
      && 0 <= yoe < 400
      && 0 <= doe - (365 * yoe + yoe / 4 - yoe / 100) < 365 + (if IsLeapYear(yoe + 1) then 1 else 0)
  {
    if doe == 146096 {
      LastDayOfEra();
    } else {
      var c, r := doe / 36524, doe % 36524;
      var q, s := FourYearSplit(r);
      YearOfEraFormula(doe, c, q, s);
      YearInCentury(doe, c, q, s);
    }
  }

  /** The last day of a 400-year cycle is the leap day closing its year 399. */
  lemma LastDayOfEra()
    ensures var doe := 146096;
      var yoe := EraYear(doe);
      && yoe == 399
      && doe - (365 * yoe + yoe / 4 - yoe / 100) == 365
      && IsLeapYear(yoe + 1)
  {
  }

  /** Day `r` of a century is day `s` of its four-year block `q`. */
  lemma {:induction false} FourYearSplit(r: int) returns (q: int, s: int)
    requires 0 <= r < 36524
    ensures r == 1461 * q + s
    ensures 0 <= q <= 24 && 0 <= s <= 1460 && (q == 24 ==> s < 1460)
  {
    q, s := r / 1461, r % 1461;
  }

  /** Day `doe` of a cycle, day `s` of four-year block `q` of century `c`, lies in year `100 * c + 4 * q + s / 365`. */
  lemma {:induction false} YearOfEraFormula(doe: int, c: int, q: int, s: int)
    requires 0 <= c <= 3 && 0 <= q <= 24 && 0 <= s <= 1460 && (q == 24 ==> s < 1460)
    requires doe == 36524 * c + 1461 * q + s
    ensures EraYear(doe) == 100 * c + 4 * q + (if s < 1460 then s / 365 else 3)
  {
    var t := if s < 1460 then s / 365 else 3;
    var e := 24 * c + q + s;
    var delta := if e < 1460 then 0 else 1;
    DivModUnique(doe, 1460, 25 * c + q + delta, e - 1460 * delta);
    DivModUnique(doe, 36524, c, 1461 * q + s);
    DivModUnique(doe, 146096, 0, doe);
    var f := doe - doe / 1460 + doe / 36524 - doe / 146096;
    assert f == doe - (25 * c + q + delta) + c;
    DivModUnique(f, 365, 100 * c + 4 * q + t, s - delta - 365 * t);
  }

  /** Year `100 * c + 4 * q + t` of a cycle starts `36524 * c + 1461 * q + 365 * t` days into it. */
  lemma {:induction false} YearInCentury(doe: int, c: int, q: int, s: int)
    requires 0 <= c <= 3 && 0 <= q <= 24 && 0 <= s <= 1460 && (q == 24 ==> s < 1460)
    requires doe == 36524 * c + 1461 * q + s
    ensures var yoe := 100 * c + 4 * q + (if s < 1460 then s / 365 else 3);
      && 0 <= yoe < 400
      && 0 <= doe - (365 * yoe + yoe / 4 - yoe / 100) < 365 + (if IsLeapYear(yoe + 1) then 1 else 0)
  {
    var t := if s < 1460 then s / 365 else 3;
    var yoe := 100 * c + 4 * q + t;
    DivModUnique(yoe, 4, 25 * c + q, t);
    DivModUnique(yoe, 100, c, 4 * q + t);
    assert doe - (365 * yoe + yoe / 4 - yoe / 100) == s - 365 * t;
    if s == 1460 {
      DivModUnique(yoe + 1, 4, 25 * c + q + 1, 0);
      DivModUnique(yoe + 1, 100, c, 4 * q + 4);
      assert IsLeapYear(yoe + 1);
    }
  }

  /**
   * Within a March-based year, day `doy` falls in the month CivilFromDays
   * computes (0 = March ... 11 = February), on a day that month has.
   */
  lemma {:induction false} MonthOfYear(doy: int, leap: bool)
    requires 0 <= doy < 365 + (if leap then 1 else 0)
    ensures var mp := (5 * doy + 2) / 153;
      && 0 <= mp <= 11
      && 1 <= doy - (153 * mp + 2) / 5 + 1
      && doy - (153 * mp + 2) / 5 + 1 <= [31, 30, 31, 30, 31, 31, 30, 31, 30, 31, 31, if leap then 29 else 28][mp]
  {
  }

  /**
   * Month `mp` of a March-based year (0 = March ... 11 = February) is calendar
   * month `mp + 3` of the same year or `mp - 9` of the next one; its first day
   * and its length, by the formulas CivilFromDays inverts.
   */
  lemma {:induction false} MarchBasedMonth(y: int, mp: int)
    requires 0 <= mp <= 11
    ensures mp < 10 ==> DaysBeforeMonth(y, mp + 3) == 59 + (if IsLeapYear(y) then 1 else 0) + (153 * mp + 2) / 5
    ensures mp < 10 ==> DaysInMonth(y, mp + 3) == [31, 30, 31, 30, 31, 31, 30, 31, 30, 31][mp]
    ensures mp >= 10 ==> DaysBeforeMonth(y + 1, mp - 9) == (153 * mp + 2) / 5 - 306
    ensures mp == 10 ==> DaysInMonth(y + 1, 1) == 31
  {
  }

  /**
   * The date `doy` days after 1 March of year `400 * era + yoe` exists and has
   * day count `n`, when `n` is that many days after that 1 March.
   */
  lemma {:induction false} MarchBasedDate(n: int, era: int, yoe: int, doy: int)
    requires 0 <= yoe < 400 && 0 <= doy < 365 + (if IsLeapYear(yoe + 1) then 1 else 0)
    requires n == 146097 * era + 365 * yoe + yoe / 4 - yoe / 100 - 719468 + doy
    ensures ValidDate(DateInYear(400 * era + yoe, doy))
    ensures DaysFromCivil(DateInYear(400 * era + yoe, doy)) == n
  {
    var y := 400 * era + yoe;
    MonthOfYear(doy, IsLeapYear(yoe + 1));
    var mp := (5 * doy + 2) / 153;
    var day := doy - (153 * mp + 2) / 5 + 1;
    MarchFirst(era, yoe);
    MarchBasedMonth(y, mp);
    if mp < 10 {
      assert DateInYear(y, doy) == Date(y, mp + 3, day);
    } else {
      assert DateInYear(y, doy) == Date(y + 1, mp - 9, day);
      CalendarSteps(y, 1);
      LeapPeriodic(yoe + 1, era);
    }
  }

  /**
   * CivilFromDays gives the calendar date with day count `n`: a date that exists,
   * and whose day count is `n`.
   */
  lemma {:induction false} CivilFromDaysCorrect(n: int)
    ensures ValidDate(CivilFromDays(n))
    ensures DaysFromCivil(CivilFromDays(n)) == n
  {
    var era := (n + 719468) / 146097;
    var doe := n + 719468 - era * 146097;
    DateInEraCorrect(n, era, doe);
    assert CivilFromDays(n) == DateInEra(era, doe);
  }

  /** The date `doe` days into cycle `era` exists and has day count `n`, when `n` counts that day. */
  lemma {:induction false} DateInEraCorrect(n: int, era: int, doe: int)
    requires 0 <= doe < 146097 && n == 146097 * era + doe - 719468
    ensures ValidDate(DateInEra(era, doe))
    ensures DaysFromCivil(DateInEra(era, doe)) == n
  {
    YearOfEra(doe);
    var yoe := EraYear(doe);
    var doy := doe - (365 * yoe + yoe / 4 - yoe / 100);
    MarchBasedDate(n, era, yoe, doy);
    assert DateInEra(era, doe) == DateInYear(400 * era + yoe, doy);
  }

  /** Each month starts after every earlier month has ended, and stays within its year. */
  lemma {:induction false} MonthsInOrder(y: int, m: int, m': int)
    requires 1 <= m < m' <= 12
    ensures DaysBeforeMonth(y, m) + DaysInMonth(y, m) <= DaysBeforeMonth(y, m')
    ensures DaysBeforeMonth(y, m') + DaysInMonth(y, m') <= YearLength(y)
  {
  }

  /** A later year starts after an earlier one has ended. */
  lemma {:induction false} YearsInOrder(y: int, y': int)
    requires y < y'
    ensures DaysBeforeYear(y) + YearLength(y) <= DaysBeforeYear(y')
    decreases y' - y
  {
    CalendarSteps(y, 1);
    if y' > y + 1 {
      YearsInOrder(y + 1, y');
    }
  }

  /** A date's day count lies within its year. */
  lemma {:induction false} WithinYear(d: Date)
    requires ValidDate(d)
    ensures DaysBeforeYear(d.year) <= DaysFromCivil(d) < DaysBeforeYear(d.year) + YearLength(d.year)
  {
    if d.month < 12 {
      MonthsInOrder(d.year, d.month, 12);
    }
    CalendarSteps(d.year, d.month);
  }

  /** Two dates of the calendar with the same day count are the same date. */
  lemma {:induction false} DaysFromCivilInjective(a: Date, b: Date)
    requires ValidDate(a) && ValidDate(b) && DaysFromCivil(a) == DaysFromCivil(b)
    ensures a == b
  {
    WithinYear(a);
    WithinYear(b);
    if a.year < b.year {
      YearsInOrder(a.year, b.year);
      assert false;
    } else if b.year < a.year {
      YearsInOrder(b.year, a.year);
      assert false;
    }
    if a.month < b.month {
      MonthsInOrder(a.year, a.month, b.month);
      assert false;
    } else if b.month < a.month {
      MonthsInOrder(a.year, b.month, a.month);
      assert false;
    }
  }

  /** Every date of the calendar is the date CivilFromDays gives for its day count. */
  lemma {:induction false} DaysFromCivilRoundTrip(d: Date)
    requires ValidDate(d)
    ensures CivilFromDays(DaysFromCivil(d)) == d
  {
    var n := DaysFromCivil(d);
    CivilFromDaysCorrect(n);
    DaysFromCivilInjective(CivilFromDays(n), d);
  }

  /** Day 0 is 1 January 1970. */
  lemma EpochDate()
    ensures CivilFromDays(0) == Date(1970, 1, 1)
  {
  }

  // ---------------------------------------------------------------- zones

  /**
   * A time zone, by its two offset rules (in seconds east of UTC):
   * `offsetForLocal` is the offset a zone picks for a wall-clock time
   * (LocalDateTime.atZone), `offsetAtInstant` the offset in force at a UTC
   * instant (ZonedDateTime.withZoneSameInstant). Around a daylight-saving
   * transition a wall-clock time may not exist (a gap) or may occur twice (an
   * overlap). `atZone` maps an overlapped time to its earlier offset. It maps a
   * gap time to the instant local - (offset before the gap): Java moves the clock
   * forward by the gap's length and keeps the later offset, and only that instant
   * is modelled, as local - offsetForLocal(local).
   */
  datatype Zone = Zone(offsetForLocal: int -> int, offsetAtInstant: int -> int)

  /** A zone whose offset never changes. */
  function Fixed(offset: int): Zone {
    Zone(_ => offset, _ => offset)
  }

  /** Coordinated Universal Time, the zone the appointments table stores. */
  function Utc(): Zone {
    Fixed(0)
  }

  ghost predicate IsFixed(z: Zone, offset: int) {
    && (forall t :: z.offsetForLocal(t) == offset)
    && (forall t :: z.offsetAtInstant(t) == offset)
  }

  /** The UTC wall-clock time of wall-clock time `local` in zone `z`. */
  function ToUtc(local: int, z: Zone): int {
    local - z.offsetForLocal(local)
  }

  /** The wall-clock time in zone `z` of UTC wall-clock time `utc`. */
  function FromUtc(utc: int, z: Zone): int {
    utc + z.offsetAtInstant(utc)
  }

  /** `local.atZone(from).withZoneSameInstant(to).toLocalDateTime()`. */
  function Convert(local: int, from: Zone, to: Zone): int {
    FromUtc(ToUtc(local, from), to)
  }

  /**
   * The offset picked for `local` is the one in force at the instant it names: the
   * condition under which a wall-clock time survives the trip to UTC and back.
   * Under the earlier-offset rule for overlaps it fails only for times in a
   * daylight-saving gap (see OverlapRoundTrips and GapShiftsForward).
   */
  predicate OffsetInForce(z: Zone, local: int) {
    z.offsetAtInstant(ToUtc(local, z)) == z.offsetForLocal(local)
  }

  /** Converting to UTC and back restores a wall-clock time exactly when the offset picked for it is in force. */
  lemma LocalRoundTrip(local: int, z: Zone)
    ensures FromUtc(ToUtc(local, z), z) == local <==> OffsetInForce(z, local)
  {
  }

  /** In a fixed-offset zone the offset picked for every wall-clock time is in force. */
  lemma FixedOffsetInForce(z: Zone, offset: int, local: int)
    requires IsFixed(z, offset)
    ensures OffsetInForce(z, local)
  {
    assert z.offsetForLocal(local) == offset && z.offsetAtInstant(local - offset) == offset;
  }

  /**
   * A zone falling back from UTC-4 to UTC-5 at instant 0: wall-clock times in
   * [-5h, -4h) occur twice, and `atZone` picks the earlier offset, UTC-4.
   */
  function FallBack(): Zone {
    Zone(local => if local < -4 * SecondsPerHour then -4 * SecondsPerHour else -5 * SecondsPerHour,
         utc => if utc < 0 then -4 * SecondsPerHour else -5 * SecondsPerHour)
  }

  /**
   * A zone springing forward from UTC-5 to UTC-4 at instant 0: wall-clock times in
   * [-5h, -4h) do not occur. `atZone` maps them to the instant local + 5h, the
   * instant local - (offset before the gap); Java shows it one hour later at UTC-4.
   */
  function SpringForward(): Zone {
    Zone(local => if local < -4 * SecondsPerHour then -5 * SecondsPerHour else -4 * SecondsPerHour,
         utc => if utc < 0 then -5 * SecondsPerHour else -4 * SecondsPerHour)
  }

  /** A wall-clock time inside a fall-back overlap survives the trip to UTC and back. */
  lemma OverlapRoundTrips()
    ensures var local := -4 * SecondsPerHour - 30 * SecondsPerMinute;
      OffsetInForce(FallBack(), local) && FromUtc(ToUtc(local, FallBack()), FallBack()) == local
  {
  }

  /** A wall-clock time inside a spring-forward gap comes back one hour later. */
  lemma GapShiftsForward()
    ensures var local := -4 * SecondsPerHour - 30 * SecondsPerMinute;
      !OffsetInForce(SpringForward(), local)
      && FromUtc(ToUtc(local, SpringForward()), SpringForward()) == local + SecondsPerHour
  {
  }

  /** In a fixed-offset zone both round trips are exact. */
  lemma FixedRoundTrip(t: int, z: Zone, offset: int)
    requires IsFixed(z, offset)
    ensures FromUtc(ToUtc(t, z), z) == t
    ensures ToUtc(FromUtc(t, z), z) == t
  {
    assert z.offsetForLocal(t) == offset && z.offsetAtInstant(t - offset) == offset;
    assert z.offsetAtInstant(t) == offset && z.offsetForLocal(t + offset) == offset;
  }

  /** A fixed-offset conversion keeps the order of two times and the distance between them. */
  lemma FixedConvertShifts(s: int, e: int, from: Zone, to: Zone, a: int, b: int)
    requires IsFixed(from, a) && IsFixed(to, b)
    ensures Convert(e, from, to) - Convert(s, from, to) == e - s
    ensures Convert(s, from, to) <= Convert(e, from, to) <==> s <= e
  {
    assert from.offsetForLocal(s) == a && from.offsetForLocal(e) == a;
    assert to.offsetAtInstant(s - a) == b && to.offsetAtInstant(e - a) == b;
  }
}
