/**
 * The date-fns (version 1) helpers the picker relies on, over JavaScript
 * `Date` values in a fixed local calendar: every day has 86,400,000
 * milliseconds and the weekday of 1 January 1970 is Thursday.
 *
 * A `Date` is represented by the number of its local day (days since
 * 1 January 1970) and the milliseconds since that day's midnight; `GetTime`
 * and `FromTime` convert to and from the millisecond count since 1 January
 * 1970 00:00 that JavaScript stores, and the two representations are in
 * one-to-one correspondence (`TimeRoundTrip`). The calendar date of a day
 * is `CalendarDate`, its inverse `OfDate`.
 */
module DateFns {
  import opened Wrappers
  import opened Calendar

  const MsPerDay: int := 86400000

  /** A day number and the milliseconds since that day's midnight. */
  datatype DateTime = DateTime(day: int, ms: int)

  /** A JavaScript `Date` holding a valid time. */
  type Instant = t: DateTime | 0 <= t.ms < MsPerDay witness DateTime(0, 0)

  /** `getTime()`: milliseconds since 1 January 1970 00:00. */
  function GetTime(t: Instant): int {
    t.day * MsPerDay + t.ms
  }

  /** `new Date(time)`. */
  function FromTime(time: int): (t: Instant)
    ensures GetTime(t) == time
  {
    DateTime(time / MsPerDay, time % MsPerDay)
  }

  /** A `Date` is determined by its time value, so both representations carry the same information. */
  lemma TimeRoundTrip(t: Instant, time: int)
    ensures FromTime(GetTime(t)) == t
    ensures GetTime(FromTime(time)) == time
  {
    var n := GetTime(t);
    assert n / MsPerDay == t.day && n % MsPerDay == t.ms;
  }

  /** Time values order instants by day first and time of day second. */
  lemma TimeOrder(a: Instant, b: Instant)
    ensures GetTime(a) < GetTime(b) <==> a.day < b.day || (a.day == b.day && a.ms < b.ms)
    ensures GetTime(a) == GetTime(b) <==> a == b
  {
    if a.day < b.day {
      assert GetTime(a) < (a.day + 1) * MsPerDay <= GetTime(b);
    } else if b.day < a.day {
      assert GetTime(b) < (b.day + 1) * MsPerDay <= GetTime(a);
    }
  }

  /** The local calendar date of `t`. */
  function CalendarDate(t: Instant): (d: Date)
    ensures ValidDate(d) && DayNumber(d) == t.day
  {
    DateOf(t.day)
  }

  /** `new Date(year, month - 1, day)` at `ms` milliseconds after midnight, for a valid date. */
  function OfDate(d: Date, ms: int): (t: Instant)
    requires ValidDate(d) && 0 <= ms < MsPerDay
    ensures CalendarDate(t) == d && t.ms == ms
  {
    DateOfDayNumber(d);
    DateTime(DayNumber(d), ms)
  }

  function GetFullYear(t: Instant): int {
    CalendarDate(t).year
  }

  /** The month 1..12 (JavaScript's getMonth() returns this minus one). */
  function GetMonth(t: Instant): (m: int)
    ensures 1 <= m <= 12
  {
    CalendarDate(t).month
  }

  /** The day of the month. */
  function GetDate(t: Instant): (d: int)
    ensures 1 <= d <= DaysInMonth(GetFullYear(t), GetMonth(t))
  {
    CalendarDate(t).day
  }

  /** The weekday, 0 = Sunday .. 6 = Saturday; day number 0 (1 January 1970) is a Thursday. */
  function GetDay(t: Instant): (wd: int)
    ensures 0 <= wd < 7
  {
    (t.day + 4) % 7
  }

  /** Months since January of year 0: year and month in one number. */
  function MonthIndex(t: Instant): int {
    GetFullYear(t) * 12 + GetMonth(t) - 1
  }

  predicate SameMonth(a: Instant, b: Instant) {
    GetFullYear(a) == GetFullYear(b) && GetMonth(a) == GetMonth(b)
  }

  lemma SameMonthIndex(a: Instant, b: Instant)
    ensures SameMonth(a, b) <==> MonthIndex(a) == MonthIndex(b)
  {
    YearMonthFromIndex(GetFullYear(a), GetMonth(a), GetFullYear(b), GetMonth(b));
  }

  lemma YearMonthFromIndex(y1: int, m1: int, y2: int, m2: int)
    requires 1 <= m1 <= 12 && 1 <= m2 <= 12
    ensures y1 * 12 + m1 == y2 * 12 + m2 ==> y1 == y2 && m1 == m2
  {
  }

  function StartOfDay(t: Instant): (r: Instant)
    ensures CalendarDate(r) == CalendarDate(t) && r.ms == 0
    ensures GetTime(r) <= GetTime(t) < GetTime(r) + MsPerDay
  {
    DateTime(t.day, 0)
  }

  /** The same time of day, `amount` days later (earlier when negative). */
  function AddDays(t: Instant, amount: int): (r: Instant)
    ensures r.day == t.day + amount && r.ms == t.ms
    ensures GetTime(r) == GetTime(t) + amount * MsPerDay
    ensures GetDay(r) == (GetDay(t) + amount) % 7
  {
    WeekdayShift(t.day, amount);
    DateTime(t.day + amount, t.ms)
  }

  lemma WeekdayShift(day: int, amount: int)
    ensures (day + amount + 4) % 7 == ((day + 4) % 7 + amount) % 7
  {
    var q := (day + 4) / 7;
    assert day + amount + 4 == 7 * q + ((day + 4) % 7 + amount);
  }

  function SubWeeks(t: Instant, amount: int): (r: Instant)
    ensures r.day == t.day - 7 * amount && r.ms == t.ms
    ensures GetDay(r) == GetDay(t)
  {
    WholeWeeks(GetDay(t), amount);
    AddDays(t, -(amount * 7))
  }

  lemma WholeWeeks(weekday: int, weeks: int)
    requires 0 <= weekday < 7
    ensures (weekday + -(weeks * 7)) % 7 == weekday
  {
    var x := weekday + -(weeks * 7);
    assert x == 7 * -weeks + weekday;
  }

  function StartOfMonth(t: Instant): (r: Instant)
    ensures CalendarDate(r) == Date(GetFullYear(t), GetMonth(t), 1) && r.ms == 0
  {
    OfDate(Date(GetFullYear(t), GetMonth(t), 1), 0)
  }

  function EndOfMonth(t: Instant): (r: Instant)
    ensures CalendarDate(r) == Date(GetFullYear(t), GetMonth(t), DaysInMonth(GetFullYear(t), GetMonth(t)))
    ensures r.ms == MsPerDay - 1
  {
    OfDate(Date(GetFullYear(t), GetMonth(t), DaysInMonth(GetFullYear(t), GetMonth(t))), MsPerDay - 1)
  }

  /** Start of the week holding `t`, weeks starting on Sunday (weekStartsOn 0). */
  function StartOfWeek(t: Instant): (r: Instant)
    ensures r.day == t.day - GetDay(t) && r.ms == 0
    ensures GetDay(r) == 0
    ensures GetTime(r) <= GetTime(t) < GetTime(r) + 7 * MsPerDay
  {
    WeekdayShift(t.day, -GetDay(t));
    DateTime(t.day - GetDay(t), 0)
  }

  /** Last millisecond of the week holding `t`, weeks starting on Sunday (weekStartsOn 0). */
  function EndOfWeek(t: Instant): (r: Instant)
    ensures r.day == t.day + 6 - GetDay(t) && r.ms == MsPerDay - 1
    ensures GetDay(r) == 6
    ensures GetTime(t) <= GetTime(r) < GetTime(t) + 7 * MsPerDay
  {
    WeekdayShift(t.day, 6 - GetDay(t));
    DateTime(t.day + 6 - GetDay(t), MsPerDay - 1)
  }

  /** A week runs from its Sunday midnight to the millisecond before the next Sunday. */
  lemma WeekBounds(t: Instant)
    ensures GetTime(EndOfWeek(t)) == GetTime(StartOfWeek(t)) + 7 * MsPerDay - 1
  {
  }

  function StartOfYear(t: Instant): (r: Instant)
    ensures CalendarDate(r) == Date(GetFullYear(t), 1, 1) && r.ms == 0
  {
    OfDate(Date(GetFullYear(t), 1, 1), 0)
  }

  function EndOfYear(t: Instant): (r: Instant)
    ensures CalendarDate(r) == Date(GetFullYear(t), 12, 31) && r.ms == MsPerDay - 1
  {
    OfDate(Date(GetFullYear(t), 12, 31), MsPerDay - 1)
  }

  /** The start of the day, month and year of `t` lie at or before it and their ends at or after it. */
  lemma PeriodBounds(t: Instant)
    ensures GetTime(StartOfYear(t)) <= GetTime(StartOfMonth(t)) <= GetTime(StartOfDay(t)) <= GetTime(t)
    ensures GetTime(t) <= GetTime(EndOfMonth(t)) <= GetTime(EndOfYear(t))
  {
    var d := CalendarDate(t);
    var y, m := d.year, d.month;
    DayNumberOrder(Date(y, 1, 1), Date(y, m, 1));
    DayNumberOrder(Date(y, m, 1), d);
    DayNumberOrder(d, Date(y, m, DaysInMonth(y, m)));
    DayNumberOrder(Date(y, m, DaysInMonth(y, m)), Date(y, 12, 31));
    TimeOrder(StartOfYear(t), StartOfMonth(t));
    TimeOrder(StartOfMonth(t), StartOfDay(t));
    TimeOrder(t, EndOfMonth(t));
    TimeOrder(EndOfMonth(t), EndOfYear(t));
  }

  function Min(a: int, b: int): int {
    if a <= b then a else b
  }

  /**
   * `amount` months later at the same time of day; the day of the month is
   * kept, or clamped to the last day of the target month when that is shorter.
   */
  function AddMonths(t: Instant, amount: int): (r: Instant)
    ensures MonthIndex(r) == MonthIndex(t) + amount
    ensures GetDate(r) == Min(GetDate(t), DaysInMonth(GetFullYear(r), GetMonth(r)))
    ensures r.ms == t.ms
  {
    var desiredMonth := GetMonth(t) - 1 + amount;
    var year := GetFullYear(t) + desiredMonth / 12;
    var month := desiredMonth % 12 + 1;
    OfDate(Date(year, month, Min(GetDate(t), DaysInMonth(year, month))), t.ms)
  }

  function SubMonths(t: Instant, amount: int): (r: Instant)
    ensures MonthIndex(r) == MonthIndex(t) - amount
    ensures r.ms == t.ms
  {
    AddMonths(t, -amount)
  }

  /** subYears is addMonths by minus twelve times the amount. */
  function SubYears(t: Instant, amount: int): (r: Instant)
    ensures GetFullYear(r) == GetFullYear(t) - amount && GetMonth(r) == GetMonth(t)
    ensures r.ms == t.ms
  {
    AddMonths(t, -(amount * 12))
  }

  function DifferenceInCalendarMonths(left: Instant, right: Instant): int {
    (GetFullYear(left) - GetFullYear(right)) * 12 + GetMonth(left) - GetMonth(right)
  }

  /** Adding the calendar-month difference to `right` lands in the month of `left`. */
  lemma AddDifferenceInCalendarMonths(left: Instant, right: Instant)
    ensures SameMonth(AddMonths(right, DifferenceInCalendarMonths(left, right)), left)
    ensures DifferenceInCalendarMonths(left, right) == 0 <==> SameMonth(left, right)
  {
  }

  function IsSameDay(left: Instant, right: Instant): (r: bool)
    ensures r <==> CalendarDate(left) == CalendarDate(right)
  {
    StartOfDay(left) == StartOfDay(right)
  }

  /** -1, 0 or 1 as `left` is before, at or after `right`. */
  function CompareAsc(left: Instant, right: Instant): (r: int)
    ensures r < 1 <==> GetTime(left) <= GetTime(right)
    ensures r == 0 <==> GetTime(left) == GetTime(right)
  {
    var l, rt := GetTime(left), GetTime(right);
    if l < rt then -1 else if l > rt then 1 else 0
  }

  /** -1, 0 or 1 as `left` is after, at or before `right`. */
  function CompareDesc(left: Instant, right: Instant): (r: int)
    ensures r < 1 <==> GetTime(left) >= GetTime(right)
    ensures r == 0 <==> GetTime(left) == GetTime(right)
  {
    var l, rt := GetTime(left), GetTime(right);
    if l > rt then -1 else if l < rt then 1 else 0
  }

  /** Whether `t` lies in the closed interval; throws when the start is after the end. */
  function IsWithinRange(t: Instant, start: Instant, end: Instant): (r: Result<bool>)
    ensures r.Err? <==> GetTime(start) > GetTime(end)
    ensures r == Ok(true) <==> GetTime(start) <= GetTime(t) <= GetTime(end)
  {
    var time, startTime, endTime := GetTime(t), GetTime(start), GetTime(end);
    if startTime > endTime then Err("The start of the range cannot be after the end of the range")
    else Ok(time >= startTime && time <= endTime)
  }

  /** Time value 0 is 1 January 1970 at 00:00. */
  lemma EpochDate()
    ensures CalendarDate(FromTime(0)) == Date(1970, 1, 1) && FromTime(0).ms == 0
  {
    KnownDayNumbers();
    DateOfDayNumber(Date(1970, 1, 1));
  }

  /** The instant date-fns reads from a `Date` argument that may be null: a null one parses as time value 0. */
  function ParseNullable(d: Option<Instant>): (r: Instant)
    ensures d.Some? ==> r == d.value
    ensures d.None? ==> GetTime(r) == 0 && CalendarDate(r) == Date(1970, 1, 1)
  {
    if d.Some? then d.value else EpochDate(); FromTime(0)
  }

  /** Wednesday 12 June 2024 and Thursday 1 January 1970. */
  lemma KnownWeekdays()
    ensures GetDay(OfDate(Date(2024, 6, 12), 0)) == 3
    ensures GetDay(OfDate(Date(1970, 1, 1), 0)) == 4
  {
    KnownDayNumbers();
  }
}
