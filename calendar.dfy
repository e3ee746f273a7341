/**
 * The proleptic Gregorian calendar that JavaScript's `Date` uses for local
 * dates: conversion between a calendar date (year, month 1..12, day of month)
 * and a day number counted from 1 January 1970.
 */
module Calendar {

  /** A calendar date; `month` is 1..12 (JavaScript's getMonth() is this minus one). */
  datatype Date = Date(year: int, month: int, day: int)

  predicate IsLeapYear(y: int) {
    y % 4 == 0 && (y % 100 != 0 || y % 400 == 0)
  }

  function DaysInYear(y: int): (n: int)
    ensures n == 365 || n == 366
    ensures n == 366 <==> IsLeapYear(y)
  {
    if IsLeapYear(y) then 366 else 365
  }

  function DaysInMonth(y: int, m: int): (n: int)
    requires 1 <= m <= 12
    ensures 28 <= n <= 31
  {
    if m == 2 then (if IsLeapYear(y) then 29 else 28)
    else if m == 4 || m == 6 || m == 9 || m == 11 then 30
    else 31
  }

  predicate ValidDate(d: Date) {
    1 <= d.month <= 12 && 1 <= d.day <= DaysInMonth(d.year, d.month)
  }

  /** Days from 1 January of year `y` to the first of month `m`, as the sum of the months before it. */
  function DaysBeforeMonth(y: int, m: int): (n: int)
    requires 1 <= m <= 12
    ensures 0 <= n
    decreases m
  {
    if m == 1 then 0 else DaysBeforeMonth(y, m - 1) + DaysInMonth(y, m - 1)
  }

  /** The cumulative month lengths of the Gregorian calendar, one day more from March in leap years. */
  lemma {:induction false} DaysBeforeMonthTable(y: int, m: int)
    requires 1 <= m <= 12
    ensures DaysBeforeMonth(y, m) == [0, 31, 59, 90, 120, 151, 181, 212, 243, 273, 304, 334][m - 1]
                                     + (if m > 2 && IsLeapYear(y) then 1 else 0)
    decreases m
  {
    if m > 1 {
      DaysBeforeMonthTable(y, m - 1);
    }
  }

  lemma {:induction false} DaysBeforeMonthIncreasing(y: int, a: int, b: int)
    requires 1 <= a < b <= 12
    ensures DaysBeforeMonth(y, a) + DaysInMonth(y, a) <= DaysBeforeMonth(y, b)
    decreases b - a
  {
    if a + 1 < b {
      DaysBeforeMonthIncreasing(y, a + 1, b);
    }
  }

  /** The month, at or after `m`, of the day that lies `doy` days after 1 January of `y`. */
  function MonthContaining(y: int, doy: int, m: int): (r: int)
    requires 1 <= m <= 12
    requires DaysBeforeMonth(y, m) <= doy < DaysInYear(y)
    ensures m <= r <= 12
    ensures DaysBeforeMonth(y, r) <= doy < DaysBeforeMonth(y, r) + DaysInMonth(y, r)
    decreases 12 - m
  {
    if doy < DaysBeforeMonth(y, m) + DaysInMonth(y, m) then m
    else MonthContaining(y, doy, m + 1)
  }

  /** Days from 1 January of year 1 to 1 January of year `y` (floor division: also for y < 1). */
  function DaysBeforeYear(y: int): int {
    var p := y - 1;
    365 * p + p / 4 - p / 100 + p / 400
  }

  lemma DaysBeforeNextYear(y: int)
    ensures DaysBeforeYear(y + 1) == DaysBeforeYear(y) + DaysInYear(y)
  {
    var p := y - 1;
    FloorDivStep(p, 4);
    FloorDivStep(p, 100);
    FloorDivStep(p, 400);
  }

  lemma FloorDivStep(p: int, k: int)
    requires k == 4 || k == 100 || k == 400
    ensures (p + 1) / k == p / k + (if (p + 1) % k == 0 then 1 else 0)
  {
    var q, r := p / k, p % k;
    assert p == k * q + r && 0 <= r < k;
    if r + 1 < k {
      assert p + 1 == k * q + (r + 1);
    } else {
      assert p + 1 == k * (q + 1);
    }
  }

  /**
   * Days from 1 January 1970 to 1 January of year `y` (negative before 1970),
   * counted a year at a time.
   */
  function YearStart(y: int): int
    decreases if y >= 1970 then y - 1970 else 1970 - y
  {
    if y == 1970 then 0
    else if y > 1970 then YearStart(y - 1) + DaysInYear(y - 1)
    else YearStart(y + 1) - DaysInYear(y)
  }

  /** Counting a year at a time from 1970 agrees with the closed form counted from year 1. */
  lemma {:induction false} YearStartFormula(y: int)
    ensures YearStart(y) == DaysBeforeYear(y) - UnixEpochDays
    decreases if y >= 1970 then y - 1970 else 1970 - y
  {
    if y > 1970 {
      YearStartFormula(y - 1);
      DaysBeforeNextYear(y - 1);
    } else if y < 1970 {
      YearStartFormula(y + 1);
      DaysBeforeNextYear(y);
    }
  }

  lemma {:induction false} YearStartIncreasing(a: int, b: int)
    requires a < b
    ensures YearStart(a) + DaysInYear(a) <= YearStart(b)
    decreases b - a
  {
    assert YearStart(a + 1) == YearStart(a) + DaysInYear(a);
    if a + 1 < b {
      YearStartIncreasing(a + 1, b);
    }
  }

  /** Days before a year inside a 400-year cycle, split into centuries, 4-year groups and years. */
  lemma DaysBeforeYearInCycle(era: int, c: int, q: int, yr: int)
    requires 0 <= c < 4 && 0 <= q < 25 && 0 <= yr < 4
    ensures DaysBeforeYear(400 * era + 100 * c + 4 * q + yr + 1)
            == 146097 * era + 36524 * c + 1461 * q + 365 * yr
  {
    var p := 400 * era + 100 * c + 4 * q + yr;
    EuclideanDivision(p, 4, 100 * era + 25 * c + q, yr);
    EuclideanDivision(p, 100, 4 * era + c, 4 * q + yr);
    EuclideanDivision(p, 400, era, 100 * c + 4 * q + yr);
  }

  /** Inside a 400-year cycle, the last year of a 4-year group is a leap year unless it closes a century other than the fourth. */
  lemma LeapYearInCycle(era: int, c: int, q: int, yr: int)
    requires 0 <= c < 4 && 0 <= q < 25 && 0 <= yr < 4
    ensures IsLeapYear(400 * era + 100 * c + 4 * q + yr + 1) <==> yr == 3 && (q != 24 || c == 3)
  {
    var y := 400 * era + 100 * c + 4 * q + yr + 1;
    if yr < 3 {
      EuclideanDivision(y, 4, 100 * era + 25 * c + q, yr + 1);
    } else {
      EuclideanDivision(y, 4, 100 * era + 25 * c + q + 1, 0);
      if q < 24 {
        EuclideanDivision(y, 100, 4 * era + c, 4 * q + 4);
      } else {
        EuclideanDivision(y, 100, 4 * era + c + 1, 0);
        if c < 3 {
          EuclideanDivision(y, 400, era, 100 * c + 100);
        } else {
          EuclideanDivision(y, 400, era + 1, 0);
        }
      }
    }
  }

  /** Quotient and remainder by 4, 100 or 400 are the unique q and r with y == k * q + r and 0 <= r < k. */
  lemma EuclideanDivision(y: int, k: int, q: int, r: int)
    requires k == 4 || k == 100 || k == 400
    requires y == k * q + r && 0 <= r < k
    ensures y / k == q && y % k == r
  {
    if k == 4 {
      assert y == 4 * q + r;
    } else if k == 100 {
      assert y == 100 * q + r;
    } else {
      assert y == 400 * q + r;
    }
  }

  /** The year holding the day that lies `z` days after 1 January of year 1. */
  function YearOf(z: int): (y: int)
    ensures DaysBeforeYear(y) <= z < DaysBeforeYear(y) + DaysInYear(y)
  {
    var era := z / 146097;
    var doe := z % 146097;
    var c := if doe / 36524 < 4 then doe / 36524 else 3;
    var doc := doe - 36524 * c;
    var q := doc / 1461;
    var doq := doc % 1461;
    var yr := if doq / 365 < 4 then doq / 365 else 3;
    assert q < 25;
    assert c < 3 ==> doc < 36524;
    assert doq - 365 * yr < 365 || (yr == 3 && (q != 24 || c == 3));
    DaysBeforeYearInCycle(era, c, q, yr);
    LeapYearInCycle(era, c, q, yr);
    400 * era + 100 * c + 4 * q + yr + 1
  }

  /** DaysBeforeYear(1970): the day number of 1 January 1970 counted from 1 January of year 1. */
  const UnixEpochDays: int := 719162

  /** Days from 1 January 1970 to `d` (negative before it). */
  function DayNumber(d: Date): int
    requires ValidDate(d)
  {
    YearStart(d.year) + DaysBeforeMonth(d.year, d.month) + d.day - 1
  }

  /** Every day number is the day number of a valid date: the one its year and month search find. */
  lemma DateOfExists(n: int)
    ensures exists d :: ValidDate(d) && DayNumber(d) == n
  {
    var z := n + UnixEpochDays;
    var y := YearOf(z);
    var doy := z - DaysBeforeYear(y);
    var m := MonthContaining(y, doy, 1);
    var d := Date(y, m, doy - DaysBeforeMonth(y, m) + 1);
    YearStartFormula(y);
    assert ValidDate(d) && DayNumber(d) == n;
  }

  /** Distinct valid dates have distinct day numbers. */
  lemma DayNumberInjective()
    ensures forall a, b :: ValidDate(a) && ValidDate(b) && DayNumber(a) == DayNumber(b) ==> a == b
  {
    forall a, b | ValidDate(a) && ValidDate(b) && DayNumber(a) == DayNumber(b)
      ensures a == b
    {
      DayNumberOrder(a, b);
      DayNumberOrder(b, a);
    }
  }

  /** The calendar date of day number `n`: the only valid date with that day number. */
  function DateOf(n: int): (d: Date)
    ensures ValidDate(d)
    ensures DayNumber(d) == n
  {
    DateOfExists(n);
    DayNumberInjective();
    var d :| ValidDate(d) && DayNumber(d) == n;
    d
  }

  lemma DateOfDayNumber(d: Date)
    requires ValidDate(d)
    ensures DateOf(DayNumber(d)) == d
  {
    DayNumberInjective();
  }

  lemma MonthFitsInYear(y: int, m: int)
    requires 1 <= m <= 12
    ensures DaysBeforeMonth(y, m) + DaysInMonth(y, m) <= DaysInYear(y)
  {
    DaysBeforeMonthTable(y, 12);
    if m < 12 {
      DaysBeforeMonthIncreasing(y, m, 12);
    }
  }

  /** Dates are ordered by their day numbers exactly as they are ordered lexicographically. */
  lemma DayNumberOrder(a: Date, b: Date)
    requires ValidDate(a) && ValidDate(b)
    ensures DayNumber(a) < DayNumber(b) <==>
            a.year < b.year || (a.year == b.year && (a.month < b.month || (a.month == b.month && a.day < b.day)))
  {
    if a.year < b.year {
      MonthFitsInYear(a.year, a.month);
      YearStartIncreasing(a.year, b.year);
      assert DayNumber(a) < YearStart(a.year) + DaysInYear(a.year) <= DayNumber(b);
    } else if b.year < a.year {
      MonthFitsInYear(b.year, b.month);
      YearStartIncreasing(b.year, a.year);
      assert DayNumber(b) < YearStart(b.year) + DaysInYear(b.year) <= DayNumber(a);
    } else if a.month < b.month {
      DaysBeforeMonthIncreasing(a.year, a.month, b.month);
      assert DayNumber(a) < DayNumber(b);
    } else if b.month < a.month {
      DaysBeforeMonthIncreasing(a.year, b.month, a.month);
      assert DayNumber(b) < DayNumber(a);
    } else {
      assert DayNumber(a) - a.day == DayNumber(b) - b.day;
    }
  }

  /** 1 January 2024 is 19723 days after 1 January 1970. */
  lemma YearStart2024()
    ensures YearStart(2024) == 19723
  {
    YearStartFormula(2024);
  }

  /** Wednesday 12 June 2024 has day number 19886, and 1 January 1970 has day number 0. */
  lemma KnownDayNumbers()
    ensures DayNumber(Date(1970, 1, 1)) == 0
    ensures DayNumber(Date(2024, 6, 12)) == 19886
  {
    YearStart2024();
  }
}
