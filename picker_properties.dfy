/**
 * Properties of the picker's calendar grid, month navigation, preset ranges
 * and endpoint selection, stated over the specification functions the
 * component's methods are proved against.
 */
module PickerProperties {
  import opened Wrappers
  import opened Calendar
  import opened DateFns
  import opened DateRangePicker

  // ---------------------------------------------------------------- grid

  /** Six rows of Sunday-to-Saturday weeks of consecutive midnights, from the Sunday on or before the first. */
  lemma GridWeeks(moment: Instant)
    ensures |CalendarGrid(moment)| == GridSize
    ensures var first := StartOfMonth(moment);
            forall k :: 0 <= k < GridSize ==> CalendarGrid(moment)[k].day == first.day - GetDay(first) + k
    ensures forall k :: 0 <= k < GridSize ==>
              CalendarGrid(moment)[k].ms == 0 && GetDay(CalendarGrid(moment)[k]) == k % 7
    ensures forall k :: 0 <= k < GridSize - 1 ==>
              CalendarGrid(moment)[k + 1].day == CalendarGrid(moment)[k].day + 1
  {
    var first := StartOfMonth(moment);
    var g := GetDay(first);
    forall k | 0 <= k < GridSize
      ensures CalendarGrid(moment)[k].day == first.day - g + k
      ensures CalendarGrid(moment)[k].ms == 0 && GetDay(CalendarGrid(moment)[k]) == k % 7
    {
      assert CalendarGrid(moment)[k] == AddDays(first, k - g);
      WeekdayShift(first.day, k - g);
    }
  }

  /** The first cell is a Sunday and the last a Saturday. */
  lemma GridEnds(moment: Instant)
    ensures GetDay(CalendarGrid(moment)[0]) == 0
    ensures GetDay(CalendarGrid(moment)[GridSize - 1]) == 6
  {
    GridWeeks(moment);
  }

  /** Every day of the displayed month is in the grid, the first of the month at the column of its weekday. */
  lemma GridCoversMonth(moment: Instant)
    ensures var first := StartOfMonth(moment);
            forall d :: 1 <= d <= DaysInMonth(GetFullYear(moment), GetMonth(moment)) ==>
              GetDay(first) + d - 1 < GridSize &&
              CalendarGrid(moment)[GetDay(first) + d - 1] == OfDate(Date(GetFullYear(moment), GetMonth(moment), d), 0)
  {
    var first := StartOfMonth(moment);
    var y, m := GetFullYear(moment), GetMonth(moment);
    forall d | 1 <= d <= DaysInMonth(y, m)
      ensures CalendarGrid(moment)[GetDay(first) + d - 1] == OfDate(Date(y, m, d), 0)
    {
      assert CalendarGrid(moment)[GetDay(first) + d - 1] == AddDays(first, d - 1);
      assert DayNumber(Date(y, m, d)) == DayNumber(Date(y, m, 1)) + d - 1;
    }
  }

  /** A cell shows a day of the displayed month exactly when it lies in the run that starts at the first. */
  lemma GridInMonthExactly(moment: Instant)
    ensures var g, n := GetDay(StartOfMonth(moment)), DaysInMonth(GetFullYear(moment), GetMonth(moment));
            forall k :: 0 <= k < GridSize ==> (SameMonth(CalendarGrid(moment)[k], moment) <==> g <= k < g + n)
  {
    var first := StartOfMonth(moment);
    var y, m := GetFullYear(moment), GetMonth(moment);
    var g, n := GetDay(first), DaysInMonth(y, m);
    GridWeeks(moment);
    forall k | 0 <= k < GridSize
      ensures SameMonth(CalendarGrid(moment)[k], moment) <==> g <= k < g + n
    {
      var cell := CalendarGrid(moment)[k];
      if k < g {
        assert cell.day < DayNumber(Date(y, m, 1));
        DayNumberOrder(CalendarDate(cell), Date(y, m, 1));
      } else if k < g + n {
        var d := k - g + 1;
        assert DayNumber(Date(y, m, d)) == DayNumber(Date(y, m, 1)) + d - 1 == cell.day;
        DateOfDayNumber(Date(y, m, d));
      } else {
        assert DayNumber(Date(y, m, n)) == DayNumber(Date(y, m, 1)) + n - 1;
        assert DayNumber(Date(y, m, n)) < cell.day;
        DayNumberOrder(Date(y, m, n), CalendarDate(cell));
      }
    }
  }

  /** The grid depends on the month of `moment` only, and determines it. */
  lemma GridDeterminesMonth(a: Instant, b: Instant)
    ensures CalendarGrid(a) == CalendarGrid(b) <==> SameMonth(a, b)
  {
    if CalendarGrid(a) == CalendarGrid(b) {
      GridInMonthExactly(a);
      GridInMonthExactly(b);
      assert SameMonth(CalendarGrid(a)[6], a) && SameMonth(CalendarGrid(b)[6], b);
    }
  }

  // ---------------------------------------------------------------- navigation

  /** Next then previous month, or previous then next, returns to the same month and the same grid. */
  lemma NavigationRoundTrip(t: Instant)
    ensures SameMonth(AddMonths(AddMonths(t, 1), -1), t)
    ensures SameMonth(AddMonths(AddMonths(t, -1), 1), t)
    ensures CalendarGrid(AddMonths(AddMonths(t, 1), -1)) == CalendarGrid(t)
    ensures CalendarGrid(AddMonths(AddMonths(t, -1), 1)) == CalendarGrid(t)
  {
    SameMonthIndex(AddMonths(AddMonths(t, 1), -1), t);
    SameMonthIndex(AddMonths(AddMonths(t, -1), 1), t);
    GridDeterminesMonth(AddMonths(AddMonths(t, 1), -1), t);
    GridDeterminesMonth(AddMonths(AddMonths(t, -1), 1), t);
  }

  /** The round trip need not restore the displayed day: from 31 January it comes back on the last day of February's length. */
  lemma NavigationClampsDay(t: Instant)
    requires GetMonth(t) == 1 && GetDate(t) == 31
    ensures var y, feb := GetFullYear(t), DaysInMonth(GetFullYear(t), 2);
            CalendarDate(AddMonths(t, 1)) == Date(y, 2, feb) &&
            CalendarDate(AddMonths(AddMonths(t, 1), -1)) == Date(y, 1, feb) &&
            feb < 31
  {
    var y := GetFullYear(t);
    var u := AddMonths(t, 1);
    assert CalendarDate(u) == Date(y, 2, DaysInMonth(y, 2));
  }

  /** Moving by a month changes the month index by one and keeps the time of day. */
  lemma NavigationSteps(t: Instant)
    ensures MonthIndex(AddMonths(t, 1)) == MonthIndex(t) + 1 && AddMonths(t, 1).ms == t.ms
    ensures MonthIndex(AddMonths(t, -1)) == MonthIndex(t) - 1 && AddMonths(t, -1).ms == t.ms
    ensures !SameMonth(AddMonths(t, 1), t) && !SameMonth(AddMonths(t, -1), t)
  {
    SameMonthIndex(AddMonths(t, 1), t);
    SameMonthIndex(AddMonths(t, -1), t);
  }

  // ---------------------------------------------------------------- presets

  /** Every preset starts at a midnight, ends at 23:59:59.999 and starts before it ends. */
  lemma PresetShape(code: string, today: Instant)
    ensures PresetRange(code, today).from.ms == 0
    ensures PresetRange(code, today).to.ms == MsPerDay - 1
    ensures GetTime(PresetRange(code, today).from) < GetTime(PresetRange(code, today).to)
  {
    var r := PresetRange(code, today);
    DayNumberOrder(CalendarDate(r.from), CalendarDate(r.to));
    TimeOrder(r.from, r.to);
  }

  /** The "this week", "this month" and "this year" presets contain the current instant. */
  lemma ThisPresetsContainToday(today: Instant)
    ensures var r := PresetRange("tw", today); GetTime(r.from) <= GetTime(today) <= GetTime(r.to)
    ensures var r := PresetRange("tm", today); GetTime(r.from) <= GetTime(today) <= GetTime(r.to)
    ensures var r := PresetRange("ty", today); GetTime(r.from) <= GetTime(today) <= GetTime(r.to)
  {
    PeriodBounds(today);
    assert PresetRange("tm", today) == Interval(StartOfMonth(today), EndOfMonth(today));
    assert PresetRange("ty", today) == Interval(StartOfYear(today), EndOfYear(today));
    assert PresetRange("tw", today) == Interval(StartOfWeek(today), EndOfWeek(today));
  }

  /** A week span runs from a Sunday to the Saturday six days later when it starts on a Sunday. */
  lemma WeekSpanShape(sunday: int)
    requires (sunday + 4) % 7 == 0
    ensures var r := WeekSpan(sunday);
            GetDay(r.from) == 0 && GetDay(r.to) == 6 && r.to.day == r.from.day + 6
  {
    WeekdayShift(sunday, 6);
  }

  /** The span of the week before is the span of this week moved back seven days. */
  lemma WeekSpanShift(sunday: int)
    ensures WeekSpan(sunday - 7).from == AddDays(WeekSpan(sunday).from, -7)
    ensures WeekSpan(sunday - 7).to == AddDays(WeekSpan(sunday).to, -7)
  {
  }

  /** The week presets run from a Sunday to the following Saturday; last week is this week moved back seven days. */
  lemma WeekPresets(today: Instant)
    ensures var r := PresetRange("tw", today);
            GetDay(r.from) == 0 && GetDay(r.to) == 6 && r.to.day == r.from.day + 6
    ensures PresetRange("lw", today).from == AddDays(PresetRange("tw", today).from, -7)
    ensures PresetRange("lw", today).to == AddDays(PresetRange("tw", today).to, -7)
  {
    var sunday := today.day - GetDay(today);
    assert PresetRange("tw", today) == WeekSpan(sunday);
    assert PresetRange("lw", today) == WeekSpan(sunday - 7);
    WeekdayShift(today.day, -GetDay(today));
    WeekSpanShape(sunday);
    WeekSpanShift(sunday);
  }

  /** Last month is the month before the month of today, from its first to its last day. */
  lemma LastMonthPreset(today: Instant)
    ensures var r := PresetRange("lm", today);
            MonthIndex(r.from) == MonthIndex(today) - 1 && SameMonth(r.from, r.to) &&
            GetDate(r.from) == 1 && GetDate(r.to) == DaysInMonth(GetFullYear(r.to), GetMonth(r.to))
  {
  }

  /** This month runs from the first to the last day of the month of today. */
  lemma ThisMonthPreset(today: Instant)
    ensures var r := PresetRange("tm", today);
            SameMonth(r.from, today) && SameMonth(r.to, today) &&
            GetDate(r.from) == 1 && GetDate(r.to) == DaysInMonth(GetFullYear(today), GetMonth(today))
  {
  }

  /** This year and last year run from 1 January to 31 December of the year of today and of the year before. */
  lemma YearPresets(today: Instant)
    ensures var r := PresetRange("ty", today);
            CalendarDate(r.from) == Date(GetFullYear(today), 1, 1) && CalendarDate(r.to) == Date(GetFullYear(today), 12, 31)
    ensures var r := PresetRange("ly", today);
            CalendarDate(r.from) == Date(GetFullYear(today) - 1, 1, 1) && CalendarDate(r.to) == Date(GetFullYear(today) - 1, 12, 31)
  {
  }

  /** A code outside the six presets selects this week, as the switch's default falls through to it. */
  lemma UnknownCodeIsThisWeek(code: string, today: Instant)
    requires code != "tm" && code != "lm" && code != "tw" && code != "lw" && code != "ty" && code != "ly"
    ensures PresetRange(code, today) == PresetRange("tw", today)
  {
  }

  // ---------------------------------------------------------------- selection

  /** Selecting the same date again changes nothing further. */
  lemma SelectIdempotent(mode: Opened, current: DateRange, date: Instant)
    ensures Selected(mode, Selected(mode, current, date), date) == Selected(mode, current, date)
  {
  }

  /** When both endpoints are set, from lies strictly before to. */
  predicate Ordered(r: DateRange) {
    r.from.Some? && r.to.Some? ==> GetTime(r.from.value) < GetTime(r.to.value)
  }

  /** Selections keep the endpoints ordered, and an open selection orders them whatever they were before. */
  lemma SelectKeepsOrder(mode: Opened, current: DateRange, date: Instant)
    ensures Ordered(current) ==> Ordered(Selected(mode, current, date))
    ensures mode != Closed ==> Ordered(Selected(mode, current, date))
  {
  }

  // ---------------------------------------------------------------- a concrete day

  /** Wednesday 12 June 2024 at 10:00, the instant the scenario lemmas below start from. */
  function JuneTwelfth(): Instant {
    OfDate(Date(2024, 6, 12), 36000000)
  }

  /** On Wednesday 12 June 2024 this week runs from Sunday 9 June to Saturday 15 June. */
  lemma June2024ThisWeek()
    ensures PresetRange("tw", JuneTwelfth())
            == Interval(OfDate(Date(2024, 6, 9), 0), OfDate(Date(2024, 6, 15), MsPerDay - 1))
  {
    YearStart2024();
    assert JuneTwelfth().day == 19886;
    assert GetDay(JuneTwelfth()) == 3;
    assert PresetRange("tw", JuneTwelfth()) == WeekSpan(19883);
  }

  /** The June 2024 grid runs from Sunday 26 May to Saturday 6 July. */
  lemma June2024Grid()
    ensures CalendarGrid(JuneTwelfth())[0] == OfDate(Date(2024, 5, 26), 0)
    ensures CalendarGrid(JuneTwelfth())[GridSize - 1] == OfDate(Date(2024, 7, 6), 0)
  {
    YearStart2024();
    var first := StartOfMonth(JuneTwelfth());
    assert first.day == 19875;
    assert GetDay(first) == 6;
    assert CalendarGrid(JuneTwelfth())[0] == AddDays(first, -6);
    assert CalendarGrid(JuneTwelfth())[GridSize - 1] == AddDays(first, 35);
  }
}
