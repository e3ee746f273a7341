/**
 * DateRangePickerComponent: a from/to date picker with a three-state
 * open/close machine, preset ranges (this/last week, month, year), a
 * 42-cell calendar grid of the displayed month, endpoint selection that
 * keeps from before to, month navigation and the predicates the view uses.
 */
module DateRangePicker {
  import opened Wrappers
  import opened Calendar
  import opened DateFns

  /** Which endpoint the calendar is open for: `false`, `'from'` or `'to'`. */
  datatype Opened = Closed | OpenFrom | OpenTo

  /** The payload of a `dateRangeChange` event; an endpoint cleared by a selection is null. */
  datatype DateRange = DateRange(from: Option<Instant>, to: Option<Instant>)

  /** The from and to instants a preset range sets. */
  datatype Interval = Interval(from: Instant, to: Instant)

  /** The open/close state machine: toggling from `current` towards `selection`. */
  function Toggled(current: Opened, selection: Opened): (r: Opened)
    ensures r == Closed <==> selection == Closed || selection == current
    ensures r != Closed ==> r == selection
  {
    match (current, selection)
    case (Closed, _) => selection
    case (OpenFrom, OpenFrom) => Closed
    case (OpenTo, OpenTo) => Closed
    case (_, _) => selection
  }

  /**
   * The displayed instant after opening the calendar for an endpoint at
   * `target`: moved by whole calendar months into the month of `target`.
   */
  function MonthSynced(moment: Instant, target: Instant): Instant {
    var diffMonths := DifferenceInCalendarMonths(target, moment);
    if diffMonths != 0 then AddMonths(moment, diffMonths) else moment
  }

  /** Syncing lands in the month of the target, and moves the displayed instant only when it is in another month. */
  lemma MonthSyncedInTargetMonth(moment: Instant, target: Instant)
    ensures SameMonth(MonthSynced(moment, target), target)
    ensures SameMonth(moment, target) ==> MonthSynced(moment, target) == moment
    ensures !SameMonth(moment, target) ==>
              MonthSynced(moment, target) != moment && !SameMonth(MonthSynced(moment, target), moment)
    ensures MonthSynced(moment, target).ms == moment.ms
  {
    AddDifferenceInCalendarMonths(target, moment);
  }

  /**
   * The displayed instant the source computes on opening the calendar for an
   * endpoint that may have been cleared: date-fns reads the null endpoint as
   * time value 0.
   */
  function MonthSyncedAsWritten(moment: Instant, endpoint: Option<Instant>): Instant {
    MonthSynced(moment, ParseNullable(endpoint))
  }

  /**
   * Picking a 'to' date at or before from clears from; opening the calendar
   * for 'from' afterwards then shows January 1970, whatever was displayed.
   */
  lemma ClearedFromShowsJanuary1970(moment: Instant, current: DateRange, date: Instant)
    requires current.from.Some? && GetTime(date) <= GetTime(current.from.value)
    ensures Selected(OpenTo, current, date).from.None?
    ensures var shown := MonthSyncedAsWritten(moment, Selected(OpenTo, current, date).from);
            GetFullYear(shown) == 1970 && GetMonth(shown) == 1
  {
    MonthSyncedInTargetMonth(moment, ParseNullable(None));
  }

  /**
   * The displayed instant on opening the calendar for an endpoint: moved into
   * the endpoint's month when it is present, left alone when it was cleared.
   */
  function SyncedMoment(moment: Instant, endpoint: Option<Instant>): Instant {
    if endpoint.Some? then MonthSynced(moment, endpoint.value) else moment
  }

  /** Opening for a cleared endpoint keeps the displayed month; otherwise the endpoint's month is shown. */
  lemma SyncedMomentFollowsEndpoint(moment: Instant, endpoint: Option<Instant>)
    ensures endpoint.None? ==> SyncedMoment(moment, endpoint) == moment
    ensures endpoint.Some? ==> SameMonth(SyncedMoment(moment, endpoint), endpoint.value)
    ensures endpoint.Some? && SameMonth(moment, endpoint.value) ==> SyncedMoment(moment, endpoint) == moment
    ensures SyncedMoment(moment, endpoint).ms == moment.ms
  {
    if endpoint.Some? {
      MonthSyncedInTargetMonth(moment, endpoint.value);
    }
  }

  const GridSize: nat := 42

  /** Six weeks of midnights starting on the Sunday on or before the first of the month of `moment`. */
  function CalendarGrid(moment: Instant): seq<Instant> {
    var first := StartOfMonth(moment);
    seq<Instant>(GridSize, k => AddDays(first, k - GetDay(first)))
  }

  /** From the first of the month at 00:00 to its last day at 23:59:59.999. */
  function MonthSpan(y: int, m: int): (r: Interval)
    requires 1 <= m <= 12
  {
    Interval(OfDate(Date(y, m, 1), 0), OfDate(Date(y, m, DaysInMonth(y, m)), MsPerDay - 1))
  }

  /** From 1 January at 00:00 to 31 December at 23:59:59.999. */
  function YearSpan(y: int): (r: Interval) {
    Interval(OfDate(Date(y, 1, 1), 0), OfDate(Date(y, 12, 31), MsPerDay - 1))
  }

  /** From the given Sunday at 00:00 to the following Saturday at 23:59:59.999. */
  function WeekSpan(sunday: int): (r: Interval) {
    Interval(DateTime(sunday, 0), DateTime(sunday + 6, MsPerDay - 1))
  }

  /**
   * What each preset code selects, in calendar terms: this or the previous
   * month, year or Sunday-to-Saturday week of `today`; an unrecognised code
   * selects this week.
   */
  function PresetRange(code: string, today: Instant): Interval {
    var y, m := GetFullYear(today), GetMonth(today);
    var sunday := today.day - GetDay(today);
    if code == "tm" then MonthSpan(y, m)
    else if code == "lm" then (if m == 1 then MonthSpan(y - 1, 12) else MonthSpan(y, m - 1))
    else if code == "ty" then YearSpan(y)
    else if code == "ly" then YearSpan(y - 1)
    else if code == "lw" then WeekSpan(sunday - 7)
    else WeekSpan(sunday)
  }

  /** The endpoints after selecting `date` while the calendar is in state `mode`. */
  function Selected(mode: Opened, current: DateRange, date: Instant): (r: DateRange)
    ensures mode == Closed ==> r == current
    ensures mode == OpenFrom ==> r.from == Some(date) && (r.to.Some? ==> r.to == current.to)
    ensures mode == OpenFrom ==>
              (r.to.None? <==> current.to.None? || GetTime(current.to.value) <= GetTime(date))
    ensures mode == OpenTo ==> r.to == Some(date) && (r.from.Some? ==> r.from == current.from)
    ensures mode == OpenTo ==>
              (r.from.None? <==> current.from.None? || GetTime(date) <= GetTime(current.from.value))
    ensures mode != Closed && r.from.Some? && r.to.Some? ==> GetTime(r.from.value) < GetTime(r.to.value)
  {
    match mode
    case Closed => current
    case OpenFrom =>
      DateRange(Some(date), if current.to.Some? && GetTime(date) >= GetTime(current.to.value) then None else current.to)
    case OpenTo =>
      DateRange(if current.from.Some? && GetTime(date) <= GetTime(current.from.value) then None else current.from, Some(date))
  }

  /**
   * The interval the preset switch computes with the date-fns helpers: from
   * the start of today, or of the same time one month, one year or one week
   * before, to the end of the enclosing month, year or week.
   */
  function PresetSwitch(code: string, now: Instant): Interval {
    var today := StartOfDay(now);
    if code == "lm" || code == "tm" then
      var day := if code == "lm" then SubMonths(today, 1) else today;
      Interval(StartOfMonth(day), EndOfMonth(day))
    else if code == "ly" || code == "ty" then
      var day := if code == "ly" then SubYears(today, 1) else today;
      Interval(StartOfYear(day), EndOfYear(day))
    else
      var day := if code == "lw" then SubWeeks(today, 1) else today;
      Interval(StartOfWeek(day), EndOfWeek(day))
  }

  /** One month before a day of January is in December of the year before; otherwise in the month before, same year. */
  lemma MonthBefore(t: Instant)
    ensures var before := SubMonths(t, 1);
            if GetMonth(t) == 1 then GetFullYear(before) == GetFullYear(t) - 1 && GetMonth(before) == 12
            else GetFullYear(before) == GetFullYear(t) && GetMonth(before) == GetMonth(t) - 1
  {
    var before := SubMonths(t, 1);
    if GetMonth(t) == 1 {
      YearMonthFromIndex(GetFullYear(before), GetMonth(before), GetFullYear(t) - 1, 12);
    } else {
      YearMonthFromIndex(GetFullYear(before), GetMonth(before), GetFullYear(t), GetMonth(t) - 1);
    }
  }

  /** The month presets: the start and end of the month of today, or of the month before it. */
  lemma MonthPresetSteps(code: string, now: Instant)
    requires code == "lm" || code == "tm"
    ensures var day := if code == "lm" then SubMonths(StartOfDay(now), 1) else StartOfDay(now);
            Interval(StartOfMonth(day), EndOfMonth(day)) == PresetRange(code, now)
  {
    var y, m := GetFullYear(now), GetMonth(now);
    if code == "lm" {
      MonthBefore(StartOfDay(now));
      if m == 1 {
        assert PresetRange(code, now) == MonthSpan(y - 1, 12);
      } else {
        assert PresetRange(code, now) == MonthSpan(y, m - 1);
      }
    } else {
      assert PresetRange(code, now) == MonthSpan(y, m);
    }
  }

  /** The year presets: the start and end of the year of today, or of the year before it. */
  lemma YearPresetSteps(code: string, now: Instant)
    requires code == "ly" || code == "ty"
    ensures var day := if code == "ly" then SubYears(StartOfDay(now), 1) else StartOfDay(now);
            Interval(StartOfYear(day), EndOfYear(day)) == PresetRange(code, now)
  {
    var y := GetFullYear(now);
    if code == "ly" {
      assert PresetRange(code, now) == YearSpan(y - 1);
      assert GetFullYear(SubYears(StartOfDay(now), 1)) == y - 1;
    } else {
      assert PresetRange(code, now) == YearSpan(y);
    }
  }

  /** The week presets: the start and end of the week of today, or of the same day a week earlier. */
  lemma WeekPresetSteps(code: string, now: Instant)
    requires code != "tm" && code != "lm" && code != "ty" && code != "ly"
    ensures var day := if code == "lw" then SubWeeks(StartOfDay(now), 1) else StartOfDay(now);
            Interval(StartOfWeek(day), EndOfWeek(day)) == PresetRange(code, now)
  {
    var thisSunday := now.day - GetDay(now);
    if code == "lw" {
      assert PresetRange(code, now) == WeekSpan(thisSunday - 7);
      var day := SubWeeks(StartOfDay(now), 1);
      assert day.day - GetDay(day) == thisSunday - 7;
    } else {
      assert PresetRange(code, now) == WeekSpan(thisSunday);
    }
  }

  /** The switch selects, for every code, the calendar period `PresetRange` describes. */
  lemma PresetSwitchMeaning(code: string, now: Instant)
    ensures PresetSwitch(code, now) == PresetRange(code, now)
  {
    if code == "lm" || code == "tm" {
      MonthPresetSteps(code, now);
    } else if code == "ly" || code == "ty" {
      YearPresetSteps(code, now);
    } else {
      WeekPresetSteps(code, now);
    }
  }

  class DateRangePickerComponent {
    var openState: Opened
    /** The last preset code applied; absent until one is. */
    var range: Option<string>
    /** An instant in the displayed month. */
    var moment: Instant
    var dates: seq<Instant>
    var fromDate: Option<Instant>
    var toDate: Option<Instant>
    /** Every dateRangeChange event emitted so far, oldest first. */
    var events: seq<DateRange>

    /** The grid shows the displayed month. */
    predicate Valid()
      reads this
    {
      dates == CalendarGrid(moment)
    }

    /** The component as the host creates it, with the bound from and to inputs. */
    constructor (fromInput: Option<Instant>, toInput: Option<Instant>)
      ensures fromDate == fromInput && toDate == toInput
      ensures openState == Closed && range == None && dates == [] && events == []
    {
      openState := Closed;
      range := None;
      moment := DateTime(0, 0);
      dates := [];
      fromDate := fromInput;
      toDate := toInput;
      events := [];
    }

    method NgOnInit(now: Instant)
      modifies this
      ensures openState == Closed && Valid() && |dates| == GridSize
      ensures old(fromDate).Some? && old(toDate).Some? ==>
                fromDate == old(fromDate) && toDate == old(toDate) && moment == fromDate.value
                && range == old(range) && events == old(events)
      ensures !(old(fromDate).Some? && old(toDate).Some?) ==>
                fromDate == Some(PresetRange("tw", now).from) && toDate == Some(PresetRange("tw", now).to)
                && range == Some("tw") && moment == fromDate.value
                && events == old(events) + [DateRange(fromDate, toDate)]
    {
      openState := Closed;
      if fromDate.Some? && toDate.Some? {
        moment := fromDate.value;
        GenerateCalendar();
      } else {
        SelectRange("tw", now);
        PresetSwitchMeaning("tw", now);
      }
    }

    method ToggleCalendar(selection: Opened)
      modifies this`openState, this`moment, this`dates
      ensures openState == Toggled(old(openState), selection)
      ensures moment == match selection
                        case Closed => old(moment)
                        case OpenFrom => SyncedMoment(old(moment), fromDate)
                        case OpenTo => SyncedMoment(old(moment), toDate)
      ensures dates == if moment == old(moment) then old(dates) else CalendarGrid(moment)
      ensures selection == OpenFrom && fromDate.Some? ==> SameMonth(moment, fromDate.value)
      ensures selection == OpenTo && toDate.Some? ==> SameMonth(moment, toDate.value)
      ensures old(Valid()) ==> Valid()
    {
      if openState != Closed && openState != selection {
        openState := selection;
      } else {
        openState := if openState != Closed then Closed else selection;
      }
      if selection != Closed {
        var selDate := fromDate;
        if selection == OpenTo {
          selDate := toDate;
        }
        if selDate.Some? {
          SyncedMomentFollowsEndpoint(moment, selDate);
          var diffMonths := DifferenceInCalendarMonths(selDate.value, moment);
          if diffMonths != 0 {
            moment := AddMonths(moment, diffMonths);
            GenerateCalendar();
          }
        }
      }
    }

    method SelectRange(code: string, now: Instant)
      modifies this`fromDate, this`toDate, this`range, this`moment, this`dates, this`events
      ensures fromDate == Some(PresetSwitch(code, now).from) && toDate == Some(PresetSwitch(code, now).to)
      ensures range == Some(code) && moment == fromDate.value && Valid()
      ensures events == old(events) + [DateRange(fromDate, toDate)]
    {
      var today := StartOfDay(now);
      if code == "lm" || code == "tm" {
        if code == "lm" {
          today := SubMonths(today, 1);
        }
        fromDate := Some(StartOfMonth(today));
        toDate := Some(EndOfMonth(today));
      } else if code == "ly" || code == "ty" {
        if code == "ly" {
          today := SubYears(today, 1);
        }
        fromDate := Some(StartOfYear(today));
        toDate := Some(EndOfYear(today));
      } else {
        // 'lw' falls through to 'tw', and so does any other code, through default
        if code == "lw" {
          today := SubWeeks(today, 1);
        }
        fromDate := Some(StartOfWeek(today));
        toDate := Some(EndOfWeek(today));
      }
      range := Some(code);
      moment := fromDate.value;
      GenerateCalendar();
      EmitChange();
    }

    method GenerateCalendar()
      modifies this`dates
      ensures dates == CalendarGrid(moment)
    {
      dates := [];
      var firstDate := StartOfMonth(moment);
      var start := 0 - (GetDay(firstDate) + 7) % 7;
      var end := 41 + start;
      for i := start to end + 1
        invariant |dates| == i - start
        invariant forall k :: 0 <= k < |dates| ==> dates[k] == AddDays(firstDate, start + k)
      {
        var day := AddDays(firstDate, i);
        dates := dates + [day];
      }
      assert start == -GetDay(firstDate);
      assert forall k :: 0 <= k < GridSize ==> dates[k] == CalendarGrid(moment)[k];
    }

    method SelectDate(date: Instant)
      modifies this`fromDate, this`toDate, this`events
      ensures DateRange(fromDate, toDate) == Selected(openState, DateRange(old(fromDate), old(toDate)), date)
      ensures events == old(events) + [DateRange(fromDate, toDate)]
      ensures old(Valid()) ==> Valid()
    {
      if openState == OpenFrom {
        fromDate := Some(date);
        if toDate.Some? && CompareDesc(date, toDate.value) < 1 {
          toDate := None;
        }
      }
      if openState == OpenTo {
        toDate := Some(date);
        if fromDate.Some? && CompareAsc(date, fromDate.value) < 1 {
          fromDate := None;
        }
      }
      EmitChange();
    }

    method EmitChange()
      modifies this`events
      ensures events == old(events) + [DateRange(fromDate, toDate)]
    {
      events := events + [DateRange(fromDate, toDate)];
    }

    method PrevMonth()
      modifies this`moment, this`dates
      ensures moment == AddMonths(old(moment), -1) && Valid()
    {
      moment := AddMonths(moment, -1);
      GenerateCalendar();
    }

    method NextMonth()
      modifies this`moment, this`dates
      ensures moment == AddMonths(old(moment), 1) && Valid()
    {
      moment := AddMonths(moment, 1);
      GenerateCalendar();
    }

    /** The effect of a click outside the component. */
    method Close()
      modifies this`openState
      ensures openState == Closed
      ensures old(Valid()) ==> Valid()
    {
      openState := Closed;
    }

    function IsWithinRange(day: Instant): (r: Result<bool>)
      reads this
      ensures fromDate.None? || toDate.None? ==> r == Ok(false)
      ensures fromDate.Some? && toDate.Some? ==> (r.Err? <==> GetTime(fromDate.value) > GetTime(toDate.value))
      ensures r == Ok(true) <==>
                fromDate.Some? && toDate.Some? && GetTime(fromDate.value) <= GetTime(day) <= GetTime(toDate.value)
    {
      if fromDate.Some? && toDate.Some? then DateFns.IsWithinRange(day, fromDate.value, toDate.value)
      else Ok(false)
    }

    /** Whether `day` is the from day; a cleared from reads as 1 January 1970. */
    function IsDateRangeFrom(day: Instant): (r: bool)
      reads this
      ensures fromDate.Some? ==> (r <==> CalendarDate(day) == CalendarDate(fromDate.value))
      ensures fromDate.None? ==> (r <==> CalendarDate(day) == Date(1970, 1, 1))
    {
      IsSameDay(day, ParseNullable(fromDate))
    }

    /** Whether `day` is the to day; a cleared to reads as 1 January 1970. */
    function IsDateRangeTo(day: Instant): (r: bool)
      reads this
      ensures toDate.Some? ==> (r <==> CalendarDate(day) == CalendarDate(toDate.value))
      ensures toDate.None? ==> (r <==> CalendarDate(day) == Date(1970, 1, 1))
    {
      IsSameDay(day, ParseNullable(toDate))
    }
  }

}
