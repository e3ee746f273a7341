# DateRangePicker — a verified model of the date range picker component

This project models `DateRangePickerComponent`, an Angular from/to date
picker, together with the `date-fns` (version 1) helpers it calls.

The component is modelled as a Dafny class whose methods update its fields:
- `openState`, the source's `opened`, renamed because `opened` is a Dafny keyword;
- `range`, `moment`, `dates`, `fromDate` and `toDate`;
- `events`, a log of every `dateRangeChange` payload emitted.

The component's main parts:
- a three-state open/close machine;
- preset ranges: this or last week, month or year, with the switch's deliberate fall-through;
- a 42-cell calendar grid of the displayed month;
- endpoint selection that keeps from before to;
- month navigation;
- the in-range and endpoint predicates the view uses.

Files:
- `wrappers.dfy`: `Option` and `Result`.
- `calendar.dfy`: module `Calendar`, the proleptic Gregorian calendar.
  - Conversion between a date (year, month 1..12, day) and its day number, counted from 1 January 1970.
  - `DateOf` and `DateOfDayNumber` give the round trip, and `DayNumberOrder` says that day numbers order dates lexicographically.
- `date_fns.dfy`: module `DateFns`. A JavaScript `Date` is a day number plus the milliseconds since that day's midnight.
  - `GetTime` and `FromTime` convert to and from the millisecond time value JavaScript stores. They are inverse (`TimeRoundTrip`).
  - `CalendarDate` and `OfDate` convert between a `Date` and its calendar date.
  - Every day has 86,400,000 ms, and day 0 is a Thursday.
  - Months are 1..12 in the model. JavaScript's `getMonth()` is this value minus one.
  - `isWithinRange` throws when the start is after the end. It is modelled with `Result`, and `Err` carries date-fns's message.
- `date_range_picker.dfy`: module `DateRangePicker`. The component, plus the specification functions its methods are proved against:
  - `Toggled`: the open/close machine.
  - `MonthSynced`: the month snap on opening.
  - `CalendarGrid`: the grid.
  - `PresetSwitch`: what the `switch` computes.
  - `PresetRange`: the same presets in plain calendar terms, that is, which week, month or year.
  - `Selected`: endpoint selection.
- `picker_properties.dfy`: module `PickerProperties`. Lemmas about those functions, and two scenarios on Wednesday 12 June 2024.

Preset codes are strings, so a code outside the six named ones takes the
`default:` branch, as in the source, and selects this week. The clock
(`new Date()`) is the parameter `now`. The source leaves `moment`, `dates` and
`range` undefined until `ngOnInit` runs. The model starts them at `DateTime(0, 0)`
(1 January 1970), `[]` and `None` instead. Nothing before `ngOnInit` reads them. The constructor takes the two bound `@Input` dates.

`selectDate` can clear an endpoint to `null`, which date-fns reads as time
value 0. `ParseNullable` models that reading, and `IsDateRangeFrom`/`IsDateRangeTo`
follow the source. The sync on opening the calendar for a cleared endpoint
is a defect of the source, recorded under "## Findings". The component's
`ToggleCalendar` uses the corrected `SyncedMoment`. `MonthSyncedAsWritten`
keeps the source's version.

## Model

| member | source | states |
|---|---|---|
| DateFns.FromTime | src/lib/date-range-picker.component.ts:121 | `new Date(time)` has time value `time` |
| DateFns.TimeRoundTrip | src/lib/date-range-picker.component.ts:53 | copying a `Date` through its time value gives the same instant; time values and instants are in one-to-one correspondence |
| DateFns.TimeOrder | src/lib/date-range-picker.component.ts:143 | time values order instants by day, then by time of day; equal time values mean the same instant |
| DateFns.GetDay | src/lib/date-range-picker.component.ts:129 | the weekday is 0..6, 0 being Sunday |
| DateFns.KnownWeekdays | src/lib/date-range-picker.component.ts:129 | 12 June 2024 is a Wednesday (3) and 1 January 1970 a Thursday (4) |
| DateFns.StartOfDay | src/lib/date-range-picker.component.ts:95 | same calendar date at 00:00; at or before the instant, less than a day before |
| DateFns.AddDays | src/lib/date-range-picker.component.ts:133 | `amount` days later at the same time of day: time value grows by `amount` days and the weekday shifts by `amount` mod 7 |
| DateFns.SubWeeks | src/lib/date-range-picker.component.ts:106 | 7·`amount` days earlier, same weekday, same time of day |
| DateFns.StartOfMonth | src/lib/date-range-picker.component.ts:101 | the first of the instant's month at 00:00 |
| DateFns.EndOfMonth | src/lib/date-range-picker.component.ts:102 | the last day of the instant's month at 23:59:59.999 |
| DateFns.StartOfWeek | src/lib/date-range-picker.component.ts:109 | the Sunday on or before the instant at 00:00, less than 7 days before it |
| DateFns.EndOfWeek | src/lib/date-range-picker.component.ts:110 | the Saturday on or after the instant at 23:59:59.999, less than 7 days after it |
| DateFns.WeekBounds | src/lib/date-range-picker.component.ts:109-110 | a week spans exactly 7 days less one millisecond |
| DateFns.StartOfYear | src/lib/date-range-picker.component.ts:115 | 1 January of the instant's year at 00:00 |
| DateFns.EndOfYear | src/lib/date-range-picker.component.ts:116 | 31 December of the instant's year at 23:59:59.999 |
| DateFns.PeriodBounds | src/lib/date-range-picker.component.ts:100-116 | start of year ≤ start of month ≤ start of day ≤ instant ≤ end of month ≤ end of year |
| DateFns.AddMonths | src/lib/date-range-picker.component.ts:88 | month index moves by `amount`; the day of month is kept or clamped to the target month's length; same time of day |
| DateFns.SubMonths | src/lib/date-range-picker.component.ts:99 | month index moves back by `amount`, same time of day |
| DateFns.SubYears | src/lib/date-range-picker.component.ts:113 | year moves back by `amount`, same month, same time of day |
| DateFns.AddDifferenceInCalendarMonths | src/lib/date-range-picker.component.ts:84-88 | adding the calendar-month difference lands in the target's month; the difference is 0 exactly when the months agree |
| DateFns.DifferenceInCalendarMonths | src/lib/date-range-picker.component.ts:84-85 | `differenceInCalendarMonths`: the number of calendar months from `right`'s month to `left`'s; its properties are in `AddDifferenceInCalendarMonths` |
| DateFns.IsSameDay | src/lib/date-range-picker.component.ts:189 | true exactly when both instants have the same calendar date |
| DateFns.CompareAsc | src/lib/date-range-picker.component.ts:151 | `< 1` exactly when left ≤ right; 0 exactly when equal |
| DateFns.CompareDesc | src/lib/date-range-picker.component.ts:143 | `< 1` exactly when left ≥ right; 0 exactly when equal |
| DateFns.EpochDate | src/lib/date-range-picker.component.ts:189 | time value 0 is 1 January 1970 at 00:00 |
| DateFns.ParseNullable | src/lib/date-range-picker.component.ts:189 | a present `Date` argument is used as is; a null one reads as time value 0, the calendar date 1 January 1970 |
| DateFns.IsWithinRange | src/lib/date-range-picker.component.ts:185 | an error exactly when start > end; true exactly when start ≤ instant ≤ end, so both ends are included |
| DateRangePicker.Toggled | src/lib/date-range-picker.component.ts:73-78 | the state closes exactly when `false` is passed or the open endpoint is toggled again; otherwise it becomes the selection, so closed opens and an open endpoint switches |
| DateRangePicker.MonthSynced | src/lib/date-range-picker.component.ts:84-90 | the sync on opening: `addMonths` by the calendar-month difference when it is non-zero, else unchanged; its properties are in `MonthSyncedInTargetMonth` |
| DateRangePicker.MonthSyncedAsWritten | src/lib/date-range-picker.component.ts:79-91 | the source's sync for an endpoint that may be cleared, read through `ParseNullable`; `ClearedFromShowsJanuary1970` shows that a cleared one lands in January 1970 |
| DateRangePicker.SyncedMoment | src/lib/date-range-picker.component.ts:79-91 | the corrected sync used by `ToggleCalendar`: `MonthSynced` for a present endpoint, unchanged for a cleared one; its properties are in `SyncedMomentFollowsEndpoint` |
| DateRangePicker.CalendarGrid | src/lib/date-range-picker.component.ts:126-136 | the 42 midnights from the Sunday on or before the first of the month; its properties are in `GridWeeks`, `GridEnds`, `GridCoversMonth`, `GridInMonthExactly` and `GridDeterminesMonth` |
| DateRangePicker.PresetSwitch | src/lib/date-range-picker.component.ts:95-118 | the interval the fall-through switch computes with the date-fns steps; `PresetSwitchMeaning` equates it with the calendar-level `PresetRange` |
| DateRangePicker.MonthSyncedInTargetMonth | src/lib/date-range-picker.component.ts:79-91 | after syncing, the displayed instant is in the endpoint's month; it is unchanged when already there and otherwise moves to another month; time of day is kept |
| DateRangePicker.ClearedFromShowsJanuary1970 | src/lib/date-range-picker.component.ts:79-91 | as written: after a 'to' pick at or before from clears from (:148-152), opening 'from' syncs the displayed month to January 1970, whatever was shown |
| DateRangePicker.SyncedMomentFollowsEndpoint | src/lib/date-range-picker.component.ts:79-91 | corrected sync: a cleared endpoint keeps the displayed instant; a present one lands in its month, unchanged when already there; the time of day is kept |
| DateRangePicker.Selected | src/lib/date-range-picker.component.ts:138-154 | closed changes nothing; 'from' sets from and clears to exactly when the new date ≥ to; 'to' sets to and clears from exactly when the new date ≤ from; when both remain, from < to |
| DateRangePicker.MonthBefore | src/lib/date-range-picker.component.ts:99 | one month before January is December of the previous year, otherwise the previous month of the same year |
| DateRangePicker.MonthPresetSteps | src/lib/date-range-picker.component.ts:98-104 | 'tm' and 'lm' compute the first to the last day of this month or of the month before |
| DateRangePicker.YearPresetSteps | src/lib/date-range-picker.component.ts:112-117 | 'ty' and 'ly' compute 1 January to 31 December of this year or of the year before |
| DateRangePicker.WeekPresetSteps | src/lib/date-range-picker.component.ts:105-111 | 'lw', 'tw' and any other code compute the Sunday-to-Saturday week of today, or of the same day a week earlier |
| DateRangePicker.PresetSwitchMeaning | src/lib/date-range-picker.component.ts:97-118 | for every code, the fall-through switch yields the calendar period `PresetRange` names |
| DateRangePicker.DateRangePickerComponent.constructor | src/lib/date-range-picker.component.ts:34-46 | the component starts closed (the source leaves `opened` undefined, which every condition on it in the source (:74, :77, :140, :148) reads as `false`), with the bound from/to inputs, no preset, no grid and no events |
| DateRangePicker.DateRangePickerComponent.NgOnInit | src/lib/date-range-picker.component.ts:48-57 | closed and a 42-cell grid; with both inputs set they are kept, from's month is shown, nothing is emitted; otherwise this week is selected and one event is emitted |
| DateRangePicker.DateRangePickerComponent.ToggleCalendar | src/lib/date-range-picker.component.ts:73-92 | the new state follows `Toggled`; with `false` the displayed instant stays; with a present endpoint it moves by `MonthSynced` into that endpoint's month, even when the call closes; with a cleared endpoint it stays (the corrected behaviour, see Findings); the grid is regenerated exactly when the instant changes, so a grid showing the displayed month keeps doing so |
| DateRangePicker.DateRangePickerComponent.SelectRange | src/lib/date-range-picker.component.ts:94-124 | from/to are the switch's interval, `range` is the code, `moment` is from, the grid shows from's month and exactly one event (from, to) is appended |
| DateRangePicker.DateRangePickerComponent.GenerateCalendar | src/lib/date-range-picker.component.ts:126-136 | the loop leaves exactly the grid of the displayed month in `dates` |
| DateRangePicker.DateRangePickerComponent.SelectDate | src/lib/date-range-picker.component.ts:138-155 | the endpoints become `Selected` of the open state, and one event carrying them is appended; nothing else changes, so the grid keeps showing the displayed month |
| DateRangePicker.DateRangePickerComponent.EmitChange | src/lib/date-range-picker.component.ts:165-167 | appends the current (from, to) to the event log |
| DateRangePicker.DateRangePickerComponent.PrevMonth | src/lib/date-range-picker.component.ts:173-176 | the displayed instant moves one month back and the grid shows its month |
| DateRangePicker.DateRangePickerComponent.NextMonth | src/lib/date-range-picker.component.ts:178-181 | the displayed instant moves one month on and the grid shows its month |
| DateRangePicker.DateRangePickerComponent.Close | src/lib/date-range-picker.component.ts:196-203 | a click outside the component closes the calendar; the grid is untouched |
| DateRangePicker.DateRangePickerComponent.IsWithinRange | src/lib/date-range-picker.component.ts:183-186 | a missing endpoint gives a falsy value (the source returns that null or undefined endpoint itself), modelled as `Ok(false)`; otherwise an error exactly when from > to, and true exactly when from ≤ day ≤ to |
| DateRangePicker.DateRangePickerComponent.IsDateRangeFrom | src/lib/date-range-picker.component.ts:188-190 | true exactly when the day has from's calendar date; a cleared from reads as time value 0, so then exactly 1 January 1970 matches |
| DateRangePicker.DateRangePickerComponent.IsDateRangeTo | src/lib/date-range-picker.component.ts:192-194 | true exactly when the day has to's calendar date; a cleared to reads as time value 0, so then exactly 1 January 1970 matches |
| PickerProperties.GridWeeks | src/lib/date-range-picker.component.ts:126-136 | 42 cells at midnight; cell k is k days after the Sunday on or before the first; cell k falls on weekday k mod 7; consecutive cells are consecutive days |
| PickerProperties.GridEnds | src/lib/date-range-picker.component.ts:129-135 | the first cell is a Sunday and the last a Saturday |
| PickerProperties.GridCoversMonth | src/lib/date-range-picker.component.ts:128-135 | every day d of the displayed month is cell getDay(first) + d − 1, so the first sits at index getDay(first) |
| PickerProperties.GridInMonthExactly | src/lib/date-range-picker.component.ts:128-135 | a cell is in the displayed month exactly when its index is in [getDay(first), getDay(first) + days in month) |
| PickerProperties.GridDeterminesMonth | src/lib/date-range-picker.component.ts:126-136 | two instants have the same grid exactly when they are in the same month |
| PickerProperties.NavigationRoundTrip | src/lib/date-range-picker.component.ts:173-181 | next then previous, or previous then next, restores the year and month and so the identical grid |
| PickerProperties.NavigationClampsDay | src/lib/date-range-picker.component.ts:173-181 | from 31 January, next lands on the last day of February, and back is then that day of January, not the 31st |
| PickerProperties.NavigationSteps | src/lib/date-range-picker.component.ts:173-181 | each step changes the month index by exactly one, always to a different month, and keeps the time of day |
| PickerProperties.PresetShape | src/lib/date-range-picker.component.ts:97-118 | every preset runs from a midnight to a 23:59:59.999 later than it |
| PickerProperties.ThisPresetsContainToday | src/lib/date-range-picker.component.ts:100-116 | this week, this month and this year contain the current instant |
| PickerProperties.WeekSpanShape | src/lib/date-range-picker.component.ts:109-110 | a week span from a Sunday ends on the Saturday six days later |
| PickerProperties.WeekSpanShift | src/lib/date-range-picker.component.ts:105-110 | the span of the week before is the span moved back 7 days |
| PickerProperties.WeekPresets | src/lib/date-range-picker.component.ts:105-110 | 'tw' runs Sunday to Saturday; both ends of 'lw' are exactly 7 days before those of 'tw' |
| PickerProperties.LastMonthPreset | src/lib/date-range-picker.component.ts:98-102 | 'lm' lies in the month before today's, from its 1st to its last day |
| PickerProperties.ThisMonthPreset | src/lib/date-range-picker.component.ts:100-102 | 'tm' lies in today's month, from its 1st to its last day |
| PickerProperties.YearPresets | src/lib/date-range-picker.component.ts:112-116 | 'ty' and 'ly' run 1 January to 31 December of this and of the previous year |
| PickerProperties.UnknownCodeIsThisWeek | src/lib/date-range-picker.component.ts:107-110 | any code outside the six presets gives this week |
| PickerProperties.SelectIdempotent | src/lib/date-range-picker.component.ts:138-154 | selecting the same date twice gives what selecting it once gives |
| PickerProperties.SelectKeepsOrder | src/lib/date-range-picker.component.ts:138-154 | a selection keeps ordered endpoints ordered, and an open selection always leaves them ordered |
| PickerProperties.June2024ThisWeek | src/lib/date-range-picker.component.ts:108-110 | on Wednesday 12 June 2024 this week runs from Sunday 9 June 00:00 to Saturday 15 June 23:59:59.999 |
| PickerProperties.June2024Grid | src/lib/date-range-picker.component.ts:126-136 | the June 2024 grid runs from Sunday 26 May to Saturday 6 July |

## Findings

| source | as written | input that shows it | evidently intended | confidence | as-written member | corrected member |
|---|---|---|---|---|---|---|
| src/lib/date-range-picker.component.ts:79-91 | `toggleCalendar` syncs to the chosen endpoint even when `selectDate` has cleared it to `null`. date-fns reads `null` as time value 0, so the displayed month becomes January 1970. `MonthSyncedAsWritten` models this sync. | the range 10–20 June 2024 open for 'to'; pick 5 June, which clears from (:148-152); then toggle 'from' | a cleared endpoint leaves the displayed month alone | medium, not executed | DateRangePicker.ClearedFromShowsJanuary1970 | DateRangePicker.SyncedMomentFollowsEndpoint |

## Left out

- Angular plumbing is not modelled: `@Component`, `@Input`/`@Output`, `ElementRef` and `@HostListener`. Emitting on `dateRangeChange` is an append to `events`.
- The DOM test in `handleBlurClick` (`contains`, `classList`, `srcElement`) is a browser query. `Close` keeps only its effect, closing the calendar.
- The display strings are passthrough values with no behaviour: the `texts` defaults, `dayNames` and `themeColor`.
- The wall clock is not modelled: `new Date()` in `selectRange` is the parameter `now`.
- Time zones, daylight saving and JavaScript's limits on the millisecond range are not modelled. The calendar is a fixed local one with 86,400,000 ms per day.
- DateRangePicker.DateRangePickerComponent.ToggleCalendar: when the chosen endpoint has been cleared, it keeps the displayed month. This is the corrected behaviour under Findings. The source instead jumps to January 1970, and `MonthSyncedAsWritten` models that.
- DateRangePicker.DateRangePickerComponent.IsWithinRange: the source returns the missing endpoint itself, `null` or `undefined`, which is not `false`. The model returns `Ok(false)`, which every boolean use of the result reads the same way.
- A missing endpoint is modelled as `null`, which date-fns reads as time value 0. This covers `IsDateRangeFrom`, `IsDateRangeTo` and the as-written sync. An input never bound would be `undefined`, which date-fns reads as an invalid date. That case is not modelled: `ngOnInit` replaces a missing input with this week, and afterwards only `selectDate` clears an endpoint, to `null`.
- `updateRange` is not modelled: its body is empty.
- The commented-out month re-sync in `selectDate` is not code, so it is not modelled.
- The source has no min/max clamping and no configurable week start; weeks start on Sunday.
- The component has no concurrency, I/O or floating point.
