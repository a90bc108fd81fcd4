# Calendar engine of the Expo date picker, in Dafny

This project models the calendar engine behind the date picker component:
the `useCalendar` hook in `components/Datepicker/useCalendar.ts` and the
date-fns calendar helpers it calls. The hook holds two pieces of state:

- `currentMonth`, the date whose month is on display;
- `selectedDate`, an optional chosen date.

From `currentMonth` the hook derives `monthDays`, the week-aligned grid of
days to draw. It also answers `isDisabled(date)`. Its mutators are
`nextMonth`, `prevMonth`, `setMonthByNumber`, `setYearByNumber`,
`setSelectedDate` and `clearSelectedDate`.

Files and modules:

- `civil.dfy`, module `Civil`: proleptic Gregorian arithmetic. It defines civil
  dates with a zero-based month, as in JavaScript. It also defines leap years,
  month lengths, a serial day number and the weekday (0 = Sunday). `NextDay`,
  `PrevDay` and `ShiftDays` model how JavaScript normalises day overflow. The
  key lemmas say that day numbers follow calendar order and identify a day
  uniquely.
- `date_fns.dfy`, module `DateFns`: a JavaScript `Date` in local time, modelled
  as a calendar day plus milliseconds since midnight (`Instant`). The module
  defines the helpers the hook uses: `startOfMonth`, `endOfMonth`,
  `startOfWeek`, `endOfWeek`, `addDays`, `addMonths`, `subMonths`, `setMonth`,
  `setYear`, `isBefore`, `isAfter`, `isSameDay`, `isSameMonth` and `isToday`.
  `isBefore` and `isAfter` compare full time values.
- `grid.dfy`, module `Grid`: `MonthGrid` specifies `monthDays`. The lemmas
  cover its shape, its contents and one concrete month.
- `use_calendar.dfy`, module `UseCalendar`: the defaulted options (`Config`),
  `isDisabled` and its properties, and the class `Calendar`. The class holds
  the two state cells as fields. Its `MonthDays` method is the hook's loop,
  proved equal to `MonthGrid`, and its mutators are methods that modify the
  object.

Conventions in the model:

- Months are 0..11 and weekdays are 0..6 from Sunday, as `getMonth()` and
  `getDay()` return them.
- Wall-clock reads are parameters. The constructor receives the current
  instant `now` in place of `new Date()`, and `IsToday` receives it the same way.
- Grid cells are midnights, because `startOfWeek` zeroes the time.
- `setMonth` accepts any integer month. JavaScript's `Date.setMonth` carries
  an out-of-range month into another year, and the model does the same
  (floor division by 12). The host only ever passes 0..11, and for those the
  year is kept.
- `setYear` is modelled as `Date.setFullYear` without clamping. February 29
  sent to a common year rolls over to March 1. This case is modelled, not
  excluded.

## Model

| member | source | states |
|---|---|---|
| `Civil.ShiftDays` | components/Datepicker/useCalendar.ts:62 | moving a valid date by n days (either direction) gives a valid date exactly n day numbers away |
| `Civil.NextDay` | components/Datepicker/useCalendar.ts:62 | the next calendar day is valid and one day number later, across month and year ends |
| `Civil.PrevDay` | components/Datepicker/useCalendar.ts:54 | the previous calendar day is valid, one day number earlier, and `NextDay` undoes it |
| `Civil.DayNumberMonotone` | components/Datepicker/useCalendar.ts:60 | a calendar-earlier date has a strictly smaller day number, so comparing time values follows the calendar |
| `Civil.DayNumberInjective` | components/Datepicker/useCalendar.ts:70 | two valid dates are the same day exactly when their day numbers are equal |
| `Civil.WeekdayShift` | components/Datepicker/useCalendar.ts:54-55 | moving n days moves the weekday by n modulo 7 |
| `DateFns.StartOfMonth` | components/Datepicker/useCalendar.ts:52 | midnight of the 1st of the same month, day-of-month minus one days earlier |
| `DateFns.EndOfMonth` | components/Datepicker/useCalendar.ts:53 | last millisecond of the last day of the same month |
| `DateFns.MonthContains` | components/Datepicker/useCalendar.ts:52-53 | every instant of a month lies between its start and its end |
| `DateFns.StartOfWeek` | components/Datepicker/useCalendar.ts:54 | midnight of the day on or at most 6 days before, whose weekday is `weekStartsOn` |
| `DateFns.EndOfWeek` | components/Datepicker/useCalendar.ts:55 | last millisecond of the day on or at most 6 days after, whose weekday precedes `weekStartsOn` |
| `DateFns.IsBefore` | components/Datepicker/useCalendar.ts:68 | on valid dates, `isBefore` holds exactly for an earlier calendar day, or the same day at an earlier time |
| `DateFns.IsAfter` | components/Datepicker/useCalendar.ts:69 | `isAfter(a, b)` is `isBefore(b, a)` |
| `DateFns.IsSameDay` | components/Datepicker/useCalendar.ts:70 | on valid dates, same day exactly when the two starts of day have the same time value |
| `DateFns.IsSameMonth` | components/Datepicker/useCalendar.ts:89 | on valid dates, same month exactly when the counts of months elapsed are equal |
| `DateFns.IsToday` | components/Datepicker/useCalendar.ts:91 | on valid dates, a date is today exactly when it lies in the 24 hours from the current day's midnight |
| `DateFns.AddDays` | components/Datepicker/useCalendar.ts:62 | the same time of day, with the time value exactly n days later |
| `DateFns.AddMonths` | components/Datepicker/useCalendar.ts:86 | month index advanced by n, day clamped to the target month's length, time kept |
| `DateFns.SubMonths` | components/Datepicker/useCalendar.ts:87 | month index moved back by n, day clamped, time kept |
| `DateFns.SetMonth` | components/Datepicker/useCalendar.ts:73-74 | month replaced (0..11 keeps the year, others carry into another year), day clamped, time kept |
| `DateFns.SetYear` | components/Datepicker/useCalendar.ts:75-76 | year replaced with month, day and time kept, except that Feb 29 in a common year becomes the day after Feb 28 |
| `DateFns.SameDayProperties` | components/Datepicker/useCalendar.ts:90 | `isSameDay` is reflexive and symmetric, ignores time of day, and means equal day numbers |
| `DateFns.BeforeFollowsCalendar` | components/Datepicker/useCalendar.ts:68-69 | an earlier day is before a later one at any times; on one day, order is by time of day |
| `DateFns.NextThenPrevMonth` | components/Datepicker/useCalendar.ts:86-87 | prev after next, or next after prev, returns to the same month and year; with day at most 28 the date is restored exactly |
| `DateFns.JanuaryEndPlusOneMonth` | components/Datepicker/useCalendar.ts:86 | January 31 plus one month is February 28 or 29 by leap year, time kept |
| `DateFns.SetMonthRoundTrip` | components/Datepicker/useCalendar.ts:73-74 | setting the current month is the identity; setting another month and back restores dates with day at most 28 |
| `DateFns.SetYearRoundTrip` | components/Datepicker/useCalendar.ts:75-76 | setting another year and back restores the date, outside the Feb 29 case |
| `DateFns.LeapDayToCommonYear` | components/Datepicker/useCalendar.ts:75-76 | Feb 29 2024 moved to 2023 becomes Mar 1 2023 |
| `Grid.GridStart` | components/Datepicker/useCalendar.ts:54 | the grid starts at a midnight whose weekday is `weekStartsOn` |
| `Grid.GridEnd` | components/Datepicker/useCalendar.ts:55 | the grid ends at a last millisecond whose weekday is the one before `weekStartsOn` |
| `Grid.Lead` | components/Datepicker/useCalendar.ts:54 | at most 6 leading days come from the previous month |
| `Grid.Trail` | components/Datepicker/useCalendar.ts:55 | at most 6 trailing days come from the next month |
| `Grid.MonthGrid` | components/Datepicker/useCalendar.ts:51-65 | grid length is leading days + days of the month + trailing days |
| `Grid.GridLength` | components/Datepicker/useCalendar.ts:54-63 | the grid length is a multiple of 7 between 28 and 42 |
| `Grid.GridConsecutive` | components/Datepicker/useCalendar.ts:57-63 | cells are valid midnights, each one day after the previous, strictly ascending; the first is the grid start with weekday `weekStartsOn`, the last is the grid end's day |
| `Grid.LeadCell` | components/Datepicker/useCalendar.ts:54-63 | a leading cell is in the previous month, counted back from that month's last day |
| `Grid.MiddleCell` | components/Datepicker/useCalendar.ts:52-63 | the cell at Lead + k is day k + 1 of the displayed month |
| `Grid.TrailCell` | components/Datepicker/useCalendar.ts:55-63 | a trailing cell is in the next month, counted from its 1st |
| `Grid.GridCell` | components/Datepicker/useCalendar.ts:52-63 | cells are the last days of the previous month, then days 1..n of the month in order, then the first days of the next month |
| `Grid.GridSameMonth` | components/Datepicker/useCalendar.ts:89 | a cell is in the displayed month exactly when it is in the middle block |
| `Grid.GridCoversMonth` | components/Datepicker/useCalendar.ts:52-63 | every day of the displayed month appears exactly once, at position Lead + day - 1 |
| `Grid.GridIgnoresDay` | components/Datepicker/useCalendar.ts:51-65 | the grid depends only on the month and year of `currentMonth` |
| `Grid.March2024MondayGrid` | components/Datepicker/useCalendar.ts:51-65 | March 2024 with Monday weeks runs from Feb 26 to Mar 31, 35 cells |
| `UseCalendar.SomeSameDay` | components/Datepicker/useCalendar.ts:70 | `disabledDates.some(isSameDay)` holds exactly when some entry is the same calendar day |
| `UseCalendar.IsDisabled` | components/Datepicker/useCalendar.ts:67-71 | disabled exactly when before a set `minDate` or after a set `maxDate` (full time values), or on the calendar day of some disabled date |
| `UseCalendar.WideningNeverDisables` | components/Datepicker/useCalendar.ts:67-71 | an earlier or absent `minDate` and a later or absent `maxDate` never disable a date that was enabled |
| `UseCalendar.CrossedBoundsDisableAll` | components/Datepicker/useCalendar.ts:68-69 | with `minDate` after `maxDate`, every date is disabled |
| `UseCalendar.DisabledDayIgnoresTime` | components/Datepicker/useCalendar.ts:70 | a disabled date disables its whole calendar day, at any time of day |
| `UseCalendar.MinDateScenario` | components/Datepicker/useCalendar.ts:68 | with `minDate` 2024-01-10, Jan 9 is disabled and Jan 10 is not |
| `UseCalendar.DisabledDateScenario` | components/Datepicker/useCalendar.ts:70 | with disabled date 2024-06-15, June 15 at 23:59 is disabled and June 16 is not |
| `UseCalendar.MinDateTimeDisablesOwnDay` | components/Datepicker/useCalendar.ts:68 | a `minDate` later than midnight disables the midnight grid cell of its own day |
| `UseCalendar.IsDisabledByDay` | components/Datepicker/useCalendar.ts:67-71 | the day-based rule equals the code's rule applied to bounds widened to whole days: `minDate` back to its midnight, `maxDate` to its last millisecond |
| `UseCalendar.ByDayBoundsInclusive` | components/Datepicker/useCalendar.ts:67-71 | under the day-based rule, the days of `minDate` and `maxDate` are not disabled by the bounds, and time of day does not matter |
| `UseCalendar.ByDayAgreesOnMidnights` | components/Datepicker/useCalendar.ts:67-71 | on midnight cells, the day-based rule equals the code when `minDate` is a midnight |
| `UseCalendar.Calendar.constructor` | components/Datepicker/useCalendar.ts:34-47 | options take their defaults (no disabled dates, Sunday, English); `currentMonth` is `initialDate` or now; `selectedDate` is `initialDate` or none |
| `UseCalendar.Calendar.MonthDays` | components/Datepicker/useCalendar.ts:51-65 | the loop returns exactly `MonthGrid(currentMonth, weekStartsOn)` |
| `UseCalendar.Calendar.NextMonth` | components/Datepicker/useCalendar.ts:86 | `currentMonth` is one month later with the day clamped; selection unchanged |
| `UseCalendar.Calendar.PrevMonth` | components/Datepicker/useCalendar.ts:87 | `currentMonth` is one month earlier with the day clamped; selection unchanged |
| `UseCalendar.Calendar.SetMonthByNumber` | components/Datepicker/useCalendar.ts:73-74 | month replaced, year kept for 0..11, day clamped; selection unchanged |
| `UseCalendar.Calendar.SetYearByNumber` | components/Datepicker/useCalendar.ts:75-76 | year replaced with the Feb 29 rollover; selection unchanged |
| `UseCalendar.Calendar.SetSelectedDate` | components/Datepicker/useCalendar.ts:42-44 | the selection is stored as given, with no `isDisabled` check; `currentMonth` unchanged |
| `UseCalendar.Calendar.ClearSelectedDate` | components/Datepicker/useCalendar.ts:78-80 | no selection afterwards; `currentMonth` unchanged |

## Left out

- Formatting: `format`, the locale objects selected by `localeObj` and their tables are foreign formatting code. Only the locale key is kept, as `Locale` in `Config`.
- Time zones and daylight saving: dates are local civil days with a time of day. The unused `TimezoneOption` type is not modelled.
- React mechanics: `useState` re-renders and `useMemo` caching are not modelled. `monthDays` is recomputed on demand from the current state by `MonthDays`.
- The wall clock: `new Date()` in the initial state and `isToday` take the current instant as a parameter.
- Functional updates to the `setSelectedDate` state setter (passing a function) are not modelled. Only a date or null is stored.
- Invalid `Date` values (NaN time values) and non-integer month or year numbers do not arise from the host. They are not modelled: every `Instant` in the state is a valid date.
- The host component `components/Datepicker/index.tsx` is not part of this model: its rendering, dropdowns, time-of-day entry and the "today" highlight fallback. Its month picker passes 0..11 to `setMonthByNumber`.
- The date-fns sources are not part of this model. Each helper is modelled from its documented behaviour as listed above.

## Findings

| source | as written | input that shows it | evidently intended | confidence | as-written member | corrected member |
|---|---|---|---|---|---|---|
| components/Datepicker/useCalendar.ts:68 | `minDate` is compared with `isBefore`, which uses full time values. Grid cells are midnights, so a `minDate` with a time of day disables the cell of its own day. | `minDate` = 2024-01-10 12:00; the grid cell 2024-01-10 00:00 is disabled though it is the same calendar day | bounds are inclusive calendar-day limits, so the day of `minDate` stays selectable | medium, not executed | `UseCalendar.MinDateTimeDisablesOwnDay` | `UseCalendar.IsDisabledByDay` (properties in `UseCalendar.ByDayBoundsInclusive` and `UseCalendar.ByDayAgreesOnMidnights`) |
