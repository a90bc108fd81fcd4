/** The calendar hook: its configuration, the `isDisabled` predicate, and the
    engine state (`currentMonth`, `selectedDate`) with the grid computation
    and the navigation and selection mutators. */
module UseCalendar {
  import opened Civil
  import opened DateFns
  import opened Grid

  datatype Option<T> = None | Some(value: T)

  /** The four locale keys; the date-fns locale objects they select are not
      part of this model. */
  datatype Locale = En | Fr | De | Es

  /** The hook's options after defaulting (missing `disabledDates` is empty,
      missing `weekStartsOn` is Sunday, missing `locale` is English). */
  datatype Config = Config(
    minDate: Option<Instant>,
    maxDate: Option<Instant>,
    disabledDates: seq<Instant>,
    weekStartsOn: WeekStart,
    locale: Locale)

  /** `disabledDates.some(d => isSameDay(d, date))`. */
  predicate SomeSameDay(ds: seq<Instant>, date: Instant)
    ensures SomeSameDay(ds, date) <==> exists k | 0 <= k < |ds| :: IsSameDay(ds[k], date)
  {
    if ds == [] then false
    else IsSameDay(ds[0], date) || SomeSameDay(ds[1..], date)
  }

  /** `isDisabled(date)`: before `minDate` or after `maxDate` as instants
      (time of day included), or on the calendar day of a disabled date. */
  predicate IsDisabled(cfg: Config, date: Instant)
    ensures IsDisabled(cfg, date) <==>
      || (cfg.minDate.Some? && Timestamp(date) < Timestamp(cfg.minDate.value))
      || (cfg.maxDate.Some? && Timestamp(date) > Timestamp(cfg.maxDate.value))
      || (exists k | 0 <= k < |cfg.disabledDates| :: cfg.disabledDates[k].date == date.date)
  {
    if cfg.minDate.Some? && IsBefore(date, cfg.minDate.value) then true
    else if cfg.maxDate.Some? && IsAfter(date, cfg.maxDate.value) then true
    else SomeSameDay(cfg.disabledDates, date)
  }

  /** Widening the range [minDate, maxDate] (an earlier or absent minDate, a
      later or absent maxDate) never disables a date that was enabled. */
  lemma WideningNeverDisables(cfg: Config, wider: Config, date: Instant)
    requires wider.disabledDates == cfg.disabledDates
    requires wider.minDate.Some? ==> cfg.minDate.Some? && !IsAfter(wider.minDate.value, cfg.minDate.value)
    requires wider.maxDate.Some? ==> cfg.maxDate.Some? && !IsBefore(wider.maxDate.value, cfg.maxDate.value)
    ensures IsDisabled(wider, date) ==> IsDisabled(cfg, date)
  {
  }

  /** A minDate later than maxDate disables every date. */
  lemma CrossedBoundsDisableAll(cfg: Config, date: Instant)
    requires cfg.minDate.Some? && cfg.maxDate.Some?
    requires IsAfter(cfg.minDate.value, cfg.maxDate.value)
    ensures IsDisabled(cfg, date)
  {
  }

  /** A disabled date disables its whole calendar day, whatever the times of
      day of the entry and of the queried date. */
  lemma DisabledDayIgnoresTime(cfg: Config, date: Instant, k: int, ms: int)
    requires 0 <= k < |cfg.disabledDates| && IsSameDay(cfg.disabledDates[k], date)
    ensures IsDisabled(cfg, Instant(date.date, ms))
  {
    assert IsSameDay(cfg.disabledDates[k], Instant(date.date, ms));
  }

  /** minDate 2024-01-10 (midnight): 9 January is disabled, 10 January not. */
  lemma MinDateScenario(cfg: Config)
    requires cfg.minDate == Some(Instant(CivilDate(2024, 0, 10), 0))
    requires cfg.maxDate.None? && cfg.disabledDates == []
    ensures IsDisabled(cfg, Instant(CivilDate(2024, 0, 9), 0))
    ensures !IsDisabled(cfg, Instant(CivilDate(2024, 0, 10), 0))
  {
  }

  /** disabledDates [2024-06-15]: 15 June at 23:59 is disabled. */
  lemma DisabledDateScenario(cfg: Config)
    requires cfg.minDate.None? && cfg.maxDate.None?
    requires cfg.disabledDates == [Instant(CivilDate(2024, 5, 15), 0)]
    ensures IsDisabled(cfg, Instant(CivilDate(2024, 5, 15), (23 * 60 + 59) * 60_000))
    ensures !IsDisabled(cfg, Instant(CivilDate(2024, 5, 16), 0))
  {
  }

  /** As written, a minDate carrying a time of day after midnight disables the
      grid cell of its own calendar day, because grid cells are midnights. */
  lemma MinDateTimeDisablesOwnDay(cfg: Config, cell: Instant)
    requires cfg.minDate.Some? && ValidInstant(cfg.minDate.value) && cfg.minDate.value.ms > 0
    requires cell == Instant(cfg.minDate.value.date, 0)
    ensures IsSameDay(cell, cfg.minDate.value) && IsDisabled(cfg, cell)
  {
  }

  /** The bounds widened to whole days: minDate moved back to the start of
      its day, maxDate forward to the last millisecond of its day. */
  function DayBounds(cfg: Config): Config {
    cfg.(minDate := if cfg.minDate.Some? then Some(Instant(cfg.minDate.value.date, 0)) else None,
         maxDate := if cfg.maxDate.Some? then Some(Instant(cfg.maxDate.value.date, MsPerDay - 1)) else None)
  }

  /** `isDisabled` with the bounds compared by calendar day, as the bounds are
      described (inclusive limits on calendar days). On a valid date it is the
      code's rule applied to the bounds widened to whole days. */
  predicate IsDisabledByDay(cfg: Config, date: Instant)
    ensures ValidInstant(date) ==> (IsDisabledByDay(cfg, date) <==> IsDisabled(DayBounds(cfg), date))
  {
    || (cfg.minDate.Some? && DayNumber(date.date) < DayNumber(cfg.minDate.value.date))
    || (cfg.maxDate.Some? && DayNumber(date.date) > DayNumber(cfg.maxDate.value.date))
    || SomeSameDay(cfg.disabledDates, date)
  }

  /** The day-based rule never disables the day of minDate or of maxDate on
      account of the bounds, and it ignores the time of day. */
  lemma ByDayBoundsInclusive(cfg: Config, date: Instant, ms: int)
    requires ValidInstant(date)
    requires cfg.minDate.Some? ==> ValidInstant(cfg.minDate.value)
    requires cfg.maxDate.Some? ==> ValidInstant(cfg.maxDate.value)
    requires !SomeSameDay(cfg.disabledDates, date)
    requires (cfg.minDate.Some? && IsSameDay(date, cfg.minDate.value))
          || (cfg.maxDate.Some? && IsSameDay(date, cfg.maxDate.value))
    requires cfg.minDate.Some? && cfg.maxDate.Some? ==>
               DayNumber(cfg.minDate.value.date) <= DayNumber(cfg.maxDate.value.date)
    ensures !IsDisabledByDay(cfg, date)
    ensures IsDisabledByDay(cfg, date) == IsDisabledByDay(cfg, Instant(date.date, ms))
  {
  }

  /** On midnight grid cells the day-based rule and the code agree whenever
      minDate is itself a midnight (maxDate may carry any time of day). */
  lemma ByDayAgreesOnMidnights(cfg: Config, cell: Instant)
    requires ValidInstant(cell) && cell.ms == 0
    requires cfg.minDate.Some? ==> ValidInstant(cfg.minDate.value) && cfg.minDate.value.ms == 0
    requires cfg.maxDate.Some? ==> ValidInstant(cfg.maxDate.value)
    ensures IsDisabled(cfg, cell) == IsDisabledByDay(cfg, cell)
  {
  }

  /** The engine state held by the hook. */
  class Calendar {
    const config: Config
    var currentMonth: Instant
    var selectedDate: Option<Instant>

    ghost predicate Valid()
      reads this
    {
      ValidInstant(currentMonth)
      && (selectedDate.Some? ==> ValidInstant(selectedDate.value))
    }

    /** Mounting the hook: options are defaulted; `currentMonth` starts at
        `initialDate`, or at the current instant `now` when it is absent;
        `selectedDate` starts at `initialDate`, or none. */
    constructor (initialDate: Option<Instant>, minDate: Option<Instant>, maxDate: Option<Instant>,
                 disabledDates: Option<seq<Instant>>, weekStartsOn: Option<WeekStart>,
                 locale: Option<Locale>, now: Instant)
      requires ValidInstant(now)
      requires initialDate.Some? ==> ValidInstant(initialDate.value)
      ensures Valid()
      ensures config == Config(minDate, maxDate,
                               if disabledDates.Some? then disabledDates.value else [],
                               if weekStartsOn.Some? then weekStartsOn.value else 0,
                               if locale.Some? then locale.value else En)
      ensures currentMonth == if initialDate.Some? then initialDate.value else now
      ensures selectedDate == initialDate
    {
      config := Config(minDate, maxDate,
                       if disabledDates.Some? then disabledDates.value else [],
                       if weekStartsOn.Some? then weekStartsOn.value else 0,
                       if locale.Some? then locale.value else En);
      currentMonth := if initialDate.Some? then initialDate.value else now;
      selectedDate := initialDate;
    }

    /** `monthDays`: walk from the grid start to the grid end one day at a
        time, collecting every day. */
    method MonthDays() returns (days: seq<Instant>)
      requires Valid()
      ensures days == MonthGrid(currentMonth, config.weekStartsOn)
    {
      var startMonth := StartOfMonth(currentMonth);
      var endMonth := EndOfMonth(currentMonth);
      var startDateGrid := StartOfWeek(startMonth, config.weekStartsOn);
      var endDateGrid := EndOfWeek(endMonth, config.weekStartsOn);
      ghost var grid := MonthGrid(currentMonth, config.weekStartsOn);
      days := [];
      var day := startDateGrid;
      while Timestamp(day) <= Timestamp(endDateGrid)
        invariant ValidInstant(day) && day.ms == 0
        invariant DayNumber(day.date) == DayNumber(startDateGrid.date) + |days|
        invariant |days| <= |grid|
        invariant days == grid[..|days|]
        decreases DayNumber(endDateGrid.date) - DayNumber(day.date)
      {
        DayNumberInjective(day.date, grid[|days|].date);
        days := days + [day];
        day := AddDays(day, 1);
      }
    }

    /** `nextMonth`: one calendar month later, day clamped; the selection is
        untouched. */
    method NextMonth()
      requires Valid()
      modifies this
      ensures Valid()
      ensures currentMonth == AddMonths(old(currentMonth), 1)
      ensures MonthIndex(currentMonth.date) == MonthIndex(old(currentMonth).date) + 1
      ensures selectedDate == old(selectedDate)
    {
      currentMonth := AddMonths(currentMonth, 1);
    }

    /** `prevMonth`: one calendar month earlier, day clamped; the selection
        is untouched. */
    method PrevMonth()
      requires Valid()
      modifies this
      ensures Valid()
      ensures currentMonth == SubMonths(old(currentMonth), 1)
      ensures MonthIndex(currentMonth.date) == MonthIndex(old(currentMonth).date) - 1
      ensures selectedDate == old(selectedDate)
    {
      currentMonth := SubMonths(currentMonth, 1);
    }

    /** `setMonthByNumber(month)`: the month replaced (0..11 keeps the year),
        day clamped; the selection is untouched. */
    method SetMonthByNumber(month: int)
      requires Valid()
      modifies this
      ensures Valid()
      ensures currentMonth == SetMonth(old(currentMonth), month)
      ensures 0 <= month < 12 ==>
                currentMonth.date.year == old(currentMonth).date.year && currentMonth.date.month == month
      ensures selectedDate == old(selectedDate)
    {
      currentMonth := SetMonth(currentMonth, month);
    }

    /** `setYearByNumber(year)`: the year replaced, month and day kept except
        that February 29 rolls over to March 1 in a common year; the
        selection is untouched. */
    method SetYearByNumber(year: int)
      requires Valid()
      modifies this
      ensures Valid()
      ensures currentMonth == SetYear(old(currentMonth), year)
      ensures currentMonth.date.year == year
      ensures selectedDate == old(selectedDate)
    {
      currentMonth := SetYear(currentMonth, year);
    }

    /** `setSelectedDate(date)`: stores the date (or null) as given, without
        consulting `isDisabled`; the displayed month is untouched. */
    method SetSelectedDate(date: Option<Instant>)
      requires Valid()
      requires date.Some? ==> ValidInstant(date.value)
      modifies this
      ensures Valid()
      ensures selectedDate == date
      ensures currentMonth == old(currentMonth)
    {
      selectedDate := date;
    }

    /** `clearSelectedDate`: no selection; the displayed month is untouched. */
    method ClearSelectedDate()
      requires Valid()
      modifies this
      ensures Valid()
      ensures selectedDate == None
      ensures currentMonth == old(currentMonth)
    {
      selectedDate := None;
    }
  }
}
