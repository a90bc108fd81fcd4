/** The date-fns helpers the calendar hook calls, over a local Date modelled
    as a civil day plus a time of day. Only the behaviour the hook depends on
    is modelled; invalid Dates (NaN time values) do not arise in the hook. */
module DateFns {
  import opened Civil

  const MsPerDay: int := 86_400_000

  /** A JavaScript Date in local time: its calendar day and the milliseconds
      elapsed since that day's midnight. */
  datatype Instant = Instant(date: CivilDate, ms: int)

  predicate ValidInstant(t: Instant) {
    ValidDate(t.date) && 0 <= t.ms < MsPerDay
  }

  /** The Date's time value in milliseconds (what getTime() and the relational
      operators compare), shifted by a constant that no comparison can see. */
  function Timestamp(t: Instant): int {
    DayNumber(t.date) * MsPerDay + t.ms
  }

  /** `weekStartsOn`: 0 = Sunday, 1 = Monday. */
  type WeekStart = w: int | 0 <= w <= 1

  /** Comparing time values orders valid instants by calendar day first and
      by time of day within a day. */
  lemma TimestampOrder(a: Instant, b: Instant)
    ensures ValidInstant(a) && ValidInstant(b) ==>
      (Timestamp(a) < Timestamp(b) <==> DateLess(a.date, b.date) || (a.date == b.date && a.ms < b.ms))
  {
    if ValidInstant(a) && ValidInstant(b) {
      if DateLess(a.date, b.date) {
        DayNumberMonotone(a.date, b.date);
      } else if DateLess(b.date, a.date) {
        DayNumberMonotone(b.date, a.date);
      }
    }
  }

  /** Two valid instants have the same midnight exactly when they fall on
      the same calendar day. */
  lemma MidnightIdentifiesDay(a: Instant, b: Instant)
    ensures ValidInstant(a) && ValidInstant(b) ==>
      (a.date == b.date <==> Timestamp(a) - a.ms == Timestamp(b) - b.ms)
  {
    if ValidInstant(a) && ValidInstant(b) {
      DayNumberInjective(a.date, b.date);
    }
  }

  lemma DayWindow(dt: int, dn: int, ms: int)
    requires 0 <= ms < MsPerDay
    ensures dn * MsPerDay <= dt * MsPerDay + ms < dn * MsPerDay + MsPerDay <==> dt == dn
  {
    if dt < dn {
      assert dt * MsPerDay <= dn * MsPerDay - MsPerDay;
    } else if dt > dn {
      assert dt * MsPerDay >= dn * MsPerDay + MsPerDay;
    }
  }

  /** A valid instant falls on the calendar day of another exactly when it
      lies in the 24 hours that start at that other's midnight. */
  lemma SameDayWindow(t: Instant, now: Instant)
    ensures ValidInstant(t) && ValidInstant(now) ==>
      (t.date == now.date <==> Timestamp(now) - now.ms <= Timestamp(t) < Timestamp(now) - now.ms + MsPerDay)
  {
    if ValidInstant(t) && ValidInstant(now) {
      DayNumberInjective(t.date, now.date);
      DayWindow(DayNumber(t.date), DayNumber(now.date), t.ms);
    }
  }

  /** isBefore: the first time value is smaller; on valid instants, an
      earlier calendar day, or the same day at an earlier time. */
  predicate IsBefore(a: Instant, b: Instant)
    ensures ValidInstant(a) && ValidInstant(b) ==>
      (IsBefore(a, b) <==> DateLess(a.date, b.date) || (a.date == b.date && a.ms < b.ms))
  {
    TimestampOrder(a, b);
    Timestamp(a) < Timestamp(b)
  }

  /** isAfter: the first time value is larger, i.e. isBefore with the
      arguments swapped. */
  predicate IsAfter(a: Instant, b: Instant)
    ensures IsAfter(a, b) <==> IsBefore(b, a)
  {
    Timestamp(a) > Timestamp(b)
  }

  /** isSameDay: on valid instants, their starts of day have the same time
      value. */
  predicate IsSameDay(a: Instant, b: Instant)
    ensures ValidInstant(a) && ValidInstant(b) ==>
      (IsSameDay(a, b) <==> Timestamp(a) - a.ms == Timestamp(b) - b.ms)
  {
    MidnightIdentifiesDay(a, b);
    a.date == b.date
  }

  /** isSameMonth: on valid instants, the same count of months elapsed. */
  predicate IsSameMonth(a: Instant, b: Instant)
    ensures ValidInstant(a) && ValidInstant(b) ==>
      (IsSameMonth(a, b) <==> MonthIndex(a.date) == MonthIndex(b.date))
  {
    a.date.year == b.date.year && a.date.month == b.date.month
  }

  /** `isToday` with the wall clock's current instant passed in as `now`: on
      valid instants, `t` lies in the 24 hours that start at `now`'s
      midnight. */
  predicate IsToday(t: Instant, now: Instant)
    ensures ValidInstant(t) && ValidInstant(now) ==>
      (IsToday(t, now) <==> Timestamp(now) - now.ms <= Timestamp(t) < Timestamp(now) - now.ms + MsPerDay)
  {
    SameDayWindow(t, now);
    IsSameDay(t, now)
  }

  /** Months elapsed since January of year 0. */
  function MonthIndex(d: CivilDate): int {
    d.year * 12 + d.month
  }

  function Min(a: int, b: int): int {
    if a < b then a else b
  }

  /** Day `day` of the month with index `k`, clamped to that month's length:
      the shared core of addMonths and setMonth. */
  function ClampedDayOfMonth(k: int, day: int): (r: CivilDate)
    requires 1 <= day
    ensures ValidDate(r) && MonthIndex(r) == k
    ensures r.day == Min(day, DaysInMonth(r.year, r.month))
  {
    var y, m := k / 12, k % 12;
    CivilDate(y, m, Min(day, DaysInMonth(y, m)))
  }

  /** startOfMonth: midnight of the first day of `t`'s month. */
  function StartOfMonth(t: Instant): (r: Instant)
    requires ValidInstant(t)
    ensures ValidInstant(r) && IsSameMonth(r, t) && r.ms == 0
    ensures DayNumber(r.date) == DayNumber(t.date) - (t.date.day - 1)
  {
    Instant(CivilDate(t.date.year, t.date.month, 1), 0)
  }

  /** endOfMonth: the last millisecond of the last day of `t`'s month. */
  function EndOfMonth(t: Instant): (r: Instant)
    requires ValidInstant(t)
    ensures ValidInstant(r) && IsSameMonth(r, t) && r.ms == MsPerDay - 1
    ensures DayNumber(r.date) == DayNumber(t.date) + (DaysInMonth(t.date.year, t.date.month) - t.date.day)
  {
    Instant(CivilDate(t.date.year, t.date.month, DaysInMonth(t.date.year, t.date.month)), MsPerDay - 1)
  }

  /** Every instant of a month lies between that month's start and end. */
  lemma MonthContains(t: Instant, u: Instant)
    requires ValidInstant(t) && ValidInstant(u) && IsSameMonth(t, u)
    ensures !IsBefore(u, StartOfMonth(t)) && !IsAfter(u, EndOfMonth(t))
  {
  }

  /** The day counts startOfWeek and endOfWeek move by, from weekday `day`:
      back to the week start, and forward to the week's last day. */
  lemma WeekOffsets(day: int, ws: WeekStart)
    requires 0 <= day < 7
    ensures var back := (if day < ws then 7 else 0) + day - ws;
      0 <= back <= 6 && (day + -back) % 7 == ws
    ensures var fwd := (if day < ws then -7 else 0) + 6 - (day - ws);
      0 <= fwd <= 6 && (day + fwd) % 7 == (ws + 6) % 7
  {
    if day < ws {
      assert day + -((if day < ws then 7 else 0) + day - ws) == ws - 7;
      assert day + ((if day < ws then -7 else 0) + 6 - (day - ws)) == ws - 1;
    }
  }

  /** startOfWeek: midnight of the latest day on or before `t` whose weekday
      is `ws`. */
  function StartOfWeek(t: Instant, ws: WeekStart): (r: Instant)
    requires ValidInstant(t)
    ensures ValidInstant(r) && r.ms == 0
    ensures Weekday(r.date) == ws
    ensures DayNumber(t.date) - 6 <= DayNumber(r.date) <= DayNumber(t.date)
  {
    var day := Weekday(t.date);
    var diff := (if day < ws then 7 else 0) + day - ws;
    WeekOffsets(day, ws);
    assert 0 <= diff <= 6 && (day + -diff) % 7 == ws;
    WeekdayShift(t.date, -diff);
    Instant(ShiftDays(t.date, -diff), 0)
  }

  /** endOfWeek: the last millisecond of the earliest day on or after `t`
      whose weekday is the one before `ws`. */
  function EndOfWeek(t: Instant, ws: WeekStart): (r: Instant)
    requires ValidInstant(t)
    ensures ValidInstant(r) && r.ms == MsPerDay - 1
    ensures Weekday(r.date) == (ws + 6) % 7
    ensures DayNumber(t.date) <= DayNumber(r.date) <= DayNumber(t.date) + 6
  {
    var day := Weekday(t.date);
    var diff := (if day < ws then -7 else 0) + 6 - (day - ws);
    WeekOffsets(day, ws);
    assert 0 <= diff <= 6 && (day + diff) % 7 == (ws + 6) % 7;
    WeekdayShift(t.date, diff);
    Instant(ShiftDays(t.date, diff), MsPerDay - 1)
  }

  /** addDays: the same time of day, `n` calendar days later. */
  function AddDays(t: Instant, n: int): (r: Instant)
    requires ValidInstant(t)
    ensures ValidInstant(r) && r.ms == t.ms
    ensures Timestamp(r) == Timestamp(t) + n * MsPerDay
  {
    Instant(ShiftDays(t.date, n), t.ms)
  }

  /** addMonths: `n` calendar months later, the day of the month clamped to
      the target month's length, the time of day kept. */
  function AddMonths(t: Instant, n: int): (r: Instant)
    requires ValidInstant(t)
    ensures ValidInstant(r) && r.ms == t.ms
    ensures MonthIndex(r.date) == MonthIndex(t.date) + n
    ensures r.date.day == Min(t.date.day, DaysInMonth(r.date.year, r.date.month))
  {
    Instant(ClampedDayOfMonth(MonthIndex(t.date) + n, t.date.day), t.ms)
  }

  /** subMonths: addMonths with the amount negated. */
  function SubMonths(t: Instant, n: int): (r: Instant)
    requires ValidInstant(t)
    ensures ValidInstant(r) && r.ms == t.ms
    ensures MonthIndex(r.date) == MonthIndex(t.date) - n
    ensures r.date.day == Min(t.date.day, DaysInMonth(r.date.year, r.date.month))
  {
    AddMonths(t, -n)
  }

  /** setMonth: month `month` of `t`'s year (a month outside 0..11 rolls into
      an earlier or later year, as Date.setMonth does), the day clamped, the
      time of day kept. */
  function SetMonth(t: Instant, month: int): (r: Instant)
    requires ValidInstant(t)
    ensures ValidInstant(r) && r.ms == t.ms
    ensures MonthIndex(r.date) == t.date.year * 12 + month
    ensures 0 <= month < 12 ==> r.date.year == t.date.year && r.date.month == month
    ensures r.date.day == Min(t.date.day, DaysInMonth(r.date.year, r.date.month))
  {
    Instant(ClampedDayOfMonth(t.date.year * 12 + month, t.date.day), t.ms)
  }

  /** setYear: Date.setFullYear(year) with month, day and time kept; no
      clamping, so February 29 moved to a common year rolls over to March 1. */
  function SetYear(t: Instant, year: int): (r: Instant)
    requires ValidInstant(t)
    ensures ValidInstant(r) && r.ms == t.ms && r.date.year == year
    ensures ValidDate(CivilDate(year, t.date.month, t.date.day)) ==>
              r.date == CivilDate(year, t.date.month, t.date.day)
    ensures !ValidDate(CivilDate(year, t.date.month, t.date.day)) ==>
              r.date == NextDay(CivilDate(year, 1, 28))
  {
    if t.date.month == 1 && t.date.day == 29 && !IsLeapYear(year) then
      Instant(CivilDate(year, 2, 1), t.ms)
    else
      Instant(CivilDate(year, t.date.month, t.date.day), t.ms)
  }

  /** isSameDay is an equivalence that ignores the time of day, and on valid
      dates it is equality of day numbers. */
  lemma SameDayProperties(a: Instant, b: Instant, ms: int)
    requires ValidInstant(a) && ValidInstant(b)
    ensures IsSameDay(a, a)
    ensures IsSameDay(a, b) ==> IsSameDay(b, a)
    ensures IsSameDay(a, b) <==> IsSameDay(Instant(a.date, ms), b)
    ensures IsSameDay(a, b) <==> DayNumber(a.date) == DayNumber(b.date)
  {
    DayNumberInjective(a.date, b.date);
  }

  /** Comparison of instants follows the calendar: on different days, the
      earlier day is before whatever the times of day. */
  lemma BeforeFollowsCalendar(a: Instant, b: Instant)
    requires ValidInstant(a) && ValidInstant(b)
    ensures DayNumber(a.date) < DayNumber(b.date) ==> IsBefore(a, b)
    ensures IsSameDay(a, b) ==> (IsBefore(a, b) <==> a.ms < b.ms)
  {
  }

  /** prevMonth after nextMonth returns to the same month and year; the day
      comes back too unless the next month was too short to hold it. */
  lemma NextThenPrevMonth(t: Instant)
    requires ValidInstant(t)
    ensures IsSameMonth(SubMonths(AddMonths(t, 1), 1), t)
    ensures IsSameMonth(AddMonths(SubMonths(t, 1), 1), t)
    ensures t.date.day <= 28 ==> SubMonths(AddMonths(t, 1), 1) == t
  {
    var back := SubMonths(AddMonths(t, 1), 1);
    assert MonthIndex(back.date) == MonthIndex(t.date);
    var forth := AddMonths(SubMonths(t, 1), 1);
    assert MonthIndex(forth.date) == MonthIndex(t.date);
  }

  /** setMonth back to the original month restores the date unless the
      intermediate month was too short for its day; setting the month a date
      already has changes nothing. */
  lemma SetMonthRoundTrip(t: Instant, month: int)
    requires ValidInstant(t) && 0 <= month < 12
    ensures SetMonth(t, t.date.month) == t
    ensures t.date.day <= 28 ==> SetMonth(SetMonth(t, month), t.date.month) == t
  {
  }

  /** setYear back to the original year restores the date, except for
      February 29 sent to a common year. */
  lemma SetYearRoundTrip(t: Instant, year: int)
    requires ValidInstant(t)
    requires !(t.date.month == 1 && t.date.day == 29 && !IsLeapYear(year))
    ensures SetYear(SetYear(t, year), t.date.year) == t
  {
  }

  /** February 29, 2024 moved to 2023 becomes March 1, 2023. */
  lemma LeapDayToCommonYear(ms: int)
    requires 0 <= ms < MsPerDay
    ensures SetYear(Instant(CivilDate(2024, 1, 29), ms), 2023) == Instant(CivilDate(2023, 2, 1), ms)
  {
  }

  /** Month-end clamping: one month after January 31 is the last day of
      February, 28 or 29 by leap year. */
  lemma JanuaryEndPlusOneMonth(year: int, ms: int)
    requires 0 <= ms < MsPerDay
    ensures AddMonths(Instant(CivilDate(year, 0, 31), ms), 1)
            == Instant(CivilDate(year, 1, if IsLeapYear(year) then 29 else 28), ms)
  {
  }
}
