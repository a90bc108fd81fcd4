/** The month view's day grid (`monthDays`): whole weeks, from the week-start
    on or before the first day of the displayed month to the week-end on or
    after its last day, one cell per calendar day, each at midnight. */
module Grid {
  import opened Civil
  import opened DateFns

  /** `startDateGrid`: startOfWeek(startOfMonth(currentMonth)). */
  function GridStart(cm: Instant, ws: WeekStart): (r: Instant)
    requires ValidInstant(cm)
    ensures ValidInstant(r) && r.ms == 0 && Weekday(r.date) == ws
  {
    StartOfWeek(StartOfMonth(cm), ws)
  }

  /** `endDateGrid`: endOfWeek(endOfMonth(currentMonth)). */
  function GridEnd(cm: Instant, ws: WeekStart): (r: Instant)
    requires ValidInstant(cm)
    ensures ValidInstant(r) && r.ms == MsPerDay - 1 && Weekday(r.date) == (ws + 6) % 7
  {
    EndOfWeek(EndOfMonth(cm), ws)
  }

  /** Number of leading cells borrowed from the previous month. */
  function Lead(cm: Instant, ws: WeekStart): (n: int)
    requires ValidInstant(cm)
    ensures 0 <= n <= 6
  {
    DayNumber(StartOfMonth(cm).date) - DayNumber(GridStart(cm, ws).date)
  }

  /** Number of trailing cells borrowed from the next month. */
  function Trail(cm: Instant, ws: WeekStart): (n: int)
    requires ValidInstant(cm)
    ensures 0 <= n <= 6
  {
    DayNumber(GridEnd(cm, ws).date) - DayNumber(EndOfMonth(cm).date)
  }

  /** The grid as a whole: day i of it is the grid start moved by i days, at
      midnight. This is what the hook's loop produces (see
      UseCalendar.Calendar.MonthDays). */
  function MonthGrid(cm: Instant, ws: WeekStart): (g: seq<Instant>)
    requires ValidInstant(cm)
    ensures |g| == Lead(cm, ws) + DaysInMonth(cm.date.year, cm.date.month) + Trail(cm, ws)
  {
    var start := GridStart(cm, ws).date;
    var n := DayNumber(GridEnd(cm, ws).date) - DayNumber(start) + 1;
    seq(n, i requires 0 <= i < n => Instant(ShiftDays(start, i), 0))
  }

  lemma ModSevenWeek(a: int, b: int, ws: int)
    requires 0 <= ws <= 1 && a % 7 == ws && b % 7 == (ws + 6) % 7
    ensures (b - a + 1) % 7 == 0
  {
    var qa, qb := a / 7, b / 7;
    assert a == 7 * qa + ws;
    if ws == 0 {
      assert b == 7 * qb + 6;
      assert b - a + 1 == 7 * (qb - qa + 1);
    } else {
      assert b == 7 * qb;
      assert b - a + 1 == 7 * (qb - qa);
    }
  }

  /** The grid is made of whole weeks: 4, 5 or 6 rows of 7. */
  lemma GridLength(cm: Instant, ws: WeekStart)
    requires ValidInstant(cm)
    ensures |MonthGrid(cm, ws)| % 7 == 0
    ensures 28 <= |MonthGrid(cm, ws)| <= 42
  {
    var s, e := GridStart(cm, ws).date, GridEnd(cm, ws).date;
    var n := |MonthGrid(cm, ws)|;
    assert n == DayNumber(e) - DayNumber(s) + 1;
    ModSevenWeek(DayNumber(s), DayNumber(e), ws);
    WholeWeeksBound(n);
  }

  lemma WholeWeeksBound(n: int)
    requires n % 7 == 0 && n <= 43
    ensures n <= 42
  {
  }

  /** Every cell is a valid midnight, the cells are consecutive calendar days
      (each exactly one day after the previous), the first is the grid start
      (on the week-start weekday, at most six days before the 1st) and the
      last is the day of the grid end (on the weekday before the week-start,
      at most six days after the month's last day). */
  lemma GridConsecutive(cm: Instant, ws: WeekStart)
    requires ValidInstant(cm)
    ensures var g := MonthGrid(cm, ws);
      && (forall i | 0 <= i < |g| :: ValidInstant(g[i]) && g[i].ms == 0)
      && (forall i | 0 < i < |g| :: g[i] == AddDays(g[i - 1], 1))
      && (forall i, j | 0 <= i < j < |g| :: IsBefore(g[i], g[j]))
      && g[0] == GridStart(cm, ws) && Weekday(g[0].date) == ws
      && g[|g| - 1].date == GridEnd(cm, ws).date && Weekday(g[|g| - 1].date) == (ws + 6) % 7
  {
    var g := MonthGrid(cm, ws);
    var start := GridStart(cm, ws).date;
    forall i | 0 < i < |g|
      ensures g[i] == AddDays(g[i - 1], 1)
    {
      DayNumberInjective(g[i].date, AddDays(g[i - 1], 1).date);
    }
    forall i, j | 0 <= i < j < |g|
      ensures IsBefore(g[i], g[j])
    {
      assert Timestamp(g[i]) < Timestamp(g[j]);
    }
    DayNumberInjective(g[|g| - 1].date, GridEnd(cm, ws).date);
  }

  /** A leading cell: a day of the previous month, counted back from its end. */
  lemma LeadCell(cm: Instant, ws: WeekStart, i: int)
    requires ValidInstant(cm) && 0 <= i < Lead(cm, ws)
    ensures var c := MonthGrid(cm, ws)[i].date;
      MonthIndex(c) == MonthIndex(cm.date) - 1
      && c.day == DaysInMonth(c.year, c.month) - (Lead(cm, ws) - 1 - i)
  {
    var c := MonthGrid(cm, ws)[i].date;
    var p := PrevDay(StartOfMonth(cm).date);
    var q := CivilDate(p.year, p.month, p.day - (Lead(cm, ws) - 1 - i));
    assert DayNumber(q) == DayNumber(c);
    DayNumberInjective(q, c);
  }

  /** A middle cell: day `i - Lead + 1` of the displayed month. */
  lemma MiddleCell(cm: Instant, ws: WeekStart, i: int)
    requires ValidInstant(cm)
    requires Lead(cm, ws) <= i < Lead(cm, ws) + DaysInMonth(cm.date.year, cm.date.month)
    ensures MonthGrid(cm, ws)[i].date == CivilDate(cm.date.year, cm.date.month, i - Lead(cm, ws) + 1)
  {
    var c := MonthGrid(cm, ws)[i].date;
    var q := CivilDate(cm.date.year, cm.date.month, i - Lead(cm, ws) + 1);
    assert DayNumber(q) == DayNumber(c);
    DayNumberInjective(q, c);
  }

  /** A trailing cell: a day of the next month, counted from its start. */
  lemma TrailCell(cm: Instant, ws: WeekStart, i: int)
    requires ValidInstant(cm)
    requires Lead(cm, ws) + DaysInMonth(cm.date.year, cm.date.month) <= i < |MonthGrid(cm, ws)|
    ensures var c, k := MonthGrid(cm, ws)[i].date, i - Lead(cm, ws) - DaysInMonth(cm.date.year, cm.date.month);
      MonthIndex(c) == MonthIndex(cm.date) + 1 && c.day == k + 1
  {
    var c := MonthGrid(cm, ws)[i].date;
    var n := NextDay(EndOfMonth(cm).date);
    var q := CivilDate(n.year, n.month, i - Lead(cm, ws) - DaysInMonth(cm.date.year, cm.date.month) + 1);
    assert DayNumber(q) == DayNumber(c);
    DayNumberInjective(q, c);
  }

  /** Where each cell falls: the first Lead cells are the last days of the
      previous month, then come the days of the displayed month in order,
      then the first days of the next month. */
  lemma GridCell(cm: Instant, ws: WeekStart)
    requires ValidInstant(cm)
    ensures var g, lead, dim := MonthGrid(cm, ws), Lead(cm, ws), DaysInMonth(cm.date.year, cm.date.month);
      forall i | 0 <= i < |g| ::
        && (i < lead ==>
              MonthIndex(g[i].date) == MonthIndex(cm.date) - 1
              && g[i].date.day == DaysInMonth(g[i].date.year, g[i].date.month) - (lead - 1 - i))
        && (lead <= i < lead + dim ==>
              g[i].date == CivilDate(cm.date.year, cm.date.month, i - lead + 1))
        && (lead + dim <= i ==>
              MonthIndex(g[i].date) == MonthIndex(cm.date) + 1 && g[i].date.day == i - lead - dim + 1)
  {
    var g := MonthGrid(cm, ws);
    var lead, dim := Lead(cm, ws), DaysInMonth(cm.date.year, cm.date.month);
    forall i | 0 <= i < |g|
      ensures i < lead ==>
                MonthIndex(g[i].date) == MonthIndex(cm.date) - 1
                && g[i].date.day == DaysInMonth(g[i].date.year, g[i].date.month) - (lead - 1 - i)
      ensures lead <= i < lead + dim ==>
                g[i].date == CivilDate(cm.date.year, cm.date.month, i - lead + 1)
      ensures lead + dim <= i ==>
                MonthIndex(g[i].date) == MonthIndex(cm.date) + 1 && g[i].date.day == i - lead - dim + 1
    {
      if i < lead {
        LeadCell(cm, ws, i);
      } else if i < lead + dim {
        MiddleCell(cm, ws, i);
      } else {
        TrailCell(cm, ws, i);
      }
    }
  }

  /** A cell is in the displayed month (isSameMonth(day, currentMonth)) exactly
      when it lies in the middle block of DaysInMonth cells. */
  lemma GridSameMonth(cm: Instant, ws: WeekStart)
    requires ValidInstant(cm)
    ensures var g, lead, dim := MonthGrid(cm, ws), Lead(cm, ws), DaysInMonth(cm.date.year, cm.date.month);
      forall i | 0 <= i < |g| :: IsSameMonth(g[i], cm) <==> lead <= i < lead + dim
  {
    GridCell(cm, ws);
  }

  /** Every day of the displayed month appears in the grid exactly once, at
      position Lead + day - 1. */
  lemma GridCoversMonth(cm: Instant, ws: WeekStart, d: CivilDate)
    requires ValidInstant(cm) && ValidDate(d)
    requires d.year == cm.date.year && d.month == cm.date.month
    ensures var g, k := MonthGrid(cm, ws), Lead(cm, ws) + d.day - 1;
      && 0 <= k < |g| && g[k].date == d
      && forall j | 0 <= j < |g| && g[j].date == d :: j == k
  {
    GridCell(cm, ws);
  }

  /** The grid depends on the displayed month and year only, never on the
      day of the month or the time of `currentMonth`. */
  lemma GridIgnoresDay(cm1: Instant, cm2: Instant, ws: WeekStart)
    requires ValidInstant(cm1) && ValidInstant(cm2) && IsSameMonth(cm1, cm2)
    ensures MonthGrid(cm1, ws) == MonthGrid(cm2, ws)
  {
    assert StartOfMonth(cm1) == StartOfMonth(cm2);
    assert EndOfMonth(cm1) == EndOfMonth(cm2);
  }

  lemma March2024Weekdays()
    ensures Weekday(CivilDate(2024, 2, 1)) == 5
    ensures Weekday(CivilDate(2024, 2, 31)) == 0
  {
    assert DaysBeforeYear(2024) == 738885;
    assert DayNumber(CivilDate(2024, 2, 1)) == 738946;
  }

  /** March 2024 with weeks starting on Monday: the grid runs from Monday
      26 February to Sunday 31 March, five rows. */
  lemma March2024MondayGrid(cm: Instant)
    requires ValidInstant(cm) && cm.date.year == 2024 && cm.date.month == 2
    ensures var g := MonthGrid(cm, 1);
      && |g| == 35
      && g[0] == Instant(CivilDate(2024, 1, 26), 0)
      && g[34].date == CivilDate(2024, 2, 31)
  {
    March2024Weekdays();
    var first := StartOfMonth(cm);
    assert first.date == CivilDate(2024, 2, 1);
    assert GridStart(cm, 1).date == ShiftDays(first.date, -4);
    assert Lead(cm, 1) == 4;
    var last := EndOfMonth(cm);
    assert last.date == CivilDate(2024, 2, 31);
    assert GridEnd(cm, 1).date == ShiftDays(last.date, 0);
    assert Trail(cm, 1) == 0;
    GridCell(cm, 1);
    var c := MonthGrid(cm, 1)[0].date;
    assert c.year == 2024 && c.month == 1;
  }
}
