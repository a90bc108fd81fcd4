/** Proleptic Gregorian calendar arithmetic: the civil-date layer that the
    date-fns helpers (and JavaScript's Date underneath them) rely on.
    No time zones: a civil date is a local wall-clock calendar day. */
module Civil {

  /** A calendar day. `month` is zero-based, as JavaScript's getMonth()
      returns it (0 = January, 11 = December); `year` is astronomical
      (year 0 exists), as getFullYear() returns it. */
  datatype CivilDate = CivilDate(year: int, month: int, day: int)

  predicate IsLeapYear(y: int) {
    y % 4 == 0 && (y % 100 != 0 || y % 400 == 0)
  }

  /** Number of days of month `m` (0-based) of year `y`. */
  function DaysInMonth(y: int, m: int): (n: int)
    ensures 28 <= n <= 31
    ensures n == 28 || n == 29 ==> m == 1
  {
    if m == 1 then (if IsLeapYear(y) then 29 else 28)
    else if m == 3 || m == 5 || m == 8 || m == 10 then 30
    else 31
  }

  function DaysInYear(y: int): int {
    if IsLeapYear(y) then 366 else 365
  }

  /** A date JavaScript can represent without normalising it. */
  predicate ValidDate(d: CivilDate) {
    0 <= d.month < 12 && 1 <= d.day <= DaysInMonth(d.year, d.month)
  }

  /** Days of the years before `y`, counted from 0001-01-01 (floor division). */
  function DaysBeforeYear(y: int): int {
    365 * (y - 1) + (y - 1) / 4 - (y - 1) / 100 + (y - 1) / 400
  }

  /** Days of the months of year `y` that precede month `m`. */
  function DaysBeforeMonth(y: int, m: int): int {
    var leap := if IsLeapYear(y) then 1 else 0;
    if m <= 0 then 0
    else if m == 1 then 31
    else if m == 2 then 59 + leap
    else if m == 3 then 90 + leap
    else if m == 4 then 120 + leap
    else if m == 5 then 151 + leap
    else if m == 6 then 181 + leap
    else if m == 7 then 212 + leap
    else if m == 8 then 243 + leap
    else if m == 9 then 273 + leap
    else if m == 10 then 304 + leap
    else 334 + leap
  }

  /** Serial day number: 0001-01-01 is day 1. The JavaScript time value of a
      local midnight is this number times the day length, up to a constant. */
  function DayNumber(d: CivilDate): int {
    DaysBeforeYear(d.year) + DaysBeforeMonth(d.year, d.month) + d.day
  }

  /** Day of the week as getDay() returns it: 0 = Sunday, 6 = Saturday
      (0001-01-01, day number 1, was a Monday). */
  function Weekday(d: CivilDate): (w: int)
    ensures 0 <= w < 7
  {
    DayNumber(d) % 7
  }

  /** Lexicographic (calendar) order of dates. */
  predicate DateLess(a: CivilDate, b: CivilDate) {
    a.year < b.year
    || (a.year == b.year && a.month < b.month)
    || (a.year == b.year && a.month == b.month && a.day < b.day)
  }

  lemma YearStep(y: int)
    ensures DaysBeforeYear(y + 1) == DaysBeforeYear(y) + DaysInYear(y)
  {
    assert y / 4 - (y - 1) / 4 == (if y % 4 == 0 then 1 else 0);
    assert y / 100 - (y - 1) / 100 == (if y % 100 == 0 then 1 else 0);
    assert y / 400 - (y - 1) / 400 == (if y % 400 == 0 then 1 else 0);
  }

  lemma MonthStep(y: int, m: int)
    requires 0 <= m < 12
    ensures m < 11 ==> DaysBeforeMonth(y, m + 1) == DaysBeforeMonth(y, m) + DaysInMonth(y, m)
    ensures m == 11 ==> DaysBeforeMonth(y, m) + DaysInMonth(y, m) == DaysInYear(y)
  {
  }

  lemma {:induction false} DaysBeforeYearGrows(y1: int, y2: int)
    requires y1 <= y2
    ensures DaysBeforeYear(y1) + 365 * (y2 - y1) <= DaysBeforeYear(y2)
    decreases y2 - y1
  {
    if y1 < y2 {
      DaysBeforeYearGrows(y1, y2 - 1);
      YearStep(y2 - 1);
    }
  }

  lemma DaysBeforeMonthGrows(y: int, m1: int, m2: int)
    requires 0 <= m1 < m2 < 12
    ensures DaysBeforeMonth(y, m1) + DaysInMonth(y, m1) <= DaysBeforeMonth(y, m2)
  {
  }

  lemma DayOfYearBounds(d: CivilDate)
    requires ValidDate(d)
    ensures 1 <= DaysBeforeMonth(d.year, d.month) + d.day <= DaysInYear(d.year)
  {
    if d.month < 11 {
      MonthStep(d.year, d.month);
      DaysBeforeMonthGrows(d.year, d.month, 11);
    }
    MonthStep(d.year, 11);
  }

  /** Day numbers follow calendar order: a strictly earlier date has a
      strictly smaller day number. */
  lemma DayNumberMonotone(a: CivilDate, b: CivilDate)
    requires ValidDate(a) && ValidDate(b) && DateLess(a, b)
    ensures DayNumber(a) < DayNumber(b)
  {
    DayOfYearBounds(a);
    DayOfYearBounds(b);
    if a.year < b.year {
      YearStep(a.year);
      DaysBeforeYearGrows(a.year + 1, b.year);
    } else if a.month < b.month {
      DaysBeforeMonthGrows(a.year, a.month, b.month);
    }
  }

  /** Two valid dates are the same calendar day exactly when their day
      numbers agree. */
  lemma DayNumberInjective(a: CivilDate, b: CivilDate)
    requires ValidDate(a) && ValidDate(b)
    ensures a == b <==> DayNumber(a) == DayNumber(b)
  {
    if DateLess(a, b) {
      DayNumberMonotone(a, b);
    } else if DateLess(b, a) {
      DayNumberMonotone(b, a);
    }
  }

  /** The calendar day after `d` (what setDate(getDate() + 1) normalises to). */
  function NextDay(d: CivilDate): (r: CivilDate)
    requires ValidDate(d)
    ensures ValidDate(r) && DayNumber(r) == DayNumber(d) + 1
  {
    if d.day < DaysInMonth(d.year, d.month) then
      CivilDate(d.year, d.month, d.day + 1)
    else if d.month < 11 then
      MonthStep(d.year, d.month);
      CivilDate(d.year, d.month + 1, 1)
    else
      MonthStep(d.year, 11);
      YearStep(d.year);
      CivilDate(d.year + 1, 0, 1)
  }

  /** The calendar day before `d` (what setDate(getDate() - 1) normalises to). */
  function PrevDay(d: CivilDate): (r: CivilDate)
    requires ValidDate(d)
    ensures ValidDate(r) && DayNumber(r) == DayNumber(d) - 1
    ensures NextDay(r) == d
  {
    if d.day > 1 then
      CivilDate(d.year, d.month, d.day - 1)
    else if d.month > 0 then
      MonthStep(d.year, d.month - 1);
      CivilDate(d.year, d.month - 1, DaysInMonth(d.year, d.month - 1))
    else
      MonthStep(d.year - 1, 11);
      YearStep(d.year - 1);
      CivilDate(d.year - 1, 11, 31)
  }

  /** `d` moved by `n` days (negative `n` moves backwards), as JavaScript's
      setDate(getDate() + n) normalises day overflow into the adjacent months. */
  function ShiftDays(d: CivilDate, n: int): (r: CivilDate)
    requires ValidDate(d)
    ensures ValidDate(r) && DayNumber(r) == DayNumber(d) + n
    decreases if n < 0 then -n else n
  {
    if n == 0 then d
    else if n > 0 then ShiftDays(NextDay(d), n - 1)
    else ShiftDays(PrevDay(d), n + 1)
  }

  lemma ModSevenShift(x: int, n: int)
    ensures (x + n) % 7 == (x % 7 + n) % 7
  {
    var q := x / 7;
    assert x == 7 * q + x % 7;
    assert (x + n) - (x % 7 + n) == 7 * q;
  }

  /** Moving by `n` days moves the weekday by `n` (modulo 7). */
  lemma WeekdayShift(d: CivilDate, n: int)
    requires ValidDate(d)
    ensures Weekday(ShiftDays(d, n)) == (Weekday(d) + n) % 7
  {
    ModSevenShift(DayNumber(d), n);
  }
}
