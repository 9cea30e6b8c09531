/**
 * Calendar arithmetic on broken-down date-times, as the Carbon calls of the
 * task commands use it: whereDate comparisons, endOfDay, tomorrow at a fixed
 * hour, +1 day, +1 week, +1 hour, +1 month and +1 year with and without
 * overflow.  Dates are proleptic Gregorian; seconds are whole (Carbon's
 * microseconds are not modelled).
 */
module Calendar {

  datatype DateTime = DateTime(year: int, month: int, day: int, hour: int, minute: int, second: int)

  predicate IsLeapYear(y: int) {
    (y % 4 == 0 && y % 100 != 0) || y % 400 == 0
  }

  function DaysInMonth(y: int, m: int): (n: int)
    ensures 28 <= n <= 31
    ensures m == 2 ==> (n == 29 <==> IsLeapYear(y))
  {
    if m == 2 then (if IsLeapYear(y) then 29 else 28)
    else if m == 4 || m == 6 || m == 9 || m == 11 then 30
    else 31
  }

  function DaysInYear(y: int): int {
    if IsLeapYear(y) then 366 else 365
  }

  predicate Valid(d: DateTime) {
    && 1 <= d.month <= 12
    && 1 <= d.day <= DaysInMonth(d.year, d.month)
    && 0 <= d.hour < 24
    && 0 <= d.minute < 60
    && 0 <= d.second < 60
  }

  // ---------------------------------------------------------------------------
  // Orderings
  // ---------------------------------------------------------------------------

  /** Same calendar day, any time of day. */
  predicate SameDate(a: DateTime, b: DateTime) {
    a.year == b.year && a.month == b.month && a.day == b.day
  }

  /** The calendar day of a is strictly before that of b. */
  predicate DateBefore(a: DateTime, b: DateTime) {
    || a.year < b.year
    || (a.year == b.year && a.month < b.month)
    || (a.year == b.year && a.month == b.month && a.day < b.day)
  }

  /** SQL `DATE(a) <= DATE(b)`, as Laravel's whereDate('deadline', '<=', ...) issues it. */
  predicate DateOnlyLe(a: DateTime, b: DateTime) {
    DateBefore(a, b) || SameDate(a, b)
  }

  /** The instant a is strictly earlier than b. */
  predicate Before(a: DateTime, b: DateTime) {
    || DateBefore(a, b)
    || (SameDate(a, b) && a.hour < b.hour)
    || (SameDate(a, b) && a.hour == b.hour && a.minute < b.minute)
    || (SameDate(a, b) && a.hour == b.hour && a.minute == b.minute && a.second < b.second)
  }

  // ---------------------------------------------------------------------------
  // Absolute day numbers: the reference the day/month/year steps are checked
  // against.  Day 0 is 1 January of year 1.
  // ---------------------------------------------------------------------------

  function DaysBeforeYear(y: int): int {
    365 * (y - 1) + (y - 1) / 4 - (y - 1) / 100 + (y - 1) / 400
  }

  /** Days of year y that lie before the first of month m (1 <= m <= 12). */
  function DaysBeforeMonth(y: int, m: int): int {
    var leap := if IsLeapYear(y) then 1 else 0;
    if m <= 1 then 0
    else if m == 2 then 31
    else if m == 3 then 59 + leap
    else if m == 4 then 90 + leap
    else if m == 5 then 120 + leap
    else if m == 6 then 151 + leap
    else if m == 7 then 181 + leap
    else if m == 8 then 212 + leap
    else if m == 9 then 243 + leap
    else if m == 10 then 273 + leap
    else if m == 11 then 304 + leap
    else 334 + leap
  }

  function DayNumber(d: DateTime): int {
    DaysBeforeYear(d.year) + DaysBeforeMonth(d.year, d.month) + d.day - 1
  }

  lemma YearLength(y: int)
    ensures DaysBeforeYear(y + 1) == DaysBeforeYear(y) + DaysInYear(y)
  {
    var x := y - 1;
    assert (x + 1) / 4 == x / 4 + (if (x + 1) % 4 == 0 then 1 else 0);
    assert (x + 1) / 100 == x / 100 + (if (x + 1) % 100 == 0 then 1 else 0);
    assert (x + 1) / 400 == x / 400 + (if (x + 1) % 400 == 0 then 1 else 0);
  }

  lemma MonthLength(y: int, m: int)
    requires 1 <= m < 12
    ensures DaysBeforeMonth(y, m + 1) == DaysBeforeMonth(y, m) + DaysInMonth(y, m)
  {
  }

  lemma LastMonthLength(y: int)
    ensures DaysBeforeMonth(y, 12) + DaysInMonth(y, 12) == DaysInYear(y)
  {
  }

  /** The first day of the month after (y, m) is DaysInMonth(y, m) days after the first of (y, m). */
  lemma FirstOfNextMonth(y: int, m: int)
    requires 1 <= m <= 12
    ensures var (y', m') := NextMonth(y, m);
      DaysBeforeYear(y') + DaysBeforeMonth(y', m') == DaysBeforeYear(y) + DaysBeforeMonth(y, m) + DaysInMonth(y, m)
  {
    if m < 12 {
      MonthLength(y, m);
    } else {
      YearLength(y);
      LastMonthLength(y);
    }
  }

  lemma YearsAhead(y1: int, y2: int)
    requires y1 < y2
    ensures DaysBeforeYear(y1) + DaysInYear(y1) <= DaysBeforeYear(y2)
    decreases y2 - y1
  {
    YearLength(y1);
    if y1 + 1 < y2 {
      YearsAhead(y1 + 1, y2);
      YearLength(y1 + 1);
    }
  }

  lemma {:induction false} DayOfYearBound(d: DateTime)
    requires Valid(d)
    ensures 0 <= DaysBeforeMonth(d.year, d.month) + d.day - 1 < DaysInYear(d.year)
  {
    if d.month < 12 {
      MonthLength(d.year, d.month);
      if d.month + 1 < 12 {
        MonthsAhead(d.year, d.month + 1, 12);
      }
      LastMonthLength(d.year);
    } else {
      LastMonthLength(d.year);
    }
  }

  lemma MonthsAhead(y: int, m1: int, m2: int)
    requires 1 <= m1 < m2 <= 12
    ensures DaysBeforeMonth(y, m1) + DaysInMonth(y, m1) <= DaysBeforeMonth(y, m2)
  {
  }

  /** Day numbers order calendar days exactly as the date-only comparison does. */
  lemma {:induction false} DateOrderMatchesDayNumber(a: DateTime, b: DateTime)
    requires Valid(a) && Valid(b)
    ensures DateBefore(a, b) <==> DayNumber(a) < DayNumber(b)
    ensures SameDate(a, b) <==> DayNumber(a) == DayNumber(b)
  {
    DayOfYearBound(a);
    DayOfYearBound(b);
    if a.year < b.year {
      YearsAhead(a.year, b.year);
    } else if b.year < a.year {
      YearsAhead(b.year, a.year);
    } else if a.month < b.month {
      MonthsAhead(a.year, a.month, b.month);
    } else if b.month < a.month {
      MonthsAhead(a.year, b.month, a.month);
    }
  }

  // ---------------------------------------------------------------------------
  // Steps
  // ---------------------------------------------------------------------------

  function NextMonth(y: int, m: int): (int, int) {
    if m < 12 then (y, m + 1) else (y + 1, 1)
  }

  /** Carbon endOfDay(): the same calendar day at 23:59:59. */
  function EndOfDay(d: DateTime): (r: DateTime)
    ensures SameDate(r, d)
    ensures r.hour == 23 && r.minute == 59 && r.second == 59
  {
    d.(hour := 23, minute := 59, second := 59)
  }

  /** The same time of day on the following calendar day. */
  function NextDay(d: DateTime): DateTime {
    if d.day < DaysInMonth(d.year, d.month) then d.(day := d.day + 1)
    else if d.month < 12 then d.(month := d.month + 1, day := 1)
    else d.(year := d.year + 1, month := 1, day := 1)
  }

  /** Carbon addDays(n): n calendar days later, same time of day. */
  function AddDays(d: DateTime, n: nat): DateTime
    decreases n
  {
    if n == 0 then d else AddDays(NextDay(d), n - 1)
  }

  /** Carbon addHour(), equivalently subHour(-1). */
  function AddHour(d: DateTime): DateTime {
    if d.hour < 23 then d.(hour := d.hour + 1)
    else NextDay(d).(hour := 0)
  }

  /** Carbon::tomorrow()->setTime(h, mi, s) relative to the clock value now. */
  function TomorrowAt(now: DateTime, h: int, mi: int, s: int): DateTime {
    NextDay(now).(hour := h, minute := mi, second := s)
  }

  /** Carbon addMonthNoOverflow(): next month, day clamped to that month's length. */
  function AddMonthNoOverflow(d: DateTime): DateTime {
    var (y, m) := NextMonth(d.year, d.month);
    var last := DaysInMonth(y, m);
    d.(year := y, month := m, day := if d.day <= last then d.day else last)
  }

  /** Carbon addYearNoOverflow(): next year, 29 February clamped to the 28th. */
  function AddYearNoOverflow(d: DateTime): DateTime {
    var last := DaysInMonth(d.year + 1, d.month);
    d.(year := d.year + 1, day := if d.day <= last then d.day else last)
  }

  /**
   * Carbon addMonth() (PHP's "+1 month"): the same day number in the next
   * month; days past that month's end spill over into the month after.
   */
  function AddMonth(d: DateTime): DateTime {
    var (y, m) := NextMonth(d.year, d.month);
    var last := DaysInMonth(y, m);
    if d.day <= last then d.(year := y, month := m)
    else
      var (y2, m2) := NextMonth(y, m);
      d.(year := y2, month := m2, day := d.day - last)
  }

  /** Carbon addYear(): 29 February of a leap year becomes 1 March. */
  function AddYear(d: DateTime): DateTime {
    var last := DaysInMonth(d.year + 1, d.month);
    if d.day <= last then d.(year := d.year + 1)
    else d.(year := d.year + 1, month := 3, day := 1)
  }

  // ---------------------------------------------------------------------------
  // Properties of the steps
  // ---------------------------------------------------------------------------

  /** NextDay stays a valid date, keeps the time, and is exactly one day later. */
  lemma {:induction false} NextDayIsOneDayLater(d: DateTime)
    requires Valid(d)
    ensures Valid(NextDay(d))
    ensures DayNumber(NextDay(d)) == DayNumber(d) + 1
    ensures DateBefore(d, NextDay(d))
    ensures NextDay(d).hour == d.hour && NextDay(d).minute == d.minute && NextDay(d).second == d.second
  {
    if d.day == DaysInMonth(d.year, d.month) {
      FirstOfNextMonth(d.year, d.month);
    }
  }

  /** AddDays(d, n) is a valid date exactly n days later, at the same time of day. */
  lemma {:induction false} AddDaysIsNDaysLater(d: DateTime, n: nat)
    requires Valid(d)
    ensures Valid(AddDays(d, n))
    ensures DayNumber(AddDays(d, n)) == DayNumber(d) + n
    ensures AddDays(d, n).hour == d.hour && AddDays(d, n).minute == d.minute && AddDays(d, n).second == d.second
    decreases n
  {
    if n > 0 {
      NextDayIsOneDayLater(d);
      AddDaysIsNDaysLater(NextDay(d), n - 1);
    }
  }

  /** A positive number of days later lands on a strictly later calendar day. */
  lemma AddDaysIsLaterDate(d: DateTime, n: nat)
    requires Valid(d) && n > 0
    ensures Valid(AddDays(d, n))
    ensures DateBefore(d, AddDays(d, n))
  {
    AddDaysIsNDaysLater(d, n);
    DateOrderMatchesDayNumber(d, AddDays(d, n));
  }

  /** One hour later is a valid, strictly later instant. */
  lemma AddHourIsLater(d: DateTime)
    requires Valid(d)
    ensures Valid(AddHour(d))
    ensures Before(d, AddHour(d))
  {
    if d.hour == 23 {
      NextDayIsOneDayLater(d);
    }
  }

  /**
   * addMonthNoOverflow lands in the following calendar month, on the same day
   * when that month has it and on its last day otherwise; never further.
   */
  lemma AddMonthNoOverflowLandsInNextMonth(d: DateTime)
    requires Valid(d)
    ensures var r := AddMonthNoOverflow(d);
      && Valid(r)
      && (r.year, r.month) == NextMonth(d.year, d.month)
      && (r.day == d.day || (r.day < d.day && r.day == DaysInMonth(r.year, r.month)))
      && DateBefore(d, r)
  {
  }

  /** addYearNoOverflow keeps month and day, except 29 February becomes 28 February. */
  lemma AddYearNoOverflowLandsInNextYear(d: DateTime)
    requires Valid(d)
    ensures var r := AddYearNoOverflow(d);
      && Valid(r)
      && r.year == d.year + 1 && r.month == d.month
      && (r.day == d.day || (d.month == 2 && d.day == 29 && r.day == 28))
      && DateBefore(d, r)
  {
  }

  /**
   * addMonth is (day - 1) days after the first of the next month, so a day
   * the next month lacks spills into the month after it.
   */
  lemma {:induction false} AddMonthOverflowDays(d: DateTime)
    requires Valid(d)
    ensures Valid(AddMonth(d))
    ensures var (y, m) := NextMonth(d.year, d.month);
      DayNumber(AddMonth(d)) == DaysBeforeYear(y) + DaysBeforeMonth(y, m) + d.day - 1
  {
    var (y, m) := NextMonth(d.year, d.month);
    if d.day > DaysInMonth(y, m) {
      FirstOfNextMonth(y, m);
    }
  }

  /** addYear keeps month and day when the next year has them; 29 February becomes 1 March. */
  lemma {:induction false} AddYearOverflowDays(d: DateTime)
    requires Valid(d)
    ensures Valid(AddYear(d))
    ensures d.day <= DaysInMonth(d.year + 1, d.month) ==> AddYear(d) == d.(year := d.year + 1)
    ensures d.day > DaysInMonth(d.year + 1, d.month) ==>
      AddYear(d) == NextDay(d.(year := d.year + 1, day := 28))
  {
  }

  /** 31 January advances to the end of February, never into March. */
  lemma EndOfJanuaryExample()
    ensures AddMonthNoOverflow(DateTime(2025, 1, 31, 10, 0, 0)) == DateTime(2025, 2, 28, 10, 0, 0)
    ensures AddMonthNoOverflow(DateTime(2024, 1, 31, 10, 0, 0)) == DateTime(2024, 2, 29, 10, 0, 0)
    ensures AddMonth(DateTime(2025, 1, 31, 10, 0, 0)) == DateTime(2025, 3, 3, 10, 0, 0)
    ensures AddYearNoOverflow(DateTime(2024, 2, 29, 0, 0, 0)) == DateTime(2025, 2, 28, 0, 0, 0)
    ensures AddYear(DateTime(2024, 2, 29, 0, 0, 0)) == DateTime(2025, 3, 1, 0, 0, 0)
  {
  }
}
