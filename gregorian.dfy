/** The proleptic Gregorian calendar behind JavaScript's `Date` on local calendar days: leap
    years, month lengths, a serial day number (what `getTime()` compares once a date has been
    normalised to midnight), weekdays as `getDay()` reports them, stepping one day back with
    `setDate(getDate() - 1)`, and the year and month handling of `new Date(year, month, 1)`:
    a year from 0 to 99 is read as 1900 + year, and whole years are carried out of the month.
    Years are unbounded here; `Date`'s range limit of 8.64e15 milliseconds around 1970 is not
    modelled. */
module Gregorian {

  /** A calendar day: `month` is 1-based (1 = January), as in an ISO 8601 date. */
  datatype Date = Date(year: int, month: int, day: int)

  predicate IsLeapYear(y: int) { y % 4 == 0 && (y % 100 != 0 || y % 400 == 0) }

  function DaysInYear(y: int): int { if IsLeapYear(y) then 366 else 365 }

  /** The number of days of month `m` (1..12) of year `y`: what
      `new Date(y, m, 0).getDate()` yields for the 0-based month `m - 1`. */
  function DaysInMonth(y: int, m: int): (n: int)
    requires 1 <= m <= 12
    ensures 28 <= n <= 31
    ensures m == 2 ==> (n == 29 <==> IsLeapYear(y))
    ensures m != 2 ==> n == 30 || n == 31
    ensures n == 30 <==> m == 4 || m == 6 || m == 9 || m == 11
  {
    if m == 2 then (if IsLeapYear(y) then 29 else 28)
    else if m == 4 || m == 6 || m == 9 || m == 11 then 30
    else 31
  }

  /** A date the calendar has: a month 1..12 and a day within that month's length. */
  predicate ValidDate(d: Date) {
    1 <= d.month <= 12 && 1 <= d.day <= DaysInMonth(d.year, d.month)
  }

  /** A 0-based month index, as `getMonth()` returns it (0 = January). */
  type MonthIndex = m: int | 0 <= m < 12

  /** Days from 0001-01-01 to January 1st of year `y`: 365 a year plus one per leap year. */
  function DaysBeforeYear(y: int): int {
    var p := y - 1;
    365 * p + p / 4 - p / 100 + p / 400
  }

  /** Days from January 1st of year `y` to the 1st of month `m`; month 13 stands for the next January. */
  function DaysBeforeMonth(y: int, m: int): (n: int)
    requires 1 <= m <= 13
    ensures 0 <= n
  {
    if m == 1 then 0 else DaysBeforeMonth(y, m - 1) + DaysInMonth(y, m - 1)
  }

  /** The serial day number of a date: 0 for 0001-01-01, and one more for each following day. */
  function DayNumber(d: Date): int
    requires 1 <= d.month <= 12
  {
    DaysBeforeYear(d.year) + DaysBeforeMonth(d.year, d.month) + d.day - 1
  }

  /** `getDay()`: 0 for Sunday, 1 for Monday, ..., 6 for Saturday (0001-01-01 was a Monday). */
  function Weekday(d: Date): (w: int)
    requires 1 <= d.month <= 12
    ensures 0 <= w < 7
  {
    (DayNumber(d) + 1) % 7
  }

  /** The date that `setDate(getDate() - 1)` leaves: the day before, across month and year ends. */
  function PreviousDay(d: Date): Date
    requires ValidDate(d)
  {
    if d.day > 1 then Date(d.year, d.month, d.day - 1)
    else if d.month > 1 then Date(d.year, d.month - 1, DaysInMonth(d.year, d.month - 1))
    else Date(d.year - 1, 12, 31)
  }

  /** The date that `new Date(year, monthIndex, day)` denotes for an out-of-range 0-based month
      index: whole years are carried into the year, the rest stays as the 0-based month. */
  function NormalizeMonth(year: int, monthIndex: int): (r: (int, MonthIndex))
    ensures 0 <= r.1 < 12
    ensures r.0 * 12 + r.1 == year * 12 + monthIndex
  {
    (year + monthIndex / 12, monthIndex % 12)
  }

  /** The year that `new Date(year, monthIndex, day)` uses: a year from 0 to 99 is read as
      1900 + year, any other year as it is, so the result is never a two-digit year. */
  function ConstructorYear(year: int): (y: int)
    ensures 0 <= year <= 99 ==> y == 1900 + year
    ensures year < 0 || 100 <= year ==> y == year
    ensures y < 0 || 100 <= y
  {
    if 0 <= year <= 99 then 1900 + year else year
  }

  /** The year and 0-based month of `new Date(year, monthIndex, 1)`: the year is read as the
      constructor reads it, then whole years are carried out of the month index. */
  function NewDateMonth(year: int, monthIndex: int): (r: (int, MonthIndex))
    ensures 0 <= r.1 < 12
    ensures r.0 * 12 + r.1 == ConstructorYear(year) * 12 + monthIndex
  {
    NormalizeMonth(ConstructorYear(year), monthIndex)
  }

  // ---- Lemmas ----

  lemma DaysBeforeNextYear(y: int)
    ensures DaysBeforeYear(y + 1) == DaysBeforeYear(y) + DaysInYear(y)
  {
    QuotientStep4(y);
    QuotientStep100(y);
    QuotientStep400(y);
    MultiplesNest(y);
    var leap := if IsLeapYear(y) then 1 else 0;
    assert (if y % 4 == 0 then 1 else 0) - (if y % 100 == 0 then 1 else 0) + (if y % 400 == 0 then 1 else 0) == leap;
  }

  /** A multiple of 400 is a multiple of 100, and a multiple of 100 a multiple of 4. */
  lemma MultiplesNest(y: int)
    ensures y % 400 == 0 ==> y % 100 == 0
    ensures y % 100 == 0 ==> y % 4 == 0
  {
    if y % 400 == 0 {
      var q := y / 400;
      assert y == 400 * q;
      var r := y - 100 * (4 * q);
      assert r == 0;
    }
    if y % 100 == 0 {
      var q := y / 100;
      assert y == 100 * q;
      var r := y - 4 * (25 * q);
      assert r == 0;
    }
  }

  /** Each of the next three: the count of multiples grows by one exactly at a multiple. */
  lemma QuotientStep4(y: int)
    ensures y / 4 == (y - 1) / 4 + (if y % 4 == 0 then 1 else 0)
  {
  }

  lemma QuotientStep100(y: int)
    ensures y / 100 == (y - 1) / 100 + (if y % 100 == 0 then 1 else 0)
  {
  }

  lemma QuotientStep400(y: int)
    ensures y / 400 == (y - 1) / 400 + (if y % 400 == 0 then 1 else 0)
  {
  }

  /** The twelve months fill the year exactly. */
  lemma MonthsFillYear(y: int)
    ensures DaysBeforeMonth(y, 13) == DaysInYear(y)
  {
    var leap := if IsLeapYear(y) then 1 else 0;
    assert DaysBeforeMonth(y, 2) == 31;
    assert DaysBeforeMonth(y, 3) == 59 + leap;
    assert DaysBeforeMonth(y, 4) == 90 + leap;
    assert DaysBeforeMonth(y, 5) == 120 + leap;
    assert DaysBeforeMonth(y, 6) == 151 + leap;
    assert DaysBeforeMonth(y, 7) == 181 + leap;
    assert DaysBeforeMonth(y, 8) == 212 + leap;
    assert DaysBeforeMonth(y, 9) == 243 + leap;
    assert DaysBeforeMonth(y, 10) == 273 + leap;
    assert DaysBeforeMonth(y, 11) == 304 + leap;
    assert DaysBeforeMonth(y, 12) == 334 + leap;
  }

  lemma {:induction false} DaysBeforeMonthMonotone(y: int, m1: int, m2: int)
    requires 1 <= m1 <= m2 <= 13
    ensures DaysBeforeMonth(y, m1) <= DaysBeforeMonth(y, m2)
    decreases m2 - m1
  {
    if m1 < m2 {
      DaysBeforeMonthMonotone(y, m1, m2 - 1);
    }
  }

  lemma {:induction false} DaysBeforeYearMonotone(y1: int, y2: int)
    requires y1 <= y2
    ensures DaysBeforeYear(y1) + 365 * (y2 - y1) <= DaysBeforeYear(y2)
    decreases y2 - y1
  {
    if y1 < y2 {
      DaysBeforeYearMonotone(y1, y2 - 1);
      DaysBeforeNextYear(y2 - 1);
    }
  }

  /** A valid date's day number lies inside its month, and so inside its year. */
  lemma DayNumberBounds(d: Date)
    requires ValidDate(d)
    ensures DaysBeforeYear(d.year) + DaysBeforeMonth(d.year, d.month) <= DayNumber(d)
    ensures DayNumber(d) < DaysBeforeYear(d.year) + DaysBeforeMonth(d.year, d.month + 1)
    ensures DaysBeforeYear(d.year) <= DayNumber(d) < DaysBeforeYear(d.year + 1)
  {
    DaysBeforeMonthMonotone(d.year, d.month + 1, 13);
    MonthsFillYear(d.year);
    DaysBeforeNextYear(d.year);
  }

  /** Dates of different years have different day numbers. */
  lemma SameDayNumberSameYear(a: Date, b: Date)
    requires ValidDate(a) && ValidDate(b) && DayNumber(a) == DayNumber(b)
    ensures a.year == b.year
  {
    DayNumberBounds(a);
    DayNumberBounds(b);
    if a.year < b.year {
      DaysBeforeYearMonotone(a.year + 1, b.year);
    } else if b.year < a.year {
      DaysBeforeYearMonotone(b.year + 1, a.year);
    }
  }

  /** Distinct valid dates have distinct day numbers, so comparing `getTime()` of two dates
      normalised to midnight compares the calendar days themselves. */
  lemma DayNumberInjective(a: Date, b: Date)
    requires ValidDate(a) && ValidDate(b)
    ensures DayNumber(a) == DayNumber(b) <==> a == b
  {
    if DayNumber(a) == DayNumber(b) {
      SameDayNumberSameYear(a, b);
      DayNumberBounds(a);
      DayNumberBounds(b);
      if a.month < b.month {
        DaysBeforeMonthMonotone(a.year, a.month + 1, b.month);
      } else if b.month < a.month {
        DaysBeforeMonthMonotone(a.year, b.month + 1, a.month);
      }
    }
  }

  /** Stepping back one day with `setDate(getDate() - 1)` lowers the day number by exactly one
      and lands on a valid date. */
  lemma PreviousDayNumber(d: Date)
    requires ValidDate(d)
    ensures DayNumber(PreviousDay(d)) == DayNumber(d) - 1
    ensures ValidDate(PreviousDay(d))
  {
    if d.day == 1 && d.month == 1 {
      DaysBeforeNextYear(d.year - 1);
      MonthsFillYear(d.year - 1);
    }
  }

  /** The 1st of the following month is exactly `DaysInMonth` days after the 1st of a month:
      so `new Date(year, month + 1, 0)`, the day before it, is the month's last day. */
  lemma NextMonthStartsAfterLastDay(y: int, m: int)
    requires 1 <= m <= 12
    ensures var next := NormalizeMonth(y, m);
      DayNumber(Date(next.0, next.1 + 1, 1)) == DayNumber(Date(y, m, 1)) + DaysInMonth(y, m)
  {
    if m == 12 {
      DaysBeforeNextYear(y);
      MonthsFillYear(y);
    }
  }

  /** Day 0 of the following month, as `Date` reads it, is the last day of month `m`. */
  lemma DayBeforeNextMonth(y: int, m: int)
    requires 1 <= m <= 12
    ensures var next := NormalizeMonth(y, m);
      PreviousDay(Date(next.0, next.1 + 1, 1)) == Date(y, m, DaysInMonth(y, m))
  {
    var next := NormalizeMonth(y, m);
    var firstOfNext := Date(next.0, next.1 as int + 1, 1);
    PreviousDayNumber(firstOfNext);
    NextMonthStartsAfterLastDay(y, m);
    DayNumberInjective(PreviousDay(firstOfNext), Date(y, m, DaysInMonth(y, m)));
  }

  /** `getDay()` advances by one (mod 7) from each day to the next. */
  lemma WeekdayOfPreviousDay(d: Date)
    requires ValidDate(d)
    ensures Weekday(PreviousDay(d)) == (Weekday(d) + 6) % 7
  {
    PreviousDayNumber(d);
    ModSevenStepBack(DayNumber(d) + 1);
  }

  lemma ModSevenStepBack(k: int)
    ensures (k - 1) % 7 == (k % 7 + 6) % 7
  {
    var q, r := k / 7, k % 7;
    if r == 0 {
      assert k - 1 == 7 * (q - 1) + 6;
    } else {
      assert k - 1 == 7 * q + (r - 1);
    }
  }

  /** Anchors: 0001-01-01 was a Monday and 1970-01-01, the JavaScript epoch, a Thursday. */
  lemma KnownWeekdays()
    ensures Weekday(Date(1, 1, 1)) == 1
    ensures DayNumber(Date(1970, 1, 1)) == 719162 && Weekday(Date(1970, 1, 1)) == 4
  {
    assert DaysBeforeYear(1) == 0 && DaysBeforeMonth(1, 1) == 0;
    assert DaysBeforeYear(1970) == 719162 && DaysBeforeMonth(1970, 1) == 0;
  }
}
