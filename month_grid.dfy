/** The month grid of the calendar view: a Monday-first week layout of one month, the "today"
    highlight of a cell, and the previous/next month buttons. */
module MonthGrid {
  import opened Text
  import opened Gregorian

  /** `firstDayWeekday === 0 ? 6 : firstDayWeekday - 1`: moves `getDay()`'s Sunday-first weekday
      to a Monday-first column. */
  function StartOffset(firstDayWeekday: int): (offset: int)
    requires 0 <= firstDayWeekday < 7
    ensures 0 <= offset < 7
    ensures offset == (firstDayWeekday + 6) % 7
    ensures offset == 0 <==> firstDayWeekday == 1
    ensures offset == 6 <==> firstDayWeekday == 0
  {
    if firstDayWeekday == 0 then 6 else firstDayWeekday - 1
  }

  /** `new Date(year, month, day)` for a day of the shown month: the calendar day the grid lays
      out, with the year read as the `Date` constructor reads it. */
  function CellDate(year: int, month: MonthIndex, day: int): Date
  {
    Date(ConstructorYear(year), month + 1, day)
  }

  /** The number of empty cells before day 1 of the shown month: `startOffset` of
      `firstDayOfMonth = new Date(year, month, 1)`. */
  function MonthStartOffset(year: int, month: MonthIndex): (offset: int)
    ensures 0 <= offset < 7
  {
    StartOffset(Weekday(CellDate(year, month, 1)))
  }

  /** `new Date(year, month + 1, 0)`: day 0 of the following month, which `Date` reads as the
      day before that month's 1st. */
  function LastDayOfMonth(year: int, month: MonthIndex): (last: Date)
    ensures last == CellDate(year, month, DaysInMonth(ConstructorYear(year), month + 1))
  {
    var y := ConstructorYear(year);
    var next := NormalizeMonth(y, month + 1);
    DayBeforeNextMonth(y, month + 1);
    PreviousDay(Date(next.0, next.1 + 1, 1))
  }

  /** `lastDayOfMonth.getDate()`: the length of the shown month, 28 to 31 days. */
  function DaysInShownMonth(year: int, month: MonthIndex): (n: int)
    ensures n == DaysInMonth(ConstructorYear(year), month + 1) && 28 <= n <= 31
  {
    LastDayOfMonth(year, month).day
  }

  /** The cells of a month grid: `startOffset` empty cells, then the days 1..daysInMonth in order,
      one per cell. */
  predicate MonthLayout(cells: seq<Option<int>>, startOffset: nat, daysInMonth: nat)
  {
    && |cells| == startOffset + daysInMonth
    && (forall i :: 0 <= i < startOffset ==> cells[i] == None)
    && (forall i :: startOffset <= i < |cells| ==> cells[i] == Some(i - startOffset + 1))
  }

  /** `calendarDays`: the shown month's grid, with `startOffset` nulls before day 1 and every day
      of the month after them. */
  method BuildCalendarDays(year: int, month: MonthIndex) returns (calendarDays: seq<Option<int>>)
    ensures MonthLayout(calendarDays, MonthStartOffset(year, month), DaysInShownMonth(year, month))
  {
    var startOffset := MonthStartOffset(year, month);
    var daysInMonth := DaysInShownMonth(year, month);
    calendarDays := LayOutDays(startOffset, daysInMonth);
  }

  /** The two loops that fill `calendarDays`: `startOffset` nulls pushed one by one, then the days
      1..daysInMonth. */
  method LayOutDays(startOffset: nat, daysInMonth: nat) returns (calendarDays: seq<Option<int>>)
    ensures MonthLayout(calendarDays, startOffset, daysInMonth)
  {
    calendarDays := [];
    var i := 0;
    while i < startOffset
      invariant 0 <= i <= startOffset
      invariant |calendarDays| == i
      invariant forall k :: 0 <= k < i ==> calendarDays[k] == None
    {
      calendarDays := calendarDays + [None];
      i := i + 1;
    }
    var day := 1;
    while day <= daysInMonth
      invariant 1 <= day <= daysInMonth + 1
      invariant |calendarDays| == startOffset + day - 1
      invariant forall k :: 0 <= k < startOffset ==> calendarDays[k] == None
      invariant forall k :: startOffset <= k < |calendarDays| ==> calendarDays[k] == Some(k - startOffset + 1)
    {
      calendarDays := calendarDays + [Some(day)];
      day := day + 1;
    }
  }

  /** `isToday(day)`: the cell's day, month and year all equal the wall clock's, passed in as `today`. */
  function IsToday(year: int, month: MonthIndex, day: int, today: Date): bool
  {
    day == today.day && month == today.month - 1 && year == today.year
  }

  /** `new Date(year, month - 1, 1)` behind the previous-month button: the month before the one
      the grid shows, wrapping from January to December of the year before. */
  function GoToPreviousMonth(year: int, month: MonthIndex): (r: (int, MonthIndex))
    ensures var y := ConstructorYear(year);
      r == if month == 0 then (y - 1, 11) else (y, month - 1)
  {
    NewDateMonth(year, month - 1)
  }

  /** `new Date(year, month + 1, 1)` behind the next-month button: the month after the one the
      grid shows, wrapping from December to January of the year after. */
  function GoToNextMonth(year: int, month: MonthIndex): (r: (int, MonthIndex))
    ensures var y := ConstructorYear(year);
      r == if month == 11 then (y + 1, 0) else (y, month + 1)
  {
    NewDateMonth(year, month + 1)
  }

  /** `goToToday`: shows the month of the wall clock's date. Today's cell is then the highlighted
      one, and, outside the two-digit years, the grid lays out today's month with today in it. */
  function GoToToday(today: Date): (r: (int, MonthIndex))
    requires ValidDate(today)
    ensures IsToday(r.0, r.1, today.day, today)
    ensures today.year < 0 || 100 <= today.year ==>
      CellDate(r.0, r.1, today.day) == today && 1 <= today.day <= DaysInShownMonth(r.0, r.1)
  {
    (today.year, today.month - 1)
  }

  // ---- Lemmas ----

  lemma ModMultiple(k: int, x: int)
    ensures (7 * k + x) % 7 == x % 7
  {
    var q, r := x / 7, x % 7;
    assert 7 * k + x == 7 * (k + q) + r;
  }

  lemma ModAdd(a: int, b: int)
    ensures (a + b) % 7 == (a % 7 + b) % 7
  {
    ModMultiple(a / 7, a % 7 + b);
  }

  /** Sunday-first weekday of a day number, moved to a Monday-first column: the day number mod 7. */
  lemma MondayFirstColumn(n: int)
    ensures ((n + 1) % 7 + 6) % 7 == n % 7
  {
    ModAdd(n + 1, 6);
    ModMultiple(1, n);
  }

  /** Every cell of the grid sits in the column of its weekday: column `i % 7` of the Monday-first
      header holds the day `i - startOffset + 1`, whose Monday-first weekday is `i % 7`. */
  lemma CellColumnIsWeekday(year: int, month: MonthIndex, i: int)
    requires MonthStartOffset(year, month) <= i < MonthStartOffset(year, month) + DaysInShownMonth(year, month)
    ensures var day := i - MonthStartOffset(year, month) + 1;
      StartOffset(Weekday(CellDate(year, month, day))) == i % 7
  {
    ColumnOfDay(ConstructorYear(year), month + 1, i);
  }

  /** In month `m` of year `y`, laid out Monday-first, cell `i` holds a day of weekday column
      `i % 7`. */
  lemma ColumnOfDay(y: int, m: int, i: int)
    requires 1 <= m <= 12
    ensures var offset := StartOffset(Weekday(Date(y, m, 1)));
      StartOffset(Weekday(Date(y, m, i - offset + 1))) == i % 7
  {
    var offset := StartOffset(Weekday(Date(y, m, 1)));
    var n1 := DayNumber(Date(y, m, 1));
    assert DayNumber(Date(y, m, i - offset + 1)) == n1 + (i - offset);
    ColumnFromFirstDay(n1, i);
  }

  /** The day `i - offset` days after a 1st with day number `n1` sits in column `i % 7`. */
  lemma ColumnFromFirstDay(n1: int, i: int)
    ensures var offset := StartOffset((n1 + 1) % 7);
      StartOffset((n1 + (i - offset) + 1) % 7) == i % 7
  {
    var offset := StartOffset((n1 + 1) % 7);
    MondayFirstColumn(n1);
    assert offset == n1 % 7;
    MondayFirstColumn(n1 + (i - offset));
    ModAdd(n1, i - offset);
  }

  /** The highlighted cell is the one whose calendar day is the wall clock's day, outside the
      two-digit years: there the grid lays out 19yy while `isToday` compares the year as shown. */
  lemma IsTodayIffSameDay(year: int, month: MonthIndex, day: int, today: Date)
    requires ValidDate(CellDate(year, month, day)) && ValidDate(today)
    ensures year < 0 || 100 <= year ==>
      (IsToday(year, month, day, today) <==> DayNumber(CellDate(year, month, day)) == DayNumber(today))
    ensures 0 <= year <= 99 ==> !(IsToday(year, month, day, today) && CellDate(year, month, day) == today)
  {
    DayNumberInjective(CellDate(year, month, day), today);
  }

  /** Previous then next, or next then previous, shows the same month again exactly when neither
      step passes through a two-digit year, which the `Date` constructor reads as 19yy (see
      `TwoDigitYearsJump`). */
  lemma NavigationRoundTrip(year: int, month: MonthIndex)
    ensures var p := GoToPreviousMonth(year, month);
      GoToNextMonth(p.0, p.1) == (year, month) <==> year < 0 || 100 < year || (year == 100 && 0 < month)
    ensures var n := GoToNextMonth(year, month);
      GoToPreviousMonth(n.0, n.1) == (year, month) <==> (year < 0 && (year != -1 || month != 11)) || 100 <= year
  {
  }

  /** Moving forward one month advances the 1st the grid lays out by exactly the shown month's
      length, and moving back lands on the month whose length separates the two 1sts. The only
      exceptions are the two steps into a two-digit year: "next" from December of year -1 and
      "previous" from January of year 100. */
  lemma NavigationStepsByMonthLength(year: int, month: MonthIndex)
    ensures year != -1 || month != 11 ==>
      var n := GoToNextMonth(year, month);
      DayNumber(CellDate(n.0, n.1, 1)) == DayNumber(CellDate(year, month, 1)) + DaysInShownMonth(year, month)
    ensures year != 100 || month != 0 ==>
      var p := GoToPreviousMonth(year, month);
      DayNumber(CellDate(year, month, 1)) == DayNumber(CellDate(p.0, p.1, 1)) + DaysInShownMonth(p.0, p.1)
  {
    if year != -1 || month != 11 {
      NextFirstFollowsMonth(year, month);
    }
    if year != 100 || month != 0 {
      PreviousFirstPrecedesMonth(year, month);
    }
  }

  /** "next" moves the 1st forward by the shown month's length. */
  lemma NextFirstFollowsMonth(year: int, month: MonthIndex)
    requires year != -1 || month != 11
    ensures var n := GoToNextMonth(year, month);
      DayNumber(CellDate(n.0, n.1, 1)) == DayNumber(CellDate(year, month, 1)) + DaysInMonth(ConstructorYear(year), month + 1)
  {
    var y := ConstructorYear(year);
    var n := GoToNextMonth(year, month);
    assert ConstructorYear(n.0) == n.0;
    NextMonthStartsAfterLastDay(y, month + 1);
  }

  /** "previous" moves the 1st back by the previous month's length. */
  lemma PreviousFirstPrecedesMonth(year: int, month: MonthIndex)
    requires year != 100 || month != 0
    ensures var p := GoToPreviousMonth(year, month);
      DayNumber(CellDate(year, month, 1)) == DayNumber(CellDate(p.0, p.1, 1)) + DaysInMonth(ConstructorYear(p.0), p.1 + 1)
  {
    var y := ConstructorYear(year);
    var p := GoToPreviousMonth(year, month);
    assert ConstructorYear(p.0) == p.0;
    var m := p.1 as int + 1;
    var q := NormalizeMonth(p.0, m);
    assert q.0 == y && q.1 == month;
    NextMonthStartsAfterLastDay(p.0, m);
  }

  /** The two-digit years as the `Date` constructor reads them: "previous" from January of year 100
      shows December of year 99, whose grid is that of December 1999 (a Wednesday 1st, so two
      empty cells); "next" from there shows January 2000 and "previous" November 1999. The 1st
      that "previous" from January 100 lays out is not a month before January 100's, and "next"
      from December of year -1 lays out January 1900. */
  lemma TwoDigitYearsJump()
    ensures GoToPreviousMonth(100, 0) == (99, 11)
    ensures GoToNextMonth(99, 11) == (2000, 0)
    ensures GoToPreviousMonth(99, 11) == (1999, 10)
    ensures MonthStartOffset(99, 11) == 2
    ensures DayNumber(CellDate(100, 0, 1)) < DayNumber(CellDate(99, 11, 1))
    ensures GoToNextMonth(-1, 11) == (0, 0) && CellDate(0, 0, 1) == Date(1900, 1, 1)
  {
    assert CellDate(99, 11, 1) == Date(1999, 12, 1);
    assert DaysBeforeYear(1999) == 729754;
    assert DaysBeforeYear(100) == 36159;
  }

  /** A 30-day month whose 1st is a Wednesday (April 2026) gets two leading empty cells. */
  lemma WednesdayStartExample()
    ensures Weekday(Date(2026, 4, 1)) == 3
    ensures MonthStartOffset(2026, 3) == 2 && DaysInShownMonth(2026, 3) == 30
  {
  }
}
