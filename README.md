# Calendar and statistics of the totoFit workout history

This project models the logic of the calendar view of the totoFit fitness tracker
(`components/calendar-view.tsx`) and proves properties of it. The view receives the user's
workout rows, each with a `workout_date` (`YYYY-MM-DD`) and an optional duration in seconds,
and computes:

- the `h:mm:ss` / `m:ss` rendering of a duration (`formatDuration`);
- the Monday-first month grid, with blank cells before the 1st (`startOffset`, `calendarDays`);
- the day lookup, through a map from `workout_date` to row (`hasWorkout`, `getWorkoutForDay`);
- the counters: total workouts, distinct training days, workouts of the shown month, and the
  current streak of consecutive training days (`calculateStreak`);
- month navigation (previous, next, today) and the five-per-page list of recent workouts.

Modules, one per concern:

| file | module | contents |
|---|---|---|
| `text.dfy` | `Text` | decimal rendering and parsing of integers, `padStart`, `split` |
| `gregorian.dfy` | `Gregorian` | proleptic Gregorian calendar: month lengths, day numbers, `getDay`, the day before, and how `new Date(y, m, 1)` reads its year (0..99 as 19yy) and carries whole years out of the month |
| `duration.dfy` | `Duration` | `formatDuration` and a parser for its output |
| `month_grid.dfy` | `MonthGrid` | start offset, the grid-building loops, `isToday`, month navigation |
| `collections.dfy` | `Collections` | `new Map(entries)`, `new Set(...)`, and a sort, on generic lists |
| `workouts.dfy` | `Workouts` | workout rows, their ISO `workout_date`, the lookup key and the map |
| `statistics.dfy` | `Statistics` | total workouts, total days, workouts of the shown month |
| `streak.dfy` | `Streak` | `calculateStreak` as a loop, proved against a specification function |
| `paging.dfy` | `Paging` | page count, the previous/next clamps, `Array.slice` of one page |

Dates are calendar days `Date(year, month, day)` with a 1-based month. A JavaScript `Date` at
midnight is represented by its day number, counted from 0001-01-01, so `getTime()` equality
is day-number equality and `getDay()` is `(dayNumber + 1) % 7`. The month shown is a pair
`(year, monthIndex)` with a 0-based month, as `getMonth()` returns. The wall clock
(`new Date()`) is a parameter `today`. The `Date` constructor reads a year from 0 to 99 as
1900 + year, so the grid of a shown two-digit year is that of the matching 19yy year. Years are
otherwise unbounded; `Date`'s range of 8.64e15 milliseconds around 1970 is not modelled.

`calculateStreak` is the one imperative operation besides the grid. `Streak.CalculateStreak`
keeps the source's loop, its `streak` counter and `currentCheckDate`. It is proved equal to
`StreakOf`, a recursive definition over the sorted day numbers, and the lemmas state what
`StreakOf` means. A streak counts days, so the dates would naturally be deduplicated before the
walk; the code does not do that, and the model follows the code. `Streak.RepeatedDayEndsStreak` shows the effect: a second workout on a
streak day ends the walk there. `Streak.StreakIsMaximalWithoutRepeats` shows that with one
workout per day the walk finds the whole run.

## Model

| member | source | states |
|---|---|---|
| Text.NatToString | components/calendar-view.tsx:43 | the decimal rendering of a count is all digits, starts with `0` only for zero, and is one digit long exactly below 10 and two digits long exactly in 10..99 |
| Text.IntToString | components/calendar-view.tsx:43 | `toString()` of an integer starts with `-` exactly when it is negative, and is the plain decimal rendering otherwise |
| Text.ParseNatToString | components/calendar-view.tsx:43 | reading the decimal digits of `n` back gives `n` |
| Text.ParseIntToString | components/calendar-view.tsx:43 | reading the rendering of any integer back, sign included, gives the integer |
| Text.IntToStringInjective | components/calendar-view.tsx:43 | two integers have the same rendering only when they are equal |
| Text.NatToStringInjective | components/calendar-view.tsx:157 | two counts have the same decimal rendering only when they are equal |
| Text.PadStart | components/calendar-view.tsx:43-45 | `padStart(width, fill)` has length `max(width, \|s\|)`, ends with `s` and is `fill` before it |
| Text.ParsePadded | components/calendar-view.tsx:157 | zero padding does not change the value the digits denote |
| Gregorian.DaysInMonth | components/calendar-view.tsx:63-67 | every month has 28 to 31 days; February has 29 exactly in leap years (divisible by 4, and not by 100 unless by 400); April, June, September and November have 30 and the other months 31 |
| Gregorian.MonthsFillYear | components/calendar-view.tsx:62-63 | the twelve months together have exactly the days of the year |
| Gregorian.Weekday | components/calendar-view.tsx:66 | `getDay()` lies in 0..6 |
| Gregorian.KnownWeekdays | components/calendar-view.tsx:66 | 1970-01-01, day zero of JavaScript time, gets `getDay()` 4 (a Thursday) |
| Gregorian.WeekdayOfPreviousDay | components/calendar-view.tsx:66 | the day before has the weekday before, Sunday following Monday backwards |
| Gregorian.NormalizeMonth | components/calendar-view.tsx:127-133 | carrying whole years out of a month index outside 0..11 keeps the absolute month `12·y + m` and gives an index in 0..11 |
| Gregorian.ConstructorYear | components/calendar-view.tsx:62 | `new Date(y, …)` reads a year in 0..99 as 1900 + y and any other year as it is, so the year it uses is never a two-digit year |
| Gregorian.NewDateMonth | components/calendar-view.tsx:127-133 | `new Date(y, m, 1)` lands in the absolute month `12·Y + m`, where `Y` is the year as the constructor reads it, with an index in 0..11 |
| Gregorian.DayNumberInjective | components/calendar-view.tsx:113 | two valid midnight dates have the same `getTime()` exactly when they are the same calendar day |
| Gregorian.PreviousDayNumber | components/calendar-view.tsx:110-111 | `setDate(getDate() - 1)` gives a valid date whose day number is one less, across month and year ends |
| Gregorian.NextMonthStartsAfterLastDay | components/calendar-view.tsx:63 | `new Date(y, m + 1, 0)` is the last day of the month: the day after it is the 1st of the next month |
| Gregorian.DayBeforeNextMonth | components/calendar-view.tsx:63 | day 0 of the following month, read as the day before its 1st, is the month's last day, `DaysInMonth` |
| MonthGrid.StartOffset | components/calendar-view.tsx:70 | the offset lies in 0..6, equals `(weekday + 6) mod 7`, is 0 exactly for a Monday and 6 exactly for a Sunday |
| MonthGrid.MonthStartOffset | components/calendar-view.tsx:62-70 | the number of blank cells before the 1st lies in 0..6; the 1st is that of the year as `new Date` reads it (see `TwoDigitYearsJump` for its value at December 99) |
| MonthGrid.LastDayOfMonth | components/calendar-view.tsx:63 | `new Date(year, month + 1, 0)` is the last day of the shown month, in the year as the constructor reads it |
| MonthGrid.DaysInShownMonth | components/calendar-view.tsx:67 | `daysInMonth` is the Gregorian length of the shown month (in the year as the constructor reads it), 28 to 31 |
| MonthGrid.BuildCalendarDays | components/calendar-view.tsx:143-149 | the shown month's grid has `startOffset + daysInMonth` cells: the first `startOffset` are blank, and cell `i` after them holds day `i - startOffset + 1`, so the days run 1..daysInMonth in order |
| MonthGrid.LayOutDays | components/calendar-view.tsx:143-149 | the two push loops leave exactly `startOffset` blanks followed by the days 1..daysInMonth in order |
| MonthGrid.CellColumnIsWeekday | components/calendar-view.tsx:143-149 | the cell of every day sits in column `i mod 7` equal to the Monday-first weekday of the date `new Date(year, month, day)` |
| MonthGrid.IsTodayIffSameDay | components/calendar-view.tsx:151-154 | outside the two-digit years, `isToday(day)` holds exactly when the cell's date is the same calendar day as today; in a two-digit year the highlighted cell is never today's date |
| MonthGrid.GoToPreviousMonth | components/calendar-view.tsx:127-129 | "previous" moves to the month before, wrapping from January to December of the year before, with the year as `new Date` reads it |
| MonthGrid.GoToNextMonth | components/calendar-view.tsx:131-133 | "next" moves to the month after, wrapping from December to January of the year after, with the year as `new Date` reads it |
| MonthGrid.GoToToday | components/calendar-view.tsx:135-137 | after "today", today's cell is the highlighted one, and (outside the two-digit years) the grid lays out today's month with today among its days |
| MonthGrid.NavigationRoundTrip | components/calendar-view.tsx:127-133 | previous then next comes back to the same month exactly for a negative year or from February 100 on, and next then previous exactly for a negative year other than December of -1 or from January 100 on: the round trip fails precisely when a step passes through a year 0..99 |
| MonthGrid.NavigationStepsByMonthLength | components/calendar-view.tsx:127-133 | the 1st of the next month is the 1st of the shown month plus its length, except from December of year -1; the 1st of the previous month is the 1st of the shown month minus the previous month's length, except from January of year 100 |
| MonthGrid.TwoDigitYearsJump | components/calendar-view.tsx:127-133 | "previous" from January 100 shows December 99, laid out as December 1999 with two blank cells, whose 1st lies after January 100's; "next" from there shows January 2000 and "previous" November 1999; "next" from December of year -1 lays out January 1900 |
| MonthGrid.WednesdayStartExample | components/calendar-view.tsx:62-70 | April 2026 starts on a Wednesday, so the grid has two blank cells and 30 days |
| Duration.JsRem | components/calendar-view.tsx:39-40 | JavaScript `%` by a positive divisor differs from the dividend by a multiple of `b`, lies strictly between `-b` and `b` and has the dividend's sign: the truncating remainder |
| Duration.Fields | components/calendar-view.tsx:38-40 | for a non-negative count, `hrs·3600 + mins·60 + secs` is the count, with `mins` and `secs` in 0..59, and `hrs > 0` exactly from 3600 seconds on |
| Duration.FormatDuration | components/calendar-view.tsx:36-37 | the result is `null` exactly for `null` and for 0 |
| Duration.Pad2Field | components/calendar-view.tsx:43-45 | a field in 0..99 padded to two digits is two digits long and reads back as itself |
| Duration.FormatDurationShape | components/calendar-view.tsx:42-45 | a positive count renders as `h:mm:ss` exactly from 3600 seconds on and as `m:ss` below; every field is digits, and the minutes (after hours) and the seconds are two digits |
| Duration.ParseRenderedHours | components/calendar-view.tsx:43 | reading the fields of an `h:mm:ss` rendering gives `h·3600 + m·60 + s` |
| Duration.ParseRenderedMinutes | components/calendar-view.tsx:45 | reading the fields of an `m:ss` rendering gives `m·60 + s` |
| Duration.FormatDurationRoundTrip | components/calendar-view.tsx:36-46 | for every positive count, reading the rendering back gives the count |
| Duration.FormatDurationExamples | components/calendar-view.tsx:36-46 | 61 seconds render as `1:01` and 3725 seconds as `1:02:05` |
| Collections.MapFromEntries | components/calendar-view.tsx:57 | `new Map(entries)` has exactly the keys that some entry has |
| Collections.MapFromEntriesKeepsLast | components/calendar-view.tsx:57 | the value of a key is the value of the last entry with that key |
| Collections.ElementsCount | components/calendar-view.tsx:74-75 | a `Set` of a list has at most as many members as the list has entries, exactly as many when no value repeats, and at least one when the list is not empty |
| Collections.SortByKeyDescending | components/calendar-view.tsx:87 | the sort orders by key, largest first, and is a permutation of its input |
| Collections.PermutationKeepsKeys | components/calendar-view.tsx:87 | two lists holding the same entries have the same set of keys |
| Workouts.IsoDateRoundTrip | components/calendar-view.tsx:87 | a `workout_date` string reads back as the calendar day it was written from |
| Workouts.IsoDateInjective | components/calendar-view.tsx:74-75 | two rows have the same `workout_date` string exactly when they fall on the same calendar day |
| Workouts.DayKeyIsIsoDate | components/calendar-view.tsx:156-164 | from year 1000 on, the key a cell builds is the `workout_date` string of that day |
| Workouts.DayKeyMissesEarlyYears | components/calendar-view.tsx:156-164 | before year 1000 the key has an unpadded year, so it matches no `workout_date` string |
| Workouts.GetWorkoutForDay | components/calendar-view.tsx:156-164 | `getWorkoutForDay(day)` returns a row exactly when `hasWorkout(day)` holds |
| Workouts.LookupFindsLastRowOfDay | components/calendar-view.tsx:156-164 | a day is marked exactly when some row falls on it, and the row shown for it is the last row of that day in the list |
| Statistics.TotalDaysAgainstWorkouts | components/calendar-view.tsx:73-75 | total days is at most total workouts, at least 1 when there is a workout, and equal to total workouts exactly when no two rows share a date |
| Statistics.CurrentMonthWorkouts | components/calendar-view.tsx:78-81 | the month's count is at most total workouts, equals it exactly when every row is in the shown month, and is 0 exactly when none is |
| Statistics.ShownMonthWorkoutIsMarked | components/calendar-view.tsx:78-81 | a row of the shown month marks its day in the grid and makes the month's count at least 1 |
| Statistics.MarkedDayIsCounted | components/calendar-view.tsx:78-81 | a marked day of the shown month makes the month's count at least 1 |
| Streak.SortedMoments | components/calendar-view.tsx:87 | `sortedDates` is latest first, a permutation of the rows' dates, and holds valid midnights only |
| Streak.CalculateStreak | components/calendar-view.tsx:84-122 | the loop returns `StreakOf` of the sorted day numbers and today |
| Streak.StreakZeroCases | components/calendar-view.tsx:85-101 | the streak is 0 exactly when there is no workout or the latest one is neither today nor yesterday |
| Streak.StepsAreConsecutiveDays | components/calendar-view.tsx:106-119 | the walk counts a run of entries that are each one day before the last, and stops at an entry that is not |
| Streak.StreakDaysAreTrained | components/calendar-view.tsx:99-119 | the streak is at most the number of rows, a positive streak starts today or yesterday, and its days are consecutive workout days counting back from the latest |
| Streak.StreakAtMostDistinctDays | components/calendar-view.tsx:103-121 | the streak never exceeds the number of distinct workout days |
| Streak.SortedTimesAreRowDays | components/calendar-view.tsx:87 | sorting keeps the set of the rows' days |
| Streak.StreakAtMostTotalDays | components/calendar-view.tsx:84-122 | the streak shown never exceeds the "total days" counter |
| Streak.RepeatedDayEndsStreak | components/calendar-view.tsx:106-118 | two sorted entries on the same day at positions `j` and `j + 1` cap the streak at `j + 1` |
| Streak.StreakIsMaximalWithoutRepeats | components/calendar-view.tsx:106-119 | with at most one workout a day, the day before the streak has no workout |
| Streak.StreakExamples | components/calendar-view.tsx:84-122 | today, yesterday and the day before give 3; today and three days ago give 1; none gives 0; only yesterday gives 1; only two days ago gives 0; two today and one yesterday give 1 |
| Paging.PageCount | components/calendar-view.tsx:393 | `Math.ceil(n / 5)` is the least `c` with `5·c ≥ n`, and 0 exactly for an empty list |
| Paging.SliceBound | components/calendar-view.tsx:336 | a resolved `slice` bound never passes the end of the list |
| Paging.ButtonsKeepPageInRange | components/calendar-view.tsx:387-399 | from a page in `1..ceil(n/5)`, both buttons leave the page in that range |
| Paging.ButtonsStepByOne | components/calendar-view.tsx:387-400 | an enabled button moves exactly one page, and a button leaves the page unchanged exactly when it is disabled |
| Paging.ShownControlsHaveTwoPages | components/calendar-view.tsx:381-400 | when the controls are drawn there are at least two pages, so "next" is enabled on page 1 |
| Paging.PageContents | components/calendar-view.tsx:336 | a page lists at most 5 rows, in list order from index `(page - 1)·5`; a page in range is not empty, every page before the last is full, and a page past the last is empty |
| Paging.PagesFromAreSuffix | components/calendar-view.tsx:336 | pages `p` onwards, one after another, are the rows from index `(p - 1)·5` on |
| Paging.PagesCoverAllRows | components/calendar-view.tsx:336 | all pages together list every row exactly once, in order |

## Left out

- Time zones: `new Date("YYYY-MM-DD")` is UTC midnight while `getMonth`, `getFullYear` and `setHours` use local time. The model treats every date as a plain calendar day in one zone, so it does not capture a workout that shifts to the previous day west of UTC.
- The wall clock: `new Date()` in the state initialiser, `goToToday`, `isToday` and `calculateStreak` is the parameter `today`.
- Locale formatting with `toLocaleDateString("es-ES", …)` (month title and list dates) depends on the JavaScript Intl library.
- Workout deletion (the confirm dialog, the database calls and the router refresh) calls the hosted database client and is not modelled. Neither are the React state hooks or the rendering of the grid and list.
- Session recording and routine-template editing are not part of this model. Their code is not among the files of the calendar view.
- Duration.FormatDuration: `!seconds` is also true for `NaN`, and the source's arithmetic also runs on fractional seconds; the model takes whole seconds or `null`, without `NaN`.
- Duration.FormatDurationRoundTrip: proved for positive counts only. A negative count renders with negative fields (for example `-1:-5` for -5 seconds, following JavaScript `%`), which this model computes but does not parse back.
- Workouts.DayKeyIsIsoDate: the lookup key and the `workout_date` string agree only from year 1000 on, because the key prints the year without padding. `Workouts.DayKeyMissesEarlyYears` states the mismatch below that.
- MonthGrid.NavigationRoundTrip: the round trip is not promised through the years 0..99, and the lemma proves it fails there. From January 100, "previous" then "next" shows January 2000, and from December of year -1, "next" then "previous" shows December 1899, because `new Date` reads 0..99 as 19yy.
- MonthGrid.NavigationStepsByMonthLength: not promised for "next" from December of year -1 (it lands on January 1900) or "previous" from January 100 (it lands on December 1999); `MonthGrid.TwoDigitYearsJump` proves both jumps.
- MonthGrid.IsTodayIffSameDay: in a shown year 0..99 the grid lays out 19yy while `isToday` compares the year as shown, so the iff is promised only outside those years.
- `Date`'s range of 8.64e15 milliseconds around 1970: years are unbounded in the model.
- Years before 1: the calendar is proleptic Gregorian throughout. Workout rows are taken from year 1 on, and their `workout_date` strings are not modelled for negative years.
- Streak.SortedMoments: the sort is an insertion sort, not the engine's own `Array.prototype.sort`. Only the order of the keys is stated. Entries with equal keys are the same calendar day, so their relative order cannot change the streak.
- Streak.CalculateStreak: `setHours(0, 0, 0, 0)` mutates the sorted `Date` objects in place. The model's dates are already at midnight, so that aliasing is not modelled.
- Paging: `currentPage` is not reset when the list shrinks, for example after a deletion. `Paging.PageContents` covers that case: a page past the last one lists nothing. The page state itself is not modelled as React state.
