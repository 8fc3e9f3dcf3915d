/** The workout rows the calendar view receives, their `workout_date` strings, and the
    date-to-workout map that the grid consults through `hasWorkout` and `getWorkoutForDay`. */
module Workouts {
  import opened Text
  import opened Gregorian
  import opened Collections

  /** One row of the view's input: `id`, `workout_date` (kept here as the calendar day it
      denotes), `notes`, `exercise_count`, `routine_name` and `duration_seconds`. */
  datatype Workout = Workout(
    id: string,
    date: Date,
    notes: Option<string>,
    exerciseCount: nat,
    routineName: Option<string>,
    durationSeconds: Option<int>)

  /** A row whose date is a calendar day of the common era, as a date column holds. */
  predicate WellFormed(w: Workout) { ValidDate(w.date) && 1 <= w.date.year }

  predicate AllWellFormed(rows: seq<Workout>) { forall i :: 0 <= i < |rows| ==> WellFormed(rows[i]) }

  /** The year field of an ISO 8601 date: at least four digits, a minus sign before a year before 0. */
  function YearString(y: int): string
  {
    if y < 0 then "-" + PadStart(NatToString(-y), 4, '0') else PadStart(NatToString(y), 4, '0')
  }

  /** The ISO 8601 extended calendar date `YYYY-MM-DD` (section 4.1.2.2 of ISO 8601:2004), the form
      in which a row's `workout_date` arrives. */
  function IsoDate(d: Date): string
  {
    YearString(d.year) + "-" + PadStart(IntToString(d.month), 2, '0') + "-" + PadStart(IntToString(d.day), 2, '0')
  }

  /** `w.workout_date`. */
  function WorkoutDate(w: Workout): string { IsoDate(w.date) }

  /** Reads a `YYYY-MM-DD` string back into a calendar day (what `new Date(s)` does for this form). */
  function ParseIsoDate(s: string): Option<Date>
  {
    var f := Split(s, '-');
    if |f| == 3 && 1 <= |f[0]| && 1 <= |f[1]| && 1 <= |f[2]| && AllDigits(f[0]) && AllDigits(f[1]) && AllDigits(f[2])
    then Some(Date(ParseNat(f[0]), ParseNat(f[1]), ParseNat(f[2])))
    else None
  }

  /** The key `hasWorkout` and `getWorkoutForDay` build for a cell:
      `${year}-${String(month + 1).padStart(2, "0")}-${String(day).padStart(2, "0")}`. */
  function DayKey(year: int, month: MonthIndex, day: int): string
  {
    IntToString(year) + "-" + PadStart(IntToString(month + 1), 2, '0') + "-" + PadStart(IntToString(day), 2, '0')
  }

  /** `workoutDates.map((w) => [w.workout_date, w])`. */
  function DateEntries(rows: seq<Workout>): (entries: seq<(string, Workout)>)
    ensures |entries| == |rows|
    ensures forall i :: 0 <= i < |rows| ==> entries[i] == (WorkoutDate(rows[i]), rows[i])
  {
    seq(|rows|, i requires 0 <= i < |rows| => (WorkoutDate(rows[i]), rows[i]))
  }

  /** `workoutDates.map((w) => w.workout_date)`. */
  function WorkoutDates(rows: seq<Workout>): (dates: seq<string>)
    ensures |dates| == |rows|
    ensures forall i :: 0 <= i < |rows| ==> dates[i] == WorkoutDate(rows[i])
  {
    seq(|rows|, i requires 0 <= i < |rows| => WorkoutDate(rows[i]))
  }

  /** `workoutMap`. */
  function WorkoutMap(rows: seq<Workout>): map<string, Workout>
  {
    MapFromEntries(DateEntries(rows))
  }

  /** `hasWorkout(day)`. */
  predicate HasWorkout(workoutMap: map<string, Workout>, year: int, month: MonthIndex, day: int)
  {
    DayKey(year, month, day) in workoutMap
  }

  /** `getWorkoutForDay(day)`: the mapped row, or nothing (`undefined`). */
  function GetWorkoutForDay(workoutMap: map<string, Workout>, year: int, month: MonthIndex, day: int): (r: Option<Workout>)
    ensures r.Some? <==> HasWorkout(workoutMap, year, month, day)
  {
    var key := DayKey(year, month, day);
    if key in workoutMap then Some(workoutMap[key]) else None
  }

  // ---- Lemmas ----

  lemma PaddedDigits(n: nat, width: nat)
    ensures AllDigits(PadStart(NatToString(n), width, '0'))
    ensures 1 <= |PadStart(NatToString(n), width, '0')|
    ensures '-' !in PadStart(NatToString(n), width, '0')
    ensures ParseNat(PadStart(NatToString(n), width, '0')) == n
  {
    ParsePadded(n, width);
    DigitsExcludeSeparator(PadStart(NatToString(n), width, '0'), '-');
  }

  /** Splitting an ISO date of a year 0 or later at its hyphens gives three digit fields. */
  lemma IsoDateFields(d: Date)
    requires 0 <= d.year && 1 <= d.month && 1 <= d.day
    ensures Split(IsoDate(d), '-') == [
      PadStart(NatToString(d.year), 4, '0'),
      PadStart(NatToString(d.month), 2, '0'),
      PadStart(NatToString(d.day), 2, '0')]
  {
    PaddedDigits(d.year, 4);
    PaddedDigits(d.month, 2);
    PaddedDigits(d.day, 2);
    SplitFields(PadStart(NatToString(d.year), 4, '0'), PadStart(NatToString(d.month), 2, '0'),
      PadStart(NatToString(d.day), 2, '0'), '-');
  }

  /** Reading a rendered ISO date gives back the calendar day. */
  lemma IsoDateRoundTrip(d: Date)
    requires 0 <= d.year && 1 <= d.month && 1 <= d.day
    ensures ParseIsoDate(IsoDate(d)) == Some(d)
  {
    IsoDateFields(d);
    PaddedDigits(d.year, 4);
    PaddedDigits(d.month, 2);
    PaddedDigits(d.day, 2);
  }

  /** Two rows share a `workout_date` string exactly when they share a calendar day. */
  lemma IsoDateInjective(a: Date, b: Date)
    requires 0 <= a.year && 1 <= a.month && 1 <= a.day
    requires 0 <= b.year && 1 <= b.month && 1 <= b.day
    ensures IsoDate(a) == IsoDate(b) <==> a == b
  {
    IsoDateRoundTrip(a);
    IsoDateRoundTrip(b);
  }

  lemma FourDigitYears(y: nat)
    requires 1000 <= y
    ensures 4 <= |NatToString(y)|
  {
    assert NatToString(y) == NatToString(y / 10) + [DigitChar(y % 10)];
    assert NatToString(y / 10) == NatToString(y / 100) + [DigitChar((y / 10) % 10)];
  }

  /** From year 1000 on, the key a cell builds is exactly the stored `workout_date` of that day. */
  lemma DayKeyIsIsoDate(year: int, month: MonthIndex, day: int)
    requires 1000 <= year && 1 <= day
    ensures DayKey(year, month, day) == IsoDate(Date(year, month + 1, day))
  {
    FourDigitYears(year);
  }

  /** Before year 1000 the cell's key is not zero-padded and so never equals a stored date. */
  lemma DayKeyMissesEarlyYears(year: int, month: MonthIndex, day: int, d: Date)
    requires 0 <= year < 1000 && 1 <= day < 100
    requires 0 <= d.year && 1 <= d.month < 100 && 1 <= d.day < 100
    ensures DayKey(year, month, day) != IsoDate(d)
  {
    var ys := NatToString(year);
    assert |ys| <= 3 by {
      if year >= 100 {
        assert ys == NatToString(year / 10) + [DigitChar(year % 10)];
      }
    }
    assert |DayKey(year, month, day)| == |ys| + 6;
    assert |IsoDate(d)| >= 10;
  }

  /** The map answers for a cell exactly as the rows do: a cell of year 1000 or later has a workout
      exactly when some row is dated that day, and `getWorkoutForDay` returns the last such row. */
  lemma LookupFindsLastRowOfDay(rows: seq<Workout>, year: int, month: MonthIndex, day: int)
    requires AllWellFormed(rows)
    requires 1000 <= year && ValidDate(Date(year, month + 1, day))
    ensures HasWorkout(WorkoutMap(rows), year, month, day) <==>
      exists i :: 0 <= i < |rows| && rows[i].date == Date(year, month + 1, day)
    ensures GetWorkoutForDay(WorkoutMap(rows), year, month, day).Some? ==>
      exists i :: 0 <= i < |rows| && GetWorkoutForDay(WorkoutMap(rows), year, month, day).value == rows[i] &&
        IsLastRowOfDay(rows, i, Date(year, month + 1, day))
  {
    var cell := Date(year, month + 1, day);
    var key := DayKey(year, month, day);
    var entries := DateEntries(rows);
    DayKeyIsIsoDate(year, month, day);
    forall i | 0 <= i < |rows|
      ensures entries[i].0 == key <==> rows[i].date == cell
    {
      IsoDateInjective(rows[i].date, cell);
    }
    if key in WorkoutMap(rows) {
      MapFromEntriesKeepsLast(entries, key);
      var i :| 0 <= i < |entries| && WorkoutMap(rows)[key] == entries[i].1 && IsLastWithKey(entries, i, key);
      assert IsLastRowOfDay(rows, i, cell);
    }
  }

  /** Row `i` is dated `d` and no later row is. */
  predicate IsLastRowOfDay(rows: seq<Workout>, i: int, d: Date)
    requires 0 <= i < |rows|
  {
    rows[i].date == d && forall j :: i < j < |rows| ==> rows[j].date != d
  }
}
