/** The three counters above the calendar that do not involve the streak: total workouts
    (the row count), total training days (distinct `workout_date` values) and the workouts of
    the shown month. */
module Statistics {
  import opened Gregorian
  import opened Workouts
  import opened Collections

  /** `new Set(workoutDates.map((w) => w.workout_date))`. */
  function DistinctDates(rows: seq<Workout>): set<string>
  {
    Elements(WorkoutDates(rows))
  }

  /** `totalDays`: the size of that set. */
  function TotalDays(rows: seq<Workout>): nat
  {
    |DistinctDates(rows)|
  }

  /** `totalWorkouts`: `workoutDates.length`. */
  function TotalWorkouts(rows: seq<Workout>): nat
  {
    |rows|
  }

  /** The filter of `currentMonthWorkouts`: the row's month and year are the shown ones. */
  predicate InShownMonth(w: Workout, year: int, month: MonthIndex)
  {
    w.date.month == month + 1 && w.date.year == year
  }

  /** `currentMonthWorkouts`: the length of the rows filtered to the shown month. It never exceeds
      the row count, is the row count exactly when every row is in the shown month, and is zero
      exactly when none is. */
  function CurrentMonthWorkouts(rows: seq<Workout>, year: int, month: MonthIndex): (n: nat)
    ensures n <= TotalWorkouts(rows)
    ensures n == TotalWorkouts(rows) <==> forall i :: 0 <= i < |rows| ==> InShownMonth(rows[i], year, month)
    ensures n == 0 <==> forall i :: 0 <= i < |rows| ==> !InShownMonth(rows[i], year, month)
  {
    if rows == [] then 0
    else
      var rest := CurrentMonthWorkouts(rows[1..], year, month);
      assert forall i :: 1 <= i < |rows| ==> rows[i] == rows[1..][i - 1];
      (if InShownMonth(rows[0], year, month) then 1 else 0) + rest
  }

  // ---- Lemmas ----

  /** There are never more training days than workouts, and at least one when there is a workout;
      the two are equal exactly when no two workouts share a date (a second workout on a day adds
      to the workouts but not to the days). */
  lemma TotalDaysAgainstWorkouts(rows: seq<Workout>)
    ensures TotalDays(rows) <= TotalWorkouts(rows)
    ensures rows != [] ==> 1 <= TotalDays(rows)
    ensures TotalDays(rows) == TotalWorkouts(rows) <==>
      forall i, j :: 0 <= i < j < |rows| ==> WorkoutDate(rows[i]) != WorkoutDate(rows[j])
  {
    ElementsCount(WorkoutDates(rows));
  }

  /** Every workout of the shown month marks its day in the grid: the day's cell has a workout. */
  lemma ShownMonthWorkoutIsMarked(rows: seq<Workout>, year: int, month: MonthIndex, i: int)
    requires AllWellFormed(rows) && 1000 <= year
    requires 0 <= i < |rows| && InShownMonth(rows[i], year, month)
    ensures HasWorkout(WorkoutMap(rows), year, month, rows[i].date.day)
    ensures 1 <= CurrentMonthWorkouts(rows, year, month)
  {
    LookupFindsLastRowOfDay(rows, year, month, rows[i].date.day);
  }

  /** Conversely, a marked day of the shown month means the month has at least one workout. */
  lemma MarkedDayIsCounted(rows: seq<Workout>, year: int, month: MonthIndex, day: int)
    requires AllWellFormed(rows) && 1000 <= year && ValidDate(Date(year, month + 1, day))
    requires HasWorkout(WorkoutMap(rows), year, month, day)
    ensures 1 <= CurrentMonthWorkouts(rows, year, month)
  {
    var cell := Date(year, month + 1, day);
    LookupFindsLastRowOfDay(rows, year, month, day);
    assert exists i :: 0 <= i < |rows| && rows[i].date == cell;
    var i :| 0 <= i < |rows| && rows[i].date == cell;
    RowInMonthIsCounted(rows, year, month, i);
  }

  /** One row of the shown month is enough for a positive count. */
  lemma RowInMonthIsCounted(rows: seq<Workout>, year: int, month: MonthIndex, i: int)
    requires 0 <= i < |rows| && rows[i].date.year == year && rows[i].date.month == month + 1
    ensures 1 <= CurrentMonthWorkouts(rows, year, month)
  {
    assert InShownMonth(rows[i], year, month);
  }
}
