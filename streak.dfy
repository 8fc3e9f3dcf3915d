/** `calculateStreak` of the calendar view: the number of consecutive training days that ends
    today or yesterday, found by walking the workout dates from the latest one backwards. */
module Streak {
  import opened Gregorian
  import opened Workouts
  import opened Collections
  import opened Statistics

  /** A `Date` normalised to midnight: its `getTime()` (here the day number) and its calendar day. */
  type Moment = (int, Date)

  predicate IsMidnightOf(m: Moment) { ValidDate(m.1) && m.0 == DayNumber(m.1) }

  /** `[...workoutDates].map((w) => new Date(w.workout_date))`, each taken at midnight. */
  function RowMoments(rows: seq<Workout>): (ms: seq<Moment>)
    requires AllWellFormed(rows)
    ensures |ms| == |rows|
    ensures forall i :: 0 <= i < |rows| ==> ms[i] == (DayNumber(rows[i].date), rows[i].date)
  {
    seq(|rows|, i requires 0 <= i < |rows| && AllWellFormed(rows) => (DayNumber(rows[i].date), rows[i].date))
  }

  /** `sortedDates`: the rows' moments sorted with `(a, b) => b.getTime() - a.getTime()`, latest first. */
  function SortedMoments(rows: seq<Workout>): (sorted: seq<Moment>)
    requires AllWellFormed(rows)
    ensures |sorted| == |rows|
    ensures SortedByKeyDescending(sorted)
    ensures forall i :: 0 <= i < |sorted| ==> IsMidnightOf(sorted[i])
    ensures multiset(sorted) == multiset(RowMoments(rows))
  {
    var ms := RowMoments(rows);
    var sorted := SortByKeyDescending(ms);
    assert |sorted| == |multiset(sorted)| == |multiset(ms)| == |ms|;
    forall i | 0 <= i < |sorted|
      ensures IsMidnightOf(sorted[i])
    {
      assert sorted[i] in multiset(ms);
    }
    sorted
  }

  /** How many times in a row, starting at index `i`, the next entry is exactly one day before. */
  function StepsFrom(s: seq<int>, i: nat): nat
    requires i < |s|
    decreases |s| - i
  {
    if i + 1 < |s| && s[i + 1] == s[i] - 1 then 1 + StepsFrom(s, i + 1) else 0
  }

  /** The streak for the latest-first day numbers `s` and the day number of today: 0 for no
      workouts or when the latest is neither today nor yesterday, else the latest day plus every
      following entry that is exactly one day before the one counted last. */
  function StreakOf(s: seq<int>, today: int): nat
  {
    if s == [] then 0
    else if s[0] != today && s[0] != today - 1 then 0
    else 1 + StepsFrom(s, 0)
  }

  /** `calculateStreak()`, with the wall clock's day passed in as `today`. */
  method CalculateStreak(rows: seq<Workout>, today: Date) returns (streak: nat)
    requires AllWellFormed(rows) && ValidDate(today)
    ensures streak == StreakOf(Keys(SortedMoments(rows)), DayNumber(today))
  {
    if |rows| == 0 {
      return 0;
    }
    var sortedDates := SortedMoments(rows);
    ghost var s := Keys(sortedDates);

    var yesterday := PreviousDay(today);
    PreviousDayNumber(today);

    var lastWorkout := sortedDates[0];
    if lastWorkout.0 != DayNumber(today) && lastWorkout.0 != DayNumber(yesterday) {
      return 0;
    }

    streak := 1;
    var currentCheckDate := lastWorkout;
    for i := 1 to |sortedDates|
      invariant streak == i
      invariant currentCheckDate == sortedDates[i - 1]
      invariant StreakOf(s, DayNumber(today)) == i + StepsFrom(s, i - 1)
    {
      var prevDate := sortedDates[i];
      var expectedDate := PreviousDay(currentCheckDate.1);
      PreviousDayNumber(currentCheckDate.1);
      if prevDate.0 == DayNumber(expectedDate) {
        streak := streak + 1;
        currentCheckDate := prevDate;
      } else {
        assert StepsFrom(s, i - 1) == 0;
        break;
      }
    }
  }

  // ---- Lemmas ----

  /** The entries from `i` to `i + StepsFrom(s, i)` are consecutive days counting down, and the
      entry after them, if any, is not the day before the last of them. */
  lemma {:induction false} StepsAreConsecutiveDays(s: seq<int>, i: nat)
    requires i < |s|
    ensures i + StepsFrom(s, i) < |s|
    ensures forall k :: i <= k <= i + StepsFrom(s, i) ==> s[k] == s[i] - (k - i)
    ensures var e := i + StepsFrom(s, i); e + 1 < |s| ==> s[e + 1] != s[e] - 1
    decreases |s| - i
  {
    if i + 1 < |s| && s[i + 1] == s[i] - 1 {
      StepsAreConsecutiveDays(s, i + 1);
    }
  }

  /** The streak is zero exactly when there is no workout or the latest is neither today nor
      yesterday. */
  lemma StreakZeroCases(s: seq<int>, today: int)
    ensures StreakOf(s, today) == 0 <==> s == [] || (s[0] != today && s[0] != today - 1)
  {
  }

  /** Every one of the `streak` days ending at the latest workout day is among the workout days,
      and the latest is today or yesterday. */
  lemma StreakDaysAreTrained(s: seq<int>, today: int)
    ensures StreakOf(s, today) <= |s|
    ensures StreakOf(s, today) > 0 ==> s[0] == today || s[0] == today - 1
    ensures forall k :: 0 <= k < StreakOf(s, today) ==> s[k] == s[0] - k
  {
    if s != [] {
      StepsAreConsecutiveDays(s, 0);
    }
  }

  /** The streak never exceeds the number of distinct workout days. */
  lemma StreakAtMostDistinctDays(s: seq<int>, today: int)
    ensures StreakOf(s, today) <= |Elements(s)|
  {
    var r := StreakOf(s, today);
    StreakDaysAreTrained(s, today);
    if r > 0 {
      forall x | s[0] - r < x <= s[0]
        ensures x in s
      {
        assert s[s[0] - x] == x;
      }
      ConsecutiveValuesCount(s, s[0], r);
    }
  }

  /** Sorting keeps the set of day numbers: those of the sorted list are those of the rows. */
  lemma SortedTimesAreRowDays(rows: seq<Workout>)
    requires AllWellFormed(rows)
    ensures Elements(Keys(SortedMoments(rows))) == Elements(Keys(RowMoments(rows)))
  {
    PermutationKeepsKeys(SortedMoments(rows), RowMoments(rows));
  }

  /** The streak shown never exceeds the "total days" counter: it counts distinct training days
      only, and two rows fall on the same day exactly when their `workout_date` strings agree. */
  lemma StreakAtMostTotalDays(rows: seq<Workout>, today: Date)
    requires AllWellFormed(rows) && ValidDate(today)
    ensures StreakOf(Keys(SortedMoments(rows)), DayNumber(today)) <= TotalDays(rows)
  {
    var s, u := Keys(SortedMoments(rows)), Keys(RowMoments(rows));
    var dates := WorkoutDates(rows);
    StreakAtMostDistinctDays(s, DayNumber(today));
    SortedTimesAreRowDays(rows);
    forall i, j | 0 <= i < |u| && 0 <= j < |u|
      ensures u[i] == u[j] <==> dates[i] == dates[j]
    {
      DayNumberInjective(rows[i].date, rows[j].date);
      IsoDateInjective(rows[i].date, rows[j].date);
    }
    SamePatternSameCount(u, dates);
  }

  /** The walk does not skip repeated dates: when the entries at `j` and `j + 1` fall on the same day
      (two workouts that day), the streak stops at `j + 1` days at most, even if the days before are
      trained too. */
  lemma RepeatedDayEndsStreak(s: seq<int>, today: int, j: nat)
    requires j + 1 < |s| && s[j + 1] == s[j]
    ensures StreakOf(s, today) <= j + 1
  {
    StreakDaysAreTrained(s, today);
  }

  /** With one workout per day, the walk finds the whole run of consecutive days: the day before
      the streak has no workout. */
  lemma StreakIsMaximalWithoutRepeats(s: seq<int>, today: int)
    requires NoDuplicates(s)
    requires forall i, j :: 0 <= i < j < |s| ==> s[i] >= s[j]
    requires StreakOf(s, today) > 0
    ensures s[0] - StreakOf(s, today) !in s
  {
    var r := StreakOf(s, today);
    StreakDaysAreTrained(s, today);
    StepsAreConsecutiveDays(s, 0);
    var m := r - 1;
    if r < |s| {
      assert s[m + 1] != s[m] - 1;
      assert s[m + 1] < s[m];
    }
    forall i | 0 <= i < |s|
      ensures s[i] != s[0] - r
    {
      if i <= m {
        assert s[i] == s[0] - i;
      } else {
        assert s[i] <= s[m + 1];
      }
    }
  }

  /** Worked cases: workouts today, yesterday and the day before give 3; today and three days ago
      give 1; nothing gives 0; only yesterday gives 1; only two days ago gives 0; two workouts today
      and one yesterday give 1. */
  lemma StreakExamples(t: int)
    ensures StreakOf([t, t - 1, t - 2], t) == 3
    ensures StreakOf([t, t - 3], t) == 1
    ensures StreakOf([], t) == 0
    ensures StreakOf([t - 1], t) == 1
    ensures StreakOf([t - 2], t) == 0
    ensures StreakOf([t, t, t - 1], t) == 1
  {
    assert StepsFrom([t, t - 1, t - 2], 1) == 1;
  }
}
