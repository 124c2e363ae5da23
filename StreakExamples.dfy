/** Worked histories for `calculateStreak` (models/Habit.js), stated for an
    arbitrary `today`. Each example is split in two: the history's sorted day
    list, and the streak of that day list. */
module StreakExamples {
  import opened Dates
  import opened HabitModel
  import StreakProperties

  /** A completion logged at midnight of `day`. */
  function On(day: int): Completion {
    Completion(Instant(day, 0), 1, "")
  }

  /** Any newest-first arrangement `s` of a history's dates, with days d,
      gives the history's streak. */
  lemma SortedIs(cs: seq<Completion>, s: seq<Instant>, d: seq<int>, today: int)
    requires NewestFirst(s) && multiset(s) == multiset(DatesOf(cs))
    requires |d| == |s| && forall i :: 0 <= i < |s| ==> d[i] == s[i].day
    ensures StreakOf(cs, today) == StreakOfDays(d, today)
  {
    assert NewestFirstDays(cs) == DaysOf(s) by {
      SortNewestFirstSorts(DatesOf(cs));
      StreakProperties.SortedUnique(SortNewestFirst(DatesOf(cs)), s);
    }
    assert DaysOf(s) == d;
  }

  lemma OnlyToday(today: int)
    ensures StreakOf([On(today)], today) == StreakResult(1, 1)
  {
  }

  lemma TodayAndYesterdayDays(today: int)
    ensures StreakOfDays([today, today - 1], today) == StreakResult(2, 2)
  {
    var d := [today, today - 1];
    assert Run(d, 1) == 2;
    assert LongestRun(d, 2) == 2;
    assert OneDayGaps(d, 2) == 1;
  }

  /** Logged out of order: yesterday first, then today. */
  lemma TodayAndYesterday(today: int)
    ensures StreakOf([On(today - 1), On(today)], today) == StreakResult(2, 2)
  {
    var cs := [On(today - 1), On(today)];
    var s := [Instant(today, 0), Instant(today - 1, 0)];
    assert DatesOf(cs) == [Instant(today - 1, 0), Instant(today, 0)];
    assert multiset(s) == multiset(DatesOf(cs));
    SortedIs(cs, s, [today, today - 1], today);
    TodayAndYesterdayDays(today);
  }

  lemma GapAfterTodayDays(today: int)
    ensures StreakOfDays([today, today - 3], today) == StreakResult(1, 1)
  {
    var d := [today, today - 3];
    assert Run(d, 1) == 1;
    assert LongestRun(d, 2) == 1;
    assert OneDayGaps(d, 2) == 0;
  }

  /** A two-day gap right after today leaves a current streak of 1. */
  lemma GapAfterToday(today: int)
    ensures StreakOf([On(today - 3), On(today)], today) == StreakResult(1, 1)
  {
    var cs := [On(today - 3), On(today)];
    var s := [Instant(today, 0), Instant(today - 3, 0)];
    assert DatesOf(cs) == [Instant(today - 3, 0), Instant(today, 0)];
    assert multiset(s) == multiset(DatesOf(cs));
    SortedIs(cs, s, [today, today - 3], today);
    GapAfterTodayDays(today);
  }

  lemma OldRunDays(today: int)
    ensures StreakOfDays([today - 3, today - 4, today - 5], today) == StreakResult(0, 3)
  {
    var d := [today - 3, today - 4, today - 5];
    assert Run(d, 1) == 2;
    assert Run(d, 2) == 3;
    assert LongestRun(d, 2) == 2;
    assert LongestRun(d, 3) == 3;
  }

  /** Three consecutive days ending three days ago: no current streak, and a
      longest streak of 3. */
  lemma OldRun(today: int)
    ensures StreakOf([On(today - 3), On(today - 4), On(today - 5)], today) == StreakResult(0, 3)
  {
    var cs := [On(today - 3), On(today - 4), On(today - 5)];
    var s := [Instant(today - 3, 0), Instant(today - 4, 0), Instant(today - 5, 0)];
    assert DatesOf(cs) == s;
    SortedIs(cs, s, [today - 3, today - 4, today - 5], today);
    OldRunDays(today);
  }

  lemma StepBehindGapCountsDays(today: int)
    ensures StreakOfDays([today, today - 3, today - 4], today) == StreakResult(2, 2)
  {
    var d := [today, today - 3, today - 4];
    assert Run(d, 1) == 1;
    assert Run(d, 2) == 2;
    assert LongestRun(d, 2) == 1;
    assert LongestRun(d, 3) == 2;
    assert OneDayGaps(d, 2) == 0;
    assert OneDayGaps(d, 3) == 1;
  }

  /** The active branch counts the one-day step between today-3 and today-4
      although today's run ended at the gap. */
  lemma StepBehindGapCounts(today: int)
    ensures StreakOf([On(today), On(today - 3), On(today - 4)], today) == StreakResult(2, 2)
  {
    var cs := [On(today), On(today - 3), On(today - 4)];
    var s := [Instant(today, 0), Instant(today - 3, 0), Instant(today - 4, 0)];
    assert DatesOf(cs) == s;
    SortedIs(cs, s, [today, today - 3, today - 4], today);
    StepBehindGapCountsDays(today);
  }

  lemma SameDayResetsDays(today: int)
    ensures StreakOfDays([today, today], today) == StreakResult(1, 1)
  {
    var d := [today, today];
    assert Run(d, 1) == 1;
    assert LongestRun(d, 2) == 1;
    assert OneDayGaps(d, 2) == 0;
  }

  /** Two completions on the same day are a zero-day step, which resets the run. */
  lemma SameDayResets(today: int)
    ensures StreakOf([Completion(Instant(today, 1000), 1, ""), On(today)], today) == StreakResult(1, 1)
  {
    var cs := [Completion(Instant(today, 1000), 1, ""), On(today)];
    var s := [Instant(today, 1000), Instant(today, 0)];
    assert DatesOf(cs) == s;
    SortedIs(cs, s, [today, today], today);
    SameDayResetsDays(today);
  }

  /** A lone completion off the active branch gives longest 0. */
  lemma LoneOldCompletion(today: int)
    ensures StreakOf([On(today - 5)], today) == StreakResult(0, 0)
  {
  }
}
