/** The habit document (models/Habit.js): its completion history and the
    streak calculation over it. */
module HabitModel {
  import opened Dates
  import opened Results

  /** The owner's user id (a database object id). */
  type UserId = int

  datatype Frequency = Daily | Weekly | Monthly

  /** One logged completion: when, how many times, and free-text notes. */
  datatype Completion = Completion(date: Instant, count: int, notes: string)

  /** The `{ current, longest }` pair `calculateStreak` returns. */
  datatype StreakResult = StreakResult(current: nat, longest: nat)

  /** `Math.max`. */
  function Max(a: nat, b: nat): nat {
    if a >= b then a else b
  }

  /** `completions.map(c => new Date(c.date))`. */
  function DatesOf(cs: seq<Completion>): (r: seq<Instant>)
    ensures |r| == |cs| && forall i :: 0 <= i < |cs| ==> r[i] == cs[i].date
  {
    if cs == [] then [] else [cs[0].date] + DatesOf(cs[1..])
  }

  /** At most one completion per calendar day: the invariant that logging a
      completion keeps. */
  predicate DistinctDays(cs: seq<Completion>) {
    forall i, j :: 0 <= i < j < |cs| ==> cs[i].date.day != cs[j].date.day
  }

  /** The calendar days that have a completion. */
  function DaySet(cs: seq<Completion>): set<int> {
    set c | c in cs :: c.date.day
  }

  /** `completions.find(c => same calendar day as on)`: the first completion
      logged on `on`'s day, if any. */
  function FindOnDay(cs: seq<Completion>, on: Instant): (r: Option<Completion>)
    ensures r.None? ==> forall i :: 0 <= i < |cs| ==> cs[i].date.day != on.day
    ensures r.Some? ==> exists i :: 0 <= i < |cs| && cs[i] == r.value && cs[i].date.day == on.day &&
                          forall j :: 0 <= j < i ==> cs[j].date.day != on.day
  {
    if cs == [] then None
    else
      SameDayIff(cs[0].date, on);
      if SameDay(cs[0].date, on) then
        Some(cs[0])
      else
        var r := FindOnDay(cs[1..], on);
        assert forall i :: 1 <= i < |cs| ==> cs[i] == cs[1..][i - 1];
        r
  }

  /** Dates in descending order, the order `sort((a, b) => b - a)` leaves them in. */
  predicate NewestFirst(s: seq<Instant>) {
    forall i, j :: 0 <= i < j < |s| ==> AtOrBefore(s[j], s[i])
  }

  /** Places x in front of the first date that is at or before it. */
  function Insert(x: Instant, s: seq<Instant>): (r: seq<Instant>)
    ensures |r| == |s| + 1
  {
    if s == [] || AtOrBefore(s[0], x) then [x] + s
    else [s[0]] + Insert(x, s[1..])
  }

  /** The array sort of `calculateStreak`, `sort((a, b) => b - a)`. */
  function SortNewestFirst(s: seq<Instant>): (r: seq<Instant>)
    ensures |r| == |s|
  {
    if s == [] then [] else Insert(s[0], SortNewestFirst(s[1..]))
  }

  /** Inserting into a newest-first list keeps it newest first; the new
      head is x or the old head. */
  lemma {:induction false} InsertNewestFirst(x: Instant, s: seq<Instant>)
    requires NewestFirst(s)
    ensures NewestFirst(Insert(x, s))
    ensures Insert(x, s)[0] == x || (s != [] && Insert(x, s)[0] == s[0])
  {
    if s == [] || AtOrBefore(s[0], x) {
      PrependNewestFirst(x, s);
    } else {
      var tail := s[1..];
      assert NewestFirst(tail) by {
        forall i, j | 0 <= i < j < |tail| ensures AtOrBefore(tail[j], tail[i]) {
          assert tail[i] == s[i + 1] && tail[j] == s[j + 1];
        }
      }
      InsertNewestFirst(x, tail);
      var rest := Insert(x, tail);
      assert Insert(x, s) == [s[0]] + rest;
      if rest[0] != x {
        assert rest[0] == s[1];
      }
      PrependNewestFirst(s[0], rest);
    }
  }

  /** A date at or after the head of a newest-first list may go in front. */
  lemma PrependNewestFirst(x: Instant, s: seq<Instant>)
    requires NewestFirst(s) && (s == [] || AtOrBefore(s[0], x))
    ensures NewestFirst([x] + s)
  {
    var r := [x] + s;
    forall i, j | 0 <= i < j < |r| ensures AtOrBefore(r[j], r[i]) {
      if i > 0 {
        assert r[i] == s[i - 1] && r[j] == s[j - 1];
      } else {
        assert r[j] == s[j - 1];
        assert AtOrBefore(s[j - 1], s[0]);
      }
    }
  }

  /** Inserting adds exactly x to the dates. */
  lemma {:induction false} InsertMultiset(x: Instant, s: seq<Instant>)
    ensures multiset(Insert(x, s)) == multiset(s) + multiset{x}
  {
    if s != [] && !AtOrBefore(s[0], x) {
      InsertMultiset(x, s[1..]);
      assert Insert(x, s) == [s[0]] + Insert(x, s[1..]);
      assert s == [s[0]] + s[1..];
    }
  }

  /** The sort yields the same dates, newest first. */
  lemma {:induction false} SortNewestFirstSorts(s: seq<Instant>)
    ensures NewestFirst(SortNewestFirst(s))
    ensures multiset(SortNewestFirst(s)) == multiset(s)
  {
    if s != [] {
      SortNewestFirstSorts(s[1..]);
      InsertNewestFirst(s[0], SortNewestFirst(s[1..]));
      InsertMultiset(s[0], SortNewestFirst(s[1..]));
      assert s == [s[0]] + s[1..];
    }
  }

  /** The calendar days of a list of dates, each normalized to midnight. */
  function DaysOf(s: seq<Instant>): seq<int> {
    seq(|s|, i requires 0 <= i < |s| => s[i].day)
  }

  /** The completion days newest first: the list the streak loops walk. */
  function NewestFirstDays(cs: seq<Completion>): seq<int> {
    DaysOf(SortNewestFirst(DatesOf(cs)))
  }

  /** `tempStreak` once the loop has visited index i of the newest-first day
      list d: one more than before after a one-day step, else back to 1. */
  function Run(d: seq<int>, i: nat): nat
    requires i < |d|
  {
    if i == 0 then 1
    else if d[i - 1] - d[i] == 1 then Run(d, i - 1) + 1
    else 1
  }

  /** `longestStreak` after the loop has visited indices 1 .. n-1 of d: the
      largest `tempStreak` seen, and 0 when the loop has not run. */
  function LongestRun(d: seq<int>, n: nat): nat
    requires n <= |d|
  {
    if n <= 1 then 0 else Max(LongestRun(d, n - 1), Run(d, n - 1))
  }

  /** The number of adjacent pairs among d[0..n] exactly one day apart. */
  function OneDayGaps(d: seq<int>, n: nat): nat
    requires n <= |d|
  {
    if n <= 1 then 0
    else OneDayGaps(d, n - 1) + (if d[n - 2] - d[n - 1] == 1 then 1 else 0)
  }

  /** The streak of a newest-first day list as of day `today`. The active
      branch (newest day is today or yesterday) counts EVERY one-day step of
      the history into `current`, not only those of the leading run. */
  function StreakOfDays(d: seq<int>, today: int): StreakResult {
    if |d| == 0 then StreakResult(0, 0)
    else if d[0] == today || d[0] == today - 1 then
      var current := 1 + OneDayGaps(d, |d|);
      StreakResult(current, Max(LongestRun(d, |d|), current))
    else
      StreakResult(0, LongestRun(d, |d|))
  }

  /** The streak of a completion history as of day `today`. */
  function StreakOf(cs: seq<Completion>, today: int): StreakResult {
    StreakOfDays(NewestFirstDays(cs), today)
  }

  /** The loop of the active branch of `calculateStreak` over the dates,
      newest first: `currentStreak` grows at every one-day step anywhere in
      the list, `tempStreak` only along a run. */
  method ScanActive(sorted: seq<Instant>) returns (currentStreak: nat, longestStreak: nat)
    requires |sorted| > 0
    ensures currentStreak == 1 + OneDayGaps(DaysOf(sorted), |sorted|)
    ensures longestStreak == Max(LongestRun(DaysOf(sorted), |sorted|), currentStreak)
  {
    ghost var d := DaysOf(sorted);
    var tempStreak: nat := 1;
    currentStreak, longestStreak := 1, 0;
    var i := 1;
    while i < |sorted|
      invariant 1 <= i <= |sorted|
      invariant tempStreak == Run(d, i - 1)
      invariant longestStreak == LongestRun(d, i)
      invariant currentStreak == 1 + OneDayGaps(d, i)
    {
      var current := Midnight(sorted[i]);
      var previous := Midnight(sorted[i - 1]);
      var dayDiff := WholeDaysBetween(previous, current);
      MidnightDayDifference(previous, current);
      assert dayDiff == d[i - 1] - d[i];
      if dayDiff == 1 {
        currentStreak := currentStreak + 1;
        tempStreak := tempStreak + 1;
      } else {
        tempStreak := 1;
      }
      longestStreak := Max(longestStreak, tempStreak);
      i := i + 1;
    }
    longestStreak := Max(longestStreak, currentStreak);
  }

  /** The loop of the inactive branch of `calculateStreak`: only the longest
      run is tracked. */
  method ScanBroken(sorted: seq<Instant>) returns (longestStreak: nat)
    requires |sorted| > 0
    ensures longestStreak == LongestRun(DaysOf(sorted), |sorted|)
  {
    ghost var d := DaysOf(sorted);
    var tempStreak: nat := 1;
    longestStreak := 0;
    var i := 1;
    while i < |sorted|
      invariant 1 <= i <= |sorted|
      invariant tempStreak == Run(d, i - 1)
      invariant longestStreak == LongestRun(d, i)
    {
      var current := Midnight(sorted[i]);
      var previous := Midnight(sorted[i - 1]);
      var dayDiff := WholeDaysBetween(previous, current);
      MidnightDayDifference(previous, current);
      assert dayDiff == d[i - 1] - d[i];
      if dayDiff == 1 {
        tempStreak := tempStreak + 1;
      } else {
        tempStreak := 1;
      }
      longestStreak := Max(longestStreak, tempStreak);
      i := i + 1;
    }
  }

  /** The fields of a habit document other than `completions` and `streak`:
      the ones no completion or streak update touches. */
  datatype Profile = Profile(
    user: UserId,
    name: string,
    description: string,
    frequency: Frequency,
    goal: int,
    createdAt: Instant,
    isActive: bool)

  /** A habit document. Route handlers change `completions` and `streak` in place. */
  class Habit {
    var user: UserId
    var name: string
    var description: string
    var frequency: Frequency
    var goal: int
    var completions: seq<Completion>
    var streak: StreakResult
    var createdAt: Instant
    var isActive: bool

    /** The document's fields other than `completions` and `streak`. */
    function ProfileOf(): Profile
      reads this
    {
      Profile(user, name, description, frequency, goal, createdAt, isActive)
    }

    /** A new document with the schema's defaults. */
    constructor (user: UserId, name: string, createdAt: Instant)
      ensures this.user == user && this.name == name && this.createdAt == createdAt
      ensures description == "" && frequency == Daily && goal == 1
      ensures completions == [] && streak == StreakResult(0, 0) && isActive
    {
      this.user := user;
      this.name := name;
      this.createdAt := createdAt;
      description := "";
      frequency := Daily;
      goal := 1;
      completions := [];
      streak := StreakResult(0, 0);
      isActive := true;
    }

    /** `calculateStreak`, with the clock's day passed in as `today`. */
    method CalculateStreak(today: int) returns (r: StreakResult)
      ensures r == StreakOf(completions, today)
    {
      if |completions| == 0 {
        return StreakResult(0, 0);
      }
      var sortedCompletions := SortNewestFirst(DatesOf(completions));
      var lastCompletion := Midnight(sortedCompletions[0]);
      var currentStreak, longestStreak;
      if lastCompletion.day == today || lastCompletion.day == today - 1 {
        currentStreak, longestStreak := ScanActive(sortedCompletions);
      } else {
        currentStreak := 0;
        longestStreak := ScanBroken(sortedCompletions);
      }
      r := StreakResult(currentStreak, longestStreak);
    }

    /** `habit.streak = habit.calculateStreak()`, which the route handlers
        run after reading or changing a habit: only `streak` changes. */
    method RefreshStreak(today: int)
      modifies this
      ensures streak == StreakOf(completions, today)
      ensures completions == old(completions) && user == old(user) && name == old(name)
      ensures description == old(description) && frequency == old(frequency) && goal == old(goal)
      ensures createdAt == old(createdAt) && isActive == old(isActive)
    {
      var streakData := CalculateStreak(today);
      streak := streakData;
    }
  }
}
