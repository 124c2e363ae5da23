/** The analytics endpoints (routes/analytics.js): an overview over all of a
    user's active habits, and a report on one habit. */
module Analytics {
  import opened Dates
  import opened Results
  import opened Rates
  import opened HabitModel
  import opened HabitRoutes
  import opened DayCounts

  /** The overview a user sees across their active habits. The
      `todayCompletionRate` is in tenths of a percent. */
  datatype Overview = Overview(
    totalHabits: nat,
    totalCompletions: nat,
    activeStreaks: nat,
    longestStreak: nat,
    completedToday: nat,
    todayCompletionRate: nat)

  /** `Habit.find({ user, isActive: true })`: the user's active habits, in
      store order. */
  function OwnedActive(store: seq<Habit>, user: UserId): (r: seq<Habit>)
    reads store
    ensures forall i :: 0 <= i < |r| ==> r[i] in store && r[i].user == user && r[i].isActive
    ensures forall i :: 0 <= i < |store| && store[i].user == user && store[i].isActive ==> store[i] in r
  {
    if store == [] then []
    else
      var rest := OwnedActive(store[1..], user);
      assert forall i :: 1 <= i < |store| ==> store[i] == store[1..][i - 1];
      if store[0].user == user && store[0].isActive then [store[0]] + rest else rest
  }

  /** The number of completion records over a list of habits (records, not
      their `count` fields). */
  function TotalCompletions(hs: seq<Habit>, n: nat): nat
    requires n <= |hs|
    reads hs
  {
    if n == 0 then 0 else TotalCompletions(hs, n - 1) + |hs[n - 1].completions|
  }

  /** The number of habits among the first n whose streak as of `today` is
      running. */
  function ActiveCount(hs: seq<Habit>, n: nat, today: int): (k: nat)
    requires n <= |hs|
    reads hs
    ensures k <= n
  {
    if n == 0 then 0
    else ActiveCount(hs, n - 1, today) + (if StreakOf(hs[n - 1].completions, today).current > 0 then 1 else 0)
  }

  /** The largest longest-streak as of `today` among the first n habits, 0
      for none. */
  function LongestOf(hs: seq<Habit>, n: nat, today: int): nat
    requires n <= |hs|
    reads hs
  {
    if n == 0 then 0 else Max(LongestOf(hs, n - 1, today), StreakOf(hs[n - 1].completions, today).longest)
  }

  /** The number of habits with a completion on the day of `today`. */
  function CompletedOnCount(hs: seq<Habit>, n: nat, today: Instant): (k: nat)
    requires n <= |hs|
    reads hs
    ensures k <= n
  {
    if n == 0 then 0
    else CompletedOnCount(hs, n - 1, today) + (if FindOnDay(hs[n - 1].completions, today).Some? then 1 else 0)
  }

  /** GET /api/analytics/overview for `user` at the instant `now`: the first
      pass adds up completions, running streaks and the longest streak, the
      second counts the habits completed today. */
  method OverviewOf(store: seq<Habit>, user: UserId, now: Instant) returns (o: Overview)
    ensures var hs := OwnedActive(store, user);
      && o.totalHabits == |hs|
      && o.totalCompletions == TotalCompletions(hs, |hs|)
      && o.activeStreaks == ActiveCount(hs, |hs|, now.day)
      && o.longestStreak == LongestOf(hs, |hs|, now.day)
      && o.completedToday == CompletedOnCount(hs, |hs|, now)
      && o.todayCompletionRate == (if |hs| == 0 then 0 else RoundedTenths(o.completedToday, |hs|))
    ensures o.activeStreaks <= o.totalHabits && o.completedToday <= o.totalHabits
    ensures o.todayCompletionRate <= 1000
  {
    var habits := OwnedActive(store, user);
    var totalHabits := |habits|;
    var totalCompletions, activeStreaks, longestStreak := SumUp(habits, now.day);
    var completedToday := CountCompletedToday(habits, now);
    var completionRate := 0;
    if totalHabits > 0 {
      completionRate := RoundedTenths(completedToday, totalHabits);
      RateBounds(completedToday, totalHabits);
    }
    o := Overview(totalHabits, totalCompletions, activeStreaks, longestStreak, completedToday, completionRate);
  }

  /** The first `forEach` of the overview. */
  method SumUp(habits: seq<Habit>, today: int) returns (totalCompletions: nat, activeStreaks: nat, longestStreak: nat)
    ensures totalCompletions == TotalCompletions(habits, |habits|)
    ensures activeStreaks == ActiveCount(habits, |habits|, today)
    ensures longestStreak == LongestOf(habits, |habits|, today)
  {
    totalCompletions, activeStreaks, longestStreak := 0, 0, 0;
    var i := 0;
    while i < |habits|
      invariant 0 <= i <= |habits|
      invariant totalCompletions == TotalCompletions(habits, i)
      invariant activeStreaks == ActiveCount(habits, i, today)
      invariant longestStreak == LongestOf(habits, i, today)
    {
      var habit := habits[i];
      totalCompletions := totalCompletions + |habit.completions|;
      var streakData := habit.CalculateStreak(today);
      if streakData.current > 0 {
        activeStreaks := activeStreaks + 1;
      }
      longestStreak := Max(longestStreak, streakData.longest);
      i := i + 1;
    }
  }

  /** The second `forEach` of the overview: habits with a completion on the
      day of `now`, found by comparing midnights. */
  method CountCompletedToday(habits: seq<Habit>, now: Instant) returns (completedToday: nat)
    ensures completedToday == CompletedOnCount(habits, |habits|, now)
  {
    var today := Midnight(now);
    completedToday := 0;
    var i := 0;
    while i < |habits|
      invariant 0 <= i <= |habits|
      invariant completedToday == CompletedOnCount(habits, i, now)
    {
      var habit := habits[i];
      var todayCompletion := FindOnDay(habit.completions, today);
      FindOnSameDay(habit.completions, today, now);
      if todayCompletion.Some? {
        completedToday := completedToday + 1;
      }
      i := i + 1;
    }
  }

  /** The lookup depends only on the day of the instant it is given. */
  lemma FindOnSameDay(cs: seq<Completion>, a: Instant, b: Instant)
    requires a.day == b.day
    ensures FindOnDay(cs, a) == FindOnDay(cs, b)
  {
    if cs != [] {
      SameDayIff(cs[0].date, a);
      SameDayIff(cs[0].date, b);
      FindOnSameDay(cs[1..], a, b);
    }
  }

  /** One day of the 30-day history; `date` is the day number that
      `toISOString().split('T')[0]` prints. */
  datatype HistoryEntry = HistoryEntry(date: int, completed: bool, count: int)

  /** The report GET /api/analytics/habit/:id sends. Rates are in tenths of
      a percent; `next30Days` is the projected rate. */
  datatype HabitReport = HabitReport(
    habitName: string,
    totalCompletions: nat,
    currentStreak: nat,
    longestStreak: nat,
    completionRate: nat,
    completionHistory: seq<HistoryEntry>,
    next30Days: nat,
    likelihood: Likelihood)

  /** `completions.filter(c => new Date(c.date) >= since).length`. */
  function RecentCount(cs: seq<Completion>, since: Instant): (k: nat)
    ensures k <= |cs|
  {
    if cs == [] then 0
    else (if AtOrBefore(since, cs[0].date) then 1 else 0) + RecentCount(cs[1..], since)
  }

  /** The history entry for `day`: completed when some completion falls on
      that day, with the count of the first one found, else 0. */
  function EntryOn(cs: seq<Completion>, day: int): (e: HistoryEntry)
    ensures e.date == day
    ensures e.completed <==> exists i :: 0 <= i < |cs| && cs[i].date.day == day
    ensures e.completed ==> exists i :: 0 <= i < |cs| && cs[i].date.day == day && e.count == cs[i].count &&
                              forall j :: 0 <= j < i ==> cs[j].date.day != day
    ensures !e.completed ==> e.count == 0
  {
    var found := FindOnDay(cs, Instant(day, 0));
    HistoryEntry(day, found.Some?, if found.Some? then found.value.count else 0)
  }

  /** The loop that builds `completionHistory`: i runs from 29 down to 0 and
      each pass appends the entry for the day i days before today, so the 30
      entries cover today-29 .. today in ascending order. */
  method CompletionHistory(cs: seq<Completion>, now: Instant) returns (history: seq<HistoryEntry>)
    ensures |history| == 30
    ensures forall k :: 0 <= k < 30 ==> history[k] == EntryOn(cs, now.day - 29 + k)
  {
    history := [];
    var i := 29;
    while i >= 0
      invariant -1 <= i <= 29
      invariant |history| == 29 - i
      invariant forall k :: 0 <= k < |history| ==> history[k] == EntryOn(cs, now.day - 29 + k)
    {
      var date := Midnight(DaysEarlier(now, i));
      var completion := FindOnDay(cs, date);
      history := history + [HistoryEntry(date.day, completion.Some?, if completion.Some? then completion.value.count else 0)];
      i := i - 1;
    }
  }

  /** GET /api/analytics/habit/:id at the instant `now`. After the guard,
      the report carries the streak, the 30-day rate (records dated at or
      after thirty days ago, over 30), the history, and the same rate as the
      projection with its label. */
  method HabitAnalytics(h: Habit?, requester: UserId, now: Instant) returns (r: Result<HabitReport, ApiError>)
    ensures CheckAccess(h, requester, Access).Some? ==> r == Err(CheckAccess(h, requester, Access).value)
    ensures CheckAccess(h, requester, Access).None? ==> (r.Ok? &&
              var report, s := r.value, StreakOf(h.completions, now.day);
              && report.habitName == h.name
              && report.totalCompletions == |h.completions|
              && report.currentStreak == s.current
              && report.longestStreak == s.longest
              && report.completionRate == RoundedTenths(RecentCount(h.completions, DaysEarlier(now, 30)), 30)
              && report.next30Days == report.completionRate
              && report.likelihood == LikelihoodOf(report.completionRate)
              && |report.completionHistory| == 30
              && forall k :: 0 <= k < 30 ==> report.completionHistory[k] == EntryOn(h.completions, now.day - 29 + k))
  {
    var denied := CheckAccess(h, requester, Access);
    if denied.Some? {
      return Err(denied.value);
    }
    var streakData := h.CalculateStreak(now.day);
    var totalCompletions := |h.completions|;
    var thirtyDaysAgo := DaysEarlier(now, 30);
    var recentCompletions := RecentCount(h.completions, thirtyDaysAgo);
    var completionRate := RoundedTenths(recentCompletions, 30);
    var completionHistory := CompletionHistory(h.completions, now);
    var projectedSuccessRate := completionRate;
    r := Ok(HabitReport(h.name, totalCompletions, streakData.current, streakData.longest, completionRate,
                        completionHistory, projectedSuccessRate, LikelihoodOf(projectedSuccessRate)));
  }

  /** Every record inside the window is counted. */
  lemma {:induction false} RecentCountAll(cs: seq<Completion>, since: Instant)
    requires forall i :: 0 <= i < |cs| ==> AtOrBefore(since, cs[i].date)
    ensures RecentCount(cs, since) == |cs|
  {
    if cs != [] {
      assert forall i :: 0 <= i < |cs| - 1 ==> cs[1..][i] == cs[i + 1];
      RecentCountAll(cs[1..], since);
    }
  }

  /** The 30-day rate counts records, not days, and the window touches 31
      calendar days: read at midnight, one completion on each of the last 31
      days (no day twice, as the completion route allows) gives 103.3%. */
  lemma RateCanExceedHundred(cs: seq<Completion>, now: Instant)
    requires now.ms == 0 && |cs| == 31
    requires forall i :: 0 <= i < |cs| ==> cs[i].date == Instant(now.day - i, 0)
    ensures DistinctDays(cs)
    ensures RoundedTenths(RecentCount(cs, DaysEarlier(now, 30)), 30) == 1033
  {
    RecentCountAll(cs, DaysEarlier(now, 30));
  }

  /** With every record logged at midnight (as the completion route stores
      them), none after today, and `now` past midnight, the window starts
      inside day today-30 and so counts the records of days today-29 .. today. */
  lemma {:induction false} RecentIsLastThirtyDays(cs: seq<Completion>, now: Instant)
    requires now.ms > 0
    requires forall i :: 0 <= i < |cs| ==> cs[i].date.ms == 0 && cs[i].date.day <= now.day
    ensures RecentCount(cs, DaysEarlier(now, 30)) == CountBetween(cs, now.day - 29, now.day)
  {
    if cs != [] {
      assert forall i :: 0 <= i < |cs| - 1 ==> cs[1..][i] == cs[i + 1];
      RecentIsLastThirtyDays(cs[1..], now);
    }
  }

  /** Under the same conditions and one record per day, the 30-day rate is
      at most 100.0. */
  lemma RecentRateBounded(cs: seq<Completion>, now: Instant)
    requires now.ms > 0 && DistinctDays(cs)
    requires forall i :: 0 <= i < |cs| ==> cs[i].date.ms == 0 && cs[i].date.day <= now.day
    ensures RecentCount(cs, DaysEarlier(now, 30)) <= 30
    ensures RoundedTenths(RecentCount(cs, DaysEarlier(now, 30)), 30) <= 1000
  {
    RecentIsLastThirtyDays(cs, now);
    DistinctFitSpan(cs, now.day - 29, now.day);
    RateBounds(RecentCount(cs, DaysEarlier(now, 30)), 30);
  }

  /** The overview's longest streak is the largest of the habits' longest
      streaks: none is larger, one reaches it, and it is 0 without habits. */
  lemma {:induction false} LongestOfIsMax(hs: seq<Habit>, n: nat, today: int)
    requires n <= |hs|
    ensures forall i :: 0 <= i < n ==> StreakOf(hs[i].completions, today).longest <= LongestOf(hs, n, today)
    ensures n == 0 ==> LongestOf(hs, n, today) == 0
    ensures n > 0 ==> exists i :: 0 <= i < n && StreakOf(hs[i].completions, today).longest == LongestOf(hs, n, today)
  {
    if n > 0 {
      LongestOfIsMax(hs, n - 1, today);
    }
  }
}
