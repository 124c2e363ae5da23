/** What `calculateStreak` (models/Habit.js) promises, proved about its
    specification `StreakOf`. */
module StreakProperties {
  import opened Dates
  import opened HabitModel

  /** Every date of a newest-first list is at or before its head. */
  lemma HeadIsNewest(s: seq<Instant>, x: Instant)
    requires NewestFirst(s) && x in multiset(s)
    ensures s != [] && AtOrBefore(x, s[0])
  {
    var i :| 0 <= i < |s| && s[i] == x;
  }

  lemma TailMultiset<T>(s: seq<T>)
    requires s != []
    ensures multiset(s[1..]) == multiset(s) - multiset{s[0]}
  {
    assert s == [s[0]] + s[1..];
  }

  /** Two newest-first lists holding the same dates are the same list. */
  lemma {:induction false} SortedUnique(a: seq<Instant>, b: seq<Instant>)
    requires NewestFirst(a) && NewestFirst(b)
    requires multiset(a) == multiset(b)
    ensures a == b
  {
    if a != [] {
      HeadIsNewest(b, a[0]);
      HeadIsNewest(a, b[0]);
      assert a[0] == b[0];
      TailMultiset(a);
      TailMultiset(b);
      SortedUnique(a[1..], b[1..]);
    } else {
      assert |multiset(b)| == 0;
    }
  }

  /** A list of days in non-increasing order. */
  predicate Descending(d: seq<int>) {
    forall i, j :: 0 <= i < j < |d| ==> d[j] <= d[i]
  }

  /** Every day of a descending list is at or before its head. */
  lemma HeadIsLatestDay(d: seq<int>, x: int)
    requires Descending(d) && x in multiset(d)
    ensures d != [] && x <= d[0]
  {
    var i :| 0 <= i < |d| && d[i] == x;
  }

  /** Two descending day lists holding the same days are the same list. */
  lemma {:induction false} DescendingUnique(a: seq<int>, b: seq<int>)
    requires Descending(a) && Descending(b)
    requires multiset(a) == multiset(b)
    ensures a == b
  {
    if a != [] {
      assert a[0] == b[0] by {
        HeadIsLatestDay(b, a[0]);
        HeadIsLatestDay(a, b[0]);
      }
      assert multiset(a[1..]) == multiset(b[1..]) by {
        TailMultiset(a);
        TailMultiset(b);
      }
      DescendingUnique(a[1..], b[1..]);
      assert a == [a[0]] + a[1..];
      assert b == [b[0]] + b[1..];
    } else {
      assert |multiset(b)| == 0;
    }
  }

  /** Rearranging a list of dates rearranges its days the same way. */
  lemma {:induction false} DaysOfMultiset(s: seq<Instant>, t: seq<Instant>)
    requires multiset(s) == multiset(t)
    ensures multiset(DaysOf(s)) == multiset(DaysOf(t))
  {
    if s == [] {
      assert |multiset(t)| == 0;
    } else {
      var j := IndexOf(t, s[0]);
      var s', t' := s[1..], t[..j] + t[j + 1..];
      RemoveMatching(s, t, j);
      DaysOfMultiset(s', t');
      var x := s[0].day;
      assert DaysOf(s) == [x] + DaysOf(s');
      assert DaysOf(t) == DaysOf(t)[..j] + [x] + DaysOf(t)[j + 1..];
      assert DaysOf(t') == DaysOf(t)[..j] + DaysOf(t)[j + 1..];
    }
  }

  /** The newest-first day list is descending and holds the completion days. */
  lemma NewestFirstDaysOf(cs: seq<Completion>)
    ensures Descending(NewestFirstDays(cs))
    ensures multiset(NewestFirstDays(cs)) == multiset(DaysOf(DatesOf(cs)))
  {
    NewestIsLatest(cs);
    SortNewestFirstSorts(DatesOf(cs));
    DaysOfMultiset(SortNewestFirst(DatesOf(cs)), DatesOf(cs));
  }

  /** The streak depends only on the multiset of completion days: neither
      the order the completions were stored in nor their times of day
      matter. */
  lemma StreakOrderIndependent(a: seq<Completion>, b: seq<Completion>, today: int)
    requires multiset(DaysOf(DatesOf(a))) == multiset(DaysOf(DatesOf(b)))
    ensures StreakOf(a, today) == StreakOf(b, today)
  {
    NewestFirstDaysOf(a);
    NewestFirstDaysOf(b);
    DescendingUnique(NewestFirstDays(a), NewestFirstDays(b));
  }

  /** Reordering the stored completions leaves the streak unchanged. */
  lemma StreakPermutationInvariant(a: seq<Completion>, b: seq<Completion>, today: int)
    requires multiset(a) == multiset(b)
    ensures StreakOf(a, today) == StreakOf(b, today)
  {
    DatesOfMultiset(a, b);
    DaysOfMultiset(DatesOf(a), DatesOf(b));
    StreakOrderIndependent(a, b, today);
  }

  lemma RemoveAtTail<T>(b: seq<T>, j: nat)
    requires 0 < j < |b|
    ensures var b' := b[..j] + b[j + 1..];
      b'[0] == b[0] && b'[1..] == b[1..][..j - 1] + b[1..][j..]
  {
  }

  lemma {:induction false} DatesOfWithout(b: seq<Completion>, j: nat)
    requires j < |b|
    ensures multiset(DatesOf(b)) == multiset{b[j].date} + multiset(DatesOf(b[..j] + b[j + 1..]))
  {
    var b' := b[..j] + b[j + 1..];
    if j == 0 {
      assert b' == b[1..];
    } else {
      var t := b[1..];
      DatesOfWithout(t, j - 1);
      RemoveAtTail(b, j);
      calc {
        multiset(DatesOf(b));
        multiset{b[0].date} + multiset(DatesOf(t));
        multiset{b[0].date} + multiset{t[j - 1].date} + multiset(DatesOf(t[..j - 1] + t[j..]));
        multiset{b[j].date} + (multiset{b'[0].date} + multiset(DatesOf(b'[1..])));
        multiset{b[j].date} + multiset(DatesOf(b'));
      }
    }
  }

  lemma IndexOf<T>(b: seq<T>, x: T) returns (j: nat)
    requires x in multiset(b)
    ensures j < |b| && b[j] == x
  {
    j :| 0 <= j < |b| && b[j] == x;
  }

  lemma RemoveAtMultiset<T>(b: seq<T>, j: nat)
    requires j < |b|
    ensures multiset(b[..j] + b[j + 1..]) == multiset(b) - multiset{b[j]}
  {
    assert b == b[..j] + [b[j]] + b[j + 1..];
  }

  /** Taking the head of a and a matching element of b from two lists with
      the same elements leaves two lists with the same elements. */
  lemma RemoveMatching<T>(a: seq<T>, b: seq<T>, j: nat)
    requires multiset(a) == multiset(b) && a != [] && j < |b| && b[j] == a[0]
    ensures multiset(a[1..]) == multiset(b[..j] + b[j + 1..])
  {
    RemoveAtMultiset(b, j);
    TailMultiset(a);
  }

  lemma {:induction false} DatesOfMultiset(a: seq<Completion>, b: seq<Completion>)
    requires multiset(a) == multiset(b)
    ensures multiset(DatesOf(a)) == multiset(DatesOf(b))
  {
    if a == [] {
      assert |multiset(b)| == 0;
    } else {
      var j := IndexOf(b, a[0]);
      var a', b' := a[1..], b[..j] + b[j + 1..];
      RemoveMatching(a, b, j);
      DatesOfMultiset(a', b');
      DatesOfWithout(b, j);
      DatesOfWithout(a, 0);
      calc {
        multiset(DatesOf(a));
        multiset{a[0].date} + multiset(DatesOf(a'));
        multiset{b[j].date} + multiset(DatesOf(b'));
        multiset(DatesOf(b));
      }
    }
  }

  /** A date in a completion list is a date of its newest-first list. */
  lemma DateInSorted(cs: seq<Completion>, c: Completion) returns (k: nat)
    requires c in cs
    ensures k < |cs| && SortNewestFirst(DatesOf(cs))[k] == c.date
  {
    var i := IndexOf(cs, c);
    assert DatesOf(cs)[i] == c.date;
    SortNewestFirstSorts(DatesOf(cs));
    k := IndexOf(SortNewestFirst(DatesOf(cs)), c.date);
  }

  /** A date of the newest-first list is the date of some completion. */
  lemma SortedFromCompletion(cs: seq<Completion>, k: nat) returns (c: Completion)
    requires k < |cs|
    ensures c in cs && c.date == SortNewestFirst(DatesOf(cs))[k]
  {
    var s := SortNewestFirst(DatesOf(cs));
    SortNewestFirstSorts(DatesOf(cs));
    assert s[k] in multiset(DatesOf(cs));
    var i := IndexOf(DatesOf(cs), s[k]);
    c := cs[i];
  }

  /** The newest-first day list has one entry per completion, and its head is
      the latest day of any completion. */
  lemma NewestIsLatest(cs: seq<Completion>)
    ensures |NewestFirstDays(cs)| == |cs|
    ensures forall i, j :: 0 <= i < j < |cs| ==> NewestFirstDays(cs)[j] <= NewestFirstDays(cs)[i]
    ensures cs != [] ==> forall c :: c in cs ==> c.date.day <= NewestFirstDays(cs)[0]
    ensures cs != [] ==> exists c :: c in cs && c.date.day == NewestFirstDays(cs)[0]
  {
    var s := SortNewestFirst(DatesOf(cs));
    SortNewestFirstSorts(DatesOf(cs));
    if cs != [] {
      forall c | c in cs
        ensures c.date.day <= NewestFirstDays(cs)[0]
      {
        var k := DateInSorted(cs, c);
        assert AtOrBefore(s[k], s[0]);
      }
      var c := SortedFromCompletion(cs, 0);
    }
  }

  /** An empty history has no streak. */
  lemma EmptyHistory(today: int)
    ensures StreakOf([], today) == StreakResult(0, 0)
  {
  }

  /** The current streak is positive exactly when the newest completion falls
      on today or yesterday: some completion is on one of those two days and
      none is dated after today. A future-dated completion ends the streak. */
  lemma CurrentIffRecent(cs: seq<Completion>, today: int)
    ensures StreakOf(cs, today).current > 0 <==>
      (exists c :: c in cs && (c.date.day == today || c.date.day == today - 1)) &&
      (forall c :: c in cs ==> c.date.day <= today)
  {
    NewestIsLatest(cs);
  }

  lemma {:induction false} RunBounds(d: seq<int>, i: nat)
    requires i < |d|
    ensures 1 <= Run(d, i) <= i + 1
  {
    if i > 0 && d[i - 1] - d[i] == 1 {
      RunBounds(d, i - 1);
    }
  }

  lemma {:induction false} LongestRunBounds(d: seq<int>, n: nat)
    requires n <= |d|
    ensures LongestRun(d, n) <= n
    ensures n >= 2 ==> LongestRun(d, n) >= 1
  {
    if n >= 2 {
      LongestRunBounds(d, n - 1);
      RunBounds(d, n - 1);
    }
  }

  lemma {:induction false} OneDayGapsBound(d: seq<int>, n: nat)
    requires 1 <= n <= |d|
    ensures OneDayGaps(d, n) <= n - 1
  {
    if n >= 2 {
      OneDayGapsBound(d, n - 1);
    }
  }

  /** `longest >= current`, and neither exceeds the number of completions. */
  lemma StreakBounds(cs: seq<Completion>, today: int)
    ensures StreakOf(cs, today).current <= StreakOf(cs, today).longest
    ensures StreakOf(cs, today).longest <= |cs|
  {
    NewestIsLatest(cs);
    var d := NewestFirstDays(cs);
    LongestRunBounds(d, |d|);
    if |d| > 0 {
      OneDayGapsBound(d, |d|);
    }
  }

  /** Off the active branch a single completion gives no longest streak at
      all (the loop never runs), while two or more give at least 1. */
  lemma InactiveLongest(cs: seq<Completion>, today: int)
    requires StreakOf(cs, today).current == 0
    ensures |cs| == 1 ==> StreakOf(cs, today).longest == 0
    ensures |cs| >= 2 ==> StreakOf(cs, today).longest >= 1
  {
    NewestIsLatest(cs);
    LongestRunBounds(NewestFirstDays(cs), |cs|);
  }

  /** d[lo..hi] is a run: each day exactly one day before the one above it. */
  predicate IsRun(d: seq<int>, lo: int, hi: int) {
    0 <= lo < hi <= |d| && forall k :: lo < k < hi ==> OneDayStep(d, k)
  }

  /** The day at index k is exactly one day before the day at index k - 1. */
  predicate OneDayStep(d: seq<int>, k: int)
    requires 0 < k < |d|
  {
    d[k - 1] - d[k] == 1
  }

  /** `tempStreak` at index hi - 1 is the length of the longest run ending there. */
  lemma {:induction false} RunIsLongestEndingAt(d: seq<int>, hi: nat)
    requires 1 <= hi <= |d|
    ensures Run(d, hi - 1) <= hi && IsRun(d, hi - Run(d, hi - 1), hi)
    ensures forall lo :: IsRun(d, lo, hi) ==> hi - lo <= Run(d, hi - 1)
  {
    var i := hi - 1;
    if i > 0 && d[i - 1] - d[i] == 1 {
      RunIsLongestEndingAt(d, i);
      forall lo | IsRun(d, lo, hi)
        ensures hi - lo <= Run(d, i)
      {
        if lo < i {
          assert IsRun(d, lo, i);
        }
      }
    } else {
      assert i > 0 ==> !OneDayStep(d, i);
      forall lo | IsRun(d, lo, hi)
        ensures hi - lo <= Run(d, i)
      {
      }
    }
  }

  /** Once the loop has visited two or more days, `longestStreak` is the
      length of the longest run among the days visited. */
  lemma {:induction false} LongestRunIsLongest(d: seq<int>, n: nat)
    requires 2 <= n <= |d|
    ensures forall lo, hi :: IsRun(d, lo, hi) && hi <= n ==> hi - lo <= LongestRun(d, n)
    ensures exists lo, hi :: IsRun(d, lo, hi) && hi <= n && hi - lo == LongestRun(d, n)
  {
    RunIsLongestEndingAt(d, n);
    if n == 2 {
      assert LongestRun(d, n) == Run(d, 1);
      forall lo, hi | IsRun(d, lo, hi) && hi <= n
        ensures hi - lo <= LongestRun(d, n)
      {
        if hi == 1 {
          RunBounds(d, 1);
        }
      }
      assert IsRun(d, 2 - Run(d, 1), 2);
    } else {
      LongestRunIsLongest(d, n - 1);
      forall lo, hi | IsRun(d, lo, hi) && hi <= n
        ensures hi - lo <= LongestRun(d, n)
      {
        if hi < n {
          assert hi - lo <= LongestRun(d, n - 1);
        }
      }
      if LongestRun(d, n - 1) < Run(d, n - 1) {
        assert IsRun(d, n - Run(d, n - 1), n);
      }
    }
  }

  /** With two or more completions, `longest` bounds every run of the
      newest-first day list; off the active branch some run reaches it, on
      the active branch either a run reaches it or it equals `current`. */
  lemma LongestIsLongestRun(cs: seq<Completion>, today: int)
    requires |cs| >= 2
    ensures forall lo, hi :: IsRun(NewestFirstDays(cs), lo, hi) ==> hi - lo <= StreakOf(cs, today).longest
    ensures StreakOf(cs, today).longest == StreakOf(cs, today).current ||
      exists lo, hi :: IsRun(NewestFirstDays(cs), lo, hi) && hi - lo == StreakOf(cs, today).longest
  {
    NewestIsLatest(cs);
    var d := NewestFirstDays(cs);
    LongestRunIsLongest(d, |d|);
  }

  /** The days among the first n entries of d. */
  function ElemsUpTo(d: seq<int>, n: nat): set<int>
    requires n <= |d|
  {
    set k | 0 <= k < n :: d[k]
  }

  /** The days of `days` whose preceding calendar day is in `days` too. */
  function FollowsPreviousDay(days: set<int>): set<int> {
    set x | x in days && HasPreviousDay(days, x)
  }

  predicate HasPreviousDay(days: set<int>, x: int) {
    x - 1 in days
  }

  predicate StrictlyDecreasing(d: seq<int>) {
    forall i, j :: 0 <= i < j < |d| ==> d[j] < d[i]
  }

  lemma ElemsStep(d: seq<int>, m: nat)
    requires 1 <= m < |d| && StrictlyDecreasing(d)
    ensures ElemsUpTo(d, m + 1) == ElemsUpTo(d, m) + {d[m]}
    ensures d[m - 1] in ElemsUpTo(d, m)
    ensures forall x :: x in ElemsUpTo(d, m) ==> x >= d[m - 1]
  {
    var bigger := ElemsUpTo(d, m + 1);
    forall x | x in bigger ensures x in ElemsUpTo(d, m) + {d[m]} {
      var k :| 0 <= k < m + 1 && d[k] == x;
    }
    forall x | x in ElemsUpTo(d, m) ensures x >= d[m - 1] {
      var k :| 0 <= k < m && d[k] == x;
    }
  }

  /** Adding a day y below every day of e, the lowest of which is `low`, adds
      `low` to the followers exactly when y is the day before `low`. */
  lemma FollowersStep(e: set<int>, low: int, y: int)
    requires low in e && y < low
    requires forall x :: x in e ==> x >= low
    ensures FollowsPreviousDay(e + {y}) ==
      FollowsPreviousDay(e) + (if low - y == 1 then {low} else {})
    ensures low !in FollowsPreviousDay(e)
  {
    var e' := e + {y};
    forall x | x in FollowsPreviousDay(e')
      ensures x in FollowsPreviousDay(e) + (if low - y == 1 then {low} else {})
    {
      assert HasPreviousDay(e', x);
      if x - 1 == y {
        assert x == low;
      } else {
        assert HasPreviousDay(e, x);
      }
    }
    forall x | x in FollowsPreviousDay(e) + (if low - y == 1 then {low} else {})
      ensures x in FollowsPreviousDay(e')
    {
      if x in FollowsPreviousDay(e) {
        assert HasPreviousDay(e, x);
      }
      assert HasPreviousDay(e', x);
    }
  }

  /** For a list of distinct days, newest first, the one-day steps are the
      days whose previous day is also listed. */
  lemma {:induction false} GapsAreFollowers(d: seq<int>, n: nat)
    requires 1 <= n <= |d| && StrictlyDecreasing(d)
    ensures OneDayGaps(d, n) == |FollowsPreviousDay(ElemsUpTo(d, n))|
  {
    if n == 1 {
      assert ElemsUpTo(d, 1) == {d[0]};
      assert !HasPreviousDay({d[0]}, d[0]);
      assert FollowsPreviousDay({d[0]}) == {};
    } else {
      GapsAreFollowers(d, n - 1);
      GapsStep(d, n - 1);
    }
  }

  lemma GapsStep(d: seq<int>, m: nat)
    requires 1 <= m < |d| && StrictlyDecreasing(d)
    requires OneDayGaps(d, m) == |FollowsPreviousDay(ElemsUpTo(d, m))|
    ensures OneDayGaps(d, m + 1) == |FollowsPreviousDay(ElemsUpTo(d, m + 1))|
  {
    var e := ElemsUpTo(d, m);
    ElemsStep(d, m);
    FollowersStep(e, d[m - 1], d[m]);
    var f := FollowsPreviousDay(e);
    if d[m - 1] - d[m] == 1 {
      assert |f + {d[m - 1]}| == |f| + 1;
    }
  }

  predicate DistinctDayDates(s: seq<Instant>) {
    forall i, j :: 0 <= i < j < |s| ==> s[i].day != s[j].day
  }

  lemma RemoveAtIndex<T>(b: seq<T>, j: nat, n: nat)
    requires j < |b| && n < |b| - 1
    ensures (b[..j] + b[j + 1..])[n] == b[if n < j then n else n + 1]
  {
  }

  lemma RemoveAtKeepsDistinct(b: seq<Instant>, j: nat)
    requires j < |b| && DistinctDayDates(b)
    ensures DistinctDayDates(b[..j] + b[j + 1..])
  {
    var b' := b[..j] + b[j + 1..];
    forall m, n | 0 <= m < n < |b'| ensures b'[m].day != b'[n].day {
      RemoveAtIndex(b, j, m);
      RemoveAtIndex(b, j, n);
    }
  }

  lemma ConsDistinct(a: seq<Instant>)
    requires a != [] && DistinctDayDates(a[1..])
    requires forall m :: 1 <= m < |a| ==> a[m].day != a[0].day
    ensures DistinctDayDates(a)
  {
    forall i, k | 0 <= i < k < |a| ensures a[i].day != a[k].day {
      assert a[k] == a[1..][k - 1];
      if i > 0 {
        assert a[i] == a[1..][i - 1];
      }
    }
  }

  /** No date of b other than b[j] falls on b[j]'s day, so neither does any
      date of a list holding the rest of b. */
  lemma OthersOnOtherDays(b: seq<Instant>, j: nat, rest: seq<Instant>)
    requires j < |b| && DistinctDayDates(b)
    requires multiset(rest) == multiset(b[..j] + b[j + 1..])
    ensures forall x :: x in rest ==> x.day != b[j].day
  {
    var b' := b[..j] + b[j + 1..];
    forall x | x in rest ensures x.day != b[j].day {
      assert x in multiset(b');
      var n := IndexOf(b', x);
      RemoveAtIndex(b, j, n);
    }
  }

  /** Rearranging a list of dates keeps its days distinct. */
  lemma {:induction false} DistinctDatesTransfer(a: seq<Instant>, b: seq<Instant>)
    requires multiset(a) == multiset(b) && DistinctDayDates(b)
    ensures DistinctDayDates(a)
  {
    if a != [] {
      var j := IndexOf(b, a[0]);
      var a', b' := a[1..], b[..j] + b[j + 1..];
      RemoveMatching(a, b, j);
      RemoveAtKeepsDistinct(b, j);
      DistinctDatesTransfer(a', b');
      OthersOnOtherDays(b, j, a');
      assert forall m :: 1 <= m < |a| ==> a[m] in a';
      ConsDistinct(a);
    }
  }

  /** Under the one-completion-per-day invariant the newest-first day list
      is strictly decreasing. */
  lemma DistinctNewestFirst(cs: seq<Completion>)
    requires DistinctDays(cs)
    ensures StrictlyDecreasing(NewestFirstDays(cs))
  {
    var s := SortNewestFirst(DatesOf(cs));
    SortNewestFirstSorts(DatesOf(cs));
    DistinctDatesTransfer(s, DatesOf(cs));
    var d := NewestFirstDays(cs);
    forall i, j | 0 <= i < j < |d| ensures d[j] < d[i] {
      assert AtOrBefore(s[j], s[i]) && s[i].day != s[j].day;
    }
  }

  /** The newest-first day list holds exactly the days with a completion. */
  lemma NewestFirstDaySet(cs: seq<Completion>)
    ensures ElemsUpTo(NewestFirstDays(cs), |cs|) == DaySet(cs)
  {
    var d := NewestFirstDays(cs);
    forall x | x in ElemsUpTo(d, |cs|) ensures x in DaySet(cs) {
      var k :| 0 <= k < |cs| && d[k] == x;
      var c := SortedFromCompletion(cs, k);
    }
    forall x | x in DaySet(cs) ensures x in ElemsUpTo(d, |cs|) {
      var c :| c in cs && c.date.day == x;
      var k := DateInSorted(cs, c);
      assert d[k] == x;
    }
  }

  /** Under the one-completion-per-day invariant, an active `current` is one
      more than the number of completion days whose previous calendar day
      also has a completion, anywhere in the history: days {today, today-3,
      today-4} give 2, not 1. */
  lemma CurrentCountsFollowingDays(cs: seq<Completion>, today: int)
    requires DistinctDays(cs)
    requires StreakOf(cs, today).current > 0
    ensures StreakOf(cs, today).current == 1 + |FollowsPreviousDay(DaySet(cs))|
  {
    NewestIsLatest(cs);
    DistinctNewestFirst(cs);
    NewestFirstDaySet(cs);
    GapsAreFollowers(NewestFirstDays(cs), |cs|);
  }
}
