# Habit tracker core in Dafny

This project models the logic of a habit-tracking web application. A user owns
habits. Each habit keeps a list of completion records `(date, count, notes)`.
From that list the application computes streaks, analytics and a month
calendar. The model covers four parts:

- **Streak calculation**: `calculateStreak` in `models/Habit.js`. It sorts the
  completion dates newest first. It then scans adjacent pairs on one of two
  branches: an active branch (the newest completion is today or yesterday)
  and an inactive branch.
- **Analytics**: `routes/analytics.js`. The overview folds over a user's
  active habits. The per-habit report gives the streak, a 30-day completion
  rate, a 30-entry daily history and a likelihood label.
- **Habit routes**: `routes/habits.js`. This covers the not-found and
  ownership guard shared by the get, put, delete and complete handlers. It
  also covers the streak refresh on listing and reading, and logging a
  completion: duplicate-day rejection, then append, then streak refresh.
- **Month calendar**: `frontend/src/components/HabitCalendar.js`. This covers
  the month length, the grid of empty and day cells, and the month statistics.

Time is a `Dates.Instant`: a local calendar day number and the milliseconds
since that day's midnight. `setHours(0, 0, 0, 0)` is `Dates.Midnight`. The
clock (`new Date()`) is a parameter `now` (or its day, `today`).

Rates such as `((part / whole) * 100).toFixed(1)` are whole numbers of tenths
of a percent, rounded half up (`Rates.RoundedTenths`): "73.3" is 733.

A habit document is a class, `HabitModel.Habit`, because the route handlers
change its `completions` and `streak` in place. `calculateStreak` keeps the
source's two loops (`HabitModel.ScanActive`, `HabitModel.ScanBroken`) and is
proved equal to the specification function `HabitModel.StreakOf`. The
properties below are then proved about `StreakOf`.

The code has two behaviours that are easy to misread, and the model keeps
both:

- On the active branch, `currentStreak++` fires on every one-day step
  anywhere in the sorted history, not only along the run that ends today.
  Days {today, today-3, today-4} give current 2
  (`StreakExamples.StepBehindGapCounts`);
  `StreakProperties.CurrentCountsFollowingDays` states the general rule.
- `longestStreak` starts at 0, not 1. Off the active branch a single
  completion therefore has longest 0 (`StreakExamples.LoneOldCompletion`).

## Model

| member | source | states |
|---|---|---|
| Dates.Midnight | models/Habit.js:77-78 | `setHours(0,0,0,0)` keeps the calendar day and sets the time of day to 0 |
| Dates.SameDayIff | routes/habits.js:223-227 | two dates have equal midnight `getTime()` values exactly when they fall on the same calendar day |
| Dates.DaysEarlier | routes/analytics.js:98-99 | `setDate(getDate() - n)` moves n days back and keeps the time of day |
| Dates.BeforeIsMillisOrder | routes/analytics.js:101-103 | comparing two dates by day, then time of day, is comparing their millisecond values |
| Dates.MidnightDayDifference | models/Habit.js:90 | the floored millisecond difference of two midnights, in days, is exactly the difference of their day numbers |
| HabitModel.DatesOf | models/Habit.js:64-65 | the mapped list has one date per completion, in the same order |
| HabitModel.FindOnDay | routes/habits.js:223-227 | `find` by calendar day: None iff no completion is on that day; otherwise the first completion on that day |
| HabitModel.SortNewestFirstSorts | models/Habit.js:64-66 | the descending sort returns a newest-first permutation of the dates |
| HabitModel.ScanActive | models/Habit.js:82-102 | the active-branch loop: current is 1 plus the number of one-day steps in the whole list; longest is the max of the longest run and current |
| HabitModel.ScanBroken | models/Habit.js:104-121 | the inactive-branch loop: longest is the longest run, and 0 when the loop does not run |
| HabitModel.Habit.constructor | models/Habit.js:3-56 | a new habit has the schema defaults: daily, goal 1, no completions, streak {0,0}, active |
| HabitModel.Habit.CalculateStreak | models/Habit.js:59-125 | the method with its two loops returns exactly `StreakOf(completions, today)` |
| HabitModel.Habit.RefreshStreak | routes/habits.js:18-19 | `habit.streak = habit.calculateStreak()` sets streak to `StreakOf` of the completions and changes no other field |
| StreakProperties.SortedUnique | models/Habit.js:64-66 | two newest-first lists holding the same dates are equal, so the sort's result is determined by the multiset of dates |
| StreakProperties.NewestFirstDaysOf | models/Habit.js:64-66 | the sorted day list is non-increasing and holds the completion days with their multiplicities |
| StreakProperties.StreakOrderIndependent | models/Habit.js:64-66 | histories with the same multiset of calendar days have the same streak, whatever the stored order and the times of day |
| StreakProperties.StreakPermutationInvariant | models/Habit.js:64-66 | reordering the completion records leaves the streak unchanged |
| StreakProperties.NewestIsLatest | models/Habit.js:64-77 | the sorted day list has one day per completion, is descending, and its head is the latest completion day |
| StreakProperties.EmptyHistory | models/Habit.js:60-62 | no completions gives {current: 0, longest: 0} |
| StreakProperties.CurrentIffRecent | models/Habit.js:80-104 | current > 0 iff some completion is today or yesterday and none is after today; a future-dated newest completion gives 0 |
| StreakProperties.StreakBounds | models/Habit.js:82-121 | longest >= current, and longest is at most the number of completions |
| StreakProperties.InactiveLongest | models/Habit.js:103-121 | off the active branch, one completion gives longest 0 and two or more give longest >= 1 |
| StreakProperties.RunIsLongestEndingAt | models/Habit.js:90-97 | `tempStreak` at an index is the length of the longest run of one-day steps ending there |
| StreakProperties.LongestRunIsLongest | models/Habit.js:99 | after two or more days, `longestStreak` bounds every run visited and some run reaches it |
| StreakProperties.LongestIsLongestRun | models/Habit.js:99-120 | longest bounds every run of the sorted days; it is reached by a run or equals current |
| StreakProperties.GapsAreFollowers | models/Habit.js:92-94 | for distinct days, the one-day steps counted are the days whose previous day is also present |
| StreakProperties.DistinctNewestFirst | models/Habit.js:64-66 | with at most one completion per day, the sorted day list is strictly decreasing |
| StreakProperties.NewestFirstDaySet | models/Habit.js:64-66 | the sorted day list holds exactly the days that have a completion |
| StreakProperties.CurrentCountsFollowingDays | models/Habit.js:82-97 | with one completion per day and an active streak, current = 1 + the number of completion days whose previous day also has one, anywhere in the history |
| StreakExamples.OnlyToday | models/Habit.js:59-125 | a single completion today gives {1, 1} |
| StreakExamples.TodayAndYesterday | models/Habit.js:59-125 | completions yesterday and today, stored in that order, give {2, 2} |
| StreakExamples.GapAfterToday | models/Habit.js:59-125 | today and three days ago give {1, 1} |
| StreakExamples.OldRun | models/Habit.js:59-125 | three consecutive days ending three days ago give {0, 3} |
| StreakExamples.StepBehindGapCounts | models/Habit.js:92-94 | today, today-3 and today-4 give {2, 2}: the step behind the gap still counts toward current |
| StreakExamples.SameDayResets | models/Habit.js:90-97 | two completions on today give {1, 1}: a zero-day step resets the run |
| StreakExamples.LoneOldCompletion | models/Habit.js:69 | one completion five days ago gives {0, 0} |
| Rates.RoundedTenths | routes/analytics.js:45 | `((part/whole)*100).toFixed(1)` in tenths: the nearest tenth of a percent, ties rounded up |
| Rates.RateBounds | routes/analytics.js:45 | a part of a whole gives a rate between 0.0 and 100.0; 0 gives 0.0 and the whole gives 100.0 |
| Rates.RateMonotone | routes/analytics.js:105 | more records over the same whole never give a lower rate |
| Rates.LikelihoodOfThirtyDays | routes/analytics.js:141-142 | over the 30-day window the label is high iff at least 22 records, medium iff 13 to 21, low iff at most 12 |
| DayCounts.CountOnAtMostOne | routes/habits.js:223-242 | under the one-completion-per-day invariant, each day holds at most one completion |
| DayCounts.DistinctFitSpan | routes/habits.js:223-242 | under the same invariant, days lo..hi hold at most hi-lo+1 completions |
| HabitRoutes.CheckAccess | routes/habits.js:44-216 | the guard the get (44-61), put (111-128), delete (157-174) and complete (199-216) handlers share: no habit gives 404 "Habit not found"; another user's habit gives 403 "Not authorized to access/update/delete this habit"; otherwise the request passes |
| HabitRoutes.Owned | routes/habits.js:14 | `Habit.find({ user })` returns store habits owned by the user, and all of them |
| HabitRoutes.ListHabits | routes/habits.js:14-20 | every listed habit's streak becomes its freshly computed streak; its completions and every other field are unchanged |
| HabitRoutes.GetHabit | routes/habits.js:42-64 | a failed guard returns its error and leaves the habit unchanged; otherwise the habit's streak is refreshed, no other field changes, and the habit is returned |
| HabitRoutes.NewCompletion | routes/habits.js:218-242 | the new record is dated at midnight of the given date or of now; a given non-zero count is kept and an absent or 0 count becomes 1; notes default to '' |
| HabitRoutes.Complete | routes/habits.js:195-262 | guard errors leave the habit unchanged; a day already completed gives 400 "Habit already completed for this date" and no change; otherwise exactly the new record is appended, the streak is recomputed, every other field is unchanged, and one-completion-per-day is preserved |
| HabitRoutes.AppendKeepsDistinct | routes/habits.js:223-242 | appending a record whose day has no completion keeps at most one completion per day |
| HabitCalendar.FullYear | frontend/src/components/HabitCalendar.js:5 | the `Date` constructor reads years 0..99 as 1900..1999 and keeps other years |
| HabitCalendar.DaysInMonth | frontend/src/components/HabitCalendar.js:4-6 | the month has 31 days for Jan, Mar, May, Jul, Aug, Oct, Dec and 30 for Apr, Jun, Sep, Nov; February has 29 iff the year is a Gregorian leap year, else 28 |
| HabitCalendar.YearLength | frontend/src/components/HabitCalendar.js:4-6 | the twelve month lengths sum to 366 in a leap year and 365 otherwise |
| HabitCalendar.GenerateCalendarDays | frontend/src/components/HabitCalendar.js:12-51 | `firstDay` empty cells, then day cells 1..daysInMonth; a cell is completed iff some completion is on its day; today iff it is today's date; past iff its midnight is before now; exactly one cell is today |
| HabitCalendar.DayCellFor | frontend/src/components/HabitCalendar.js:28-47 | one day cell: its number, and its completed, today and past flags with their meaning |
| HabitCalendar.OneCellIsToday | frontend/src/components/HabitCalendar.js:38 | in a grid laid out this way, exactly one cell is marked today |
| HabitCalendar.CountInMonth | frontend/src/components/HabitCalendar.js:61-64 | the count of completions in the month is at most the number of completions |
| HabitCalendar.CalculateStats | frontend/src/components/HabitCalendar.js:53-75 | the month's completion count, the success rate over the days passed (today included, so never a division by zero), and the stored current streak |
| HabitCalendar.MonthCountUpToToday | frontend/src/components/HabitCalendar.js:61-64 | with nothing logged after today, the month's count is the count from the 1st through today |
| HabitCalendar.SuccessRateBounded | frontend/src/components/HabitCalendar.js:58-68 | with one completion per day and none after today, the success rate is at most 100.0 |
| HabitCalendar.FutureDaysCount | frontend/src/components/HabitCalendar.js:61-68 | completions later in the month count: on the 1st, records on the 1st and 2nd give 200.0 |
| Analytics.OwnedActive | routes/analytics.js:14 | `Habit.find({ user, isActive: true })` returns the user's active habits, and all of them |
| Analytics.ActiveCount | routes/analytics.js:23-26 | the number of habits with a running streak never exceeds the number of habits |
| Analytics.CompletedOnCount | routes/analytics.js:33-43 | each habit counts at most once toward completed today |
| Analytics.OverviewOf | routes/analytics.js:14-45 | the overview's totals, active streaks, longest streak and completed-today count over the active habits; activeStreaks and completedToday are at most totalHabits; the rate is 0 without habits and never above 100.0 |
| Analytics.SumUp | routes/analytics.js:21-28 | the first loop sums record counts (not `count` fields), counts running streaks and takes the max longest streak |
| Analytics.CountCompletedToday | routes/analytics.js:30-43 | the second loop counts the habits with a completion on today's date |
| Analytics.FindOnSameDay | routes/analytics.js:35-39 | the lookup depends only on the calendar day of the reference date |
| Analytics.RecentCount | routes/analytics.js:101-103 | the filtered count is at most the number of records |
| Analytics.EntryOn | routes/analytics.js:114-124 | a history entry is completed iff some completion is on that day; its count is the first such completion's count, else 0 |
| Analytics.CompletionHistory | routes/analytics.js:108-125 | exactly 30 entries, for days today-29 through today in ascending order |
| Analytics.HabitAnalytics | routes/analytics.js:73-143 | guard errors first; then the streak, the 30-day rate, the 30-entry history, next30Days equal to the rate, and the label of that rate |
| Analytics.RecentCountAll | routes/analytics.js:101-103 | when every record is at or after the window start, all records are counted |
| Analytics.RateCanExceedHundred | routes/analytics.js:98-105 | read at midnight, one record on each of the last 31 days, with no day twice, gives 103.3% |
| Analytics.RecentIsLastThirtyDays | routes/analytics.js:98-103 | with midnight records, none after today, and now past midnight, the window counts the records of days today-29 through today |
| Analytics.RecentRateBounded | routes/analytics.js:98-105 | under those conditions and one record per day, the 30-day rate is at most 100.0 |
| Analytics.LongestOfIsMax | routes/analytics.js:19-27 | the overview's longest streak is the maximum of the habits' longest streaks, and 0 without habits |

## Left out

- Persistence is not modelled: Mongoose `find`, `findById`, `findByIdAndUpdate`, `save` and `deleteOne`. A store is a sequence of `Habit` objects.
- The sort order of `sort('-createdAt')` in the listing is not modelled: `HabitRoutes.Owned` keeps store order.
- HTTP is not modelled: Express routing, JSON shaping, the success envelope, and the catch-all 400 for thrown errors. Handler outcomes are `Result` values with an `ApiError` of status and message.
- The authentication middleware, the server, the API client and the React pages are not modelled. The requesting user's id is a parameter.
- The PUT and DELETE handlers are modelled only up to their guard (`HabitRoutes.CheckAccess`). Their bodies are an update with the request body and a document delete, both in the database layer.
- Time zones and daylight saving are not modelled. Every day is 86,400,000 ms, and dates are local day numbers. So a 23-hour day, which `Math.floor` would turn into a zero-day step, does not occur.
- The clock is not modelled: `now` is a parameter. The calendar takes the day number of the month's 1st and its weekday (0..6) as inputs; `getFirstDayOfMonth` and the day-number arithmetic of `Date` are not part of this model.
- Floating point is not modelled. `toFixed(1)` is exact round-half-up to tenths. The likelihood compares the rounded value, as the source compares the `toFixed` string.
- `toISOString().split('T')[0]` is the day number: `HistoryEntry.date` is a day number, not a string. The UTC shift of `toISOString` is not modelled.
- The report's `habitId` field is not modelled (`_id` belongs to the database layer).
- `habit.completions?.` in the calendar: a missing completions list is not modelled; the list is always present.
- The GET handlers set `streak` on the documents they read but never save them; only the completion handler saves. In the model, `HabitRoutes.ListHabits` and `HabitRoutes.GetHabit` change the streak of the store's own `Habit` objects, so the model does not capture that a read leaves the saved streak as the last completion wrote it.
- HabitModel.Habit.constructor: an absent description is the empty string.
- HabitCalendar.CalculateStats: the `habit.streak?.current || 0` fallback for a missing stored streak is not modelled; the stored streak is always present.
- HabitCalendar.CountInMonth: `getMonth()`/`getFullYear()` on the raw completion date are modelled as the day lying in the month's day range.
- The request body's `date` is an optional, already-parsed instant. Invalid date strings are not modelled.
