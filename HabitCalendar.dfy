/** The month view of the front end (frontend/src/components/HabitCalendar.js):
    the grid of day cells for the current month and the month's statistics.
    The weekday of the 1st and the day number of the 1st come in as inputs. */
module HabitCalendar {
  import opened Dates
  import opened Rates
  import opened HabitModel
  import opened DayCounts

  /** The year the `Date` constructor uses: 0 .. 99 mean 1900 .. 1999. */
  function FullYear(year: int): (y: int)
    ensures 0 <= year <= 99 ==> y == 1900 + year
    ensures (year < 0 || year > 99) ==> y == year
  {
    if 0 <= year <= 99 then 1900 + year else year
  }

  /** The Gregorian leap-year rule. */
  predicate IsLeapYear(y: int) {
    y % 4 == 0 && (y % 100 != 0 || y % 400 == 0)
  }

  /** `getDaysInMonth(year, month)`, i.e. `new Date(year, month + 1, 0).getDate()`:
      the last day of month `month` (0 = January). */
  function DaysInMonth(year: int, month: int): (n: int)
    requires 0 <= month < 12
    ensures 28 <= n <= 31
    ensures month in {0, 2, 4, 6, 7, 9, 11} <==> n == 31
    ensures month in {3, 5, 8, 10} <==> n == 30
    ensures month == 1 ==> (n == 29 <==> IsLeapYear(FullYear(year)))
  {
    if month == 1 then (if IsLeapYear(FullYear(year)) then 29 else 28)
    else if month in {3, 5, 8, 10} then 30
    else 31
  }

  /** The twelve month lengths add up to the length of the year. */
  lemma YearLength(year: int)
    ensures DaysInMonth(year, 0) + DaysInMonth(year, 1) + DaysInMonth(year, 2) + DaysInMonth(year, 3)
          + DaysInMonth(year, 4) + DaysInMonth(year, 5) + DaysInMonth(year, 6) + DaysInMonth(year, 7)
          + DaysInMonth(year, 8) + DaysInMonth(year, 9) + DaysInMonth(year, 10) + DaysInMonth(year, 11)
          == if IsLeapYear(FullYear(year)) then 366 else 365
  {
  }

  /** A cell of the grid: a blank before the 1st (`empty-i`), or a day of
      the month (`day-d`). */
  datatype CalendarCell =
    | EmptyCell(index: nat)
    | DayCell(day: nat, isCompleted: bool, isToday: bool, isPast: bool)

  /** `generateCalendarDays` for the month starting on day `monthStart`,
      whose 1st is weekday `firstDay`, seen at `now`. */
  method GenerateCalendarDays(cs: seq<Completion>, year: int, month: int, monthStart: int, firstDay: int, now: Instant)
    returns (days: seq<CalendarCell>)
    requires 0 <= month < 12 && 0 <= firstDay <= 6
    requires monthStart <= now.day < monthStart + DaysInMonth(year, month)
    ensures |days| == firstDay + DaysInMonth(year, month)
    ensures forall k :: 0 <= k < firstDay ==> days[k] == EmptyCell(k)
    ensures forall k :: firstDay <= k < |days| ==> days[k].DayCell? && days[k].day == k - firstDay + 1
    ensures forall k :: firstDay <= k < |days| ==>
              (days[k].isCompleted <==> exists i :: 0 <= i < |cs| && cs[i].date.day == monthStart + days[k].day - 1)
    ensures forall k :: firstDay <= k < |days| ==>
              (days[k].isToday <==> monthStart + days[k].day - 1 == now.day)
    ensures forall k :: firstDay <= k < |days| ==>
              (days[k].isPast <==> monthStart + days[k].day - 1 < now.day || (monthStart + days[k].day - 1 == now.day && now.ms > 0))
    ensures exists k :: IsTodayCell(days, k)
    ensures forall k, l :: IsTodayCell(days, k) && IsTodayCell(days, l) ==> k == l
  {
    var daysInMonth := DaysInMonth(year, month);
    var dayOfMonth := now.day - monthStart + 1;
    days := [];
    var i := 0;
    while i < firstDay
      invariant 0 <= i <= firstDay
      invariant |days| == i
      invariant forall k :: 0 <= k < i ==> days[k] == EmptyCell(k)
    {
      days := days + [EmptyCell(i)];
      i := i + 1;
    }
    var day := 1;
    while day <= daysInMonth
      invariant 1 <= day <= daysInMonth + 1
      invariant |days| == firstDay + day - 1
      invariant forall k :: 0 <= k < firstDay ==> days[k] == EmptyCell(k)
      invariant forall k :: firstDay <= k < |days| ==> days[k] == DayCellFor(cs, monthStart, k - firstDay + 1, now)
    {
      var date := Instant(monthStart + day - 1, 0);
      var isCompleted := FindOnDay(cs, date).Some?;
      var isToday := day == dayOfMonth;
      var isPast := Before(date, now);
      days := days + [DayCell(day, isCompleted, isToday, isPast)];
      day := day + 1;
    }
    OneCellIsToday(days, firstDay, monthStart, daysInMonth, now);
  }

  /** The cell for day `day` of the month that starts on day `monthStart`. */
  function DayCellFor(cs: seq<Completion>, monthStart: int, day: nat, now: Instant): (c: CalendarCell)
    ensures c.DayCell? && c.day == day
    ensures c.isCompleted <==> exists i :: 0 <= i < |cs| && cs[i].date.day == monthStart + day - 1
    ensures c.isToday <==> monthStart + day - 1 == now.day
    ensures c.isPast <==> monthStart + day - 1 < now.day || (monthStart + day - 1 == now.day && now.ms > 0)
  {
    var date := Instant(monthStart + day - 1, 0);
    DayCell(day, FindOnDay(cs, date).Some?, day == now.day - monthStart + 1, Before(date, now))
  }

  /** Cell k of the grid is a day cell marked as today. */
  predicate IsTodayCell(days: seq<CalendarCell>, k: int) {
    0 <= k < |days| && days[k].DayCell? && days[k].isToday
  }

  /** Exactly one cell of the grid is marked as today. */
  lemma {:induction false} OneCellIsToday(days: seq<CalendarCell>, firstDay: int, monthStart: int, dim: int, now: Instant)
    requires 0 <= firstDay && |days| == firstDay + dim
    requires monthStart <= now.day < monthStart + dim
    requires forall k :: 0 <= k < firstDay ==> days[k].EmptyCell?
    requires forall k :: firstDay <= k < |days| ==> days[k].DayCell? && days[k].day == k - firstDay + 1
    requires forall k :: firstDay <= k < |days| ==> (days[k].isToday <==> monthStart + days[k].day - 1 == now.day)
    ensures exists k :: IsTodayCell(days, k)
    ensures forall k, l :: IsTodayCell(days, k) && IsTodayCell(days, l) ==> k == l
  {
    var t := firstDay + now.day - monthStart;
    assert IsTodayCell(days, t);
    forall k, l | IsTodayCell(days, k) && IsTodayCell(days, l) ensures k == l {
      assert k >= firstDay && l >= firstDay;
    }
  }

  /** The statistics under the grid. Rates are in tenths of a percent. */
  datatype MonthStats = MonthStats(completionsThisMonth: nat, successRate: nat, streak: nat)

  /** The completions whose date falls in the month `monthStart` ..
      `monthStart + daysInMonth - 1`, future days included. */
  function CountInMonth(cs: seq<Completion>, monthStart: int, daysInMonth: int): (k: nat)
    ensures k <= |cs|
  {
    CountBetween(cs, monthStart, monthStart + daysInMonth - 1)
  }

  /** `calculateStats`: the month's completion count, the success rate over
      the days passed so far (today included), and the stored current streak. */
  function CalculateStats(cs: seq<Completion>, stored: StreakResult, year: int, month: int, monthStart: int, now: Instant): (s: MonthStats)
    requires 0 <= month < 12
    requires monthStart <= now.day < monthStart + DaysInMonth(year, month)
    ensures s.completionsThisMonth == CountInMonth(cs, monthStart, DaysInMonth(year, month))
    ensures s.successRate == RoundedTenths(s.completionsThisMonth, now.day - monthStart + 1)
    ensures s.streak == stored.current
  {
    var daysPassed := now.day - monthStart + 1;
    var completionsThisMonth := CountInMonth(cs, monthStart, DaysInMonth(year, month));
    var successRate := if daysPassed > 0 then RoundedTenths(completionsThisMonth, daysPassed) else 0;
    MonthStats(completionsThisMonth, successRate, stored.current)
  }

  /** With nothing logged after today, the month's count is the count from
      the 1st through today. */
  lemma {:induction false} MonthCountUpToToday(cs: seq<Completion>, monthStart: int, daysInMonth: int, today: int)
    requires today < monthStart + daysInMonth
    requires forall i :: 0 <= i < |cs| ==> cs[i].date.day <= today
    ensures CountInMonth(cs, monthStart, daysInMonth) == CountBetween(cs, monthStart, today)
  {
    if cs != [] {
      assert forall i :: 0 <= i < |cs| - 1 ==> cs[1..][i] == cs[i + 1];
      MonthCountUpToToday(cs[1..], monthStart, daysInMonth, today);
    }
  }

  /** Under one completion per day and nothing logged after today, the
      month's success rate is at most 100.0. */
  lemma SuccessRateBounded(cs: seq<Completion>, stored: StreakResult, year: int, month: int, monthStart: int, now: Instant)
    requires 0 <= month < 12
    requires monthStart <= now.day < monthStart + DaysInMonth(year, month)
    requires DistinctDays(cs)
    requires forall i :: 0 <= i < |cs| ==> cs[i].date.day <= now.day
    ensures CalculateStats(cs, stored, year, month, monthStart, now).completionsThisMonth <= now.day - monthStart + 1
    ensures CalculateStats(cs, stored, year, month, monthStart, now).successRate <= 1000
  {
    MonthCountUpToToday(cs, monthStart, DaysInMonth(year, month), now.day);
    DistinctFitSpan(cs, monthStart, now.day);
    var s := CalculateStats(cs, stored, year, month, monthStart, now);
    RateBounds(s.completionsThisMonth, now.day - monthStart + 1);
  }

  /** Completions later in the month count too: on the 1st, records on the
      1st and the 2nd give a success rate of 200.0. */
  lemma FutureDaysCount(stored: StreakResult, year: int, month: int, monthStart: int, now: Instant)
    requires 0 <= month < 12 && now.day == monthStart
    ensures var cs := [Completion(Instant(monthStart, 0), 1, ""), Completion(Instant(monthStart + 1, 0), 1, "")];
            CalculateStats(cs, stored, year, month, monthStart, now).successRate == 2000
  {
    var cs := [Completion(Instant(monthStart, 0), 1, ""), Completion(Instant(monthStart + 1, 0), 1, "")];
    var last := monthStart + DaysInMonth(year, month) - 1;
    assert CountInMonth(cs, monthStart, DaysInMonth(year, month)) == 2 by {
      assert monthStart + 1 <= last;
      assert cs[1..][1..] == [];
      assert CountBetween(cs[1..][1..], monthStart, last) == 0;
      assert CountBetween(cs[1..], monthStart, last) == 1;
    }
  }
}
