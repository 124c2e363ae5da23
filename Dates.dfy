/** Calendar time as the application sees it. A JavaScript `Date` is an instant;
    here it is the number of the local calendar day it falls on (days counted from
    a fixed epoch) and the milliseconds elapsed since that day's midnight.
    Time zones and daylight-saving shifts are not modelled: every day is
    MS_PER_DAY long. */
module Dates {
  const MS_PER_DAY: int := 86_400_000

  type TimeOfDay = ms: int | 0 <= ms < MS_PER_DAY

  datatype Instant = Instant(day: int, ms: TimeOfDay)

  /** Milliseconds since the epoch, the value `getTime()` returns. */
  function EpochMillis(t: Instant): int {
    t.day * MS_PER_DAY + t.ms
  }

  /** `setHours(0, 0, 0, 0)`: the midnight that starts the instant's day. */
  function Midnight(t: Instant): (m: Instant)
    ensures m.day == t.day && m.ms == 0
  {
    Instant(t.day, 0)
  }

  /** Two dates fall on the same calendar day: `setHours(0, 0, 0, 0)` on both
      gives equal `getTime()` values, the test the route handlers use. */
  predicate SameDay(a: Instant, b: Instant) {
    EpochMillis(Midnight(a)) == EpochMillis(Midnight(b))
  }

  /** Equal midnights are equal day numbers. */
  lemma SameDayIff(a: Instant, b: Instant)
    ensures SameDay(a, b) <==> a.day == b.day
  {
    if a.day < b.day {
      assert a.day * MS_PER_DAY < b.day * MS_PER_DAY;
    } else if a.day > b.day {
      assert b.day * MS_PER_DAY < a.day * MS_PER_DAY;
    }
  }

  /** `a < b` on two dates. */
  predicate Before(a: Instant, b: Instant) {
    a.day < b.day || (a.day == b.day && a.ms < b.ms)
  }

  /** `a <= b` on two dates. */
  predicate AtOrBefore(a: Instant, b: Instant) {
    !Before(b, a)
  }

  /** `setDate(getDate() - n)`: the same time of day, n days earlier. */
  function DaysEarlier(t: Instant, n: int): (r: Instant)
    ensures r.day == t.day - n && r.ms == t.ms
  {
    Instant(t.day - n, t.ms)
  }

  /** `Math.floor((later - earlier) / (1000 * 60 * 60 * 24))`. */
  function WholeDaysBetween(later: Instant, earlier: Instant): int {
    (EpochMillis(later) - EpochMillis(earlier)) / MS_PER_DAY
  }

  /** Comparing two dates lexicographically by day and time of day is the
      same as comparing their millisecond values, as JavaScript does. */
  lemma BeforeIsMillisOrder(a: Instant, b: Instant)
    ensures Before(a, b) <==> EpochMillis(a) < EpochMillis(b)
  {
    if a.day < b.day {
      calc {
        EpochMillis(a);
      <  (a.day + 1) * MS_PER_DAY;
      <= b.day * MS_PER_DAY;
      <= EpochMillis(b);
      }
    } else if a.day > b.day {
      calc {
        EpochMillis(b);
      <  (b.day + 1) * MS_PER_DAY;
      <= a.day * MS_PER_DAY;
      <= EpochMillis(a);
      }
    }
  }

  /** Between two midnights the floored day difference is exact. */
  lemma MidnightDayDifference(later: Instant, earlier: Instant)
    requires later.ms == 0 && earlier.ms == 0
    ensures WholeDaysBetween(later, earlier) == later.day - earlier.day
  {
    assert EpochMillis(later) - EpochMillis(earlier) == (later.day - earlier.day) * MS_PER_DAY;
  }
}
