/** Counting completions by calendar day. Under the one-completion-per-day
    invariant that logging a completion keeps, a span of days holds at most
    one completion per day; this bounds the rates the application reports. */
module DayCounts {
  import opened HabitModel

  /** The number of completions on days lo .. hi. */
  function CountBetween(cs: seq<Completion>, lo: int, hi: int): (k: nat)
    ensures k <= |cs|
  {
    if cs == [] then 0
    else (if lo <= cs[0].date.day <= hi then 1 else 0) + CountBetween(cs[1..], lo, hi)
  }

  /** The number of completions on day d. */
  function CountOn(cs: seq<Completion>, d: int): (k: nat)
    ensures k <= |cs|
  {
    if cs == [] then 0
    else (if cs[0].date.day == d then 1 else 0) + CountOn(cs[1..], d)
  }

  lemma TailDistinct(cs: seq<Completion>)
    requires cs != [] && DistinctDays(cs)
    ensures DistinctDays(cs[1..])
    ensures forall i :: 0 <= i < |cs| - 1 ==> cs[1..][i].date.day != cs[0].date.day
  {
  }

  /** Nothing on a day no completion falls on. */
  lemma {:induction false} CountOnNone(cs: seq<Completion>, d: int)
    requires forall i :: 0 <= i < |cs| ==> cs[i].date.day != d
    ensures CountOn(cs, d) == 0
  {
    if cs != [] {
      assert forall i :: 0 <= i < |cs| - 1 ==> cs[1..][i] == cs[i + 1];
      CountOnNone(cs[1..], d);
    }
  }

  /** At most one completion per day. */
  lemma {:induction false} CountOnAtMostOne(cs: seq<Completion>, d: int)
    requires DistinctDays(cs)
    ensures CountOn(cs, d) <= 1
  {
    if cs != [] {
      TailDistinct(cs);
      if cs[0].date.day == d {
        CountOnNone(cs[1..], d);
      } else {
        CountOnAtMostOne(cs[1..], d);
      }
    }
  }

  /** Splitting off the last day of the span. */
  lemma {:induction false} CountSplitLast(cs: seq<Completion>, lo: int, hi: int)
    requires lo <= hi
    ensures CountBetween(cs, lo, hi) == CountBetween(cs, lo, hi - 1) + CountOn(cs, hi)
  {
    if cs != [] {
      CountSplitLast(cs[1..], lo, hi);
    }
  }

  /** Under the one-completion-per-day invariant, days lo .. hi hold at most
      hi - lo + 1 completions. */
  lemma {:induction false} DistinctFitSpan(cs: seq<Completion>, lo: int, hi: int)
    requires DistinctDays(cs) && lo <= hi + 1
    ensures CountBetween(cs, lo, hi) <= hi - lo + 1
    decreases hi - lo
  {
    if lo <= hi {
      CountSplitLast(cs, lo, hi);
      CountOnAtMostOne(cs, hi);
      DistinctFitSpan(cs, lo, hi - 1);
    } else {
      EmptySpan(cs, lo, hi);
    }
  }

  /** An empty span holds nothing. */
  lemma {:induction false} EmptySpan(cs: seq<Completion>, lo: int, hi: int)
    requires hi < lo
    ensures CountBetween(cs, lo, hi) == 0
  {
    if cs != [] {
      EmptySpan(cs[1..], lo, hi);
    }
  }
}
