/** The habit endpoints (routes/habits.js): the access guard every
    /api/habits/:id handler starts with, reading a habit, listing a user's
    habits, and logging a completion. */
module HabitRoutes {
  import opened Dates
  import opened Results
  import opened HabitModel

  /** What a request wants to do with a habit; it picks the 403 message. */
  datatype Action = Access | Update | Delete

  function Verb(a: Action): string {
    match a
    case Access => "access"
    case Update => "update"
    case Delete => "delete"
  }

  /** The checks the get, put, delete and complete handlers make before
      anything else, in this order: the habit must exist (404), then belong
      to the requesting user (403). `None` lets the request through. */
  function CheckAccess(h: Habit?, requester: UserId, action: Action): (r: Option<ApiError>)
    reads h
    ensures r.None? <==> h != null && h.user == requester
    ensures h == null ==> r == Some(ApiError(404, "Habit not found"))
    ensures h != null && h.user != requester ==>
              r == Some(ApiError(403, "Not authorized to " + Verb(action) + " this habit"))
  {
    if h == null then Some(ApiError(404, "Habit not found"))
    else if h.user != requester then Some(ApiError(403, "Not authorized to " + Verb(action) + " this habit"))
    else None
  }

  /** `Habit.find({ user })`: the user's habits, in store order. */
  function Owned(store: seq<Habit>, user: UserId): (r: seq<Habit>)
    reads store
    ensures forall i :: 0 <= i < |r| ==> r[i] in store && r[i].user == user
    ensures forall i :: 0 <= i < |store| && store[i].user == user ==> store[i] in r
  {
    if store == [] then []
    else
      var rest := Owned(store[1..], user);
      assert forall i :: 1 <= i < |store| ==> store[i] == store[1..][i - 1];
      if store[0].user == user then [store[0]] + rest else rest
  }

  /** The stored streak is the one computed as of `today`. */
  predicate StreakIsFresh(h: Habit, today: int)
    reads h
  {
    h.streak == StreakOf(h.completions, today)
  }

  /** GET /api/habits: the handler sets `streak` on each of the user's
      habits it has read to the one computed as of `now` (the source never
      saves these documents); no other field changes. */
  method ListHabits(store: seq<Habit>, user: UserId, now: Instant) returns (habits: seq<Habit>)
    modifies Owned(store, user)
    ensures habits == old(Owned(store, user))
    ensures forall i :: 0 <= i < |habits| ==>
              habits[i].completions == old(habits[i].completions) && habits[i].ProfileOf() == old(habits[i].ProfileOf())
    ensures forall i :: 0 <= i < |habits| ==> StreakIsFresh(habits[i], now.day)
  {
    habits := Owned(store, user);
    var i := 0;
    while i < |habits|
      invariant 0 <= i <= |habits|
      invariant forall j :: 0 <= j < |habits| ==>
                  habits[j].completions == old(habits[j].completions) && habits[j].ProfileOf() == old(habits[j].ProfileOf())
      invariant forall j :: 0 <= j < i ==> StreakIsFresh(habits[j], now.day)
    {
      habits[i].RefreshStreak(now.day);
      i := i + 1;
    }
  }

  /** GET /api/habits/:id: after the guard, the handler sets the habit's
      `streak` to the one computed as of `now` (without saving it); no other
      field changes. */
  method GetHabit(h: Habit?, requester: UserId, now: Instant) returns (r: Result<Habit, ApiError>)
    modifies h
    ensures old(CheckAccess(h, requester, Access)).Some? ==>
              r == Err(old(CheckAccess(h, requester, Access)).value) && (h != null ==> unchanged(h))
    ensures old(CheckAccess(h, requester, Access)).None? ==>
              r.Ok? && r.value == h && h.streak == StreakOf(h.completions, now.day)
              && h.completions == old(h.completions) && h.ProfileOf() == old(h.ProfileOf())
  {
    var denied := CheckAccess(h, requester, Access);
    if denied.Some? {
      return Err(denied.value);
    }
    h.RefreshStreak(now.day);
    r := Ok(h);
  }

  /** The record POST /api/habits/:id/complete appends: the given date (or
      `now`) at midnight, `count || 1` (so an absent or zero count is 1) and
      `notes || ''`. */
  function NewCompletion(date: Option<Instant>, count: Option<int>, notes: Option<string>, now: Instant): (c: Completion)
    ensures c.date.ms == 0
    ensures c.date.day == (if date.Some? then date.value.day else now.day)
    ensures c.count != 0
    ensures count.Some? && count.value != 0 ==> c.count == count.value
    ensures (count.None? || count.value == 0) ==> c.count == 1
    ensures c.notes == (if notes.Some? then notes.value else "")
  {
    var when := if date.Some? then date.value else now;
    Completion(
      Midnight(when),
      if count.Some? && count.value != 0 then count.value else 1,
      if notes.Some? then notes.value else "")
  }

  /** POST /api/habits/:id/complete. After the guard, a completion on a day
      that already has one is refused with 400 and nothing changes; otherwise
      the new record is appended and the stored streak recomputed as of `now`. */
  method Complete(h: Habit?, requester: UserId, date: Option<Instant>, count: Option<int>, notes: Option<string>, now: Instant)
    returns (r: Result<Habit, ApiError>)
    modifies h
    ensures old(CheckAccess(h, requester, Update)).Some? ==>
              r == Err(old(CheckAccess(h, requester, Update)).value) && (h != null ==> unchanged(h))
    ensures old(CheckAccess(h, requester, Update)).None? ==>
              var c := NewCompletion(date, count, notes, now);
              if old(FindOnDay(h.completions, c.date)).Some? then
                r == Err(ApiError(400, "Habit already completed for this date")) && unchanged(h)
              else
                && r.Ok? && r.value == h
                && h.completions == old(h.completions) + [c]
                && h.streak == StreakOf(h.completions, now.day)
                && h.ProfileOf() == old(h.ProfileOf())
    ensures h != null && old(DistinctDays(h.completions)) ==> DistinctDays(h.completions)
  {
    var denied := CheckAccess(h, requester, Update);
    if denied.Some? {
      return Err(denied.value);
    }
    var when := if date.Some? then date.value else now;
    var completionDate := Midnight(when);
    var existingCompletion := FindOnDay(h.completions, completionDate);
    if existingCompletion.Some? {
      return Err(ApiError(400, "Habit already completed for this date"));
    }
    var entry := Completion(
      completionDate,
      if count.Some? && count.value != 0 then count.value else 1,
      if notes.Some? then notes.value else "");
    if DistinctDays(h.completions) {
      AppendKeepsDistinct(h.completions, entry);
    }
    h.completions := h.completions + [entry];
    h.RefreshStreak(now.day);
    r := Ok(h);
  }

  /** A successful completion keeps at most one record per calendar day. */
  lemma {:induction false} AppendKeepsDistinct(cs: seq<Completion>, c: Completion)
    requires DistinctDays(cs) && FindOnDay(cs, c.date).None?
    ensures DistinctDays(cs + [c])
  {
    var ds := cs + [c];
    forall i, j | 0 <= i < j < |ds|
      ensures ds[i].date.day != ds[j].date.day
    {
      if j < |cs| {
        assert ds[i] == cs[i] && ds[j] == cs[j];
      } else {
        assert ds[i] == cs[i] && ds[j] == c;
      }
    }
  }
}
