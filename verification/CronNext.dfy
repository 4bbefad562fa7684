/** The next minute a schedule fires: a jumping search that agrees with a minute-by-minute scan,
    and the exact class of schedules for which it always finds one. */
module CronNext {
  import opened Strings
  import opened Calendar
  import opened CronExpr

  // ---- What it means for a minute to match ----

  predicate DayMatches(s: Schedule, t: int)
    requires Sized(s)
  {
    DayNumberOfFields(DayOf(t));
    var domOK := s.domStar || s.dom[Day(t) - 1];
    var dowOK := s.dowStar || s.dow[Weekday(t)];
    if s.domStar && s.dowStar then true
    else if s.domStar then dowOK
    else if s.dowStar then domOK
    else domOK || dowOK
  }

  predicate Matches(s: Schedule, t: int)
    requires Sized(s)
  {
    s.month[Month(t) - 1] && DayMatches(s, t) && s.hour[Hour(t)] && s.minute[Minute(t)]
  }

  /** The crontab day rule of POSIX.1-2017 (Shell and Utilities, crontab, INPUT FILES): with a star in
      either day field both fields must hold, with both restricted either one suffices. */
  lemma DayRule(s: Schedule, t: int)
    requires Parsable(s)
    ensures DayNumber(Year(t), Month(t), 1) <= DayOf(t) < DayNumber(Year(t), Month(t), 1) + 31
    ensures var dom := s.dom[DayOf(t) - DayNumber(Year(t), Month(t), 1)];
      var dow := s.dow[Weekday(t)];
      DayMatches(s, t) <==> (if s.domStar || s.dowStar then dom && dow else dom || dow)
  {
    DayNumberOfFields(DayOf(t));
  }

  // ---- The reference: scan every minute ----

  /** The search stops at the same instant five calendar years later. */
  function Horizon(after: Instant): Instant {
    Instant(AddDate(after.minute, 5, 0, 0), after.nanos)
  }

  /** The first minute from `t` on, and before `limit`, at which `p` holds. */
  function Scan(p: int -> bool, t: int, limit: Instant): Option<int>
    decreases limit.minute - t + 1
  {
    if !Before(Instant(t, 0), limit) then None
    else if p(t) then Some(t)
    else Scan(p, t + 1, limit)
  }

  function MatchesAt(s: Schedule): int -> bool
    requires Sized(s)
  {
    (t: int) => Matches(s, t)
  }

  function NextMatch(s: Schedule, after: Instant): Option<int>
    requires Sized(s)
  {
    Scan(MatchesAt(s), after.minute + 1, Horizon(after))
  }

  lemma {:induction false} ScanIsLeast(p: int -> bool, t: int, limit: Instant)
    ensures match Scan(p, t, limit)
      case Some(m) => t <= m && Before(Instant(m, 0), limit) && p(m) && forall u :: t <= u < m ==> !p(u)
      case None => forall u :: t <= u && Before(Instant(u, 0), limit) ==> !p(u)
    decreases limit.minute - t + 1
  {
    if Before(Instant(t, 0), limit) && !p(t) {
      ScanIsLeast(p, t + 1, limit);
    }
  }

  /** NextMatch is the least matching minute strictly after `after` and before the horizon, and is
      absent exactly when there is none. */
  lemma NextMatchIsLeast(s: Schedule, after: Instant)
    requires Sized(s)
    ensures match NextMatch(s, after)
      case Some(m) =>
        && after.minute < m && Before(Instant(m, 0), Horizon(after)) && Matches(s, m)
        && forall u :: after.minute < u < m ==> !Matches(s, u)
      case None => forall u :: after.minute < u && Before(Instant(u, 0), Horizon(after)) ==> !Matches(s, u)
  {
    hide Matches, Horizon;
    var p := MatchesAt(s);
    ScanIsLeast(p, after.minute + 1, Horizon(after));
    assert forall u :: p(u) == Matches(s, u);
  }

  /** No minute in [lo, hi) matches. */
  ghost predicate NoneMatch(s: Schedule, lo: int, hi: int)
    requires Sized(s)
  {
    forall u :: lo <= u < hi ==> !Matches(s, u)
  }

  lemma FoundNext(s: Schedule, after: Instant, t: int)
    requires Sized(s) && after.minute < t && Before(Instant(t, 0), Horizon(after))
    requires NoneMatch(s, after.minute + 1, t) && Matches(s, t)
    ensures NextMatch(s, after) == Some(t)
  {
    hide NextMatch, Matches, Horizon;
    NextMatchIsLeast(s, after);
  }

  lemma NoNext(s: Schedule, after: Instant, t: int)
    requires Sized(s) && !Before(Instant(t, 0), Horizon(after)) && NoneMatch(s, after.minute + 1, t)
    ensures NextMatch(s, after) == None
  {
    hide NextMatch, Matches, Horizon;
    NextMatchIsLeast(s, after);
  }

  // ---- The five jumps ----

  /** A jump is sound when it moves strictly forward over minutes that do not match. */
  ghost predicate SoundJump(s: Schedule, t: int, to: int)
    requires Sized(s)
  {
    t < to && NoneMatch(s, t, to)
  }

  lemma MonthJump(s: Schedule, t: int)
    requires Sized(s) && !s.month[Month(t) - 1]
    ensures SoundJump(s, t, NextMonthStart(t))
  {
    MonthAdvances(t);
    forall u | t <= u < NextMonthStart(t) ensures !Matches(s, u) {
      MonthInterval(t, u);
    }
  }

  lemma DayJump(s: Schedule, t: int)
    requires Sized(s) && !DayMatches(s, t)
    ensures SoundJump(s, t, NextDayStart(t))
  {
    hide MonthOfDay, DayOfMonth, YearOfDay, NextDayStart;
    NextDayStartIs(t);
    forall u | t <= u < NextDayStart(t) ensures !Matches(s, u) {
      DayInterval(t, u);
    }
  }

  /** No later hour of the day is set: jump to the next day. */
  lemma HourToDayJump(s: Schedule, t: int)
    requires Sized(s) && forall h :: Hour(t) <= h < 24 ==> !s.hour[h]
    ensures SoundJump(s, t, NextDayStart(t))
  {
    NextDayStartIs(t);
    forall u | t <= u < NextDayStart(t) ensures !Matches(s, u) {
      DayInterval(t, u);
      HourMonotone(t, u);
    }
  }

  lemma HourMonotone(t: int, u: int)
    requires t <= u && DayOf(t) == DayOf(u)
    ensures Hour(t) <= Hour(u)
  {
  }

  lemma TimeOfDay(t: int)
    ensures t == DayOf(t) * MINUTES_PER_DAY + Hour(t) * 60 + Minute(t)
  {
  }

  lemma DateSameDay(t: int, hour: int, minute: int)
    ensures Date(Year(t), Month(t), Day(t), hour, minute) == DayOf(t) * MINUTES_PER_DAY + hour * 60 + minute
  {
    DateOfFields(t);
    DayNumberOfFields(DayOf(t));
  }

  lemma HourJump(s: Schedule, t: int, next: int)
    requires Sized(s) && Hour(t) < next < 24 && forall h :: Hour(t) <= h < next ==> !s.hour[h]
    ensures SoundJump(s, t, Date(Year(t), Month(t), Day(t), next, 0))
  {
    var to := Date(Year(t), Month(t), Day(t), next, 0);
    DateSameDay(t, next, 0);
    TimeOfDay(t);
    forall u | t <= u < to ensures !Matches(s, u) {
      SameDayBelow(t, u, next);
    }
  }

  lemma SameDayBelow(t: int, u: int, next: int)
    requires t <= u < DayOf(t) * MINUTES_PER_DAY + next * 60 && next <= 24
    ensures Hour(t) <= Hour(u) < next
  {
    var base := DayOf(t) * MINUTES_PER_DAY;
    assert base <= t && u < base + MINUTES_PER_DAY;
    assert DayOf(u) == DayOf(t);
    HourMonotone(t, u);
    TimeOfDay(u);
  }

  /** No later minute of the hour is set: jump to the next hour. */
  lemma MinuteToHourJump(s: Schedule, t: int)
    requires Sized(s) && forall m :: Minute(t) <= m < 60 ==> !s.minute[m]
    ensures SoundJump(s, t, Date(Year(t), Month(t), Day(t), Hour(t), 0) + 60)
  {
    DateSameDay(t, Hour(t), 0);
    TimeOfDay(t);
    forall u | t <= u < Date(Year(t), Month(t), Day(t), Hour(t), 0) + 60 ensures !Matches(s, u) {
      SameHour(t, u);
    }
  }

  lemma SameHour(t: int, u: int)
    requires t <= u < DayOf(t) * MINUTES_PER_DAY + Hour(t) * 60 + 60
    ensures Minute(u) == Minute(t) + (u - t)
  {
    SameDayBelow(t, u, Hour(t) + 1);
    assert DayOf(u) == DayOf(t);
    TimeOfDay(t);
    TimeOfDay(u);
  }

  lemma MinuteJump(s: Schedule, t: int, next: int)
    requires Sized(s) && Minute(t) < next < 60 && forall m :: Minute(t) <= m < next ==> !s.minute[m]
    ensures SoundJump(s, t, Date(Year(t), Month(t), Day(t), Hour(t), next))
  {
    DateSameDay(t, Hour(t), next);
    TimeOfDay(t);
    forall u | t <= u < Date(Year(t), Month(t), Day(t), Hour(t), next) ensures !Matches(s, u) {
      SameHour(t, u);
    }
  }

  /** The time a search result stands for: Go's zero time when there is no match. */
  function ResultTime(r: Option<int>): Instant {
    match r case Some(m) => Instant(m, 0) case None => ZERO_TIME
  }

  lemma ExtendNone(s: Schedule, lo: int, t: int, to: int)
    requires Sized(s) && NoneMatch(s, lo, t) && SoundJump(s, t, to)
    ensures NoneMatch(s, lo, to) && t < to
  {
  }

  /** Schedule.Next: jumps by month, day, hour and minute, and agrees with the scan of every minute. */
  method Next(s: Schedule, after: Instant) returns (r: Instant)
    requires Sized(s)
    ensures r == ResultTime(NextMatch(s, after))
  {
    hide YearOfDay, MonthOfDay, DayOfMonth, DayNumber, DayOf, Scan, AddDate;
    var t := after.minute + 1;
    var limit := Horizon(after);
    while Before(Instant(t, 0), limit)
      invariant after.minute < t && NoneMatch(s, after.minute + 1, t)
      decreases limit.minute - t + 1
    {
      var to: int;
      if !s.month[Month(t) - 1] {
        to := Date(Year(t), Month(t) + 1, 1, 0, 0);
        MonthJump(s, t);
      } else if !DayMatches(s, t) {
        to := Date(Year(t), Month(t), Day(t) + 1, 0, 0);
        DayJump(s, t);
      } else if !s.hour[Hour(t)] {
        var next := FirstSet(s.hour, Hour(t) + 1);
        if next < 0 {
          to := Date(Year(t), Month(t), Day(t) + 1, 0, 0);
          HourToDayJump(s, t);
        } else {
          to := Date(Year(t), Month(t), Day(t), next, 0);
          HourJump(s, t, next);
        }
      } else {
        if s.minute[Minute(t)] {
          FoundNext(s, after, t);
          return Instant(t, 0);
        }
        var next := FirstSet(s.minute, Minute(t) + 1);
        if next < 0 {
          to := Date(Year(t), Month(t), Day(t), Hour(t), 0) + 60;
          MinuteToHourJump(s, t);
        } else {
          to := Date(Year(t), Month(t), Day(t), Hour(t), next);
          MinuteJump(s, t, next);
        }
      }
      ExtendNone(s, after.minute + 1, t, to);
      t := to;
    }
    NoNext(s, after, t);
    return ZERO_TIME;
  }

  /** The first set bit at or after `from`, or -1. */
  method FirstSet(bits: Bitset, from: int) returns (next: int)
    requires 0 <= from <= |bits|
    ensures next < 0 ==> next == -1 && forall h :: from <= h < |bits| ==> !bits[h]
    ensures next >= 0 ==> from <= next < |bits| && bits[next] && forall h :: from <= h < next ==> !bits[h]
  {
    next := -1;
    for h := from to |bits|
      invariant forall k :: from <= k < h ==> !bits[k]
      invariant next == -1
    {
      if bits[h] {
        next := h;
        break;
      }
    }
  }
}
