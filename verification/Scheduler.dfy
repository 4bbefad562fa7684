/** Cron-triggered autopilots: scheduling on creation, the tick loop, manual firing, and when an
    autopilot is attempted over a whole run. */
module Scheduler {
  import opened Strings
  import opened Calendar
  import opened CronExpr
  import opened CronNext
  import opened CronHorizon

  datatype TriggerType = CronTrigger | WebhookTrigger | ManualTrigger

  datatype Autopilot = Autopilot(
    trigger: TriggerType,
    cronSpec: string,
    enabled: bool,
    lastFiredAt: Option<Instant>,
    nextRunAt: Option<Instant>)

  /** Every stored cron autopilot went through the parser when it was created. */
  predicate Stored(a: Autopilot) {
    a.trigger == CronTrigger ==> ParseSpec(a.cronSpec).Parsed?
  }

  function ScheduleOf(spec: string): (s: Schedule)
    requires ParseSpec(spec).Parsed?
    ensures Sized(s) && Parsable(s)
  {
    ParsedIsParsable(spec);
    ParseSpec(spec).schedule
  }

  /** nextCronTime on a stored spec. */
  function NextRun(spec: string, now: Instant): Instant
    requires ParseSpec(spec).Parsed?
  {
    ResultTime(NextMatch(ScheduleOf(spec), now))
  }

  /** The store's due query; a missing next run counts as due. */
  predicate Due(a: Autopilot, now: Instant) {
    a.trigger == CronTrigger && a.enabled && (a.nextRunAt.None? || AtOrBefore(a.nextRunAt.value, now))
  }

  /** One tick on one row; `ok` says whether the action succeeded. */
  function TickRow(a: Autopilot, now: Instant, ok: bool): (r: Autopilot)
    requires Stored(a)
    ensures Stored(r)
  {
    if Due(a, now) then
      a.(lastFiredAt := if ok then Some(now) else a.lastFiredAt, nextRunAt := Some(NextRun(a.cronSpec, now)))
    else a
  }

  /** One manual or webhook trigger on one row: refused when disabled, unchanged when the action fails. */
  function FireRow(a: Autopilot, now: Instant, ok: bool): (r: Autopilot)
    requires Stored(a)
    ensures Stored(r)
  {
    if !a.enabled || !ok then a
    else if a.trigger == CronTrigger then a.(lastFiredAt := Some(now), nextRunAt := Some(NextRun(a.cronSpec, now)))
    else a.(lastFiredAt := Some(now))
  }

  method NextCronTime(spec: string, now: Instant) returns (next: Instant)
    requires ParseSpec(spec).Parsed?
    ensures next == NextRun(spec, now)
  {
    hide ParseSpec, NextMatch;
    var parsed := Parse(spec);
    ParsedIsParsable(spec);
    next := Next(parsed.schedule, now);
  }

  datatype Creation = Created | Refused | Panicked

  /** The autopilot rows in creation order, with the service that writes them and the scheduler that ticks. */
  class AutopilotService {
    var rows: seq<Autopilot>

    ghost predicate Valid()
      reads this
    {
      forall i :: 0 <= i < |rows| ==> Stored(rows[i])
    }

    constructor ()
      ensures Valid() && rows == []
    {
      rows := [];
    }

    /** A cron autopilot gets its first run time here; a malformed spec is refused, and one that panics the
        parser leaves nothing behind. */
    method CreateAutopilot(trigger: TriggerType, cronSpec: string, enabled: bool, now: Instant) returns (r: Creation)
      requires Valid()
      modifies this
      ensures Valid()
      ensures r.Created? <==> trigger != CronTrigger || ParseSpec(cronSpec).Parsed?
      ensures r.Panicked? <==> trigger == CronTrigger && ParseSpec(cronSpec).Crashed?
      ensures !r.Created? ==> rows == old(rows)
      ensures r.Created? && trigger != CronTrigger ==>
        rows == old(rows) + [Autopilot(trigger, cronSpec, enabled, None, None)]
      ensures r.Created? && trigger == CronTrigger ==>
        var a := Autopilot(trigger, cronSpec, enabled, None, None);
        rows == old(rows) + [a.(nextRunAt := Some(NextRun(a.cronSpec, now)))]
    {
      hide ParseSpec, NextRun;
      var a := Autopilot(trigger, cronSpec, enabled, None, None);
      if trigger == CronTrigger {
        var parsed := Parse(cronSpec);
        if parsed.Malformed? {
          return Refused;
        }
        if parsed.Crashed? {
          return Creation.Panicked;
        }
        var next := NextCronTime(a.cronSpec, now);
        a := a.(nextRunAt := Some(next));
      }
      rows := rows + [a];
      return Created;
    }

    method DueCronAutopilots(now: Instant) returns (due: seq<nat>)
      ensures forall k :: 0 <= k < |due| ==> due[k] < |rows| && Due(rows[due[k]], now)
      ensures forall i :: 0 <= i < |rows| && Due(rows[i], now) ==> i in due
      ensures forall j, k :: 0 <= j < k < |due| ==> due[j] < due[k]
    {
      due := [];
      for i := 0 to |rows|
        invariant forall k :: 0 <= k < |due| ==> due[k] < i && Due(rows[due[k]], now)
        invariant forall j :: 0 <= j < i && Due(rows[j], now) ==> j in due
        invariant forall j, k :: 0 <= j < k < |due| ==> due[j] < due[k]
      {
        if Due(rows[i], now) {
          due := due + [i];
        }
      }
    }

    /** Fires every due row once, in creation order, and reschedules it whether or not its action
        succeeds; `outcome` is the result of each row's action. */
    method Tick(now: Instant, outcome: nat -> bool) returns (attempted: seq<nat>)
      requires Valid()
      modifies this
      ensures Valid()
      ensures |rows| == |old(rows)|
      ensures forall i :: 0 <= i < |rows| ==> rows[i] == TickRow(old(rows[i]), now, outcome(i))
      ensures forall i :: i in attempted <==> 0 <= i < |rows| && Due(old(rows[i]), now)
      ensures forall j, k :: 0 <= j < k < |attempted| ==> attempted[j] < attempted[k]
    {
      hide ParseSpec, NextRun;
      var due := DueCronAutopilots(now);
      ghost var before := rows;
      for k := 0 to |due|
        invariant |rows| == |before| && Valid()
        invariant forall i :: 0 <= i < |rows| && i in due[..k] ==> rows[i] == TickRow(before[i], now, outcome(i))
        invariant forall i :: 0 <= i < |rows| && i !in due[..k] ==> rows[i] == before[i]
      {
        var i := due[k];
        assert i !in due[..k];
        assert due[..k + 1] == due[..k] + [i];
        var a := rows[i];
        if outcome(i) {
          a := a.(lastFiredAt := Some(now));
        }
        var next := NextCronTime(a.cronSpec, now);
        a := a.(nextRunAt := Some(next));
        rows := rows[i := a];
      }
      assert due[..|due|] == due;
      attempted := due;
    }

    /** TriggerAutopilot and fire: `ok` is the outcome of the action, the result says whether it fired. */
    method TriggerAutopilot(i: nat, now: Instant, ok: bool) returns (fired: bool)
      requires Valid() && i < |rows|
      modifies this
      ensures Valid()
      ensures rows == old(rows)[i := FireRow(old(rows[i]), now, ok)]
      ensures fired <==> old(rows[i]).enabled && ok
    {
      hide ParseSpec, NextRun;
      var a := rows[i];
      if !a.enabled || !ok {
        return false;
      }
      a := a.(lastFiredAt := Some(now));
      if a.trigger == CronTrigger {
        var next := NextCronTime(a.cronSpec, now);
        a := a.(nextRunAt := Some(next));
      }
      rows := rows[i := a];
      return true;
    }
  }

  // ==== Whole runs of one autopilot ====

  datatype Event = TickAt(now: Instant, ok: bool) | FireAt(now: Instant, ok: bool)

  function Apply(a: Autopilot, e: Event): (r: Autopilot)
    requires Stored(a)
    ensures Stored(r)
  {
    match e
    case TickAt(now, ok) => TickRow(a, now, ok)
    case FireAt(now, ok) => FireRow(a, now, ok)
  }

  function Replay(a: Autopilot, events: seq<Event>): (r: Autopilot)
    requires Stored(a)
    ensures Stored(r)
  {
    if events == [] then a else Apply(Replay(a, events[..|events| - 1]), events[|events| - 1])
  }

  /** The event attempts the action at a tick. */
  predicate Attempts(a: Autopilot, e: Event) {
    e.TickAt? && Due(a, e.now)
  }

  /** The last time the autopilot was scheduled: its creation, an attempted tick or a successful fire. */
  function ScheduledAt(a: Autopilot, created: Instant, events: seq<Event>): Instant
    requires Stored(a)
  {
    if events == [] then created else
      var before := events[..|events| - 1];
      var e := events[|events| - 1];
      if Attempts(Replay(a, before), e) || (e.FireAt? && e.ok) then e.now else ScheduledAt(a, created, before)
  }

  function AttemptCount(a: Autopilot, events: seq<Event>): nat
    requires Stored(a)
  {
    if events == [] then 0 else
      var before := events[..|events| - 1];
      AttemptCount(a, before) + if Attempts(Replay(a, before), events[|events| - 1]) then 1 else 0
  }

  /** An enabled cron autopilot as CreateAutopilot stores it at time `created`. */
  predicate FreshCron(a: Autopilot, created: Instant) {
    && a.trigger == CronTrigger && a.enabled
    && ParseSpec(a.cronSpec).Parsed?
    && a.nextRunAt == Some(NextRun(a.cronSpec, created))
  }

  /** After any run the stored next run is the next match after the last scheduling time. */
  lemma {:induction false} NextRunInvariant(a: Autopilot, created: Instant, events: seq<Event>)
    requires FreshCron(a, created)
    ensures var r := Replay(a, events);
      && r.trigger == CronTrigger && r.enabled && r.cronSpec == a.cronSpec
      && r.nextRunAt == Some(NextRun(a.cronSpec, ScheduledAt(a, created, events)))
    decreases |events|
  {
    hide NextMatch, ParseSpec;
    if events != [] {
      NextRunInvariant(a, created, events[..|events| - 1]);
    }
  }

  /** The k-th event runs the action of an enabled autopilot with success: a manual or webhook fire, or a tick that
      finds its cron schedule due. */
  predicate FiresAt(a: Autopilot, events: seq<Event>, k: nat)
    requires Stored(a)
  {
    && k < |events| && a.enabled && events[k].ok
    && (events[k].FireAt? ||
        (a.trigger == CronTrigger &&
         var next := Replay(a, events[..k]).nextRunAt; next.None? || !Before(events[k].now, next.value)))
  }

  predicate LastFire(a: Autopilot, events: seq<Event>, k: nat)
    requires Stored(a)
  {
    k < |events| && FiresAt(a, events, k) && forall j: nat :: k < j < |events| ==> !FiresAt(a, events, j)
  }

  predicate NoFire(a: Autopilot, events: seq<Event>)
    requires Stored(a)
  {
    forall k: nat :: k < |events| ==> !FiresAt(a, events, k)
  }

  lemma FiresEarlier(a: Autopilot, events: seq<Event>)
    requires Stored(a) && events != []
    ensures var n := |events| - 1;
      && (NoFire(a, events) ==> NoFire(a, events[..n]) && !FiresAt(a, events, n))
      && forall k: nat :: LastFire(a, events, k) ==>
           if FiresAt(a, events, n) then k == n else k < n && LastFire(a, events[..n], k)
  {
    var n := |events| - 1;
    var rest := events[..n];
    forall k: nat | k < n ensures FiresAt(a, events, k) <==> FiresAt(a, rest, k) {
      assert rest[..k] == events[..k];
    }
    hide FiresAt;
  }

  /** Whatever the run, the stored time of the last fire is that of the last success, and the trigger, the expression
      and the switch never change. */
  lemma {:induction false} LastFiredExactly(a: Autopilot, events: seq<Event>)
    requires Stored(a)
    ensures var r := Replay(a, events);
      && r.trigger == a.trigger && r.cronSpec == a.cronSpec && r.enabled == a.enabled
      && (forall k: nat :: LastFire(a, events, k) ==> r.lastFiredAt == Some(events[k].now))
      && (NoFire(a, events) ==> r.lastFiredAt == a.lastFiredAt)
    decreases |events|
  {
    hide NextRun, ParseSpec;
    if events != [] {
      LastFiredExactly(a, events[..|events| - 1]);
      FiresEarlier(a, events);
      FiresLast(a, events);
      hide FiresAt, LastFire, NoFire;
    }
  }

  lemma FiresLast(a: Autopilot, events: seq<Event>)
    requires Stored(a) && events != []
    ensures var n := |events| - 1;
      var before := Replay(a, events[..n]);
      before.trigger == a.trigger && before.enabled == a.enabled ==>
        Replay(a, events).lastFiredAt ==
          if FiresAt(a, events, n) then Some(events[n].now) else before.lastFiredAt
  {
    hide NextRun, ParseSpec;
  }

  /** A disabled autopilot never changes, and one that is not a cron autopilot is never scheduled or attempted. */
  lemma {:induction false} OthersNeverScheduled(a: Autopilot, events: seq<Event>)
    requires Stored(a) && (!a.enabled || a.trigger != CronTrigger)
    ensures !a.enabled ==> Replay(a, events) == a
    ensures AttemptCount(a, events) == 0
    ensures var r := Replay(a, events); r.nextRunAt == a.nextRunAt && r.trigger == a.trigger && r.enabled == a.enabled
    decreases |events|
  {
    hide NextRun, ParseSpec;
    if events != [] {
      OthersNeverScheduled(a, events[..|events| - 1]);
    }
  }

  /** Some minute after `since` and no later than `now` matches. */
  ghost predicate MatchBetween(s: Schedule, since: Instant, now: Instant)
    requires Sized(s)
  {
    exists m :: since.minute < m <= now.minute && Matches(s, m)
  }

  lemma NextDue(s: Schedule, since: Instant, now: Instant)
    requires Sized(s) && AtOrBefore(ZERO_TIME, now)
    ensures AtOrBefore(ResultTime(NextMatch(s, since)), now) <==>
      NextMatch(s, since).None? || MatchBetween(s, since, now)
  {
    hide Matches, Horizon, Scan;
    NextMatchIsLeast(s, since);
  }

  /** After any run, the tick at `now` attempts the autopilot exactly when a matching minute has passed
      since it was last scheduled, or when its schedule had no match within the horizon. */
  lemma AttemptedExactly(a: Autopilot, created: Instant, events: seq<Event>, now: Instant, ok: bool)
    requires FreshCron(a, created) && AtOrBefore(ZERO_TIME, now)
    ensures var since := ScheduledAt(a, created, events);
      Attempts(Replay(a, events), TickAt(now, ok)) <==>
        NextMatch(ScheduleOf(a.cronSpec), since).None? || MatchBetween(ScheduleOf(a.cronSpec), since, now)
  {
    hide NextMatch, ParseSpec, Matches, Horizon, Scan;
    NextRunInvariant(a, created, events);
    NextDue(ScheduleOf(a.cronSpec), ScheduledAt(a, created, events), now);
  }

  /** For a schedule that can fire in a common year the second case never arises: every attempt, on
      time or late, answers at least one matching minute, and a tick with none pending does nothing. */
  lemma AttemptedOnMatch(a: Autopilot, created: Instant, events: seq<Event>, now: Instant, ok: bool)
    requires FreshCron(a, created) && AtOrBefore(ZERO_TIME, now) && FiresEveryYear(ScheduleOf(a.cronSpec))
    ensures Attempts(Replay(a, events), TickAt(now, ok)) <==>
      MatchBetween(ScheduleOf(a.cronSpec), ScheduledAt(a, created, events), now)
  {
    hide NextMatch, ParseSpec, Matches, Horizon, Scan;
    AttemptedExactly(a, created, events, now, ok);
    AlwaysFound(ScheduleOf(a.cronSpec), ScheduledAt(a, created, events));
  }

  /** Being due tracks matching minutes for every scheduling time exactly when the schedule can fire
      in a common year; otherwise an autopilot can be due at every tick with nothing to answer. */
  lemma DueTracksMatchesExactly(s: Schedule)
    requires Sized(s)
    ensures (forall since, now :: AtOrBefore(ZERO_TIME, since) && AtOrBefore(since, now) ==>
        (AtOrBefore(ResultTime(NextMatch(s, since)), now) <==> MatchBetween(s, since, now)))
      <==> FiresEveryYear(s)
  {
    hide NextMatch, Matches, FiresEveryYear, Date;
    if FiresEveryYear(s) {
      forall since, now | AtOrBefore(ZERO_TIME, since) && AtOrBefore(since, now)
        ensures AtOrBefore(ResultTime(NextMatch(s, since)), now) <==> MatchBetween(s, since, now)
      {
        AlwaysFound(s, since);
        NextDue(s, since, now);
      }
    } else {
      MissedFrom2097(s);
      var since := Instant(Date(2097, 1, 1, 0, 0), 0);
      After2097();
      assert AtOrBefore(ResultTime(NextMatch(s, since)), since) && !MatchBetween(s, since, since);
    }
  }

  lemma After2097()
    ensures 0 <= Date(2097, 1, 1, 0, 0)
  {
    hide DaysBeforeYear;
    StartOfYear(2097);
    assert 0 <= DaysBeforeYear(2097) by {
      YearsGrow(1, 2097);
      StartOfYear(1);
      assert DaysBeforeYear(1) == 0 by { FirstYear(); }
    }
  }

  lemma FirstYear()
    ensures DaysBeforeYear(1) == 0
  {
  }

  // ---- Attempts never outnumber matching minutes ----

  /** How many minutes after `lo` and up to `hi` match. */
  function MatchCount(s: Schedule, lo: int, hi: int): nat
    requires Sized(s)
    decreases hi - lo
  {
    if hi <= lo then 0 else MatchCount(s, lo, hi - 1) + if Matches(s, hi) then 1 else 0
  }

  lemma {:induction false} MatchCountGrows(s: Schedule, lo: int, mid: int, hi: int)
    requires Sized(s) && lo <= mid <= hi
    ensures MatchCount(s, lo, mid) <= MatchCount(s, lo, hi)
    ensures (exists m :: mid < m <= hi && Matches(s, m)) ==> MatchCount(s, lo, mid) < MatchCount(s, lo, hi)
    decreases hi - mid
  {
    hide Matches;
    if mid < hi {
      MatchCountGrows(s, lo, mid, hi - 1);
    }
  }

  /** The events happen in time order, none before `created`. */
  predicate InOrder(created: Instant, events: seq<Event>) {
    && (forall i :: 0 <= i < |events| ==> AtOrBefore(created, events[i].now))
    && (forall i, j :: 0 <= i < j < |events| ==> AtOrBefore(events[i].now, events[j].now))
  }

  lemma {:induction false} ScheduledInThePast(a: Autopilot, created: Instant, events: seq<Event>, now: Instant)
    requires Stored(a) && InOrder(created, events) && AtOrBefore(created, now)
    requires forall i :: 0 <= i < |events| ==> AtOrBefore(events[i].now, now)
    ensures AtOrBefore(created, ScheduledAt(a, created, events))
    ensures AtOrBefore(ScheduledAt(a, created, events), now)
    decreases |events|
  {
    hide Attempts, Replay;
    if events != [] {
      ScheduledInThePast(a, created, events[..|events| - 1], now);
    }
  }

  predicate HasNext(spec: string, since: Instant) {
    ParseSpec(spec).Parsed? && NextMatch(ScheduleOf(spec), since).Some?
  }

  /** Whenever the run schedules the autopilot, its schedule has a match before the horizon. */
  predicate AlwaysScheduled(a: Autopilot, created: Instant, events: seq<Event>)
    requires Stored(a)
  {
    forall k :: 0 <= k < |events| ==> HasNext(a.cronSpec, ScheduledAt(a, created, events[..k]))
  }

  lemma AlwaysScheduledBefore(a: Autopilot, created: Instant, events: seq<Event>)
    requires Stored(a) && events != [] && AlwaysScheduled(a, created, events)
    ensures AlwaysScheduled(a, created, events[..|events| - 1])
    ensures HasNext(a.cronSpec, ScheduledAt(a, created, events[..|events| - 1]))
  {
    hide HasNext, ScheduledAt;
    var before := events[..|events| - 1];
    forall k | 0 <= k < |before| ensures HasNext(a.cronSpec, ScheduledAt(a, created, before[..k])) {
      assert before[..k] == events[..k];
    }
  }

  /** In any run in time order that always finds a next run, ticks attempt the autopilot at most once per matching
      minute since it was created: missed minutes collapse into one attempt and failures do not repeat. */
  lemma {:induction false} AttemptsBounded(a: Autopilot, created: Instant, events: seq<Event>)
    requires FreshCron(a, created) && AlwaysScheduled(a, created, events)
    requires AtOrBefore(ZERO_TIME, created) && InOrder(created, events)
    ensures AttemptCount(a, events) <=
      MatchCount(ScheduleOf(a.cronSpec), created.minute, ScheduledAt(a, created, events).minute)
    decreases |events|
  {
    hide Matches, NextMatch, ParseSpec, AlwaysScheduled, Replay, Due, MatchCount;
    if events != [] {
      var before, e := events[..|events| - 1], events[|events| - 1];
      var s := ScheduleOf(a.cronSpec);
      AlwaysScheduledBefore(a, created, events);
      AttemptsBounded(a, created, before);
      ScheduledInThePast(a, created, before, e.now);
      var since := ScheduledAt(a, created, before);
      MatchCountGrows(s, created.minute, since.minute, e.now.minute);
      if Attempts(Replay(a, before), e) {
        AttemptedExactly(a, created, before, e.now, e.ok);
      }
    }
  }
}
