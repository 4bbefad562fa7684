/** Concurrent AdvancePhase and Archive calls on one change: each call loads the change, reads the
    stores for its checks, and writes back the whole change row it loaded, and every one of those
    reads and writes may interleave with the others and with artifact writes. */
module Interleaving {
  import opened Strings
  import opened Workflow
  import WorkflowRuns

  datatype Goal = ToAdvance | ToArchive

  /** How far a call has come: the change loaded, the artifacts listed, the latest handoff read, the
      freshness check passed, the verify report checked, the handoff row written. */
  datatype Stage = Loaded | Legal | HandoffRead(latest: Handoff) | FreshChecked | Verified | Recorded

  datatype Worker = Idle | Busy(goal: Goal, loaded: Change, stage: Stage)

  datatype State = State(shared: Record, workers: map<nat, Worker>)

  /** A new call starts, a call takes its next read or write, or an artifact version is stored. */
  datatype Event =
    | Load(w: nat, goal: Goal)
    | Continue(w: nat)
    | AppendArtifact(kind: Kind, content: Content)

  function WorkerOf(s: State, w: nat): Worker {
    if w in s.workers then s.workers[w] else Idle
  }

  function SetWorker(s: State, w: nat, to: Worker): State {
    s.(workers := s.workers[w := to])
  }

  /** A check that passes moves the call on, one that fails ends it with an error. */
  function Pass(s: State, w: nat, ok: bool, to: Stage): State
    requires WorkerOf(s, w).Busy?
  {
    SetWorker(s, w, if ok then WorkerOf(s, w).(stage := to) else Idle)
  }

  /** One atomic step; a step that does not apply leaves the state alone. */
  function Next(s: State, e: Event): State {
    match e
    case AppendArtifact(kind, content) => s.(shared := AddArtifact(s.shared, kind, content, s.shared.clock + 1))
    case Load(w, goal) =>
      var c := s.shared.change;
      if WorkerOf(s, w) != Idle || c.status != Active then s
      else if goal == ToAdvance && PhaseAfter(c.phase).None? then s
      else if goal == ToArchive && c.phase != Tasks then s
      else SetWorker(s, w, Busy(goal, c, Loaded))
    case Continue(w) => if WorkerOf(s, w) == Idle then s else Proceed(s, w)
  }

  /** The next read or write of a call in progress. */
  function Proceed(s: State, w: nat): State
    requires WorkerOf(s, w).Busy?
  {
    var c := WorkerOf(s, w).loaded;
    match WorkerOf(s, w).stage
    case Loaded => Pass(s, w, PhaseLegal(s.shared, c.phase), Legal)
    case Legal =>
      var hs := s.shared.handoffs;
      if c.phase == Proposal then Pass(s, w, true, FreshChecked)
      else if hs == [] then Pass(s, w, false, Legal)
      else Pass(s, w, hs[|hs| - 1].to == c.phase, HandoffRead(hs[|hs| - 1]))
    case HandoffRead(latest) =>
      Pass(s, w, NoneAfter(s.shared, IndexOfPhase(c.phase), latest.createdAt), FreshChecked)
    case FreshChecked =>
      if WorkerOf(s, w).goal == ToArchive then Pass(s, w, VerifyPassed(s.shared), Verified)
      else RecordHandoff(s, w)
    case Verified => SetWorker(s.(shared := s.shared.(change := c.(status := Archived))), w, Idle)
    case Recorded =>
      (match PhaseAfter(c.phase)
       case Some(next) => SetWorker(s.(shared := s.shared.(change := c.(phase := next))), w, Idle)
       case None => s)
  }

  function RecordHandoff(s: State, w: nat): State
    requires WorkerOf(s, w).Busy?
  {
    var c := WorkerOf(s, w).loaded;
    match PhaseAfter(c.phase)
    case Some(next) =>
      var now := s.shared.clock + 1;
      var shared := s.shared.(handoffs := s.shared.handoffs + [Handoff(c.phase, next, now)], clock := now);
      Pass(s.(shared := shared), w, true, Recorded)
    case None => s
  }

  function Run(s: State, events: seq<Event>): State {
    if events == [] then s else Next(Run(s, events[..|events| - 1]), events[|events| - 1])
  }

  function Initial(now: int): State {
    State(NewChange(now), map[])
  }

  // ==== A call by itself ====

  /** The next `n` reads and writes of one call, with nothing in between. */
  function Alone(s: State, w: nat, n: nat): State
    decreases n
  {
    if n == 0 then s else Alone(Next(s, Continue(w)), w, n - 1)
  }

  lemma AloneIdle(s: State, w: nat, n: nat)
    requires WorkerOf(s, w) == Idle
    ensures Alone(s, w, n) == s
  {
  }

  /** The stored change without its clock, which the archive's one write does not move here. */
  function Untimed(r: Record): Record {
    r.(clock := 0)
  }

  lemma AloneFromChecked(s: State, w: nat, goal: Goal, c: Change)
    requires WorkerOf(s, w) == Busy(goal, c, FreshChecked) && s.shared.change == c && c.status == Active
    requires if goal == ToAdvance then PhaseAfter(c.phase).Some? else c.phase == Tasks
    ensures var r := s.shared;
            var next := PhaseAfter(c.phase);
            Untimed(Alone(s, w, 2).shared) ==
              if goal == ToAdvance then
                Untimed(r.(change := c.(phase := next.value),
                           handoffs := r.handoffs + [Handoff(c.phase, next.value, r.clock + 1)]))
              else if VerifyPassed(r) then Untimed(r.(change := c.(status := Archived)))
              else Untimed(r)
    ensures WorkerOf(Alone(s, w, 2), w) == Idle
  {
    hide VerifyPassed;
    var s1 := Next(s, Continue(w));
    var s2 := Next(s1, Continue(w));
    assert Alone(s, w, 2) == Alone(s1, w, 1) == s2;
  }

  lemma AloneToChecked(s: State, w: nat, goal: Goal, c: Change)
    requires WorkerOf(s, w) == Busy(goal, c, Loaded) && s.shared.change == c
    ensures var k := if c.phase == Proposal then 2 else 3;
            var s' := Alone(s, w, k);
            && s'.shared == s.shared
            && WorkerOf(s', w) ==
                 if PhaseLegal(s.shared, c.phase) && HandoffFresh(s.shared, c.phase) then Busy(goal, c, FreshChecked)
                 else Idle
  {
    hide PhaseLegal, NoneAfter;
    var s1 := Next(s, Continue(w));
    var s2 := Next(s1, Continue(w));
    var s3 := Next(s2, Continue(w));
    assert Alone(s, w, 3) == Alone(s1, w, 2) == Alone(s2, w, 1) == s3;
    assert Alone(s, w, 2) == Alone(s1, w, 1) == s2;
  }

  lemma {:induction false} AloneAppend(s: State, w: nat, m: nat, n: nat)
    ensures Alone(s, w, m + n) == Alone(Alone(s, w, m), w, n)
    decreases m
  {
    if m > 0 {
      AloneAppend(Next(s, Continue(w)), w, m - 1, n);
    }
  }

  /** Left alone, the reads and writes of a call do what the call does as one atomic step. */
  lemma AloneIsStep(s: State, w: nat, goal: Goal)
    requires WorkerOf(s, w) == Idle
    ensures Untimed(Alone(Next(s, Load(w, goal)), w, 5).shared) ==
            Untimed(Step(s.shared, Call(if goal == ToAdvance then Advance else Archive, 0)))
  {
    hide PhaseLegal, HandoffFresh, VerifyPassed, Alone, Proceed;
    var r, c := s.shared, s.shared.change;
    var s0 := Next(s, Load(w, goal));
    if WorkerOf(s0, w) == Idle {
      AloneIdle(s0, w, 5);
    } else {
      var k := if c.phase == Proposal then 2 else 3;
      AloneToChecked(s0, w, goal, c);
      AloneAppend(s0, w, k, 5 - k);
      var s1 := Alone(s0, w, k);
      if WorkerOf(s1, w) == Idle {
        AloneIdle(s1, w, 5 - k);
      } else {
        AloneFromChecked(s1, w, goal, c);
        AloneAppend(s1, w, 2, 3 - k);
        AloneIdle(Alone(s1, w, 2), w, 3 - k);
      }
    }
  }

  // ==== Safety: no phase is ever skipped ====

  /** Every phase with index below `n` has an artifact. */
  predicate DocsBelow(r: Record, n: nat)
    requires n <= 4
  {
    forall i :: 0 <= i < n ==> HasDoc(r, ORDER[i])
  }

  predicate WorkerInv(r: Record, me: Worker) {
    me.Busy? ==>
      && me.loaded.status == Active
      && (me.goal == ToArchive ==> me.loaded.phase == Tasks && me.stage != Recorded)
      && (me.goal == ToAdvance ==> PhaseAfter(me.loaded.phase).Some? && me.stage != Verified)
      && (me.stage != Loaded ==> DocsBelow(r, IndexOfPhase(me.loaded.phase) + 1))
  }

  /** No artifact is stamped later than the clock. */
  predicate Stamped(r: Record) {
    forall i :: 0 <= i < |r.artifacts| ==> r.artifacts[i].createdAt <= r.clock
  }

  predicate Inv(s: State) {
    && DocsBelow(s.shared, IndexOfPhase(s.shared.change.phase))
    && (s.shared.change.status == Archived ==> s.shared.change.phase == Tasks)
    && Stamped(s.shared)
    && forall w :: w in s.workers ==> WorkerInv(s.shared, s.workers[w])
  }

  /** Artifacts are never removed, so what has been checked stays true. */
  lemma DocsStay(r: Record, kind: Kind, content: Content, now: int, n: nat)
    requires n <= 4 && DocsBelow(r, n)
    ensures DocsBelow(AddArtifact(r, kind, content, now), n)
  {
    var r' := AddArtifact(r, kind, content, now);
    forall i | 0 <= i < n ensures HasDoc(r', ORDER[i]) {
      assert HasDoc(r, ORDER[i]);
      assert r'.artifacts[..|r.artifacts|] == r.artifacts;
    }
  }

  lemma DocsDependOnArtifacts(r: Record, r': Record)
    requires r'.artifacts == r.artifacts
    ensures forall n :: 0 <= n <= 4 ==> DocsBelow(r', n) == DocsBelow(r, n)
    ensures forall me :: WorkerInv(r, me) == WorkerInv(r', me)
  {
    assert forall p :: HasDoc(r', p) == HasDoc(r, p);
    assert forall n :: 0 <= n <= 4 ==> DocsBelow(r', n) == DocsBelow(r, n);
  }

  lemma LegalMeansDocs(r: Record, p: Phase)
    ensures PhaseLegal(r, p) ==> DocsBelow(r, IndexOfPhase(p) + 1)
  {
  }

  /** Everything a call still relies on holds after its next read or write. */
  lemma ProceedKeeps(s: State, w: nat)
    requires Inv(s) && WorkerOf(s, w).Busy?
    ensures Inv(Proceed(s, w))
  {
    hide Latest, CountKind, NoneAfter, VerifyPassed, PhaseLegal, DocsBelow;
    var s' := Proceed(s, w);
    var me := s.workers[w];
    assert WorkerInv(s.shared, me);
    LegalMeansDocs(s.shared, me.loaded.phase);
    DocsDependOnArtifacts(s.shared, s'.shared);
    if me.stage == Recorded {
      assert ORDER[IndexOfPhase(me.loaded.phase) + 1] == s'.shared.change.phase;
      assert forall i: nat :: i < 4 ==> IndexOfPhase(ORDER[i]) == i;
    }
    if me.stage == Verified {
      DocsBelowLess(s.shared, IndexOfPhase(me.loaded.phase));
    }
    forall v | v in s'.workers ensures WorkerInv(s'.shared, s'.workers[v]) {
      if v != w {
        assert WorkerInv(s.shared, s.workers[v]);
      }
    }
  }

  lemma DocsBelowLess(r: Record, n: nat)
    requires n < 4 && DocsBelow(r, n + 1)
    ensures DocsBelow(r, n)
  {
  }

  lemma NextKeeps(s: State, e: Event)
    requires Inv(s)
    ensures Inv(Next(s, e))
  {
    hide Latest, CountKind, Proceed, DocsBelow;
    var s' := Next(s, e);
    match e
    case AppendArtifact(kind, content) =>
      DocsStay(s.shared, kind, content, s.shared.clock + 1, IndexOfPhase(s.shared.change.phase));
      forall w | w in s'.workers ensures WorkerInv(s'.shared, s'.workers[w]) {
        var me := s.workers[w];
        if me.Busy? && me.stage != Loaded {
          DocsStay(s.shared, kind, content, s.shared.clock + 1, IndexOfPhase(me.loaded.phase) + 1);
        }
      }
    case Load(w, goal) =>
      forall v | v in s'.workers ensures WorkerInv(s'.shared, s'.workers[v]) {
        if v != w {
          assert WorkerInv(s.shared, s.workers[v]);
        }
      }
    case Continue(w) =>
      if WorkerOf(s, w).Busy? {
        ProceedKeeps(s, w);
      }
  }

  lemma {:induction false} RunKeeps(s: State, events: seq<Event>)
    requires Inv(s)
    ensures Inv(Run(s, events))
    decreases |events|
  {
    if events != [] {
      RunKeeps(s, events[..|events| - 1]);
      NextKeeps(Run(s, events[..|events| - 1]), events[|events| - 1]);
    }
  }

  /** However the calls interleave, every phase strictly before the stored phase has an artifact. */
  lemma NoPhaseSkipped(now: int, events: seq<Event>, p: Phase)
    requires IndexOfPhase(p) < IndexOfPhase(Run(Initial(now), events).shared.change.phase)
    ensures HasDoc(Run(Initial(now), events).shared, p)
  {
    RunKeeps(Initial(now), events);
    assert ORDER[IndexOfPhase(p)] == p;
  }

  // ---- Joining runs ----

  lemma RunSnoc(s: State, events: seq<Event>, e: Event)
    ensures Run(s, events + [e]) == Next(Run(s, events), e)
  {
    assert (events + [e])[..|events|] == events;
  }

  lemma {:induction false} RunAppend(s: State, first: seq<Event>, second: seq<Event>)
    ensures Run(s, first + second) == Run(Run(s, first), second)
    decreases |second|
  {
    hide Next;
    if second == [] {
      assert first + second == first;
    } else {
      var n := |second| - 1;
      assert (first + second)[..|first| + n] == first + second[..n];
      RunAppend(s, first, second[..n]);
    }
  }

  // ==== When archived is final ====

  predicate Advancing(s: State, w: nat) {
    WorkerOf(s, w).Busy? && WorkerOf(s, w).goal == ToAdvance
  }

  /** The advance of `w` can still write its phase: it has passed every check, or the checks it has left pass on
      what is stored now. An advance loaded at the proposal phase has no handoff to check. */
  predicate CanFinish(s: State, w: nat) {
    && Advancing(s, w)
    && var p := WorkerOf(s, w).loaded.phase;
       match WorkerOf(s, w).stage
       case Loaded => HandoffFresh(s.shared, p)
       case Legal => HandoffFresh(s.shared, p)
       case HandoffRead(latest) => NoneAfter(s.shared, IndexOfPhase(p), latest.createdAt)
       case _ => true
  }

  ghost predicate NoneCanFinish(s: State) {
    forall w :: !CanFinish(s, w)
  }

  function StepsLeft(stage: Stage): nat {
    match stage
    case Loaded => 4
    case Legal => 3
    case HandoffRead(_) => 2
    case FreshChecked => 1
    case _ => 0
  }

  /** An archived change has every document an advance could ask for. */
  lemma ArchivedIsLegal(s: State, p: Phase)
    requires Inv(s) && s.shared.change.status == Archived && PhaseAfter(p).Some?
    ensures PhaseLegal(s.shared, p)
  {
    assert IndexOfPhase(Tasks) == 3 && IndexOfPhase(p) < 3;
  }

  /** One more step of such an advance either makes the change active or leaves it archived and one step closer. */
  lemma FinishStep(s: State, w: nat)
    requires Inv(s) && s.shared.change.status == Archived && CanFinish(s, w)
    ensures var s' := Next(s, Continue(w));
            if WorkerOf(s, w).stage == Recorded then s'.shared.change.status == Active
            else
              && s'.shared.change.status == Archived && CanFinish(s', w)
              && StepsLeft(WorkerOf(s', w).stage) < StepsLeft(WorkerOf(s, w).stage)
  {
    hide Latest, CountKind, NoneAfter, VerifyPassed, PhaseLegal, DocsBelow, HasDoc, Stamped;
    assert WorkerInv(s.shared, s.workers[w]);
    ArchivedIsLegal(s, WorkerOf(s, w).loaded.phase);
  }

  /** Undisturbed, an advance that can still finish makes an archived change active. */
  lemma {:induction false} FinishUndoesArchive(s: State, w: nat) returns (events: seq<Event>)
    requires Inv(s) && s.shared.change.status == Archived && CanFinish(s, w)
    ensures Run(s, events).shared.change.status == Active
    decreases StepsLeft(WorkerOf(s, w).stage)
  {
    assert WorkerOf(s, w).Busy?;
    hide Next, Inv, CanFinish;
    var e := Continue(w);
    FinishStep(s, w);
    NextKeeps(s, e);
    RunSnoc(s, [], e);
    assert [] + [e] == [e];
    events := [e];
    if WorkerOf(s, w).stage != Recorded {
      var rest := FinishUndoesArchive(Next(s, e), w);
      RunAppend(s, [e], rest);
      events := [e] + rest;
    }
  }

  /** A later artifact never makes an out-of-date handoff current again. */
  lemma AfterStays(r: Record, kind: Kind, content: Content, n: nat, t: int)
    requires Stamped(r) && n <= 4 && !NoneAfter(r, n, t)
    ensures !NoneAfter(AddArtifact(r, kind, content, r.clock + 1), n, t)
  {
    hide CountKind;
    var r' := AddArtifact(r, kind, content, r.clock + 1);
    var i :| 0 <= i < n && !NotAfter(r, i, t);
    WorkflowRuns.LatestAppend(r.artifacts, r'.artifacts[|r.artifacts|], Doc(ORDER[i]));
    assert Latest(r.artifacts, Doc(ORDER[i])).value in r.artifacts;
    assert !NotAfter(r', i, t);
  }

  lemma AppendKeepsStuck(s: State, kind: Kind, content: Content, w: nat)
    requires Inv(s) && !CanFinish(s, w)
    ensures !CanFinish(Next(s, AppendArtifact(kind, content)), w)
  {
    hide Latest, CountKind, NoneAfter, DocsBelow, Stamped;
    var r := s.shared;
    if Advancing(s, w) {
      var p := WorkerOf(s, w).loaded.phase;
      var n := IndexOfPhase(p);
      if WorkerOf(s, w).stage.HandoffRead? {
        AfterStays(r, kind, content, n, WorkerOf(s, w).stage.latest.createdAt);
      } else if r.handoffs != [] && r.handoffs[|r.handoffs| - 1].to == p {
        AfterStays(r, kind, content, n, r.handoffs[|r.handoffs| - 1].createdAt);
      }
    }
  }

  /** The checks look only at artifacts and handoffs. */
  lemma SameStoresSameFate(s: State, s': State, w: nat)
    requires s'.shared.artifacts == s.shared.artifacts && s'.shared.handoffs == s.shared.handoffs
    requires WorkerOf(s', w) == WorkerOf(s, w)
    ensures CanFinish(s', w) == CanFinish(s, w)
  {
    hide Latest;
    assert forall i: nat, t: int :: i < 4 ==> NotAfter(s'.shared, i, t) == NotAfter(s.shared, i, t);
  }

  lemma StuckContinues(s: State, v: nat)
    requires Inv(s) && s.shared.change.status == Archived && NoneCanFinish(s)
    ensures var s' := Next(s, Continue(v));
            s'.shared.change.status == Archived && NoneCanFinish(s')
  {
    hide Latest, CountKind, NoneAfter, VerifyPassed, PhaseLegal, DocsBelow, HasDoc, Stamped;
    assert !CanFinish(s, v);
    var s' := Next(s, Continue(v));
    if WorkerOf(s, v).Busy? {
      assert WorkerInv(s.shared, s.workers[v]);
      SameStoresSameFate(SetWorker(s, v, WorkerOf(s', v)), s', v);
    }
    forall w ensures !CanFinish(s', w) {
      assert !CanFinish(s, w);
      if w != v {
        SameStoresSameFate(s, s', w);
      }
    }
  }

  lemma StuckStays(s: State, e: Event)
    requires Inv(s) && s.shared.change.status == Archived && NoneCanFinish(s)
    ensures Next(s, e).shared.change.status == Archived && NoneCanFinish(Next(s, e))
  {
    match e
    case AppendArtifact(kind, content) =>
      forall w ensures !CanFinish(Next(s, e), w) {
        AppendKeepsStuck(s, kind, content, w);
      }
    case Load(_, _) =>
    case Continue(v) => StuckContinues(s, v);
  }

  lemma {:induction false} StuckForever(s: State, events: seq<Event>)
    requires Inv(s) && s.shared.change.status == Archived && NoneCanFinish(s)
    ensures Run(s, events).shared.change.status == Archived && NoneCanFinish(Run(s, events))
    decreases |events|
  {
    hide Next, Inv, NoneCanFinish;
    if events != [] {
      var n := |events| - 1;
      StuckForever(s, events[..n]);
      RunKeeps(s, events[..n]);
      StuckStays(Run(s, events[..n]), events[n]);
    }
  }

  /** An archived change stays archived in every continuation if and only if no advance in flight can still
      finish. */
  lemma ArchivedIsFinalExactly(s: State)
    requires Inv(s) && s.shared.change.status == Archived
    ensures (forall events :: Run(s, events).shared.change.status == Archived) <==> NoneCanFinish(s)
  {
    hide Inv, CanFinish, Run;
    if NoneCanFinish(s) {
      forall events ensures Run(s, events).shared.change.status == Archived {
        StuckForever(s, events);
      }
    } else {
      var w :| CanFinish(s, w);
      var events := FinishUndoesArchive(s, w);
      assert Run(s, events).shared.change.status != Archived;
    }
  }

  /** An advance whose checks passed before the change was archived makes it active again. */
  lemma LateAdvanceUndoesArchive(s: State, w: nat)
    requires Inv(s) && s.shared.change.status == Archived
    requires Advancing(s, w) && WorkerOf(s, w).stage == FreshChecked
    ensures Run(s, [Continue(w), Continue(w)]).shared.change.status == Active
  {
    hide Latest, CountKind, NoneAfter, VerifyPassed, PhaseLegal;
    var e := Continue(w);
    assert [e, e][..1] == [e] && [e][..0] == [];
    assert Run(s, [e]) == Next(s, e);
    assert Run(s, [e, e]) == Next(Next(s, e), e);
  }

  // ---- Such a late advance does arise ----

  /** A call that loads a fresh, legal change past the proposal passes its checks undisturbed. */
  lemma ChecksPass(s: State, w: nat, goal: Goal) returns (events: seq<Event>)
    requires WorkerOf(s, w) == Idle && s.shared.change.status == Active && s.shared.change.phase != Proposal
    requires goal == ToAdvance ==> CanAdvance(s.shared)
    requires goal == ToArchive ==> CanArchive(s.shared)
    ensures Run(s, events) == SetWorker(s, w, Busy(goal, s.shared.change, FreshChecked))
  {
    assert Run(s, []) == s;
    hide Latest, CountKind, NoneAfter, VerifyPassed, PhaseLegal, Run, Inv;
    var c := s.shared.change;
    var latest := s.shared.handoffs[|s.shared.handoffs| - 1];
    var e0, e := Load(w, goal), Continue(w);
    var s1, s2, s3 := SetWorker(s, w, Busy(goal, c, Loaded)), SetWorker(s, w, Busy(goal, c, Legal)),
      SetWorker(s, w, Busy(goal, c, HandoffRead(latest)));
    LoadStep(s, w, goal);
    ReadStep(s, s1, w, Busy(goal, c, Loaded), Busy(goal, c, Legal));
    ReadStep(s, s2, w, Busy(goal, c, Legal), Busy(goal, c, HandoffRead(latest)));
    ReadStep(s, s3, w, Busy(goal, c, HandoffRead(latest)), Busy(goal, c, FreshChecked));
    hide Next, SetWorker;
    assert [] + [e0] == [e0];
    RunSnoc(s, [], e0);
    RunSnoc(s, [e0], e);
    RunSnoc(s, [e0] + [e], e);
    RunSnoc(s, [e0] + [e] + [e], e);
    events := [e0] + [e] + [e] + [e];
  }

  lemma LoadStep(s: State, w: nat, goal: Goal)
    requires WorkerOf(s, w) == Idle && s.shared.change.status == Active
    requires if goal == ToAdvance then PhaseAfter(s.shared.change.phase).Some? else s.shared.change.phase == Tasks
    ensures Next(s, Load(w, goal)) == SetWorker(s, w, Busy(goal, s.shared.change, Loaded))
  {
  }

  /** One read of a call past the proposal whose checks pass on what is stored. */
  lemma ReadStep(s: State, now: State, w: nat, me: Worker, then_: Worker)
    requires me.Busy? && then_.Busy? && now == SetWorker(s, w, me) && me.loaded.phase != Proposal
    requires then_ == me.(stage := then_.stage)
    requires PhaseLegal(s.shared, me.loaded.phase) && HandoffFresh(s.shared, me.loaded.phase)
    requires var latest := s.shared.handoffs[|s.shared.handoffs| - 1];
             || (me.stage == Loaded && then_.stage == Legal)
             || (me.stage == Legal && then_.stage == HandoffRead(latest))
             || (me.stage == HandoffRead(latest) && then_.stage == FreshChecked)
    ensures Next(now, Continue(w)) == SetWorker(s, w, then_)
  {
    hide PhaseLegal, NoneAfter;
    assert now.workers[w := then_] == s.workers[w := then_];
  }

  /** One undisturbed advance does what the sequential call does. */
  lemma AdvanceAlone(s: State, w: nat) returns (events: seq<Event>)
    requires WorkerOf(s, w) == Idle && s.shared.change.phase != Proposal && CanAdvance(s.shared)
    ensures Run(s, events).shared == Step(s.shared, Call(Advance, 0))
    ensures forall v :: v != w ==> WorkerOf(Run(s, events), v) == WorkerOf(s, v)
    ensures WorkerOf(Run(s, events), w) == Idle
  {
    hide Latest, CountKind, NoneAfter, VerifyPassed, PhaseLegal, HandoffFresh, Run;
    var checks := ChecksPass(s, w, ToAdvance);
    RunSnoc(s, checks, Continue(w));
    RunSnoc(s, checks + [Continue(w)], Continue(w));
    events := checks + [Continue(w)] + [Continue(w)];
  }

  lemma ArchiveAlone(s: State, w: nat) returns (events: seq<Event>)
    requires WorkerOf(s, w) == Idle && CanArchive(s.shared)
    ensures Run(s, events).shared.change.status == Archived
    ensures forall v :: v != w ==> WorkerOf(Run(s, events), v) == WorkerOf(s, v)
  {
    hide Latest, CountKind, NoneAfter, PhaseLegal, HandoffFresh, Run;
    var checks := ChecksPass(s, w, ToArchive);
    RunSnoc(s, checks, Continue(w));
    RunSnoc(s, checks + [Continue(w)], Continue(w));
    events := checks + [Continue(w)] + [Continue(w)];
  }

  /** Writing the tasks document and a passing report at a fresh tasks phase opens the archive gate. */
  lemma ReadyToArchive(s: State) returns (events: seq<Event>)
    requires s.shared.change == Change(Tasks, Active) && HandoffFresh(s.shared, Tasks) && DocsBelow(s.shared, 3)
    ensures CanArchive(Run(s, events).shared) && Run(s, events).workers == s.workers
  {
    hide CountKind, Latest;
    var e1, e2 := AppendArtifact(Doc(Tasks), Text("x")), AppendArtifact(VerifyReport, Report(Verdict.Pass));
    assert [] + [e1] == [e1];
    RunSnoc(s, [], e1);
    RunSnoc(s, [e1], e2);
    events := [e1] + [e2];
    var r, r1 := s.shared, Next(s, e1).shared;
    var r2 := Next(Next(s, e1), e2).shared;
    forall i: nat | i < 4
      ensures Latest(r2.artifacts, Doc(ORDER[i])) ==
        if i == 3 then Some(r1.artifacts[|r.artifacts|]) else Latest(r.artifacts, Doc(ORDER[i]))
    {
      WorkflowRuns.LatestAppend(r.artifacts, r1.artifacts[|r.artifacts|], Doc(ORDER[i]));
      WorkflowRuns.LatestAppend(r1.artifacts, r2.artifacts[|r1.artifacts|], Doc(ORDER[i]));
    }
    WorkflowRuns.LatestAppend(r1.artifacts, r2.artifacts[|r1.artifacts|], VerifyReport);
    assert forall i: nat, t: int :: i < 3 ==> NotAfter(r2, i, t) == NotAfter(r, i, t);
    forall i | 0 <= i <= 3 ensures HasDoc(r2, ORDER[i]) {
      assert i < 3 ==> HasDoc(r, ORDER[i]);
    }
  }

  /** Two advances started at the design phase: the second completes and the change is archived while
      the first waits, and then the first one's late write makes the archived change active. */
  lemma ArchiveCanBeUndone(s: State, late: nat, other: nat) returns (events: seq<Event>)
    requires Inv(s) && late != other && WorkerOf(s, late) == Idle && WorkerOf(s, other) == Idle
    requires s.shared.change.phase == Design && CanAdvance(s.shared)
    ensures Run(s, events).shared.change.status == Archived
    ensures Run(Run(s, events), [Continue(late), Continue(late)]).shared.change.status == Active
  {
    hide CountKind, Latest, NoneAfter, PhaseLegal, VerifyPassed, Run, HasDoc;
    var ev1 := ChecksPass(s, late, ToAdvance);
    var s1 := Run(s, ev1);
    var ev2 := AdvanceAlone(s1, other);
    var s2 := Run(s1, ev2);
    RunKeeps(s, ev1);
    RunKeeps(s1, ev2);
    FreshRightAfter(s1.shared);
    var ev3 := ReadyToArchive(s2);
    var s3 := Run(s2, ev3);
    RunKeeps(s2, ev3);
    var ev4 := ArchiveAlone(s3, other);
    RunKeeps(s3, ev4);
    events := ev1 + ev2 + ev3 + ev4;
    RunAppend(s, ev1 + ev2 + ev3, ev4);
    RunAppend(s, ev1 + ev2, ev3);
    RunAppend(s, ev1, ev2);
    assert WorkerOf(s1, late) == Busy(ToAdvance, s.shared.change, FreshChecked);
    assert WorkerOf(s3, late) == WorkerOf(s2, late) == WorkerOf(s1, late);
    LateAdvanceUndoesArchive(Run(s, events), late);
  }

  lemma FreshRightAfter(r: Record)
    requires CanAdvance(r) && r.change.phase == Design
    requires forall i :: 0 <= i < |r.artifacts| ==> r.artifacts[i].createdAt <= r.clock
    ensures HandoffFresh(Step(r, Call(Advance, 0)), Tasks)
  {
    hide CountKind;
  }
}
