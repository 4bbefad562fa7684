/** The agent's tool loop: at most so many completions of a model that may reply anything, with the classic
    workflow's gate on the statuses it may write. */
module Executor {
  import opened Strings
  import opened StatusMachine
  import opened Workflow
  import WorkflowRuns

  const DEFAULT_MAX_TURNS: nat := 12

  datatype Tool =
    | ReadIssue | CheckoutRepo | GetFlow | WriteArtifact(kind: Kind, text: string) | AdvancePhase
    | SubmitVerify(verdict: Verdict) | ArchiveChange | PostComment(text: string) | SetStatus(to: Name) | UnknownTool

  /** One completion: an error of the client, text that is no action, a final message or a tool call. */
  datatype Reply = ClientError | Unparsable | Final(message: string) | UseTool(tool: Tool, wait: nat)

  datatype Event = Completed | StatusWritten(to: Name) | ArchiveDone(before: Record)

  datatype End = Answered | ClientFailed(turn: nat) | EmptyFinal | Exhausted

  /** What is stored: the issue's change and the issue's status. */
  datatype World = World(record: Record, status: Name)

  /** The statuses the gate keeps from an issue whose change is active. */
  predicate Gated(s: Name) {
    s == BuiltIn(InReview) || s == BuiltIn(StatusMachine.Done)
  }

  predicate MayWrite(status: Name, change: Change, to: Name) {
    CanTransition(status, to) && !(change.status == Active && Gated(to))
  }

  function Completions(trace: seq<Event>): nat {
    if trace == [] then 0 else Completions(trace[..|trace| - 1]) + (if trace[|trace| - 1].Completed? then 1 else 0)
  }

  /** The last status written, `loaded` when there is none. */
  function Current(loaded: Name, trace: seq<Event>): Name {
    if trace == [] then loaded
    else if trace[|trace| - 1].StatusWritten? then trace[|trace| - 1].to
    else Current(loaded, trace[..|trace| - 1])
  }

  /** Every status written is a legal move from the one before it. */
  predicate LegalPath(loaded: Name, trace: seq<Event>) {
    forall i :: 0 <= i < |trace| && trace[i].StatusWritten? ==> CanTransition(Current(loaded, trace[..i]), trace[i].to)
  }

  predicate ArchivedBefore(trace: seq<Event>, i: nat)
    requires i <= |trace|
  {
    exists j :: 0 <= j < i && trace[j].ArchiveDone?
  }

  /** Review and done are not written unless the change was not active at the start or an archive succeeded before. */
  predicate GateHeld(atStart: Change, trace: seq<Event>) {
    forall i :: 0 <= i < |trace| && trace[i].StatusWritten?
                && (trace[i].to == BuiltIn(InReview) || trace[i].to == BuiltIn(StatusMachine.Done)) ==>
      atStart.status != Active || ArchivedBefore(trace, i)
  }

  /** Every archive that succeeded had passed all the guard's gates. */
  predicate ArchivesEarned(trace: seq<Event>) {
    forall i :: 0 <= i < |trace| && trace[i].ArchiveDone? ==> CanArchive(trace[i].before)
  }

  ghost predicate ArchivesReachable(trace: seq<Event>) {
    forall i :: 0 <= i < |trace| && trace[i].ArchiveDone? ==> WorkflowRuns.Inv(trace[i].before)
  }

  /** Other callers only move the stored change between states that keep the workflow's invariant. */
  ghost predicate KeepsInvariant(others: (nat, World) -> World) {
    forall t: nat, w: World :: WorkflowRuns.Inv(w.record) ==> WorkflowRuns.Inv(others(t, w).record)
  }

  // ==== The loop, as a function ====

  /** The stored world, the run's own copies of the issue's status and of the change, the comments posted and what
      has happened so far. */
  datatype State = State(world: World, issue: Name, change: Change, comments: seq<string>, trace: seq<Event>)

  function Called(s: State, op: Op, wait: nat): State {
    s.(world := s.world.(record := Step(s.world.record, Call(op, wait))))
  }

  /** What a tool call does. A status write looks at the run's own copies and overwrites the stored status. */
  function ToolStep(s: State, tool: Tool, wait: nat): State {
    match tool
    case WriteArtifact(kind, text) => Called(s, Write(kind, text), wait)
    case SubmitVerify(verdict) => Called(s, Op.SubmitVerify(verdict), wait)
    case AdvancePhase =>
      var after := Called(s, Advance, wait);
      if CanAdvance(s.world.record) then after.(change := after.world.record.change) else after
    case ArchiveChange =>
      var after := Called(s, Archive, wait);
      if CanArchive(s.world.record)
      then after.(change := after.world.record.change, trace := s.trace + [ArchiveDone(s.world.record)])
      else after
    case PostComment(text) => if Blank(text) then s else s.(comments := s.comments + [text])
    case SetStatus(to) =>
      if MayWrite(s.issue, s.change, to)
      then s.(world := s.world.(status := to), issue := to, trace := s.trace + [StatusWritten(to)])
      else s
    case _ => s
  }

  /** One turn: a completion, whatever other callers made of the world meanwhile, then the reply. */
  function TurnStep(s: State, reply: Reply, meanwhile: World): State {
    var s1 := s.(trace := s.trace + [Completed], world := meanwhile);
    match reply
    case UseTool(tool, wait) => ToolStep(s1, tool, wait)
    case Final(message) => if Blank(message) then s1 else s1.(comments := s1.comments + [message])
    case _ => s1
  }

  predicate Ends(r: Reply) {
    r.ClientError? || r.Final?
  }

  function EndOf(r: Reply, turn: nat): End
    requires Ends(r)
  {
    if r.ClientError? then ClientFailed(turn) else if Blank(r.message) then EmptyFinal else Answered
  }

  datatype Finish = Finish(state: State, end: End)

  /** The turns from `turn` to `last`: `reply(t)` is the model's answer in turn t, `others(t, w)` what the
      stored world has become by then. */
  function Loop(s: State, reply: nat -> Reply, others: (nat, World) -> World, turn: nat, last: nat): Finish
    decreases last + 1 - turn
  {
    if turn > last then Finish(s, Exhausted)
    else
      var s' := TurnStep(s, reply(turn), others(turn, s.world));
      if Ends(reply(turn)) then Finish(s', EndOf(reply(turn), turn)) else Loop(s', reply, others, turn + 1, last)
  }

  function Begin(world: World, comments: seq<string>): State {
    State(world, world.status, world.record.change, comments, [])
  }

  // ---- Adding one event ----

  lemma TraceGrows(loaded: Name, atStart: Change, trace: seq<Event>, e: Event)
    requires LegalPath(loaded, trace) && GateHeld(atStart, trace) && ArchivesEarned(trace)
    requires e.StatusWritten? ==> CanTransition(Current(loaded, trace), e.to)
    requires e.StatusWritten? && Gated(e.to) ==> atStart.status != Active || ArchivedBefore(trace, |trace|)
    requires e.ArchiveDone? ==> CanArchive(e.before)
    ensures LegalPath(loaded, trace + [e]) && GateHeld(atStart, trace + [e]) && ArchivesEarned(trace + [e])
    ensures Completions(trace + [e]) == Completions(trace) + (if e.Completed? then 1 else 0)
    ensures Current(loaded, trace + [e]) == if e.StatusWritten? then e.to else Current(loaded, trace)
    ensures ArchivedBefore(trace + [e], |trace| + 1) <==> ArchivedBefore(trace, |trace|) || e.ArchiveDone?
  {
    hide CanTransition, CanArchive;
    var t' := trace + [e];
    assert t'[..|trace|] == trace;
    forall i | 0 <= i < |trace| ensures t'[..i] == trace[..i] && ArchivedBefore(t', i) == ArchivedBefore(trace, i) {
      assert t'[..i] == trace[..i];
      if ArchivedBefore(trace, i) {
        var j :| 0 <= j < i && trace[j].ArchiveDone?;
        assert t'[j].ArchiveDone?;
      }
      if ArchivedBefore(t', i) {
        var j :| 0 <= j < i && t'[j].ArchiveDone?;
        assert trace[j].ArchiveDone?;
      }
    }
    if ArchivedBefore(trace, |trace|) {
      var j :| 0 <= j < |trace| && trace[j].ArchiveDone?;
      assert t'[j].ArchiveDone?;
    }
    if e.ArchiveDone? {
      assert t'[|trace|].ArchiveDone?;
    }
    if ArchivedBefore(t', |t'|) {
      var j :| 0 <= j < |t'| && t'[j].ArchiveDone?;
      assert j < |trace| ==> trace[j].ArchiveDone?;
    }
  }

  lemma {:induction false} CurrentWasWritten(loaded: Name, trace: seq<Event>) returns (k: nat)
    requires Current(loaded, trace) != loaded
    ensures k < |trace| && trace[k] == StatusWritten(Current(loaded, trace))
  {
    var n := |trace| - 1;
    if trace[n].StatusWritten? {
      k := n;
    } else {
      k := CurrentWasWritten(loaded, trace[..n]);
    }
  }

  /** A run that starts on an active change and takes the issue to done has first archived the change through
      every gate, then moved the issue to review, then to done. */
  lemma DoneWasEarned(loaded: Name, atStart: Change, trace: seq<Event>, i: nat) returns (j: nat, k: nat)
    requires LegalPath(loaded, trace) && GateHeld(atStart, trace) && ArchivesEarned(trace)
    requires atStart.status == Active && loaded != BuiltIn(InReview)
    requires i < |trace| && trace[i] == StatusWritten(BuiltIn(StatusMachine.Done))
    ensures j < k < i && trace[k] == StatusWritten(BuiltIn(InReview))
    ensures trace[j].ArchiveDone? && CanArchive(trace[j].before)
  {
    hide CanArchive;
    assert CanTransition(Current(loaded, trace[..i]), trace[i].to);
    assert Current(loaded, trace[..i]) == BuiltIn(InReview);
    k := CurrentWasWritten(loaded, trace[..i]);
    assert ArchivedBefore(trace, k);
    j :| 0 <= j < k && trace[j].ArchiveDone?;
  }

  lemma EmptyTrace(loaded: Name, atStart: Change)
    ensures Completions([]) == 0 && Current(loaded, []) == loaded
    ensures LegalPath(loaded, []) && GateHeld(atStart, []) && ArchivesEarned([]) && ArchivesReachable([])
  {
  }

  lemma ReachableGrows(trace: seq<Event>, e: Event)
    ensures ArchivesReachable(trace) && (e.ArchiveDone? ==> WorkflowRuns.Inv(e.before)) ==>
              ArchivesReachable(trace + [e])
  {
  }

  // ==== Every run ====

  /** Between turns: everything written so far was allowed, and a copy of the change that is not active means
      it was not active at the start or an archive has succeeded. */
  ghost predicate Safe(s: State, loaded: Name, atStart: Change) {
    && LegalPath(loaded, s.trace) && GateHeld(atStart, s.trace) && ArchivesEarned(s.trace)
    && s.issue == Current(loaded, s.trace)
    && (s.change.status != Active ==> atStart.status != Active || ArchivedBefore(s.trace, |s.trace|))
  }

  ghost predicate Sound(s: State) {
    WorkflowRuns.Inv(s.world.record) && ArchivesReachable(s.trace)
  }

  lemma ToolKeepsInv(r: Record, tool: Tool, wait: nat)
    requires WorkflowRuns.Inv(r)
    ensures tool.WriteArtifact? ==> WorkflowRuns.Inv(Step(r, Call(Write(tool.kind, tool.text), wait)))
    ensures tool.SubmitVerify? ==> WorkflowRuns.Inv(Step(r, Call(Op.SubmitVerify(tool.verdict), wait)))
    ensures WorkflowRuns.Inv(Step(r, Call(Advance, wait))) && WorkflowRuns.Inv(Step(r, Call(Archive, wait)))
  {
    hide WorkflowRuns.Inv, Step;
    WorkflowRuns.StepKeeps(r, Call(Advance, wait));
    WorkflowRuns.StepKeeps(r, Call(Archive, wait));
    if tool.WriteArtifact? {
      WorkflowRuns.StepKeeps(r, Call(Write(tool.kind, tool.text), wait));
    }
    if tool.SubmitVerify? {
      WorkflowRuns.StepKeeps(r, Call(Op.SubmitVerify(tool.verdict), wait));
    }
  }

  lemma AdvanceStaysActive(r: Record, wait: nat)
    ensures CanAdvance(r) ==> Step(r, Call(Advance, wait)).change.status == Active
  {
  }

  lemma AddEvent(s: State, e: Event, loaded: Name, atStart: Change)
    requires Safe(s, loaded, atStart)
    requires e.StatusWritten? ==> MayWrite(s.issue, s.change, e.to)
    requires e.ArchiveDone? ==> CanArchive(e.before)
    ensures LegalPath(loaded, s.trace + [e]) && GateHeld(atStart, s.trace + [e]) && ArchivesEarned(s.trace + [e])
    ensures Current(loaded, s.trace + [e]) == if e.StatusWritten? then e.to else s.issue
    ensures Completions(s.trace + [e]) == Completions(s.trace) + (if e.Completed? then 1 else 0)
    ensures ArchivedBefore(s.trace + [e], |s.trace| + 1) <==> ArchivedBefore(s.trace, |s.trace|) || e.ArchiveDone?
  {
    hide Completions, Current, LegalPath, GateHeld, ArchivesEarned, ArchivedBefore, CanTransition, CanArchive;
    TraceGrows(loaded, atStart, s.trace, e);
  }

  lemma ToolKeepsSafe(s: State, tool: Tool, wait: nat, loaded: Name, atStart: Change)
    requires Safe(s, loaded, atStart)
    ensures Safe(ToolStep(s, tool, wait), loaded, atStart)
    ensures Completions(ToolStep(s, tool, wait).trace) == Completions(s.trace)
  {
    hide Completions, Current, LegalPath, GateHeld, ArchivesEarned, ArchivedBefore, MayWrite, CanArchive, Blank, Step,
         CanAdvance;
    if tool.SetStatus? && MayWrite(s.issue, s.change, tool.to) {
      AddEvent(s, StatusWritten(tool.to), loaded, atStart);
    } else if tool.ArchiveChange? && CanArchive(s.world.record) {
      AddEvent(s, ArchiveDone(s.world.record), loaded, atStart);
    } else if tool.AdvancePhase? {
      AdvanceStaysActive(s.world.record, wait);
    }
  }

  lemma ToolKeepsSound(s: State, tool: Tool, wait: nat)
    requires Sound(s)
    ensures Sound(ToolStep(s, tool, wait))
  {
    hide MayWrite, CanArchive, Blank, Step, CanAdvance, WorkflowRuns.Inv, ArchivesReachable;
    ToolKeepsInv(s.world.record, tool, wait);
    if tool.SetStatus? {
      ReachableGrows(s.trace, StatusWritten(tool.to));
    }
    ReachableGrows(s.trace, ArchiveDone(s.world.record));
  }

  /** What holds between turns holds when the loop ends; every turn costs one completion. */
  lemma {:induction false} LoopKeeps(
    s: State, reply: nat -> Reply, others: (nat, World) -> World, turn: nat, last: nat, loaded: Name, atStart: Change)
    requires Safe(s, loaded, atStart) && turn <= last + 1
    ensures var f := Loop(s, reply, others, turn, last);
            && Safe(f.state, loaded, atStart)
            && Completions(f.state.trace) <= Completions(s.trace) + last + 1 - turn
            && (Sound(s) && KeepsInvariant(others) ==> Sound(f.state))
    decreases last + 1 - turn
  {
    hide Completions, Current, LegalPath, GateHeld, ArchivesEarned, ArchivedBefore, CanTransition, CanArchive,
         WorkflowRuns.Inv, Blank, ArchivesReachable, ToolStep;
    if turn <= last {
      var s1 := s.(trace := s.trace + [Completed], world := others(turn, s.world));
      AddEvent(s, Completed, loaded, atStart);
      ReachableGrows(s.trace, Completed);
      assert Safe(s1, loaded, atStart);
      assert Sound(s) && KeepsInvariant(others) ==> Sound(s1);
      var r := reply(turn);
      if r.UseTool? {
        ToolKeepsSafe(s1, r.tool, r.wait, loaded, atStart);
        if Sound(s1) {
          ToolKeepsSound(s1, r.tool, r.wait);
        }
      }
      hide Sound, KeepsInvariant;
      if !Ends(r) {
        LoopKeeps(TurnStep(s, r, others(turn, s.world)), reply, others, turn + 1, last, loaded, atStart);
      }
    }
  }

  /** Against any replies and any interference: at most `last` completions; the statuses written are a path of
      legal moves from the loaded one; none is in review or done unless the change was not active at the start
      or an archive succeeded before, and every archive that succeeded had passed all the guard's gates. */
  lemma EveryRun(world: World, comments: seq<string>, reply: nat -> Reply,
    others: (nat, World) -> World, last: nat)
    ensures var s := Loop(Begin(world, comments), reply, others, 1, last).state;
            && Completions(s.trace) <= last
            && LegalPath(world.status, s.trace) && s.issue == Current(world.status, s.trace)
            && GateHeld(world.record.change, s.trace) && ArchivesEarned(s.trace)
  {
    EmptyTrace(world.status, world.record.change);
    hide Completions, Current, LegalPath, GateHeld, ArchivesEarned, ArchivedBefore, Loop;
    LoopKeeps(Begin(world, comments), reply, others, 1, last, world.status, world.record.change);
  }

  /** When the other callers keep the workflow's invariant, every archive of the run left a change with the full
      chain of handoffs. */
  lemma EveryRunIsSound(world: World, comments: seq<string>, reply: nat -> Reply,
    others: (nat, World) -> World, last: nat)
    requires WorkflowRuns.Inv(world.record) && KeepsInvariant(others)
    ensures Sound(Loop(Begin(world, comments), reply, others, 1, last).state)
  {
    EmptyTrace(world.status, world.record.change);
    hide Completions, Current, LegalPath, GateHeld, ArchivesEarned, ArchivedBefore, Loop, WorkflowRuns.Inv,
         KeepsInvariant;
    LoopKeeps(Begin(world, comments), reply, others, 1, last, world.status, world.record.change);
  }

  /** The loop stops at the first reply that ends it, and only otherwise runs out of turns. */
  lemma {:induction false} EndsExactly(
    s: State, reply: nat -> Reply, others: (nat, World) -> World, turn: nat, last: nat)
    ensures var end := Loop(s, reply, others, turn, last).end;
            && (end == Exhausted <==>
                  forall t: nat :: turn <= t <= last ==> !(reply(t).ClientError? || reply(t).Final?))
            && forall t: nat ::
                 turn <= t <= last && (reply(t).ClientError? || reply(t).Final?)
                 && (forall u: nat :: turn <= u < t ==> !(reply(u).ClientError? || reply(u).Final?)) ==>
                 end == if reply(t).ClientError? then ClientFailed(t)
                        else if TrimSpace(reply(t).message) == "" then EmptyFinal else Answered
    decreases last + 1 - turn
  {
    hide TurnStep, TrimSpace;
    if turn <= last && !Ends(reply(turn)) {
      EndsExactly(TurnStep(s, reply(turn), others(turn, s.world)), reply, others, turn + 1, last);
    }
  }

  /** While no other caller writes the issue's status, the stored status is the run's copy, so every status write
      is a legal move of the stored status. */
  lemma {:induction false} StoredFollowsCopy(
    s: State, reply: nat -> Reply, others: (nat, World) -> World, turn: nat, last: nat)
    requires s.world.status == s.issue && forall t: nat, w: World :: others(t, w).status == w.status
    ensures var f := Loop(s, reply, others, turn, last); f.state.world.status == f.state.issue
    decreases last + 1 - turn
  {
    hide Step, Blank, CanAdvance, CanArchive, MayWrite;
    if turn <= last && !Ends(reply(turn)) {
      StoredFollowsCopy(TurnStep(s, reply(turn), others(turn, s.world)), reply, others, turn + 1, last);
    }
  }

  lemma ToolKeepsChangeCopy(s: State, tool: Tool, wait: nat)
    requires s.change == s.world.record.change
    ensures ToolStep(s, tool, wait).change == ToolStep(s, tool, wait).world.record.change
  {
    hide Blank, PhaseLegal, HandoffFresh, VerifyPassed, MayWrite, CountKind;
  }

  /** While no other caller writes the change, the run's copy of it is the stored one, so the gate looks at what is
      stored. */
  lemma {:induction false} ChangeCopyIsStored(
    s: State, reply: nat -> Reply, others: (nat, World) -> World, turn: nat, last: nat)
    requires s.change == s.world.record.change && forall t: nat, w: World :: others(t, w).record == w.record
    ensures var f := Loop(s, reply, others, turn, last); f.state.change == f.state.world.record.change
    decreases last + 1 - turn
  {
    hide ToolStep, Blank, EndOf;
    if turn <= last {
      var meanwhile := others(turn, s.world);
      var r := reply(turn);
      if r.UseTool? {
        ToolKeepsChangeCopy(s.(trace := s.trace + [Completed], world := meanwhile), r.tool, r.wait);
      }
      if !Ends(r) {
        ChangeCopyIsStored(TurnStep(s, r, meanwhile), reply, others, turn + 1, last);
      }
    }
  }

  // ==== What a run leaves behind ====

  /** The comment a reply posts: a final message or a comment, unless it is blank. */
  function PostedBy(r: Reply): seq<string> {
    if r.Final? && TrimSpace(r.message) != "" then [r.message]
    else if r.UseTool? && r.tool.PostComment? && TrimSpace(r.tool.text) != "" then [r.tool.text]
    else []
  }

  function Posted(reply: nat -> Reply, turn: nat, last: nat): seq<string>
    decreases last + 1 - turn
  {
    if turn > last then []
    else if reply(turn).ClientError? || reply(turn).Final? then PostedBy(reply(turn))
    else PostedBy(reply(turn)) + Posted(reply, turn + 1, last)
  }

  /** The comments of a run are exactly those its replies post, in order. */
  lemma {:induction false} CommentsExactly(
    s: State, reply: nat -> Reply, others: (nat, World) -> World, turn: nat, last: nat)
    ensures Loop(s, reply, others, turn, last).state.comments == s.comments + Posted(reply, turn, last)
    decreases last + 1 - turn
  {
    hide Step, TrimSpace, CanAdvance, CanArchive, MayWrite;
    if turn <= last && !Ends(reply(turn)) {
      CommentsExactly(TurnStep(s, reply(turn), others(turn, s.world)), reply, others, turn + 1, last);
    }
  }

  /** The workflow call a tool stands for. */
  function CallOf(r: Reply): seq<Call> {
    if !r.UseTool? then []
    else
      match r.tool
      case WriteArtifact(kind, text) => [Call(Write(kind, text), r.wait)]
      case SubmitVerify(verdict) => [Call(Op.SubmitVerify(verdict), r.wait)]
      case AdvancePhase => [Call(Advance, r.wait)]
      case ArchiveChange => [Call(Archive, r.wait)]
      case _ => []
  }

  function CallsOf(reply: nat -> Reply, turn: nat, last: nat): seq<Call>
    decreases last + 1 - turn
  {
    if turn > last || reply(turn).ClientError? || reply(turn).Final? then []
    else CallOf(reply(turn)) + CallsOf(reply, turn + 1, last)
  }

  lemma TurnIsCalls(s: State, r: Reply, meanwhile: World)
    ensures TurnStep(s, r, meanwhile).world.record == WorkflowRuns.Run(meanwhile.record, CallOf(r))
  {
    hide Step, Blank, CanAdvance, CanArchive, MayWrite;
    if r.UseTool? && CallOf(r) != [] {
      WorkflowRuns.RunOne(meanwhile.record, CallOf(r)[0]);
    }
  }

  /** While nobody else writes the change, a run of the agent is a run of the workflow: its tools are the calls. */
  lemma {:induction false} LoopIsARun(
    s: State, reply: nat -> Reply, others: (nat, World) -> World, turn: nat, last: nat)
    requires forall t: nat, w: World :: others(t, w).record == w.record
    ensures Loop(s, reply, others, turn, last).state.world.record ==
            WorkflowRuns.Run(s.world.record, CallsOf(reply, turn, last))
    decreases last + 1 - turn
  {
    hide TurnStep, CallOf, EndOf, WorkflowRuns.Run;
    if turn <= last {
      var s' := TurnStep(s, reply(turn), others(turn, s.world));
      TurnIsCalls(s, reply(turn), others(turn, s.world));
      if Ends(reply(turn)) {
        NoCalls(reply(turn), s.world.record);
      } else {
        LoopIsARun(s', reply, others, turn + 1, last);
        WorkflowRuns.RunAppend(s.world.record, CallOf(reply(turn)), CallsOf(reply, turn + 1, last));
      }
    } else {
      NoCalls(ClientError, s.world.record);
    }
  }

  lemma NoCalls(r: Reply, record: Record)
    ensures Ends(r) ==> CallOf(r) == []
    ensures WorkflowRuns.Run(record, []) == record
  {
  }

  /** A status is written exactly when the move from the run's copy is legal and, while the run's copy of the change is
      active, it is neither review nor done. */
  lemma SetStatusExactly(s: State, to: Name, wait: nat)
    ensures ToolStep(s, SetStatus(to), wait) ==
              if s.issue.BuiltIn? && to.BuiltIn? && Legal(s.issue.category, to.category)
                 && (s.change.status == Active ==> to != BuiltIn(InReview) && to != BuiltIn(StatusMachine.Done))
              then s.(world := s.world.(status := to), issue := to, trace := s.trace + [StatusWritten(to)])
              else s
  {
  }

  function ArchiveThenFinish(t: nat): Reply {
    if t == 1 then UseTool(ArchiveChange, 0)
    else if t == 2 then UseTool(SetStatus(BuiltIn(InReview)), 0)
    else if t == 3 then UseTool(SetStatus(BuiltIn(StatusMachine.Done)), 0)
    else Final("done")
  }

  /** The gate is no dead end: when the change can be archived, three turns archive it and take the issue from in
      progress through review to done. */
  lemma GateOpens(world: World, comments: seq<string>, others: (nat, World) -> World, last: nat)
    requires CanArchive(world.record) && world.status == BuiltIn(InProgress) && last >= 3
    requires forall t: nat, w: World :: others(t, w) == w
    ensures var w := Loop(Begin(world, comments), ArchiveThenFinish, others, 1, last).state.world;
            w.status == BuiltIn(StatusMachine.Done) && w.record.change.status == Archived
  {
    hide PhaseLegal, HandoffFresh, VerifyPassed, Blank, Legal;
    LegalExactly(InProgress, InReview);
    LegalExactly(InReview, StatusMachine.Done);
    var s0 := Begin(world, comments);
    var s1 := TurnStep(s0, ArchiveThenFinish(1), world);
    var s2 := TurnStep(s1, ArchiveThenFinish(2), s1.world);
    var s3 := TurnStep(s2, ArchiveThenFinish(3), s2.world);
    assert s1.change.status == Archived && s3.world.status == BuiltIn(StatusMachine.Done);
    assert Loop(s0, ArchiveThenFinish, others, 1, last) == Loop(s1, ArchiveThenFinish, others, 2, last);
    assert Loop(s1, ArchiveThenFinish, others, 2, last) == Loop(s2, ArchiveThenFinish, others, 3, last);
    assert Loop(s2, ArchiveThenFinish, others, 3, last) == Loop(s3, ArchiveThenFinish, others, 4, last);
    FinalKeepsWorld(s3, others, last);
  }

  lemma FinalKeepsWorld(s: State, others: (nat, World) -> World, last: nat)
    requires forall t: nat, w: World :: others(t, w) == w
    ensures Loop(s, ArchiveThenFinish, others, 4, last).state.world == s.world
  {
    hide Blank;
  }

  // ==== The executor ====

  class Runner {
    const store: ChangeStore
    const maxTurns: nat
    var status: Name            // the stored issue's status
    var comments: seq<string>

    constructor (store: ChangeStore, status: Name, maxTurns: int)
      ensures this.store == store && this.status == status && comments == []
      ensures this.maxTurns == if maxTurns <= 0 then DEFAULT_MAX_TURNS else maxTurns
    {
      this.store, this.status, comments := store, status, [];
      this.maxTurns := if maxTurns <= 0 then DEFAULT_MAX_TURNS else maxTurns;
    }

    function Now(flow: ChangeService, iss: Name, change: Change, trace: seq<Event>): State
      reads this, flow
    {
      State(World(flow.record, status), iss, change, comments, trace)
    }

    /** runTool, on the run's own copies of the issue's status and the change. */
    method RunTool(flow: ChangeService, tool: Tool, wait: nat, iss: Name, change: Change, trace: seq<Event>)
      returns (iss': Name, change': Change, trace': seq<Event>)
      modifies this, flow
      ensures Now(flow, iss', change', trace') == ToolStep(old(Now(flow, iss, change, trace)), tool, wait)
    {
      hide Latest, CanTransition, Blank, PhaseLegal, HandoffFresh, VerifyPassed, Step;
      iss', change', trace' := iss, change, trace;
      match tool {
        case WriteArtifact(kind, text) => var _ := flow.WriteArtifact(kind, text, wait);
        case AdvancePhase =>
          var done := flow.AdvancePhase(wait);
          if done == Workflow.Outcome.Done { change' := flow.record.change; }
        case SubmitVerify(verdict) => var _ := flow.SubmitVerifyReport(verdict, wait);
        case ArchiveChange =>
          var seen := flow.record;
          var done := flow.ArchiveChange(wait);
          if done == Workflow.Outcome.Done {
            change' := flow.record.change;
            trace' := trace + [ArchiveDone(seen)];
          }
        case PostComment(text) =>
          if !Blank(text) { comments := comments + [text]; }
        case SetStatus(to) =>
          var gated := to == BuiltIn(InReview) || to == BuiltIn(StatusMachine.Done);
          if CanTransition(iss, to) && !(change.status == Active && gated) {
            status, iss', trace' := to, to, trace + [StatusWritten(to)];
          }
        case _ =>
      }
    }

    /** The change the run is anchored to: the issue's, or a fresh one. */
    function Anchor(now: int): Record
      reads store, store.change
    {
      if store.change == null then NewChange(now) else store.change.record
    }

    /** Execute: the run is anchored to the issue's change, started when there is none. */
    method Execute(now: int, reply: nat -> Reply, others: (nat, World) -> World) returns (end: End, trace: seq<Event>)
      modifies this, store, store.change
      ensures store.change != null
      ensures var f := Loop(Begin(World(old(Anchor(now)), old(status)), old(comments)), reply, others, 1, maxTurns);
              && end == f.end && World(store.change.record, status) == f.state.world
              && comments == f.state.comments && trace == f.state.trace
    {
      hide Blank, ToolStep, Step;
      var flow := store.EnsureChange(now);
      var iss, change := status, flow.record.change;
      trace := [];
      for turn := 1 to maxTurns + 1
        invariant store.change == flow && (flow == old(store.change) || fresh(flow))
        invariant Loop(Begin(World(old(Anchor(now)), old(status)), old(comments)), reply, others, 1, maxTurns) ==
                  Loop(Now(flow, iss, change, trace), reply, others, turn, maxTurns)
      {
        trace := trace + [Completed];
        var meanwhile := others(turn, World(flow.record, status));
        flow.record, status := meanwhile.record, meanwhile.status;
        var r := reply(turn);
        match r {
          case ClientError => return ClientFailed(turn), trace;
          case Unparsable =>
          case Final(message) =>
            if Blank(message) { return EmptyFinal, trace; }
            comments := comments + [message];
            return Answered, trace;
          case UseTool(tool, wait) =>
            iss, change, trace := RunTool(flow, tool, wait, iss, change, trace);
        }
      }
      return Exhausted, trace;
    }
  }
}
