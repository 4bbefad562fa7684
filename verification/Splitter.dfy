/** The AI split of one issue: generate, store and hand off the four phase artifacts, then bind the
    parsed tasks to new sub-issues. */
module Splitter {
  import opened Strings
  import opened Workflow
  import opened WorkflowRuns
  import IssueForest
  import IssueService
  import StatusMachine
  import TasksParser

  /** What the LLM answers to one completion request. */
  datatype Reply = LLMError | LLMText(text: string)

  datatype TaskMapping = TaskMapping(issueID: IssueForest.Id, title: string, stage: int, position: nat)

  /** The decoder, oracle and fault parameters of a split. */
  datatype Env = Env(
    maxRetries: int,
    replies: nat -> Reply,                                      // the k-th completion
    decode: string -> Option<seq<TasksParser.RawTask>>,         // the JSON decoder
    renders: Phase -> bool,                                     // whether the prompt template renders
    dir: StatusMachine.Directory,                               // the workspace's status directory
    creates: nat -> bool)                                       // whether the store takes the k-th sub-issue

  /** The task list a text parses to. */
  function TasksOf(env: Env, text: string): Option<seq<TasksParser.TaskSpec>> {
    TasksParser.Tasks(text, env.decode)
  }

  /** validateArtifact. */
  predicate ValidOutput(env: Env, kind: Phase, text: string) {
    if kind == Tasks then TasksOf(env, text).Some? else !Blank(text)
  }

  predicate GoodReply(env: Env, kind: Phase, k: nat) {
    env.replies(k).LLMText? && ValidOutput(env, kind, env.replies(k).text)
  }

  /** The `n` sub-issues after the first `from` are all created: their initial status can be stored and the store
      takes each of them. */
  ghost predicate CreatesAll(env: Env, from: nat, n: nat) {
    StatusMachine.DefaultStatus(env.dir).BuiltIn? && StoreTakes(env, from, n)
  }

  ghost predicate StoreTakes(env: Env, from: nat, n: nat) {
    forall k :: from <= k < from + n ==> env.creates(k)
  }

  /** One more sub-issue, or one that stops the rest. */
  lemma CreatesNext(env: Env, from: nat, k: nat, n: nat)
    requires k < n && (k > 0 ==> CreatesAll(env, from, k))
    ensures if CreatesAll(env, from + k, 1) then CreatesAll(env, from, k + 1) else !CreatesAll(env, from, n)
  {
    hide StatusMachine.DefaultStatus;
  }

  /** The first acceptable reply among `attempts` of them from `from` on. */
  function FirstGood(env: Env, kind: Phase, from: nat, attempts: int): (n: Option<nat>)
    ensures n.Some? ==> from <= n.value < from + attempts
    decreases attempts
  {
    if attempts <= 0 then None
    else if GoodReply(env, kind, from) then Some(from)
    else FirstGood(env, kind, from + 1, attempts - 1)
  }

  lemma {:induction false} FirstGoodIs(env: Env, kind: Phase, from: nat, attempts: int)
    ensures var n := FirstGood(env, kind, from, attempts);
            && (n.Some? ==> GoodReply(env, kind, n.value))
            && forall k: nat :: from <= k < (if n.Some? then n.value else from + attempts) ==> !GoodReply(env, kind, k)
    decreases attempts
  {
    hide GoodReply;
    if attempts > 0 && !GoodReply(env, kind, from) {
      FirstGoodIs(env, kind, from + 1, attempts - 1);
    }
  }

  /** A good reply with none before it is the first good one. */
  lemma FirstGoodWhen(env: Env, kind: Phase, from: nat, attempts: int, n: nat)
    requires from <= n && forall k: nat :: from <= k < n ==> !GoodReply(env, kind, k)
    ensures n < from + attempts && GoodReply(env, kind, n) ==> FirstGood(env, kind, from, attempts) == Some(n)
    ensures n >= from + attempts ==> FirstGood(env, kind, from, attempts) == None
  {
    hide GoodReply, FirstGood;
    FirstGoodIs(env, kind, from, attempts);
  }

  /** A reply is good exactly when it is a text: for the tasks phase one that parses to a task list, for the others one
      that is not blank. */
  lemma GoodReplyExactly(env: Env, kind: Phase, k: nat)
    ensures GoodReply(env, kind, k) <==>
              match env.replies(k)
              case LLMError => false
              case LLMText(text) =>
                if kind == Tasks then TasksParser.Tasks(text, env.decode).Some? else TrimSpace(text) != ""
  {
    hide TasksParser.Tasks, TrimSpace;
  }

  /** So the kept reply is the first of those within the attempts. */
  lemma FirstGoodExactly(env: Env, kind: Phase, from: nat, attempts: int, n: nat)
    ensures FirstGood(env, kind, from, attempts) == Some(n) <==>
              from <= n < from + attempts && GoodReply(env, kind, n)
              && forall k: nat :: from <= k < n ==> !GoodReply(env, kind, k)
  {
    hide GoodReply, FirstGood;
    FirstGoodIs(env, kind, from, attempts);
  }

  lemma GeneratedIsValid(env: Env, kind: Phase, from: nat, n: int)
    requires Some(n) == FirstGood(env, kind, from, env.maxRetries + 1)
    ensures n >= 0 && ValidOutput(env, kind, TextOf(env.replies(n)))
  {
    hide ValidOutput;
    FirstGoodIs(env, kind, from, env.maxRetries + 1);
  }

  function TextOf(r: Reply): string {
    if r.LLMText? then r.text else ""
  }

  function Prepended(first: seq<string>, rest: Option<seq<string>>): Option<seq<string>> {
    if rest.None? then None else Some(first + rest.value)
  }

  lemma PrependedTwice(first: seq<string>, text: string, rest: Option<seq<string>>)
    ensures Prepended(first, Prepended([text], rest)) == Prepended(first + [text], rest)
  {
    assert rest.Some? ==> first + ([text] + rest.value) == first + [text] + rest.value;
  }

  /** The texts of the phases from `idx` on, when every phase gets an acceptable reply within its attempts. */
  function TextsFrom(env: Env, idx: nat, from: nat): (texts: Option<seq<string>>)
    requires idx <= 4
    ensures texts.Some? ==> |texts.value| == 4 - idx
    decreases 4 - idx
  {
    if idx == 4 then Some([])
    else if !env.renders(ORDER[idx]) then None
    else
      var n := FirstGood(env, ORDER[idx], from, env.maxRetries + 1);
      if n.None? then None
      else Prepended([TextOf(env.replies(n.value))], TextsFrom(env, idx + 1, n.value + 1))
  }

  /** When a split succeeds: every phase is generated and every sub-issue of the task list can be created. */
  ghost predicate Succeeds(env: Env, from: nat, issues: nat) {
    && env.maxRetries >= 0
    && var texts := TextsFrom(env, 0, from);
       && texts.Some? && TasksOf(env, texts.value[3]).Some?
       && CreatesAll(env, issues, |TasksOf(env, texts.value[3]).value|)
  }

  /** What phase `idx` contributes when it runs from completion `from` with `issues` sub-issues already there. */
  ghost predicate PhaseSucceeds(env: Env, idx: nat, from: nat, issues: nat)
    requires idx < 4
  {
    && env.maxRetries >= 0 && env.renders(ORDER[idx])
    && var n := FirstGood(env, ORDER[idx], from, env.maxRetries + 1);
       && n.Some?
       && (idx == 3 ==> TasksOf(env, TextOf(env.replies(n.value))).Some?
                        && CreatesAll(env, issues, |TasksOf(env, TextOf(env.replies(n.value))).value|))
  }

  lemma NothingYet(env: Env, from: nat)
    ensures TextsFrom(env, 0, from) == Prepended([], TextsFrom(env, 0, from))
    ensures env.maxRetries < 0 ==> forall n: nat :: !Succeeds(env, from, n)
  {
    hide FirstGood, TasksOf;
    var rest := TextsFrom(env, 0, from);
    assert rest.Some? ==> [] + rest.value == rest.value;
  }

  lemma AllTexts(env: Env, texts: seq<string>, from: nat)
    ensures Prepended(texts, TextsFrom(env, 4, from)) == Some(texts)
  {
    assert texts + [] == texts;
  }

  /** The text of the next phase joins those there are; without it there are none. */
  lemma TextsStep(env: Env, texts: seq<string>, idx: nat, now: nat)
    requires idx < 4
    ensures var n := FirstGood(env, ORDER[idx], now, env.maxRetries + 1);
            if env.renders(ORDER[idx]) && n.Some?
            then Prepended(texts, TextsFrom(env, idx, now)) ==
                 Prepended(texts + [TextOf(env.replies(n.value))], TextsFrom(env, idx + 1, n.value + 1))
            else TextsFrom(env, idx, now) == None
  {
    hide FirstGood, TextOf, Prepended;
    var n := FirstGood(env, ORDER[idx], now, env.maxRetries + 1);
    if env.renders(ORDER[idx]) && n.Some? {
      PrependedTwice(texts, TextOf(env.replies(n.value)), TextsFrom(env, idx + 1, n.value + 1));
    }
  }

  /** A split whose phases so far gave `texts` can only succeed if its next phase does. */
  lemma PhaseDecides(env: Env, texts: seq<string>, idx: nat, from: nat, now: nat, issues: nat)
    requires idx < 4 && |texts| == idx
    requires env.maxRetries >= 0 ==> TextsFrom(env, 0, from) == Prepended(texts, TextsFrom(env, idx, now))
    ensures !PhaseSucceeds(env, idx, now, issues) ==> !Succeeds(env, from, issues)
    ensures PhaseSucceeds(env, idx, now, issues) ==>
              var n := FirstGood(env, ORDER[idx], now, env.maxRetries + 1).value;
              && TextsFrom(env, 0, from) == Prepended(texts + [TextOf(env.replies(n))], TextsFrom(env, idx + 1, n + 1))
              && (idx == 3 ==> Succeeds(env, from, issues))
  {
    hide TasksOf, FirstGood, CreatesAll, TextOf, TextsFrom;
    if env.maxRetries >= 0 {
      TextsStep(env, texts, idx, now);
      var n := FirstGood(env, ORDER[idx], now, env.maxRetries + 1);
      if idx == 3 && env.renders(ORDER[idx]) && n.Some? {
        AllTexts(env, texts + [TextOf(env.replies(n.value))], n.value + 1);
      }
    }
  }

  /** The issue is a child of `parent`, in its project, made from the task. */
  predicate ChildFor(m: IssueForest.Issues, id: IssueForest.Id, parent: IssueForest.Id, spec: TasksParser.TaskSpec) {
    && id in m && parent in m && m[id].parent == Some(parent) && m[id].project == m[parent].project
    && m[id].title == spec.title && m[id].description == spec.description && m[id].stage == spec.stage
  }

  /** One issue more, made from the task. */
  predicate Added(
    before: IssueForest.Issues, after: IssueForest.Issues, id: IssueForest.Id, parent: IssueForest.Id,
    spec: TasksParser.TaskSpec)
  {
    id !in before && id in after && after == before[id := after[id]] && ChildFor(after, id, parent, spec)
  }

  /** The mapping of the i-th task: in its place, to an issue that was not there before. */
  predicate MapsTask(
    mapping: TaskMapping, i: nat, spec: TasksParser.TaskSpec, before: IssueForest.Issues, after: IssueForest.Issues,
    parent: IssueForest.Id)
  {
    && mapping == TaskMapping(mapping.issueID, spec.title, spec.stage, i)
    && mapping.issueID !in before && ChildFor(after, mapping.issueID, parent, spec)
  }

  predicate Mapped(
    mappings: seq<TaskMapping>, specs: seq<TasksParser.TaskSpec>, before: IssueForest.Issues, after: IssueForest.Issues,
    parent: IssueForest.Id)
  {
    |mappings| == |specs| && forall i :: 0 <= i < |specs| ==> MapsTask(mappings[i], i, specs[i], before, after, parent)
  }

  predicate Distinct(mappings: seq<TaskMapping>) {
    forall i, j :: 0 <= i < j < |mappings| ==> mappings[i].issueID != mappings[j].issueID
  }

  predicate Kept(before: IssueForest.Issues, after: IssueForest.Issues) {
    forall id :: id in before ==> id in after && after[id] == before[id]
  }

  /** Every issue of `after` was there before or has a mapping. */
  predicate Covered(mappings: seq<TaskMapping>, before: IssueForest.Issues, after: IssueForest.Issues) {
    forall id :: id in after ==> id in before || exists i :: 0 <= i < |mappings| && mappings[i].issueID == id
  }

  /** Mappings bound to exactly the parsed tasks, in order, each to its own new child of the split issue; no other
      issue is new or changed. */
  predicate BoundTo(
    mappings: seq<TaskMapping>, specs: seq<TasksParser.TaskSpec>, before: IssueForest.Issues, after: IssueForest.Issues,
    parent: IssueForest.Id)
  {
    && Mapped(mappings, specs, before, after, parent) && Distinct(mappings)
    && Kept(before, after) && Covered(mappings, before, after)
  }

  lemma NothingBound(m: IssueForest.Issues, parent: IssueForest.Id)
    ensures BoundTo([], [], m, m, parent)
  {
  }

  lemma BoundGrows(
    mappings: seq<TaskMapping>, specs: seq<TasksParser.TaskSpec>, before: IssueForest.Issues, after: IssueForest.Issues,
    parent: IssueForest.Id)
    requires BoundTo(mappings, specs, before, after, parent)
    ensures Kept(before, after)
  {
  }

  lemma BoundValid(
    mappings: seq<TaskMapping>, specs: seq<TasksParser.TaskSpec>, before: IssueForest.Issues, after: IssueForest.Issues,
    parent: IssueForest.Id)
    requires BoundTo(mappings, specs, before, after, parent)
    requires forall i :: 0 <= i < |specs| ==> TasksParser.ValidSpec(specs[i])
    ensures |mappings| == |specs|
    ensures forall i :: 0 <= i < |mappings| ==> mappings[i].stage >= 1 && mappings[i].title != ""
  {
    forall i | 0 <= i < |mappings| ensures mappings[i].stage >= 1 && mappings[i].title != "" {
      assert MapsTask(mappings[i], i, specs[i], before, after, parent);
    }
  }

  lemma CoveredSnoc(
    mappings: seq<TaskMapping>, m: TaskMapping, before: IssueForest.Issues, now: IssueForest.Issues,
    after: IssueForest.Issues)
    requires Covered(mappings, before, now) && after.Keys == now.Keys + {m.issueID}
    ensures Covered(mappings + [m], before, after)
  {
    var all := mappings + [m];
    assert all[|mappings|] == m;
    forall y | y in after ensures y in before || exists i :: 0 <= i < |all| && all[i].issueID == y {
      if y in now && y !in before {
        var i :| 0 <= i < |mappings| && mappings[i].issueID == y;
        assert all[i].issueID == y;
      }
    }
  }

  lemma MappedSnoc(
    mappings: seq<TaskMapping>, specs: seq<TasksParser.TaskSpec>, before: IssueForest.Issues, now: IssueForest.Issues,
    after: IssueForest.Issues, parent: IssueForest.Id, m: TaskMapping, spec: TasksParser.TaskSpec)
    requires Mapped(mappings, specs, before, now, parent) && Kept(now, after)
    requires MapsTask(m, |specs|, spec, before, after, parent)
    ensures Mapped(mappings + [m], specs + [spec], before, after, parent)
  {
    forall i | 0 <= i < |mappings| ensures MapsTask(mappings[i], i, specs[i], before, after, parent) {
      assert MapsTask(mappings[i], i, specs[i], before, now, parent);
    }
    hide MapsTask;
  }

  lemma DistinctSnoc(
    mappings: seq<TaskMapping>, specs: seq<TasksParser.TaskSpec>, before: IssueForest.Issues, now: IssueForest.Issues,
    parent: IssueForest.Id, m: TaskMapping)
    requires Mapped(mappings, specs, before, now, parent) && Distinct(mappings) && m.issueID !in now
    ensures Distinct(mappings + [m])
  {
    forall i | 0 <= i < |mappings| ensures mappings[i].issueID != m.issueID {
      assert MapsTask(mappings[i], i, specs[i], before, now, parent);
    }
  }

  lemma BoundSnoc(
    mappings: seq<TaskMapping>, specs: seq<TasksParser.TaskSpec>, before: IssueForest.Issues, now: IssueForest.Issues,
    after: IssueForest.Issues, parent: IssueForest.Id, id: IssueForest.Id, spec: TasksParser.TaskSpec)
    requires BoundTo(mappings, specs, before, now, parent) && Added(now, after, id, parent, spec)
    ensures var all := mappings + [TaskMapping(id, spec.title, spec.stage, |specs|)];
            BoundTo(all, specs + [spec], before, after, parent)
  {
    var m := TaskMapping(id, spec.title, spec.stage, |specs|);
    hide Mapped, Distinct, Covered;
    MappedSnoc(mappings, specs, before, now, after, parent, m, spec);
    DistinctSnoc(mappings, specs, before, now, parent, m);
    CoveredSnoc(mappings, m, before, now, after);
  }

  lemma BoundNext(
    mappings: seq<TaskMapping>, list: seq<TasksParser.TaskSpec>, pos: nat, before: IssueForest.Issues,
    now: IssueForest.Issues, after: IssueForest.Issues, parent: IssueForest.Id, id: IssueForest.Id)
    requires pos < |list| && BoundTo(mappings, list[..pos], before, now, parent)
    requires Added(now, after, id, parent, list[pos])
    ensures var all := mappings + [TaskMapping(id, list[pos].title, list[pos].stage, pos)];
            BoundTo(all, list[..pos + 1], before, after, parent)
  {
    hide BoundTo, Added;
    BoundSnoc(mappings, list[..pos], before, now, after, parent, id, list[pos]);
    assert list[..pos + 1] == list[..pos] + [list[pos]] && |list[..pos]| == pos;
  }

  /** The guarded calls a split amounts to once the phases before `n` are written and handed off. */
  function SplitCalls(texts: seq<string>, n: nat): seq<Call>
    requires n <= |texts| <= 4
  {
    if n == 0 then []
    else SplitCalls(texts, n - 1) + [Call(Write(Doc(ORDER[n - 1]), texts[n - 1]), 0)] + [Call(Advance, 0)]
  }

  /** One artifact per phase below `n`, each version 1 with its text. */
  predicate OnePerPhase(r: Record, texts: seq<string>, n: nat) {
    && n <= 4 && |texts| == n && |r.artifacts| == n
    && forall i :: 0 <= i < n ==>
         r.artifacts[i].kind == Doc(ORDER[i]) && r.artifacts[i].version == 1 && r.artifacts[i].content == Text(texts[i])
  }

  lemma {:induction false} SplitCallsAgree(a: seq<string>, b: seq<string>, n: nat)
    requires n <= |a| <= 4 && n <= |b| <= 4 && forall i :: 0 <= i < n ==> a[i] == b[i]
    ensures SplitCalls(a, n) == SplitCalls(b, n)
  {
    if n > 0 {
      SplitCallsAgree(a, b, n - 1);
    }
  }

  lemma {:induction false} CountFresh(arts: seq<Artifact>, kind: Kind)
    requires forall i :: 0 <= i < |arts| ==> arts[i].kind != kind
    ensures CountKind(arts, kind) == 0
  {
    if arts != [] {
      CountFresh(arts[..|arts| - 1], kind);
    }
  }

  /** Storing the current phase's text keeps everything the guard will ask for. */
  lemma StoreText(r: Record, texts: seq<string>, idx: nat, text: string)
    requires idx < 4 && Inv(r) && r.change == Change(ORDER[idx], Active) && HandoffFresh(r, ORDER[idx])
    requires OnePerPhase(r, texts, idx)
    ensures var r' := AddArtifact(r, Doc(ORDER[idx]), Text(text), r.clock + 1);
      && Inv(r') && PhaseLegal(r', ORDER[idx]) && HandoffFresh(r', ORDER[idx])
      && OnePerPhase(r', texts + [text], idx + 1)
  {
    hide Inv, HandoffFresh, PhaseLegal, CountKind;
    AddKeeps(r, Doc(ORDER[idx]), Text(text), r.clock + 1);
    LegalAfterWrite(r, Text(text), r.clock + 1);
    FreshAfterWrite(r, Doc(ORDER[idx]), Text(text), r.clock + 1);
    CountFresh(r.artifacts, Doc(ORDER[idx]));
  }

  lemma FailKeeps(r: Record)
    requires Inv(r)
    ensures Inv(r.(change := r.change.(status := Failed)))
  {
  }

  /** The direct writes of the splitter are the two guarded calls write and advance. */
  lemma WriteThenAdvance(r: Record, calls: seq<Call>, now: int, kind: Phase, text: string, next: Phase)
    requires r == WorkflowRuns.Run(NewChange(now), calls)
    requires Inv(r) && r.change == Change(kind, Active) && HandoffFresh(r, kind) && !Blank(text)
    requires PhaseAfter(kind) == Some(next)
    ensures var r1 := AddArtifact(r, Doc(kind), Text(text), r.clock + 1);
      var r2 := r1.(change := r1.change.(phase := next),
                    handoffs := r1.handoffs + [Handoff(kind, next, r1.clock + 1)], clock := r1.clock + 1);
      WorkflowRuns.Run(NewChange(now), calls + [Call(Write(Doc(kind), text), 0)] + [Call(Advance, 0)]) == r2
  {
    hide Inv, HandoffFresh, PhaseLegal, Blank, CountKind;
    RunSnoc(NewChange(now), calls, Call(Write(Doc(kind), text), 0));
    RunSnoc(NewChange(now), calls + [Call(Write(Doc(kind), text), 0)], Call(Advance, 0));
    LegalAfterWrite(r, Text(text), r.clock + 1);
    FreshAfterWrite(r, Doc(kind), Text(text), r.clock + 1);
  }

  lemma HandedOff(r: Record, next: Phase)
    requires Inv(r) && r.change.status == Active && PhaseAfter(r.change.phase) == Some(next)
    requires PhaseLegal(r, r.change.phase) && HandoffFresh(r, r.change.phase)
    ensures var r2 := r.(change := r.change.(phase := next),
                    handoffs := r.handoffs + [Handoff(r.change.phase, next, r.clock + 1)], clock := r.clock + 1);
      Inv(r2) && HandoffFresh(r2, next)
  {
    hide Inv, HandoffFresh, PhaseLegal;
    AdvanceKeeps(r, 0);
    FreshAfterAdvance(r, 0);
  }

  lemma StartIsFresh(now: int)
    ensures Inv(NewChange(now)) && HandoffFresh(NewChange(now), Proposal)
    ensures WorkflowRuns.Run(NewChange(now), []) == NewChange(now)
  {
  }

  lemma EmptyHasNoTasks(env: Env)
    ensures TasksOf(env, "") == None
  {
    if TasksOf(env, "").Some? {
      ParsedNotBlank(env, "");
    }
  }

  lemma ParsedNotBlank(env: Env, text: string)
    requires TasksOf(env, text).Some?
    ensures !Blank(text)
  {
    hide Blank;
    TasksParser.TasksNotBlank(text, env.decode);
  }

  /** The split has written and handed off the phases before `idx`; `guarded` says its writes so far are
      calls the guard would have accepted. */
  ghost predicate Progress(r: Record, texts: seq<string>, idx: nat, now: int, guarded: bool) {
    && idx < 4 && r.change == Change(ORDER[idx], Active)
    && Inv(r) && HandoffFresh(r, ORDER[idx]) && OnePerPhase(r, texts, idx)
    && (guarded ==> r == WorkflowRuns.Run(NewChange(now), SplitCalls(texts, idx)))
  }

  ghost predicate Finished(r: Record, texts: seq<string>, now: int) {
    && r.change == Change(Tasks, Active)
    && Inv(r) && PhaseLegal(r, Tasks) && HandoffFresh(r, Tasks) && OnePerPhase(r, texts, 4)
    && r == WorkflowRuns.Run(NewChange(now), SplitCalls(texts, 3) + [Call(Write(Doc(Tasks), texts[3]), 0)])
  }

  function Stored(r: Record, text: string): Record {
    AddArtifact(r, Doc(r.change.phase), Text(text), r.clock + 1)
  }

  function HandOff(r: Record, next: Phase): Record {
    r.(change := r.change.(phase := next), handoffs := r.handoffs + [Handoff(r.change.phase, next, r.clock + 1)],
       clock := r.clock + 1)
  }

  lemma ProgressStart(now: int)
    ensures Progress(NewChange(now), [], 0, now, true)
  {
    StartIsFresh(now);
  }

  lemma ProgressStored(r: Record, texts: seq<string>, idx: nat, now: int, guarded: bool, text: string)
    requires Progress(r, texts, idx, now, guarded)
    ensures Stored(r, text).change == r.change
    ensures Inv(Stored(r, text)) && Inv(Stored(r, text).(change := r.change.(status := Failed)))
  {
    hide Inv, HandoffFresh, CountKind;
    StoreText(r, texts, idx, text);
    FailKeeps(Stored(r, text));
  }

  lemma ProgressStep(r: Record, texts: seq<string>, idx: nat, now: int, guarded: bool, text: string)
    requires Progress(r, texts, idx, now, guarded) && idx < 3 && (guarded ==> !Blank(text))
    ensures Progress(HandOff(Stored(r, text), ORDER[idx + 1]), texts + [text], idx + 1, now, guarded)
  {
    hide Inv, HandoffFresh, CountKind, PhaseLegal, Blank, SplitCalls, WorkflowRuns.Run, Step;
    StoreText(r, texts, idx, text);
    HandedOff(Stored(r, text), ORDER[idx + 1]);
    if guarded {
      WriteThenAdvance(r, SplitCalls(texts, idx), now, ORDER[idx], text, ORDER[idx + 1]);
      SplitCallsStep(texts, idx, text);
    }
  }

  lemma SplitCallsStep(texts: seq<string>, idx: nat, text: string)
    requires idx == |texts| < 4
    ensures SplitCalls(texts + [text], idx + 1) ==
            SplitCalls(texts, idx) + [Call(Write(Doc(ORDER[idx]), text), 0)] + [Call(Advance, 0)]
  {
    SplitCallsAgree(texts, texts + [text], idx);
  }

  lemma ProgressLast(r: Record, texts: seq<string>, now: int, text: string)
    requires Progress(r, texts, 3, now, true) && !Blank(text)
    ensures Finished(Stored(r, text), texts + [text], now)
  {
    hide Inv, HandoffFresh, CountKind, PhaseLegal, Blank;
    StoreText(r, texts, 3, text);
    SplitCallsAgree(texts, texts + [text], 3);
    RunSnoc(NewChange(now), SplitCalls(texts, 3), Call(Write(Doc(Tasks), text), 0));
  }

  /** The stored change of an issue, how many sub-issues were created for it and its task mappings; the issues
      themselves are those of the issue service. */
  class Split {
    const env: Env
    const service: IssueService.Service
    const issueId: IssueForest.Id
    var change: Option<Record>
    var completions: nat
    var created: nat
    var mappings: seq<TaskMapping>

    constructor (env: Env, service: IssueService.Service, issueId: IssueForest.Id)
      ensures this.env == env && this.service == service && this.issueId == issueId
      ensures change == None && completions == 0 && created == 0 && mappings == []
    {
      this.env, this.service, this.issueId := env, service, issueId;
      change, completions, created, mappings := None, 0, 0, [];
    }

    /** The service is in order, under the directory of the environment, and has the issue. */
    ghost predicate Ready()
      reads service
    {
      service.Valid() && service.dir == env.dir && issueId in service.issues
    }

    /** The stored change is the result of running the guarded calls with one text per phase, and the
        task mappings are those of the last text, on the issues there were before. */
    ghost predicate Completed(r: Record, now: int, texts: seq<string>, before: IssueForest.Issues)
      reads this, service
    {
      && |texts| == 4 && Finished(r, texts, now)
      && TasksOf(env, texts[3]).Some?
      && BoundTo(mappings, TasksOf(env, texts[3]).value, before, service.issues, issueId)
    }

    /** generatePhase: retries until a reply validates; with a negative retry count there is no attempt
        and no error, only an empty text. */
    method GeneratePhase(kind: Phase) returns (text: Option<string>)
      modifies this`completions
      ensures !env.renders(kind) ==> text == None && completions == old(completions)
      ensures env.renders(kind) && env.maxRetries < 0 ==> text == Some("") && completions == old(completions)
      ensures env.renders(kind) && env.maxRetries >= 0 ==>
        match FirstGood(env, kind, old(completions), env.maxRetries + 1)
        case Some(n) => text.Some? && env.replies(n) == LLMText(text.value) && completions == n + 1
        case None => text == None && completions == old(completions) + env.maxRetries + 1
    {
      hide GoodReply, FirstGood, ValidOutput, TasksOf, TextOf;
      if !env.renders(kind) {
        return None;
      }
      var failed := false;
      var attempt := 0;
      while attempt <= env.maxRetries
        invariant completions == old(completions) + attempt
        invariant 0 <= attempt && (env.maxRetries >= 0 ==> attempt <= env.maxRetries + 1)
        invariant (failed <==> attempt > 0) && (env.maxRetries < 0 ==> attempt == 0)
        invariant forall k :: old(completions) <= k < completions ==> !GoodReply(env, kind, k)
        decreases env.maxRetries - attempt
      {
        var reply := env.replies(completions);
        GoodReplyIs(env, kind, completions);
        completions := completions + 1;
        var valid := false;
        if reply.LLMText? {
          valid := ValidateArtifact(kind, reply.text);
        }
        if valid {
          FirstGoodWhen(env, kind, old(completions), env.maxRetries + 1, completions - 1);
          TextOfIs(reply);
          return Some(reply.text);
        }
        failed := true;
        attempt := attempt + 1;
      }
      FirstGoodWhen(env, kind, old(completions), env.maxRetries + 1, completions);
      return if failed then None else Some("");
    }

    lemma TextOfIs(reply: Reply)
      requires reply.LLMText?
      ensures TextOf(reply) == reply.text
    {
    }

    lemma GoodReplyIs(e: Env, kind: Phase, k: nat)
      ensures GoodReply(e, kind, k) <==> e.replies(k).LLMText? && ValidOutput(e, kind, e.replies(k).text)
    {
      hide ValidOutput;
    }

    method ValidateArtifact(kind: Phase, text: string) returns (ok: bool)
      ensures ok <==> ValidOutput(env, kind, text)
    {
      if kind == Tasks {
        var specs := TasksParser.ParseTasks(text, env.decode);
        return specs.Some?;
      }
      return !(TrimSpace(text) == "");
    }

    /** One sub-issue, created through the issue service under the split issue. */
    method CreateSubIssue(spec: TasksParser.TaskSpec) returns (id: Option<IssueForest.Id>)
      requires Ready() && !Blank(spec.title)
      modifies this`created, service
      ensures Ready()
      ensures id.Some? <==> CreatesAll(env, old(created), 1)
      ensures id.None? ==> created == old(created) && service.issues == old(service.issues)
      ensures id.Some? ==>
                created == old(created) + 1 && Added(old(service.issues), service.issues, id.value, issueId, spec)
    {
      hide Blank, StatusMachine.DefaultStatus, IssueService.Service.Valid, IssueService.IsNextPosition;
      if !env.creates(created) {
        return None;
      }
      var input := IssueService.CreateInput(
        spec.title, spec.description, "", "", None, [], Some(issueId), spec.stage);
      var r := service.CreateIssue(service.issues[issueId].project, input);
      if r.Rejected? {
        return None;
      }
      created := created + 1;
      return Some(r.id);
    }

    lemma ValidTitle(spec: TasksParser.TaskSpec)
      requires TasksParser.ValidSpec(spec)
      ensures !Blank(spec.title)
    {
      hide Blank;
    }

    /** One new sub-issue per task, in order, stopping at the first that fails. */
    method CreateSubIssues(list: seq<TasksParser.TaskSpec>) returns (items: Option<seq<TaskMapping>>)
      requires Ready() && forall i :: 0 <= i < |list| ==> TasksParser.ValidSpec(list[i])
      modifies this`created, service
      ensures Ready()
      ensures Kept(old(service.issues), service.issues)
      ensures list != [] ==> (items.Some? <==> CreatesAll(env, old(created), |list|))
      ensures items.Some? ==> BoundTo(items.value, list, old(service.issues), service.issues, issueId)
    {
      hide Ready, Blank, BoundTo, CreatesAll, Added, TasksParser.ValidSpec, Kept;
      var done: seq<TaskMapping> := [];
      ghost var before, from := service.issues, created;
      NothingBound(before, issueId);
      for pos := 0 to |list|
        invariant Ready() && created == from + pos
        invariant BoundTo(done, list[..pos], before, service.issues, issueId)
        invariant pos > 0 ==> CreatesAll(env, from, pos)
      {
        var spec := list[pos];
        ValidTitle(spec);
        ghost var now := service.issues;
        var id := CreateSubIssue(spec);
        CreatesNext(env, from, pos, |list|);
        if id.None? {
          BoundGrows(done, list[..pos], before, now, issueId);
          return None;
        }
        BoundNext(done, list, pos, before, now, service.issues, issueId, id.value);
        done := done + [TaskMapping(id.value, spec.title, spec.stage, pos)];
      }
      assert list[..|list|] == list;
      BoundGrows(done, list, before, service.issues, issueId);
      return Some(done);
    }

    /** bindTaskSubIssuesTo: one new sub-issue per parsed task, then the mapping set is replaced as a
        whole; on any error the old mappings stay, and sub-issues already created stay too. */
    method BindTaskSubIssues(content: string) returns (ok: bool)
      requires Ready()
      modifies this`created, this`mappings, service
      ensures Ready()
      ensures Kept(old(service.issues), service.issues)
      ensures !ok ==> mappings == old(mappings)
      ensures ok ==> TasksOf(env, content).Some?
      ensures TasksOf(env, content).Some? ==>
        (ok <==> CreatesAll(env, old(created), |TasksOf(env, content).value|))
      ensures ok ==> BoundTo(mappings, TasksOf(env, content).value, old(service.issues), service.issues, issueId)
      ensures ok ==>
        mappings != [] && forall i :: 0 <= i < |mappings| ==> mappings[i].stage >= 1 && mappings[i].title != ""
    {
      hide TasksParser.Tasks, TasksParser.JSONFence, Ready, Blank, BoundTo, ChildFor, TasksParser.ValidSpec, CreatesAll;
      var specs := TasksParser.ParseTasks(content, env.decode);
      if specs.None? {
        return false;
      }
      TasksParser.TasksAreValid(content, env.decode);
      ghost var before := service.issues;
      var items := CreateSubIssues(specs.value);
      if items.None? {
        return false;
      }
      BoundValid(items.value, specs.value, before, service.issues, issueId);
      mappings := items.value;
      return true;
    }

    method FailChange(r: Record)
      modifies this`change
      ensures change == Some(r.(change := r.change.(status := Failed)))
    {
      change := Some(r.(change := r.change.(status := Failed)));
    }

    /** Stores the text as the current phase's artifact. */
    method SaveArtifact(r: Record, text: string) returns (r': Record)
      modifies this`change
      ensures r' == Stored(r, text) && change == Some(r')
    {
      r' := AddArtifact(r, Doc(r.change.phase), Text(text), r.clock + 1);
      change := Some(r');
    }

    /** Records the handoff, then moves the change to the next phase. */
    method EnterPhase(r: Record, next: Phase) returns (r': Record)
      modifies this`change
      ensures r' == HandOff(r, next) && change == Some(r')
    {
      var handoff := Handoff(r.change.phase, next, r.clock + 1);
      r' := r.(handoffs := r.handoffs + [handoff], clock := r.clock + 1);
      r' := r'.(change := r'.change.(phase := next));
      change := Some(r');
    }

    /** Splitter.Run. */
    method Run(now: int) returns (ok: bool)
      requires service.Valid() && service.dir == env.dir
      modifies this, service
      ensures service.Valid()
      ensures Kept(old(service.issues), service.issues)
      // an unknown issue, or one that has a change
      ensures issueId !in old(service.issues) || old(change).Some? ==>
        && !ok && change == old(change) && completions == old(completions) && mappings == old(mappings)
        && service.issues == old(service.issues)
      // success: an active change at tasks that passed every gate on the way
      ensures ok ==> change.Some? && change.value.change == Change(Tasks, Active)
      ensures ok ==> Inv(change.value) && PhaseLegal(change.value, Tasks) && HandoffFresh(change.value, Tasks)
      ensures issueId in old(service.issues) && old(change).None? ==>
        (ok <==> Succeeds(env, old(completions), old(created)))
      ensures ok ==> Completed(change.value, now, TextsFrom(env, 0, old(completions)).value, old(service.issues))
      // failure: a failed change
      ensures issueId in old(service.issues) && old(change).None? && !ok ==>
        change.Some? && change.value.change.status == Failed && Inv(change.value) && mappings == old(mappings)
      // the LLM budget
      ensures env.maxRetries >= 0 ==> completions <= old(completions) + 4 * (env.maxRetries + 1)
      ensures env.maxRetries < 0 ==> completions == old(completions) && !ok
    {
      if issueId !in service.issues || change.Some? {
        return false;
      }
      hide Going, Succeeds, Completed, Inv, HandoffFresh, PhaseLegal, TextsFrom, IssueService.Service.Valid;
      var r := NewChange(now);
      change := Some(r);
      ghost var texts: seq<string> := [];
      ghost var before, from, had := service.issues, completions, created;
      Underway(r, now);
      for idx := 0 to 4
        invariant Going(r, idx, texts, now, from, had, before)
        invariant idx < 4 ==> unchanged(this`mappings)
      {
        var done, next;
        ghost var text;
        done, next, text := PhaseTurn(r, idx, texts, now, from, had, before);
        if !done {
          return false;
        }
        r := next;
        texts := texts + [text];
      }
      AllDone(r, texts, now, from, had, before);
      return true;
    }

    /** The state between two phases of a split that began at completion `from`, after `had` sub-issues, on the
        issues `before`. */
    ghost predicate Going(
      r: Record, idx: nat, texts: seq<string>, now: int, from: nat, had: nat, before: IssueForest.Issues)
      reads this, service
    {
      var guarded := env.maxRetries >= 0;
      && idx <= 4 && |texts| == idx && change == Some(r) && Ready()
      && (guarded ==> TextsFrom(env, 0, from) == Prepended(texts, TextsFrom(env, idx, completions)))
      && (if guarded then completions <= from + Budget(idx, env.maxRetries) else completions == from)
      && (if idx < 4 then Progress(r, texts, idx, now, guarded) && created == had && service.issues == before
          else guarded && Completed(r, now, texts, before) && Succeeds(env, from, had))
    }

    lemma Underway(r: Record, now: int)
      requires r == NewChange(now) && change == Some(r) && Ready()
      ensures Going(r, 0, [], now, completions, created, service.issues)
    {
      hide Progress, TextsFrom, Ready;
      ProgressStart(now);
      RelaxGuarded(r, [], 0, now, env.maxRetries >= 0);
      NothingYet(env, completions);
    }

    lemma AllDone(r: Record, texts: seq<string>, now: int, from: nat, had: nat, before: IssueForest.Issues)
      requires Going(r, 4, texts, now, from, had, before)
      ensures change == Some(r) && env.maxRetries >= 0 && completions <= from + 4 * (env.maxRetries + 1)
      ensures r.change == Change(Tasks, Active) && Inv(r) && PhaseLegal(r, Tasks) && HandoffFresh(r, Tasks)
      ensures Succeeds(env, from, had) && TextsFrom(env, 0, from) == Some(texts)
      ensures Completed(r, now, texts, before) && Ready() && Kept(before, service.issues)
    {
      CompletedGrows(r, now, texts, before);
      hide Completed, Inv, HandoffFresh, PhaseLegal, Succeeds, Ready;
      CompletedMeans(r, now, texts, before);
      BudgetIs(4, env.maxRetries);
      AllTexts(env, texts, completions);
    }

    /** One turn of Run's loop, with what it means for the whole split. */
    method PhaseTurn(
      r: Record, idx: nat, ghost texts: seq<string>, ghost now: int, ghost from: nat, ghost had: nat,
      ghost before: IssueForest.Issues)
      returns (ok: bool, r': Record, ghost text: string)
      requires idx < 4 && Going(r, idx, texts, now, from, had, before)
      modifies this, service
      ensures ok ==> Going(r', idx + 1, texts + [text], now, from, had, before)
      ensures !ok ==> Ready() && Kept(before, service.issues)
      ensures ok && idx < 3 ==> unchanged(this`mappings)
      ensures !ok ==> !Succeeds(env, from, had)
      ensures !ok ==>
        change.Some? && change.value.change.status == Failed && Inv(change.value) && unchanged(this`mappings)
      ensures !ok ==>
        if env.maxRetries >= 0 then completions <= from + 4 * (env.maxRetries + 1) else completions == from
    {
      hide Inv, Progress, Completed, Succeeds, TextsFrom, PhaseSucceeds, FirstGood, Prepended, Budget, Ready;
      BudgetGrows(idx, env.maxRetries);
      BudgetIs(4, env.maxRetries);
      PhaseDecides(env, texts, idx, from, completions, had);
      ok, r', text := RunPhase(r, idx, texts, now);
    }

    method RunPhase(r: Record, idx: nat, ghost texts: seq<string>, ghost now: int)
      returns (ok: bool, r': Record, ghost text: string)
      requires idx < 4 && change == Some(r) && Progress(r, texts, idx, now, env.maxRetries >= 0) && Ready()
      modifies this, service
      ensures Ready()
      ensures Kept(old(service.issues), service.issues)
      ensures env.maxRetries >= 0 ==> completions <= old(completions) + env.maxRetries + 1
      ensures env.maxRetries < 0 ==> completions == old(completions)
      ensures ok && env.maxRetries >= 0 ==> PhaseSucceeds(env, idx, old(completions), old(created))
      ensures PhaseSucceeds(env, idx, old(completions), old(created)) ==>
                ok && Some(completions - 1) == FirstGood(env, ORDER[idx], old(completions), env.maxRetries + 1)
                && text == TextOf(env.replies(completions - 1))
      ensures ok ==> change == Some(r')
      ensures !ok ==>
        change.Some? && change.value.change.status == Failed && Inv(change.value) && unchanged(this`mappings)
      ensures ok && idx < 3 ==>
        && Progress(r', texts + [text], idx + 1, now, env.maxRetries >= 0)
        && unchanged(this`created) && unchanged(service) && unchanged(this`mappings)
      ensures ok && idx == 3 ==> env.maxRetries >= 0 && Completed(r', now, texts + [text], old(service.issues))
    {
      hide FirstGood, Inv, HandoffFresh, PhaseLegal, TasksOf, Blank, Progress, Finished, BoundTo, CreatesAll,
           ValidOutput, Stored, HandOff, Ready;
      var kind := ORDER[idx];
      AtPhase(r, texts, idx, now, env.maxRetries >= 0);
      r', text := r, "";
      ghost var from := completions;
      var generated := GeneratePhase(kind);
      if generated.None? {
        FailChange(r);
        return false, r', text;
      }
      text := generated.value;
      ProgressStored(r, texts, idx, now, env.maxRetries >= 0, generated.value);
      r' := SaveArtifact(r, generated.value);
      if kind == Tasks {
        var bound := BindTaskSubIssues(generated.value);
        if !bound {
          FailChange(r');
          return false, r', text;
        }
        LastPhaseDone(env, r, texts, idx, now, env.maxRetries >= 0, generated.value);
      } else {
        if env.maxRetries >= 0 {
          GeneratedIsValid(env, kind, from, completions - 1);
        }
        ValidIsNotBlank(env, kind, generated.value);
        ProgressStep(r, texts, idx, now, env.maxRetries >= 0, generated.value);
        r' := EnterPhase(r', ORDER[idx + 1]);
      }
      return true, r', text;
    }

    lemma CompletedGrows(r: Record, now: int, texts: seq<string>, before: IssueForest.Issues)
      requires Completed(r, now, texts, before)
      ensures forall id :: id in before ==> id in service.issues && service.issues[id] == before[id]
    {
      hide Finished, TasksOf;
    }

    lemma CompletedMeans(r: Record, now: int, texts: seq<string>, before: IssueForest.Issues)
      requires Completed(r, now, texts, before)
      ensures r.change == Change(Tasks, Active) && Inv(r) && PhaseLegal(r, Tasks) && HandoffFresh(r, Tasks)
    {
      hide Inv;
    }
  }

  /** The completions that the first `n` phases may use. */
  function Budget(n: nat, maxRetries: int): int {
    if n == 0 then 0 else Budget(n - 1, maxRetries) + maxRetries + 1
  }

  lemma {:induction false} BudgetIs(n: nat, maxRetries: int)
    ensures Budget(n, maxRetries) == n * (maxRetries + 1)
  {
    if n > 0 {
      BudgetIs(n - 1, maxRetries);
    }
  }

  lemma BudgetGrows(n: nat, maxRetries: int)
    requires n < 4
    ensures maxRetries >= 0 ==> Budget(n, maxRetries) + maxRetries + 1 <= 4 * (maxRetries + 1)
    ensures Budget(n + 1, maxRetries) == Budget(n, maxRetries) + maxRetries + 1
  {
    BudgetIs(n, maxRetries);
    BudgetIs(n + 1, maxRetries);
  }

  lemma RelaxGuarded(r: Record, texts: seq<string>, idx: nat, now: int, guarded: bool)
    requires Progress(r, texts, idx, now, true)
    ensures Progress(r, texts, idx, now, guarded)
  {
  }

  lemma AtPhase(r: Record, texts: seq<string>, idx: nat, now: int, guarded: bool)
    requires Progress(r, texts, idx, now, guarded)
    ensures idx < 4 && r.change == Change(ORDER[idx], Active)
    ensures Inv(r) && Inv(r.(change := r.change.(status := Failed)))
  {
    hide Inv;
    FailKeeps(r);
  }

  /** A parsed task list completes the split; without any attempt the text is empty and has none. */
  lemma LastPhaseDone(env: Env, r: Record, texts: seq<string>, idx: nat, now: int, guarded: bool, text: string)
    requires idx < 4 && ORDER[idx] == Tasks && Progress(r, texts, idx, now, guarded)
    requires TasksOf(env, text).Some? && (!guarded ==> text == "")
    ensures guarded && idx == 3 && |texts| == 3 && Finished(Stored(r, text), texts + [text], now)
  {
    hide Inv, HandoffFresh, Finished, Stored, Blank, TasksOf;
    EmptyHasNoTasks(env);
    ParsedNotBlank(env, text);
    ProgressLast(r, texts, now, text);
  }

  lemma ValidIsNotBlank(env: Env, kind: Phase, text: string)
    requires kind != Tasks
    ensures ValidOutput(env, kind, text) <==> !Blank(text)
  {
  }
}
