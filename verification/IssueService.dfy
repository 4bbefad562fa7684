/** The issue service: create, update, transition and delete issues, with their timeline and the wakeups
    of parents whose children are all terminal. */
module IssueService {
  import opened Strings
  import opened StatusMachine
  import opened IssueForest
  import opened Wakeups
  import Timeline

  const PRIORITIES := {"none", "low", "medium", "high", "urgent"}

  /** A due date as it is given; the store keeps its day. */
  datatype Due = Due(day: int, time: int)

  datatype CreateInput = CreateInput(
    title: string, description: string, priority: string, assignee: string, due: Option<Due>,
    labels: seq<string>, parent: Option<Id>, stage: int)

  /** An update: None leaves the field alone; a due date cannot be cleared. */
  datatype UpdateInput = UpdateInput(
    title: Option<string>, description: Option<string>, priority: Option<string>, assignee: Option<string>,
    due: Option<Due>, labels: Option<seq<string>>, stage: Option<int>, position: Option<int>,
    parent: Option<Option<Id>>)

  datatype Error =
    | IssueNotFound | TitleRequired | UnknownPriority | AssigneeNotFound | OwnParent | ParentNotFound
    | ParentElsewhere | Cycle | BadStatus(error: StatusMachine.Error) | NotStored

  datatype Outcome = Ok(id: Id) | Rejected(error: Error)

  function Or<T>(given: Option<T>, otherwise: T): T {
    if given.Some? then given.value else otherwise
  }

  function DayOf(due: Option<Due>): Option<int> {
    if due.Some? then Some(due.value.day) else None
  }

  /** The issue with the given texts replaced. */
  function AppliedText(x: Issue, input: UpdateInput): Issue {
    x.(title := Or(input.title, x.title), description := Or(input.description, x.description),
       priority := Or(input.priority, x.priority), assignee := Or(input.assignee, x.assignee))
  }

  /** The issue with the given fields replaced. */
  function Applied(x: Issue, input: UpdateInput): Issue {
    AppliedText(x, input).(
      due := if input.due.Some? then DayOf(input.due) else x.due, labels := Or(input.labels, x.labels),
      stage := Or(input.stage, x.stage), position := Or(input.position, x.position),
      parent := Or(input.parent, x.parent))
  }

  /** Why a parent move is refused: the descendants of the issue are excluded by name, not by a walk. */
  ghost function ParentVerdict(m: Issues, id: Id, parent: Option<Id>): Option<Error>
    requires id in m
  {
    if parent.None? then None
    else if parent.value == id then Some(OwnParent)
    else if parent.value !in m then Some(ParentNotFound)
    else if m[parent.value].project != m[id].project then Some(ParentElsewhere)
    else if IsAncestor(m, id, parent.value) then Some(Cycle)
    else None
  }

  function TextVerdict(users: set<string>, input: UpdateInput): Option<Error> {
    if input.title.Some? && Blank(input.title.value) then Some(TitleRequired)
    else if input.priority.Some? && input.priority.value !in PRIORITIES then Some(UnknownPriority)
    else if input.assignee.Some? && !(input.assignee.value in users + {""}) then Some(AssigneeNotFound)
    else None
  }

  ghost function UpdateVerdict(m: Issues, users: set<string>, id: Id, input: UpdateInput): Option<Error> {
    if id !in m then Some(IssueNotFound)
    else if TextVerdict(users, input).Some? then TextVerdict(users, input)
    else if input.parent.Some? then ParentVerdict(m, id, input.parent.value)
    else None
  }

  /** Why a new issue is refused; the last reason is the issues table, which takes only built-in statuses. */
  function CreateVerdict(
    m: Issues, users: set<string>, dir: Directory, project: nat, input: CreateInput): Option<Error>
  {
    if Blank(input.title) then Some(TitleRequired)
    else if input.priority != "" && input.priority !in PRIORITIES then Some(UnknownPriority)
    else if input.assignee != "" && input.assignee !in users then Some(AssigneeNotFound)
    else if input.parent.Some? && input.parent.value !in m then Some(ParentNotFound)
    else if input.parent.Some? && m[input.parent.value].project != project then Some(ParentElsewhere)
    else if !DefaultStatus(dir).BuiltIn? then Some(NotStored)
    else None
  }

  /** The issue that an accepted input creates. */
  function NewIssue(dir: Directory, project: nat, input: CreateInput, position: int): Issue {
    Issue(project, input.parent, input.title, input.description,
          if input.priority == "" then "none" else input.priority, input.assignee, DayOf(input.due), input.labels,
          input.stage, position, DefaultStatus(dir))
  }

  /** A peer of a new issue: same project, parent and stage. */
  predicate Peer(x: Issue, project: nat, parent: Option<Id>, stage: int) {
    x.project == project && x.parent == parent && x.stage == stage
  }

  /** The position just after the last peer, 0 when there is none. */
  predicate IsNextPosition(m: Issues, project: nat, parent: Option<Id>, stage: int, pos: int) {
    && (forall id :: id in m && m[id].project == project && m[id].parent == parent && m[id].stage == stage ==>
          m[id].position < pos)
    && ((exists id :: id in m && m[id].project == project && m[id].parent == parent && m[id].stage == stage
                      && m[id].position == pos - 1)
        || (pos == 0 && forall id :: id in m ==>
              !(m[id].project == project && m[id].parent == parent && m[id].stage == stage)))
  }

  // ==== What the verdicts and the edits mean, field by field ====

  /** An update is accepted exactly when the issue exists and every given value passes its check; a refusal names the
      first check that fails. */
  lemma UpdateVerdictExactly(m: Issues, users: set<string>, id: Id, input: UpdateInput)
    ensures var v := UpdateVerdict(m, users, id, input);
            var title := input.title.Some? && TrimSpace(input.title.value) == "";
            var priority := input.priority.Some? && input.priority.value !in PRIORITIES;
            var assignee := input.assignee.Some? && input.assignee.value != "" && input.assignee.value !in users;
            var text := title || priority || assignee;
            if id !in m then v == Some(IssueNotFound)
            else if text || input.parent.None? || input.parent.value.None? then
              && (v == Some(TitleRequired) <==> title) && (v == Some(UnknownPriority) <==> !title && priority)
              && (v == Some(AssigneeNotFound) <==> !title && !priority && assignee) && (v == None <==> !text)
            else
              var p := input.parent.value.value;
              && (v == Some(OwnParent) <==> p == id) && (v == Some(ParentNotFound) <==> p != id && p !in m)
              && (v == Some(ParentElsewhere) <==> p != id && p in m && m[p].project != m[id].project)
              && (v == Some(Cycle) <==> p != id && p in m && m[p].project == m[id].project && IsAncestor(m, id, p))
              && (v == None <==> p != id && p in m && m[p].project == m[id].project && !IsAncestor(m, id, p))
  {
    hide TrimSpace;
  }

  /** The same for a new issue; besides, its initial status must be one the table takes. */
  lemma CreateVerdictExactly(m: Issues, users: set<string>, dir: Directory, project: nat, input: CreateInput)
    ensures var v := CreateVerdict(m, users, dir, project, input);
            var title := TrimSpace(input.title) == "";
            var priority := input.priority != "" && input.priority !in PRIORITIES;
            var assignee := input.assignee != "" && input.assignee !in users;
            var missing := input.parent.Some? && input.parent.value !in m;
            var elsewhere := input.parent.Some? && !missing && m[input.parent.value].project != project;
            && (v == Some(TitleRequired) <==> title) && (v == Some(UnknownPriority) <==> !title && priority)
            && (v == Some(AssigneeNotFound) <==> !title && !priority && assignee)
            && (v == Some(ParentNotFound) <==> !title && !priority && !assignee && missing)
            && (v == Some(ParentElsewhere) <==> !title && !priority && !assignee && elsewhere)
            && (v == None <==>
                  !title && !priority && !assignee && !missing && !elsewhere && DefaultStatus(dir).BuiltIn?)
  {
    hide TrimSpace, DefaultStatus;
  }

  /** `y` is `x` with each given field at the given value, a due date at its day, and everything else unchanged. */
  predicate TakesInput(x: Issue, input: UpdateInput, y: Issue) {
    && y.title == (if input.title.Some? then input.title.value else x.title)
    && y.description == (if input.description.Some? then input.description.value else x.description)
    && y.priority == (if input.priority.Some? then input.priority.value else x.priority)
    && y.assignee == (if input.assignee.Some? then input.assignee.value else x.assignee)
    && y.due == (if input.due.Some? then Some(input.due.value.day) else x.due)
    && y.labels == (if input.labels.Some? then input.labels.value else x.labels)
    && y.stage == (if input.stage.Some? then input.stage.value else x.stage)
    && y.position == (if input.position.Some? then input.position.value else x.position)
    && y.parent == (if input.parent.Some? then input.parent.value else x.parent)
    && y.project == x.project && y.status == x.status
  }

  lemma AppliedExactly(x: Issue, input: UpdateInput)
    ensures TakesInput(x, input, Applied(x, input))
  {
  }

  lemma NewIssueExactly(dir: Directory, project: nat, input: CreateInput, position: int)
    ensures var y := NewIssue(dir, project, input, position);
            && y.project == project && y.parent == input.parent && y.title == input.title
            && y.description == input.description && y.assignee == input.assignee && y.labels == input.labels
            && y.priority == (if input.priority == "" then "none" else input.priority)
            && y.due == (if input.due.Some? then Some(input.due.value.day) else None)
            && y.stage == input.stage && y.position == position && y.status == DefaultStatus(dir)
  {
    hide DefaultStatus;
  }

  /** The value an update gives a field, as an event shows it; None when the field is not given. */
  function Given(input: UpdateInput, f: Timeline.Field): Option<Timeline.Value> {
    match f
    case Title => if input.title.Some? then Some(Timeline.Text(input.title.value)) else None
    case Description => if input.description.Some? then Some(Timeline.Text(input.description.value)) else None
    case Priority => if input.priority.Some? then Some(Timeline.Text(input.priority.value)) else None
    case Assignee => if input.assignee.Some? then Some(Timeline.Text(input.assignee.value)) else None
    case DueDate => if input.due.Some? then Some(Timeline.Day(Some(input.due.value.day))) else None
    case Labels =>
      if input.labels.None? then None
      else Some(Timeline.Text(if input.labels.value == [] then "" else Join(input.labels.value, ',')))
    case Stage => if input.stage.Some? then Some(Timeline.Number(input.stage.value)) else None
    case Parent => if input.parent.Some? then Some(Timeline.Ref(input.parent.value)) else None
    case _ => None
  }

  /** The update gives the field a value that it does not have yet. */
  predicate Changes(x: Issue, input: UpdateInput, f: Timeline.Field) {
    match f
    case Title => input.title.Some? && input.title.value != x.title
    case Description => input.description.Some? && input.description.value != x.description
    case Priority => input.priority.Some? && input.priority.value != x.priority
    case Assignee => input.assignee.Some? && input.assignee.value != x.assignee
    case DueDate => input.due.Some? && Some(input.due.value.day) != x.due
    case Labels => input.labels.Some? && input.labels.value != x.labels
    case Stage => input.stage.Some? && input.stage.value != x.stage
    case Parent => input.parent.Some? && input.parent.value != x.parent
    case _ => false
  }

  /** One event for each field that changes, in order, from the value shown so far to the given one. */
  ghost predicate TellsUpdate(events: seq<Timeline.Event>, id: Id, x: Issue, input: UpdateInput) {
    && (forall e :: e in events ==>
          && e.issue == id && Changes(x, input, e.field)
          && e.old_ == Timeline.Display(x, e.field) && Given(input, e.field) == Some(e.new_))
    && (forall f :: Changes(x, input, f) ==> exists e :: e in events && e.field == f)
    && Timeline.InRankOrder(events)
  }

  lemma FieldOfUpdate(x: Issue, input: UpdateInput, f: Timeline.Field)
    requires f != Timeline.Created && f != Timeline.Status
    ensures Timeline.Differs(x, Applied(x, input), f) <==> Changes(x, input, f)
    ensures Changes(x, input, f) ==> Given(input, f) == Some(Timeline.Display(Applied(x, input), f))
  {
  }

  lemma UpdateIsTold(id: Id, x: Issue, input: UpdateInput)
    ensures TellsUpdate(Timeline.FieldEvents(id, x, Applied(x, input), Timeline.EDITABLE), id, x, input)
  {
    hide Timeline.FieldEvents, Timeline.Display, Timeline.Differs, Timeline.Rank, Applied, Given, Changes;
    var y := Applied(x, input);
    var events := Timeline.FieldEvents(id, x, y, Timeline.EDITABLE);
    Timeline.EditableRanked();
    Timeline.FieldEventsExactly(id, x, y, Timeline.EDITABLE);
    forall f | f != Timeline.Created && f != Timeline.Status
      ensures Timeline.Differs(x, y, f) <==> Changes(x, input, f)
      ensures Changes(x, input, f) ==> Given(input, f) == Some(Timeline.Display(y, f))
    {
      FieldOfUpdate(x, input, f);
    }
    NotEditable(x, input);
    forall f | Changes(x, input, f) ensures exists e :: e in events && e.field == f {
      assert Timeline.Event(id, f, Timeline.Display(x, f), Timeline.Display(y, f)) in events;
    }
  }

  lemma NotEditable(x: Issue, input: UpdateInput)
    ensures !Changes(x, input, Timeline.Created) && !Changes(x, input, Timeline.Status)
  {
  }

  // ==== Close intents of a merged pull request ====

  /** Exactly the named issues that are neither done nor cancelled become done. */
  lemma CloseAllExactly(m: Issues, keys: seq<Option<Id>>)
    ensures CloseAll(m, keys).Keys == m.Keys
    ensures forall id :: id in m ==>
              CloseAll(m, keys)[id] ==
                if Some(id) in keys && m[id].status != BuiltIn(Done) && m[id].status != BuiltIn(Cancelled)
                then m[id].(status := BuiltIn(Done)) else m[id]
  {
  }

  /** Each of them has exactly one event, from the status it had to done. */
  lemma {:induction false} CloseEventsExactly(m: Issues, keys: seq<Option<Id>>)
    ensures forall e :: e in CloseEvents(m, keys) <==>
              Closes(m, keys, e.issue) && e == Timeline.StatusEvent(e.issue, m[e.issue].status, BuiltIn(Done))
    ensures forall i, j :: 0 <= i < j < |CloseEvents(m, keys)| ==>
              CloseEvents(m, keys)[i].issue != CloseEvents(m, keys)[j].issue
  {
    hide IsTerminal;
    if keys != [] {
      var n := |keys| - 1;
      var rest := CloseEvents(m, keys[..n]);
      CloseEventsExactly(m, keys[..n]);
      assert keys == keys[..n] + [keys[n]];
      forall i | 0 <= i < |rest| && keys[n].Some? && keys[n] !in keys[..n] ensures rest[i].issue != keys[n].value {
        assert rest[i] in rest;
      }
    }
  }

  /** One status event per closed issue, at its first mention. */
  function CloseEvents(m: Issues, keys: seq<Option<Id>>): seq<Timeline.Event> {
    if keys == [] then []
    else
      var n := |keys| - 1;
      CloseEvents(m, keys[..n])
      + (if keys[n].Some? && Closes(m, keys, keys[n].value) && keys[n] !in keys[..n]
         then [Timeline.StatusEvent(keys[n].value, m[keys[n].value].status, BuiltIn(Done))]
         else [])
  }

  // ==== The service ====

  class Service {
    const dir: Directory
    const users: set<string>
    var issues: Issues
    var events: seq<Timeline.Event>
    var wakeups: set<(Id, Id)>
    var hooks: seq<(Id, Id)>
    var nextId: Id
    ghost var initial: map<Id, Issue>
    ghost var log: seq<Issues>  // the issues at the moment each hook fired

    /** The parents form a forest inside each project, the timeline replays to the current state, statuses are
        built-in, and every wakeup was recorded, and its hook fired, when all the parent's children were terminal. */
    ghost predicate Valid()
      reads this
    {
      && Forest(issues) && Timeline.Faithful(issues, events, initial) && Stored() && Recorded()
    }

    /** Statuses are built-in and ids are never used again. */
    ghost predicate Stored()
      reads this`issues, this`nextId, this`hooks
    {
      && (forall id :: id in issues ==> id < nextId && issues[id].status.BuiltIn?)
      && (forall w :: w in hooks ==> w.0 < nextId && w.1 < nextId)
    }

    ghost predicate Recorded()
      reads this`wakeups, this`hooks, this`log
    {
      && |log| == |hooks|
      && (forall i :: 0 <= i < |hooks| ==> FiredWhenDone(log[i], dir, hooks[i]))
      && (forall w :: w in wakeups ==> w in hooks)
    }

    ghost predicate WakeupsOnTrack()
      reads this`issues, this`wakeups, this`hooks
    {
      WakeupsTrack(issues, dir, wakeups, hooks)
    }

    constructor (dir: Directory, users: set<string>)
      ensures Valid() && issues == map[] && events == [] && wakeups == {} && hooks == []
      ensures this.dir == dir && this.users == users
      ensures WakeupsOnTrack()
    {
      this.dir, this.users := dir, users;
      issues, events, wakeups, hooks, nextId, initial, log := map[], [], {}, [], 0, map[], [];
    }

    /** NextIssuePosition. */
    method NextIssuePosition(project: nat, parent: Option<Id>, stage: int) returns (pos: int)
      ensures IsNextPosition(issues, project, parent, stage, pos)
    {
      var peers := set id | id in issues && Peer(issues[id], project, parent, stage);
      pos := 0;
      var seen: set<Id> := {};
      while peers - seen != {}
        invariant seen <= peers
        invariant forall id :: id in seen ==> issues[id].position < pos
        invariant if seen == {} then pos == 0 else exists id :: id in seen && issues[id].position == pos - 1
        decreases peers - seen
      {
        var id :| id in peers - seen;
        if seen == {} || issues[id].position >= pos {
          pos := issues[id].position + 1;
        }
        seen := seen + {id};
      }
    }

    /** The checks of a new issue, in order. */
    method CheckNew(project: nat, input: CreateInput) returns (error: Option<Error>)
      ensures error == CreateVerdict(issues, users, dir, project, input)
    {
      hide Blank, DefaultStatus;
      if Blank(input.title) { return Some(TitleRequired); }
      var priority := if input.priority == "" then "none" else input.priority;
      if priority !in PRIORITIES { return Some(UnknownPriority); }
      if input.assignee != "" && input.assignee !in users { return Some(AssigneeNotFound); }
      if input.parent.Some? {
        if input.parent.value !in issues { return Some(ParentNotFound); }
        if issues[input.parent.value].project != project { return Some(ParentElsewhere); }
      }
      if !DefaultStatus(dir).BuiltIn? { return Some(NotStored); }
      return None;
    }

    /** The row of a checked issue and its created event. */
    method InsertIssue(x: Issue) returns (id: Id)
      requires Valid() && x.status.BuiltIn?
      requires x.parent.Some? ==> x.parent.value in issues && issues[x.parent.value].project == x.project
      modifies this`issues, this`events, this`initial, this`nextId
      ensures Valid()
      ensures id !in old(issues) && issues == old(issues)[id := x]
      ensures events == old(events) + [Timeline.CreatedEvent(id, x.title)]
      ensures old(WakeupsOnTrack()) ==> (WakeupsOnTrack() <==> CreateKeeps(old(issues), dir, x))
    {
      hide Timeline.Faithful, Forest, WakeupsTrack, Recorded, CreateKeeps;
      id := nextId;
      CreateKeepsForest(issues, id, x);
      Timeline.CreateKeepsFaithful(issues, events, initial, id, x);
      if WakeupsOnTrack() {
        CreateTracksExactly(issues, dir, wakeups, hooks, id, x);
      }
      issues := issues[id := x];
      events := events + [Timeline.CreatedEvent(id, x.title)];
      initial := initial[id := x];
      nextId := nextId + 1;
    }

    method CreateIssue(project: nat, input: CreateInput) returns (r: Outcome)
      requires Valid()
      modifies this`issues, this`events, this`initial, this`nextId
      ensures Valid()
      ensures CreateVerdict(old(issues), users, dir, project, input) == if r.Ok? then None else Some(r.error)
      ensures r.Rejected? ==> unchanged(this)
      ensures r.Ok? ==>
                && r.id !in old(issues) && issues.Keys == old(issues).Keys + {r.id}
                && IsNextPosition(old(issues), project, input.parent, input.stage, issues[r.id].position)
                && issues == old(issues)[r.id := NewIssue(dir, project, input, issues[r.id].position)]
                && events == old(events) + [Timeline.CreatedEvent(r.id, input.title)]
      ensures r.Ok? ==>
                var y := issues[r.id];
                && y.project == project && y.parent == input.parent && y.title == input.title
                && y.description == input.description && y.assignee == input.assignee && y.labels == input.labels
                && y.priority == (if input.priority == "" then "none" else input.priority)
                && y.due == (if input.due.Some? then Some(input.due.value.day) else None)
                && y.stage == input.stage && y.status == DefaultStatus(dir)
      ensures r.Ok? && old(WakeupsOnTrack()) ==> (WakeupsOnTrack() <==> CreateKeeps(old(issues), dir, issues[r.id]))
    {
      hide NewIssue, CreateVerdict, CreateKeeps, IsNextPosition, WakeupsOnTrack, Valid;
      var refused := CheckNew(project, input);
      if refused.Some? { return Rejected(refused.value); }
      var pos := NextIssuePosition(project, input.parent, input.stage);
      NewIssueFits(issues, users, dir, project, input, pos);
      NewIssueExactly(dir, project, input, pos);
      var id := InsertIssue(NewIssue(dir, project, input, pos));
      return Ok(id);
    }

    /** validateNewParent: the walk up from the new parent, which only the forest makes finite. */
    method ValidateNewParent(id: Id, parent: Option<Id>) returns (error: Option<Error>)
      requires Valid() && id in issues
      ensures error == ParentVerdict(issues, id, parent)
    {
      if parent.None? { return None; }
      if parent.value == id { return Some(OwnParent); }
      if parent.value !in issues { return Some(ParentNotFound); }
      if issues[parent.value].project != issues[id].project { return Some(ParentElsewhere); }
      var ancestor := parent.value;
      ghost var k: nat := 0;
      ghost var depth: nat :| RootAfter(issues, ancestor, depth);
      ghost var above := depth;
      while issues[ancestor].parent.Some?
        invariant ancestor in issues && Up(issues, parent.value, k) == Some(ancestor)
        invariant RootAfter(issues, ancestor, depth) && depth + k == above
        invariant forall j: nat :: 1 <= j <= k ==> Up(issues, parent.value, j) != Some(id)
        decreases depth
      {
        UpStep(issues, parent.value, k, issues[ancestor].parent.value);
        if issues[ancestor].parent.value == id { return Some(Cycle); }
        ancestor := issues[ancestor].parent.value;
        k, depth := k + 1, depth - 1;
      }
      NoneAbove(issues, parent.value, above, id);
      return None;
    }

    /** The changed fields, in the order of their events. */
    method FieldChanges(before: Issue, after: Issue, input: UpdateInput) returns (changes: seq<Timeline.Field>)
      requires after == Applied(before, input)
      ensures changes == Timeline.ChangedFields(before, after, Timeline.EDITABLE)
    {
      hide Timeline.ChangedFields, Timeline.Differs, Timeline.Display, Applied;
      ChangedExactly(before, input);
      changes := [];
      if input.title.Some? && before.title != after.title { changes := changes + [Timeline.Title]; }
      Timeline.ChangedStep(before, after, 0);
      assert changes == Timeline.ChangedFields(before, after, Timeline.EDITABLE[..1]);
      if input.description.Some? && before.description != after.description {
        changes := changes + [Timeline.Description];
      }
      Timeline.ChangedStep(before, after, 1);
      assert changes == Timeline.ChangedFields(before, after, Timeline.EDITABLE[..2]);
      if input.priority.Some? && before.priority != after.priority { changes := changes + [Timeline.Priority]; }
      Timeline.ChangedStep(before, after, 2);
      assert changes == Timeline.ChangedFields(before, after, Timeline.EDITABLE[..3]);
      if input.assignee.Some? && before.assignee != after.assignee { changes := changes + [Timeline.Assignee]; }
      Timeline.ChangedStep(before, after, 3);
      assert changes == Timeline.ChangedFields(before, after, Timeline.EDITABLE[..4]);
      if input.due.Some? && before.due != after.due { changes := changes + [Timeline.DueDate]; }
      Timeline.ChangedStep(before, after, 4);
      assert changes == Timeline.ChangedFields(before, after, Timeline.EDITABLE[..5]);
      if input.labels.Some? && before.labels != after.labels { changes := changes + [Timeline.Labels]; }
      Timeline.ChangedStep(before, after, 5);
      assert changes == Timeline.ChangedFields(before, after, Timeline.EDITABLE[..6]);
      if input.stage.Some? && before.stage != after.stage { changes := changes + [Timeline.Stage]; }
      Timeline.ChangedStep(before, after, 6);
      assert changes == Timeline.ChangedFields(before, after, Timeline.EDITABLE[..7]);
      if input.parent.Some? && before.parent != after.parent { changes := changes + [Timeline.Parent]; }
      Timeline.ChangedStep(before, after, 7);
      assert changes == Timeline.ChangedFields(before, after, Timeline.EDITABLE[..8]);
      assert Timeline.EDITABLE[..8] == Timeline.EDITABLE;
    }

    /** recordFieldEvents: one event per changed field. */
    method RecordFieldEvents(id: Id, before: Issue, after: Issue, input: UpdateInput)
      requires after == Applied(before, input)
      modifies this`events
      ensures events == old(events) + Timeline.FieldEvents(id, before, after, Timeline.EDITABLE)
      ensures TellsUpdate(events[|old(events)|..], id, before, input)
    {
      hide Timeline.ChangedFields, Timeline.FieldEvents, Timeline.Display, TellsUpdate, Applied;
      UpdateIsTold(id, before, input);
      var changes := FieldChanges(before, after, input);
      Timeline.FieldEventsOfChanged(id, before, after, Timeline.EDITABLE);
      for i := 0 to |changes|
        invariant events == old(events) + Timeline.ChangeEvents(id, before, after, changes[..i])
      {
        assert changes[..i + 1][..i] == changes[..i];
        var f := changes[i];
        events := events + [Timeline.Event(id, f, Timeline.Display(before, f), Timeline.Display(after, f))];
      }
      assert changes[..|changes|] == changes;
      assert events[|old(events)|..] == Timeline.FieldEvents(id, before, after, Timeline.EDITABLE);
    }

    /** The copy with the given texts, each checked before it is taken. */
    method EditedText(x: Issue, input: UpdateInput) returns (updated: Issue, error: Option<Error>)
      ensures error == TextVerdict(users, input)
      ensures error.None? ==> updated == AppliedText(x, input)
    {
      hide Blank;
      updated, error := x, None;
      if input.title.Some? {
        if Blank(input.title.value) { return updated, Some(TitleRequired); }
        updated := updated.(title := input.title.value);
      }
      if input.description.Some? { updated := updated.(description := input.description.value); }
      if input.priority.Some? {
        if input.priority.value !in PRIORITIES { return updated, Some(UnknownPriority); }
        updated := updated.(priority := input.priority.value);
      }
      if input.assignee.Some? {
        if input.assignee.value != "" && input.assignee.value !in users { return updated, Some(AssigneeNotFound); }
        updated := updated.(assignee := input.assignee.value);
      }
    }

    /** The edited copy of an issue, before anything is written. */
    method Edited(id: Id, input: UpdateInput) returns (updated: Option<Issue>, error: Option<Error>)
      requires Valid()
      ensures error == UpdateVerdict(issues, users, id, input)
      ensures error.None? ==> id in issues && updated == Some(Applied(issues[id], input))
    {
      hide TextVerdict, Timeline.Faithful, Forest, ParentVerdict, Recorded, AppliedText;
      if id !in issues { return None, Some(IssueNotFound); }
      var x;
      x, error := EditedText(issues[id], input);
      if error.Some? { return None, error; }
      AppliedTextKeeps(issues[id], input);
      if input.due.Some? { x := x.(due := DayOf(input.due)); }
      if input.labels.Some? { x := x.(labels := input.labels.value); }
      if input.stage.Some? { x := x.(stage := input.stage.value); }
      if input.position.Some? { x := x.(position := input.position.value); }
      if input.parent.Some? {
        error := ValidateNewParent(id, input.parent.value);
        if error.Some? { return None, error; }
        x := x.(parent := input.parent.value);
      }
      return Some(x), None;
    }

    method UpdateIssue(id: Id, input: UpdateInput) returns (r: Outcome)
      requires Valid()
      modifies this`issues, this`events
      ensures Valid()
      ensures UpdateVerdict(old(issues), users, id, input) == if r.Ok? then None else Some(r.error)
      ensures r.Rejected? ==> unchanged(this)
      ensures r.Ok? ==>
                && r.id == id && id in old(issues)
                && issues == old(issues)[id := Applied(old(issues)[id], input)]
                && events == old(events) +
                     Timeline.FieldEvents(id, old(issues)[id], Applied(old(issues)[id], input), Timeline.EDITABLE)
      ensures r.Ok? ==> TakesInput(old(issues)[id], input, issues[id])
      ensures r.Ok? ==> TellsUpdate(events[|old(events)|..], id, old(issues)[id], input)
      ensures r.Ok? && old(WakeupsOnTrack()) ==>
                (WakeupsOnTrack() <==> MoveKeeps(old(issues), dir, wakeups, id, issues[id].parent))
    {
      hide Timeline.Faithful, Forest, ParentVerdict, UpdateVerdict, Timeline.FieldEvents, Applied, WakeupsTrack,
           MoveKeeps, Recorded, TellsUpdate, TakesInput;
      var updated, refused := Edited(id, input);
      if refused.Some? { return Rejected(refused.value); }
      var current := issues[id];
      AppliedExactly(current, input);
      UpdateKeepsForest(issues, users, id, input);
      AppliedKeepsStatus(current, input);
      Timeline.UpdateKeepsFaithful(issues, events, initial, id, updated.value);
      if WakeupsOnTrack() {
        MoveTracksExactly(issues, dir, wakeups, hooks, id, updated.value);
      }
      issues := issues[id := updated.value];
      RecordFieldEvents(id, current, updated.value, input);
      return Ok(id);
    }

    /** wakeParentIfChildrenTerminal. */
    method WakeParentIfChildrenTerminal(c: Id)
      requires Valid() && c in issues
      modifies this`wakeups, this`hooks, this`log
      ensures Recorded() && Stored()
      ensures if WakesParent(issues, dir, c)
              then
                && wakeups == old(wakeups) + {(issues[c].parent.value, c)}
                && hooks == old(hooks) + [(issues[c].parent.value, c)]
                && log == old(log) + [issues]
              else unchanged(this)
    {
      hide IsTerminalIn, IsTerminal, Rooted, Timeline.Faithful;
      ForestStores(issues, c);
      var child := issues[c];
      if child.parent.None? || !IsTerminal(child.status) { return; }
      var p := child.parent.value;
      var siblings := set x | x in issues && issues[x].project == child.project && issues[x].parent == Some(p);
      assert forall x :: x in issues && issues[x].parent == Some(p) ==> x in siblings;
      while siblings != {}
        invariant siblings <= issues.Keys
        invariant forall x :: x in issues && issues[x].parent == Some(p) && x !in siblings ==>
                    IsTerminalIn(dir, issues[x].status)
        invariant forall x :: x in siblings ==> issues[x].parent == Some(p)
        decreases siblings
      {
        var sibling :| sibling in siblings;
        if !IsTerminalIn(dir, issues[sibling].status) { return; }
        siblings := siblings - {sibling};
      }
      wakeups := wakeups + {(p, c)};
      hooks := hooks + [(p, c)];
      log := log + [issues];
    }

    method TransitionStatus(id: Id, to: Name) returns (r: Outcome)
      requires Valid()
      modifies this`issues, this`events, this`wakeups, this`hooks, this`log
      ensures Valid()
      ensures r.Ok? <==> id in old(issues) && TransitionIn(dir, old(issues)[id].status, to).Moved? && to.BuiltIn?
      ensures r.Rejected? ==> unchanged(this)
      ensures r.Rejected? ==>
                r.error == if id !in issues then IssueNotFound
                           else if TransitionIn(dir, issues[id].status, to).Moved? then NotStored
                           else BadStatus(TransitionIn(dir, issues[id].status, to).error)
      ensures r.Ok? ==>
                && issues == old(issues)[id := old(issues)[id].(status := to)]
                && events == old(events) + [Timeline.StatusEvent(id, old(issues)[id].status, to)]
                && (if WakesParent(issues, dir, id)
                    then
                      && wakeups == old(wakeups) + {(issues[id].parent.value, id)}
                      && hooks == old(hooks) + [(issues[id].parent.value, id)]
                      && log == old(log) + [issues]
                    else unchanged(this`wakeups) && unchanged(this`hooks) && unchanged(this`log))
      ensures r.Ok? && old(WakeupsOnTrack()) ==>
                (WakeupsOnTrack() <==> TransitionKeeps(old(issues), dir, old(wakeups), id, to))
    {
      hide Timeline.Faithful, Forest, TransitionIn, WakeupsTrack, Recorded, TransitionKeeps, WakesParent;
      if id !in issues { return Rejected(IssueNotFound); }
      var moved := TransitionIn(dir, issues[id].status, to);
      if moved.Refused? { return Rejected(BadStatus(moved.error)); }
      if !to.BuiltIn? { return Rejected(NotStored); }
      var from := issues[id].status;
      StatusWriteKeeps(issues, events, initial, id, to);
      ForestStores(issues, id);
      if WakeupsOnTrack() {
        TransitionTracksExactly(issues, dir, wakeups, hooks, id, to);
      }
      issues := issues[id := issues[id].(status := to)];
      events := events + [Timeline.StatusEvent(id, from, to)];
      WakeParentIfChildrenTerminal(id);
      return Ok(id);
    }

    /** The cascade of the parent key: the issue, its children, their children and so on. */
    method Cascade(id: Id) returns (gone: set<Id>)
      requires Valid() && id in issues
      ensures forall x :: x in gone <==> x in issues && InSubtree(issues, id, x)
    {
      gone := {id};
      var next := set x | x in issues && x !in gone && issues[x].parent.Some? && issues[x].parent.value in gone;
      while next != {}
        invariant id in gone && gone <= issues.Keys
        invariant forall x :: x in gone ==> InSubtree(issues, id, x)
        invariant next == set x | x in issues && x !in gone && issues[x].parent.Some? && issues[x].parent.value in gone
        decreases issues.Keys - gone
      {
        forall x | x in next ensures InSubtree(issues, id, x) {
          ChildInSubtree(issues, id, x);
        }
        var x :| x in next;
        gone := gone + next;
        next := set x | x in issues && x !in gone && issues[x].parent.Some? && issues[x].parent.value in gone;
      }
      forall x | x in issues && InSubtree(issues, id, x) ensures x in gone {
        assert forall y :: y in issues && issues[y].parent.Some? && issues[y].parent.value in gone ==>
                 y in gone || y in next;
        if x != id {
          var k: nat :| k >= 1 && Up(issues, x, k) == Some(id);
          SubtreeClosed(issues, id, gone, x, k);
        }
      }
    }

    /** The issue goes with its whole subtree, their events and every wakeup that names one of them. */
    method DeleteIssue(id: Id) returns (r: Outcome)
      requires Valid()
      modifies this`issues, this`events, this`wakeups, this`initial
      ensures Valid()
      ensures r == if id in old(issues) then Ok(id) else Rejected(IssueNotFound)
      ensures r.Rejected? ==> unchanged(this)
      ensures r.Ok? ==>
                && (forall x :: x in issues <==> x in old(issues) && !InSubtree(old(issues), id, x))
                && (forall x :: x in issues ==> issues[x] == old(issues)[x])
                && events == Timeline.Without(old(events), old(issues).Keys - issues.Keys)
                && wakeups == Remaining(issues, old(wakeups))
      ensures r.Ok? && old(WakeupsOnTrack()) ==> (WakeupsOnTrack() <==> DeleteKeeps(old(issues), dir, old(wakeups), id))
    {
      hide Timeline.Faithful, Forest, InSubtree, Timeline.Without, Without, Remaining, WakeupsTrack, DeleteKeeps;
      if id !in issues { return Rejected(IssueNotFound); }
      var gone := Cascade(id);
      RemovalKeeps(issues, events, initial, wakeups, id, gone);
      if WakeupsOnTrack() {
        DeleteTracksExactly(issues, dir, wakeups, hooks, id, gone);
      }
      issues := Without(issues, gone);
      events := Timeline.Without(events, gone);
      wakeups := Remaining(issues, wakeups);
      initial := Without(initial, gone);
      return Ok(id);
    }

    predicate ClosesNow(key: Option<Id>)
      reads this`issues
    {
      key.Some? && key.value in issues && !IsTerminal(issues[key.value].status)
    }

    /** One key: an issue that is not terminal by name becomes done, with its event. */
    method CloseKey(key: Option<Id>)
      requires Valid()
      modifies this`issues, this`events
      ensures Valid()
      ensures if old(ClosesNow(key))
              then
                && issues == old(issues)[key.value := old(issues)[key.value].(status := BuiltIn(Done))]
                && events == old(events) +
                     [Timeline.StatusEvent(key.value, old(issues)[key.value].status, BuiltIn(Done))]
              else unchanged(this)
    {
      hide Forest, Timeline.Faithful, Recorded;
      if key.Some? && key.value in issues && !IsTerminal(issues[key.value].status) {
        StatusWriteKeeps(issues, events, initial, key.value, BuiltIn(Done));
        var from := issues[key.value].status;
        issues := issues[key.value := issues[key.value].(status := BuiltIn(Done))];
        events := events + [Timeline.StatusEvent(key.value, from, BuiltIn(Done))];
      }
    }

    /** applyCloseIntents of the pull request service, on the issues the keys resolve to. */
    method ApplyCloseIntents(keys: seq<Option<Id>>)
      requires Valid()
      modifies this`issues, this`events
      ensures Valid()
      ensures issues == CloseAll(old(issues), keys)
      ensures issues.Keys == old(issues).Keys
      ensures forall id :: id in issues ==>
                issues[id] ==
                  if Some(id) in keys && old(issues)[id].status != BuiltIn(Done)
                     && old(issues)[id].status != BuiltIn(Cancelled)
                  then old(issues)[id].(status := BuiltIn(Done)) else old(issues)[id]
      ensures events == old(events) + CloseEvents(old(issues), keys)
      ensures old(WakeupsOnTrack()) ==> (WakeupsOnTrack() <==> CloseKeeps(old(issues), dir, wakeups, keys))
    {
      CloseNone(issues);
      CloseAllExactly(issues, keys);
      hide Valid, WakeupsTrack, CloseKeeps, CloseAll, CloseEvents, IsTerminal;
      if WakeupsOnTrack() {
        CloseTracksExactly(issues, dir, wakeups, hooks, keys);
      }
      for i := 0 to |keys|
        invariant Valid()
        invariant issues == CloseAll(old(issues), keys[..i])
        invariant events == old(events) + CloseEvents(old(issues), keys[..i])
      {
        CloseStep(old(issues), keys, i);
        CloseKey(keys[i]);
      }
      assert keys[..|keys|] == keys;
    }
  }

  // ---- Steps of the methods above ----

  /** Nothing above `p` is `id` when no ancestor up to its root is. */
  lemma NoneAbove(m: Issues, p: Id, depth: nat, id: Id)
    requires RootAfter(m, p, depth) && forall j: nat :: 1 <= j <= depth ==> Up(m, p, j) != Some(id)
    ensures !IsAncestor(m, id, p)
  {
    if k: nat :| k >= 1 && Up(m, p, k) == Some(id) {
      RootAfterUp(m, p, depth, k);
    }
  }

  /** A field differs after an update exactly when it was given and is new. */
  lemma ChangedExactly(x: Issue, input: UpdateInput)
    ensures var y := Applied(x, input);
            && (Timeline.Differs(x, y, Timeline.EDITABLE[0]) <==> input.title.Some? && x.title != y.title)
            && (Timeline.Differs(x, y, Timeline.EDITABLE[1]) <==>
                  input.description.Some? && x.description != y.description)
            && (Timeline.Differs(x, y, Timeline.EDITABLE[2]) <==> input.priority.Some? && x.priority != y.priority)
            && (Timeline.Differs(x, y, Timeline.EDITABLE[3]) <==> input.assignee.Some? && x.assignee != y.assignee)
            && (Timeline.Differs(x, y, Timeline.EDITABLE[4]) <==> input.due.Some? && x.due != y.due)
            && (Timeline.Differs(x, y, Timeline.EDITABLE[5]) <==> input.labels.Some? && x.labels != y.labels)
            && (Timeline.Differs(x, y, Timeline.EDITABLE[6]) <==> input.stage.Some? && x.stage != y.stage)
            && (Timeline.Differs(x, y, Timeline.EDITABLE[7]) <==> input.parent.Some? && x.parent != y.parent)
  {
  }

  lemma ForestStores(m: Issues, id: Id)
    requires Forest(m) && id in m
    ensures ParentStored(m, id)
  {
  }

  lemma AppliedTextKeeps(x: Issue, input: UpdateInput)
    ensures var y := AppliedText(x, input);
            && y.due == x.due && y.labels == x.labels && y.stage == x.stage && y.position == x.position
            && y.parent == x.parent
  {
  }

  /** An accepted new issue satisfies what the forest and the store ask of it. */
  lemma NewIssueFits(m: Issues, users: set<string>, dir: Directory, project: nat, input: CreateInput, position: int)
    requires CreateVerdict(m, users, dir, project, input).None?
    ensures var x := NewIssue(dir, project, input, position);
            && x.status.BuiltIn? && x.title == input.title && x.position == position
            && (x.parent.Some? ==> x.parent.value in m && m[x.parent.value].project == x.project)
  {
    hide Blank;
  }

  lemma AppliedKeepsStatus(x: Issue, input: UpdateInput)
    ensures Applied(x, input).status == x.status && Applied(x, input).project == x.project
  {
  }

  lemma UpdateKeepsForest(m: Issues, users: set<string>, id: Id, input: UpdateInput)
    requires Forest(m) && UpdateVerdict(m, users, id, input).None?
    ensures Forest(m[id := Applied(m[id], input)])
  {
    hide Blank;
    var m' := m[id := Applied(m[id], input)];
    if input.parent.Some? {
      var moved := Reparent(m, id, input.parent.value);
      if input.parent.value.Some? {
        MoveKeepsForest(m, id, input.parent.value.value);
      } else {
        DetachKeepsForest(m, id);
      }
      SameParentsKeepForest(moved, m');
    } else {
      SameParentsKeepForest(m, m');
    }
  }

  /** The event of a status write replays it and touches no other field. */
  lemma StatusReplays(x: Issue, id: Id, to: Name, f: Timeline.Field)
    requires f != Timeline.Created
    ensures Timeline.Replay([Timeline.StatusEvent(id, x.status, to)], id, f, Timeline.Display(x, f)) ==
            Some(Timeline.Display(x.(status := to), f))
  {
    var added := [Timeline.StatusEvent(id, x.status, to)];
    assert added[..|added| - 1] == [];
  }

  lemma StatusWriteKeeps(m: Issues, events: seq<Timeline.Event>, initial: map<Id, Issue>, id: Id, to: Name)
    requires Forest(m) && Timeline.Faithful(m, events, initial) && id in m
    ensures Forest(m[id := m[id].(status := to)])
    ensures Timeline.Faithful(m[id := m[id].(status := to)],
              events + [Timeline.StatusEvent(id, m[id].status, to)], initial)
  {
    var after := m[id].(status := to);
    SameParentsKeepForest(m, m[id := after]);
    hide Forest, Timeline.Faithful, Timeline.Replay, Timeline.Display;
    forall f | f != Timeline.Created
      ensures Timeline.Replay([Timeline.StatusEvent(id, m[id].status, to)], id, f, Timeline.Display(m[id], f)) ==
              Some(Timeline.Display(after, f))
    {
      StatusReplays(m[id], id, to, f);
    }
    Timeline.WriteKeepsFaithful(m, events, initial, id, after, [Timeline.StatusEvent(id, m[id].status, to)]);
  }

  /** Removing a subtree with its events and wakeups. */
  lemma RemovalKeeps(
    m: Issues, events: seq<Timeline.Event>, initial: map<Id, Issue>, wakeups: set<(Id, Id)>, id: Id, gone: set<Id>)
    requires Forest(m) && Timeline.Faithful(m, events, initial) && id in m
    requires forall x :: x in gone <==> x in m && InSubtree(m, id, x)
    ensures Forest(Without(m, gone))
    ensures Timeline.Faithful(Without(m, gone), Timeline.Without(events, gone), Without(initial, gone))
    ensures forall x :: x in Without(m, gone) <==> x in m && !InSubtree(m, id, x)
    ensures forall x :: x in Without(m, gone) ==> Without(m, gone)[x] == m[x]
    ensures gone == m.Keys - Without(m, gone).Keys
    ensures Remaining(Without(m, gone), wakeups) <= wakeups
  {
    SubtreeShape(m, id, gone);
    DeleteKeepsForest(m, gone);
    Timeline.DeleteKeepsFaithful(m, events, initial, gone);
    hide Forest, Timeline.Faithful, Timeline.Without, InSubtree;
  }

  lemma CloseNone(m: Issues)
    ensures CloseAll(m, []) == m && CloseEvents(m, []) == []
  {
  }

  /** One key of the close intents. */
  lemma CloseStep(m: Issues, keys: seq<Option<Id>>, i: nat)
    requires i < |keys|
    ensures keys[..i + 1][..i] == keys[..i]
    ensures var now := CloseAll(m, keys[..i]);
            var key := keys[i];
            if key.Some? && key.value in now && !IsTerminal(now[key.value].status)
            then
              && CloseAll(m, keys[..i + 1]) == now[key.value := now[key.value].(status := BuiltIn(Done))]
              && CloseEvents(m, keys[..i + 1]) == CloseEvents(m, keys[..i])
                   + [Timeline.StatusEvent(key.value, now[key.value].status, BuiltIn(Done))]
            else
              && CloseAll(m, keys[..i + 1]) == now
              && CloseEvents(m, keys[..i + 1]) == CloseEvents(m, keys[..i])
  {
    var before, upto, key := keys[..i], keys[..i + 1], keys[i];
    assert upto[..i] == before && upto[i] == key;
    assert forall k :: k in upto <==> k in before || k == key;
  }
}
