/** The issue timeline: events that replay, field by field, to the issue's current state. */
module Timeline {
  import opened Strings
  import opened StatusMachine
  import opened IssueForest

  datatype Field = Created | Title | Description | Priority | Assignee | DueDate | Labels | Stage | Parent | Status

  /** An event value in display form; unset values display as empty. */
  datatype Value = Text(text: string) | Day(day: Option<int>) | Number(n: int) | Ref(id: Option<Id>) | Is(status: Name)

  datatype Event = Event(issue: Id, field: Field, old_: Value, new_: Value)

  function CreatedEvent(id: Id, title: string): Event {
    Event(id, Created, Text(""), Text(title))
  }

  function StatusEvent(id: Id, from: Name, to: Name): Event {
    Event(id, Status, Is(from), Is(to))
  }

  /** The fields an update can change, in the order their events are written. Position is not tracked. */
  const EDITABLE: seq<Field> := [Title, Description, Priority, Assignee, DueDate, Labels, Stage, Parent]

  /** How a field of an issue is displayed: labels joined by commas. */
  function Display(x: Issue, f: Field): Value {
    match f
    case Created => Text("")
    case Title => Text(x.title)
    case Description => Text(x.description)
    case Priority => Text(x.priority)
    case Assignee => Text(x.assignee)
    case DueDate => Day(x.due)
    case Labels => Text(if x.labels == [] then "" else Join(x.labels, ','))
    case Stage => Number(x.stage)
    case Parent => Ref(x.parent)
    case Status => Is(x.status)
  }

  /** Whether an editable field differs; labels are compared as a list, so their display may stay the same. */
  predicate Differs(x: Issue, y: Issue, f: Field) {
    match f
    case Labels => x.labels != y.labels
    case _ => Display(x, f) != Display(y, f)
  }

  // ---- Replaying ----

  /** The value of one field of one issue after the events, from `start`; None when some event's old value
      is not the value at that point. */
  function Replay(events: seq<Event>, id: Id, f: Field, start: Value): Option<Value> {
    if events == [] then Some(start)
    else
      var e := events[|events| - 1];
      var before := Replay(events[..|events| - 1], id, f, start);
      if e.issue == id && e.field == f then (if before == Some(e.old_) then Some(e.new_) else None) else before
  }

  predicate On(e: Event, id: Id, f: Field) {
    e.issue == id && e.field == f
  }

  lemma {:induction false} ReplayUntouched(events: seq<Event>, id: Id, f: Field, start: Value)
    requires forall i :: 0 <= i < |events| ==> !On(events[i], id, f)
    ensures Replay(events, id, f, start) == Some(start)
  {
    if events != [] {
      assert !On(events[|events| - 1], id, f);
      ReplayUntouched(events[..|events| - 1], id, f, start);
    }
  }

  /** A replay that succeeds has succeeded at every event, which starts where the events before it ended. */
  lemma {:induction false} ReplayBefore(events: seq<Event>, id: Id, f: Field, start: Value, j: nat)
    requires Replay(events, id, f, start).Some? && j < |events|
    ensures Replay(events[..j], id, f, start).Some?
    ensures On(events[j], id, f) ==> Replay(events[..j], id, f, start) == Some(events[j].old_)
  {
    var n := |events| - 1;
    if j < n {
      ReplayBefore(events[..n], id, f, start, j);
      assert events[..n][..j] == events[..j];
    }
  }

  /** The last event on the field gives the result. */
  lemma {:induction false} ReplayLast(events: seq<Event>, id: Id, f: Field, start: Value, j: nat)
    requires Replay(events, id, f, start).Some? && j < |events| && On(events[j], id, f)
    requires forall k :: j < k < |events| ==> !On(events[k], id, f)
    ensures Replay(events, id, f, start) == Some(events[j].new_)
  {
    var n := |events| - 1;
    if j < n {
      assert !On(events[n], id, f);
      ReplayLast(events[..n], id, f, start, j);
    }
  }

  predicate NoneBetween(events: seq<Event>, id: Id, f: Field, i: int, j: int) {
    forall k :: 0 <= k && i < k < j && k < |events| ==> !On(events[k], id, f)
  }

  /** A replay that succeeds is a chain: each event on the field starts where the previous one ended, the
      first starts at `start` and the last ends at the result. */
  lemma ReplayIsChain(events: seq<Event>, id: Id, f: Field, start: Value, j: nat)
    requires Replay(events, id, f, start).Some? && j < |events| && On(events[j], id, f)
    ensures NoneBetween(events, id, f, -1, j) ==> events[j].old_ == start
    ensures forall i :: 0 <= i < j && On(events[i], id, f) && NoneBetween(events, id, f, i, j) ==>
              events[i].new_ == events[j].old_
    ensures NoneBetween(events, id, f, j, |events|) ==> Replay(events, id, f, start) == Some(events[j].new_)
  {
    hide Replay, On;
    ReplayBefore(events, id, f, start, j);
    if NoneBetween(events, id, f, -1, j) {
      ReplayUntouched(events[..j], id, f, start);
    }
    forall i | 0 <= i < j && On(events[i], id, f) && NoneBetween(events, id, f, i, j)
      ensures events[i].new_ == events[j].old_
    {
      ReplayLast(events[..j], id, f, start, i);
    }
    if NoneBetween(events, id, f, j, |events|) {
      ReplayLast(events, id, f, start, j);
    }
  }

  lemma {:induction false} ReplayAppend(a: seq<Event>, b: seq<Event>, id: Id, f: Field, start: Value, mid: Value)
    requires Replay(a, id, f, start) == Some(mid)
    ensures Replay(a + b, id, f, start) == Replay(b, id, f, mid)
  {
    if b == [] {
      assert a + b == a;
    } else {
      var n := |b| - 1;
      assert (a + b)[..|a + b| - 1] == a + b[..n];
      ReplayAppend(a, b[..n], id, f, start, mid);
    }
  }

  function Without(events: seq<Event>, gone: set<Id>): seq<Event> {
    if events == [] then []
    else
      var rest := Without(events[..|events| - 1], gone);
      if events[|events| - 1].issue in gone then rest else rest + [events[|events| - 1]]
  }

  lemma {:induction false} ReplayWithout(events: seq<Event>, gone: set<Id>, id: Id, f: Field, start: Value)
    requires id !in gone
    ensures Replay(Without(events, gone), id, f, start) == Replay(events, id, f, start)
  {
    if events != [] {
      var n := |events| - 1;
      ReplayWithout(events[..n], gone, id, f, start);
      var rest := Without(events[..n], gone);
      assert (rest + [events[n]])[..|rest|] == rest;
    }
  }

  lemma {:induction false} WithoutKeeps(events: seq<Event>, gone: set<Id>)
    ensures forall e :: e in Without(events, gone) <==> e in events && e.issue !in gone
  {
    if events != [] {
      WithoutKeeps(events[..|events| - 1], gone);
      assert events == events[..|events| - 1] + [events[|events| - 1]];
    }
  }

  // ---- The events of one update ----

  /** One event per changed field, in the order of `fields`. */
  function FieldEvents(id: Id, before: Issue, after: Issue, fields: seq<Field>): seq<Event> {
    if fields == [] then []
    else
      var f := fields[|fields| - 1];
      FieldEvents(id, before, after, fields[..|fields| - 1])
      + (if Differs(before, after, f) then [Event(id, f, Display(before, f), Display(after, f))] else [])
  }

  lemma {:induction false} FieldEventsListed(id: Id, before: Issue, after: Issue, fields: seq<Field>)
    ensures forall e :: e in FieldEvents(id, before, after, fields) ==> e.issue == id && e.field in fields
  {
    hide Display;
    if fields != [] {
      var n := |fields| - 1;
      FieldEventsListed(id, before, after, fields[..n]);
      assert fields == fields[..n] + [fields[n]];
    }
  }

  /** Replaying an update's events takes every listed field from its old display to its new one. */
  lemma {:induction false} FieldEventsReplay(id: Id, before: Issue, after: Issue, fields: seq<Field>, f: Field)
    requires forall i, j :: 0 <= i < j < |fields| ==> fields[i] != fields[j]
    ensures Replay(FieldEvents(id, before, after, fields), id, f, Display(before, f)) ==
            Some(Display(if f in fields then after else before, f))
  {
    hide Display, Differs;
    if fields != [] {
      var n := |fields| - 1;
      var g := fields[n];
      var rest := FieldEvents(id, before, after, fields[..n]);
      FieldEventsReplay(id, before, after, fields[..n], f);
      assert f in fields <==> f in fields[..n] || f == g;
      assert g !in fields[..n];
      SameDisplay(before, after, g);
      var e := Event(id, g, Display(before, g), Display(after, g));
      assert (rest + [e])[..|rest + [e]| - 1] == rest;
      assert rest + [] == rest;
    }
  }

  /** The place of a field in the order of EDITABLE. */
  function Rank(f: Field): nat {
    match f
    case Title => 0
    case Description => 1
    case Priority => 2
    case Assignee => 3
    case DueDate => 4
    case Labels => 5
    case Stage => 6
    case Parent => 7
    case _ => 8
  }

  predicate Ranked(fields: seq<Field>) {
    forall i, j :: 0 <= i < j < |fields| ==> Rank(fields[i]) < Rank(fields[j])
  }

  predicate InRankOrder(events: seq<Event>) {
    forall i, j :: 0 <= i < j < |events| ==> Rank(events[i].field) < Rank(events[j].field)
  }

  /** Exactly the fields that differ have an event, one each and in order. */
  lemma {:induction false} FieldEventsExactly(id: Id, before: Issue, after: Issue, fields: seq<Field>)
    requires Ranked(fields)
    ensures InRankOrder(FieldEvents(id, before, after, fields))
    ensures forall e :: e in FieldEvents(id, before, after, fields) <==>
              e.field in fields && Differs(before, after, e.field)
              && e == Event(id, e.field, Display(before, e.field), Display(after, e.field))
  {
    hide Display, Differs, Rank;
    if fields != [] {
      var n := |fields| - 1;
      var rest := FieldEvents(id, before, after, fields[..n]);
      FieldEventsExactly(id, before, after, fields[..n]);
      assert fields == fields[..n] + [fields[n]];
      forall i | 0 <= i < |rest| ensures Rank(rest[i].field) < Rank(fields[n]) {
        assert rest[i] in rest;
      }
    }
  }

  lemma EditableRanked()
    ensures Ranked(EDITABLE)
    ensures forall f :: f in EDITABLE <==> f != Created && f != Status
  {
    assert EDITABLE[0] == Title && EDITABLE[1] == Description && EDITABLE[2] == Priority && EDITABLE[3] == Assignee;
    assert EDITABLE[4] == DueDate && EDITABLE[5] == Labels && EDITABLE[6] == Stage && EDITABLE[7] == Parent;
  }

  lemma SameDisplay(x: Issue, y: Issue, f: Field)
    ensures !Differs(x, y, f) ==> Display(x, f) == Display(y, f)
  {
  }

  /** One event per given field. */
  function ChangeEvents(id: Id, before: Issue, after: Issue, changes: seq<Field>): seq<Event> {
    if changes == [] then []
    else
      var f := changes[|changes| - 1];
      ChangeEvents(id, before, after, changes[..|changes| - 1]) + [Event(id, f, Display(before, f), Display(after, f))]
  }

  /** The fields that differ. */
  function ChangedFields(before: Issue, after: Issue, fields: seq<Field>): seq<Field> {
    if fields == [] then []
    else
      var f := fields[|fields| - 1];
      ChangedFields(before, after, fields[..|fields| - 1]) + (if Differs(before, after, f) then [f] else [])
  }

  lemma ChangedStep(before: Issue, after: Issue, k: nat)
    requires k < |EDITABLE|
    ensures ChangedFields(before, after, EDITABLE[..k + 1]) ==
            ChangedFields(before, after, EDITABLE[..k])
            + (if Differs(before, after, EDITABLE[k]) then [EDITABLE[k]] else [])
    ensures ChangedFields(before, after, EDITABLE[..0]) == []
  {
    assert EDITABLE[..k + 1][..k] == EDITABLE[..k];
  }

  lemma {:induction false} FieldEventsOfChanged(id: Id, before: Issue, after: Issue, fields: seq<Field>)
    ensures FieldEvents(id, before, after, fields) ==
            ChangeEvents(id, before, after, ChangedFields(before, after, fields))
  {
    hide Display, Differs;
    if fields != [] {
      var rest := fields[..|fields| - 1];
      FieldEventsOfChanged(id, before, after, rest);
      var cs := ChangedFields(before, after, rest);
      var f := fields[|fields| - 1];
      assert (cs + [f])[..|cs + [f]| - 1] == cs;
      assert cs + [] == cs;
    }
  }

  // ---- The invariant ----

  /** The events of every issue replay from its creation to its current state, for every field. */
  ghost predicate Faithful(m: Issues, events: seq<Event>, initial: map<Id, Issue>) {
    && m.Keys == initial.Keys
    && (forall i :: 0 <= i < |events| ==> events[i].issue in m)
    && (forall id, f :: id in m && f != Created ==>
          Replay(events, id, f, Display(initial[id], f)) == Some(Display(m[id], f)))
    && (forall id :: id in m ==> Replay(events, id, Created, Text("")) == Some(Text(initial[id].title)))
  }

  /** Writing one issue keeps the timeline faithful when the added events replay its change. */
  lemma WriteKeepsFaithful(
    m: Issues, events: seq<Event>, initial: map<Id, Issue>, id: Id, after: Issue, added: seq<Event>)
    requires Faithful(m, events, initial) && id in m
    requires forall i :: 0 <= i < |added| ==> added[i].issue == id && added[i].field != Created
    requires forall f :: f != Created ==> Replay(added, id, f, Display(m[id], f)) == Some(Display(after, f))
    ensures Faithful(m[id := after], events + added, initial)
  {
    hide Replay, Display;
    var m' := m[id := after];
    forall x, f | x in m' && f != Created
      ensures Replay(events + added, x, f, Display(initial[x], f)) == Some(Display(m'[x], f))
    {
      ReplayAppend(events, added, x, f, Display(initial[x], f), Display(m[x], f));
      if x != id {
        ReplayUntouched(added, x, f, Display(m[x], f));
      }
    }
    forall x | x in m' ensures Replay(events + added, x, Created, Text("")) == Some(Text(initial[x].title)) {
      ReplayAppend(events, added, x, Created, Text(""), Text(initial[x].title));
      ReplayUntouched(added, x, Created, Text(initial[x].title));
    }
  }

  lemma CreateKeepsFaithful(m: Issues, events: seq<Event>, initial: map<Id, Issue>, id: Id, x: Issue)
    requires Faithful(m, events, initial) && id !in m
    ensures Faithful(m[id := x], events + [CreatedEvent(id, x.title)], initial[id := x])
  {
    hide Display;
    var e := Event(id, Created, Text(""), Text(x.title));
    var m', events', initial' := m[id := x], events + [e], initial[id := x];
    assert events'[..|events'| - 1] == events;
    forall y, f | y in m' && f != Created
      ensures Replay(events', y, f, Display(initial'[y], f)) == Some(Display(m'[y], f))
    {
      if y == id {
        ReplayUntouched(events, y, f, Display(x, f));
      }
    }
    forall y | y in m' ensures Replay(events', y, Created, Text("")) == Some(Text(initial'[y].title)) {
      if y == id {
        ReplayUntouched(events, y, Created, Text(""));
      }
    }
  }

  lemma DeleteKeepsFaithful(m: Issues, events: seq<Event>, initial: map<Id, Issue>, gone: set<Id>)
    requires Faithful(m, events, initial)
    ensures Faithful(IssueForest.Without(m, gone), Without(events, gone), IssueForest.Without(initial, gone))
  {
    WithoutKeeps(events, gone);
    var kept := Without(events, gone);
    forall i | 0 <= i < |kept| ensures kept[i].issue in IssueForest.Without(m, gone) {
      assert kept[i] in kept;
    }
    forall id, f, start | id !in gone ensures Replay(kept, id, f, start) == Replay(events, id, f, start) {
      ReplayWithout(events, gone, id, f, start);
    }
  }

  lemma UpdateKeepsFaithful(m: Issues, events: seq<Event>, initial: map<Id, Issue>, id: Id, after: Issue)
    requires Faithful(m, events, initial) && id in m && after.status == m[id].status
    ensures Faithful(m[id := after], events + FieldEvents(id, m[id], after, EDITABLE), initial)
  {
    var added := FieldEvents(id, m[id], after, EDITABLE);
    FieldEventsListed(id, m[id], after, EDITABLE);
    assert forall i :: 0 <= i < |added| ==> added[i] in added;
    forall f | f != Created ensures Replay(added, id, f, Display(m[id], f)) == Some(Display(after, f)) {
      FieldEventsReplay(id, m[id], after, EDITABLE, f);
      EditableIsAllButStatus(f);
    }
    WriteKeepsFaithful(m, events, initial, id, after, added);
  }

  lemma EditableIsAllButStatus(f: Field)
    ensures f in EDITABLE <==> f != Created && f != Status
  {
    assert EDITABLE[0] == Title && EDITABLE[1] == Description && EDITABLE[2] == Priority && EDITABLE[3] == Assignee;
    assert EDITABLE[4] == DueDate && EDITABLE[5] == Labels && EDITABLE[6] == Stage && EDITABLE[7] == Parent;
  }
}
