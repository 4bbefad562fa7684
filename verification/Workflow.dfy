/** The classic change workflow: versioned artifacts, guarded handoffs between phases, verify
    reports and archiving, for one change. */
module Workflow {
  import opened Strings

  datatype Phase = Proposal | Specs | Design | Tasks

  const ORDER: seq<Phase> := [Proposal, Specs, Design, Tasks]

  function IndexOfPhase(p: Phase): (i: nat)
    ensures i < 4 && ORDER[i] == p
  {
    match p case Proposal => 0 case Specs => 1 case Design => 2 case Tasks => 3
  }

  /** The phase after `p`, found by walking the order. */
  method NextPhase(p: Phase) returns (next: Option<Phase>)
    ensures next == PhaseAfter(p)
  {
    assert ORDER[IndexOfPhase(p)] == p;
    for i := 0 to |ORDER|
      invariant forall j :: 0 <= j < i ==> ORDER[j] != p
    {
      if ORDER[i] == p {
        assert i == IndexOfPhase(p);
        return if i + 1 < |ORDER| then Some(ORDER[i + 1]) else None;
      }
    }
    return None;
  }

  function PhaseAfter(p: Phase): Option<Phase> {
    if IndexOfPhase(p) < 3 then Some(ORDER[IndexOfPhase(p) + 1]) else None
  }

  /** The kinds a caller may name; a name outside the known ones is Unknown. */
  datatype Kind = Doc(phase: Phase) | VerifyReport | Unknown

  datatype Verdict = Pass | Fail | Unparsable

  /** Document text, or a verify report as its YAML decodes. */
  datatype Content = Text(text: string) | Report(verdict: Verdict)

  datatype Artifact = Artifact(kind: Kind, version: nat, content: Content, createdAt: int)
  datatype Handoff = Handoff(from: Phase, to: Phase, createdAt: int)
  datatype Status = Active | Archived | Failed
  datatype Change = Change(phase: Phase, status: Status)

  /** Everything stored for one change; artifacts and handoffs are kept oldest first. */
  datatype Record = Record(change: Change, artifacts: seq<Artifact>, handoffs: seq<Handoff>, clock: int)

  // ---- The stores ----

  function CountKind(arts: seq<Artifact>, kind: Kind): nat {
    if arts == [] then 0
    else CountKind(arts[..|arts| - 1], kind) + if arts[|arts| - 1].kind == kind then 1 else 0
  }

  /** GetArtifact with version 0: the latest artifact of a kind. */
  function Latest(arts: seq<Artifact>, kind: Kind): (r: Option<Artifact>)
    ensures r.Some? ==> r.value in arts && r.value.kind == kind
    ensures r.None? <==> forall i :: 0 <= i < |arts| ==> arts[i].kind != kind
  {
    if arts == [] then None
    else if arts[|arts| - 1].kind == kind then Some(arts[|arts| - 1])
    else
      assert arts == arts[..|arts| - 1] + [arts[|arts| - 1]];
      Latest(arts[..|arts| - 1], kind)
  }

  const KINDS: seq<Kind> := [Doc(Proposal), Doc(Specs), Doc(Design), Doc(Tasks), VerifyReport]

  lemma KindsDiffer(i: nat)
    requires i < |KINDS|
    ensures forall k :: i < k < |KINDS| ==> KINDS[k] != KINDS[i]
  {
  }

  /** ListArtifacts: the latest artifact of each kind, in kind order. */
  function LatestPerKind(arts: seq<Artifact>, from: nat): (list: seq<Artifact>)
    requires from <= |KINDS|
    ensures forall a :: a in list <==> exists k :: from <= k < |KINDS| && Latest(arts, KINDS[k]) == Some(a)
    ensures forall i, j :: 0 <= i < j < |list| ==> list[i].kind != list[j].kind
    decreases |KINDS| - from
  {
    hide Latest;
    if from == |KINDS| then [] else
      var rest := LatestPerKind(arts, from + 1);
      KindsDiffer(from);
      assert forall a :: a in rest ==> a.kind != KINDS[from];
      match Latest(arts, KINDS[from])
      case Some(a) => [a] + rest
      case None => rest
  }

  lemma LatestListed(arts: seq<Artifact>, i: nat)
    requires i < 4
    ensures var a := Latest(arts, Doc(ORDER[i]));
      && (a.Some? ==> a.value in LatestPerKind(arts, 0))
      && forall b :: b in LatestPerKind(arts, 0) && b.kind == Doc(ORDER[i]) ==> a == Some(b)
  {
    assert KINDS[i] == Doc(ORDER[i]);
  }

  /** CreateArtifact: a new version of its kind. */
  function AddArtifact(r: Record, kind: Kind, content: Content, now: int): Record {
    r.(artifacts := r.artifacts + [Artifact(kind, CountKind(r.artifacts, kind) + 1, content, now)], clock := now)
  }

  // ---- The gates ----

  predicate HasDoc(r: Record, p: Phase) {
    Latest(r.artifacts, Doc(p)).Some?
  }

  /** The phase and every phase before it has an artifact. */
  predicate PhaseLegal(r: Record, p: Phase) {
    forall i :: 0 <= i <= IndexOfPhase(p) ==> HasDoc(r, ORDER[i])
  }

  /** The artifact of phase `i` was not regenerated after `t`. */
  predicate NotAfter(r: Record, i: nat, t: int)
    requires i < 4
  {
    var a := Latest(r.artifacts, Doc(ORDER[i]));
    a.Some? ==> a.value.createdAt <= t
  }

  predicate NoneAfter(r: Record, n: nat, t: int)
    requires n <= 4
  {
    forall i :: 0 <= i < n ==> NotAfter(r, i, t)
  }

  /** The phase was entered by the latest handoff and no earlier artifact is newer than it. */
  predicate HandoffFresh(r: Record, p: Phase) {
    p == Proposal ||
    (&& r.handoffs != []
     && r.handoffs[|r.handoffs| - 1].to == p
     && NoneAfter(r, IndexOfPhase(p), r.handoffs[|r.handoffs| - 1].createdAt))
  }

  predicate VerifyPassed(r: Record) {
    var a := Latest(r.artifacts, VerifyReport);
    a.Some? && a.value.content == Report(Pass)
  }

  predicate CanAdvance(r: Record) {
    && r.change.status == Active && PhaseAfter(r.change.phase).Some?
    && PhaseLegal(r, r.change.phase) && HandoffFresh(r, r.change.phase)
  }

  predicate CanArchive(r: Record) {
    && r.change.status == Active && r.change.phase == Tasks
    && PhaseLegal(r, Tasks) && HandoffFresh(r, Tasks) && VerifyPassed(r)
  }

  // ---- The calls ----

  datatype Op = Start | Write(kind: Kind, text: string) | SubmitVerify(verdict: Verdict) | Advance | Archive

  /** A call, and how long after the previous write it happens: the clock strictly increases. */
  datatype Call = Call(op: Op, wait: nat)

  predicate Accepted(r: Record, op: Op) {
    match op
    case Start => false
    case Write(kind, text) => kind.Doc? && !Blank(text) && r.change.status == Active
    case SubmitVerify(verdict) => r.change.status == Active && verdict != Unparsable
    case Advance => CanAdvance(r)
    case Archive => CanArchive(r)
  }

  /** The stored state after a call; a refused call changes nothing. */
  function Step(r: Record, call: Call): Record {
    var now := r.clock + 1 + call.wait;
    if !Accepted(r, call.op) then r else
      match call.op
      case Write(kind, text) => AddArtifact(r, kind, Text(text), now)
      case SubmitVerify(verdict) => AddArtifact(r, VerifyReport, Report(verdict), now)
      case Advance =>
        var next := PhaseAfter(r.change.phase).value;
        r.(change := r.change.(phase := next),
           handoffs := r.handoffs + [Handoff(r.change.phase, next, now)],
           clock := now)
      case Archive => r.(change := r.change.(status := Archived), clock := now)
      case Start => r
  }

  /** What StartChange stores for an issue that has no change. */
  function NewChange(now: int): Record {
    Record(Change(Proposal, Active), [], [], now)
  }

  datatype Outcome = Done | Invalid | Conflict

  datatype GuardReport = GuardReport(
    phaseLegal: bool, handoffFresh: bool, verifyPassed: bool, canAdvance: bool, canArchive: bool)

  /** The workflow service acting on one stored change. */
  class ChangeService {
    var record: Record

    /** StartChange on an issue without a change. */
    constructor (now: int)
      ensures record == NewChange(now)
    {
      record := NewChange(now);
    }

    /** phaseLegal: `missing` lists the phases up to `p` without an artifact. */
    method CheckPhaseLegal(p: Phase) returns (legal: bool, missing: seq<Phase>)
      ensures legal <==> PhaseLegal(record, p)
      ensures forall q :: q in missing <==> IndexOfPhase(q) <= IndexOfPhase(p) && !HasDoc(record, q)
    {
      hide Latest, LatestPerKind, HasDoc;
      var list := LatestPerKind(record.artifacts, 0);
      var present: set<Kind> := {};
      for i := 0 to |list|
        invariant forall k :: k in present <==> KindAmong(list, i, k)
      {
        present := present + {list[i].kind};
      }
      forall q: Phase ensures Doc(q) in present <==> HasDoc(record, q) {
        ListedExactly(record, q);
      }
      missing := [];
      for i := 0 to IndexOfPhase(p) + 1
        invariant forall q :: q in missing <==> IndexOfPhase(q) < i && !HasDoc(record, q)
      {
        if Doc(ORDER[i]) !in present {
          missing := missing + [ORDER[i]];
        }
        assert forall q :: IndexOfPhase(q) == i ==> q == ORDER[i];
      }
      legal := missing == [];
      if legal {
        forall i | 0 <= i <= IndexOfPhase(p) ensures HasDoc(record, ORDER[i]) {
          assert IndexOfPhase(ORDER[i]) == i;
          assert ORDER[i] !in missing;
        }
      } else {
        assert missing[0] in missing;
      }
    }

    /** handoffFresh: compares every earlier phase's latest artifact with the latest handoff. */
    method CheckHandoffFresh(p: Phase) returns (isFresh: bool)
      ensures isFresh <==> HandoffFresh(record, p)
    {
      hide Latest, LatestPerKind;
      if p == Proposal {
        return true;
      }
      if record.handoffs == [] {
        return false;
      }
      var latest := record.handoffs[|record.handoffs| - 1];
      if latest.to != p {
        return false;
      }
      var list := LatestPerKind(record.artifacts, 0);
      var byKind: map<Kind, Artifact> := map[];
      for i := 0 to |list|
        invariant forall k :: k in byKind ==> byKind[k] in list && byKind[k].kind == k
        invariant forall j :: 0 <= j < i ==> list[j].kind in byKind
      {
        byKind := byKind[list[i].kind := list[i]];
      }
      forall i | 0 <= i < 4
        ensures var a := Latest(record.artifacts, Doc(ORDER[i]));
          (a.Some? <==> Doc(ORDER[i]) in byKind) && (a.Some? ==> byKind[Doc(ORDER[i])] == a.value)
      {
        LatestListed(record.artifacts, i);
      }
      for i := 0 to IndexOfPhase(p)
        invariant NoneAfter(record, i, latest.createdAt)
      {
        var kind := Doc(ORDER[i]);
        if kind in byKind && byKind[kind].createdAt > latest.createdAt {
          assert !NotAfter(record, i, latest.createdAt);
          return false;
        }
      }
      return true;
    }

    method CheckVerifyPassed() returns (passed: bool)
      ensures passed <==> VerifyPassed(record)
    {
      var a := Latest(record.artifacts, VerifyReport);
      passed := a.Some? && a.value.content == Report(Pass);
    }

    /** The guard's verdicts are exactly whether the two gated calls would be accepted. */
    method GuardStatus() returns (report: GuardReport)
      ensures report.phaseLegal <==> PhaseLegal(record, record.change.phase)
      ensures report.handoffFresh <==> HandoffFresh(record, record.change.phase)
      ensures report.verifyPassed <==> VerifyPassed(record)
      ensures report.canAdvance <==> Accepted(record, Advance)
      ensures report.canArchive <==> Accepted(record, Archive)
    {
      var legal, _ := CheckPhaseLegal(record.change.phase);
      var isFresh := CheckHandoffFresh(record.change.phase);
      var passed := CheckVerifyPassed();
      var next := NextPhase(record.change.phase);
      var active := record.change.status == Active;
      report := GuardReport(legal, isFresh, passed,
        active && next.Some? && legal && isFresh,
        active && record.change.phase == Tasks && legal && isFresh && passed);
    }

    method AdvancePhase(wait: nat) returns (outcome: Outcome)
      modifies this
      ensures record == Step(old(record), Call(Advance, wait))
      ensures outcome == Done <==> old(Accepted(record, Advance))
    {
      var c := record.change;
      if c.status != Active {
        return Conflict;
      }
      var next := NextPhase(c.phase);
      if next.None? {
        return Conflict;
      }
      var legal, _ := CheckPhaseLegal(c.phase);
      if !legal {
        return Conflict;
      }
      var isFresh := CheckHandoffFresh(c.phase);
      if !isFresh {
        return Conflict;
      }
      var now := record.clock + 1 + wait;
      record := record.(handoffs := record.handoffs + [Handoff(c.phase, next.value, now)], clock := now);
      c := c.(phase := next.value);
      record := record.(change := c);
      return Done;
    }

    method SubmitVerifyReport(verdict: Verdict, wait: nat) returns (outcome: Outcome)
      modifies this
      ensures record == Step(old(record), Call(SubmitVerify(verdict), wait))
      ensures outcome == Done <==> old(Accepted(record, SubmitVerify(verdict)))
    {
      hide Blank, CanAdvance, CanArchive, AddArtifact;
      if record.change.status != Active {
        return Conflict;
      }
      if verdict == Unparsable {
        return Invalid;
      }
      record := AddArtifact(record, VerifyReport, Report(verdict), record.clock + 1 + wait);
      return Done;
    }

    method ArchiveChange(wait: nat) returns (outcome: Outcome)
      modifies this
      ensures record == Step(old(record), Call(Archive, wait))
      ensures outcome == Done <==> old(Accepted(record, Archive))
    {
      var c := record.change;
      if c.status != Active || c.phase != Tasks {
        return Conflict;
      }
      var legal, _ := CheckPhaseLegal(c.phase);
      if !legal {
        return Conflict;
      }
      var isFresh := CheckHandoffFresh(c.phase);
      if !isFresh {
        return Conflict;
      }
      var passed := CheckVerifyPassed();
      if !passed {
        return Conflict;
      }
      c := c.(status := Archived);
      record := record.(change := c, clock := record.clock + 1 + wait);
      return Done;
    }

    /** Stores a new artifact version; `outcome` is about the artifact, not the task binding after it. */
    method WriteArtifact(kind: Kind, text: string, wait: nat) returns (outcome: Outcome)
      modifies this
      ensures record == Step(old(record), Call(Write(kind, text), wait))
      ensures outcome == Done <==> old(Accepted(record, Write(kind, text)))
    {
      hide Blank, CanAdvance, CanArchive, AddArtifact;
      if !kind.Doc? || Blank(text) {
        return Invalid;
      }
      if record.change.status != Active {
        return Conflict;
      }
      record := AddArtifact(record, kind, Text(text), record.clock + 1 + wait);
      return Done;
    }
  }

  /** One of the first `n` artifacts listed is of the kind. */
  predicate KindAmong(list: seq<Artifact>, n: nat, kind: Kind)
    requires n <= |list|
  {
    exists j :: 0 <= j < n && list[j].kind == kind
  }

  lemma ListedExactly(r: Record, q: Phase)
    ensures var list := LatestPerKind(r.artifacts, 0);
            HasDoc(r, q) <==> KindAmong(list, |list|, Doc(q))
  {
    hide Latest, LatestPerKind;
    LatestListed(r.artifacts, IndexOfPhase(q));
  }

  /** The change of one issue, if it has one: there is never a second. */
  class ChangeStore {
    var change: ChangeService?

    constructor ()
      ensures change == null
    {
      change := null;
    }

    /** StartChange by hand: the first call stores a fresh change at the proposal phase, every later one is a
        conflict that leaves that change as it is. */
    method StartChange(now: int) returns (outcome: Outcome)
      modifies this
      ensures outcome == if old(change) == null then Done else Conflict
      ensures old(change) == null ==> change != null && fresh(change) && change.record == NewChange(now)
      ensures old(change) != null ==> change == old(change)
    {
      if change != null {
        return Conflict;
      }
      change := new ChangeService(now);
      return Done;
    }

    /** EnsureChange: the issue's change, started when there is none. */
    method EnsureChange(now: int) returns (c: ChangeService)
      modifies this
      ensures change == c
      ensures if old(change) == null then fresh(c) && c.record == NewChange(now) else c == old(change)
    {
      if change == null {
        var _ := StartChange(now);
      }
      c := change;
    }
  }
}
