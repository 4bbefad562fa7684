/** What every run of the change workflow keeps, and when a change can still be archived. */
module WorkflowRuns {
  import opened Strings
  import opened Workflow

  function Run(r: Record, calls: seq<Call>): Record {
    if calls == [] then r else Step(Run(r, calls[..|calls| - 1]), calls[|calls| - 1])
  }

  lemma RunSnoc(r: Record, calls: seq<Call>, c: Call)
    ensures Run(r, calls + [c]) == Step(Run(r, calls), c)
  {
    assert (calls + [c])[..|calls|] == calls;
  }

  lemma RunOne(r: Record, c: Call)
    ensures Run(r, [c]) == Step(r, c)
  {
    RunSnoc(r, [], c);
    assert [] + [c] == [c];
  }

  lemma {:induction false} RunAppend(r: Record, first: seq<Call>, second: seq<Call>)
    ensures Run(r, first + second) == Run(Run(r, first), second)
    decreases |second|
  {
    if second == [] {
      assert first + second == first;
    } else {
      var n := |second| - 1;
      assert (first + second)[..|first| + n] == first + second[..n];
      RunAppend(r, first, second[..n]);
    }
  }

  // ==== The invariant ====

  /** The change at phase k has exactly the k handoffs that lead to it, in time order. */
  predicate HandoffChain(r: Record) {
    var hs := r.handoffs;
    && |hs| == IndexOfPhase(r.change.phase)
    && (forall i :: 0 <= i < |hs| ==> hs[i].from == ORDER[i] && hs[i].to == ORDER[i + 1] && hs[i].createdAt <= r.clock)
    && (forall i, j :: 0 <= i < j < |hs| ==> hs[i].createdAt < hs[j].createdAt)
  }

  /** Artifacts are stamped in order and numbered 1, 2, ... within their kind. */
  predicate Versioned(r: Record) {
    var arts := r.artifacts;
    && (forall i :: 0 <= i < |arts| ==> arts[i].createdAt <= r.clock)
    && (forall i, j :: 0 <= i < j < |arts| ==> arts[i].createdAt < arts[j].createdAt)
    && (forall i :: 0 <= i < |arts| ==> arts[i].version == CountKind(arts[..i], arts[i].kind) + 1)
  }

  ghost predicate WrittenBefore(arts: seq<Artifact>, kind: Kind, t: int) {
    exists j :: 0 <= j < |arts| && arts[j].kind == kind && arts[j].createdAt < t
  }

  /** Every handoff left a phase whose artifact had been written. */
  ghost predicate HandoffsEarned(r: Record) {
    forall i :: 0 <= i < |r.handoffs| ==> WrittenBefore(r.artifacts, Doc(r.handoffs[i].from), r.handoffs[i].createdAt)
  }

  /** An archived change still satisfies every gate of the archive call. */
  predicate ArchivedProperly(r: Record) {
    r.change.status == Archived ==>
      r.change.phase == Tasks && PhaseLegal(r, Tasks) && HandoffFresh(r, Tasks) && VerifyPassed(r)
  }

  ghost predicate Inv(r: Record) {
    HandoffChain(r) && Versioned(r) && HandoffsEarned(r) && ArchivedProperly(r)
  }

  lemma LatestAppend(arts: seq<Artifact>, a: Artifact, kind: Kind)
    ensures Latest(arts + [a], kind) == if a.kind == kind then Some(a) else Latest(arts, kind)
  {
    assert (arts + [a])[..|arts|] == arts;
  }

  lemma AddKeepsVersions(r: Record, kind: Kind, content: Content, now: int)
    requires Versioned(r) && r.clock < now
    ensures Versioned(AddArtifact(r, kind, content, now))
  {
    hide CountKind;
    var r' := AddArtifact(r, kind, content, now);
    assert forall i :: 0 <= i < |r.artifacts| ==> r'.artifacts[..i] == r.artifacts[..i];
    assert r'.artifacts[..|r.artifacts|] == r.artifacts;
  }

  lemma AddKeepsEarned(r: Record, kind: Kind, content: Content, now: int)
    requires HandoffsEarned(r)
    ensures HandoffsEarned(AddArtifact(r, kind, content, now))
  {
    hide CountKind;
    var r' := AddArtifact(r, kind, content, now);
    forall i | 0 <= i < |r'.handoffs|
      ensures WrittenBefore(r'.artifacts, Doc(r'.handoffs[i].from), r'.handoffs[i].createdAt)
    {
      assert WrittenBefore(r.artifacts, Doc(r.handoffs[i].from), r.handoffs[i].createdAt);
      var j :| 0 <= j < |r.artifacts| && r.artifacts[j].kind == Doc(r.handoffs[i].from)
        && r.artifacts[j].createdAt < r.handoffs[i].createdAt;
      assert r'.artifacts[j] == r.artifacts[j];
    }
  }

  /** One write keeps the artifact log well formed and keeps every phase's artifact. */
  lemma AddKeeps(r: Record, kind: Kind, content: Content, now: int)
    requires Inv(r) && r.change.status == Active && r.clock < now
    ensures Inv(AddArtifact(r, kind, content, now))
  {
    hide CountKind, Versioned, HandoffsEarned, PhaseLegal, HandoffFresh, VerifyPassed;
    AddKeepsVersions(r, kind, content, now);
    AddKeepsEarned(r, kind, content, now);
  }

  lemma AdvanceKeeps(r: Record, wait: nat)
    requires Inv(r) && CanAdvance(r)
    ensures Inv(Step(r, Call(Advance, wait)))
  {
    hide Latest, CountKind, Blank, HandoffFresh, NoneAfter, VerifyPassed, WrittenBefore;
    var r' := Step(r, Call(Advance, wait));
    var k := IndexOfPhase(r.change.phase);
    assert ORDER[k] == r.change.phase && IndexOfPhase(ORDER[k + 1]) == k + 1;
    assert HasDoc(r, ORDER[k]);
    EarnedNow(r, ORDER[k], r'.clock);
    assert r'.handoffs == r.handoffs + [Handoff(ORDER[k], ORDER[k + 1], r'.clock)];
  }

  lemma EarnedNow(r: Record, p: Phase, now: int)
    requires Versioned(r) && HasDoc(r, p) && r.clock < now
    ensures WrittenBefore(r.artifacts, Doc(p), now)
  {
    var a := Latest(r.artifacts, Doc(p)).value;
    var j :| 0 <= j < |r.artifacts| && r.artifacts[j] == a;
  }

  /** Every call keeps the invariant. */
  lemma StepKeeps(r: Record, call: Call)
    requires Inv(r)
    ensures Inv(Step(r, call))
  {
    hide Latest, CountKind, Blank, PhaseLegal, HandoffFresh, HandoffChain, Versioned, HandoffsEarned;
    var now := r.clock + 1 + call.wait;
    if Accepted(r, call.op) {
      match call.op
      case Write(kind, text) => AddKeeps(r, kind, Text(text), now);
      case SubmitVerify(verdict) => AddKeeps(r, VerifyReport, Report(verdict), now);
      case Advance => AdvanceKeeps(r, call.wait);
      case Archive => ArchiveKeeps(r, call.wait);
    }
  }

  lemma ArchiveKeeps(r: Record, wait: nat)
    requires Inv(r) && CanArchive(r)
    ensures Inv(Step(r, Call(Archive, wait)))
  {
    hide Latest, CountKind, PhaseLegal, HandoffFresh, WrittenBefore, VerifyPassed;
    GatesUnchanged(r, Step(r, Call(Archive, wait)));
  }

  /** The gates look only at artifacts and handoffs. */
  lemma GatesUnchanged(r: Record, r': Record)
    requires r'.artifacts == r.artifacts && r'.handoffs == r.handoffs
    ensures forall p :: PhaseLegal(r', p) == PhaseLegal(r, p)
    ensures forall p :: HandoffFresh(r', p) == HandoffFresh(r, p)
    ensures VerifyPassed(r') == VerifyPassed(r)
  {
    assert forall i: nat, t: int :: i < 4 ==> NotAfter(r', i, t) == NotAfter(r, i, t);
    assert forall p :: HasDoc(r', p) == HasDoc(r, p);
  }

  lemma {:induction false} RunKeeps(r: Record, calls: seq<Call>)
    requires Inv(r)
    ensures Inv(Run(r, calls))
    decreases |calls|
  {
    if calls != [] {
      RunKeeps(r, calls[..|calls| - 1]);
      StepKeeps(Run(r, calls[..|calls| - 1]), calls[|calls| - 1]);
    }
  }

  /** Every state of every run that starts with a manual change satisfies the invariant. */
  lemma ReachableInv(now: int, calls: seq<Call>)
    ensures Inv(Run(NewChange(now), calls))
  {
    RunKeeps(NewChange(now), calls);
  }

  // ==== What each call stores ====

  /** An active change takes every report that says pass or fail as the next version, and then the gate is open exactly
      if it says pass; any other report changes nothing. */
  lemma SubmitExactly(r: Record, verdict: Verdict, wait: nat)
    ensures var r' := Step(r, Call(SubmitVerify(verdict), wait));
            if r.change.status == Active && (verdict == Pass || verdict == Fail)
            then
              && r'.change == r.change && r'.handoffs == r.handoffs
              && r'.artifacts == r.artifacts + [Artifact(VerifyReport, CountKind(r.artifacts, VerifyReport) + 1,
                                                         Report(verdict), r'.clock)]
              && r.clock < r'.clock && (VerifyPassed(r') <==> verdict == Pass)
            else r' == r
  {
    hide CountKind, Latest;
    var r' := Step(r, Call(SubmitVerify(verdict), wait));
    if r' != r {
      LatestAppend(r.artifacts, r'.artifacts[|r.artifacts|], VerifyReport);
    }
  }

  /** An active change takes every text that is not blank for one of the four phases, whatever its own phase is, as the
      next version; any other write changes nothing. */
  lemma WriteExactly(r: Record, kind: Kind, text: string, wait: nat)
    ensures var r' := Step(r, Call(Write(kind, text), wait));
            if r.change.status == Active && TrimSpace(text) != ""
               && (kind == Doc(Proposal) || kind == Doc(Specs) || kind == Doc(Design) || kind == Doc(Tasks))
            then
              && r'.change == r.change && r'.handoffs == r.handoffs
              && r'.artifacts == r.artifacts + [Artifact(kind, CountKind(r.artifacts, kind) + 1, Text(text), r'.clock)]
              && r.clock < r'.clock
            else r' == r
  {
    hide CountKind, TrimSpace;
    if kind.Doc? {
      assert ORDER[IndexOfPhase(kind.phase)] == kind.phase;
    }
  }

  /** Some artifact of the phase is stored, and the last one is not newer than `t`. */
  predicate WrittenBy(r: Record, p: Phase, t: int) {
    exists i :: 0 <= i < |r.artifacts| && r.artifacts[i].kind == Doc(p) && r.artifacts[i].createdAt <= t
                && forall j :: i < j < |r.artifacts| ==> r.artifacts[j].kind != Doc(p)
  }

  predicate Written(r: Record, p: Phase) {
    exists i :: 0 <= i < |r.artifacts| && r.artifacts[i].kind == Doc(p)
  }

  /** The gates of a phase on the logs themselves: it and the phases before it are written, and it is the first, or the
      last handoff entered it and the last artifact of each phase before it is no newer than that handoff. */
  predicate GatesOpen(r: Record, p: Phase) {
    && Written(r, p)
    && (p == Proposal ||
        (&& r.handoffs != [] && r.handoffs[|r.handoffs| - 1].to == p
         && forall q: Phase :: IndexOfPhase(q) < IndexOfPhase(p) ==>
              WrittenBy(r, q, r.handoffs[|r.handoffs| - 1].createdAt)))
  }

  lemma {:induction false} LatestIndex(arts: seq<Artifact>, kind: Kind) returns (i: nat)
    requires Latest(arts, kind).Some?
    ensures i < |arts| && arts[i] == Latest(arts, kind).value && arts[i].kind == kind
    ensures forall j :: i < j < |arts| ==> arts[j].kind != kind
  {
    var n := |arts| - 1;
    if arts[n].kind == kind {
      i := n;
    } else {
      i := LatestIndex(arts[..n], kind);
    }
  }

  lemma WrittenExactly(r: Record, p: Phase, t: int)
    ensures Written(r, p) <==> HasDoc(r, p)
    ensures WrittenBy(r, p, t) <==> HasDoc(r, p) && NotAfter(r, IndexOfPhase(p), t)
  {
    hide Latest;
    var a := Latest(r.artifacts, Doc(p));
    if a.Some? {
      var i := LatestIndex(r.artifacts, Doc(p));
    }
  }

  lemma GatesExactly(r: Record, p: Phase)
    ensures GatesOpen(r, p) <==> PhaseLegal(r, p) && HandoffFresh(r, p)
  {
    hide Written, WrittenBy, HasDoc, NotAfter;
    WrittenExactly(r, p, 0);
    forall q: Phase, t: int
      ensures WrittenBy(r, q, t) <==> HasDoc(r, q) && NotAfter(r, IndexOfPhase(q), t)
    {
      WrittenExactly(r, q, t);
    }
    assert forall i: nat :: i < 4 ==> IndexOfPhase(ORDER[i]) == i;
    assert forall q: Phase :: ORDER[IndexOfPhase(q)] == q;
    assert PhaseLegal(r, p) ==> HasDoc(r, ORDER[IndexOfPhase(p)]);
    if r.handoffs != [] && p != Proposal {
      var t := r.handoffs[|r.handoffs| - 1].createdAt;
      forall i | 0 <= i < IndexOfPhase(p) && GatesOpen(r, p) ensures HasDoc(r, ORDER[i]) && NotAfter(r, i, t) {
        assert WrittenBy(r, ORDER[i], t);
      }
      forall q: Phase | IndexOfPhase(q) < IndexOfPhase(p) && PhaseLegal(r, p) && HandoffFresh(r, p)
        ensures WrittenBy(r, q, t)
      {
        assert HasDoc(r, ORDER[IndexOfPhase(q)]) && NotAfter(r, IndexOfPhase(q), t);
      }
    }
  }

  /** An advance is accepted exactly when the change is active, not at the last phase and its gates are open; it hands
      the phase off to the next one in the order. */
  lemma AdvanceExactly(r: Record, wait: nat)
    ensures var r' := Step(r, Call(Advance, wait));
            var k := IndexOfPhase(r.change.phase);
            if r.change.status == Active && r.change.phase != Tasks && GatesOpen(r, r.change.phase)
            then
              && r'.change == Change(ORDER[k + 1], Active) && r'.artifacts == r.artifacts
              && r'.handoffs == r.handoffs + [Handoff(ORDER[k], ORDER[k + 1], r'.clock)] && r.clock < r'.clock
            else r' == r
  {
    hide PhaseLegal, HandoffFresh, GatesOpen;
    GatesExactly(r, r.change.phase);
  }

  /** An archive is accepted exactly when the change is active, at the last phase with its gates open, and the last
      verify report says pass; it changes the status only. */
  lemma ArchiveExactly(r: Record, wait: nat)
    ensures var r' := Step(r, Call(Archive, wait));
            if r.change == Change(Tasks, Active) && GatesOpen(r, Tasks) && VerifyPassed(r)
            then r' == Record(Change(Tasks, Archived), r.artifacts, r.handoffs, r'.clock) && r.clock < r'.clock
            else r' == r
  {
    hide PhaseLegal, HandoffFresh, GatesOpen, VerifyPassed;
    GatesExactly(r, Tasks);
  }

  /** The number of artifacts of a kind is the version of the last one, so the next version is one more. */
  lemma {:induction false} VersionFollowsLatest(r: Record, kind: Kind)
    requires Versioned(r)
    ensures var a := Latest(r.artifacts, kind);
            CountKind(r.artifacts, kind) == if a.Some? then a.value.version else 0
    decreases |r.artifacts|
  {
    if r.artifacts != [] {
      var n := |r.artifacts| - 1;
      var earlier := r.(artifacts := r.artifacts[..n]);
      assert forall i :: 0 <= i < n ==> earlier.artifacts[..i] == r.artifacts[..i];
      assert r.artifacts[n].version == CountKind(r.artifacts[..n], r.artifacts[n].kind) + 1;
      VersionFollowsLatest(earlier, kind);
    }
  }

  // ==== The verify gate over whole runs ====

  /** A report whose result is pass or fail. */
  predicate Readable(op: Op) {
    op == SubmitVerify(Pass) || op == SubmitVerify(Fail)
  }

  /** The i-th call submits a report with this result, pass or fail, while the change is active. */
  predicate ReportedAt(r: Record, calls: seq<Call>, i: nat, verdict: Verdict) {
    && i < |calls| && calls[i].op == SubmitVerify(verdict) && Readable(calls[i].op)
    && Run(r, calls[..i]).change.status == Active
  }

  ghost predicate NoReportAfter(r: Record, calls: seq<Call>, i: nat) {
    forall j, v :: i <= j < |calls| ==> !ReportedAt(r, calls, j, v)
  }

  /** The last report there is says pass. */
  ghost predicate LastReportPasses(r: Record, calls: seq<Call>) {
    exists i: nat :: ReportedAt(r, calls, i, Pass) && NoReportAfter(r, calls, i + 1)
  }

  lemma ReportedEarlier(r: Record, calls: seq<Call>)
    requires calls != []
    ensures forall i: nat, v :: i < |calls| - 1 ==>
              (ReportedAt(r, calls, i, v) <==> ReportedAt(r, calls[..|calls| - 1], i, v))
  {
    hide Run, Accepted;
    var rest := calls[..|calls| - 1];
    forall i: nat, v | i < |calls| - 1 ensures ReportedAt(r, calls, i, v) <==> ReportedAt(r, rest, i, v) {
      assert rest[..i] == calls[..i];
    }
  }

  lemma StepReports(r: Record, call: Call)
    ensures Latest(Step(r, call).artifacts, VerifyReport) ==
            if Readable(call.op) && r.change.status == Active
            then Some(Artifact(VerifyReport, CountKind(r.artifacts, VerifyReport) + 1, Report(call.op.verdict),
                               r.clock + 1 + call.wait))
            else Latest(r.artifacts, VerifyReport)
  {
    hide CountKind, Latest, PhaseLegal, HandoffFresh, Blank;
    var r' := Step(r, call);
    if |r'.artifacts| > |r.artifacts| {
      LatestAppend(r.artifacts, r'.artifacts[|r.artifacts|], VerifyReport);
    }
  }

  /** Over every run from a started change the verify gate is open if and only if the last report submitted as pass or
      fail while the change was active says pass: earlier reports, unreadable and late ones and every other call do not
      matter. */
  lemma {:induction false} LastReportDecides(now: int, calls: seq<Call>)
    ensures VerifyPassed(Run(NewChange(now), calls)) <==> LastReportPasses(NewChange(now), calls)
    decreases |calls|
  {
    hide Latest, Accepted, Step;
    var r0 := NewChange(now);
    if calls == [] {
      assert Run(r0, calls).artifacts == [];
      EmptyHasNone(VerifyReport);
    } else {
      var n := |calls| - 1;
      var rest := calls[..n];
      LastReportDecides(now, rest);
      ReportedEarlier(r0, calls);
      StepReports(Run(r0, rest), calls[n]);
      LastReportStep(r0, calls);
    }
  }

  lemma EmptyHasNone(kind: Kind)
    ensures Latest([], kind) == None
  {
  }

  /** The last call is the last report if it is one, and otherwise leaves the last report as it was. */
  lemma LastReportStep(r: Record, calls: seq<Call>)
    requires calls != []
    ensures var n := |calls| - 1;
            LastReportPasses(r, calls) <==>
              if Readable(calls[n].op) && Run(r, calls[..n]).change.status == Active then calls[n].op.verdict == Pass
              else LastReportPasses(r, calls[..n])
  {
    hide Run;
    var n := |calls| - 1;
    var rest := calls[..n];
    ReportedEarlier(r, calls);
    if Readable(calls[n].op) && Run(r, rest).change.status == Active {
      assert ReportedAt(r, calls, n, calls[n].op.verdict);
      if calls[n].op.verdict == Pass {
        assert NoReportAfter(r, calls, n + 1);
      }
    } else {
      assert forall v :: !ReportedAt(r, calls, n, v);
      if LastReportPasses(r, rest) {
        var i: nat :| ReportedAt(r, rest, i, Pass) && NoReportAfter(r, rest, i + 1);
        assert ReportedAt(r, calls, i, Pass) && NoReportAfter(r, calls, i + 1);
      }
      if LastReportPasses(r, calls) {
        var i: nat :| ReportedAt(r, calls, i, Pass) && NoReportAfter(r, calls, i + 1);
        forall j: nat, v | i + 1 <= j < |rest| ensures !ReportedAt(r, rest, j, v) {
          assert !ReportedAt(r, calls, j, v);
        }
        assert ReportedAt(r, rest, i, Pass) && NoReportAfter(r, rest, i + 1);
      }
    }
  }

  /** Archived and failed changes are never touched again. */
  lemma {:induction false} Absorbing(r: Record, calls: seq<Call>)
    requires r.change.status != Active
    ensures Run(r, calls) == r
    decreases |calls|
  {
    if calls != [] {
      Absorbing(r, calls[..|calls| - 1]);
    }
  }

  /** The logs are append-only over any run, and an active change never moves to an earlier phase. */
  lemma {:induction false} AppendOnly(r: Record, calls: seq<Call>)
    ensures r.artifacts <= Run(r, calls).artifacts
    ensures r.handoffs <= Run(r, calls).handoffs
    ensures IndexOfPhase(r.change.phase) <= IndexOfPhase(Run(r, calls).change.phase)
    decreases |calls|
  {
    if calls != [] {
      AppendOnly(r, calls[..|calls| - 1]);
    }
  }

  // ==== When a change can still be archived ====

  ghost predicate CanStillArchive(r: Record) {
    exists calls :: Run(r, calls).change.status == Archived
  }

  /** An earlier phase's artifact is newer than the handoff into the current phase. */
  predicate Stale(r: Record) {
    r.change.status == Active && !HandoffFresh(r, r.change.phase)
  }

  lemma StaleWhy(r: Record) returns (i: nat)
    requires Inv(r) && Stale(r)
    ensures i < IndexOfPhase(r.change.phase) && !NotAfter(r, i, r.handoffs[|r.handoffs| - 1].createdAt)
  {
    assert ORDER[IndexOfPhase(r.change.phase)] == r.change.phase;
    i :| 0 <= i < IndexOfPhase(r.change.phase) && !NotAfter(r, i, r.handoffs[|r.handoffs| - 1].createdAt);
  }

  /** Nothing gets a change out of the stale state: both gated calls are refused, and a new version of
      any artifact only makes it newer. */
  lemma StaleStays(r: Record, call: Call)
    requires Inv(r) && Stale(r)
    ensures Stale(Step(r, call))
    ensures !Accepted(r, Advance) && !Accepted(r, Archive)
  {
    hide Latest, CountKind, Blank, HandoffsEarned, Versioned, VerifyPassed, PhaseLegal;
    var r' := Step(r, call);
    var i := StaleWhy(r);
    var t := r.handoffs[|r.handoffs| - 1].createdAt;
    if Accepted(r, call.op) {
      LatestAppend(r.artifacts, r'.artifacts[|r.artifacts|], Doc(ORDER[i]));
      assert r'.artifacts == r.artifacts + [r'.artifacts[|r.artifacts|]];
      assert !NotAfter(r', i, t);
    }
  }

  lemma {:induction false} StaleForever(r: Record, calls: seq<Call>)
    requires Inv(r) && Stale(r)
    ensures Stale(Run(r, calls)) && !Accepted(Run(r, calls), Advance) && !Accepted(Run(r, calls), Archive)
    decreases |calls|
  {
    if calls == [] {
      StaleStays(r, Call(Start, 0));
    } else {
      var before := calls[..|calls| - 1];
      StaleForever(r, before);
      RunKeeps(r, before);
      StaleStays(Run(r, before), calls[|calls| - 1]);
      RunKeeps(r, calls);
      StaleStays(Run(r, calls), Call(Start, 0));
    }
  }

  /** Every phase up to the current one has an artifact once the current one is written. */
  lemma LegalAfterWrite(r: Record, content: Content, now: int)
    requires Inv(r)
    ensures PhaseLegal(AddArtifact(r, Doc(r.change.phase), content, now), r.change.phase)
  {
    var r' := AddArtifact(r, Doc(r.change.phase), content, now);
    var k := IndexOfPhase(r.change.phase);
    assert ORDER[k] == r.change.phase;
    forall i | 0 <= i <= k ensures HasDoc(r', ORDER[i]) {
      LatestAppend(r.artifacts, r'.artifacts[|r.artifacts|], Doc(ORDER[i]));
      if i < k {
        assert WrittenBefore(r.artifacts, Doc(r.handoffs[i].from), r.handoffs[i].createdAt);
      }
    }
  }

  /** Writing the current phase's artifact or a verify report does not make the handoff stale. */
  lemma FreshAfterWrite(r: Record, kind: Kind, content: Content, now: int)
    requires HandoffFresh(r, r.change.phase) && (kind == Doc(r.change.phase) || kind == VerifyReport)
    ensures HandoffFresh(AddArtifact(r, kind, content, now), r.change.phase)
  {
    var r' := AddArtifact(r, kind, content, now);
    if r.change.phase != Proposal {
      var t := r.handoffs[|r.handoffs| - 1].createdAt;
      forall i | 0 <= i < IndexOfPhase(r.change.phase) ensures NotAfter(r', i, t) {
        LatestAppend(r.artifacts, r'.artifacts[|r.artifacts|], Doc(ORDER[i]));
        assert NotAfter(r, i, t);
      }
    }
  }

  /** A handoff just made is fresh: nothing is newer. */
  lemma FreshAfterAdvance(r: Record, wait: nat)
    requires Inv(r) && CanAdvance(r)
    ensures HandoffFresh(Step(r, Call(Advance, wait)), Step(r, Call(Advance, wait)).change.phase)
  {
    hide CountKind;
  }

  lemma WritesX(r: Record)
    requires r.change.status == Active
    ensures Accepted(r, Write(Doc(r.change.phase), "x"))
  {
  }

  /** From a fresh state, write and advance through the remaining phases, verify and archive. */
  lemma {:induction false} FreshReachesArchive(r: Record) returns (calls: seq<Call>)
    requires Inv(r) && r.change.status == Active && HandoffFresh(r, r.change.phase)
    ensures Run(r, calls).change.status == Archived
    decreases 4 - IndexOfPhase(r.change.phase)
  {
    hide Latest, CountKind, Inv, HandoffFresh, PhaseLegal, Blank, Run;
    var write := Call(Write(Doc(r.change.phase), "x"), 0);
    var r1 := Step(r, write);
    StepKeeps(r, write);
    WritesX(r);
    LegalAfterWrite(r, Text("x"), r.clock + 1);
    FreshAfterWrite(r, Doc(r.change.phase), Text("x"), r.clock + 1);
    RunOne(r, write);
    if r.change.phase != Tasks {
      var advance := Call(Advance, 0);
      var r2 := Step(r1, advance);
      StepKeeps(r1, advance);
      FreshAfterAdvance(r1, 0);
      RunSnoc(r, [write], advance);
      var rest := FreshReachesArchive(r2);
      calls := [write] + [advance] + rest;
      RunAppend(r, [write] + [advance], rest);
    } else {
      var verify := Call(SubmitVerify(Pass), 0);
      var r2 := Step(r1, verify);
      StepKeeps(r1, verify);
      FreshAfterWrite(r1, VerifyReport, Report(Pass), r1.clock + 1);
      VerifyKeepsLegal(r1, verify);
      LatestAppend(r1.artifacts, r2.artifacts[|r1.artifacts|], VerifyReport);
      assert VerifyPassed(r2);
      RunSnoc(r, [write], verify);
      RunSnoc(r, [write] + [verify], Call(Archive, 0));
      calls := [write] + [verify] + [Call(Archive, 0)];
    }
  }

  lemma VerifyKeepsLegal(r: Record, call: Call)
    requires r.change.status == Active && call.op == SubmitVerify(Pass) && PhaseLegal(r, r.change.phase)
    ensures PhaseLegal(Step(r, call), r.change.phase)
  {
    var r' := Step(r, call);
    forall i | 0 <= i <= IndexOfPhase(r.change.phase) ensures HasDoc(r', ORDER[i]) {
      LatestAppend(r.artifacts, r'.artifacts[|r.artifacts|], Doc(ORDER[i]));
      assert HasDoc(r, ORDER[i]);
    }
  }

  /** An active change in any reachable state can still be archived exactly when its handoff is fresh. */
  lemma ArchivableExactly(r: Record)
    requires Inv(r) && r.change.status == Active
    ensures CanStillArchive(r) <==> HandoffFresh(r, r.change.phase)
  {
    if HandoffFresh(r, r.change.phase) {
      var calls := FreshReachesArchive(r);
    } else {
      forall calls ensures Run(r, calls).change.status != Archived {
        StaleForever(r, calls);
      }
    }
  }

  /** Rewriting an earlier phase's artifact is what makes a fresh change impossible to archive. */
  lemma RegeneratingStrands(r: Record, kind: Kind, text: string, wait: nat)
    requires Inv(r) && r.change.status == Active && HandoffFresh(r, r.change.phase)
    requires Accepted(r, Write(kind, text))
    ensures CanStillArchive(Step(r, Call(Write(kind, text), wait))) <==>
      IndexOfPhase(kind.phase) >= IndexOfPhase(r.change.phase)
  {
    hide Latest, CountKind, Blank, Inv, CanStillArchive;
    var call := Call(Write(kind, text), wait);
    var r' := Step(r, call);
    StepKeeps(r, call);
    ArchivableExactly(r');
    FreshAfterRewrite(r, kind, text, wait);
  }

  lemma FreshAfterRewrite(r: Record, kind: Kind, text: string, wait: nat)
    requires Inv(r) && HandoffFresh(r, r.change.phase) && Accepted(r, Write(kind, text))
    ensures HandoffFresh(Step(r, Call(Write(kind, text), wait)), r.change.phase) <==>
      IndexOfPhase(kind.phase) >= IndexOfPhase(r.change.phase)
  {
    hide CountKind, Blank, Versioned, HandoffsEarned, PhaseLegal, VerifyPassed;
    var r' := Step(r, Call(Write(kind, text), wait));
    if r.change.phase != Proposal {
      var t := r.handoffs[|r.handoffs| - 1].createdAt;
      forall i: nat | i < IndexOfPhase(r.change.phase)
        ensures NotAfter(r', i, t) <==> ORDER[i] != kind.phase
      {
        LatestAppend(r.artifacts, r'.artifacts[|r.artifacts|], Doc(ORDER[i]));
        assert NotAfter(r, i, t);
      }
      assert ORDER[IndexOfPhase(kind.phase)] == kind.phase;
      assert forall i: nat :: i < 4 ==> IndexOfPhase(ORDER[i]) == i;
    }
  }
}
