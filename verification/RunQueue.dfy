/** The run table and its workers: runs are created, claimed and finished by atomic statements that any
    number of workers interleave. Rows are in (created_at, id) order, the order claims look at them. */
module RunQueue {
  import opened Strings

  type AgentId = nat
  type RunId = nat  // the row index

  datatype Runtime = Server | Local
  datatype Status = Queued | Running | Done | Failed
  datatype Run = Run(agent: AgentId, status: Status)

  type Rows = seq<Run>
  type Agents = map<AgentId, Runtime>

  /** Who claims: a server worker takes runs of any agent that is not local, a runtime those of its agent. */
  datatype Claimer = ServerWorker | RuntimeOf(agent: AgentId)

  predicate Claimable(agents: Agents, rows: Rows, who: Claimer, i: nat) {
    i < |rows| && rows[i].status == Queued &&
    (match who
     case ServerWorker => rows[i].agent in agents && agents[rows[i].agent] != Local
     case RuntimeOf(a) => rows[i].agent == a)
  }

  /** The oldest row `who` can claim. */
  function Oldest(agents: Agents, rows: Rows, who: Claimer, from: nat): (r: Option<RunId>)
    ensures r.Some? ==> r.value >= from && Claimable(agents, rows, who, r.value)
    ensures r.Some? ==> forall j :: from <= j < r.value ==> !Claimable(agents, rows, who, j)
    ensures r.None? ==> forall j :: from <= j < |rows| ==> !Claimable(agents, rows, who, j)
    decreases |rows| - from
  {
    if from >= |rows| then None
    else if Claimable(agents, rows, who, from) then Some(from)
    else Oldest(agents, rows, who, from + 1)
  }

  datatype Op = Create(agent: AgentId) | Claim(who: Claimer) | Finish(run: RunId, ok: bool)

  /** The row a statement creates, claims or finishes; None when it finds none. */
  function Hit(agents: Agents, rows: Rows, op: Op): Option<RunId> {
    match op
    case Create(_) => Some(|rows|)
    case Claim(who) => Oldest(agents, rows, who, 0)
    case Finish(r, _) => if r < |rows| && rows[r].status == Running then Some(r) else None
  }

  function Step(agents: Agents, rows: Rows, op: Op): Rows {
    var hit := Hit(agents, rows, op);
    if hit.None? then rows
    else
      match op
      case Create(a) => rows + [Run(a, Queued)]
      case Claim(_) => rows[hit.value := rows[hit.value].(status := Running)]
      case Finish(r, ok) => rows[r := rows[r].(status := if ok then Done else Failed)]
  }

  function After(agents: Agents, rows: Rows, ops: seq<Op>): Rows {
    if ops == [] then rows else Step(agents, After(agents, rows, ops[..|ops| - 1]), ops[|ops| - 1])
  }

  /** The row the i-th statement of an interleaving hits. */
  function HitAt(agents: Agents, rows: Rows, ops: seq<Op>, i: nat): Option<RunId>
    requires i < |ops|
  {
    Hit(agents, After(agents, rows, ops[..i]), ops[i])
  }

  // ---- One row along an interleaving ----

  function Rank(s: Status): nat {
    match s
    case Queued => 0
    case Running => 1
    case _ => 2
  }

  /** A row never disappears, never changes agent, moves only forward, and once finished is fixed. */
  predicate Forward(before: Rows, after: Rows) {
    && |before| <= |after|
    && forall r :: 0 <= r < |before| ==>
         && after[r].agent == before[r].agent
         && Rank(before[r].status) <= Rank(after[r].status)
         && (Rank(before[r].status) == 2 ==> after[r] == before[r])
  }

  lemma {:induction false} AlwaysForward(agents: Agents, rows: Rows, ops: seq<Op>, i: nat, j: nat)
    requires i <= j <= |ops|
    ensures Forward(After(agents, rows, ops[..i]), After(agents, rows, ops[..j]))
    decreases j
  {
    if i < j {
      AlwaysForward(agents, rows, ops, i, j - 1);
      assert ops[..j][..j - 1] == ops[..j - 1];
    }
  }

  lemma AfterStep(agents: Agents, rows: Rows, ops: seq<Op>, i: nat)
    requires i < |ops|
    ensures After(agents, rows, ops[..i + 1]) == Step(agents, After(agents, rows, ops[..i]), ops[i])
  {
    assert ops[..i + 1][..i] == ops[..i];
  }

  /** No two claims of an interleaving, by whichever workers, return the same run. */
  lemma ClaimedAtMostOnce(agents: Agents, rows: Rows, ops: seq<Op>, i: nat, j: nat)
    requires i < j < |ops| && ops[i].Claim? && ops[j].Claim?
    requires HitAt(agents, rows, ops, i).Some?
    ensures HitAt(agents, rows, ops, i) != HitAt(agents, rows, ops, j)
  {
    AfterStep(agents, rows, ops, i);
    AlwaysForward(agents, rows, ops, i + 1, j);
  }

  /** A run is finished at most once, and its final status is the one that finish wrote. */
  lemma FinishedAtMostOnce(agents: Agents, rows: Rows, ops: seq<Op>, i: nat, j: nat)
    requires i < j <= |ops| && ops[i].Finish? && HitAt(agents, rows, ops, i).Some?
    ensures j < |ops| && ops[j].Finish? ==> HitAt(agents, rows, ops, i) != HitAt(agents, rows, ops, j)
    ensures var later := After(agents, rows, ops[..j]);
            ops[i].run < |later| && later[ops[i].run].status == if ops[i].ok then Done else Failed
  {
    AfterStep(agents, rows, ops, i);
    AlwaysForward(agents, rows, ops, i + 1, j);
  }

  /** From an empty table, a run that is no longer queued was created, then claimed; one that is done or
      failed was created, claimed and finished, in that order. */
  lemma {:induction false} LifeOfARun(agents: Agents, ops: seq<Op>, r: RunId) returns (c: nat, k: nat, f: nat)
    requires r < |After(agents, [], ops)|
    ensures c < |ops| && ops[c] == Create(After(agents, [], ops)[r].agent) && HitAt(agents, [], ops, c) == Some(r)
    ensures After(agents, [], ops)[r].status != Queued ==>
              c < k < |ops| && ops[k].Claim? && HitAt(agents, [], ops, k) == Some(r)
    ensures Rank(After(agents, [], ops)[r].status) == 2 ==>
              k < f < |ops| && ops[f].Finish? && HitAt(agents, [], ops, f) == Some(r)
    decreases |ops|
  {
    hide Oldest;
    var n := |ops| - 1;
    var rest := ops[..n];
    var before := After(agents, [], rest);
    forall i: nat | i < n ensures HitAt(agents, [], rest, i) == HitAt(agents, [], ops, i) {
      assert rest[..i] == ops[..i];
    }
    assert HitAt(agents, [], ops, n) == Hit(agents, before, ops[n]);
    if r < |before| {
      c, k, f := LifeOfARun(agents, rest, r);
      if Hit(agents, before, ops[n]) == Some(r) {
        if ops[n].Claim? { k := n; }
        if ops[n].Finish? { f := n; }
      }
    } else {
      c, k, f := n, n, n;
    }
  }

  // ---- Who may take what, and in which order ----

  lemma OldestExactly(agents: Agents, rows: Rows, who: Claimer, r: RunId)
    ensures Oldest(agents, rows, who, 0) == Some(r) <==>
              Claimable(agents, rows, who, r) && forall q: nat :: q < r ==> !Claimable(agents, rows, who, q)
  {
    hide Oldest, Claimable;
    var hit := Oldest(agents, rows, who, 0);
    if Claimable(agents, rows, who, r) && forall q: nat :: q < r ==> !Claimable(agents, rows, who, q) {
      assert r < |rows| by { ClaimableInTable(agents, rows, who, r); }
      assert hit.Some? && !(hit.value < r) && !(r < hit.value);
    }
  }

  lemma ClaimableInTable(agents: Agents, rows: Rows, who: Claimer, r: RunId)
    requires Claimable(agents, rows, who, r)
    ensures r < |rows|
  {
  }

  /** In every interleaving the claim of an agent's runtime takes run `r` exactly when r is the oldest queued run of
      that very agent. */
  lemma RuntimeTakesExactly(agents: Agents, rows: Rows, ops: seq<Op>, i: nat, a: AgentId, r: RunId)
    requires i < |ops| && ops[i] == Claim(RuntimeOf(a))
    ensures var now := After(agents, rows, ops[..i]);
            HitAt(agents, rows, ops, i) == Some(r) <==>
              && r < |now| && now[r].status == Queued && now[r].agent == a
              && forall q: nat :: q < r ==> !(now[q].status == Queued && now[q].agent == a)
  {
    hide After, Oldest;
    var now := After(agents, rows, ops[..i]);
    OldestExactly(agents, now, RuntimeOf(a), r);
    forall q: nat | q < |now|
      ensures Claimable(agents, now, RuntimeOf(a), q) <==> now[q].status == Queued && now[q].agent == a
    {
    }
  }

  /** A server worker's claim takes it exactly when r is the oldest queued run of an agent that is in the table and not
      local. */
  lemma ServerTakesExactly(agents: Agents, rows: Rows, ops: seq<Op>, i: nat, r: RunId)
    requires i < |ops| && ops[i] == Claim(ServerWorker)
    ensures var now := After(agents, rows, ops[..i]);
            HitAt(agents, rows, ops, i) == Some(r) <==>
              && r < |now| && now[r].status == Queued && now[r].agent in agents && agents[now[r].agent] == Server
              && forall q: nat :: q < r && now[q].status == Queued ==>
                   !(now[q].agent in agents && agents[now[q].agent] == Server)
  {
    hide After, Oldest;
    var now := After(agents, rows, ops[..i]);
    OldestExactly(agents, now, ServerWorker, r);
    forall q: nat | q < |now|
      ensures Claimable(agents, now, ServerWorker, q) <==>
                now[q].status == Queued && now[q].agent in agents && agents[now[q].agent] == Server
    {
    }
  }

  /** The run it takes is running from then on, for the agent it was created for. */
  lemma ClaimedIsRunning(agents: Agents, rows: Rows, ops: seq<Op>, i: nat)
    requires i < |ops| && ops[i].Claim? && HitAt(agents, rows, ops, i).Some?
    ensures var before, after := After(agents, rows, ops[..i]), After(agents, rows, ops[..i + 1]);
            var r := HitAt(agents, rows, ops, i).value;
            r < |before| && after == before[r := Run(before[r].agent, Running)]
  {
    hide Oldest;
    AfterStep(agents, rows, ops, i);
  }

  /** A queued run of a local agent stays as it is, whatever server workers and other runtimes do, until that
      agent's own runtime claims. */
  lemma {:induction false} LocalRunsStayLocal(agents: Agents, rows: Rows, ops: seq<Op>, r: RunId)
    requires r < |rows| && rows[r].status == Queued && rows[r].agent in agents && agents[rows[r].agent] == Local
    requires forall i :: 0 <= i < |ops| ==> ops[i] != Claim(RuntimeOf(rows[r].agent))
    ensures r < |After(agents, rows, ops)| && After(agents, rows, ops)[r] == rows[r]
    decreases |ops|
  {
    if ops != [] {
      LocalRunsStayLocal(agents, rows, ops[..|ops| - 1], r);
    }
  }

  /** First in, first out: when a claim takes run `r`, every older run the claimer could take has already been
      claimed. */
  lemma FirstInFirstOut(agents: Agents, rows: Rows, ops: seq<Op>, i: nat, q: RunId)
    requires i < |ops| && ops[i].Claim? && HitAt(agents, rows, ops, i).Some? && q < HitAt(agents, rows, ops, i).value
    requires var run := After(agents, rows, ops[..i])[q];
             match ops[i].who
             case ServerWorker => run.agent in agents && agents[run.agent] != Local
             case RuntimeOf(a) => run.agent == a
    ensures After(agents, rows, ops[..i])[q].status != Queued
  {
    assert !Claimable(agents, After(agents, rows, ops[..i]), ops[i].who, q);
  }

  /** The server-claimable rows older than row `r`. */
  function Ahead(agents: Agents, rows: Rows, r: nat): nat {
    if r == 0 then 0 else Ahead(agents, rows, r - 1) + (if Claimable(agents, rows, ServerWorker, r - 1) then 1 else 0)
  }

  lemma {:induction false} AheadShrinks(agents: Agents, before: Rows, after: Rows, r: nat)
    requires r <= |before| && Forward(before, after)
    ensures Ahead(agents, after, r) <= Ahead(agents, before, r)
    ensures (exists q: nat :: q < r && Claimable(agents, before, ServerWorker, q) && after[q].status != Queued) ==>
              Ahead(agents, after, r) < Ahead(agents, before, r)
    decreases r
  {
    if r > 0 {
      AheadShrinks(agents, before, after, r - 1);
    }
  }

  function ServerClaims(ops: seq<Op>): nat {
    if ops == [] then 0
    else ServerClaims(ops[..|ops| - 1]) + (if ops[|ops| - 1] == Claim(ServerWorker) then 1 else 0)
  }

  /** Bounded waiting: with k older claimable runs ahead of it, a queued server run waits for at most k server
      claims, whatever else is interleaved; the next one, at the latest, takes it. */
  lemma {:induction false} BoundedWaiting(agents: Agents, rows: Rows, ops: seq<Op>, r: RunId)
    requires Claimable(agents, rows, ServerWorker, r)
    ensures var now := After(agents, rows, ops);
            && r < |now|
            && (now[r].status == Queued ==> ServerClaims(ops) + Ahead(agents, now, r) <= Ahead(agents, rows, r))
    decreases |ops|
  {
    if ops != [] {
      var n := |ops| - 1;
      var before := After(agents, rows, ops[..n]);
      BoundedWaiting(agents, rows, ops[..n], r);
      AlwaysForward(agents, rows, ops, 0, n);
      AlwaysForward(agents, rows, ops, n, n + 1);
      assert ops[..n + 1] == ops && ops[..0] == [];
      var now := After(agents, rows, ops);
      AheadShrinks(agents, before, now, r);
      if ops[n] == Claim(ServerWorker) && now[r].status == Queued {
        assert Claimable(agents, before, ServerWorker, r);
        var hit := Oldest(agents, before, ServerWorker, 0);
        assert hit.Some? && hit.value < r && now[hit.value].status == Running;
      }
    }
  }

  /** So the (k+1)-th server claim at the latest takes it: afterwards it is no longer queued. */
  lemma ClaimedByTurn(agents: Agents, rows: Rows, ops: seq<Op>, r: RunId)
    requires Claimable(agents, rows, ServerWorker, r) && ServerClaims(ops) > Ahead(agents, rows, r)
    ensures r < |After(agents, rows, ops)| && After(agents, rows, ops)[r].status != Queued
  {
    BoundedWaiting(agents, rows, ops, r);
  }

  // ---- Conservation ----

  function Past(rows: Rows, rank: nat): nat {
    if rows == [] then 0
    else Past(rows[..|rows| - 1], rank) + (if Rank(rows[|rows| - 1].status) >= rank then 1 else 0)
  }

  lemma {:induction false} PastUpdate(rows: Rows, r: RunId, run: Run, rank: nat)
    requires r < |rows|
    ensures Past(rows[r := run], rank) ==
            Past(rows, rank)
            - (if Rank(rows[r].status) >= rank then 1 else 0) + (if Rank(run.status) >= rank then 1 else 0)
  {
    var n := |rows| - 1;
    if r == n {
      assert rows[r := run][..n] == rows[..n];
    } else {
      PastUpdate(rows[..n], r, run, rank);
      assert rows[r := run][..n] == rows[..n][r := run];
    }
  }

  /** Successful statements of one kind. */
  function Hits(agents: Agents, rows: Rows, ops: seq<Op>, rank: nat): nat {
    if ops == [] then 0
    else
      var op := ops[|ops| - 1];
      Hits(agents, rows, ops[..|ops| - 1], rank)
      + (if Hit(agents, After(agents, rows, ops[..|ops| - 1]), op).Some?
            && (if op.Create? then rank == 0 else if op.Claim? then rank == 1 else rank == 2)
         then 1 else 0)
  }

  /** Nothing is lost or made up: there are as many runs as creates, as many that left the queue as successful
      claims, and as many finished as successful finishes. */
  lemma {:induction false} Conservation(agents: Agents, ops: seq<Op>)
    ensures forall rank :: 0 <= rank <= 2 ==> Past(After(agents, [], ops), rank) == Hits(agents, [], ops, rank)
    decreases |ops|
  {
    if ops != [] {
      var rest := ops[..|ops| - 1];
      Conservation(agents, rest);
      var before := After(agents, [], rest);
      var op := ops[|ops| - 1];
      var hit := Hit(agents, before, op);
      forall rank | 0 <= rank <= 2 ensures Past(After(agents, [], ops), rank) == Hits(agents, [], ops, rank) {
        if hit.Some? {
          if op.Create? {
            assert (before + [Run(op.agent, Queued)])[..|before|] == before;
          } else {
            PastUpdate(before, hit.value, Step(agents, before, op)[hit.value], rank);
          }
        }
      }
    }
  }

  // ==== The store and a worker ====

  datatype RunResult = EmptyQueue | Ran(run: RunId) | FinishLost(run: RunId)

  class RunStore {
    const agents: Agents
    var rows: Rows

    constructor (agents: Agents)
      ensures this.agents == agents && rows == []
    {
      this.agents, rows := agents, [];
    }

    method CreateRun(agent: AgentId) returns (r: RunId)
      modifies this
      ensures rows == Step(agents, old(rows), Create(agent)) && Some(r) == Hit(agents, old(rows), Create(agent))
    {
      r := |rows|;
      rows := rows + [Run(agent, Queued)];
    }

    /** ClaimNextRun and ClaimNextRunForAgent: the oldest queued row of the claimer becomes running. */
    method ClaimRun(who: Claimer) returns (r: Option<RunId>)
      modifies this
      ensures rows == Step(agents, old(rows), Claim(who)) && r == Hit(agents, old(rows), Claim(who))
    {
      r := None;
      for i := 0 to |rows|
        invariant rows == old(rows) && r.None?
        invariant Oldest(agents, rows, who, 0) == Oldest(agents, rows, who, i)
      {
        if Claimable(agents, rows, who, i) {
          rows := rows[i := rows[i].(status := Running)];
          return Some(i);
        }
      }
    }

    method FinishRun(run: RunId, ok: bool) returns (found: bool)
      modifies this
      ensures rows == Step(agents, old(rows), Finish(run, ok))
      ensures found <==> Hit(agents, old(rows), Finish(run, ok)).Some?
    {
      found := run < |rows| && rows[run].status == Running;
      if found {
        rows := rows[run := rows[run].(status := if ok then Done else Failed)];
      }
    }

    method Apply(op: Op)
      modifies this
      ensures rows == Step(agents, old(rows), op)
    {
      match op {
        case Create(a) => var _ := CreateRun(a);
        case Claim(who) => var _ := ClaimRun(who);
        case Finish(r, ok) => var _ := FinishRun(r, ok);
      }
    }

    /** What other workers do while this one executes its run. */
    method Interleave(others: seq<Op>)
      modifies this
      ensures rows == After(agents, old(rows), others)
    {
      for i := 0 to |others|
        invariant rows == After(agents, old(rows), others[..i])
      {
        assert others[..i + 1][..i] == others[..i];
        Apply(others[i]);
      }
      assert others[..|others|] == others;
    }

    /** RunOne: claim the oldest server run, execute it, record the outcome. While it executes, other workers
        do `others`; only one of those finishing this very run can take the outcome away. */
    method RunOne(execute: RunId -> bool, others: seq<Op>) returns (result: RunResult)
      modifies this
      ensures result.EmptyQueue? <==>
                forall i :: 0 <= i < |old(rows)| ==> !Claimable(agents, old(rows), ServerWorker, i)
      ensures result.EmptyQueue? ==> rows == old(rows)
      ensures !result.EmptyQueue? ==>
                && Claimable(agents, old(rows), ServerWorker, result.run)
                && (forall j :: 0 <= j < result.run ==> !Claimable(agents, old(rows), ServerWorker, j))
                && (var claimed := old(rows)[result.run := old(rows)[result.run].(status := Running)];
                    var during := After(agents, claimed, others);
                    && rows == Step(agents, during, Finish(result.run, execute(result.run)))
                    && result.run < |during| == |rows|
                    && (result.Ran? <==> during[result.run].status == Running)
                    && (result.Ran? ==> rows[result.run].status == if execute(result.run) then Done else Failed)
                    && (result.FinishLost? ==> rows == during && Rank(rows[result.run].status) == 2))
    {
      var run := ClaimRun(ServerWorker);
      if run.None? { return EmptyQueue; }
      ghost var claimed := rows;
      Interleave(others);
      AlwaysForward(agents, claimed, others, 0, |others|);
      assert others[..0] == [] && others[..|others|] == others;
      var ok := execute(run.value);
      var found := FinishRun(run.value, ok);
      result := if found then Ran(run.value) else FinishLost(run.value);
    }
  }
}
