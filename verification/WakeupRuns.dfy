/** Whole runs of creates and transitions: under which status directories every parent is woken. */
module WakeupRuns {
  import opened Strings
  import opened StatusMachine
  import opened IssueForest
  import opened Wakeups

  /** The issues, the wakeups, the hooks fired and the issues at the moment of each. */
  datatype Board = Board(issues: Issues, wakeups: set<Wakeup>, hooks: seq<Wakeup>, log: seq<Issues>)

  const EMPTY_BOARD := Board(map[], {}, [], [])

  datatype Write = Create(id: Id, x: Issue) | Move(id: Id, to: Name)

  /** A create gives the directory's initial status under a stored parent; a move must be legal; the table takes
      built-in statuses only. Refused writes change nothing. */
  predicate Allowed(dir: Directory, m: Issues, w: Write) {
    match w
    case Create(id, x) =>
      && id !in m && x.status == DefaultStatus(dir) && x.status.BuiltIn?
      && (x.parent.Some? ==> x.parent.value in m && m[x.parent.value].project == x.project)
    case Move(id, to) => id in m && TransitionIn(dir, m[id].status, to).Moved? && to.BuiltIn?
  }

  function Written(dir: Directory, b: Board, w: Write): Board {
    if !Allowed(dir, b.issues, w) then b
    else
      match w
      case Create(id, x) => b.(issues := b.issues[id := x])
      case Move(id, to) => Moved(dir, b, id, to)
  }

  function Moved(dir: Directory, b: Board, id: Id, to: Name): Board
    requires id in b.issues
  {
    var m := b.issues[id := b.issues[id].(status := to)];
    if WakesParent(m, dir, id)
    then
      var wakeup := (m[id].parent.value, id);
      Board(m, b.wakeups + {wakeup}, b.hooks + [wakeup], b.log + [m])
    else b.(issues := m)
  }

  function RunOf(dir: Directory, writes: seq<Write>): Board {
    if writes == [] then EMPTY_BOARD
    else Written(dir, RunOf(dir, writes[..|writes| - 1]), writes[|writes| - 1])
  }

  ghost predicate OnTrack(dir: Directory, b: Board) {
    WakeupsTrack(b.issues, dir, b.wakeups, b.hooks)
  }

  // ==== What holds in every run, under every directory ====

  /** Each hook fired when its child was terminal by name and all children of its parent were terminal. */
  predicate Logged(dir: Directory, b: Board) {
    |b.log| == |b.hooks| && forall i :: 0 <= i < |b.hooks| ==> FiredWhenDone(b.log[i], dir, b.hooks[i])
  }

  lemma WriteLogged(dir: Directory, b: Board, w: Write)
    requires Logged(dir, b)
    ensures Logged(dir, Written(dir, b, w))
  {
    hide IsTerminalIn, IsTerminal, TransitionIn, DefaultStatus, ChildrenTerminal;
  }

  lemma {:induction false} EveryHookWasDue(dir: Directory, writes: seq<Write>)
    ensures Logged(dir, RunOf(dir, writes))
    decreases |writes|
  {
    hide Written, Logged;
    if writes == [] {
      EmptyHolds(dir);
    } else {
      var rest := writes[..|writes| - 1];
      EveryHookWasDue(dir, rest);
      WriteLogged(dir, RunOf(dir, rest), writes[|writes| - 1]);
    }
  }

  lemma EmptyHolds(dir: Directory)
    ensures Logged(dir, EMPTY_BOARD) && Shape(dir, EMPTY_BOARD) && OnTrack(dir, EMPTY_BOARD)
  {
  }

  /** A chain of legal moves from the initial status. */
  predicate Chain(dir: Directory, c: seq<Category>) {
    && |c| >= 1 && BuiltIn(c[0]) == DefaultStatus(dir)
    && forall i :: 0 <= i < |c| - 1 ==> TransitionIn(dir, BuiltIn(c[i]), BuiltIn(c[i + 1])).Moved?
  }

  ghost predicate Reached(dir: Directory, s: Category) {
    exists c :: Chain(dir, c) && c[|c| - 1] == s
  }

  lemma ReachedNext(dir: Directory, from: Category, to: Category)
    requires Reached(dir, from) && TransitionIn(dir, BuiltIn(from), BuiltIn(to)).Moved?
    ensures Reached(dir, to)
  {
    hide TransitionIn, DefaultStatus;
    var c :| Chain(dir, c) && c[|c| - 1] == from;
    var longer := c + [to];
    assert forall i :: 0 <= i < |c| ==> longer[i] == c[i];
    assert Chain(dir, longer) && longer[|longer| - 1] == to;
  }

  /** Statuses are reached by legal moves and parents are stored. */
  ghost predicate IssuesShape(dir: Directory, m: Issues) {
    forall id :: id in m ==>
      m[id].status.BuiltIn? && Reached(dir, m[id].status.category) && ParentStored(m, id)
  }

  /** The hooks are exactly the wakeups, and a child that woke its parent is terminal in the directory, so it never
      moves again. */
  ghost predicate WakeupsShape(dir: Directory, m: Issues, wakeups: set<Wakeup>, hooks: seq<Wakeup>) {
    && (forall w :: w in hooks <==> w in wakeups)
    && (forall w :: w in wakeups ==> w.0 in m && w.1 in m && IsTerminalIn(dir, m[w.1].status))
  }

  ghost predicate Shape(dir: Directory, b: Board) {
    IssuesShape(dir, b.issues) && WakeupsShape(dir, b.issues, b.wakeups, b.hooks)
  }

  lemma CreateShape(dir: Directory, b: Board, id: Id, x: Issue)
    requires Shape(dir, b) && Allowed(dir, b.issues, Create(id, x))
    ensures Shape(dir, Written(dir, b, Create(id, x)))
  {
    hide TransitionIn, DefaultStatus, IsTerminalIn;
    var c := [x.status.category];
    assert Chain(dir, c) && c[|c| - 1] == x.status.category;
    hide Chain, Reached;
  }

  lemma MoveIssuesShape(dir: Directory, m: Issues, id: Id, to: Name)
    requires IssuesShape(dir, m) && Allowed(dir, m, Move(id, to))
    ensures IssuesShape(dir, m[id := m[id].(status := to)])
  {
    ReachedNext(dir, m[id].status.category, to.category);
    hide TransitionIn, Reached, DefaultStatus;
    var m' := m[id := m[id].(status := to)];
    assert forall c :: c in m && c != id ==> m'[c] == m[c];
    assert m'[id].status == to && m'[id].parent == m[id].parent;
  }

  lemma WakeupShape(dir: Directory, m: Issues, wakeups: set<Wakeup>, hooks: seq<Wakeup>, w: Wakeup)
    requires WakeupsShape(dir, m, wakeups, hooks) && w.0 in m && w.1 in m && IsTerminalIn(dir, m[w.1].status)
    ensures WakeupsShape(dir, m, wakeups + {w}, hooks + [w])
  {
    hide IsTerminalIn;
    assert forall v :: v in hooks + [w] <==> v in hooks || v == w;
  }

  /** The child that moves was open, so it woke no one. */
  lemma MoveWakeupsShape(
    dir: Directory, m: Issues, wakeups: set<Wakeup>, hooks: seq<Wakeup>, id: Id, to: Name)
    requires WakeupsShape(dir, m, wakeups, hooks) && id in m && !IsTerminalIn(dir, m[id].status)
    ensures WakeupsShape(dir, m[id := m[id].(status := to)], wakeups, hooks)
  {
    hide IsTerminalIn;
    var m' := m[id := m[id].(status := to)];
    assert forall w :: w in wakeups ==> w.1 != id && m'[w.1] == m[w.1];
  }

  lemma MoveShape(dir: Directory, b: Board, id: Id, to: Name)
    requires Shape(dir, b) && Allowed(dir, b.issues, Move(id, to))
    ensures Shape(dir, Written(dir, b, Move(id, to)))
  {
    hide TransitionIn, IsTerminalIn, Reached, DefaultStatus, IssuesShape, WakeupsShape, WakesParent;
    var m := b.issues;
    var m' := m[id := m[id].(status := to)];
    OpenBeforeMove(dir, m[id].status, to);
    MoveIssuesShape(dir, m, id, to);
    MoveWakeupsShape(dir, m, b.wakeups, b.hooks, id, to);
    if WakesParent(m', dir, id) {
      MovedTerminal(dir, m, id, to);
      ParentOf(dir, m, id);
      WakeupShape(dir, m', b.wakeups, b.hooks, (m[id].parent.value, id));
    }
  }

  lemma ParentOf(dir: Directory, m: Issues, id: Id)
    requires IssuesShape(dir, m) && id in m
    ensures m[id].parent.Some? ==> m[id].parent.value in m
  {
    hide Reached;
  }

  /** A status with a legal move is open in the directory. */
  lemma OpenBeforeMove(dir: Directory, from: Name, to: Name)
    requires TransitionIn(dir, from, to).Moved?
    ensures !IsTerminalIn(dir, from)
  {
  }

  lemma MovedTerminal(dir: Directory, m: Issues, id: Id, to: Name)
    requires id in m && WakesParent(m[id := m[id].(status := to)], dir, id)
    ensures IsTerminalIn(dir, to) && m[id].parent.Some?
  {
    hide IsTerminalIn;
    var m' := m[id := m[id].(status := to)];
    assert m'[id].status == to && m'[id].parent.Some?;
  }

  /** In every run the hooks fired are exactly the wakeups recorded, among the rest of the shape. */
  lemma {:induction false} RunShape(dir: Directory, writes: seq<Write>)
    ensures Shape(dir, RunOf(dir, writes))
    decreases |writes|
  {
    hide Shape, Allowed, Moved;
    if writes == [] {
      EmptyHolds(dir);
    } else {
      var rest, w := writes[..|writes| - 1], writes[|writes| - 1];
      RunShape(dir, rest);
      var b := RunOf(dir, rest);
      if Allowed(dir, b.issues, w) {
        match w
        case Create(id, x) => CreateShape(dir, b, id, x);
        case Move(id, to) => MoveShape(dir, b, id, to);
      }
    }
  }

  // ==== When every run is on track ====

  /** The initial status cannot be stored, or it is open and no chain of legal moves from it ends in a status that is
      terminal in the directory and not by name. */
  ghost predicate RunsTrack(dir: Directory) {
    DefaultStatus(dir).Custom? ||
    (&& !IsTerminalIn(dir, DefaultStatus(dir))
     && forall s: Category :: Reached(dir, s) && IsTerminalIn(dir, BuiltIn(s)) ==> TerminalCategory(s))
  }

  lemma WriteStaysOnTrack(dir: Directory, b: Board, w: Write)
    requires RunsTrack(dir) && Shape(dir, b) && OnTrack(dir, b)
    ensures OnTrack(dir, Written(dir, b, w))
  {
    hide IsTerminalIn, TransitionIn, DefaultStatus, WakeupsTrack, TransitionKeeps, WakesParent, Reached;
    if Allowed(dir, b.issues, w) {
      match w
      case Create(id, x) =>
        assert Unused(b.hooks, id);
        CreateTracksExactly(b.issues, dir, b.wakeups, b.hooks, id, x);
      case Move(id, to) =>
        var from := b.issues[id].status;
        OpenBeforeMove(dir, from, to);
        ReachedNext(dir, from.category, to.category);
        ReachedIsStored(dir, to.category);
        assert to == BuiltIn(to.category);
        ReachedKeeps(dir, b.issues, b.wakeups, id, to);
        TransitionTracksExactly(b.issues, dir, b.wakeups, b.hooks, id, to);
    }
  }

  lemma ReachedIsStored(dir: Directory, s: Category)
    requires Reached(dir, s)
    ensures DefaultStatus(dir).BuiltIn?
  {
    hide DefaultStatus;
  }

  lemma ReachedKeeps(dir: Directory, m: Issues, wakeups: set<Wakeup>, id: Id, to: Name)
    requires id in m && !IsTerminalIn(dir, m[id].status) && (IsTerminalIn(dir, to) ==> IsTerminal(to))
    requires forall w :: w in wakeups ==> w.1 in m && IsTerminalIn(dir, m[w.1].status)
    ensures TransitionKeeps(m, dir, wakeups, id, to)
  {
    hide IsTerminalIn, IsTerminal;
  }

  lemma {:induction false} RunStaysOnTrack(dir: Directory, writes: seq<Write>)
    requires RunsTrack(dir)
    ensures OnTrack(dir, RunOf(dir, writes))
    decreases |writes|
  {
    hide Written, OnTrack, RunsTrack;
    if writes == [] {
      EmptyHolds(dir);
    } else {
      var rest := writes[..|writes| - 1];
      RunStaysOnTrack(dir, rest);
      RunShape(dir, rest);
      WriteStaysOnTrack(dir, RunOf(dir, rest), writes[|writes| - 1]);
    }
  }

  // ---- The run along a chain ----

  /** A root and one child, and the child's moves along the chain. */
  function ChainWrites(c: seq<Category>): seq<Write>
    requires |c| >= 1
  {
    if |c| == 1 then [Create(0, Sample(None, c[0])), Create(1, Sample(Some(0), c[0]))]
    else ChainWrites(c[..|c| - 1]) + [Move(1, BuiltIn(c[|c| - 1]))]
  }

  function ParentAndChild(root: Category, child: Category): Issues {
    map[0 := Sample(None, root), 1 := Sample(Some(0), child)]
  }

  lemma RunSnoc(dir: Directory, writes: seq<Write>, w: Write)
    ensures RunOf(dir, writes + [w]) == Written(dir, RunOf(dir, writes), w)
  {
    assert (writes + [w])[..|writes|] == writes;
  }

  lemma TwoCreates(dir: Directory, s: Category)
    requires DefaultStatus(dir) == BuiltIn(s)
    ensures RunOf(dir, ChainWrites([s])) == Board(ParentAndChild(s, s), {}, [], [])
  {
    hide DefaultStatus;
    var w0, w1 := Create(0, Sample(None, s)), Create(1, Sample(Some(0), s));
    RunSnoc(dir, [], w0);
    RunSnoc(dir, [w0], w1);
    assert [] + [w0] == [w0] && [w0] + [w1] == [w0, w1] == ChainWrites([s]);
  }

  lemma {:induction false} ChainRun(dir: Directory, c: seq<Category>)
    requires Chain(dir, c)
    requires |c| > 1 ==> !(IsTerminalIn(dir, BuiltIn(c[|c| - 1])) && TerminalCategory(c[|c| - 1]))
    ensures RunOf(dir, ChainWrites(c)) == Board(ParentAndChild(c[0], c[|c| - 1]), {}, [], [])
    decreases |c|
  {
    var n := |c| - 1;
    if n == 0 {
      assert c == [c[0]];
      TwoCreates(dir, c[0]);
    } else {
      OpenBeforeMove(dir, BuiltIn(c[n - 1]), BuiltIn(c[n]));
      hide TransitionIn, IsTerminalIn, DefaultStatus;
      assert TransitionIn(dir, BuiltIn(c[n - 1]), BuiltIn(c[n - 1 + 1])).Moved?;
      ChainRun(dir, c[..n]);
      RunSnoc(dir, ChainWrites(c[..n]), Move(1, BuiltIn(c[n])));
      ChildMoves(dir, c[0], c[n - 1], c[n]);
    }
  }

  lemma ChildMoves(dir: Directory, root: Category, from: Category, to: Category)
    requires TransitionIn(dir, BuiltIn(from), BuiltIn(to)).Moved?
    requires !(IsTerminalIn(dir, BuiltIn(to)) && TerminalCategory(to))
    ensures Written(dir, Board(ParentAndChild(root, from), {}, [], []), Move(1, BuiltIn(to))) ==
            Board(ParentAndChild(root, to), {}, [], [])
  {
    hide TransitionIn, IsTerminalIn, DefaultStatus;
    var m, m' := ParentAndChild(root, from), ParentAndChild(root, to);
    assert m[1 := m[1].(status := BuiltIn(to))] == m';
    assert m'[1].parent == Some(0) && m'[1].status == BuiltIn(to);
  }

  /** A root whose only child is terminal in the directory, with no wakeup. */
  lemma UnwokenIsOff(dir: Directory, root: Category, child: Category)
    requires IsTerminalIn(dir, BuiltIn(child))
    ensures !OnTrack(dir, Board(ParentAndChild(root, child), {}, [], []))
  {
    hide IsTerminalIn;
    var m := ParentAndChild(root, child);
    assert m[1].parent == Some(0) && m[1].status == BuiltIn(child) && m[0].parent == None;
    assert HasChild(m, 0) && ChildrenTerminal(m, dir, 0);
  }

  lemma ChainGoesOff(dir: Directory, c: seq<Category>)
    requires Chain(dir, c) && IsTerminalIn(dir, BuiltIn(c[|c| - 1])) && (|c| > 1 ==> !TerminalCategory(c[|c| - 1]))
    ensures !OnTrack(dir, RunOf(dir, ChainWrites(c)))
  {
    hide IsTerminalIn, OnTrack, RunOf, TransitionIn, DefaultStatus;
    ChainRun(dir, c);
    UnwokenIsOff(dir, c[0], c[|c| - 1]);
  }

  /** All runs of creates and transitions from an empty store stay on track if and only if the directory satisfies
      the condition above. */
  lemma RunsTrackExactly(dir: Directory)
    ensures (forall writes :: OnTrack(dir, RunOf(dir, writes))) <==> RunsTrack(dir)
  {
    hide OnTrack, RunOf, IsTerminalIn, TransitionIn, DefaultStatus;
    if RunsTrack(dir) {
      forall writes ensures OnTrack(dir, RunOf(dir, writes)) {
        RunStaysOnTrack(dir, writes);
      }
    } else if IsTerminalIn(dir, DefaultStatus(dir)) {
      var c := [DefaultStatus(dir).category];
      ChainGoesOff(dir, c);
      assert !OnTrack(dir, RunOf(dir, ChainWrites(c)));
    } else {
      var s: Category :| Reached(dir, s) && IsTerminalIn(dir, BuiltIn(s)) && !TerminalCategory(s);
      var c :| Chain(dir, c) && c[|c| - 1] == s;
      ChainGoesOff(dir, c);
      assert !OnTrack(dir, RunOf(dir, ChainWrites(c)));
    }
  }

  // ==== The default directory, and one under which a wakeup is missed ====

  /** An aligned directory with an open initial status satisfies the condition. */
  lemma AlignedRunsTrack(dir: Directory)
    requires Aligned(dir) && !IsTerminalIn(dir, DefaultStatus(dir))
    ensures RunsTrack(dir)
  {
    hide IsTerminalIn, TransitionIn, DefaultStatus, Aligned;
    forall s: Category | Reached(dir, s) && IsTerminalIn(dir, BuiltIn(s)) ensures TerminalCategory(s) {
      var c :| Chain(dir, c) && c[|c| - 1] == s;
      if |c| > 1 {
        var i := |c| - 2;
        assert TransitionIn(dir, BuiltIn(c[i]), BuiltIn(c[i + 1])).Moved?;
        AlignedAt(dir, c[i], c[i + 1]);
      }
    }
  }

  lemma AlignedAt(dir: Directory, from: Category, to: Category)
    requires Aligned(dir) && TransitionIn(dir, BuiltIn(from), BuiltIn(to)).Moved?
    ensures IsTerminalIn(dir, BuiltIn(to)) ==> TerminalCategory(to)
  {
    hide IsTerminalIn, TransitionIn;
  }

  /** In every run under the default directory the wakeups are complete. */
  lemma DefaultRunsStayOnTrack(writes: seq<Write>)
    ensures OnTrack(DefaultDirectory(), RunOf(DefaultDirectory(), writes))
  {
    DefaultDirectoryIsAligned();
    DefaultStatusIsTodo();
    DefaultTerminal(Todo);
    hide Aligned, IsTerminalIn, DefaultDirectory, DefaultStatus;
    AlignedRunsTrack(DefaultDirectory());
    RunStaysOnTrack(DefaultDirectory(), writes);
  }

  /** A workspace may put the built-in `blocked` in the category done. */
  function BlockedIsDone(): Directory {
    [DirectoryEntry(BuiltIn(Todo), Todo), DirectoryEntry(BuiltIn(InProgress), InProgress),
     DirectoryEntry(BuiltIn(InReview), InReview), DirectoryEntry(BuiltIn(Done), Done),
     DirectoryEntry(BuiltIn(Blocked), Done)]
  }

  lemma BlockedCategories()
    ensures StatusCategory(BlockedIsDone(), BuiltIn(Todo)) == Some(Todo)
    ensures StatusCategory(BlockedIsDone(), BuiltIn(InProgress)) == Some(InProgress)
    ensures StatusCategory(BlockedIsDone(), BuiltIn(InReview)) == Some(InReview)
    ensures StatusCategory(BlockedIsDone(), BuiltIn(Blocked)) == Some(Done)
    ensures DefaultStatus(BlockedIsDone()) == BuiltIn(Todo)
  {
    hide StatusCategory, DefaultStatus;
    var dir := BlockedIsDone();
    assert dir[0] == DirectoryEntry(BuiltIn(Todo), Todo) && dir[1] == DirectoryEntry(BuiltIn(InProgress), InProgress);
    assert dir[2] == DirectoryEntry(BuiltIn(InReview), InReview) && dir[3].name == BuiltIn(Done);
    assert dir[4] == DirectoryEntry(BuiltIn(Blocked), Done) && FirstTodoAt(dir, 0);
  }

  /** Two creates and three legal moves of the child, from todo through review to blocked. */
  function BlockedRun(): seq<Write> {
    [Create(0, Sample(None, Todo)), Create(1, Sample(Some(0), Todo)), Move(1, BuiltIn(InProgress)),
     Move(1, BuiltIn(InReview)), Move(1, BuiltIn(Blocked))]
  }

  /** Under it that run completes the parent without waking it. */
  lemma BlockedMissesWakeup()
    ensures !OnTrack(BlockedIsDone(), RunOf(BlockedIsDone(), BlockedRun()))
  {
    var dir := BlockedIsDone();
    var c := [Todo, InProgress, InReview, Blocked];
    BlockedCategories();
    hide StatusCategory, BlockedIsDone, DefaultStatus, OnTrack, RunOf;
    var c3 := [Todo, InProgress, InReview];
    var c2 := [Todo, InProgress];
    assert c[..3] == c3 && c3[..2] == c2 && c2[..1] == [Todo];
    assert ChainWrites(c2) == ChainWrites([Todo]) + [Move(1, BuiltIn(InProgress))];
    assert ChainWrites(c3) == ChainWrites(c2) + [Move(1, BuiltIn(InReview))];
    assert ChainWrites(c) == ChainWrites(c3) + [Move(1, BuiltIn(Blocked))] == BlockedRun();
    forall i | 0 <= i < 3 ensures TransitionIn(dir, BuiltIn(c[i]), BuiltIn(c[i + 1])).Moved? {
      assert i == 0 || i == 1 || i == 2;
    }
    ChainGoesOff(dir, c);
  }
}
