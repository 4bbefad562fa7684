/** Parent wakeups: recorded when a child's write leaves every child of its parent terminal, and what each write
    to the issues does to them. */
module Wakeups {
  import opened Strings
  import opened StatusMachine
  import opened IssueForest

  /** A parent and the child whose write woke it. */
  type Wakeup = (Id, Id)

  predicate HasChild(m: Issues, p: Id) {
    exists c :: c in m && m[c].parent == Some(p)
  }

  predicate ChildrenTerminal(m: Issues, dir: Directory, p: Id) {
    forall c :: c in m && m[c].parent == Some(p) ==> IsTerminalIn(dir, m[c].status)
  }

  /** A write of `c` wakes its parent: `c` is in a built-in terminal status and every child of the parent is
      terminal in the directory. */
  predicate WakesParent(m: Issues, dir: Directory, c: Id) {
    c in m && m[c].parent.Some? && IsTerminal(m[c].status) && ChildrenTerminal(m, dir, m[c].parent.value)
  }

  predicate Woken(wakeups: set<Wakeup>, p: Id) {
    exists w :: w in wakeups && w.0 == p
  }

  predicate Named(wakeups: set<Wakeup>, c: Id) {
    exists w :: w in wakeups && w.1 == c
  }

  predicate HasSibling(m: Issues, id: Id)
    requires id in m
  {
    exists c :: c in m && c != id && m[c].parent == m[id].parent
  }

  predicate OpenSibling(m: Issues, dir: Directory, id: Id)
    requires id in m
  {
    exists c :: c in m && c != id && m[c].parent == m[id].parent && !IsTerminalIn(dir, m[c].status)
  }

  /** Every wakeup names a terminal child, every parent whose children are all terminal has been woken, and the
      hook has fired once for each wakeup and never twice. */
  ghost predicate WakeupsTrack(m: Issues, dir: Directory, wakeups: set<Wakeup>, hooks: seq<Wakeup>) {
    && NamesTerminal(m, wakeups)
    && (forall p: Id :: HasChild(m, p) && ChildrenTerminal(m, dir, p) ==> Woken(wakeups, p))
    && HooksMatch(m, wakeups, hooks)
  }

  predicate NamesTerminal(m: Issues, wakeups: set<Wakeup>) {
    forall w :: w in wakeups ==> w.1 in m && m[w.1].parent == Some(w.0) && IsTerminal(m[w.1].status)
  }

  /** No hook fired twice, every wakeup's hook fired, and a fired hook has lost its wakeup only with its issues. */
  ghost predicate HooksMatch(m: Issues, wakeups: set<Wakeup>, hooks: seq<Wakeup>) {
    && (forall i, j :: 0 <= i < j < |hooks| ==> hooks[i] != hooks[j])
    && (forall w :: w in wakeups ==> w in hooks)
    && (forall w :: w in hooks ==> w in wakeups || w.0 !in m || w.1 !in m)
  }

  /** No hook has fired for this id, as for one that was never used. */
  predicate Unused(hooks: seq<Wakeup>, id: Id) {
    forall w :: w in hooks ==> w.0 != id && w.1 != id
  }

  /** The wakeup was recorded, and its hook fired, in a state where the child was terminal by name and all its
      parent's children were terminal. */
  predicate FiredWhenDone(m: Issues, dir: Directory, w: Wakeup) {
    WakesParent(m, dir, w.1) && m[w.1].parent == Some(w.0)
  }

  // ==== A new issue ====

  /** A new child does not leave its parent waiting: it is open, or the parent had children already. */
  predicate CreateKeeps(m: Issues, dir: Directory, x: Issue) {
    x.parent.None? || !IsTerminalIn(dir, x.status) || HasChild(m, x.parent.value)
  }

  lemma CreateTracksExactly(m: Issues, dir: Directory, wakeups: set<Wakeup>, hooks: seq<Wakeup>, id: Id, x: Issue)
    requires WakeupsTrack(m, dir, wakeups, hooks) && id !in m && Unused(hooks, id)
    ensures WakeupsTrack(m[id := x], dir, wakeups, hooks) <==> CreateKeeps(m, dir, x)
  {
    var m' := m[id := x];
    assert HooksMatch(m', wakeups, hooks);
    hide IsTerminalIn, IsTerminal, HooksMatch;
    assert forall c :: c in m ==> m'[c] == m[c];
    assert m'[id] == x;
    forall p: Id
      ensures HasChild(m', p) <==> HasChild(m, p) || x.parent == Some(p)
      ensures ChildrenTerminal(m', dir, p) <==>
                ChildrenTerminal(m, dir, p) && (x.parent == Some(p) ==> IsTerminalIn(dir, x.status))
    {
      if HasChild(m, p) {
        var c :| c in m && m[c].parent == Some(p);
        assert m'[c].parent == Some(p);
      }
    }
    assert NamesTerminal(m', wakeups);
    if x.parent.Some? && !HasChild(m, x.parent.value) {
      assert !Woken(wakeups, x.parent.value);
    }
  }

  // ==== A status write ====

  /** Whether a move of `id` to `to` keeps the wakeups complete. A child that no wakeup names must not be the last
      to become terminal in the directory without being terminal by its built-in name, unless its parent was woken
      before; one that a wakeup names must stay terminal by name and not wake its parent again. */
  predicate TransitionKeeps(m: Issues, dir: Directory, wakeups: set<Wakeup>, id: Id, to: Name)
    requires id in m
  {
    var completes := IsTerminalIn(dir, to) && !OpenSibling(m, dir, id);
    if Named(wakeups, id) then IsTerminal(to) && !completes
    else m[id].parent.Some? && completes && !IsTerminal(to) ==> Woken(wakeups, m[id].parent.value)
  }

  lemma ChildrenAfterWrite(m: Issues, dir: Directory, id: Id, to: Name, p: Id)
    requires id in m
    ensures var m' := m[id := m[id].(status := to)];
            && (HasChild(m', p) <==> HasChild(m, p))
            && (ChildrenTerminal(m', dir, p) <==>
                  if m[id].parent == Some(p) then IsTerminalIn(dir, to) && !OpenSibling(m, dir, id)
                  else ChildrenTerminal(m, dir, p))
  {
    hide IsTerminalIn;
    var m' := m[id := m[id].(status := to)];
    assert forall c :: c in m && c != id ==> m'[c] == m[c];
    assert m'[id].status == to && m'[id].parent == m[id].parent;
    if HasChild(m, p) {
      var c :| c in m && m[c].parent == Some(p);
      assert m'[c].parent == Some(p);
    }
    if HasChild(m', p) {
      var c :| c in m' && m'[c].parent == Some(p);
      assert m[c].parent == Some(p);
    }
    if m[id].parent == Some(p) {
      assert OpenSibling(m, dir, id) ==> !ChildrenTerminal(m', dir, p);
    }
  }

  /** A status write, with the wakeup and the hook it fires, keeps the wakeups on track exactly under that
      condition, in every directory. */
  lemma TransitionTracksExactly(m: Issues, dir: Directory, wakeups: set<Wakeup>, hooks: seq<Wakeup>, id: Id, to: Name)
    requires WakeupsTrack(m, dir, wakeups, hooks) && id in m && ParentStored(m, id)
    ensures var m' := m[id := m[id].(status := to)];
            if WakesParent(m', dir, id)
            then
              var w := (m[id].parent.value, id);
              WakeupsTrack(m', dir, wakeups + {w}, hooks + [w]) <==> TransitionKeeps(m, dir, wakeups, id, to)
            else WakeupsTrack(m', dir, wakeups, hooks) <==> TransitionKeeps(m, dir, wakeups, id, to)
  {
    var m' := m[id := m[id].(status := to)];
    SameKeysSameHooks(m, m', wakeups, hooks);
    hide IsTerminalIn, IsTerminal, OpenSibling, HasChild, ChildrenTerminal, HooksMatch;
    forall p: Id
      ensures HasChild(m', p) <==> HasChild(m, p)
      ensures ChildrenTerminal(m', dir, p) <==>
                if m[id].parent == Some(p) then IsTerminalIn(dir, to) && !OpenSibling(m, dir, id)
                else ChildrenTerminal(m, dir, p)
    {
      ChildrenAfterWrite(m, dir, id, to, p);
    }
    NamesAfterWrite(m, wakeups, id, to);
    if m[id].parent.Some? {
      ChildIsChild(m, id);
      var w := (m[id].parent.value, id);
      WakeupAdded(m', wakeups, hooks, w);
      NamesWith(m', wakeups, w);
    }
  }

  /** The parent of an issue is stored too. */
  predicate ParentStored(m: Issues, id: Id)
    requires id in m
  {
    m[id].parent.Some? ==> m[id].parent.value in m
  }

  lemma SameKeysSameHooks(m: Issues, m': Issues, wakeups: set<Wakeup>, hooks: seq<Wakeup>)
    requires m'.Keys == m.Keys
    ensures HooksMatch(m', wakeups, hooks) <==> HooksMatch(m, wakeups, hooks)
  {
  }

  lemma ChildIsChild(m: Issues, id: Id)
    requires id in m && m[id].parent.Some?
    ensures HasChild(m, m[id].parent.value)
  {
  }

  lemma NamesAfterWrite(m: Issues, wakeups: set<Wakeup>, id: Id, to: Name)
    requires id in m && NamesTerminal(m, wakeups)
    ensures NamesTerminal(m[id := m[id].(status := to)], wakeups) <==> Named(wakeups, id) ==> IsTerminal(to)
    ensures Named(wakeups, id) ==> m[id].parent.Some? && (m[id].parent.value, id) in wakeups
  {
    hide IsTerminal;
    var m' := m[id := m[id].(status := to)];
    assert forall c :: c in m && c != id ==> m'[c] == m[c];
    assert m'[id].status == to && m'[id].parent == m[id].parent;
    if Named(wakeups, id) {
      var w :| w in wakeups && w.1 == id;
      assert w == (m[id].parent.value, id);
    }
  }

  lemma NamesWith(m: Issues, wakeups: set<Wakeup>, w: Wakeup)
    requires w.1 in m && m[w.1].parent == Some(w.0)
    ensures NamesTerminal(m, wakeups + {w}) <==> NamesTerminal(m, wakeups) && IsTerminal(m[w.1].status)
  {
    hide IsTerminal;
    assert w in wakeups + {w};
    assert forall v :: v in wakeups ==> v in wakeups + {w};
  }

  lemma WakeupAdded(m: Issues, wakeups: set<Wakeup>, hooks: seq<Wakeup>, w: Wakeup)
    requires HooksMatch(m, wakeups, hooks) && w.0 in m && w.1 in m
    ensures HooksMatch(m, wakeups + {w}, hooks + [w]) <==> w !in wakeups
    ensures forall p: Id :: Woken(wakeups + {w}, p) <==> Woken(wakeups, p) || p == w.0
  {
    assert w in wakeups + {w};
    forall p: Id ensures Woken(wakeups + {w}, p) <==> Woken(wakeups, p) || p == w.0 {
      if Woken(wakeups, p) {
        var v :| v in wakeups && v.0 == p;
        assert v in wakeups + {w};
      }
    }
    assert w in wakeups <==> w in hooks;
    assert forall v :: v in hooks + [w] <==> v in hooks || v == w;
    if w in hooks {
      var i :| 0 <= i < |hooks| && hooks[i] == w;
      assert (hooks + [w])[i] == (hooks + [w])[|hooks|];
    } else {
      assert forall i :: 0 <= i < |hooks| ==> hooks[i] in hooks;
    }
  }

  /** Under the default directory a legal move of a child wakes its parent exactly when it goes to done or cancelled
      and every sibling is done or cancelled. */
  lemma DefaultWakesExactly(m: Issues, id: Id, to: Name)
    requires id in m && TransitionIn(DefaultDirectory(), m[id].status, to).Moved?
    ensures WakesParent(m[id := m[id].(status := to)], DefaultDirectory(), id) <==>
              && m[id].parent.Some? && (to == BuiltIn(Done) || to == BuiltIn(Cancelled))
              && forall c :: c in m && c != id && m[c].parent == m[id].parent ==>
                   m[c].status == BuiltIn(Done) || m[c].status == BuiltIn(Cancelled)
  {
    hide IsTerminalIn, TransitionIn, DefaultDirectory;
    var m' := m[id := m[id].(status := to)];
    assert m'[id].status == to && m'[id].parent == m[id].parent;
    forall name: Name
      ensures IsTerminalIn(DefaultDirectory(), name) <==> name == BuiltIn(Done) || name == BuiltIn(Cancelled)
    {
      DefaultDirectoryAgrees(name, name);
    }
    forall c | c in m && c != id ensures m'[c] == m[c] {}
  }

  // ==== An archived change ====

  /** The archive of an issue's change wakes the issue's parent whatever the issue's own status is. It keeps the
      wakeups on track exactly when the issue is a root, or is terminal by name and has not woken its parent yet. */
  lemma ArchiveTracksExactly(m: Issues, dir: Directory, wakeups: set<Wakeup>, hooks: seq<Wakeup>, id: Id)
    requires WakeupsTrack(m, dir, wakeups, hooks) && id in m && ParentStored(m, id)
    ensures m[id].parent.Some? ==>
              var w := (m[id].parent.value, id);
              WakeupsTrack(m, dir, wakeups + {w}, hooks + [w]) <==> IsTerminal(m[id].status) && w !in wakeups
  {
    hide IsTerminalIn, IsTerminal, HasChild, ChildrenTerminal, HooksMatch;
    if m[id].parent.Some? {
      var w := (m[id].parent.value, id);
      WakeupAdded(m, wakeups, hooks, w);
      NamesWith(m, wakeups, w);
    }
  }

  // ---- Which directories keep the wakeups complete ----

  /** Built-in statuses are terminal by name wherever a legal move makes them terminal in the directory, and a move
      out of a built-in terminal status leads to another that is open in the directory. */
  predicate Aligned(dir: Directory) {
    forall from: Category, to: Category :: TransitionIn(dir, BuiltIn(from), BuiltIn(to)).Moved? ==>
      if TerminalCategory(from) then TerminalCategory(to) && !IsTerminalIn(dir, BuiltIn(to))
      else IsTerminalIn(dir, BuiltIn(to)) ==> TerminalCategory(to)
  }

  ghost predicate KeepsEveryLegalMove(dir: Directory) {
    forall m: Issues, wakeups: set<Wakeup>, hooks: seq<Wakeup>, id: Id, from: Category, to: Category ::
      WakeupsTrack(m, dir, wakeups, hooks) && id in m && ParentStored(m, id) && m[id].status == BuiltIn(from)
      && TransitionIn(dir, BuiltIn(from), BuiltIn(to)).Moved? ==>
        TransitionKeeps(m, dir, wakeups, id, BuiltIn(to))
  }

  /** Every legal move keeps the wakeups complete, in every state in which they are, if and only if the directory is
      aligned. */
  lemma AlignedExactly(dir: Directory)
    ensures KeepsEveryLegalMove(dir) <==> Aligned(dir)
  {
    hide IsTerminalIn, TransitionIn, OpenSibling, Woken, HasChild, ChildrenTerminal, HooksMatch;
    if Aligned(dir) {
      forall m: Issues, wakeups: set<Wakeup>, hooks: seq<Wakeup>, id: Id, from: Category, to: Category |
        WakeupsTrack(m, dir, wakeups, hooks) && id in m && ParentStored(m, id) && m[id].status == BuiltIn(from)
        && TransitionIn(dir, BuiltIn(from), BuiltIn(to)).Moved?
        ensures TransitionKeeps(m, dir, wakeups, id, BuiltIn(to))
      {
        AlignedKeeps(m, dir, wakeups, id, from, to);
      }
    }
    if KeepsEveryLegalMove(dir) {
      forall from: Category, to: Category | TransitionIn(dir, BuiltIn(from), BuiltIn(to)).Moved?
        ensures if TerminalCategory(from) then TerminalCategory(to) && !IsTerminalIn(dir, BuiltIn(to))
                else IsTerminalIn(dir, BuiltIn(to)) ==> TerminalCategory(to)
      {
        OnlyChildTracks(dir, from, to);
        var m := OnlyChild(from);
        var (wakeups, hooks) := OnlyChildWakeups(from);
        assert TransitionKeeps(m, dir, wakeups, 1, BuiltIn(to));
        OnlyChildKeeps(dir, from, to);
      }
    }
  }

  lemma AlignedKeeps(m: Issues, dir: Directory, wakeups: set<Wakeup>, id: Id, from: Category, to: Category)
    requires Aligned(dir) && NamesTerminal(m, wakeups) && id in m && m[id].status == BuiltIn(from)
    requires TransitionIn(dir, BuiltIn(from), BuiltIn(to)).Moved?
    ensures TransitionKeeps(m, dir, wakeups, id, BuiltIn(to))
  {
    hide IsTerminalIn, TransitionIn, OpenSibling, Woken;
  }

  /** A parent with one child, woken if the child is terminal by name. */
  function OnlyChild(from: Category): Issues {
    map[0 := Sample(None, Todo), 1 := Sample(Some(0), from)]
  }

  function OnlyChildWakeups(from: Category): (set<Wakeup>, seq<Wakeup>) {
    if TerminalCategory(from) then ({(0, 1)}, [(0, 1)]) else ({}, [])
  }

  function Sample(parent: Option<Id>, status: Category): Issue {
    Issue(0, parent, "title", "", "none", "", None, [], 0, 0, BuiltIn(status))
  }

  lemma OnlyChildTracks(dir: Directory, from: Category, to: Category)
    requires TransitionIn(dir, BuiltIn(from), BuiltIn(to)).Moved?
    ensures WakeupsTrack(OnlyChild(from), dir, OnlyChildWakeups(from).0, OnlyChildWakeups(from).1)
  {
    if IsTerminalIn(dir, BuiltIn(from)) {
      TerminalIsFinal(dir, BuiltIn(from), BuiltIn(to));
    }
    hide IsTerminalIn, TransitionIn;
    var m := OnlyChild(from);
    assert m[1].parent == Some(0) && !IsTerminalIn(dir, m[1].status);
    forall p: Id ensures !(HasChild(m, p) && ChildrenTerminal(m, dir, p)) {
      if HasChild(m, p) {
        var c :| c in m && m[c].parent == Some(p);
        assert c == 1;
      }
    }
  }

  lemma OnlyChildKeeps(dir: Directory, from: Category, to: Category)
    ensures TransitionKeeps(OnlyChild(from), dir, OnlyChildWakeups(from).0, 1, BuiltIn(to)) <==>
            if TerminalCategory(from) then TerminalCategory(to) && !IsTerminalIn(dir, BuiltIn(to))
            else IsTerminalIn(dir, BuiltIn(to)) ==> TerminalCategory(to)
  {
    hide IsTerminalIn;
    var m, wakeups := OnlyChild(from), OnlyChildWakeups(from).0;
    assert !OpenSibling(m, dir, 1);
    if TerminalCategory(from) {
      assert (0, 1) in wakeups;
    }
  }

  lemma DefaultDirectoryIsAligned()
    ensures Aligned(DefaultDirectory())
  {
    hide TransitionIn, IsTerminalIn, DefaultDirectory;
    var dir := DefaultDirectory();
    forall from: Category, to: Category
      ensures TransitionIn(dir, BuiltIn(from), BuiltIn(to)) == Transition(BuiltIn(from), BuiltIn(to))
      ensures IsTerminalIn(dir, BuiltIn(to)) <==> TerminalCategory(to)
    {
      DefaultDirectoryAgrees(BuiltIn(from), BuiltIn(to));
      DefaultDirectoryAgrees(BuiltIn(to), BuiltIn(to));
    }
  }

  /** Deleting statuses from an aligned directory leaves it aligned. */
  lemma FewerStatusesStayAligned(dir: Directory, fewer: Directory)
    requires Aligned(dir)
    requires forall s :: StatusCategory(fewer, s).Some? ==> StatusCategory(fewer, s) == StatusCategory(dir, s)
    ensures Aligned(fewer)
  {
    hide StatusCategory;
    forall from: Category, to: Category | TransitionIn(fewer, BuiltIn(from), BuiltIn(to)).Moved?
      ensures TransitionIn(dir, BuiltIn(from), BuiltIn(to)).Moved?
      ensures IsTerminalIn(fewer, BuiltIn(to)) <==> IsTerminalIn(dir, BuiltIn(to))
    {
    }
  }

  // ==== A parent move ====

  /** Whether an issue may leave its parent: the parent was woken, keeps an open child or keeps no child. */
  predicate MayLeave(m: Issues, dir: Directory, wakeups: set<Wakeup>, id: Id)
    requires id in m
  {
    m[id].parent.Some? ==>
      Woken(wakeups, m[id].parent.value) || OpenSibling(m, dir, id) || !HasSibling(m, id)
  }

  /** Whether a move of `id` under `parent` keeps the wakeups complete: no wakeup names the issue, it may leave its
      old parent, and the new parent was woken, has an open child or gets one. */
  predicate MoveKeeps(m: Issues, dir: Directory, wakeups: set<Wakeup>, id: Id, parent: Option<Id>)
    requires id in m
  {
    parent == m[id].parent ||
    (&& !Named(wakeups, id) && MayLeave(m, dir, wakeups, id)
     && (parent.Some? ==>
           || Woken(wakeups, parent.value)
           || !ChildrenTerminal(m, dir, parent.value)
           || !IsTerminalIn(dir, m[id].status)))
  }

  lemma ChildrenAfterMove(m: Issues, dir: Directory, id: Id, after: Issue, p: Id)
    requires id in m && after.status == m[id].status && after.parent != m[id].parent
    ensures var m' := m[id := after];
            if m[id].parent == Some(p) then
              && (HasChild(m', p) <==> HasSibling(m, id))
              && (ChildrenTerminal(m', dir, p) <==> !OpenSibling(m, dir, id))
            else if after.parent == Some(p) then
              && HasChild(m', p)
              && (ChildrenTerminal(m', dir, p) <==> ChildrenTerminal(m, dir, p) && IsTerminalIn(dir, m[id].status))
            else
              && (HasChild(m', p) <==> HasChild(m, p))
              && (ChildrenTerminal(m', dir, p) <==> ChildrenTerminal(m, dir, p))
  {
    hide IsTerminalIn;
    var m' := m[id := after];
    assert forall c :: c in m && c != id ==> m'[c] == m[c];
    assert m'[id] == after;
    if HasChild(m', p) {
      var c :| c in m' && m'[c].parent == Some(p);
      assert c != id ==> m[c].parent == Some(p);
    }
    if HasChild(m, p) {
      var c :| c in m && m[c].parent == Some(p);
      assert c != id ==> m'[c].parent == Some(p);
    }
    if m[id].parent == Some(p) && HasSibling(m, id) {
      var c :| c in m && c != id && m[c].parent == m[id].parent;
      assert m'[c].parent == Some(p);
    }
  }

  /** An update keeps the wakeups on track exactly when its parent move does. */
  lemma MoveTracksExactly(m: Issues, dir: Directory, wakeups: set<Wakeup>, hooks: seq<Wakeup>, id: Id, after: Issue)
    requires WakeupsTrack(m, dir, wakeups, hooks) && id in m && after.status == m[id].status
    ensures WakeupsTrack(m[id := after], dir, wakeups, hooks) <==> MoveKeeps(m, dir, wakeups, id, after.parent)
  {
    var m' := m[id := after];
    SameKeysSameHooks(m, m', wakeups, hooks);
    hide IsTerminalIn, IsTerminal, HooksMatch, OpenSibling, HasSibling;
    assert forall c :: c in m && c != id ==> m'[c] == m[c];
    assert m'[id] == after;
    if after.parent == m[id].parent {
      SameFamily(m, m', dir, wakeups);
    } else {
      hide ChildrenTerminal, HasChild;
      if Named(wakeups, id) {
        var w :| w in wakeups && w.1 == id;
        assert !NamesTerminal(m', wakeups);
      } else {
        assert NamesTerminal(m', wakeups);
      }
      forall p: Id
        ensures m[id].parent == Some(p) ==>
                  && (HasChild(m', p) <==> HasSibling(m, id))
                  && (ChildrenTerminal(m', dir, p) <==> !OpenSibling(m, dir, id))
        ensures m[id].parent != Some(p) && after.parent == Some(p) ==>
                  && HasChild(m', p)
                  && (ChildrenTerminal(m', dir, p) <==> ChildrenTerminal(m, dir, p) && IsTerminalIn(dir, m[id].status))
        ensures m[id].parent != Some(p) && after.parent != Some(p) ==>
                  && (HasChild(m', p) <==> HasChild(m, p))
                  && (ChildrenTerminal(m', dir, p) <==> ChildrenTerminal(m, dir, p))
      {
        ChildrenAfterMove(m, dir, id, after, p);
      }
    }
  }

  lemma SameFamily(m: Issues, m': Issues, dir: Directory, wakeups: set<Wakeup>)
    requires m'.Keys == m.Keys
    requires forall c :: c in m ==> m'[c].parent == m[c].parent && m'[c].status == m[c].status
    ensures NamesTerminal(m', wakeups) <==> NamesTerminal(m, wakeups)
    ensures forall p: Id :: HasChild(m', p) <==> HasChild(m, p)
    ensures forall p: Id :: ChildrenTerminal(m', dir, p) <==> ChildrenTerminal(m, dir, p)
  {
    hide IsTerminalIn, IsTerminal;
    forall p: Id ensures HasChild(m', p) <==> HasChild(m, p) {
      if HasChild(m, p) {
        var c :| c in m && m[c].parent == Some(p);
        assert m'[c].parent == Some(p);
      }
      if HasChild(m', p) {
        var c :| c in m' && m'[c].parent == Some(p);
        assert m[c].parent == Some(p);
      }
    }
  }

  // ==== A delete ====

  predicate WokenByOther(wakeups: set<Wakeup>, p: Id, id: Id) {
    exists w :: w in wakeups && w.0 == p && w.1 != id
  }

  /** Whether deleting `id` with its subtree keeps the wakeups complete: the parent was woken by another child, keeps
      an open child or keeps no child. The wakeups of the deleted issues go with them. */
  predicate DeleteKeeps(m: Issues, dir: Directory, wakeups: set<Wakeup>, id: Id)
    requires id in m
  {
    m[id].parent.Some? ==>
      WokenByOther(wakeups, m[id].parent.value, id) || OpenSibling(m, dir, id) || !HasSibling(m, id)
  }

  function Remaining(m: Issues, wakeups: set<Wakeup>): set<Wakeup> {
    set w | w in wakeups && w.0 in m && w.1 in m
  }

  lemma ChildrenAfterDelete(m: Issues, dir: Directory, id: Id, gone: set<Id>, p: Id)
    requires id in m && id in gone && p !in gone
    requires forall y :: y in gone && y != id ==> y in m && m[y].parent.Some? && m[y].parent.value in gone
    ensures var m' := Without(m, gone);
            if m[id].parent == Some(p) then
              && (HasChild(m', p) <==> HasSibling(m, id))
              && (ChildrenTerminal(m', dir, p) <==> !OpenSibling(m, dir, id))
            else
              && (HasChild(m', p) <==> HasChild(m, p))
              && (ChildrenTerminal(m', dir, p) <==> ChildrenTerminal(m, dir, p))
  {
    hide IsTerminalIn;
    var m' := Without(m, gone);
    assert forall c :: c in m && c != id && m[c].parent == Some(p) ==> c in m' && m'[c] == m[c];
    assert forall c :: c in m' ==> c in m && c != id && m'[c] == m[c];
    if HasChild(m', p) {
      var c :| c in m' && m'[c].parent == Some(p);
      assert m[c].parent == Some(p);
    }
    if HasChild(m, p) {
      var c :| c in m && m[c].parent == Some(p);
      assert c != id ==> m'[c].parent == Some(p);
    }
    if m[id].parent == Some(p) && HasSibling(m, id) {
      var c :| c in m && c != id && m[c].parent == m[id].parent;
      assert m'[c].parent == Some(p);
    }
  }

  /** Nothing outside the subtree hangs below it, and everything in it hangs below `id`. */
  lemma SubtreeShape(m: Issues, id: Id, gone: set<Id>)
    requires id in m && forall x :: x in gone <==> x in m && InSubtree(m, id, x)
    ensures id in gone
    ensures forall y :: y in gone && y != id ==> y in m && m[y].parent.Some? && m[y].parent.value in gone
    ensures forall y :: y in m && m[y].parent.Some? && m[y].parent.value in gone ==> y in gone
  {
    forall y | y in gone && y != id ensures m[y].parent.Some? && m[y].parent.value in gone {
      var k: nat :| k >= 1 && Up(m, y, k) == Some(id);
      assert Up(m, m[y].parent.value, k - 1) == Some(id);
      assert k - 1 == 0 ==> m[y].parent.value == id;
    }
    forall y | y in m && m[y].parent.Some? && m[y].parent.value in gone ensures y in gone {
      ChildInSubtree(m, id, y);
    }
  }

  lemma DeleteTracksExactly(m: Issues, dir: Directory, wakeups: set<Wakeup>, hooks: seq<Wakeup>, id: Id, gone: set<Id>)
    requires WakeupsTrack(m, dir, wakeups, hooks) && Forest(m) && id in m
    requires forall x :: x in gone <==> x in m && InSubtree(m, id, x)
    ensures WakeupsTrack(Without(m, gone), dir, Remaining(Without(m, gone), wakeups), hooks) <==>
            DeleteKeeps(m, dir, wakeups, id)
  {
    SubtreeShape(m, id, gone);
    if m[id].parent.Some? {
      ParentStays(m, id);
    }
    hide IsTerminalIn, IsTerminal, OpenSibling, HasSibling, HasChild, ChildrenTerminal, InSubtree;
    var m' := Without(m, gone);
    var rest := Remaining(m', wakeups);
    HooksAfterDelete(m, wakeups, hooks, gone);
    hide HooksMatch;
    assert NamesTerminal(m', rest);
    forall p: Id | p in gone ensures !HasChild(m', p) {
      NoChildOfGone(m, gone, p);
    }
    forall p: Id | p !in gone
      ensures m[id].parent == Some(p) ==>
                && (HasChild(m', p) <==> HasSibling(m, id))
                && (ChildrenTerminal(m', dir, p) <==> !OpenSibling(m, dir, id))
                && (Woken(rest, p) <==> WokenByOther(wakeups, p, id))
      ensures m[id].parent != Some(p) ==>
                && (HasChild(m', p) <==> HasChild(m, p))
                && (ChildrenTerminal(m', dir, p) <==> ChildrenTerminal(m, dir, p))
                && (Woken(rest, p) <==> Woken(wakeups, p))
    {
      ChildrenAfterDelete(m, dir, id, gone, p);
      WokenAfterDelete(m, wakeups, id, gone, p);
    }
  }

  lemma HooksAfterDelete(m: Issues, wakeups: set<Wakeup>, hooks: seq<Wakeup>, gone: set<Id>)
    requires HooksMatch(m, wakeups, hooks)
    ensures HooksMatch(Without(m, gone), Remaining(Without(m, gone), wakeups), hooks)
  {
  }

  lemma WokenAfterDelete(m: Issues, wakeups: set<Wakeup>, id: Id, gone: set<Id>, p: Id)
    requires NamesTerminal(m, wakeups) && OneProject(m) && id in m && id in gone && p !in gone
    requires forall y :: y in gone && y != id ==> y in m && m[y].parent.Some? && m[y].parent.value in gone
    ensures var rest := Remaining(Without(m, gone), wakeups);
            if m[id].parent == Some(p) then Woken(rest, p) <==> WokenByOther(wakeups, p, id)
            else Woken(rest, p) <==> Woken(wakeups, p)
  {
    hide IsTerminal;
    var rest := Remaining(Without(m, gone), wakeups);
    forall w | w in wakeups && w.0 == p ensures w in rest <==> w.1 != id {
      assert m[w.1].parent == Some(p);
    }
    if w :| w in wakeups && w.0 == p && w.1 != id {
      assert w in rest;
    }
    if w :| w in rest && w.0 == p {
      assert w in wakeups && w.1 != id;
    }
  }

  lemma ParentStays(m: Issues, id: Id)
    requires Forest(m) && id in m && m[id].parent.Some?
    ensures !InSubtree(m, id, m[id].parent.value)
  {
    ForestIsAcyclic(m);
    var p := m[id].parent.value;
    forall k: nat ensures Up(m, p, k) != Some(id) {
      NotOwnAncestor(m, id, k + 1);
    }
    assert Up(m, p, 0) == Some(p);
  }

  lemma NotOwnAncestor(m: Issues, id: Id, k: nat)
    requires Acyclic(m) && id in m && k >= 1
    ensures Up(m, id, k) != Some(id)
  {
  }

  lemma NoChildOfGone(m: Issues, gone: set<Id>, p: Id)
    requires p in gone && forall y :: y in m && m[y].parent == Some(p) ==> y in gone
    ensures !HasChild(Without(m, gone), p)
  {
  }

  // ==== Close intents of a merged pull request ====

  predicate Closes(m: Issues, keys: seq<Option<Id>>, id: Id) {
    id in m && Some(id) in keys && !IsTerminal(m[id].status)
  }

  /** Every named issue that is not terminal by name becomes done; nothing else changes. */
  function CloseAll(m: Issues, keys: seq<Option<Id>>): Issues {
    map id | id in m :: if Closes(m, keys, id) then m[id].(status := BuiltIn(Done)) else m[id]
  }

  /** An issue the close intents leave open: not closed and open now, or closed where done is not terminal. */
  predicate StaysOpen(m: Issues, dir: Directory, keys: seq<Option<Id>>, c: Id)
    requires c in m
  {
    !IsTerminalIn(dir, if Closes(m, keys, c) then BuiltIn(Done) else m[c].status)
  }

  /** Close intents record no wakeup, so every parent that has a child and was not woken must keep an open child. */
  ghost predicate CloseKeeps(m: Issues, dir: Directory, wakeups: set<Wakeup>, keys: seq<Option<Id>>) {
    forall p: Id :: HasChild(m, p) && !Woken(wakeups, p) ==> KeepsOpenChild(m, dir, keys, p)
  }

  predicate KeepsOpenChild(m: Issues, dir: Directory, keys: seq<Option<Id>>, p: Id) {
    exists c :: c in m && m[c].parent == Some(p) && StaysOpen(m, dir, keys, c)
  }

  lemma ChildrenAfterClose(m: Issues, dir: Directory, keys: seq<Option<Id>>, p: Id)
    ensures HasChild(CloseAll(m, keys), p) <==> HasChild(m, p)
    ensures ChildrenTerminal(CloseAll(m, keys), dir, p) <==> !KeepsOpenChild(m, dir, keys, p)
  {
    hide IsTerminalIn, Closes;
    var m' := CloseAll(m, keys);
    assert forall c :: c in m ==> m'[c].parent == m[c].parent;
    if HasChild(m, p) {
      var c :| c in m && m[c].parent == Some(p);
      assert m'[c].parent == Some(p);
    }
    if KeepsOpenChild(m, dir, keys, p) {
      var c :| c in m && m[c].parent == Some(p) && StaysOpen(m, dir, keys, c);
      assert !IsTerminalIn(dir, m'[c].status);
    }
  }

  lemma CloseTracksExactly(m: Issues, dir: Directory, wakeups: set<Wakeup>, hooks: seq<Wakeup>, keys: seq<Option<Id>>)
    requires WakeupsTrack(m, dir, wakeups, hooks)
    ensures WakeupsTrack(CloseAll(m, keys), dir, wakeups, hooks) <==> CloseKeeps(m, dir, wakeups, keys)
  {
    var m' := CloseAll(m, keys);
    assert forall w :: w in wakeups ==> m'[w.1] == m[w.1];
    assert NamesTerminal(m', wakeups);
    SameKeysSameHooks(m, m', wakeups, hooks);
    hide IsTerminalIn, IsTerminal, HooksMatch, ChildrenTerminal, HasChild, KeepsOpenChild, CloseAll, NamesTerminal;
    forall p: Id
      ensures HasChild(m', p) <==> HasChild(m, p)
      ensures ChildrenTerminal(m', dir, p) <==> !KeepsOpenChild(m, dir, keys, p)
    {
      ChildrenAfterClose(m, dir, keys, p);
    }
  }

  // ==== Inputs at which tracking is lost ====

  /** A root with a done child that woke nobody, since its sibling was still open. */
  function Family(sibling: Category): Issues {
    map[0 := Sample(None, Todo), 1 := Sample(Some(0), Done), 2 := Sample(Some(0), sibling)]
  }

  lemma FamilyTracks(dir: Directory, sibling: Category)
    requires !IsTerminalIn(dir, BuiltIn(sibling))
    ensures WakeupsTrack(Family(sibling), dir, {}, [])
  {
    hide IsTerminalIn;
    var m := Family(sibling);
    assert m[2].parent == Some(0) && !IsTerminalIn(dir, m[2].status);
    forall p: Id ensures !(HasChild(m, p) && ChildrenTerminal(m, dir, p)) {
      if HasChild(m, p) {
        var c :| c in m && m[c].parent == Some(p);
        assert p == 0;
      }
    }
  }

  lemma DefaultTerminal(c: Category)
    ensures IsTerminalIn(DefaultDirectory(), BuiltIn(c)) <==> TerminalCategory(c)
  {
    DefaultDirectoryAgrees(BuiltIn(c), BuiltIn(c));
  }

  /** Under the default directory: moving the last open child away, deleting it, or closing it by a merged pull
      request leaves a parent with only a terminal child and no wakeup. */
  lemma LastOpenChildLost(sibling: Category)
    requires !TerminalCategory(sibling)
    ensures var m, dir := Family(sibling), DefaultDirectory();
            && WakeupsTrack(m, dir, {}, [])
            && !WakeupsTrack(Reparent(m, 2, None), dir, {}, [])
            && !WakeupsTrack(Without(m, {2}), dir, {}, [])
            && !WakeupsTrack(CloseAll(m, [Some(2)]), dir, {}, [])
  {
    var m, dir := Family(sibling), DefaultDirectory();
    DefaultTerminal(sibling);
    DefaultTerminal(Done);
    hide IsTerminalIn, DefaultDirectory, HooksMatch;
    FamilyTracks(dir, sibling);
    forall m': Issues | m' == Reparent(m, 2, None) || m' == Without(m, {2}) || m' == CloseAll(m, [Some(2)])
      ensures !WakeupsTrack(m', dir, {}, [])
    {
      assert 1 in m' && m'[1] == m[1] && m[1].parent == Some(0);
      assert Some(2) in [Some(2)];
      assert forall c :: c in m' && m'[c].parent == Some(0) ==> m'[c].status == BuiltIn(Done);
      assert HasChild(m', 0) && ChildrenTerminal(m', dir, 0);
    }
  }
}
