/** Issues and the forest their parent pointers form. */
module IssueForest {
  import opened Strings
  import opened StatusMachine

  type Id = nat

  /** An issue as stored: a due date is a day. */
  datatype Issue = Issue(
    project: nat, parent: Option<Id>, title: string, description: string, priority: string,
    assignee: string, due: Option<int>, labels: seq<string>, stage: int, position: int, status: Name)

  type Issues = map<Id, Issue>

  /** Every parent exists and is in the same project. */
  predicate OneProject(m: Issues) {
    forall id :: id in m && m[id].parent.Some? ==>
      m[id].parent.value in m && m[m[id].parent.value].project == m[id].project
  }

  /** The ancestor `k` steps up, if there is one. */
  function Up(m: Issues, id: Id, k: nat): (a: Option<Id>)
    ensures a.Some? ==> a.value in m
    decreases k
  {
    if id !in m then None
    else if k == 0 then Some(id)
    else if m[id].parent.None? then None
    else Up(m, m[id].parent.value, k - 1)
  }

  /** The chain of parents of `id` ends at a root after exactly `n` steps. */
  predicate RootAfter(m: Issues, id: Id, n: nat)
    decreases n
  {
    id in m &&
    (match m[id].parent
     case None => n == 0
     case Some(p) => n > 0 && RootAfter(m, p, n - 1))
  }

  ghost predicate Rooted(m: Issues, id: Id) {
    exists n: nat :: RootAfter(m, id, n)
  }

  /** Every chain of parents ends at a root. */
  ghost predicate Forest(m: Issues) {
    OneProject(m) && forall id :: id in m ==> Rooted(m, id)
  }

  ghost predicate IsAncestor(m: Issues, a: Id, id: Id) {
    exists k: nat :: k >= 1 && Up(m, id, k) == Some(a)
  }

  ghost predicate Acyclic(m: Issues) {
    forall id :: id in m ==> !IsAncestor(m, id, id)
  }

  // ---- Facts about chains ----

  lemma {:induction false} UpAdd(m: Issues, id: Id, j: nat, k: nat)
    requires Up(m, id, j).Some?
    ensures Up(m, id, j + k) == Up(m, Up(m, id, j).value, k)
    decreases j
  {
    if j > 0 {
      UpAdd(m, m[id].parent.value, j - 1, k);
    }
  }

  lemma {:induction false} RootAfterUp(m: Issues, id: Id, n: nat, k: nat)
    requires RootAfter(m, id, n)
    ensures Up(m, id, k).Some? <==> k <= n
    ensures k <= n ==> RootAfter(m, Up(m, id, k).value, n - k)
    decreases k
  {
    if k > 0 && n > 0 {
      RootAfterUp(m, m[id].parent.value, n - 1, k - 1);
    }
  }

  lemma {:induction false} RootAfterUnique(m: Issues, id: Id, n1: nat, n2: nat)
    requires RootAfter(m, id, n1) && RootAfter(m, id, n2)
    ensures n1 == n2
    decreases n1
  {
    if n1 > 0 {
      RootAfterUnique(m, m[id].parent.value, n1 - 1, n2 - 1);
    }
  }

  /** A forest has no cycles: no issue is its own ancestor. */
  lemma ForestIsAcyclic(m: Issues)
    requires Forest(m)
    ensures Acyclic(m)
  {
    forall id | id in m ensures !IsAncestor(m, id, id) {
      if k: nat :| k >= 1 && Up(m, id, k) == Some(id) {
        var n: nat :| RootAfter(m, id, n);
        RootAfterUp(m, id, n, k);
        RootAfterUnique(m, id, n, n - k);
      }
    }
  }

  // ==== Moving an issue under a new parent ====

  function Reparent(m: Issues, id: Id, parent: Option<Id>): Issues
    requires id in m
  {
    m[id := m[id].(parent := parent)]
  }

  /** A chain that does not pass through the moved issue is unchanged. */
  lemma {:induction false} ChainElsewhere(m: Issues, id: Id, parent: Option<Id>, x: Id, n: nat)
    requires id in m && RootAfter(m, x, n)
    requires x != id && !IsAncestor(m, id, x)
    ensures RootAfter(Reparent(m, id, parent), x, n)
    decreases n
  {
    if n > 0 {
      var p := m[x].parent.value;
      assert forall k: nat :: Up(m, x, k + 1) == Up(m, p, k);
      assert Up(m, x, 1) == Up(m, p, 0) == Some(p);
      ChainElsewhere(m, id, parent, p, n - 1);
    }
  }

  lemma {:induction false} ChainRerouted(m: Issues, id: Id, parent: Option<Id>, x: Id, n: nat)
    requires id in m && RootAfter(m, x, n) && Rooted(Reparent(m, id, parent), id)
    ensures Rooted(Reparent(m, id, parent), x)
    decreases n
  {
    var m' := Reparent(m, id, parent);
    if x != id {
      if n == 0 {
        assert RootAfter(m', x, 0);
      } else {
        ChainRerouted(m, id, parent, m[x].parent.value, n - 1);
        var n': nat :| RootAfter(m', m[x].parent.value, n');
        assert RootAfter(m', x, n' + 1);
      }
    }
  }

  /** Making an issue a root keeps the forest. */
  lemma DetachKeepsForest(m: Issues, id: Id)
    requires Forest(m) && id in m
    ensures Forest(Reparent(m, id, None))
  {
    var m' := Reparent(m, id, None);
    assert RootAfter(m', id, 0);
    forall x | x in m' ensures Rooted(m', x) {
      var n: nat :| RootAfter(m, x, n);
      ChainRerouted(m, id, None, x, n);
    }
  }

  /** A move to an issue of the same project that is not the issue itself or below it keeps the forest. */
  lemma MoveKeepsForest(m: Issues, id: Id, p: Id)
    requires Forest(m) && id in m && p in m && m[p].project == m[id].project
    requires p != id && !IsAncestor(m, id, p)
    ensures Forest(Reparent(m, id, Some(p)))
  {
    var m' := Reparent(m, id, Some(p));
    var n: nat :| RootAfter(m, p, n);
    ChainElsewhere(m, id, Some(p), p, n);
    assert RootAfter(m', id, n + 1);
    forall x | x in m' ensures Rooted(m', x) {
      var k: nat :| RootAfter(m, x, k);
      ChainRerouted(m, id, Some(p), x, k);
    }
  }

  lemma {:induction false} UpSurvives(m: Issues, id: Id, parent: Option<Id>, x: Id, k: nat)
    requires id in m && Up(m, x, k) == Some(id) && forall j: nat :: j < k ==> Up(m, x, j) != Some(id)
    ensures Up(Reparent(m, id, parent), x, k) == Some(id)
    decreases k
  {
    if k > 0 {
      assert Up(m, x, 0) == Some(x);
      forall j: nat | j < k - 1 ensures Up(m, m[x].parent.value, j) != Some(id) {
        assert Up(m, x, j + 1) == Up(m, m[x].parent.value, j);
      }
      UpSurvives(m, id, parent, m[x].parent.value, k - 1);
    }
  }

  /** The first time `id` appears above `x`. */
  lemma {:induction false} FirstUp(m: Issues, id: Id, x: Id, k: nat) returns (j: nat)
    requires Up(m, x, k) == Some(id)
    ensures j <= k && Up(m, x, j) == Some(id) && forall i: nat :: i < j ==> Up(m, x, i) != Some(id)
    decreases k
  {
    if i: nat :| i < k && Up(m, x, i) == Some(id) {
      j := FirstUp(m, id, x, i);
    } else {
      j := k;
    }
  }

  /** A move onto the issue itself or one of its descendants closes a cycle. */
  lemma MoveClosesCycle(m: Issues, id: Id, p: Id)
    requires id in m && p in m && (p == id || IsAncestor(m, id, p))
    ensures !Acyclic(Reparent(m, id, Some(p)))
  {
    var m' := Reparent(m, id, Some(p));
    var k: nat := if p == id then 0 else var k: nat :| k >= 1 && Up(m, p, k) == Some(id); k;
    assert Up(m, p, k) == Some(id);
    var j := FirstUp(m, id, p, k);
    UpSurvives(m, id, Some(p), p, j);
    assert Up(m', id, j + 1) == Some(id);
    assert IsAncestor(m', id, id);
  }

  /** The cycle test rejects exactly the moves within a project that would close a cycle. */
  lemma MoveExactly(m: Issues, id: Id, p: Id)
    requires Forest(m) && id in m && p in m && m[p].project == m[id].project
    ensures Acyclic(Reparent(m, id, Some(p))) <==> p != id && !IsAncestor(m, id, p)
    ensures Forest(Reparent(m, id, Some(p))) <==> p != id && !IsAncestor(m, id, p)
  {
    if p != id && !IsAncestor(m, id, p) {
      MoveKeepsForest(m, id, p);
      ForestIsAcyclic(Reparent(m, id, Some(p)));
    } else {
      MoveClosesCycle(m, id, p);
      if Forest(Reparent(m, id, Some(p))) {
        ForestIsAcyclic(Reparent(m, id, Some(p)));
      }
    }
  }

  // ==== The ancestor walk ====

  /** The walk from `p` has a reason to stop after `k` steps: it is at a root or just below `id`. */
  predicate WalkStops(m: Issues, id: Id, p: Id, k: nat) {
    var a := Up(m, p, k);
    a.Some? && (m[a.value].parent.None? || m[a.value].parent == Some(id))
  }

  lemma {:induction false} UpRoot(m: Issues, p: Id, k: nat)
    ensures RootAfter(m, p, k) <==> Up(m, p, k).Some? && m[Up(m, p, k).value].parent.None?
    decreases k
  {
    if p in m && m[p].parent.Some? && k > 0 {
      UpRoot(m, m[p].parent.value, k - 1);
    }
  }

  lemma {:induction false} UpStep(m: Issues, p: Id, k: nat, id: Id)
    requires id in m
    ensures Up(m, p, k + 1) == Some(id) <==> Up(m, p, k).Some? && m[Up(m, p, k).value].parent == Some(id)
    decreases k
  {
    if p in m && m[p].parent.Some? {
      if k > 0 {
        UpStep(m, m[p].parent.value, k - 1, id);
      } else {
        assert Up(m, p, 1) == Up(m, m[p].parent.value, 0);
      }
    }
  }

  /** The walk stops exactly when the chain above `p` reaches a root or `id`; nothing else bounds it, so
      it is the forest that makes the check terminate. */
  lemma WalkEndsExactly(m: Issues, id: Id, p: Id)
    requires id in m
    ensures (exists k: nat :: WalkStops(m, id, p, k)) <==> Rooted(m, p) || IsAncestor(m, id, p)
  {
    if k: nat :| WalkStops(m, id, p, k) {
      UpRoot(m, p, k);
      UpStep(m, p, k, id);
    }
    if k: nat :| RootAfter(m, p, k) {
      UpRoot(m, p, k);
      assert WalkStops(m, id, p, k);
    }
    if k: nat :| k >= 1 && Up(m, p, k) == Some(id) {
      UpStep(m, p, k - 1, id);
      assert WalkStops(m, id, p, k - 1);
    }
  }

  // ==== Two moves checked against the same state ====

  /** The issue and everything below it. */
  ghost predicate InSubtree(m: Issues, root: Id, x: Id) {
    x == root || IsAncestor(m, root, x)
  }

  lemma ChildInSubtree(m: Issues, root: Id, x: Id)
    requires x in m && m[x].parent.Some? && InSubtree(m, root, m[x].parent.value) && root in m
    ensures InSubtree(m, root, x)
  {
    var p := m[x].parent.value;
    assert forall k: nat :: Up(m, x, k + 1) == Up(m, p, k);
    if p == root {
      assert Up(m, x, 0 + 1) == Some(root);
    } else {
      var k: nat :| k >= 1 && Up(m, p, k) == Some(root);
      assert Up(m, x, k + 1) == Some(root);
    }
  }

  /** The chain above an issue outside the moved subtree is unchanged. */
  lemma {:induction false} UpElsewhere(m: Issues, id: Id, parent: Option<Id>, x: Id, k: nat)
    requires id in m && !InSubtree(m, id, x)
    ensures Up(Reparent(m, id, parent), x, k) == Up(m, x, k)
    decreases k
  {
    if k > 0 && x in m && m[x].parent.Some? {
      if InSubtree(m, id, m[x].parent.value) {
        ChildInSubtree(m, id, x);
      } else {
        UpElsewhere(m, id, parent, m[x].parent.value, k - 1);
      }
    }
  }

  /** After `a` moved under `p`, `b` is above `q` at distance `k` only through `a` and `p`. */
  lemma {:induction false} AboveThroughMove(m: Issues, a: Id, p: Id, b: Id, q: Id, k: nat)
    requires a in m && b in m && !InSubtree(m, a, p) && !InSubtree(m, b, q)
    requires Up(Reparent(m, a, Some(p)), q, k) == Some(b)
    ensures InSubtree(m, a, q) && InSubtree(m, b, p)
    decreases k
  {
    if q == a {
      UpElsewhere(m, a, Some(p), p, k - 1);
      assert Up(m, p, k - 1) == Some(b);
    } else {
      var q' := m[q].parent.value;
      if InSubtree(m, b, q') {
        ChildInSubtree(m, b, q);
      }
      AboveThroughMove(m, a, p, b, q', k - 1);
      ChildInSubtree(m, a, q);
    }
  }

  lemma TwoParentsExactly(m: Issues, a: Id, p: Id, b: Id, q: Id)
    requires Forest(m) && a in m && p in m && b in m && q in m && a != b
    requires m[p].project == m[a].project && m[q].project == m[b].project
    requires !InSubtree(m, a, p) && !InSubtree(m, b, q)
    ensures Forest(Reparent(Reparent(m, a, Some(p)), b, Some(q))) <==> !(InSubtree(m, a, q) && InSubtree(m, b, p))
  {
    var m1 := Reparent(m, a, Some(p));
    MoveKeepsForest(m, a, p);
    MoveExactly(m1, b, q);
    if k: nat :| k >= 1 && Up(m1, q, k) == Some(b) {
      AboveThroughMove(m, a, p, b, q, k);
    }
    if InSubtree(m, a, q) && InSubtree(m, b, p) {
      var i: nat := if q == a then 0 else var k: nat :| k >= 1 && Up(m, q, k) == Some(a); k;
      var j := FirstUp(m, a, q, i);
      UpSurvives(m, a, Some(p), q, j);
      var n: nat := if p == b then 0 else var k: nat :| k >= 1 && Up(m, p, k) == Some(b); k;
      UpElsewhere(m, a, Some(p), p, n);
      UpAdd(m1, q, j, n + 1);
      assert Up(m1, a, n + 1) == Up(m1, p, n) == Some(b);
      assert IsAncestor(m1, b, q);
    }
  }

  /** What the check of a move lets pass: no parent, or one of the same project that is not below the issue. */
  ghost predicate MoveAllowed(m: Issues, a: Id, parent: Option<Id>)
    requires a in m
  {
    parent.Some? ==>
      parent.value in m && m[parent.value].project == m[a].project && !InSubtree(m, a, parent.value)
  }

  /** Each new parent is the other moved issue or lies below it. */
  ghost predicate Crossing(m: Issues, a: Id, p: Option<Id>, b: Id, q: Option<Id>) {
    a != b && p.Some? && q.Some? && InSubtree(m, a, q.value) && InSubtree(m, b, p.value)
  }

  lemma AllowedKeepsForest(m: Issues, a: Id, parent: Option<Id>)
    requires Forest(m) && a in m && MoveAllowed(m, a, parent)
    ensures Forest(Reparent(m, a, parent))
  {
    if parent.Some? {
      MoveKeepsForest(m, a, parent.value);
    } else {
      DetachKeepsForest(m, a);
    }
  }

  lemma {:induction false} UpAfterDetach(m: Issues, a: Id, x: Id, k: nat)
    requires a in m && Up(Reparent(m, a, None), x, k).Some?
    ensures Up(m, x, k) == Up(Reparent(m, a, None), x, k)
    decreases k
  {
    if k > 0 {
      UpAfterDetach(m, a, m[x].parent.value, k - 1);
    }
  }

  /** Two moves, each allowed in the state both were checked against, leave a forest when written one after the other
      if and only if they do not cross. */
  lemma ConcurrentMovesExactly(m: Issues, a: Id, p: Option<Id>, b: Id, q: Option<Id>)
    requires Forest(m) && a in m && b in m && MoveAllowed(m, a, p) && MoveAllowed(m, b, q)
    ensures Forest(Reparent(Reparent(m, a, p), b, q)) <==> !Crossing(m, a, p, b, q)
  {
    var m1 := Reparent(m, a, p);
    AllowedKeepsForest(m, a, p);
    AllowedKeepsForest(m, b, q);
    if a == b {
      assert Reparent(m1, b, q) == Reparent(m, b, q);
    } else if q.None? {
      DetachKeepsForest(m1, b);
    } else if p.None? {
      forall k: nat | k >= 1 ensures Up(m1, q.value, k) != Some(b) {
        DetachedStays(m, a, b, q.value, k);
      }
      MoveKeepsForest(m1, b, q.value);
    } else {
      TwoParentsExactly(m, a, p.value, b, q.value);
    }
  }

  lemma DetachedStays(m: Issues, a: Id, b: Id, x: Id, k: nat)
    requires a in m && k >= 1 && !InSubtree(m, b, x)
    ensures Up(Reparent(m, a, None), x, k) != Some(b)
  {
    if Up(Reparent(m, a, None), x, k).Some? {
      UpAfterDetach(m, a, x, k);
    }
  }

  // ==== Cascading delete ====

  function Without(m: Issues, gone: set<Id>): Issues {
    map id | id in m && id !in gone :: m[id]
  }

  lemma {:induction false} ChainKept(m: Issues, gone: set<Id>, x: Id, n: nat)
    requires RootAfter(m, x, n) && x !in gone
    requires forall y :: y in m && m[y].parent.Some? && m[y].parent.value in gone ==> y in gone
    ensures RootAfter(Without(m, gone), x, n)
    decreases n
  {
    if n > 0 {
      ChainKept(m, gone, m[x].parent.value, n - 1);
    }
  }

  /** Removing a set closed under children keeps the forest. */
  lemma DeleteKeepsForest(m: Issues, gone: set<Id>)
    requires Forest(m)
    requires forall y :: y in m && m[y].parent.Some? && m[y].parent.value in gone ==> y in gone
    ensures Forest(Without(m, gone))
  {
    var m' := Without(m, gone);
    forall x | x in m' ensures Rooted(m', x) {
      var n: nat :| RootAfter(m, x, n);
      ChainKept(m, gone, x, n);
    }
  }

  lemma {:induction false} SubtreeClosed(m: Issues, root: Id, gone: set<Id>, x: Id, k: nat)
    requires root in gone && Up(m, x, k) == Some(root)
    requires forall y :: y in m && m[y].parent.Some? && m[y].parent.value in gone ==> y in gone
    ensures x in gone
    decreases k
  {
    if k > 0 {
      SubtreeClosed(m, root, gone, m[x].parent.value, k - 1);
    }
  }

  /** Creating an issue with an existing parent in its project keeps the forest. */
  lemma CreateKeepsForest(m: Issues, id: Id, issue: Issue)
    requires Forest(m) && id !in m
    requires issue.parent.Some? ==> issue.parent.value in m && m[issue.parent.value].project == issue.project
    ensures Forest(m[id := issue])
  {
    var m' := m[id := issue];
    forall x, n: nat | x in m && RootAfter(m, x, n) ensures RootAfter(m', x, n) {
      ChainExtends(m, m', x, n);
    }
    forall x | x in m' ensures Rooted(m', x) {
      if x != id {
        var n: nat :| RootAfter(m, x, n);
        assert RootAfter(m', x, n);
      } else if issue.parent.Some? {
        var n: nat :| RootAfter(m, issue.parent.value, n);
        assert RootAfter(m', issue.parent.value, n);
        assert RootAfter(m', id, n + 1);
      } else {
        assert RootAfter(m', id, 0);
      }
    }
  }

  lemma {:induction false} ChainExtends(m: Issues, m': Issues, x: Id, n: nat)
    requires RootAfter(m, x, n) && forall y :: y in m ==> y in m' && m'[y].parent == m[y].parent
    ensures RootAfter(m', x, n)
    decreases n
  {
    if n > 0 {
      ChainExtends(m, m', m[x].parent.value, n - 1);
    }
  }

  /** The forest depends only on parents and projects. */
  lemma SameParentsKeepForest(m: Issues, m': Issues)
    requires Forest(m) && m'.Keys == m.Keys
    requires forall y :: y in m ==> m'[y].parent == m[y].parent && m'[y].project == m[y].project
    ensures Forest(m')
  {
    forall x | x in m' ensures Rooted(m', x) {
      var n: nat :| RootAfter(m, x, n);
      ChainExtends(m, m', x, n);
    }
  }
}
