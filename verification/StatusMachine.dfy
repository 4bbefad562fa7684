/** The issue status machine, over the built-in statuses and over a workspace's status directory. */
module StatusMachine {
  import opened Strings

  datatype Category = Backlog | Todo | InProgress | InReview | Done | Blocked | Cancelled

  /** A status name: one of the built-in words, or any other text a workspace defines. */
  datatype Name = BuiltIn(category: Category) | Custom(text: string)

  datatype DirectoryEntry = DirectoryEntry(name: Name, category: Category)

  type Directory = seq<DirectoryEntry>

  /** The legal moves between categories. */
  const TRANSITIONS: map<Category, set<Category>> := map[
    Backlog := {Todo, Cancelled},
    Todo := {InProgress, Blocked, Cancelled},
    InProgress := {InReview, Blocked, Todo, Cancelled},
    InReview := {Done, InProgress, Cancelled},
    Blocked := {InProgress, Todo, Cancelled},
    Done := {},
    Cancelled := {}]

  predicate Legal(from: Category, to: Category) {
    from in TRANSITIONS && to in TRANSITIONS[from]
  }

  predicate TerminalCategory(c: Category) {
    c == Done || c == Cancelled
  }

  /** The place of a category on the way from backlog to done; blocked and cancelled are off it. */
  function Stage(c: Category): Option<nat> {
    match c
    case Backlog => Some(0)
    case Todo => Some(1)
    case InProgress => Some(2)
    case InReview => Some(3)
    case Done => Some(4)
    case _ => None
  }

  /** The moves in words: one step forward on the way; one step back from in progress and in review; from todo and
      in progress to blocked and back; and from anything but done and cancelled to cancelled. */
  lemma LegalExactly(from: Category, to: Category)
    ensures Legal(from, to) <==>
              || (Stage(from).Some? && Stage(to) == Some(Stage(from).value + 1))
              || (from == InProgress && to == Todo) || (from == InReview && to == InProgress)
              || ((from == Todo || from == InProgress) && to == Blocked)
              || (from == Blocked && (to == Todo || to == InProgress))
              || (from != Done && from != Cancelled && to == Cancelled)
  {
    hide TerminalCategory;
  }

  /** A category is terminal if and only if no move leaves it. */
  lemma TerminalExactly(c: Category)
    ensures TerminalCategory(c) <==> forall to :: !Legal(c, to)
  {
    if !TerminalCategory(c) {
      assert Legal(c, Cancelled);
    }
  }

  predicate IsTerminal(name: Name) {
    name.BuiltIn? && TerminalCategory(name.category)
  }

  predicate CanTransition(from: Name, to: Name) {
    from.BuiltIn? && to.BuiltIn? && Legal(from.category, to.category)
  }

  datatype Error = UnknownStatus(name: Name) | IllegalTransition
  datatype Result = Moved(to: Name) | Refused(error: Error)

  function Transition(from: Name, to: Name): Result {
    if !from.BuiltIn? then Refused(UnknownStatus(from))
    else if !to.BuiltIn? then Refused(UnknownStatus(to))
    else if !Legal(from.category, to.category) then Refused(IllegalTransition)
    else Moved(to)
  }

  /** The category of the first entry with this name. */
  function StatusCategory(dir: Directory, name: Name): (r: Option<Category>)
    ensures r.Some? ==> exists i :: 0 <= i < |dir| && dir[i] == DirectoryEntry(name, r.value)
    ensures r.None? <==> forall i :: 0 <= i < |dir| ==> dir[i].name != name
  {
    if dir == [] then None
    else if dir[0].name == name then
      assert dir[0] == DirectoryEntry(name, dir[0].category);
      Some(dir[0].category)
    else
      var r := StatusCategory(dir[1..], name);
      assert forall i :: 1 <= i < |dir| ==> dir[i] == dir[1..][i - 1];
      r
  }

  predicate IsTerminalIn(dir: Directory, name: Name) {
    var cat := StatusCategory(dir, name);
    cat.Some? && TerminalCategory(cat.value)
  }

  function TransitionIn(dir: Directory, from: Name, to: Name): Result {
    match StatusCategory(dir, from)
    case None => Refused(UnknownStatus(from))
    case Some(fromCat) =>
      match StatusCategory(dir, to)
      case None => Refused(UnknownStatus(to))
      case Some(toCat) => if Legal(fromCat, toCat) then Moved(to) else Refused(IllegalTransition)
  }

  const DEFAULT_CATEGORIES := [Backlog, Todo, InProgress, InReview, Blocked, Done, Cancelled]

  function EntriesOf(cats: seq<Category>): (dir: Directory)
    ensures |dir| == |cats| && forall i :: 0 <= i < |cats| ==> dir[i] == DirectoryEntry(BuiltIn(cats[i]), cats[i])
  {
    if cats == [] then [] else [DirectoryEntry(BuiltIn(cats[0]), cats[0])] + EntriesOf(cats[1..])
  }

  /** DefaultStatusDirectory: every built-in name is its own category. */
  function DefaultDirectory(): Directory {
    EntriesOf(DEFAULT_CATEGORIES)
  }

  lemma DefaultCategoryOf(name: Name)
    ensures StatusCategory(DefaultDirectory(), name) == if name.BuiltIn? then Some(name.category) else None
  {
    hide StatusCategory, EntriesOf;
    var dir := DefaultDirectory();
    assert DEFAULT_CATEGORIES[0] == Backlog && DEFAULT_CATEGORIES[1] == Todo && DEFAULT_CATEGORIES[2] == InProgress;
    assert DEFAULT_CATEGORIES[3] == InReview && DEFAULT_CATEGORIES[4] == Blocked && DEFAULT_CATEGORIES[5] == Done;
    assert DEFAULT_CATEGORIES[6] == Cancelled;
    if name.BuiltIn? {
      assert exists i :: 0 <= i < |dir| && dir[i].name == name;
    }
  }

  /** With the default directory the directory-driven machine is the built-in one, for every pair of names. */
  lemma DefaultDirectoryAgrees(from: Name, to: Name)
    ensures TransitionIn(DefaultDirectory(), from, to) == Transition(from, to)
    ensures IsTerminalIn(DefaultDirectory(), from) == IsTerminal(from)
  {
    DefaultCategoryOf(from);
    DefaultCategoryOf(to);
  }

  /** Whatever the directory, an accepted move follows the category machine, and none leaves a terminal category. */
  lemma TerminalIsFinal(dir: Directory, from: Name, to: Name)
    requires IsTerminalIn(dir, from)
    ensures TransitionIn(dir, from, to).Refused?
  {
  }

  predicate FirstAt(dir: Directory, name: Name, i: int) {
    0 <= i < |dir| && dir[i].name == name && forall j :: 0 <= j < i ==> dir[j].name != name
  }

  /** The directory has the name, and its first entry puts it in the category. */
  ghost predicate NamedFirst(dir: Directory, name: Name, c: Category) {
    exists i :: FirstAt(dir, name, i) && dir[i].category == c
  }

  predicate Known(dir: Directory, name: Name) {
    exists i :: 0 <= i < |dir| && dir[i].name == name
  }

  lemma {:induction false} FirstIndex(dir: Directory, name: Name) returns (i: nat)
    requires StatusCategory(dir, name).Some?
    ensures FirstAt(dir, name, i) && StatusCategory(dir, name) == Some(dir[i].category)
  {
    if dir[0].name == name {
      i := 0;
    } else {
      var k := FirstIndex(dir[1..], name);
      i := k + 1;
      assert forall j :: 0 < j < |dir| ==> dir[j] == dir[1..][j - 1];
    }
  }

  lemma CategoryExactly(dir: Directory, name: Name, c: Category)
    ensures StatusCategory(dir, name) == Some(c) <==> NamedFirst(dir, name, c)
    ensures StatusCategory(dir, name).Some? <==> Known(dir, name)
  {
    hide StatusCategory;
    if StatusCategory(dir, name).Some? {
      var i := FirstIndex(dir, name);
    }
  }

  /** A move is accepted exactly when the directory has both names and their categories follow each other; otherwise
      the first name it does not have is unknown, or the move is illegal. */
  lemma TransitionInExactly(dir: Directory, from: Name, to: Name)
    ensures var r := TransitionIn(dir, from, to);
            && (r == Moved(to) <==> exists a, b :: NamedFirst(dir, from, a) && NamedFirst(dir, to, b) && Legal(a, b))
            && (r.Moved? ==> r == Moved(to))
            && (!Known(dir, from) ==> r == Refused(UnknownStatus(from)))
            && (Known(dir, from) && !Known(dir, to) ==> r == Refused(UnknownStatus(to)))
            && (Known(dir, from) && Known(dir, to) && r.Refused? ==> r.error == IllegalTransition)
  {
    hide StatusCategory, Legal, NamedFirst, Known;
    CategoryExactly(dir, from, Todo);
    CategoryExactly(dir, to, Todo);
    forall c ensures StatusCategory(dir, from) == Some(c) <==> NamedFirst(dir, from, c) {
      CategoryExactly(dir, from, c);
    }
    forall c ensures StatusCategory(dir, to) == Some(c) <==> NamedFirst(dir, to, c) {
      CategoryExactly(dir, to, c);
    }
  }

  // ---- The status of a new issue ----

  predicate NoTodo(dir: Directory) {
    forall i :: 0 <= i < |dir| ==> dir[i].category != Todo
  }

  predicate FirstTodoAt(dir: Directory, i: int) {
    0 <= i < |dir| && dir[i].category == Todo && forall j :: 0 <= j < i ==> dir[j].category != Todo
  }

  /** The first entry of the todo category, else the first entry, else the built-in todo. */
  function DefaultStatus(dir: Directory): (s: Name)
    ensures NoTodo(dir) ==> s == if dir == [] then BuiltIn(Todo) else dir[0].name
    ensures forall i :: FirstTodoAt(dir, i) ==> s == dir[i].name
  {
    if dir == [] then BuiltIn(Todo)
    else FirstTodo(dir, dir[0].name)
  }

  function FirstTodo(dir: Directory, fallback: Name): (s: Name)
    ensures NoTodo(dir) ==> s == fallback
    ensures forall i :: FirstTodoAt(dir, i) ==> s == dir[i].name
  {
    if dir == [] then fallback
    else if dir[0].category == Todo then dir[0].name
    else
      assert NoTodo(dir) ==> NoTodo(dir[1..]);
      assert forall i :: FirstTodoAt(dir, i) ==> i > 0 && dir[i] == dir[1..][i - 1] && FirstTodoAt(dir[1..], i - 1);
      hide NoTodo, FirstTodoAt;
      FirstTodo(dir[1..], fallback)
  }

  lemma DefaultStatusIsTodo()
    ensures DefaultStatus(DefaultDirectory()) == BuiltIn(Todo)
  {
    var dir := DefaultDirectory();
    assert DEFAULT_CATEGORIES[0] == Backlog && DEFAULT_CATEGORIES[1] == Todo;
    assert FirstTodoAt(dir, 1);
  }
}
