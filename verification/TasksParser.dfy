/** The tasks artifact: finding its fenced json block and validating the task list inside. */
module TasksParser {
  import opened Strings

  const FENCE := "```"

  predicate IsFence(line: string) {
    FENCE <= TrimSpace(line)
  }

  /** strings.EqualFold(lang, "json"); U+017F (long s) folds to s. */
  predicate FoldsToJson(lang: string) {
    && |lang| == 4
    && (lang[0] == 'j' || lang[0] == 'J')
    && (lang[1] == 's' || lang[1] == 'S' || lang[1] == '\U{17f}')
    && (lang[2] == 'o' || lang[2] == 'O')
    && (lang[3] == 'n' || lang[3] == 'N')
  }

  predicate OpensJson(line: string) {
    IsFence(line) && FoldsToJson(TrimSpace(TrimSpace(line)[3..]))
  }

  function JoinLines(lines: seq<string>): string {
    if lines == [] then "" else Join(lines, '\n')
  }

  /** Lines i and j open and close the first json block of the text. */
  predicate IsBlock(lines: seq<string>, i: int, j: int) {
    && 0 <= i < j < |lines|
    && OpensJson(lines[i]) && (forall k :: 0 <= k < i ==> !OpensJson(lines[k]))
    && IsFence(lines[j]) && (forall k :: i < k < j ==> !IsFence(lines[k]))
  }

  function FirstOpener(lines: seq<string>, from: nat): (i: int)
    requires from <= |lines|
    ensures i == -1 || from <= i < |lines|
    decreases |lines| - from
  {
    if from == |lines| then -1 else if OpensJson(lines[from]) then from else FirstOpener(lines, from + 1)
  }

  function FirstFence(lines: seq<string>, from: nat): (j: int)
    requires from <= |lines|
    ensures j == -1 || from <= j < |lines|
    decreases |lines| - from
  {
    if from == |lines| then -1 else if IsFence(lines[from]) then from else FirstFence(lines, from + 1)
  }

  lemma {:induction false} FirstOpenerIs(lines: seq<string>, from: nat)
    requires from <= |lines|
    ensures var i := FirstOpener(lines, from);
            && (i >= 0 ==> OpensJson(lines[i]))
            && forall k :: from <= k < (if i >= 0 then i else |lines|) ==> !OpensJson(lines[k])
    decreases |lines| - from
  {
    hide OpensJson;
    if from < |lines| && !OpensJson(lines[from]) {
      FirstOpenerIs(lines, from + 1);
    }
  }

  lemma {:induction false} FirstFenceIs(lines: seq<string>, from: nat)
    requires from <= |lines|
    ensures var j := FirstFence(lines, from);
            && (j >= 0 ==> IsFence(lines[j]))
            && forall k :: from <= k < (if j >= 0 then j else |lines|) ==> !IsFence(lines[k])
    decreases |lines| - from
  {
    hide IsFence;
    if from < |lines| && !IsFence(lines[from]) {
      FirstFenceIs(lines, from + 1);
    }
  }

  /** The body of the first json block, or nothing when there is none or it is never closed. */
  function JSONFence(content: string): Option<string> {
    var lines := Split(content, '\n');
    var i := FirstOpener(lines, 0);
    if i < 0 then None else
      var j := FirstFence(lines, i + 1);
      if j < 0 then None else Some(JoinLines(lines[i + 1..j]))
  }

  /** Extraction succeeds exactly when some lines form the first json block, and returns what is between them. */
  lemma JSONFenceExact(content: string, lines: seq<string>)
    requires lines == Split(content, '\n')
    ensures JSONFence(content).Some? ==> exists i, j :: IsBlock(lines, i, j)
    ensures forall i, j :: IsBlock(lines, i, j) ==> JSONFence(content) == Some(JoinLines(lines[i + 1..j]))
  {
    hide OpensJson, IsFence, Split, JoinLines;
    var i0 := FirstOpener(lines, 0);
    FirstOpenerIs(lines, 0);
    if i0 >= 0 {
      FirstFenceIs(lines, i0 + 1);
    }
    if JSONFence(content).Some? {
      assert IsBlock(lines, i0, FirstFence(lines, i0 + 1));
    }
    forall i, j | IsBlock(lines, i, j)
      ensures i0 >= 0 && JSONFence(content) == Some(JoinLines(lines[i + 1..j]))
    {
      assert i == i0 && j == FirstFence(lines, i0 + 1);
    }
  }

  /** Extraction returns exactly the body of intro + opening fence + body + closing fence + rest. */
  lemma ExtractsBody(intro: seq<string>, open: string, body: seq<string>, close: string, rest: seq<string>)
    requires NoneHolds(intro + [open] + body + [close] + rest, '\n')
    requires forall k :: 0 <= k < |intro| ==> !OpensJson(intro[k])
    requires OpensJson(open) && IsFence(close)
    requires forall k :: 0 <= k < |body| ==> !IsFence(body[k])
    ensures JSONFence(JoinLines(intro + [open] + body + [close] + rest)) == Some(JoinLines(body))
  {
    hide OpensJson, IsFence;
    var lines := intro + [open] + body + [close] + rest;
    var content := JoinLines(lines);
    SplitJoin(lines, '\n');
    var i, j := |intro|, |intro| + 1 + |body|;
    assert lines[i + 1..j] == body;
    assert IsBlock(lines, i, j);
    JSONFenceExact(content, lines);
  }

  lemma JsonFenceOpens()
    ensures OpensJson("```json") && IsFence("```")
  {
    hide TrimSpace;
    var open := "```json";
    TrimSpaceKeeps(open);
    TrimSpaceKeeps("json");
    TrimSpaceKeeps("```");
    assert open[3..] == "json";
  }

  // ---- The shape of the lines ----

  /** Three backticks after the space `a`, and then `rest`. */
  predicate Fenced(line: string, a: string, rest: string) {
    Spaces(a) && line == a + (FENCE + rest)
  }

  /** A fence line has three backticks after any space, whatever follows. */
  lemma FenceExactly(line: string)
    ensures IsFence(line) <==> exists a, rest :: Fenced(line, a, rest)
  {
    if IsFence(line) {
      FenceParts(line);
    }
    hide TrimSpace;
    forall a, rest | Fenced(line, a, rest) ensures IsFence(line) {
      FenceAhead(a, rest);
    }
  }

  lemma FenceParts(line: string)
    requires IsFence(line)
    ensures exists a, rest :: Fenced(line, a, rest)
  {
    hide TrimSpace, Spaces;
    var a, b := TrimSpaceParts(line);
    var t := TrimSpace(line);
    assert t == FENCE + t[3..];
    assert line == a + (FENCE + (t[3..] + b));
    assert Fenced(line, a, t[3..] + b);
  }

  lemma FenceAhead(a: string, rest: string)
    requires Spaces(a)
    ensures TrimSpace(a + (FENCE + rest)) == FENCE + TrimRight(rest)
  {
    var s := FENCE + rest;
    TrimLeftSpaces(a, s);
    assert s[0] == '`' && TrimLeft(s) == s;
    TrimRightAfter(FENCE, rest);
  }

  lemma {:induction false} TrimRightAfter(head: string, s: string)
    requires head != "" && !IsSpace(head[|head| - 1])
    ensures TrimRight(head + s) == head + TrimRight(s)
    decreases |s|
  {
    if s == "" {
      assert head + s == head;
    } else {
      var n := |s| - 1;
      assert (head + s)[|head| + n] == s[n] && (head + s)[..|head| + n] == head + s[..n];
      TrimRightAfter(head, s[..n]);
    }
  }

  /** The language after the fence is the rest of the line without the space around it. */
  lemma OpensExactly(line: string, a: string, rest: string)
    requires Fenced(line, a, rest)
    ensures OpensJson(line) <==> FoldsToJson(TrimSpace(rest))
  {
    FenceAhead(a, rest);
    assert TrimSpace(line)[3..] == TrimRight(rest);
    assert IsFence(line);
    hide TrimLeft, TrimRight, FoldsToJson;
    TrimOfTrimmed(rest);
  }

  lemma MoreSpace(c: string, u: string, d: string, b: string)
    requires Spaces(d) && Spaces(b)
    ensures c + u + d + b == c + u + (d + b) && Spaces(d + b)
  {
    hide IsSpace;
  }

  lemma TrimRightParts(s: string) returns (b: string)
    ensures s == TrimRight(s) + b && Spaces(b)
  {
    hide IsSpace;
    b := s[|TrimRight(s)|..];
  }

  lemma TrimOfTrimmed(s: string)
    ensures TrimSpace(TrimRight(s)) == TrimSpace(s)
  {
    hide IsSpace, TrimSpace, TrimRight, TrimLeft, Spaces;
    var b := TrimRightParts(s);
    var c, d := TrimSpaceParts(TrimRight(s));
    var u := TrimSpace(TrimRight(s));
    MoreSpace(c, u, d, b);
    TrimSpaceOf(c, u, d + b);
  }

  /** Upper-case ASCII letters and the long s, folded to lower case. */
  function Folded(c: char): char {
    if 'A' <= c <= 'Z' then (c as int + 32) as char else if c == '\U{17f}' then 's' else c
  }

  /** The language is "json" whatever the case of its letters. */
  lemma JsonExactly(lang: string)
    ensures FoldsToJson(lang) <==> |lang| == 4 && forall i :: 0 <= i < 4 ==> Folded(lang[i]) == "json"[i]
  {
    if |lang| == 4 && forall i :: 0 <= i < 4 ==> Folded(lang[i]) == "json"[i] {
      assert Folded(lang[0]) == 'j' && Folded(lang[1]) == 's' && Folded(lang[2]) == 'o' && Folded(lang[3]) == 'n';
    }
  }

  method ExtractJSONFence(content: string) returns (r: Option<string>)
    ensures r == JSONFence(content)
  {
    hide TrimSpace, FoldsToJson, Split, JoinLines;
    var lines := Split(content, '\n');
    for i := 0 to |lines|
      invariant FirstOpener(lines, 0) == FirstOpener(lines, i)
    {
      if !(FENCE <= TrimSpace(lines[i])) {
        continue;
      }
      var lang := TrimSpace(TrimSpace(lines[i])[3..]);
      if !FoldsToJson(lang) {
        continue;
      }
      var body := [];
      for j := i + 1 to |lines|
        invariant FirstFence(lines, i + 1) == FirstFence(lines, j)
        invariant body == lines[i + 1..j]
      {
        if FENCE <= TrimSpace(lines[j]) {
          return Some(JoinLines(body));
        }
        assert FirstFence(lines, j) == FirstFence(lines, j + 1);
        body := body + [lines[j]];
      }
      return None;
    }
    return None;
  }

  // ---- The task list ----

  /** A task as the JSON decoder delivers it, and as it is accepted. */
  datatype RawTask = RawTask(title: string, description: string, stage: int)
  datatype TaskSpec = TaskSpec(title: string, description: string, stage: int)

  predicate ValidTask(t: RawTask) {
    !Blank(t.title) && t.stage >= 0
  }

  function SpecOf(t: RawTask): TaskSpec {
    TaskSpec(TrimSpace(t.title), t.description, if t.stage == 0 then 1 else t.stage)
  }

  /** `decode` stands for the JSON decoder: the task list of a block, or nothing when it is not valid. */
  function Tasks(content: string, decode: string -> Option<seq<RawTask>>): Option<seq<TaskSpec>> {
    match JSONFence(content)
    case None => None
    case Some(block) =>
      match decode(block)
      case None => None
      case Some(raw) =>
        if raw == [] || exists i :: 0 <= i < |raw| && !ValidTask(raw[i]) then None
        else Some(SpecsOf(raw))
  }

  function SpecsOf(raw: seq<RawTask>): (specs: seq<TaskSpec>)
    ensures |specs| == |raw|
  {
    if raw == [] then [] else SpecsOf(raw[..|raw| - 1]) + [SpecOf(raw[|raw| - 1])]
  }

  lemma {:induction false} SpecsAt(raw: seq<RawTask>)
    ensures forall i :: 0 <= i < |raw| ==> SpecsOf(raw)[i] == SpecOf(raw[i])
  {
    hide SpecOf;
    if raw != [] {
      SpecsAt(raw[..|raw| - 1]);
    }
  }

  method ParseTasks(content: string, decode: string -> Option<seq<RawTask>>) returns (r: Option<seq<TaskSpec>>)
    ensures r == Tasks(content, decode)
  {
    hide JSONFence, ValidTask, TrimSpace;
    var block := ExtractJSONFence(content);
    if block.None? {
      return None;
    }
    var parsed := decode(block.value);
    if parsed.None? || parsed.value == [] {
      return None;
    }
    var raw := parsed.value;
    var specs := [];
    for i := 0 to |raw|
      invariant forall k :: 0 <= k < i ==> ValidTask(raw[k])
      invariant |specs| == i && forall k :: 0 <= k < i ==> specs[k] == SpecOf(raw[k])
    {
      var ok := CheckTask(raw[i]);
      if !ok {
        return None;
      }
      var stage := if raw[i].stage == 0 then 1 else raw[i].stage;
      specs := specs + [TaskSpec(TrimSpace(raw[i].title), raw[i].description, stage)];
    }
    SpecsAt(raw);
    assert specs == SpecsOf(raw);
    return Some(specs);
  }

  method CheckTask(t: RawTask) returns (ok: bool)
    ensures ok <==> ValidTask(t)
  {
    ok := !(TrimSpace(t.title) == "") && !(t.stage < 0);
  }

  predicate ValidSpec(spec: TaskSpec) {
    spec.title != "" && !Blank(spec.title) && spec.stage >= 1
  }

  /** Accepted tasks are never empty, have trimmed non-blank titles and stages of at least 1. */
  lemma TasksAreValid(content: string, decode: string -> Option<seq<RawTask>>)
    requires Tasks(content, decode).Some?
    ensures var specs := Tasks(content, decode).value;
      |specs| >= 1 && forall i :: 0 <= i < |specs| ==> ValidSpec(specs[i])
  {
    hide JSONFence, TrimSpace;
    var raw := decode(JSONFence(content).value).value;
    SpecsAt(raw);
    forall i | 0 <= i < |raw| ensures !Blank(SpecOf(raw[i]).title) {
      TrimSpaceTwice(raw[i].title);
    }
  }

  /** A text is accepted exactly when its block decodes to a list that is not empty, whose titles are not blank and
      whose stages are not negative; then the i-th task has the trimmed title, the description and the stage of the i-th
      entry, stage 1 where none is given. */
  lemma TasksExactly(content: string, decode: string -> Option<seq<RawTask>>, specs: seq<TaskSpec>)
    ensures Tasks(content, decode) == Some(specs) <==>
              && JSONFence(content).Some? && decode(JSONFence(content).value).Some?
              && var raw := decode(JSONFence(content).value).value;
                 && raw != [] && |specs| == |raw|
                 && forall i :: 0 <= i < |raw| ==>
                      && TrimSpace(raw[i].title) != "" && raw[i].stage >= 0
                      && specs[i].title == TrimSpace(raw[i].title) && specs[i].description == raw[i].description
                      && specs[i].stage == if raw[i].stage == 0 then 1 else raw[i].stage
  {
    hide JSONFence, TrimSpace;
    if JSONFence(content).Some? && decode(JSONFence(content).value).Some? {
      var raw := decode(JSONFence(content).value).value;
      SpecsAt(raw);
      assert |specs| == |raw| && (forall i :: 0 <= i < |raw| ==> specs[i] == SpecOf(raw[i])) ==> specs == SpecsOf(raw);
    }
  }

  /** A document whose json block decodes to valid tasks parses to those tasks in order. */
  lemma ParsesRenderedTasks(
      intro: seq<string>, body: seq<string>, rest: seq<string>,
      decode: string -> Option<seq<RawTask>>, raw: seq<RawTask>)
    requires NoneHolds(intro + ["```json"] + body + ["```"] + rest, '\n')
    requires forall k :: 0 <= k < |intro| ==> !OpensJson(intro[k])
    requires forall k :: 0 <= k < |body| ==> !IsFence(body[k])
    requires decode(JoinLines(body)) == Some(raw) && raw != [] && forall i :: 0 <= i < |raw| ==> ValidTask(raw[i])
    ensures var r := Tasks(JoinLines(intro + ["```json"] + body + ["```"] + rest), decode);
      r.Some? && |r.value| == |raw| && forall i :: 0 <= i < |raw| ==> r.value[i] == SpecOf(raw[i])
  {
    JsonFenceOpens();
    hide JSONFence, OpensJson, IsFence, TrimSpace, JoinLines;
    ExtractsBody(intro, "```json", body, "```", rest);
    SpecsAt(raw);
  }

  // ---- Blank text holds no fence ----

  lemma {:induction false} LineOfText(s: string, c: char, k: nat, d: char)
    requires k < |Split(s, c)| && d in Split(s, c)[k]
    ensures d in s
    decreases |s|
  {
    var i := Index(s, c);
    if i >= 0 {
      if k == 0 {
        assert Split(s, c)[0] == s[..i];
      } else {
        assert Split(s, c)[k] == Split(s[i + 1..], c)[k - 1];
        LineOfText(s[i + 1..], c, k - 1, d);
      }
    }
  }

  lemma BlankIsSpace(s: string, c: char)
    requires Blank(s) && c in s
    ensures IsSpace(c)
  {
    var l := TrimLeft(s);
    assert TrimRight(l) == "";
  }

  lemma FenceHasTick(line: string)
    requires IsFence(line)
    ensures '`' in line
  {
    var l := TrimLeft(line);
    assert TrimSpace(line)[0] == '`' == l[0];
    assert l[0] == line[|line| - |l|];
  }

  /** A text with an accepted task list is not blank. */
  lemma TasksNotBlank(content: string, decode: string -> Option<seq<RawTask>>)
    requires Tasks(content, decode).Some?
    ensures !Blank(content)
  {
    hide TrimSpace, Split;
    var lines := Split(content, '\n');
    JSONFenceExact(content, lines);
    var i, j :| IsBlock(lines, i, j);
    FenceHasTick(lines[i]);
    LineOfText(content, '\n', i, '`');
    if Blank(content) {
      BlankIsSpace(content, '`');
    }
  }
}
