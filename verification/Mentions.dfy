/** Mentions in comments: the links the editor writes and reads back, and the plain matcher of the server
    that reads the same text. */
module Mentions {
  import opened Strings

  datatype Kind = Agent | Member | Plain

  datatype Segment = Text(text: string) | Mention(kind: Kind, id: string, name: string)

  function KindName(k: Kind): string {
    match k case Agent => "agent" case Member => "member" case Plain => ""
  }

  /** formatMention. */
  function FormatMention(kind: Kind, id: string, name: string): string {
    "[@" + name + "](mention://" + KindName(kind) + "/" + id + ")"
  }

  /** The links as they stand in a comment. */
  lemma LinkTexts(id: string, name: string)
    ensures FormatMention(Agent, id, name) == "[@" + name + "](mention://agent/" + id + ")"
    ensures FormatMention(Member, id, name) == "[@" + name + "](mention://member/" + id + ")"
  {
    assert "](mention://" + "agent" + "/" == "](mention://agent/";
    assert "](mention://" + "member" + "/" == "](mention://member/";
  }

  /** The class \s of JavaScript expressions. */
  predicate JsSpace(c: char) {
    || '\t' <= c <= '\r' || c == ' ' || c == '\U{a0}' || c == '\U{1680}' || '\U{2000}' <= c <= '\U{200a}'
    || c == '\U{2028}' || c == '\U{2029}' || c == '\U{202f}' || c == '\U{205f}' || c == '\U{3000}' || c == '\U{feff}'
  }

  predicate IdChar(c: char) {
    c != ')' && !JsSpace(c)
  }

  /** What a link can carry: a name without a closing bracket, an id without a closing parenthesis or space. */
  predicate Linkable(kind: Kind, id: string, name: string) {
    && kind != Plain && name != "" && ']' !in name
    && id != "" && forall i :: 0 <= i < |id| ==> IdChar(id[i])
  }

  /** For an id of printable ASCII only a closing parenthesis is in the way; blanks, tabs and line ends never fit. */
  lemma LinkableIds(kind: Kind, id: string, name: string)
    requires kind != Plain && name != "" && ']' !in name
    ensures (forall i :: 0 <= i < |id| ==> '!' <= id[i] <= '~') ==>
              (Linkable(kind, id, name) <==> id != "" && ')' !in id)
    ensures ' ' in id || '\t' in id || '\n' in id || '\r' in id ==> !Linkable(kind, id, name)
  {
  }

  // ==== Matching ====

  function NameRun(s: string): (n: nat)
    ensures n <= |s| && ']' !in s[..n] && (n < |s| ==> s[n] == ']')
  {
    if s == "" || s[0] == ']' then 0
    else
      var n := NameRun(s[1..]);
      assert s[..n + 1] == [s[0]] + s[1..][..n];
      n + 1
  }

  function IdRun(s: string): (n: nat)
    ensures n <= |s| && (forall i :: 0 <= i < n ==> IdChar(s[i])) && (n < |s| ==> !IdChar(s[n]))
  {
    if s == "" || !IdChar(s[0]) then 0 else 1 + IdRun(s[1..])
  }

  function WordRun(word: char -> bool, s: string): (n: nat)
    ensures n <= |s| && (forall i :: 0 <= i < n ==> word(s[i])) && (n < |s| ==> !word(s[n]))
  {
    if s == "" || !word(s[0]) then 0 else 1 + WordRun(word, s[1..])
  }

  function KindAt(s: string): (k: Option<Kind>)
    ensures k.Some? ==> k.value != Plain && KindName(k.value) + "/" <= s
  {
    if "agent/" <= s then Some(Agent) else if "member/" <= s then Some(Member) else None
  }

  const SCHEME := "](mention://"

  /** The mention link at the front of `s`. */
  function LinkHere(s: string): Option<Segment> {
    if "[@" <= s then AfterAt(s[2..]) else None
  }

  function AfterAt(s: string): Option<Segment> {
    var n := NameRun(s);
    if n > 0 && SCHEME <= s[n..] then AfterScheme(s[..n], s[n + |SCHEME|..]) else None
  }

  function AfterScheme(name: string, s: string): Option<Segment> {
    var kind := KindAt(s);
    if kind.Some? then AfterKind(name, kind.value, s[|KindName(kind.value)| + 1..]) else None
  }

  function AfterKind(name: string, kind: Kind, s: string): Option<Segment> {
    var n := IdRun(s);
    if n > 0 && n < |s| && s[n] == ')' then Some(Mention(kind, s[..n], name)) else None
  }

  /** The plain mention at the front of `s`: '@' and the longest run of word characters. */
  function PlainHere(word: char -> bool, s: string): Option<Segment> {
    if s != "" && s[0] == '@' && WordRun(word, s[1..]) > 0
    then Some(Mention(Plain, "", s[1..1 + WordRun(word, s[1..])]))
    else None
  }

  lemma PlainSound(word: char -> bool, s: string)
    ensures var m := PlainHere(word, s);
            m.Some? ==> m.value.Mention? && m.value.kind == Plain && Print(m.value) != "" && Print(m.value) <= s
  {
    hide FormatMention;
    if PlainHere(word, s).Some? {
      var n := WordRun(word, s[1..]);
      assert "@" + s[1..1 + n] == s[..1 + n];
    }
  }

  lemma PrintedNonEmpty(x: Segment)
    requires x.Mention?
    ensures Print(x) != ""
  {
  }

  function Print(x: Segment): string {
    match x
    case Text(t) => t
    case Mention(k, id, name) => if k == Plain then "@" + name else FormatMention(k, id, name)
  }

  lemma PrefixJoin(a: string, b: string, s: string)
    requires a <= s && b <= s[|a|..]
    ensures a + b <= s
  {
  }

  lemma AfterKindSound(name: string, kind: Kind, s: string)
    ensures var l := AfterKind(name, kind, s);
            l.Some? ==>
              && l.value.Mention? && l.value.kind == kind && l.value.name == name && l.value.id + ")" <= s
              && l.value.id != "" && forall i :: 0 <= i < |l.value.id| ==> IdChar(l.value.id[i])
  {
    hide IdChar;
    var n := IdRun(s);
    if AfterKind(name, kind, s).Some? {
      assert s[..n] + ")" == s[..n + 1];
    }
  }

  lemma AfterSchemeSound(name: string, s: string)
    ensures var l := AfterScheme(name, s);
            l.Some? ==>
              && l.value.Mention? && l.value.kind != Plain && l.value.name == name
              && KindName(l.value.kind) + "/" + (l.value.id + ")") <= s
              && l.value.id != "" && forall i :: 0 <= i < |l.value.id| ==> IdChar(l.value.id[i])
  {
    hide IdChar, AfterKind, KindName;
    var kind := KindAt(s);
    if kind.Some? {
      var head := KindName(kind.value) + "/";
      AfterKindSound(name, kind.value, s[|head|..]);
      if AfterScheme(name, s).Some? {
        PrefixJoin(head, AfterScheme(name, s).value.id + ")", s);
      }
    }
  }

  lemma AfterAtSound(s: string)
    ensures var l := AfterAt(s);
            l.Some? ==>
              && l.value.Mention? && Linkable(l.value.kind, l.value.id, l.value.name)
              && l.value.name + (SCHEME + (KindName(l.value.kind) + "/" + (l.value.id + ")"))) <= s
  {
    hide IdChar, AfterScheme, KindName;
    var n := NameRun(s);
    var l := AfterAt(s);
    if l.Some? {
      AfterSchemeSound(s[..n], s[n + |SCHEME|..]);
      var tail := KindName(l.value.kind) + "/" + (l.value.id + ")");
      assert s[n..][|SCHEME|..] == s[n + |SCHEME|..];
      PrefixJoin(SCHEME, tail, s[n..]);
      PrefixJoin(s[..n], SCHEME + tail, s);
    }
  }

  lemma FormatParts(kind: Kind, id: string, name: string)
    ensures FormatMention(kind, id, name) == "[@" + (name + (SCHEME + (KindName(kind) + "/" + (id + ")"))))
  {
    hide KindName;
  }

  /** A link is exactly its printed form, and only linkable mentions are links. */
  lemma LinkSound(s: string)
    ensures var l := LinkHere(s);
            l.Some? ==> l.value.Mention? && Linkable(l.value.kind, l.value.id, l.value.name) && Print(l.value) <= s
  {
    hide AfterAt, FormatMention, KindName, IdChar;
    var l := LinkHere(s);
    if l.Some? {
      AfterAtSound(s[2..]);
      FormatParts(l.value.kind, l.value.id, l.value.name);
      PrefixJoin("[@", l.value.name + (SCHEME + (KindName(l.value.kind) + "/" + (l.value.id + ")"))), s);
    }
  }

  lemma RunAt(a: string, b: string)
    requires ']' !in a && b != "" && b[0] == ']'
    ensures NameRun(a + b) == |a|
  {
    var s := a + b;
    assert s[|a|] == ']';
    assert forall n :: |a| < n <= |s| ==> s[|a|] in s[..n];
    assert forall n :: 0 <= n < |a| ==> s[n] == a[n];
  }

  lemma IdRunAt(a: string, b: string)
    requires (forall i :: 0 <= i < |a| ==> IdChar(a[i])) && b != "" && b[0] == ')'
    ensures IdRun(a + b) == |a|
  {
    assert !IdChar((a + b)[|a|]);
    assert forall i :: 0 <= i < |a| ==> (a + b)[i] == a[i];
  }

  lemma KindAtName(k: Kind, rest: string)
    requires k != Plain
    ensures KindAt(KindName(k) + "/" + rest) == Some(k)
  {
    var s := KindName(k) + "/" + rest;
    assert KindName(k) + "/" <= s;
    if k == Member {
      assert s[0] == 'm';
    }
  }

  lemma AfterKindComplete(name: string, kind: Kind, id: string, post: string)
    requires id != "" && forall i :: 0 <= i < |id| ==> IdChar(id[i])
    ensures AfterKind(name, kind, id + (")" + post)) == Some(Mention(kind, id, name))
  {
    hide IdChar;
    IdRunAt(id, ")" + post);
  }

  lemma AfterSchemeComplete(name: string, kind: Kind, id: string, post: string)
    requires kind != Plain && id != "" && forall i :: 0 <= i < |id| ==> IdChar(id[i])
    ensures AfterScheme(name, KindName(kind) + "/" + (id + (")" + post))) == Some(Mention(kind, id, name))
  {
    hide IdChar, AfterKind, KindAt;
    var tail := id + (")" + post);
    KindAtName(kind, tail);
    assert (KindName(kind) + "/" + tail)[|KindName(kind)| + 1..] == tail;
    AfterKindComplete(name, kind, id, post);
  }

  lemma AfterAtComplete(name: string, tail: string)
    requires name != "" && ']' !in name
    ensures AfterAt(name + (SCHEME + tail)) == AfterScheme(name, tail)
  {
    hide AfterScheme;
    var rest := SCHEME + tail;
    RunAt(name, rest);
    var s := name + rest;
    assert s[..|name|] == name && s[|name|..] == rest;
    assert s[|name| + |SCHEME|..] == tail;
    assert SCHEME <= rest;
  }

  /** Every linkable mention, printed, is a link, whatever follows it. */
  lemma LinkComplete(kind: Kind, id: string, name: string, post: string)
    requires Linkable(kind, id, name)
    ensures LinkHere(FormatMention(kind, id, name) + post) == Some(Mention(kind, id, name))
  {
    var tail := KindName(kind) + "/" + (id + (")" + post));
    AfterSchemeComplete(name, kind, id, post);
    AfterAtComplete(name, tail);
    FormatParts(kind, id, name);
    hide FormatMention, KindName, AfterScheme, AfterAt, Linkable;
    FormatAppended(KindName(kind), id, name, post);
    assert ("[@" + (name + (SCHEME + tail)))[2..] == name + (SCHEME + tail);
  }

  lemma FormatAppended(kindName: string, id: string, name: string, post: string)
    ensures "[@" + (name + (SCHEME + (kindName + "/" + (id + ")")))) + post ==
            "[@" + (name + (SCHEME + (kindName + "/" + (id + (")" + post)))))
  {
    Assoc(id, ")", post);
    Assoc(kindName + "/", id + ")", post);
    Assoc(SCHEME, kindName + "/" + (id + ")"), post);
    Assoc(name, SCHEME + (kindName + "/" + (id + ")")), post);
    Assoc("[@", name + (SCHEME + (kindName + "/" + (id + ")"))), post);
  }

  lemma Assoc(a: string, b: string, c: string)
    ensures (a + b) + c == a + (b + c)
  {
  }

  // ==== Segments ====

  /** The leftmost position where a link starts, |s| when there is none. */
  function FirstLink(s: string): (i: nat)
    ensures i <= |s|
  {
    if s == "" || LinkHere(s).Some? then 0 else 1 + FirstLink(s[1..])
  }

  lemma {:induction false} FirstLinkIs(s: string)
    ensures forall j :: 0 <= j < FirstLink(s) ==> LinkHere(s[j..]).None?
    ensures FirstLink(s) < |s| ==> LinkHere(s[FirstLink(s)..]).Some?
  {
    hide LinkHere;
    assert s[0..] == s;
    if s != "" && LinkHere(s).None? {
      FirstLinkIs(s[1..]);
      assert forall j :: 1 <= j <= |s| ==> s[j..] == s[1..][j - 1..];
    }
  }

  function FirstPlain(word: char -> bool, s: string): (i: nat)
    ensures i <= |s|
  {
    if s == "" || PlainHere(word, s).Some? then 0 else 1 + FirstPlain(word, s[1..])
  }

  lemma {:induction false} FirstPlainIs(word: char -> bool, s: string)
    ensures forall j :: 0 <= j < FirstPlain(word, s) ==> PlainHere(word, s[j..]).None?
    ensures FirstPlain(word, s) < |s| ==> PlainHere(word, s[FirstPlain(word, s)..]).Some?
  {
    hide PlainHere;
    assert s[0..] == s;
    if s != "" && PlainHere(word, s).None? {
      FirstPlainIs(word, s[1..]);
      assert forall j :: 1 <= j <= |s| ==> s[j..] == s[1..][j - 1..];
    }
  }

  function TextOf(s: string): seq<Segment> {
    if s == "" then [] else [Text(s)]
  }

  /** Text with its plain mentions, leftmost first. */
  function PlainSegments(word: char -> bool, s: string): seq<Segment>
    decreases |s|
  {
    var i := FirstPlain(word, s);
    if i == |s| then TextOf(s)
    else
      hide PlainHere, Print, FirstPlain;
      FirstPlainIs(word, s);
      PlainSound(word, s[i..]);
      var m := PlainHere(word, s[i..]).value;
      TextOf(s[..i]) + [m] + PlainSegments(word, s[i + |Print(m)|..])
  }

  /** Links first, plain mentions in the text between them. */
  function Segments(word: char -> bool, s: string): seq<Segment>
    decreases |s|
  {
    var i := FirstLink(s);
    if i == |s| then PlainSegments(word, s)
    else
      hide LinkHere, Print, Linkable, PlainSegments, FirstLink;
      FirstLinkIs(s);
      LinkSound(s[i..]);
      var m := LinkHere(s[i..]).value;
      PrintedNonEmpty(m);
      PlainSegments(word, s[..i]) + [m] + Segments(word, s[i + |Print(m)|..])
  }

  lemma PlainSegmentsAt(word: char -> bool, s: string)
    requires FirstPlain(word, s) < |s|
    ensures var i := FirstPlain(word, s);
            && PlainHere(word, s[i..]).Some?
            && var m := PlainHere(word, s[i..]).value;
               && m.Mention? && m.kind == Plain && Print(m) != "" && Print(m) <= s[i..]
               && PlainSegments(word, s) == TextOf(s[..i]) + [m] + PlainSegments(word, s[i + |Print(m)|..])
  {
    hide PlainHere, Print, FirstPlain;
    FirstPlainIs(word, s);
    PlainSound(word, s[FirstPlain(word, s)..]);
  }

  lemma SegmentsAt(word: char -> bool, s: string)
    requires FirstLink(s) < |s|
    ensures var i := FirstLink(s);
            && LinkHere(s[i..]).Some?
            && var m := LinkHere(s[i..]).value;
               && m.Mention? && Linkable(m.kind, m.id, m.name) && Print(m) != "" && Print(m) <= s[i..]
               && Segments(word, s) == PlainSegments(word, s[..i]) + [m] + Segments(word, s[i + |Print(m)|..])
  {
    hide LinkHere, Print, Linkable, PlainSegments, FirstLink, Segments;
    FirstLinkIs(s);
    var i := FirstLink(s);
    LinkSound(s[i..]);
    var m := LinkHere(s[i..]).value;
    PrintedNonEmpty(m);
    SegmentsAfter(word, s, i, m);
  }

  lemma SegmentsAfter(word: char -> bool, s: string, i: nat, m: Segment)
    requires i == FirstLink(s) < |s| && LinkHere(s[i..]) == Some(m) && Print(m) != "" && Print(m) <= s[i..]
    ensures Segments(word, s) == PlainSegments(word, s[..i]) + [m] + Segments(word, s[i + |Print(m)|..])
  {
    hide LinkHere, Print, Linkable, PlainSegments, FirstLink;
  }

  /** pushText: appends the segments of one stretch of text. */
  method PushText(word: char -> bool, text: string, segments: seq<Segment>) returns (all: seq<Segment>)
    ensures all == segments + PlainSegments(word, text)
  {
    hide PlainHere, Print, FirstPlain, PlainSegments;
    all := segments;
    var cursor := 0;
    assert text[0..] == text;
    var i := FirstPlain(word, text);
    while i < |text|
      invariant cursor <= i <= |text| && i == cursor + FirstPlain(word, text[cursor..])
      invariant all + PlainSegments(word, text[cursor..]) == segments + PlainSegments(word, text)
      decreases |text| - cursor
    {
      PlainSegmentsAt(word, text[cursor..]);
      assert text[cursor..][i - cursor..] == text[i..];
      assert text[cursor..][..i - cursor] == text[cursor..i];
      var m := PlainHere(word, text[i..]).value;
      var next := i + |Print(m)|;
      assert text[cursor..][next - cursor..] == text[next..];
      ghost var before := all;
      if cursor < i {
        all := all + [Text(text[cursor..i])];
      }
      assert all == before + TextOf(text[cursor..i]);
      Regroup(before, TextOf(text[cursor..i]), m, PlainSegments(word, text[next..]));
      all := all + [m];
      cursor := next;
      i := cursor + FirstPlain(word, text[cursor..]);
    }
    LastText(word, text[cursor..]);
    if cursor < |text| {
      all := all + [Text(text[cursor..])];
    }
  }

  lemma LastText(word: char -> bool, s: string)
    requires FirstPlain(word, s) == |s|
    ensures PlainSegments(word, s) == TextOf(s)
  {
    hide FirstPlain;
  }

  method ParseMentionSegments(word: char -> bool, content: string) returns (segments: seq<Segment>)
    ensures segments == Segments(word, content)
  {
    hide LinkHere, Print, Linkable, PlainSegments, Segments, FirstLink;
    segments := [];
    var last := 0;
    var i := FirstLink(content);
    assert content[0..] == content;
    while i < |content|
      invariant last <= i <= |content| && i == last + FirstLink(content[last..])
      invariant segments + Segments(word, content[last..]) == Segments(word, content)
      decreases |content| - last
    {
      SegmentsAt(word, content[last..]);
      assert content[last..][i - last..] == content[i..];
      assert content[last..][..i - last] == content[last..i];
      var m := LinkHere(content[i..]).value;
      var next := i + |Print(m)|;
      assert content[last..][next - last..] == content[next..];
      ghost var before := segments;
      segments := PushText(word, content[last..i], segments);
      segments := segments + [m];
      Regroup(before, PlainSegments(word, content[last..i]), m, Segments(word, content[next..]));
      last := next;
      i := last + FirstLink(content[last..]);
    }
    LastSegments(word, content[last..]);
    segments := PushText(word, content[last..], segments);
  }

  lemma Regroup(a: seq<Segment>, b: seq<Segment>, m: Segment, c: seq<Segment>)
    ensures a + (b + [m] + c) == a + b + [m] + c
  {
  }

  lemma LastSegments(word: char -> bool, s: string)
    requires FirstLink(s) == |s|
    ensures Segments(word, s) == PlainSegments(word, s)
  {
    hide PlainSegments;
  }

  // ==== Nothing is lost ====

  function PrintAll(xs: seq<Segment>): string {
    if xs == [] then "" else Print(xs[0]) + PrintAll(xs[1..])
  }

  lemma {:induction false} PrintAppend(a: seq<Segment>, b: seq<Segment>)
    ensures PrintAll(a + b) == PrintAll(a) + PrintAll(b)
  {
    hide Print;
    if a == [] {
      assert a + b == b;
    } else {
      assert (a + b)[1..] == a[1..] + b;
      PrintAppend(a[1..], b);
    }
  }

  lemma PrintParts(a: seq<Segment>, m: Segment, b: seq<Segment>)
    ensures PrintAll(a + [m] + b) == PrintAll(a) + Print(m) + PrintAll(b)
  {
    hide Print;
    PrintAppend(a + [m], b);
    PrintAppend(a, [m]);
    assert PrintAll([m]) == Print(m);
  }

  lemma {:induction false} PlainLossless(word: char -> bool, s: string)
    ensures PrintAll(PlainSegments(word, s)) == s
    decreases |s|
  {
    var i := FirstPlain(word, s);
    if i == |s| {
      LastText(word, s);
    } else {
      PlainSegmentsAt(word, s);
      hide PlainHere, Print, FirstPlain, PlainSegments;
      var m := PlainHere(word, s[i..]).value;
      var rest := s[i + |Print(m)|..];
      PlainLossless(word, rest);
      PrintParts(TextOf(s[..i]), m, PlainSegments(word, rest));
      PrintTextOf(s[..i]);
      Cut(s, i, Print(m));
    }
    if i == |s| {
      PrintTextOf(s);
    }
  }

  lemma PrintTextOf(s: string)
    ensures PrintAll(TextOf(s)) == s
  {
    if s != "" {
      assert PrintAll([Text(s)]) == Print(Text(s)) + PrintAll([]);
    }
  }

  lemma Cut(s: string, i: nat, m: string)
    requires i <= |s| && m <= s[i..]
    ensures s[..i] + m + s[i + |m|..] == s
  {
    assert s[i..][..|m|] == m;
  }

  /** Printing the segments back gives the content, character for character. */
  lemma {:induction false} Lossless(word: char -> bool, s: string)
    ensures PrintAll(Segments(word, s)) == s
    decreases |s|
  {
    hide LinkHere, PlainSegments, Linkable, Print, FirstLink, Segments, PrintAll;
    var i := FirstLink(s);
    if i == |s| {
      LastSegments(word, s);
      PlainLossless(word, s);
    } else {
      SegmentsAt(word, s);
      var m := LinkHere(s[i..]).value;
      var rest := s[i + |Print(m)|..];
      Lossless(word, rest);
      PlainLossless(word, s[..i]);
      PrintParts(PlainSegments(word, s[..i]), m, Segments(word, rest));
      Cut(s, i, Print(m));
    }
  }

  // ==== Nothing is missed ====

  /** No '@' of the text is followed by a word character. */
  predicate NoPlain(word: char -> bool, t: string) {
    forall j :: 0 <= j < |t| - 1 && t[j] == '@' ==> !word(t[j + 1])
  }

  predicate NoLink(t: string) {
    forall j :: 0 <= j <= |t| ==> LinkHere(t[j..]).None?
  }

  predicate AllWord(word: char -> bool, name: string) {
    forall j :: 0 <= j < |name| ==> word(name[j])
  }

  /** A text that is not empty, holds no mention of either kind and is not followed by text. */
  predicate CleanText(word: char -> bool, xs: seq<Segment>, i: int)
    requires 0 <= i < |xs| && xs[i].Text?
  {
    && xs[i].text != "" && NoPlain(word, xs[i].text) && NoLink(xs[i].text)
    && (i + 1 < |xs| ==> xs[i + 1].Mention?)
  }

  /** A plain mention with all the word characters there are after its '@'. */
  predicate CleanPlain(word: char -> bool, xs: seq<Segment>, i: int)
    requires 0 <= i < |xs| && xs[i].Mention?
  {
    && xs[i].name != "" && AllWord(word, xs[i].name)
    && (i + 1 < |xs| && xs[i + 1].Text? && xs[i + 1].text != "" ==> !word(xs[i + 1].text[0]))
  }

  predicate Clean(word: char -> bool, xs: seq<Segment>) {
    forall i :: 0 <= i < |xs| ==>
      (xs[i].Text? ==> CleanText(word, xs, i)) && (xs[i].Mention? && xs[i].kind == Plain ==> CleanPlain(word, xs, i))
  }

  lemma LinkHereExtends(t: string, post: string)
    requires LinkHere(t).Some?
    ensures LinkHere(t + post) == LinkHere(t)
  {
    hide LinkHere, FormatMention, Linkable, Print;
    var m := LinkHere(t).value;
    LinkSound(t);
    PrintOfLink(m);
    var rest := t[|Print(m)|..];
    assert t == Print(m) + rest;
    Assoc(Print(m), rest, post);
    LinkComplete(m.kind, m.id, m.name, rest + post);
  }

  /** A link printed by itself. */
  lemma PrintOfLink(m: Segment)
    requires m.Mention? && Linkable(m.kind, m.id, m.name)
    ensures Print(m) == FormatMention(m.kind, m.id, m.name) && Mention(m.kind, m.id, m.name) == m
  {
    hide FormatMention;
  }

  lemma PartHasNoLink(s: string, i: nat, j: nat)
    requires i <= j <= |s| && NoLink(s)
    ensures NoLink(s[i..j])
  {
    hide LinkHere;
    var t := s[i..j];
    forall k | 0 <= k <= |t| ensures LinkHere(t[k..]).None? {
      assert s[i + k..] == t[k..] + s[j..];
      if LinkHere(t[k..]).Some? {
        LinkHereExtends(t[k..], s[j..]);
      }
    }
  }

  lemma BeforeFirstLink(s: string)
    ensures NoLink(s[..FirstLink(s)])
    ensures FirstLink(s) == |s| ==> NoLink(s)
  {
    FirstLinkIs(s);
    EmptyIsNoLink();
    hide LinkHere, FirstLink;
    var t := s[..FirstLink(s)];
    forall k | 0 <= k <= |t| ensures LinkHere(t[k..]).None? {
      assert s[k..] == t[k..] + s[FirstLink(s)..];
      if LinkHere(t[k..]).Some? {
        assert t[k..] != "";
        LinkHereExtends(t[k..], s[FirstLink(s)..]);
      }
    }
    assert FirstLink(s) == |s| ==> t == s;
  }

  lemma EmptyIsNoLink()
    ensures LinkHere("").None?
  {
  }

  lemma BeforeFirstPlain(word: char -> bool, s: string)
    ensures NoPlain(word, s[..FirstPlain(word, s)])
  {
    FirstPlainIs(word, s);
    hide FirstPlain;
    var n := FirstPlain(word, s);
    var t := s[..n];
    forall j | 0 <= j < |t| - 1 && t[j] == '@' ensures !word(t[j + 1]) {
      assert PlainHere(word, s[j..]).None?;
      assert s[j..][0] == '@' && s[j..][1..][0] == t[j + 1];
    }
  }

  /** The text after a plain mention does not start with a word character. */
  lemma PlainIsLongest(word: char -> bool, s: string)
    requires PlainHere(word, s).Some?
    ensures var m := PlainHere(word, s).value;
            && m.Mention? && m.kind == Plain && m.name != "" && Print(m) <= s
            && AllWord(word, m.name)
            && (|Print(m)| < |s| ==> !word(s[|Print(m)|]))
  {
    hide FormatMention;
    var n := WordRun(word, s[1..]);
    assert "@" + s[1..1 + n] == s[..1 + n];
  }

  lemma CleanOne(word: char -> bool, s: string)
    requires NoPlain(word, s) && NoLink(s)
    ensures Clean(word, TextOf(s))
  {
    hide NoPlain, NoLink;
  }

  lemma CleanJoin(word: char -> bool, a: seq<Segment>, m: Segment, b: seq<Segment>)
    requires Clean(word, a) && Clean(word, b) && m.Mention?
    requires m.kind == Plain ==>
               && m.name != "" && AllWord(word, m.name)
               && (b != [] && b[0].Text? ==> b[0].text != "" && !word(b[0].text[0]))
    ensures Clean(word, a + [m] + b)
  {
    hide NoPlain, NoLink, AllWord;
    var xs := a + [m] + b;
    assert xs[|a|] == m;
    forall i | 0 <= i < |xs|
      ensures xs[i].Text? ==> CleanText(word, xs, i)
      ensures xs[i].Mention? && xs[i].kind == Plain ==> CleanPlain(word, xs, i)
    {
      if i < |a| {
        assert xs[i] == a[i] && (i + 1 < |a| ==> xs[i + 1] == a[i + 1]);
      } else if i > |a| {
        assert xs[i] == b[i - |a| - 1] && (i + 1 < |xs| ==> xs[i + 1] == b[i - |a|]);
      }
    }
  }

  lemma HeadOfPlain(word: char -> bool, s: string)
    ensures var xs := PlainSegments(word, s);
            xs != [] && xs[0].Text? ==> s != "" && xs[0].text != "" && xs[0].text[0] == s[0]
  {
    var i := FirstPlain(word, s);
    if i < |s| {
      PlainSegmentsAt(word, s);
    } else {
      LastText(word, s);
    }
    hide PlainHere, Print, FirstPlain, PlainSegments;
  }

  lemma {:induction false} PlainClean(word: char -> bool, s: string)
    requires NoLink(s)
    ensures Clean(word, PlainSegments(word, s))
    decreases |s|
  {
    hide PlainHere, Print, FirstPlain, PlainSegments, NoPlain, NoLink, Clean;
    var i := FirstPlain(word, s);
    BeforeFirstPlain(word, s);
    PartHasNoLink(s, 0, i);
    assert s[0..i] == s[..i];
    CleanOne(word, s[..i]);
    if i == |s| {
      LastText(word, s);
      assert s[..i] == s;
    } else {
      PlainSegmentsAt(word, s);
      var m := PlainHere(word, s[i..]).value;
      var next := i + |Print(m)|;
      var rest := s[next..];
      PlainIsLongest(word, s[i..]);
      assert next < |s| ==> s[i..][|Print(m)|] == s[next] == rest[0];
      PartHasNoLink(s, next, |s|);
      assert s[next..|s|] == rest;
      PlainClean(word, rest);
      HeadOfPlain(word, rest);
      CleanJoin(word, TextOf(s[..i]), m, PlainSegments(word, rest));
    }
  }

  /** No mention is missed or cut short: the segments of every content are clean. */
  lemma {:induction false} SegmentsClean(word: char -> bool, s: string)
    ensures Clean(word, Segments(word, s))
    decreases |s|
  {
    hide LinkHere, PlainSegments, Linkable, Print, FirstLink, Segments, NoLink, Clean;
    var i := FirstLink(s);
    BeforeFirstLink(s);
    PlainClean(word, s[..i]);
    if i == |s| {
      LastSegments(word, s);
      assert s[..i] == s;
    } else {
      SegmentsAt(word, s);
      var m := LinkHere(s[i..]).value;
      LinkableIsNotPlain(m);
      var rest := s[i + |Print(m)|..];
      SegmentsClean(word, rest);
      CleanJoin(word, PlainSegments(word, s[..i]), m, Segments(word, rest));
    }
  }

  lemma LinkableIsNotPlain(m: Segment)
    requires m.Mention? && Linkable(m.kind, m.id, m.name)
    ensures m.kind != Plain
  {
  }

  // ==== Round trip ====

  lemma {:induction false} OnlyPlain(word: char -> bool, s: string)
    ensures forall x :: x in PlainSegments(word, s) ==> x.Text? || x.kind == Plain
    decreases |s|
  {
    hide PlainHere, Print, FirstPlain, PlainSegments;
    var i := FirstPlain(word, s);
    if i < |s| {
      PlainSegmentsAt(word, s);
      OnlyPlain(word, s[i + |Print(PlainHere(word, s[i..]).value)|..]);
    } else {
      LastText(word, s);
    }
  }

  /** Only linkable mentions come out as links. */
  lemma {:induction false} LinksAreLinkable(word: char -> bool, s: string)
    ensures forall x :: x in Segments(word, s) && x.Mention? && x.kind != Plain ==> Linkable(x.kind, x.id, x.name)
    decreases |s|
  {
    hide LinkHere, PlainSegments, Linkable, Print, FirstLink, Segments;
    var i := FirstLink(s);
    OnlyPlain(word, s[..i]);
    if i < |s| {
      SegmentsAt(word, s);
      LinksAreLinkable(word, s[i + |Print(LinkHere(s[i..]).value)|..]);
    } else {
      assert s[..i] == s;
      LastSegments(word, s);
    }
  }

  /** No link starts in the first `n` characters. */
  predicate NoLinkStarts(s: string, n: nat) {
    forall j :: 0 <= j < n && j <= |s| ==> LinkHere(s[j..]).None?
  }

  lemma FirstLinkAt(s: string, n: nat)
    requires n < |s| && LinkHere(s[n..]).Some?
    ensures FirstLink(s) <= n && LinkHere(s[FirstLink(s)..]).Some?
    ensures FirstLink(s) == n <==> NoLinkStarts(s, n)
  {
    hide LinkHere, FirstLink;
    FirstLinkIs(s);
  }

  ghost predicate IsLink(x: Segment) {
    x.Mention? && x.kind != Plain
  }

  ghost predicate NoLinks(xs: seq<Segment>) {
    forall x :: x in xs ==> !IsLink(x)
  }

  /** The position of the first link, the length when there is none. */
  ghost function LinkPosition(xs: seq<Segment>): nat {
    if xs == [] || IsLink(xs[0]) then 0 else 1 + LinkPosition(xs[1..])
  }

  lemma {:induction false} LinkPositionIs(a: seq<Segment>, x: Segment, b: seq<Segment>)
    requires NoLinks(a) && IsLink(x)
    ensures LinkPosition(a + [x] + b) == |a|
  {
    hide IsLink;
    if a == [] {
      assert (a + [x] + b)[0] == x;
    } else {
      assert a[0] in a;
      assert (a + [x] + b)[0] == a[0] && (a + [x] + b)[1..] == a[1..] + [x] + b;
      LinkPositionIs(a[1..], x, b);
    }
  }

  /** The segments before the first link are determined by the whole. */
  lemma FirstLinkSplits(a: seq<Segment>, x: Segment, b: seq<Segment>, c: seq<Segment>, y: Segment, d: seq<Segment>)
    requires NoLinks(a) && NoLinks(c) && IsLink(x) && IsLink(y) && a + [x] + b == c + [y] + d
    ensures a == c
  {
    LinkPositionIs(a, x, b);
    LinkPositionIs(c, y, d);
    assert (a + [x] + b)[..|a|] == a && (c + [y] + d)[..|c|] == c;
  }

  /** A linkable mention written into a comment is read back as that mention, between the plain segments of what
      stands before it and the segments of what follows, if and only if no link starts before it. */
  lemma ReadsBackExactly(word: char -> bool, pre: string, kind: Kind, id: string, name: string, post: string)
    requires Linkable(kind, id, name)
    ensures var s := pre + FormatMention(kind, id, name) + post;
            Segments(word, s) == PlainSegments(word, pre) + [Mention(kind, id, name)] + Segments(word, post) <==>
            NoLinkStarts(s, |pre|)
  {
    var m := Mention(kind, id, name);
    LinkableIsNotPlain(m);
    PrintOfLink(m);
    PrintedNonEmpty(m);
    hide LinkHere, PlainSegments, Linkable, FormatMention, Segments, FirstLink, Print, NoLinkStarts;
    var link := FormatMention(kind, id, name);
    LinkComplete(kind, id, name, post);
    LinkAfterText(word, pre, m, post);
    Assoc(pre, link, post);
  }

  lemma Parts(a: string, b: string, c: string)
    ensures var s := a + (b + c);
            s[..|a|] == a && s[|a|..] == b + c && s[|a| + |b|..] == c
  {
  }

  lemma LinkAfterText(word: char -> bool, pre: string, m: Segment, post: string)
    requires IsLink(m) && Print(m) != "" && LinkHere(Print(m) + post) == Some(m)
    ensures Segments(word, pre + (Print(m) + post)) == PlainSegments(word, pre) + [m] + Segments(word, post) <==>
            NoLinkStarts(pre + (Print(m) + post), |pre|)
  {
    hide LinkHere, PlainSegments, Print, Segments, FirstLink, NoLinkStarts, Linkable;
    var rest := Print(m) + post;
    var s := pre + rest;
    Parts(pre, Print(m), post);
    FirstLinkAt(s, |pre|);
    SegmentsAt(word, s);
    hide IsLink;
    if Segments(word, s) == PlainSegments(word, pre) + [m] + Segments(word, post) {
      SamePrefix(word, s, pre, m, post);
    }
  }

  lemma SamePrefix(word: char -> bool, s: string, pre: string, m: Segment, post: string)
    requires IsLink(m) && FirstLink(s) < |s|
    requires Segments(word, s) == PlainSegments(word, pre) + [m] + Segments(word, post)
    ensures s[..FirstLink(s)] == pre
  {
    hide LinkHere, PlainSegments, Print, Segments, FirstLink, Linkable, IsLink;
    SegmentsAt(word, s);
    var i := FirstLink(s);
    var m' := LinkHere(s[i..]).value;
    LinkableIsLink(m');
    TextHasNoLinks(word, s[..i]);
    TextHasNoLinks(word, pre);
    FirstLinkSplits(PlainSegments(word, s[..i]), m', Segments(word, s[i + |Print(m')|..]),
                    PlainSegments(word, pre), m, Segments(word, post));
    PlainLossless(word, s[..i]);
    PlainLossless(word, pre);
  }

  lemma TextHasNoLinks(word: char -> bool, s: string)
    ensures NoLinks(PlainSegments(word, s))
  {
    hide PlainSegments;
    OnlyPlain(word, s);
  }

  lemma LinkableIsLink(m: Segment)
    requires m.Mention? && Linkable(m.kind, m.id, m.name)
    ensures IsLink(m)
  {
  }

  /** Reading a formatted mention gives exactly that mention if and only if the mention is linkable. */
  lemma RoundTripExactly(word: char -> bool, kind: Kind, id: string, name: string)
    requires kind != Plain
    ensures Segments(word, FormatMention(kind, id, name)) == [Mention(kind, id, name)] <==> Linkable(kind, id, name)
  {
    var s := FormatMention(kind, id, name);
    LinksAreLinkable(word, s);
    if Segments(word, s) == [Mention(kind, id, name)] {
      assert Segments(word, s)[0] in Segments(word, s);
    }
    if Linkable(kind, id, name) {
      ReadsBackExactly(word, "", kind, id, name, "");
      assert "" + s + "" == s;
      EmptyText(word);
    }
  }

  lemma EmptyText(word: char -> bool)
    ensures FirstLink("") == 0 && PlainSegments(word, "") == [] && Segments(word, "") == []
  {
    assert FirstPlain(word, "") == 0;
  }
}
