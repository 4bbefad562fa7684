/** The server's matcher of mentions, over the bytes of a comment, and its agreement with the links that the
    editor writes. */
module MentionMatcher {
  import opened Strings
  import opened Mentions

  newtype byte = x: int | 0 <= x < 256

  type Bytes = seq<byte>

  /** A continuation byte: six bits of the character. */
  function Continued(n: nat): byte {
    (0x80 + n % 0x40) as byte
  }

  function Utf8Char(c: char): Bytes {
    var n := c as int;
    if n < 0x80 then [n as byte]
    else if n < 0x800 then [(0xc0 + n / 0x40) as byte, Continued(n)]
    else if n < 0x10000 then [(0xe0 + n / 0x1000) as byte, Continued(n / 0x40), Continued(n)]
    else [(0xf0 + n / 0x40000) as byte, Continued(n / 0x1000), Continued(n / 0x40), Continued(n)]
  }

  function Utf8(s: string): Bytes {
    if s == "" then [] else Utf8Char(s[0]) + Utf8(s[1..])
  }

  /** isNameByte: letters, digits, '_', '-', and every byte of a multi-byte character. */
  predicate NameByte(b: byte) {
    b == 0x5f || b == 0x2d || 0x30 <= b <= 0x39 || 0x61 <= b <= 0x7a || 0x41 <= b <= 0x5a || b >= 0x80
  }

  /** The number of a character from its bytes, by the length that RFC 3629 gives them: the first byte announces the
      length and each further one carries six bits. */
  function Decoded(b: Bytes): Option<int> {
    if |b| == 1 && b[0] < 0x80 then Some(b[0] as int)
    else if |b| == 2 && 0xc0 <= b[0] < 0xe0 then Some((b[0] as int - 0xc0) * 0x40 + Six(b[1]))
    else if |b| == 3 && 0xe0 <= b[0] < 0xf0 then Some(((b[0] as int - 0xe0) * 0x40 + Six(b[1])) * 0x40 + Six(b[2]))
    else if |b| == 4 && 0xf0 <= b[0] < 0xf8 then
      Some((((b[0] as int - 0xf0) * 0x40 + Six(b[1])) * 0x40 + Six(b[2])) * 0x40 + Six(b[3]))
    else None
  }

  function Six(b: byte): int {
    b as int - 0x80
  }

  lemma SixBits(n: nat)
    ensures n == n / 0x40 * 0x40 + Six(Continued(n)) && n / 0x40 / 0x40 == n / 0x1000
    ensures n / 0x1000 / 0x40 == n / 0x40000
  {
  }

  /** Decoding the bytes of a character gives the character back. */
  lemma Utf8RoundTrip(c: char)
    ensures Decoded(Utf8Char(c)) == Some(c as int)
    ensures forall i :: 1 <= i < |Utf8Char(c)| ==> 0x80 <= Utf8Char(c)[i] < 0xc0
  {
    hide Continued, Six;
    var n := c as int;
    SixBits(n);
    SixBits(n / 0x40);
    SixBits(n / 0x1000);
    forall m: nat ensures 0x80 <= Continued(m) < 0xc0 {
      ContinuedRange(m);
    }
  }

  lemma ContinuedRange(n: nat)
    ensures 0x80 <= Continued(n) < 0xc0
  {
  }

  /** In characters: a name goes on with a letter, a digit, an underscore, a dash or anything beyond ASCII. */
  lemma NameCharExactly(c: char)
    ensures (forall b :: b in Utf8Char(c) ==> NameByte(b)) <==>
              'a' <= c <= 'z' || 'A' <= c <= 'Z' || '0' <= c <= '9' || c == '_' || c == '-' || c as int >= 0x80
  {
    var bytes := Utf8Char(c);
    assert bytes[0] in bytes;
  }

  const AT: byte := 0x40

  /** A mention at `at`: '@', a copy of the name up to case, and no name byte after it. */
  predicate MentionAt(fold: (Bytes, Bytes) -> bool, content: Bytes, name: Bytes, at: nat) {
    && at < |content| && content[at] == AT && at + 1 + |name| <= |content|
    && fold(content[at + 1..at + 1 + |name|], name)
    && (at + 1 + |name| == |content| || !NameByte(content[at + 1 + |name|]))
  }

  predicate Mentioned(fold: (Bytes, Bytes) -> bool, content: Bytes, name: string) {
    !Blank(name) && exists at: nat :: at < |content| && MentionAt(fold, content, Utf8(name), at)
  }

  /** The first '@' at or after `from`, |content| when there is none. */
  function NextAt(content: Bytes, from: nat): (at: nat)
    requires from <= |content|
    ensures from <= at <= |content| && (at < |content| ==> content[at] == AT)
    ensures forall j :: from <= j < at ==> content[j] != AT
    decreases |content| - from
  {
    if from == |content| || content[from] == AT then from else NextAt(content, from + 1)
  }

  method MentionsName(fold: (Bytes, Bytes) -> bool, content: Bytes, name: string) returns (r: bool)
    ensures r <==> Mentioned(fold, content, name)
  {
    hide Utf8, Blank;
    if Blank(name) { return false; }
    var bytes := Utf8(name);
    var idx := 0;
    while true
      invariant idx <= |content|
      invariant forall at: nat :: at < idx ==> !MentionAt(fold, content, bytes, at)
      decreases |content| - idx
    {
      var at := NextAt(content, idx);
      if at == |content| { return false; }
      var rest := content[at + 1..];
      assert |rest| >= |bytes| ==> rest[..|bytes|] == content[at + 1..at + 1 + |bytes|];
      if |rest| >= |bytes| && fold(rest[..|bytes|], bytes) {
        var after := rest[|bytes|..];
        if after == [] || !NameByte(after[0]) {
          assert MentionAt(fold, content, bytes, at);
          return true;
        }
      }
      idx := at + 1;
    }
  }

  lemma {:induction false} Utf8Append(a: string, b: string)
    ensures Utf8(a + b) == Utf8(a) + Utf8(b)
  {
    if a == "" {
      assert a + b == b;
    } else {
      assert (a + b)[1..] == a[1..] + b;
      Utf8Append(a[1..], b);
    }
  }

  lemma FormatSplit(pre: string, kind: Kind, id: string, name: string, post: string) returns (tail: string)
    ensures tail != "" && tail[0] == ']'
    ensures pre + FormatMention(kind, id, name) + post == pre + "[" + "@" + name + tail
  {
    FormatParts(kind, id, name);
    hide FormatMention, KindName;
    var target := SCHEME + (KindName(kind) + "/" + (id + ")"));
    assert target[0] == ']';
    tail := target + post;
    assert "[@" == "[" + "@";
  }

  lemma Utf8Ascii(s: string)
    requires s != "" && s[0] as int < 0x80
    ensures Utf8(s) != [] && Utf8(s)[0] as int == s[0] as int
    ensures |s| == 1 ==> Utf8(s) == [s[0] as int as byte]
  {
    assert |s| == 1 ==> s[1..] == "";
  }

  lemma NameBetween(fold: (Bytes, Bytes) -> bool, head: string, name: string, tail: string)
    requires !Blank(name) && fold(Utf8(name), Utf8(name)) && tail != "" && tail[0] == ']'
    ensures Mentioned(fold, Utf8(head + "@" + name + tail), name)
  {
    hide Utf8, Blank;
    Utf8Append(head + "@" + name, tail);
    Utf8Append(head + "@", name);
    Utf8Append(head, "@");
    Utf8Ascii("@");
    Utf8Ascii(tail);
    BytesBetween(fold, Utf8(head), Utf8(name), Utf8(tail));
  }

  lemma BytesBetween(fold: (Bytes, Bytes) -> bool, head: Bytes, name: Bytes, tail: Bytes)
    requires fold(name, name) && tail != [] && tail[0] == 0x5d
    ensures MentionAt(fold, head + [AT] + name + tail, name, |head|)
  {
    var bytes, at := head + [AT] + name + tail, |head|;
    assert bytes[at + 1..at + 1 + |name|] == name;
    assert bytes[at + 1 + |name|] == tail[0];
  }

  /** No byte of another character looks like an '@'. */
  lemma {:induction false} NoAtByte(s: string)
    requires '@' !in s
    ensures AT !in Utf8(s)
  {
    if s != "" {
      CharHasNoAt(s[0]);
      assert forall c :: c in s[1..] ==> c in s;
      NoAtByte(s[1..]);
    }
  }

  lemma CharHasNoAt(c: char)
    requires c != '@'
    ensures AT !in Utf8Char(c)
  {
    Utf8RoundTrip(c);
    assert |Utf8Char(c)| == 1 ==> Utf8Char(c)[0] as int == c as int;
  }

  lemma BlankIsNeverMentioned(fold: (Bytes, Bytes) -> bool, content: Bytes, name: string)
    requires TrimSpace(name) == ""
    ensures !Mentioned(fold, content, name)
  {
  }

  /** A mention of a longer name is no mention of the name it starts with. */
  lemma LongerNameIsAnother(fold: (Bytes, Bytes) -> bool, name: string, c: char, rest: string)
    requires '@' !in name + [c] + rest
    requires 'a' <= c <= 'z' || 'A' <= c <= 'Z' || '0' <= c <= '9' || c == '_' || c == '-' || c as int >= 0x80
    ensures !Mentioned(fold, Utf8("@" + (name + [c] + rest)), name)
  {
    hide Blank, Utf8Char;
    NoAtByte(name + [c] + rest);
    Utf8Append("@", name + [c] + rest);
    Utf8Append(name + [c], rest);
    Utf8Append(name, [c]);
    Utf8Ascii("@");
    NameCharExactly(c);
    FirstByte(c);
    hide Utf8;
    var content := [AT] + (Utf8(name) + Utf8([c]) + Utf8(rest));
    assert content[1 + |Utf8(name)|] == Utf8([c])[0];
    forall at: nat | at < |content| ensures !MentionAt(fold, content, Utf8(name), at) {
      if at > 0 {
        assert content[at] in Utf8(name + [c] + rest);
      }
    }
  }

  lemma FirstByte(c: char)
    ensures Utf8([c]) == Utf8Char(c) && Utf8Char(c) != [] && Utf8Char(c)[0] in Utf8Char(c)
  {
    assert [c][1..] == "";
  }

  /** Across the two languages: whatever surrounds it, the link the editor writes for a principal is a mention
      of that principal's name to the server. */
  lemma LinksAreMentions(fold: (Bytes, Bytes) -> bool, pre: string, kind: Kind, id: string, name: string, post: string)
    requires !Blank(name) && forall b: Bytes :: fold(b, b)
    ensures Mentioned(fold, Utf8(pre + FormatMention(kind, id, name) + post), name)
  {
    hide Utf8, Blank, FormatMention, Mentioned;
    var tail := FormatSplit(pre, kind, id, name, post);
    NameBetween(fold, pre + "[", name, tail);
  }
}
