/** The optional values and the string routines (Go's strings and strconv packages) that the
    parsers below are written with. */
module Strings {

  datatype Option<+T> = None | Some(value: T)

  // ---- Whitespace ----

  /** unicode.IsSpace. */
  predicate IsSpace(c: char) {
    || '\t' <= c <= '\r' || c == ' ' || c == '\U{85}' || c == '\U{a0}' || c == '\U{1680}'
    || '\U{2000}' <= c <= '\U{200a}' || c == '\U{2028}' || c == '\U{2029}' || c == '\U{202f}'
    || c == '\U{205f}' || c == '\U{3000}'
  }

  function TrimLeft(s: string): (r: string)
    ensures r == [] || !IsSpace(r[0])
    ensures |r| <= |s| && s[|s| - |r|..] == r
    ensures forall i :: 0 <= i < |s| - |r| ==> IsSpace(s[i])
  {
    if s != [] && IsSpace(s[0]) then TrimLeft(s[1..]) else s
  }

  function TrimRight(s: string): (r: string)
    ensures r == [] || !IsSpace(r[|r| - 1])
    ensures r <= s
    ensures forall i :: |r| <= i < |s| ==> IsSpace(s[i])
  {
    if s != [] && IsSpace(s[|s| - 1]) then TrimRight(s[..|s| - 1]) else s
  }

  function TrimSpace(s: string): string {
    TrimRight(TrimLeft(s))
  }

  predicate Blank(s: string) {
    TrimSpace(s) == ""
  }

  lemma TrimSpaceKeeps(s: string)
    requires s != [] && !IsSpace(s[0]) && !IsSpace(s[|s| - 1])
    ensures TrimSpace(s) == s
  {
  }

  lemma TrimSpaceEmpty()
    ensures TrimSpace("") == ""
  {
  }

  predicate Spaces(s: string) {
    forall i :: 0 <= i < |s| ==> IsSpace(s[i])
  }

  lemma {:induction false} TrimLeftSpaces(a: string, s: string)
    requires Spaces(a)
    ensures TrimLeft(a + s) == TrimLeft(s)
  {
    if a == "" {
      assert a + s == s;
    } else {
      assert (a + s)[0] == a[0] && (a + s)[1..] == a[1..] + s;
      TrimLeftSpaces(a[1..], s);
    }
  }

  lemma {:induction false} TrimRightSpaces(s: string, b: string)
    requires Spaces(b)
    ensures TrimRight(s + b) == TrimRight(s)
  {
    if b == "" {
      assert s + b == s;
    } else {
      var n := |b| - 1;
      assert (s + b)[|s| + n] == b[n] && (s + b)[..|s| + n] == s + b[..n];
      TrimRightSpaces(s, b[..n]);
    }
  }

  predicate Trim(s: string) {
    s != "" ==> !IsSpace(s[0]) && !IsSpace(s[|s| - 1])
  }

  /** Trimming drops exactly the space around a text that neither starts nor ends with space. */
  lemma TrimSpaceOf(a: string, s: string, b: string)
    requires Spaces(a) && Spaces(b) && Trim(s)
    ensures TrimSpace(a + s + b) == s
  {
    hide IsSpace;
    assert a + s + b == a + (s + b);
    TrimLeftSpaces(a, s + b);
    if s == "" {
      assert s + b == b && b == b + "";
      TrimLeftSpaces(b, "");
    } else {
      assert (s + b)[0] == s[0];
      TrimRightSpaces(s, b);
    }
  }

  lemma TrimSpaceParts(s: string) returns (a: string, b: string)
    ensures s == a + TrimSpace(s) + b && Spaces(a) && Spaces(b) && Trim(TrimSpace(s))
  {
    hide IsSpace, TrimLeft, TrimRight;
    var l := TrimLeft(s);
    var t := TrimRight(l);
    a, b := SplitOff(s, l), l[|t|..];
    assert l == t + b;
    Append3(a, t, b);
    assert t != "" ==> t[0] == l[0];
  }

  /** What stands before a suffix. */
  function SplitOff(s: string, suffix: string): (head: string)
    requires |suffix| <= |s| && s[|s| - |suffix|..] == suffix
    ensures s == head + suffix && head == s[..|s| - |suffix|]
  {
    s[..|s| - |suffix|]
  }

  lemma Append3(a: string, b: string, c: string)
    ensures a + (b + c) == a + b + c
  {
  }

  /** Space around a text makes no difference to what is left. */
  lemma TrimSpaceAround(a: string, s: string, b: string)
    requires Spaces(a) && Spaces(b)
    ensures TrimSpace(a + s + b) == TrimSpace(s)
  {
    hide IsSpace, TrimSpace, Spaces;
    var c, d := TrimSpaceParts(s);
    var t := TrimSpace(s);
    Regroup5(a, c, t, d, b);
    SpacesAppend(a, c);
    SpacesAppend(d, b);
    TrimSpaceOf(a + c, t, d + b);
  }

  lemma Regroup5(a: string, b: string, c: string, d: string, e: string)
    ensures a + (b + c + d) + e == a + b + c + (d + e)
  {
  }

  lemma SpacesAppend(a: string, b: string)
    requires Spaces(a) && Spaces(b)
    ensures Spaces(a + b)
  {
    hide IsSpace;
  }

  lemma TrimSpaceTwice(s: string)
    ensures TrimSpace(TrimSpace(s)) == TrimSpace(s)
  {
    var t := TrimSpace(s);
    hide TrimLeft, TrimRight;
    if t != "" {
      assert t[0] == TrimLeft(s)[0];
      hide TrimSpace;
      TrimSpaceKeeps(t);
    } else {
      TrimSpaceEmpty();
    }
  }

  /** strings.Fields: the maximal runs of non-space characters. */
  function Fields(s: string): seq<string>
    decreases |s|
  {
    var t := TrimLeft(s);
    if t == [] then [] else
      var n := WordLength(t);
      [t[..n]] + Fields(t[n..])
  }

  function WordLength(s: string): (n: nat)
    ensures n <= |s|
    ensures forall i :: 0 <= i < n ==> !IsSpace(s[i])
    ensures n < |s| ==> IsSpace(s[n])
  {
    if s == [] || IsSpace(s[0]) then 0 else 1 + WordLength(s[1..])
  }

  predicate IsWord(s: string) {
    s != [] && forall i :: 0 <= i < |s| ==> !IsSpace(s[i])
  }

  lemma FieldsCons(word: string, rest: string)
    requires IsWord(word) && (rest == [] || IsSpace(rest[0]))
    ensures Fields(word + rest) == [word] + Fields(rest)
  {
    var s := word + rest;
    assert s[0] == word[0];
    assert TrimLeft(s) == s;
    var n := WordLength(s);
    assert forall i :: 0 <= i < |word| ==> s[i] == word[i];
    assert rest != [] ==> s[|word|] == rest[0];
    assert n == |word|;
    assert s[..n] == word && s[n..] == rest;
  }

  lemma FieldsAfterSpaces(gap: string, s: string)
    requires Spaces(gap)
    ensures Fields(gap + s) == Fields(s)
  {
    hide IsSpace;
    TrimLeftSpaces(gap, s);
  }

  /** Words with the space around them: gaps[k] stands before words[k], the last gap at the end. */
  function Laid(gaps: seq<string>, words: seq<string>): string
    requires |gaps| == |words| + 1
  {
    if words == [] then gaps[0] else gaps[0] + (words[0] + Laid(gaps[1..], words[1..]))
  }

  predicate Layout(gaps: seq<string>, words: seq<string>) {
    && |gaps| == |words| + 1
    && (forall k :: 0 <= k < |gaps| ==> Spaces(gaps[k]))
    && (forall k :: 0 <= k < |words| ==> IsWord(words[k]))
    && (forall k :: 0 < k < |words| ==> gaps[k] != "")
  }

  lemma LaidStarts(gaps: seq<string>, words: seq<string>)
    requires Layout(gaps, words) && (words != [] ==> gaps[0] != "")
    ensures Laid(gaps, words) == "" || IsSpace(Laid(gaps, words)[0])
  {
    hide IsSpace;
    assert gaps[0] != "" ==> IsSpace(gaps[0][0]);
  }

  lemma LayoutTail(gaps: seq<string>, words: seq<string>)
    requires Layout(gaps, words) && words != []
    ensures Layout(gaps[1..], words[1..]) && (|words| > 1 ==> gaps[1..][0] != "")
  {
    hide IsSpace, IsWord;
    assert forall k :: 0 <= k < |words[1..]| ==> words[1..][k] == words[k + 1];
    assert forall k :: 0 <= k < |gaps[1..]| ==> gaps[1..][k] == gaps[k + 1];
  }

  /** The fields of a text are its words, however much space stands around them. */
  lemma {:induction false} FieldsOfLayout(gaps: seq<string>, words: seq<string>)
    requires Layout(gaps, words)
    ensures Fields(Laid(gaps, words)) == words
    decreases |words|
  {
    hide Fields, IsSpace, IsWord, Spaces;
    if words == [] {
      assert gaps[0] + "" == gaps[0];
      FieldsAfterSpaces(gaps[0], "");
      NoFields();
    } else {
      LayoutTail(gaps, words);
      var rest := Laid(gaps[1..], words[1..]);
      LaidStarts(gaps[1..], words[1..]);
      FieldsAfterSpaces(gaps[0], words[0] + rest);
      FieldsCons(words[0], rest);
      FieldsOfLayout(gaps[1..], words[1..]);
      assert words == [words[0]] + words[1..];
    }
  }

  lemma NoFields()
    ensures Fields("") == []
  {
  }

  /** Every text is such a layout of its fields. */
  lemma {:induction false} LayoutOf(s: string) returns (gaps: seq<string>)
    ensures Layout(gaps, Fields(s)) && s == Laid(gaps, Fields(s))
    decreases |s|
  {
    hide Fields, IsSpace, Laid, Layout, Spaces, IsWord;
    var gap, word, rest := FirstWord(s);
    FieldsAfterSpaces(gap, word + rest);
    if word == "" {
      gaps := [gap];
      NoFields();
      LaidAlone(gap);
    } else {
      FieldsCons(word, rest);
      var tail := LayoutOf(rest);
      LayoutCons(gap, tail, word, Fields(rest), rest);
      gaps := [gap] + tail;
    }
  }

  lemma LaidAlone(gap: string)
    ensures Laid([gap], []) == gap
    ensures Spaces(gap) ==> Layout([gap], [])
  {
  }

  /** The space in front, the first word and what follows it; no word when there is only space. */
  lemma FirstWord(s: string) returns (gap: string, word: string, rest: string)
    ensures s == gap + (word + rest) && Spaces(gap)
    ensures if word == "" then rest == "" else IsWord(word) && (rest == "" || IsSpace(rest[0]))
  {
    hide IsSpace, TrimLeft, WordLength;
    var t := TrimLeft(s);
    gap := s[..|s| - |t|];
    assert s == gap + t;
    var n := WordLength(t);
    word, rest := t[..n], t[n..];
    assert word + rest == t;
    if word == "" {
      assert t == rest;
    }
  }

  lemma LayoutCons(gap: string, gaps: seq<string>, word: string, words: seq<string>, rest: string)
    requires Spaces(gap) && IsWord(word) && Layout(gaps, words) && rest == Laid(gaps, words)
    requires rest != "" ==> IsSpace(rest[0])
    ensures Layout([gap] + gaps, [word] + words) && Laid([gap] + gaps, [word] + words) == gap + (word + rest)
  {
    hide IsSpace;
    var all, allWords := [gap] + gaps, [word] + words;
    assert all[1..] == gaps && allWords[1..] == words;
    if words != [] {
      assert rest == gaps[0] + (words[0] + Laid(gaps[1..], words[1..]));
    }
    assert forall k :: 0 < k < |allWords| ==> all[k] == gaps[k - 1] && allWords[k] == words[k - 1];
  }

  // ---- Searching and cutting ----

  /** strings.Index for one character: the first position of `c`, or -1. */
  function Index(s: string, c: char): (i: int)
    ensures -1 <= i < |s|
    ensures i >= 0 ==> s[i] == c && c !in s[..i]
    ensures i < 0 ==> c !in s
  {
    if s == [] then -1
    else if s[0] == c then 0
    else
      var i := Index(s[1..], c);
      assert s == [s[0]] + s[1..];
      assert i >= 0 ==> s[..i + 1] == [s[0]] + s[1..][..i];
      if i < 0 then -1 else i + 1
  }

  lemma IndexAt(a: string, c: char, b: string)
    requires c !in a
    ensures Index(a + [c] + b, c) == |a|
  {
    var s := a + [c] + b;
    assert s[|a|] == c;
    assert forall j :: 0 <= j < |a| ==> s[j] == a[j];
    assert forall i :: |a| < i <= |s| ==> s[..i][|a|] == c;
  }

  /** True when `pat` occurs in `s` at position `i`. */
  predicate OccursAt(s: string, pat: string, i: int) {
    0 <= i <= |s| - |pat| && s[i..i + |pat|] == pat
  }

  /** strings.Index for a pattern: the first occurrence at or after `from`, or -1. */
  function IndexOf(s: string, pat: string, from: nat): (i: int)
    requires from <= |s|
    ensures i >= 0 ==> from <= i && OccursAt(s, pat, i)
    ensures i >= 0 ==> forall j :: from <= j < i ==> !OccursAt(s, pat, j)
    ensures i < 0 ==> i == -1 && forall j :: from <= j ==> !OccursAt(s, pat, j)
    decreases |s| - from
  {
    if OccursAt(s, pat, from) then from
    else if from == |s| then -1
    else IndexOf(s, pat, from + 1)
  }

  function TrimSuffix(s: string, suffix: string): string {
    if HasSuffix(s, suffix) then s[..|s| - |suffix|] else s
  }

  predicate HasSuffix(s: string, suffix: string) {
    |suffix| <= |s| && s[|s| - |suffix|..] == suffix
  }

  // ---- Split and Join ----

  /** strings.Split with a one-character separator. */
  function Split(s: string, c: char): (parts: seq<string>)
    ensures |parts| >= 1
    decreases |s|
  {
    var i := Index(s, c);
    if i < 0 then [s] else [s[..i]] + Split(s[i + 1..], c)
  }

  function Join(parts: seq<string>, c: char): string
    requires |parts| >= 1
  {
    if |parts| == 1 then parts[0] else parts[0] + [c] + Join(parts[1..], c)
  }

  predicate NoneHolds(parts: seq<string>, c: char) {
    forall k :: 0 <= k < |parts| ==> c !in parts[k]
  }

  lemma SplitHead(a: string, c: char, rest: string)
    requires c !in a
    ensures Split(a + [c] + rest, c) == [a] + Split(rest, c)
  {
    var s := a + [c] + rest;
    IndexAt(a, c, rest);
    assert s[..|a|] == a && s[|a| + 1..] == rest;
    hide Index;
  }

  /** Joining separator-free parts and splitting again gives the parts back. */
  lemma {:induction false} SplitJoin(parts: seq<string>, c: char)
    requires |parts| >= 1 && NoneHolds(parts, c)
    ensures Split(Join(parts, c), c) == parts
  {
    if |parts| == 1 {
      assert parts == [parts[0]];
    } else {
      hide Split;
      SplitHead(parts[0], c, Join(parts[1..], c));
      SplitJoin(parts[1..], c);
      assert parts == [parts[0]] + parts[1..];
    }
  }

  // ---- Decimal integers ----

  const MAX_INT64 := 0x7fff_ffff_ffff_ffff
  const MIN_INT64 := -0x8000_0000_0000_0000

  predicate IsDigit(c: char) { '0' <= c <= '9' }

  predicate AllDigits(s: string) {
    forall i :: 0 <= i < |s| ==> IsDigit(s[i])
  }

  /** The value of a non-empty run of digits. */
  function Digits(s: string): Option<nat> {
    if s == [] || !IsDigit(s[|s| - 1]) then None else
      var last := s[|s| - 1] as int - '0' as int;
      if |s| == 1 then Some(last) else
        match Digits(s[..|s| - 1])
        case Some(v) => Some(10 * v + last)
        case None => None
  }

  /** strconv.Atoi on a 64-bit int: an optional sign, at least one digit, a value in range. */
  function Atoi(s: string): (r: Option<int>)
    ensures r.Some? ==> MIN_INT64 <= r.value <= MAX_INT64
  {
    if s == [] then None
    else if s[0] == '-' then (match Digits(s[1..]) case Some(v) => InInt64(0 - v) case None => None)
    else match Digits(if s[0] == '+' then s[1..] else s)
      case Some(v) => InInt64(v)
      case None => None
  }

  function InInt64(v: int): Option<int> {
    if MIN_INT64 <= v <= MAX_INT64 then Some(v) else None
  }

  /** strconv.Itoa for a natural number. */
  function Itoa(n: nat): (s: string)
    ensures s != [] && AllDigits(s)
    decreases n
  {
    if n < 10 then [('0' as int + n) as char]
    else Itoa(n / 10) + [('0' as int + n % 10) as char]
  }

  lemma {:induction false} DigitsOfItoa(n: nat)
    ensures Digits(Itoa(n)) == Some(n)
    decreases n
  {
    var s := Itoa(n);
    if n >= 10 {
      DigitsOfItoa(n / 10);
      assert s[..|s| - 1] == Itoa(n / 10);
    }
  }

  /** Reading a printed number gives the number back. */
  lemma AtoiOfItoa(n: nat)
    requires n <= MAX_INT64
    ensures Atoi(Itoa(n)) == Some(n)
  {
    DigitsOfItoa(n);
    assert IsDigit(Itoa(n)[0]);
  }

  lemma {:induction false} DigitsExact(s: string)
    ensures Digits(s).Some? <==> s != "" && AllDigits(s)
  {
    if |s| > 1 {
      DigitsExact(s[..|s| - 1]);
    }
  }

  lemma {:induction false} LeadingZeros(zeros: string, s: string)
    requires s != "" && forall i :: 0 <= i < |zeros| ==> zeros[i] == '0'
    ensures Digits(zeros + s) == Digits(s)
    decreases |zeros| + |s|
  {
    if zeros == "" {
      assert zeros + s == s;
    } else {
      var n := |s| - 1;
      assert (zeros + s)[|zeros| + n] == s[n] && (zeros + s)[..|zeros| + n] == zeros + s[..n];
      if n > 0 {
        LeadingZeros(zeros, s[..n]);
      } else {
        ZerosAre0(zeros);
      }
    }
  }

  lemma {:induction false} ZerosAre0(zeros: string)
    requires zeros != "" && forall i :: 0 <= i < |zeros| ==> zeros[i] == '0'
    ensures Digits(zeros) == Some(0)
  {
    if |zeros| > 1 {
      ZerosAre0(zeros[..|zeros| - 1]);
    }
  }

  /** An optional sign and leading zeros are accepted, and the value must fit 64 bits. */
  lemma AtoiOfSigned(sign: string, zeros: string, n: nat)
    requires sign in {"", "+", "-"} && forall i :: 0 <= i < |zeros| ==> zeros[i] == '0'
    ensures var v := if sign == "-" then 0 - n else n;
            Atoi(sign + (zeros + Itoa(n))) == if MIN_INT64 <= v <= MAX_INT64 then Some(v) else None
  {
    hide Digits, Itoa;
    var digits := zeros + Itoa(n);
    LeadingZeros(zeros, Itoa(n));
    DigitsOfItoa(n);
    assert IsDigit(digits[0]) by {
      assert zeros == "" ==> digits[0] == Itoa(n)[0];
    }
    assert (sign + digits)[|sign|..] == digits;
    assert sign == "" ==> sign + digits == digits;
  }

  /** Nothing but an optional sign and digits is a number. */
  lemma AtoiNeedsDigits(s: string)
    requires Atoi(s).Some?
    ensures s != "" && var t := if s[0] == '-' || s[0] == '+' then s[1..] else s; t != "" && AllDigits(t)
  {
    DigitsExact(s);
    DigitsExact(s[1..]);
  }
}
