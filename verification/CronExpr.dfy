/** Five-field cron expressions: parsing one into a schedule, and the next minute it fires. */
module CronExpr {
  import opened Strings
  import opened Calendar

  type Bitset = seq<bool>

  /** One bit per value of a field, counted from the field's minimum. */
  datatype Schedule = Schedule(
    minute: Bitset, hour: Bitset, dom: Bitset, month: Bitset, dow: Bitset,
    domStar: bool, dowStar: bool)

  predicate Sized(s: Schedule) {
    |s.minute| == 60 && |s.hour| == 24 && |s.dom| == 31 && |s.month| == 12 && |s.dow| == 7
  }

  predicate NonEmpty(b: Bitset) {
    exists i :: 0 <= i < |b| && b[i]
  }

  predicate Full(b: Bitset) {
    forall i :: 0 <= i < |b| ==> b[i]
  }

  /** What Parse promises about every schedule it returns. */
  predicate Parsable(s: Schedule) {
    && Sized(s)
    && NonEmpty(s.minute) && NonEmpty(s.hour) && NonEmpty(s.dom) && NonEmpty(s.month) && NonEmpty(s.dow)
    && (s.domStar ==> Full(s.dom))
    && (s.dowStar ==> Full(s.dow))
  }

  // ==== Parsing ====

  /** The values lo, lo+step, ... up to hi that one comma-separated part selects. */
  datatype Selection = Selection(lo: int, hi: int, step: int)

  /** `v` is lo plus some number of steps. */
  predicate OnGrid(sel: Selection, v: int)
    requires sel.step > 0
    decreases v - sel.lo
  {
    v == sel.lo || (sel.lo <= v - sel.step && OnGrid(sel, v - sel.step))
  }

  predicate Selects(sel: Selection, v: int)
    requires sel.step > 0
  {
    sel.lo <= v <= sel.hi && OnGrid(sel, v)
  }

  predicate FieldBounds(min: int, max: int) {
    0 <= min <= max <= 59
  }

  /** The two ends named by the text before any "/". */
  function ParseRange(part: string, min: int, max: int): Option<(int, int)> {
    if part == "*" then Some((min, max)) else
      var dash := Index(part, '-');
      if dash < 0 then
        (match Atoi(part) case Some(v) => Some((v, v)) case None => None)
      else if dash == 0 || dash == |part| - 1 then None
      else match (Atoi(part[..dash]), Atoi(part[dash + 1..]))
        case (Some(lo), Some(hi)) => Some((lo, hi))
        case _ => None
  }

  function CheckRange(ends: Option<(int, int)>, min: int, max: int, step: int): (r: Option<Selection>)
    ensures r.Some? ==> r.value.step == step && min <= r.value.lo <= r.value.hi <= max
  {
    match ends
    case None => None
    case Some((lo, hi)) => if lo < min || hi > max || lo > hi then None else Some(Selection(lo, hi, step))
  }

  /** The text before the first "/" and the step after it; the step is 1 when there is no "/". */
  function CutStep(part: string): (r: Option<(string, int)>)
    ensures r.Some? ==> 0 < r.value.1 <= MAX_INT64
  {
    var i := Index(part, '/');
    if i < 0 then Some((part, 1)) else
      match Atoi(part[i + 1..])
      case Some(step) => if step <= 0 then None else Some((part[..i], step))
      case None => None
  }

  function ParsePart(part: string, min: int, max: int): (r: Option<Selection>)
    ensures r.Some? ==> 0 < r.value.step <= MAX_INT64 && min <= r.value.lo <= r.value.hi <= max
  {
    match CutStep(part)
    case None => None
    case Some((range, step)) => CheckRange(ParseRange(range, min, max), min, max, step)
  }

  /** The grammar of a part, stated without positions: "*", "a" or "a-b", with an optional "/step". */
  ghost predicate RangeDenotes(text: string, min: int, max: int, lo: int, hi: int) {
    || (text == "*" && lo == min && hi == max)
    || (text != "*" && '-' !in text && Atoi(text) == Some(lo) && hi == lo)
    || (exists a, b :: Joined(text, a, '-', b) && a != "" && b != "" && Atoi(a) == Some(lo) && Atoi(b) == Some(hi))
  }

  ghost predicate PartDenotes(part: string, min: int, max: int, sel: Selection) {
    && min <= sel.lo <= sel.hi <= max
    && sel.step > 0
    && (|| ('/' !in part && sel.step == 1 && RangeDenotes(part, min, max, sel.lo, sel.hi))
        || (exists r, t :: Joined(part, r, '/', t) && Atoi(t) == Some(sel.step)
              && RangeDenotes(r, min, max, sel.lo, sel.hi)))
  }

  /** `text` is `a`, then the first `c` of the text, then `b`. */
  predicate Joined(text: string, a: string, c: char, b: string) {
    text == a + [c] + b && c !in a
  }

  lemma JoinedAt(text: string, a: string, c: char, b: string)
    requires Joined(text, a, c, b)
    ensures Index(text, c) == |a| && text[..|a|] == a && text[|a| + 1..] == b
  {
    IndexAt(a, c, b);
  }

  lemma JoinedByIndex(text: string, c: char)
    requires Index(text, c) >= 0
    ensures var i := Index(text, c); Joined(text, text[..i], c, text[i + 1..])
  {
    var i := Index(text, c);
    assert text == text[..i] + [c] + text[i + 1..];
  }

  lemma ParseRangeExact(text: string, min: int, max: int, lo: int, hi: int)
    ensures ParseRange(text, min, max) == Some((lo, hi)) <==> RangeDenotes(text, min, max, lo, hi)
  {
    hide Atoi;
    if ParseRange(text, min, max) == Some((lo, hi)) && text != "*" && Index(text, '-') >= 0 {
      JoinedByIndex(text, '-');
    }
    forall a, b | Joined(text, a, '-', b)
      ensures Index(text, '-') == |a| && text[..|a|] == a && text[|a| + 1..] == b && text != "*"
    {
      JoinedAt(text, a, '-', b);
      assert '-' in text;
    }
  }

  /** The position-based parser finds exactly the selection the grammar gives the part. */
  lemma ParsePartExact(part: string, min: int, max: int, sel: Selection)
    ensures ParsePart(part, min, max) == Some(sel) <==> PartDenotes(part, min, max, sel)
  {
    var i := Index(part, '/');
    if i < 0 {
      ParseRangeExact(part, min, max, sel.lo, sel.hi);
    } else {
      JoinedByIndex(part, '/');
      ParseRangeExact(part[..i], min, max, sel.lo, sel.hi);
    }
    forall r, t | Joined(part, r, '/', t)
      ensures i == |r| && part[..i] == r && part[i + 1..] == t
    {
      JoinedAt(part, r, '/', t);
    }
  }

  /** The loop variable is a 64-bit int: adding a step wraps around. */
  function Wrap64(x: int): int {
    (x + 0x8000_0000_0000_0000) % 0x1_0000_0000_0000_0000 - 0x8000_0000_0000_0000
  }

  /** The bits with every value of the selection added. */
  function Mark(bits: Bitset, min: int, sel: Selection): Bitset
    requires sel.step > 0
  {
    seq(|bits|, k requires 0 <= k < |bits| => bits[k] || Selects(sel, min + k))
  }

  /** Adding the step to the last selected value leaves the 64-bit range. */
  predicate Overflows(sel: Selection) {
    sel.lo + sel.step > MAX_INT64
  }

  datatype SetOutcome = Ok | InvalidSpec | IndexPanic

  /** The outcome of one part: a malformed part is rejected, an overflowing step indexes out of
      bounds, anything else succeeds. */
  function PartOutcome(part: string, min: int, max: int): SetOutcome {
    RangeOutcome(ParsePart(part, min, max))
  }

  function RangeOutcome(sel: Option<Selection>): SetOutcome {
    match sel
    case None => InvalidSpec
    case Some(s) => if Overflows(s) then IndexPanic else Ok
  }

  lemma {:induction false} OffGridBelowStep(sel: Selection, v: int, u: int)
    requires sel.step > 0 && OnGrid(sel, v) && v < u < v + sel.step
    ensures !OnGrid(sel, u)
    decreases v - sel.lo
  {
    if v != sel.lo {
      OffGridBelowStep(sel, v - sel.step, u - sel.step);
    }
  }

  /** Counting in steps is the same as leaving no remainder. */
  lemma {:induction false} OnGridIsRemainder(sel: Selection, v: int)
    requires sel.step > 0 && sel.lo <= v
    ensures OnGrid(sel, v) <==> (v - sel.lo) % sel.step == 0
    decreases v - sel.lo
  {
    if v - sel.lo < sel.step {
      ModOfMultiple(0, sel.step, v - sel.lo);
    } else {
      OnGridIsRemainder(sel, v - sel.step);
      var x := v - sel.step - sel.lo;
      ModOfMultiple(x / sel.step + 1, sel.step, x % sel.step);
      assert v - sel.lo == (x / sel.step + 1) * sel.step + x % sel.step;
    }
  }

  lemma ModOfMultiple(q: int, step: int, r: int)
    requires 0 <= r < step
    ensures (q * step + r) % step == r
  {
    var x := q * step + r;
    var d := x / step - q;
    assert d * step == r - x % step;
    if d != 0 {
      MulGrows(if d > 0 then d else -d, step);
    }
  }

  lemma MulGrows(d: int, step: int)
    requires d >= 1 && step > 0
    ensures d * step >= step
  {
  }

  lemma WrapExact(x: int)
    requires 2 * MIN_INT64 <= x <= 2 * MAX_INT64
    ensures Wrap64(x) == if x < MIN_INT64 then x + 0x1_0000_0000_0000_0000
                         else if x <= MAX_INT64 then x
                         else x - 0x1_0000_0000_0000_0000
  {
  }

  lemma OnGridFirst(sel: Selection)
    requires sel.step > 0
    ensures OnGrid(sel, sel.lo)
  {
  }

  lemma OnGridNext(sel: Selection, v: int)
    requires sel.step > 0 && sel.lo <= v && OnGrid(sel, v)
    ensures OnGrid(sel, v + sel.step) && (sel.lo < v ==> sel.lo + sel.step <= v)
  {
  }

  /** The marking loop of setRange, with its 64-bit loop variable. */
  method MarkValues(out: array<bool>, min: int, max: int, sel: Selection) returns (outcome: SetOutcome)
    requires FieldBounds(min, max) && out.Length == max - min + 1
    requires 0 < sel.step <= MAX_INT64 && min <= sel.lo <= sel.hi <= max
    modifies out
    ensures outcome == if Overflows(sel) then IndexPanic else Ok
    ensures outcome == Ok ==> out[..] == Mark(old(out[..]), min, sel)
  {
    hide OnGrid, Wrap64;
    OnGridFirst(sel);
    var v := sel.lo;
    while v <= sel.hi
      invariant MIN_INT64 <= v
      invariant sel.lo <= v || (v < min && Overflows(sel))
      invariant sel.lo <= v ==> OnGrid(sel, v)
      invariant sel.lo < v ==> !Overflows(sel)
      invariant sel.lo <= v ==> forall k :: 0 <= k < out.Length ==>
        out[k] == (old(out[k]) || (min + k < v && Selects(sel, min + k)))
      decreases if v < sel.lo then 0 else sel.hi - v + 1
    {
      WrapExact(v - min);
      var index := Wrap64(v - min);
      if index < 0 || index >= out.Length {
        return IndexPanic;
      }
      out[index] := true;
      forall u | v < u < v + sel.step ensures !OnGrid(sel, u) {
        OffGridBelowStep(sel, v, u);
      }
      OnGridNext(sel, v);
      WrapExact(v + sel.step);
      v := Wrap64(v + sel.step);
    }
    return Ok;
  }

  method RangeEnds(part: string, min: int, max: int) returns (r: Option<(int, int)>)
    ensures r == ParseRange(part, min, max)
  {
    if part == "*" {
      return Some((min, max));
    }
    var dash := Index(part, '-');
    if dash < 0 {
      var v := Atoi(part);
      return if v.None? then None else Some((v.value, v.value));
    }
    if dash == 0 || dash == |part| - 1 {
      return None;
    }
    var lo := Atoi(part[..dash]);
    if lo.None? {
      return None;
    }
    var hi := Atoi(part[dash + 1..]);
    return if hi.None? then None else Some((lo.value, hi.value));
  }

  /** One part's marks are added to the bits; nothing else changes. */
  method SetRange(out: array<bool>, part: string, min: int, max: int, step: int) returns (outcome: SetOutcome)
    requires FieldBounds(min, max) && out.Length == max - min + 1
    requires 0 < step <= MAX_INT64
    modifies out
    ensures outcome == RangeOutcome(CheckRange(ParseRange(part, min, max), min, max, step))
    ensures outcome == Ok ==>
      out[..] == Mark(old(out[..]), min, CheckRange(ParseRange(part, min, max), min, max, step).value)
  {
    var ends := RangeEnds(part, min, max);
    if ends.None? {
      return InvalidSpec;
    }
    var (lo, hi) := ends.value;
    if lo < min || hi > max || lo > hi {
      return InvalidSpec;
    }
    outcome := MarkValues(out, min, max, Selection(lo, hi, step));
  }

  // ---- One field ----

  datatype FieldResult = Bits(bits: Bitset) | Rejected | Panicked

  /** The parts in order: the first bad one decides, otherwise every part adds its marks. */
  function FoldParts(parts: seq<string>, min: int, max: int, bits: Bitset): FieldResult {
    if parts == [] then Bits(bits)
    else match PartOutcome(parts[0], min, max)
      case InvalidSpec => Rejected
      case IndexPanic => Panicked
      case Ok => FoldParts(parts[1..], min, max, Mark(bits, min, ParsePart(parts[0], min, max).value))
  }

  function NoBits(n: nat): (b: Bitset)
    ensures |b| == n && forall i :: 0 <= i < n ==> !b[i]
  {
    if n == 0 then [] else NoBits(n - 1) + [false]
  }

  function FieldSpec(field: string, min: int, max: int): FieldResult
    requires FieldBounds(min, max)
  {
    FoldParts(Split(field, ','), min, max, NoBits(max - min + 1))
  }

  ghost predicate SomePartSelects(parts: seq<string>, min: int, max: int, v: int) {
    exists k, sel :: 0 <= k < |parts| && PartDenotes(parts[k], min, max, sel) && Selects(sel, v)
  }

  ghost predicate GoodPart(part: string, min: int, max: int) {
    exists sel :: PartDenotes(part, min, max, sel) && !Overflows(sel)
  }

  ghost predicate OverflowingPart(part: string, min: int, max: int) {
    exists sel :: PartDenotes(part, min, max, sel) && Overflows(sel)
  }

  /** Part `k` overflows and every part before it is good. */
  ghost predicate OverflowsFirst(parts: seq<string>, min: int, max: int, k: int) {
    0 <= k < |parts| && OverflowingPart(parts[k], min, max) && forall j :: 0 <= j < k ==> GoodPart(parts[j], min, max)
  }

  lemma PartOutcomeExact(part: string, min: int, max: int)
    ensures PartOutcome(part, min, max) == Ok <==> GoodPart(part, min, max)
    ensures PartOutcome(part, min, max) == IndexPanic <==> OverflowingPart(part, min, max)
    ensures forall sel :: PartDenotes(part, min, max, sel) <==> ParsePart(part, min, max) == Some(sel)
  {
    forall sel ensures PartDenotes(part, min, max, sel) <==> ParsePart(part, min, max) == Some(sel) {
      ParsePartExact(part, min, max, sel);
    }
    var p := ParsePart(part, min, max);
    if p.Some? {
      assert PartDenotes(part, min, max, p.value);
    }
  }

  ghost predicate AllGood(parts: seq<string>, min: int, max: int) {
    forall k :: 0 <= k < |parts| ==> GoodPart(parts[k], min, max)
  }

  /** `after` is `before` with exactly the values selected by some part added. */
  ghost predicate Marked(parts: seq<string>, min: int, max: int, before: Bitset, after: Bitset) {
    && |after| == |before|
    && forall i :: 0 <= i < |before| ==> (after[i] <==> before[i] || SomePartSelects(parts, min, max, min + i))
  }

  lemma AllGoodCons(parts: seq<string>, min: int, max: int)
    requires parts != []
    ensures AllGood(parts, min, max) <==> GoodPart(parts[0], min, max) && AllGood(parts[1..], min, max)
  {
    var rest := parts[1..];
    assert forall k :: 0 <= k < |rest| ==> rest[k] == parts[k + 1];
    assert forall k :: 1 <= k < |parts| ==> parts[k] == rest[k - 1];
  }

  lemma {:induction false} FoldPartsBits(parts: seq<string>, min: int, max: int, bits: Bitset)
    ensures var r := FoldParts(parts, min, max, bits);
      && (r.Bits? <==> AllGood(parts, min, max))
      && (r.Bits? ==> Marked(parts, min, max, bits, r.bits))
    decreases |parts|
  {
    if parts != [] {
      var rest := parts[1..];
      PartOutcomeExact(parts[0], min, max);
      AllGoodCons(parts, min, max);
      if GoodPart(parts[0], min, max) {
        var sel := ParsePart(parts[0], min, max).value;
        FoldPartsBits(rest, min, max, Mark(bits, min, sel));
        var r := FoldParts(rest, min, max, Mark(bits, min, sel));
        if r.Bits? {
          MarkedCons(parts, min, max, sel, bits, r.bits);
        }
      }
    }
  }

  lemma SelectsCons(parts: seq<string>, min: int, max: int, sel: Selection, v: int)
    requires parts != [] && ParsePart(parts[0], min, max) == Some(sel)
    ensures SomePartSelects(parts, min, max, v) <==> Selects(sel, v) || SomePartSelects(parts[1..], min, max, v)
  {
    PartOutcomeExact(parts[0], min, max);
    var rest := parts[1..];
    if SomePartSelects(parts, min, max, v) {
      var k, s :| 0 <= k < |parts| && PartDenotes(parts[k], min, max, s) && Selects(s, v);
      if k > 0 {
        assert PartDenotes(rest[k - 1], min, max, s);
      }
    }
    if SomePartSelects(rest, min, max, v) {
      var k, s :| 0 <= k < |rest| && PartDenotes(rest[k], min, max, s) && Selects(s, v);
      assert PartDenotes(parts[k + 1], min, max, s);
    }
    if Selects(sel, v) {
      assert PartDenotes(parts[0], min, max, sel);
    }
  }

  lemma {:induction false} FoldPartsPanics(parts: seq<string>, min: int, max: int, bits: Bitset)
    ensures FoldParts(parts, min, max, bits).Panicked? <==> exists k :: OverflowsFirst(parts, min, max, k)
    decreases |parts|
  {
    if parts != [] {
      var rest := parts[1..];
      PartOutcomeExact(parts[0], min, max);
      if GoodPart(parts[0], min, max) {
        FoldPartsPanics(rest, min, max, Mark(bits, min, ParsePart(parts[0], min, max).value));
        assert forall k :: 0 <= k < |rest| ==> rest[k] == parts[k + 1];
        if k :| OverflowsFirst(rest, min, max, k) {
          assert forall j :: 0 <= j < k + 1 ==> j == 0 || parts[j] == rest[j - 1];
          assert OverflowsFirst(parts, min, max, k + 1);
        }
        if k :| OverflowsFirst(parts, min, max, k) {
          assert k > 0;
          assert OverflowsFirst(rest, min, max, k - 1);
        }
      } else if OverflowingPart(parts[0], min, max) {
        assert OverflowsFirst(parts, min, max, 0);
      }
    }
  }

  lemma MarkedCons(parts: seq<string>, min: int, max: int, sel: Selection, bits: Bitset, r: Bitset)
    requires parts != [] && ParsePart(parts[0], min, max) == Some(sel)
    requires Marked(parts[1..], min, max, Mark(bits, min, sel), r)
    ensures Marked(parts, min, max, bits, r)
  {
    forall i | 0 <= i < |bits| ensures r[i] <==> bits[i] || SomePartSelects(parts, min, max, min + i) {
      SelectsCons(parts, min, max, sel, min + i);
    }
  }

  /** A field parses exactly when every comma-separated part is well formed, in range and free of
      overflow, and then bit v is set exactly when some part selects v. */
  lemma FieldSpecExact(field: string, min: int, max: int)
    requires FieldBounds(min, max)
    ensures var parts := Split(field, ',');
      var r := FieldSpec(field, min, max);
      && (r.Bits? <==> AllGood(parts, min, max))
      && (r.Panicked? <==> exists k :: OverflowsFirst(parts, min, max, k))
      && (r.Bits? ==> Marked(parts, min, max, NoBits(max - min + 1), r.bits))
  {
    FoldPartsBits(Split(field, ','), min, max, NoBits(max - min + 1));
    FoldPartsPanics(Split(field, ','), min, max, NoBits(max - min + 1));
  }

  /** A parsed field always has a bit set, so the check at the end of parseField never rejects. */
  lemma FieldNonEmpty(field: string, min: int, max: int)
    requires FieldBounds(min, max) && FieldSpec(field, min, max).Bits?
    ensures NonEmpty(FieldSpec(field, min, max).bits) && |FieldSpec(field, min, max).bits| == max - min + 1
  {
    FieldSpecExact(field, min, max);
    var parts := Split(field, ',');
    assert GoodPart(parts[0], min, max);
    var sel :| PartDenotes(parts[0], min, max, sel) && !Overflows(sel);
    assert Selects(sel, sel.lo);
    assert SomePartSelects(parts, min, max, min + (sel.lo - min));
    assert FieldSpec(field, min, max).bits[sel.lo - min];
  }

  lemma SinglePart(field: string, c: char)
    requires c !in field
    ensures Split(field, c) == [field]
  {
  }

  lemma DigitsHold(s: string, c: char)
    requires AllDigits(s) && !IsDigit(c)
    ensures c !in s
  {
  }

  lemma StepOnOne(t: string, step: int)
    requires Atoi(t) == Some(step) && step > 0
    ensures PartDenotes("1/" + t, 0, 59, Selection(1, 1, step))
  {
    AtoiOfItoa(1);
    assert "1" == Itoa(1);
    hide Atoi, Itoa;
    assert RangeDenotes("1", 0, 59, 1, 1);
    assert Joined("1/" + t, "1", '/', t);
  }

  /** All indexing stays in bounds except for a giant step: on a minute field, "1/" followed by the
      largest 64-bit integer panics. */
  lemma GiantStepPanics()
    ensures FieldSpec("1/" + Itoa(MAX_INT64), 0, 59).Panicked?
  {
    var t := Itoa(MAX_INT64);
    var part := "1/" + t;
    var sel := Selection(1, 1, MAX_INT64);
    hide PartDenotes, FieldSpec, Itoa, Atoi, FoldParts, AllDigits, Split;
    AtoiOfItoa(MAX_INT64);
    StepOnOne(t, MAX_INT64);
    DigitsHold(t, ',');
    SinglePart(part, ',');
    assert OverflowingPart(part, 0, 59);
    hide OverflowingPart;
    FieldSpecExact(part, 0, 59);
    assert OverflowsFirst([part], 0, 59, 0);
  }

  method StepOf(part: string) returns (r: Option<(string, int)>)
    ensures r == CutStep(part)
  {
    var i := Index(part, '/');
    if i < 0 {
      return Some((part, 1));
    }
    var parsed := Atoi(part[i + 1..]);
    if parsed.None? || parsed.value <= 0 {
      return None;
    }
    return Some((part[..i], parsed.value));
  }

  /** Expands one field into a fresh bit slice, part by part. */
  method ParseField(field: string, min: int, max: int) returns (r: FieldResult)
    requires FieldBounds(min, max)
    ensures r == FieldSpec(field, min, max)
  {
    hide Split, Mark, ParseRange, CheckRange, CutStep, NonEmpty;
    var out := new bool[max - min + 1](_ => false);
    var parts := Split(field, ',');
    assert out[..] == NoBits(max - min + 1);
    for k := 0 to |parts|
      invariant FieldSpec(field, min, max) == FoldParts(parts[k..], min, max, out[..])
    {
      var part := parts[k];
      assert parts[k..][0] == part && parts[k..][1..] == parts[k + 1..];
      var cut := StepOf(part);
      if cut.None? {
        return Rejected;
      }
      var (rangePart, step) := cut.value;
      var outcome := SetRange(out, rangePart, min, max, step);
      if outcome == InvalidSpec {
        return Rejected;
      }
      if outcome == IndexPanic {
        return Panicked;
      }
    }
    FieldNonEmpty(field, min, max);
    for v := 0 to out.Length
      invariant forall u :: 0 <= u < v ==> !out[u]
    {
      if out[v] {
        return Bits(out[..]);
      }
    }
    assert false;
  }

  // ---- The whole expression ----

  datatype ParseResult = Parsed(schedule: Schedule) | Malformed | Crashed

  function ParseSpec(spec: string): ParseResult {
    var fields := Fields(spec);
    if |fields| != 5 then Malformed else
      match FieldSpec(fields[0], 0, 59)
      case Rejected => Malformed
      case Panicked => Crashed
      case Bits(minute) =>
        match FieldSpec(fields[1], 0, 23)
        case Rejected => Malformed
        case Panicked => Crashed
        case Bits(hour) =>
          match FieldSpec(fields[2], 1, 31)
          case Rejected => Malformed
          case Panicked => Crashed
          case Bits(dom) =>
            match FieldSpec(fields[3], 1, 12)
            case Rejected => Malformed
            case Panicked => Crashed
            case Bits(month) =>
              match FieldSpec(fields[4], 0, 6)
              case Rejected => Malformed
              case Panicked => Crashed
              case Bits(dow) =>
                Parsed(Schedule(minute, hour, dom, month, dow, fields[2] == "*", fields[4] == "*"))
  }

  lemma StarIsFull(min: int, max: int)
    requires FieldBounds(min, max)
    ensures var r := FieldSpec("*", min, max); r.Bits? && Full(r.bits)
  {
    var sel := Selection(min, max, 1);
    FieldSpecExact("*", min, max);
    assert Split("*", ',') == ["*"];
    assert RangeDenotes("*", min, max, min, max);
    assert PartDenotes("*", min, max, sel) && !Overflows(sel);
    assert GoodPart("*", min, max);
    var r := FieldSpec("*", min, max);
    forall i | 0 <= i < |r.bits| ensures r.bits[i] {
      OnGridByOnes(sel, min + i);
      assert SomePartSelects(Split("*", ','), min, max, min + i);
    }
  }

  lemma OnGridByOnes(sel: Selection, v: int)
    requires sel.step == 1 && sel.lo <= v <= sel.hi
    ensures Selects(sel, v)
    decreases v - sel.lo
  {
    OnGridIsRemainder(sel, v);
  }

  /** Every schedule Parse returns has full-length, non-empty fields, and a star field holds every value. */
  lemma ParsedIsParsable(spec: string)
    requires ParseSpec(spec).Parsed?
    ensures Parsable(ParseSpec(spec).schedule)
  {
    hide FieldSpec, Fields;
    var fields := Fields(spec);
    FieldNonEmpty(fields[0], 0, 59);
    FieldNonEmpty(fields[1], 0, 23);
    FieldNonEmpty(fields[2], 1, 31);
    FieldNonEmpty(fields[3], 1, 12);
    FieldNonEmpty(fields[4], 0, 6);
    StarIsFull(1, 31);
    StarIsFull(0, 6);
  }

  method Parse(spec: string) returns (r: ParseResult)
    ensures r == ParseSpec(spec)
  {
    var fields := Fields(spec);
    if |fields| != 5 {
      return Malformed;
    }
    var minute := ParseField(fields[0], 0, 59);
    if !minute.Bits? {
      return if minute.Panicked? then Crashed else Malformed;
    }
    var hour := ParseField(fields[1], 0, 23);
    if !hour.Bits? {
      return if hour.Panicked? then Crashed else Malformed;
    }
    var dom := ParseField(fields[2], 1, 31);
    if !dom.Bits? {
      return if dom.Panicked? then Crashed else Malformed;
    }
    var month := ParseField(fields[3], 1, 12);
    if !month.Bits? {
      return if month.Panicked? then Crashed else Malformed;
    }
    var dow := ParseField(fields[4], 0, 6);
    if !dow.Bits? {
      return if dow.Panicked? then Crashed else Malformed;
    }
    return Parsed(Schedule(minute.bits, hour.bits, dom.bits, month.bits, dow.bits, fields[2] == "*", fields[4] == "*"));
  }
}
