/** What a cron expression means: which texts parse, and at which minutes a parsed one matches, stated on its words. */
module CronMeaning {
  import opened Strings
  import opened Calendar
  import opened CronExpr
  import opened CronNext

  /** The least and the largest value of each place: minute, hour, day of month, month, weekday. */
  function Lo(k: nat): int {
    if k == 2 || k == 3 then 1 else 0
  }

  function Hi(k: nat): (hi: int)
    requires k < 5
    ensures FieldBounds(Lo(k), hi)
  {
    if k == 0 then 59 else if k == 1 then 23 else if k == 2 then 31 else if k == 3 then 12 else 6
  }

  /** Every comma-separated part of the word is well formed, in range and free of overflow. */
  ghost predicate GoodWord(word: string, k: nat)
    requires k < 5
  {
    AllGood(Split(word, ','), Lo(k), Hi(k))
  }

  /** A part overflows after parts that are good. */
  ghost predicate OverflowingWord(word: string, k: nat)
    requires k < 5
  {
    exists i :: OverflowsFirst(Split(word, ','), Lo(k), Hi(k), i)
  }

  /** Some part of the word selects the value. */
  ghost predicate WordSelects(word: string, k: nat, v: int)
    requires k < 5
  {
    SomePartSelects(Split(word, ','), Lo(k), Hi(k), v)
  }

  /** The field that a word of the k-th place is read as. */
  function Place(word: string, k: nat): FieldResult
    requires k < 5
  {
    FieldSpec(word, Lo(k), Hi(k))
  }

  lemma PlaceExactly(word: string, k: nat)
    requires k < 5
    ensures var r := Place(word, k);
            && (r.Bits? <==> GoodWord(word, k)) && (r.Panicked? <==> OverflowingWord(word, k))
            && (r.Bits? ==>
                  && |r.bits| == Hi(k) - Lo(k) + 1
                  && forall i :: 0 <= i < |r.bits| ==> (r.bits[i] <==> WordSelects(word, k, Lo(k) + i)))
  {
    hide FieldSpec, AllGood, OverflowsFirst, SomePartSelects;
    FieldSpecExact(word, Lo(k), Hi(k));
  }

  /** The five places are read in order and the first that is not bits decides. */
  lemma ParseByPlaces(spec: string, words: seq<string>)
    requires Fields(spec) == words
    ensures |words| != 5 ==> ParseSpec(spec) == Malformed
    ensures |words| == 5 ==>
              var m, h, d, mo, w :=
                Place(words[0], 0), Place(words[1], 1), Place(words[2], 2), Place(words[3], 3), Place(words[4], 4);
              ParseSpec(spec) ==
                if m.Bits? && h.Bits? && d.Bits? && mo.Bits? && w.Bits?
                then Parsed(Schedule(m.bits, h.bits, d.bits, mo.bits, w.bits, words[2] == "*", words[4] == "*"))
                else if m.Panicked? || (m.Bits? && (h.Panicked? || (h.Bits? && (d.Panicked? || (d.Bits? && (
                          mo.Panicked? || (mo.Bits? && w.Panicked?)))))))
                then Crashed else Malformed
  {
    hide Fields, FieldSpec;
  }

  ghost predicate FirstBadOverflows(words: seq<string>)
    requires |words| == 5
  {
    exists k :: 0 <= k < 5 && OverflowingWord(words[k], k) && forall j :: 0 <= j < k ==> GoodWord(words[j], j)
  }

  lemma FirstBad(words: seq<string>)
    requires |words| == 5
    ensures FirstBadOverflows(words) <==>
              || OverflowingWord(words[0], 0)
              || (GoodWord(words[0], 0) && OverflowingWord(words[1], 1))
              || (GoodWord(words[0], 0) && GoodWord(words[1], 1) && OverflowingWord(words[2], 2))
              || (GoodWord(words[0], 0) && GoodWord(words[1], 1) && GoodWord(words[2], 2)
                  && OverflowingWord(words[3], 3))
              || (GoodWord(words[0], 0) && GoodWord(words[1], 1) && GoodWord(words[2], 2) && GoodWord(words[3], 3)
                  && OverflowingWord(words[4], 4))
  {
    hide GoodWord, OverflowingWord;
  }

  lemma WordsDecide(spec: string, words: seq<string>)
    requires Fields(spec) == words
    ensures ParseSpec(spec).Parsed? <==> |words| == 5 && forall k :: 0 <= k < 5 ==> GoodWord(words[k], k)
    ensures ParseSpec(spec).Crashed? <==> |words| == 5 && FirstBadOverflows(words)
  {
    hide Fields, Place, GoodWord, OverflowingWord, ParseSpec, FirstBadOverflows;
    ParseByPlaces(spec, words);
    if |words| == 5 {
      PlaceExactly(words[0], 0);
      PlaceExactly(words[1], 1);
      PlaceExactly(words[2], 2);
      PlaceExactly(words[3], 3);
      PlaceExactly(words[4], 4);
      FirstBad(words);
    }
  }

  /** An expression parses exactly when it has five words, each good in its own place, and crashes the parser exactly
      when the first bad one overflows; the space around the words does not matter. */
  lemma ParsesExactly(gaps: seq<string>, words: seq<string>)
    requires Layout(gaps, words)
    ensures var r := ParseSpec(Laid(gaps, words));
            && (r.Parsed? <==> |words| == 5 && forall k :: 0 <= k < 5 ==> GoodWord(words[k], k))
            && (r.Crashed? <==> |words| == 5 && FirstBadOverflows(words))
  {
    hide GoodWord, ParseSpec, FirstBadOverflows, Laid, Fields, Spaces, IsWord;
    FieldsOfLayout(gaps, words);
    WordsDecide(Laid(gaps, words), words);
  }

  /** The schedule holds exactly the values the words select, and knows which day words are a lone star. */
  ghost predicate HoldsWords(s: Schedule, words: seq<string>) {
    && |words| == 5 && Sized(s)
    && (s.domStar <==> words[2] == "*") && (s.dowStar <==> words[4] == "*")
    && (forall i :: 0 <= i < 60 ==> (s.minute[i] <==> WordSelects(words[0], 0, i)))
    && (forall i :: 0 <= i < 24 ==> (s.hour[i] <==> WordSelects(words[1], 1, i)))
    && (forall i :: 0 <= i < 31 ==> (s.dom[i] <==> WordSelects(words[2], 2, 1 + i)))
    && (forall i :: 0 <= i < 12 ==> (s.month[i] <==> WordSelects(words[3], 3, 1 + i)))
    && (forall i :: 0 <= i < 7 ==> (s.dow[i] <==> WordSelects(words[4], 4, i)))
  }

  lemma ScheduleHoldsWords(spec: string, words: seq<string>, s: Schedule)
    requires Fields(spec) == words && ParseSpec(spec) == Parsed(s)
    ensures HoldsWords(s, words)
  {
    hide Fields, Place, WordSelects, ParseSpec, GoodWord, OverflowingWord;
    ParseByPlaces(spec, words);
    PlaceExactly(words[0], 0);
    PlaceExactly(words[1], 1);
    PlaceExactly(words[2], 2);
    PlaceExactly(words[3], 3);
    PlaceExactly(words[4], 4);
  }

  lemma MatchesWords(words: seq<string>, s: Schedule, t: int)
    requires HoldsWords(s, words) && Parsable(s)
    ensures |words| == 5 && Sized(s)
    ensures var day, weekday := WordSelects(words[2], 2, Day(t)), WordSelects(words[4], 4, Weekday(t));
            Matches(s, t) <==>
              && WordSelects(words[0], 0, Minute(t)) && WordSelects(words[1], 1, Hour(t))
              && WordSelects(words[3], 3, Month(t))
              && (if words[2] == "*" || words[4] == "*" then day && weekday else day || weekday)
  {
    DayNumberOfFields(DayOf(t));
    hide WordSelects, YearOfDay, MonthOfDay, DayOfMonth, NonEmpty;
    assert s.dom[Day(t) - 1] <==> WordSelects(words[2], 2, Day(t));
    assert s.month[Month(t) - 1] <==> WordSelects(words[3], 3, Month(t));
  }

  /** The parsed schedule matches a minute exactly when the words say so: minute, hour and month are selected, and the
      day is selected by both day words when one of them is "*", otherwise by at least one. */
  lemma MatchesExactly(gaps: seq<string>, words: seq<string>, s: Schedule, t: int)
    requires Layout(gaps, words) && ParseSpec(Laid(gaps, words)) == Parsed(s)
    ensures |words| == 5 && Sized(s)
    ensures var day, weekday := WordSelects(words[2], 2, Day(t)), WordSelects(words[4], 4, Weekday(t));
            Matches(s, t) <==>
              && WordSelects(words[0], 0, Minute(t)) && WordSelects(words[1], 1, Hour(t))
              && WordSelects(words[3], 3, Month(t))
              && (if words[2] == "*" || words[4] == "*" then day && weekday else day || weekday)
  {
    hide Spaces, IsWord, Laid, ParseSpec, WordSelects, HoldsWords, Parsable, Matches, Fields;
    FieldsOfLayout(gaps, words);
    ScheduleHoldsWords(Laid(gaps, words), words, s);
    ParsedIsParsable(Laid(gaps, words));
    MatchesWords(words, s, t);
  }
}
