/** Which schedules always find a next fire time within the five-year horizon. */
module CronHorizon {
  import opened Strings
  import opened Calendar
  import opened CronExpr
  import opened CronNext

  const COMMON_YEAR := 2097

  /** Day `d` is one of the chosen days of the month, and month `month` has it even in a common year. */
  predicate NamesDay(s: Schedule, month: int, d: int)
    requires Sized(s) && IsMonth(month)
  {
    1 <= d <= DaysIn(COMMON_YEAR, month) && s.dom[d - 1]
  }

  ghost predicate DomPossible(s: Schedule, month: int)
    requires Sized(s) && IsMonth(month)
  {
    exists d :: NamesDay(s, month, d)
  }

  predicate MonthOn(s: Schedule, month: int)
    requires Sized(s)
  {
    IsMonth(month) && s.month[month - 1]
  }

  /** In month `month` of every year, leap or not, some day satisfies the day rule. */
  ghost predicate DayPossible(s: Schedule, month: int)
    requires Sized(s) && IsMonth(month)
  {
    var domOK := DomPossible(s, month);
    var dowOK := NonEmpty(s.dow);
    if s.domStar && s.dowStar then true
    else if s.domStar then dowOK
    else if s.dowStar then domOK
    else domOK || dowOK
  }

  ghost predicate FiresEveryYear(s: Schedule)
    requires Sized(s)
  {
    NonEmpty(s.minute) && NonEmpty(s.hour) && exists m :: MonthOn(s, m) && DayPossible(s, m)
  }

  lemma EarlierYear(t: int, u: int)
    requires Year(t) < Year(u)
    ensures t < u
  {
    YearOfDayBrackets(DayOf(t));
    YearOfDayBrackets(DayOf(u));
    YearsGrow(Year(t), Year(u));
    assert DayOf(t) < DayOf(u);
  }

  /** Day numbers of a month are consecutive. */
  lemma DaysConsecutive(year: int, month: int, d: int)
    requires IsMonth(month)
    ensures DayNumber(year, month, d) == DayNumber(year, month, 1) + d - 1
  {
  }

  /** Some day from the 1st to the 7th of any month falls on weekday `w`. */
  lemma WeekdayInFirstWeek(year: int, month: int, w: int) returns (d: int)
    requires IsMonth(month) && 0 <= w < 7
    ensures 1 <= d <= 7 && (DayNumber(year, month, d) + 1) % 7 == w
  {
    hide DayNumber;
    var n := DayNumber(year, month, 1) + 1;
    d := 1 + (w - n) % 7;
    DaysConsecutive(year, month, d);
  }

  lemma CommonYearIsShort(year: int, month: int)
    requires IsMonth(month)
    ensures 28 <= DaysIn(COMMON_YEAR, month) <= DaysIn(year, month)
  {
    assert !IsLeap(COMMON_YEAR);
  }

  /** A day of the given month on which the day rule holds, whatever the year. */
  lemma MatchingDay(s: Schedule, year: int, month: int) returns (d: int)
    requires Sized(s) && IsMonth(month) && DayPossible(s, month)
    ensures 1 <= d <= DaysIn(year, month)
    ensures (s.domStar && s.dowStar) || (!s.domStar && s.dom[d - 1])
      || (!s.dowStar && s.dow[(DayNumber(year, month, d) + 1) % 7])
  {
    d := 1;
    if s.domStar && s.dowStar {
    } else if !s.domStar && DomPossible(s, month) {
      d :| NamesDay(s, month, d);
      CommonYearIsShort(year, month);
    } else {
      var w :| 0 <= w < |s.dow| && s.dow[w];
      d := WeekdayInFirstWeek(year, month, w);
      CommonYearIsShort(year, month);
    }
  }

  lemma DayMatchesDate(s: Schedule, year: int, month: int, d: int, h: int, mi: int)
    requires Sized(s) && ValidFields(year, month, d, h, mi)
    requires (s.domStar && s.dowStar) || (!s.domStar && s.dom[d - 1])
      || (!s.dowStar && s.dow[(DayNumber(year, month, d) + 1) % 7])
    ensures DayMatches(s, Date(year, month, d, h, mi))
  {
    hide YearOfDay, MonthOfDay, DayOfMonth, DayNumber;
    FieldsOfDate(year, month, d, h, mi);
    DayOfDate(year, month, d, h, mi);
  }

  lemma DayOfDate(year: int, month: int, d: int, h: int, mi: int)
    requires ValidFields(year, month, d, h, mi)
    ensures DayOf(Date(year, month, d, h, mi)) == DayNumber(year, month, d)
  {
    hide DayNumber;
    assert (month - 1) / 12 == 0 && (month - 1) % 12 == month - 1;
  }

  lemma HorizonYear(after: Instant, t: int)
    requires Year(t) == Year(after.minute) + 1
    ensures after.minute < t && Before(Instant(t, 0), Horizon(after))
  {
    EarlierYear(after.minute, t);
    var y := Year(after.minute);
    YearOfDayBrackets(DayOf(t));
    YearsGrow(y + 1, y + 5);
    HorizonAfterYearStart(after);
    assert DayOf(t) < DaysBeforeYear(y + 5);
  }

  lemma HorizonAfterYearStart(after: Instant)
    ensures DaysBeforeYear(Year(after.minute) + 5) * MINUTES_PER_DAY <= Horizon(after).minute
  {
    hide YearOfDay, MonthOfDay, DayOfMonth, DaysBeforeYear, DaysBeforeMonth;
    var t := after.minute;
    DateOfFields(t);
    MonthStartNonNegative(Year(t) + 5, Month(t));
    assert (Month(t) - 1) / 12 == 0 && (Month(t) - 1) % 12 == Month(t) - 1;
    assert DayNumber(Year(t) + 5, Month(t), Day(t)) >= DaysBeforeYear(Year(t) + 5);
  }

  /** A schedule that can fire in a common year always has a next fire time. */
  lemma AlwaysFound(s: Schedule, after: Instant)
    requires Sized(s) && FiresEveryYear(s)
    ensures NextMatch(s, after).Some?
  {
    hide Matches, Horizon, Scan, Year, Month, Day, DayMatches, Hour, Minute, DayNumber;
    var y := Year(after.minute) + 1;
    var m :| MonthOn(s, m) && DayPossible(s, m);
    var h :| 0 <= h < |s.hour| && s.hour[h];
    var mi :| 0 <= mi < |s.minute| && s.minute[mi];
    var d := MatchingDay(s, y, m);
    var t := Date(y, m, d, h, mi);
    DateMatches(s, y, m, d, h, mi);
    HorizonYear(after, t);
    NextMatchIsLeast(s, after);
  }

  lemma DateMatches(s: Schedule, y: int, m: int, d: int, h: int, mi: int)
    requires Sized(s) && ValidFields(y, m, d, h, mi) && s.month[m - 1] && s.hour[h] && s.minute[mi]
    requires (s.domStar && s.dowStar) || (!s.domStar && s.dom[d - 1])
      || (!s.dowStar && s.dow[(DayNumber(y, m, d) + 1) % 7])
    ensures Matches(s, Date(y, m, d, h, mi)) && Year(Date(y, m, d, h, mi)) == y
  {
    hide DayNumber, DayMatches, Year, Month, Day, Hour, Minute;
    FieldsOfDate(y, m, d, h, mi);
    DayMatchesDate(s, y, m, d, h, mi);
  }

  /** The years 2097 to 2101 are all common years (2100 is not a leap year). */
  lemma CommonYears(t: int)
    requires Date(2097, 1, 1, 0, 0) <= t < Date(2102, 1, 1, 0, 0)
    ensures DaysIn(Year(t), Month(t)) == DaysIn(COMMON_YEAR, Month(t))
  {
    hide YearOfDay, MonthOfDay, Date;
    StartOfYear(2097);
    StartOfYear(2102);
    YearOfDayBrackets(DayOf(t));
    if Year(t) < 2097 {
      YearsGrow(Year(t), 2097);
    } else if 2102 <= Year(t) {
      YearIsNot2102(t);
    }
  }

  lemma StartOfYear(year: int)
    ensures Date(year, 1, 1, 0, 0) == DaysBeforeYear(year) * MINUTES_PER_DAY
  {
    hide DaysBeforeYear;
  }

  lemma YearIsNot2102(t: int)
    requires t < DaysBeforeYear(2102) * MINUTES_PER_DAY
    ensures Year(t) < 2102
  {
    hide YearOfDay;
    YearOfDayBrackets(DayOf(t));
    if 2102 < Year(t) {
      YearsGrow(2102, Year(t));
    }
  }

  lemma MatchMeansFiresEveryYear(s: Schedule, t: int)
    requires Sized(s) && Matches(s, t) && DaysIn(Year(t), Month(t)) == DaysIn(COMMON_YEAR, Month(t))
    ensures FiresEveryYear(s)
  {
    hide YearOfDay, MonthOfDay, DayOfMonth, DayNumber;
    DayNumberOfFields(DayOf(t));
    assert s.hour[Hour(t)] && s.minute[Minute(t)];
    assert MonthOn(s, Month(t));
    assert !s.domStar && s.dom[Day(t) - 1] ==> NamesDay(s, Month(t), Day(t));
    assert DayPossible(s, Month(t));
  }

  /** From the first minute of 2097 a schedule that cannot fire in a common year finds nothing. */
  lemma MissedFrom2097(s: Schedule)
    requires Sized(s) && !FiresEveryYear(s)
    ensures NextMatch(s, Instant(Date(2097, 1, 1, 0, 0), 0)) == None
  {
    hide Matches, Horizon, Scan, Year, Month, Day, DaysIn, FiresEveryYear;
    var after := Instant(Date(2097, 1, 1, 0, 0), 0);
    HorizonOf2097();
    NextMatchIsLeast(s, after);
    forall u | after.minute < u && Before(Instant(u, 0), Horizon(after)) ensures !Matches(s, u) {
      CommonYears(u);
      if Matches(s, u) {
        MatchMeansFiresEveryYear(s, u);
      }
    }
  }

  lemma HorizonOf2097()
    ensures Horizon(Instant(Date(2097, 1, 1, 0, 0), 0)) == Instant(Date(2102, 1, 1, 0, 0), 0)
  {
    hide Year, Month, Day, Hour, Minute;
    FieldsOfDate(2097, 1, 1, 0, 0);
  }

  /** Next returns a real time from every instant exactly when the schedule can fire in a common year. */
  lemma NeverZeroExactly(s: Schedule)
    requires Sized(s)
    ensures (forall after :: NextMatch(s, after).Some?) <==> FiresEveryYear(s)
  {
    if FiresEveryYear(s) {
      forall after ensures NextMatch(s, after).Some? {
        AlwaysFound(s, after);
      }
    } else {
      MissedFrom2097(s);
    }
  }

  /** For a parsed schedule the only exceptions name days of the month, none of which the chosen
      months have in a common year (such as "0 0 29 2 *" or "0 0 31 4 *"), with a star weekday. */
  lemma ParsedNeverZero(s: Schedule)
    requires Parsable(s)
    ensures (forall after :: NextMatch(s, after).Some?) <==>
      s.domStar || !s.dowStar
      || exists m, d :: MonthOn(s, m) && NamesDay(s, m, d)
  {
    hide NextMatch;
    NeverZeroExactly(s);
    var i :| 0 <= i < |s.month| && s.month[i];
    assert MonthOn(s, i + 1);
    if !s.domStar && s.dowStar {
      if m, d :| MonthOn(s, m) && NamesDay(s, m, d) {
        assert DayPossible(s, m);
      }
    } else {
      assert DayPossible(s, i + 1);
    }
  }

  // ==== A parsed schedule that is missed ====

  /** A field that is one printed number holds just that value. */
  lemma SingleValue(n: nat, min: int, max: int)
    requires FieldBounds(min, max) && min <= n <= max
    ensures var r := FieldSpec(Itoa(n), min, max);
            r.Bits? && |r.bits| == max - min + 1 && forall i :: 0 <= i < |r.bits| ==> (r.bits[i] <==> min + i == n)
  {
    var t := Itoa(n);
    var sel := Selection(n, n, 1);
    AtoiOfItoa(n);
    DigitsHold(t, ',');
    DigitsHold(t, '/');
    DigitsHold(t, '-');
    assert IsDigit(t[0]);
    SinglePart(t, ',');
    FieldSpecExact(t, min, max);
    hide Itoa, Atoi, AllDigits, Split, FieldSpec;
    assert RangeDenotes(t, min, max, n, n);
    assert PartDenotes(t, min, max, sel);
    PartOutcomeExact(t, min, max);
    hide PartDenotes, ParsePart;
    assert GoodPart(t, min, max) && AllGood([t], min, max);
    forall v ensures SomePartSelects([t], min, max, v) <==> v == n {
      assert v == n ==> [t][0] == t && Selects(sel, v);
    }
  }

  lemma LeapDayLaid(gaps: seq<string>, words: seq<string>)
    requires words == ["0", "0", "29", "2", "*"] && gaps == ["", " ", " ", " ", " ", ""]
    ensures Laid(gaps, words) == "0 0 29 2 *"
  {
    assert gaps[5..] == [""] && words[5..] == [];
    assert Laid([""], []) == "";
    assert Laid([" ", ""], ["*"]) == " *";
    assert gaps[3..] == [" ", " ", ""] && words[3..] == ["2", "*"];
    assert Laid(gaps[3..], words[3..]) == " 2 *";
    assert Laid(gaps[2..], words[2..]) == " 29 2 *";
    assert Laid(gaps[1..], words[1..]) == " 0 29 2 *";
  }

  lemma LeapDayFields()
    ensures Fields("0 0 29 2 *") == ["0", "0", "29", "2", "*"]
  {
    var words, gaps := ["0", "0", "29", "2", "*"], ["", " ", " ", " ", " ", ""];
    LeapDayLaid(gaps, words);
    hide Laid, Fields;
    FieldsOfLayout(gaps, words);
  }

  /** On the 29th of February, whatever the weekday. */
  predicate LeapDayOnly(s: Schedule) {
    && Sized(s) && !s.domStar && s.dowStar
    && (forall i :: 0 <= i < 12 ==> (s.month[i] <==> 1 + i == 2))
    && (forall i :: 0 <= i < 31 ==> (s.dom[i] <==> 1 + i == 29))
  }

  lemma LeapDayParses()
    ensures var r := ParseSpec("0 0 29 2 *"); r.Parsed? && LeapDayOnly(r.schedule)
  {
    LeapDayFields();
    Printed();
    hide Fields, Itoa, FieldSpec, Full;
    SingleValue(0, 0, 59);
    SingleValue(0, 0, 23);
    SingleValue(29, 1, 31);
    SingleValue(2, 1, 12);
    StarIsFull(0, 6);
    StarHasSize(0, 6);
  }

  lemma Printed()
    ensures Itoa(0) == "0" && Itoa(2) == "2" && Itoa(29) == "29"
  {
  }

  lemma StarHasSize(min: int, max: int)
    requires FieldBounds(min, max) && FieldSpec("*", min, max).Bits?
    ensures |FieldSpec("*", min, max).bits| == max - min + 1
  {
    FieldNonEmpty("*", min, max);
  }

  lemma LeapDayNeverInCommonYears(s: Schedule)
    requires LeapDayOnly(s)
    ensures !FiresEveryYear(s)
  {
    assert DaysIn(COMMON_YEAR, 2) == 28;
    forall m | MonthOn(s, m) ensures m == 2 && !DayPossible(s, m) {
      assert s.month[m - 1];
      assert forall d :: !NamesDay(s, m, d);
    }
  }

  /** "0 0 29 2 *" parses, and from the first minute of 2097 it has no next time. */
  lemma LeapDayMissed()
    ensures var r := ParseSpec("0 0 29 2 *");
            && r.Parsed? && Parsable(r.schedule)
            && NextMatch(r.schedule, Instant(Date(2097, 1, 1, 0, 0), 0)) == None
  {
    hide ParseSpec, Parsable, FiresEveryYear, NextMatch, Date;
    LeapDayParses();
    ParsedIsParsable("0 0 29 2 *");
    var s := ParseSpec("0 0 29 2 *").schedule;
    ParsableIsSized(s);
    LeapDayNeverInCommonYears(s);
    MissedFrom2097(s);
  }

  lemma ParsableIsSized(s: Schedule)
    requires Parsable(s)
    ensures Sized(s)
  {
    hide NonEmpty, Full;
  }
}
