/** The proleptic Gregorian calendar that Go's time package computes with, on a clock
    that has a fixed whole-minute offset. A whole minute is an `int`: minute 0 is
    0001-01-01 00:00, which is also Go's zero time. */
module Calendar {

  const MINUTES_PER_DAY := 1440

  /** An instant: a whole minute plus the part of it that has elapsed, in nanoseconds. */
  newtype Nanos = n: int | 0 <= n < 60_000_000_000
  datatype Instant = Instant(minute: int, nanos: Nanos)

  const ZERO_TIME := Instant(0, 0)

  predicate Before(a: Instant, b: Instant) {
    a.minute < b.minute || (a.minute == b.minute && a.nanos < b.nanos)
  }

  predicate AtOrBefore(a: Instant, b: Instant) {
    !Before(b, a)
  }

  /** Instants are ordered by the nanoseconds since the zero time. */
  lemma BeforeExactly(a: Instant, b: Instant)
    ensures Before(a, b) <==> a.minute * 60_000_000_000 + a.nanos as int < b.minute * 60_000_000_000 + b.nanos as int
  {
  }

  // ---- Years, months, days ----

  predicate IsLeap(year: int) {
    year % 4 == 0 && (year % 100 != 0 || year % 400 == 0)
  }

  function DaysInYear(year: int): int {
    if IsLeap(year) then 366 else 365
  }

  predicate IsMonth(month: int) {
    1 <= month <= 12
  }

  function DaysIn(year: int, month: int): int
    requires IsMonth(month)
  {
    if month == 2 then (if IsLeap(year) then 29 else 28)
    else if month == 4 || month == 6 || month == 9 || month == 11 then 30
    else 31
  }

  /** Leap days up to and including year `q`. */
  function LeapDays(q: int): int {
    q / 4 - q / 100 + q / 400
  }

  function DaysBeforeYear(year: int): int {
    365 * (year - 1) + LeapDays(year - 1)
  }

  function DaysBeforeMonth(year: int, month: int): int
    requires IsMonth(month)
    decreases month
  {
    if month == 1 then 0 else DaysBeforeMonth(year, month - 1) + DaysIn(year, month - 1)
  }

  /** Days from 0001-01-01 to the given date. */
  function DayNumber(year: int, month: int, day: int): int
    requires IsMonth(month)
  {
    DaysBeforeYear(year) + DaysBeforeMonth(year, month) + day - 1
  }

  /** The year a day falls in, by cycles of 400, 100, 4 and 1 years as Go computes it. */
  function YearOfDay(n: int): int {
    var n400 := n / 146097;
    var r400 := n % 146097;
    var n100 := r400 / 36524 - r400 / 36524 / 4;
    var r100 := r400 - 36524 * n100;
    var n4 := r100 / 1461;
    var r4 := r100 % 1461;
    var n1 := r4 / 365 - r4 / 365 / 4;
    400 * n400 + 100 * n100 + 4 * n4 + n1 + 1
  }

  /** The month that holds the day `yday` days after the first of month `m`. */
  function MonthFrom(year: int, yday: int, m: int): (r: int)
    requires IsMonth(m)
    ensures m <= r <= 12
    decreases 12 - m
  {
    if yday < DaysIn(year, m) || m == 12 then m else MonthFrom(year, yday - DaysIn(year, m), m + 1)
  }

  function MonthOfDay(n: int): (r: int)
    ensures IsMonth(r)
  {
    MonthFrom(YearOfDay(n), n - DaysBeforeYear(YearOfDay(n)), 1)
  }

  function DayOfMonth(n: int): int {
    n - DaysBeforeYear(YearOfDay(n)) - DaysBeforeMonth(YearOfDay(n), MonthOfDay(n)) + 1
  }

  // ---- Fields of a whole minute ----

  function DayOf(t: int): int { t / MINUTES_PER_DAY }

  function Year(t: int): int { YearOfDay(DayOf(t)) }

  function Month(t: int): (r: int)
    ensures IsMonth(r)
  { MonthOfDay(DayOf(t)) }

  function Day(t: int): int { DayOfMonth(DayOf(t)) }

  function Hour(t: int): (r: int)
    ensures 0 <= r < 24
  { t % MINUTES_PER_DAY / 60 }

  function Minute(t: int): (r: int)
    ensures 0 <= r < 60
  { t % MINUTES_PER_DAY % 60 }

  /** 0 is Sunday; 0001-01-01 is a Monday. */
  function Weekday(t: int): (r: int)
    ensures 0 <= r < 7
  { (DayOf(t) + 1) % 7 }

  /** Go's time.Date for whole minutes: out-of-range months, days, hours and minutes carry over. */
  function Date(year: int, month: int, day: int, hour: int, minute: int): int {
    var y := year + (month - 1) / 12;
    var m := (month - 1) % 12 + 1;
    DayNumber(y, m, day) * MINUTES_PER_DAY + hour * 60 + minute
  }

  /** Go's Time.AddDate: add calendar years, months and days and normalise like time.Date. */
  function AddDate(t: int, years: int, months: int, days: int): int {
    Date(Year(t) + years, Month(t) + months, Day(t) + days, Hour(t), Minute(t))
  }

  // ---- The fields are exactly the inverse of Date ----

  lemma YearStep(year: int)
    ensures DaysBeforeYear(year + 1) == DaysBeforeYear(year) + DaysInYear(year)
  {
    LeapDayStep(year);
    assert year + 1 - 1 == year;
  }

  lemma LeapDayStep(q: int)
    ensures LeapDays(q) == LeapDays(q - 1) + (if IsLeap(q) then 1 else 0)
  {
    QuotientStep(q);
    MultiplesNest(q);
  }

  lemma MultiplesNest(q: int)
    ensures q % 400 == 0 ==> q % 100 == 0
    ensures q % 100 == 0 ==> q % 4 == 0
  {
  }

  lemma QuotientStep(q: int)
    ensures q / 4 == (q - 1) / 4 + (if q % 4 == 0 then 1 else 0)
    ensures q / 100 == (q - 1) / 100 + (if q % 100 == 0 then 1 else 0)
    ensures q / 400 == (q - 1) / 400 + (if q % 400 == 0 then 1 else 0)
  {
  }

  lemma {:induction false} YearsGrow(y1: int, y2: int)
    requires y1 < y2
    ensures DaysBeforeYear(y1) + DaysInYear(y1) <= DaysBeforeYear(y2)
    decreases y2 - y1
  {
    YearStep(y1);
    if y1 + 1 < y2 {
      YearsGrow(y1 + 1, y2);
    }
  }

  lemma CyclesOfYears(a: int, b: int, c: int, d: int)
    requires 0 <= b <= 3 && 0 <= c <= 24 && 0 <= d <= 3
    ensures DaysBeforeYear(400 * a + 100 * b + 4 * c + d + 1) == 146097 * a + 36524 * b + 1461 * c + 365 * d
  {
    var q := 400 * a + 100 * b + 4 * c + d;
    assert q / 4 == 100 * a + 25 * b + c;
    assert q / 100 == 4 * a + b;
    assert q / 400 == a;
  }

  /** Go's cut of the fifth quotient that only the last day of a cycle has. */
  lemma CutToThree(r: int, len: int, last: int) returns (q: int)
    requires len > 1 && 4 * len + 1 == last && 0 <= r < last
    ensures q == r / len - r / len / 4 && 0 <= q <= 3 && 0 <= r - len * q <= len
    ensures r - len * q == len ==> q == 3
  {
    var d := r / len;
    assert r == len * d + r % len;
    assert d <= 4;
    q := d - d / 4;
  }

  /** The cycle counts Go divides out, and the day left over within the year. */
  lemma CyclesOfDay(n: int) returns (a: int, b: int, c: int, d: int, rest: int)
    ensures n == 146097 * a + 36524 * b + 1461 * c + 365 * d + rest
    ensures 0 <= b <= 3 && 0 <= c <= 24 && 0 <= d <= 3 && 0 <= rest <= 365
    ensures rest == 365 ==> d == 3 && (c == 24 ==> b == 3)
    ensures YearOfDay(n) == 400 * a + 100 * b + 4 * c + d + 1
  {
    a := n / 146097;
    var r400 := n % 146097;
    b := CutToThree(r400, 36524, 146097);
    var r100 := r400 - 36524 * b;
    c := r100 / 1461;
    var r4 := r100 % 1461;
    d := CutToThree(r4, 365, 1461);
    rest := r4 - 365 * d;
    assert 0 <= c <= 24 && 0 <= r4 < 1461;
  }

  lemma MultipleOf4(k: int, r: int)
    requires 1 <= r <= 4
    ensures (4 * k + r) % 4 == 0 <==> r == 4
  {
  }

  lemma MultipleOf100(k: int, r: int)
    requires 1 <= r <= 100
    ensures (100 * k + r) % 100 == 0 <==> r == 100
  {
  }

  lemma MultipleOf400(k: int, r: int)
    requires 1 <= r <= 400
    ensures (400 * k + r) % 400 == 0 <==> r == 400
  {
  }

  lemma LeapByCycles(a: int, b: int, c: int, d: int)
    requires 0 <= b <= 3 && 0 <= c <= 24 && 0 <= d <= 3
    ensures IsLeap(400 * a + 100 * b + 4 * c + d + 1) <==> d == 3 && (c == 24 ==> b == 3)
  {
    var y := 400 * a + 100 * b + 4 * c + d + 1;
    MultipleOf4(100 * a + 25 * b + c, d + 1);
    MultipleOf100(4 * a + b, 4 * c + d + 1);
    MultipleOf400(a, 100 * b + 4 * c + d + 1);
    assert y == 4 * (100 * a + 25 * b + c) + (d + 1);
    assert y == 100 * (4 * a + b) + (4 * c + d + 1);
    assert y == 400 * a + (100 * b + 4 * c + d + 1);
  }

  lemma YearOfDayBrackets(n: int)
    ensures DaysBeforeYear(YearOfDay(n)) <= n < DaysBeforeYear(YearOfDay(n)) + DaysInYear(YearOfDay(n))
  {
    var a, b, c, d, rest := CyclesOfDay(n);
    CyclesOfYears(a, b, c, d);
    LeapByCycles(a, b, c, d);
  }

  lemma YearOfDayUnique(n: int, year: int)
    requires DaysBeforeYear(year) <= n < DaysBeforeYear(year) + DaysInYear(year)
    ensures YearOfDay(n) == year
  {
    YearOfDayBrackets(n);
    if YearOfDay(n) < year {
      YearsGrow(YearOfDay(n), year);
    } else if year < YearOfDay(n) {
      YearsGrow(year, YearOfDay(n));
    }
  }

  lemma MonthsFillYear(year: int)
    ensures DaysBeforeMonth(year, 12) + 31 == DaysInYear(year)
  {
    assert DaysBeforeMonth(year, 3) == 31 + DaysIn(year, 2);
    assert DaysBeforeMonth(year, 5) == DaysBeforeMonth(year, 3) + 61;
    assert DaysBeforeMonth(year, 7) == DaysBeforeMonth(year, 5) + 61;
    assert DaysBeforeMonth(year, 9) == DaysBeforeMonth(year, 7) + 62;
    assert DaysBeforeMonth(year, 11) == DaysBeforeMonth(year, 9) + 61;
  }

  lemma {:induction false} MonthsGrow(year: int, m1: int, m2: int)
    requires 1 <= m1 < m2 <= 12
    ensures DaysBeforeMonth(year, m1) + DaysIn(year, m1) <= DaysBeforeMonth(year, m2)
    decreases m2
  {
    if m1 + 1 < m2 {
      MonthsGrow(year, m1, m2 - 1);
    }
  }

  lemma DecemberDays(year: int)
    ensures DaysIn(year, 12) == 31
  {
  }

  lemma {:induction false} MonthFromBrackets(year: int, yday: int, m: int)
    requires IsMonth(m)
    requires 0 <= yday < DaysInYear(year) - DaysBeforeMonth(year, m)
    ensures var r := MonthFrom(year, yday, m);
      0 <= yday + DaysBeforeMonth(year, m) - DaysBeforeMonth(year, r) < DaysIn(year, r)
    decreases 12 - m
  {
    hide DaysIn, IsLeap, DaysInYear;
    MonthsFillYear(year);
    if m == 12 {
      assert DaysIn(year, 12) == 31 by { DecemberDays(year); }
    } else if yday >= DaysIn(year, m) {
      MonthFromBrackets(year, yday - DaysIn(year, m), m + 1);
    }
  }

  /** Every day number is the number of the date its fields name, and that date is valid. */
  lemma DayNumberOfFields(n: int)
    ensures 1 <= DayOfMonth(n) <= DaysIn(YearOfDay(n), MonthOfDay(n))
    ensures DayNumber(YearOfDay(n), MonthOfDay(n), DayOfMonth(n)) == n
  {
    hide DaysIn, IsLeap, DaysBeforeYear, YearOfDay, MonthFrom;
    YearOfDayBrackets(n);
    MonthFromBrackets(YearOfDay(n), n - DaysBeforeYear(YearOfDay(n)), 1);
  }

  /** A valid date is recovered from its day number, so the calendar is a bijection. */
  lemma FieldsOfDayNumber(year: int, month: int, day: int)
    requires IsMonth(month) && 1 <= day <= DaysIn(year, month)
    ensures var n := DayNumber(year, month, day);
      YearOfDay(n) == year && MonthOfDay(n) == month && DayOfMonth(n) == day
  {
    var n := DayNumber(year, month, day);
    MonthsFillYear(year);
    if month < 12 {
      MonthsGrow(year, month, 12);
    }
    MonthStartNonNegative(year, month);
    YearOfDayUnique(n, year);
    DayNumberOfFields(n);
    var r := MonthOfDay(n);
    if r < month {
      MonthsGrow(year, r, month);
    } else if month < r {
      MonthsGrow(year, month, r);
    }
  }

  lemma MonthStartNonNegative(year: int, month: int)
    requires IsMonth(month)
    ensures 0 <= DaysBeforeMonth(year, month)
  {
    if month > 1 {
      MonthsGrow(year, 1, month);
    }
  }

  predicate ValidFields(year: int, month: int, day: int, hour: int, minute: int) {
    IsMonth(month) && 1 <= day <= DaysIn(year, month) && 0 <= hour < 24 && 0 <= minute < 60
  }

  lemma DateOfFields(t: int)
    ensures ValidFields(Year(t), Month(t), Day(t), Hour(t), Minute(t))
    ensures Date(Year(t), Month(t), Day(t), Hour(t), Minute(t)) == t
  {
    DayNumberOfFields(DayOf(t));
    assert (Month(t) - 1) / 12 == 0 && (Month(t) - 1) % 12 == Month(t) - 1;
  }

  lemma FieldsOfDate(year: int, month: int, day: int, hour: int, minute: int)
    requires ValidFields(year, month, day, hour, minute)
    ensures var t := Date(year, month, day, hour, minute);
      Year(t) == year && Month(t) == month && Day(t) == day && Hour(t) == hour && Minute(t) == minute
  {
    var t := Date(year, month, day, hour, minute);
    assert (month - 1) / 12 == 0 && (month - 1) % 12 == month - 1;
    assert t == DayNumber(year, month, day) * MINUTES_PER_DAY + (hour * 60 + minute);
    assert 0 <= hour * 60 + minute < MINUTES_PER_DAY;
    assert DayOf(t) == DayNumber(year, month, day);
    FieldsOfDayNumber(year, month, day);
  }

  /** Anchors outside the calendar's own definition: the Unix epoch was a Thursday. */
  lemma UnixEpoch()
    ensures Date(1970, 1, 1, 0, 0) == 719162 * MINUTES_PER_DAY
    ensures Weekday(Date(1970, 1, 1, 0, 0)) == 4
  {
    assert Date(1970, 1, 1, 0, 0) == DayNumber(1970, 1, 1) * 1440;
  }

  /** The zero time is the first minute of the year 1. */
  lemma ZeroTimeIs()
    ensures ZERO_TIME == Instant(Date(1, 1, 1, 0, 0), 0)
  {
  }

  // ---- Calendar units as intervals of minutes ----

  /** The first minute after the month of `t`. */
  function NextMonthStart(t: int): int {
    Date(Year(t), Month(t) + 1, 1, 0, 0)
  }

  /** The first minute of the day after `t`. */
  function NextDayStart(t: int): int {
    Date(Year(t), Month(t), Day(t) + 1, 0, 0)
  }

  lemma NextDayStartIs(t: int)
    ensures NextDayStart(t) == (DayOf(t) + 1) * MINUTES_PER_DAY
  {
    hide DaysIn, DaysBeforeMonth, DaysBeforeYear, MonthOfDay, YearOfDay, DayOfMonth;
    DateOfFields(t);
    DayNumberOfFields(DayOf(t));
  }

  lemma NextMonthStartIs(t: int)
    ensures NextMonthStart(t) ==
      (DayNumber(Year(t), Month(t), 1) + DaysIn(Year(t), Month(t))) * MINUTES_PER_DAY
  {
    MonthsFillYear(Year(t));
    YearStep(Year(t));
    if Month(t) == 12 {
      assert (Month(t) + 1 - 1) / 12 == 1 && (Month(t) + 1 - 1) % 12 == 0;
    } else {
      assert (Month(t) + 1 - 1) / 12 == 0 && (Month(t) + 1 - 1) % 12 == Month(t);
    }
  }

  /** Jumping to the next month moves forward and stays in this month until it lands. */
  lemma MonthInterval(t: int, u: int)
    requires t <= u < NextMonthStart(t)
    ensures Month(u) == Month(t)
  {
    hide DaysIn, DaysBeforeMonth, DaysBeforeYear, MonthOfDay, YearOfDay, DayOfMonth, NextMonthStart;
    NextMonthStartIs(t);
    DayNumberOfFields(DayOf(t));
    var first := DayNumber(Year(t), Month(t), 1);
    assert first <= DayOf(t) <= DayOf(u) < first + DaysIn(Year(t), Month(t));
    FieldsOfDayNumber(Year(t), Month(t), DayOf(u) - first + 1);
  }

  lemma MonthAdvances(t: int)
    ensures t < NextMonthStart(t)
  {
    NextMonthStartIs(t);
    DayNumberOfFields(DayOf(t));
    assert DayOf(t) + 1 <= DayNumber(Year(t), Month(t), 1) + DaysIn(Year(t), Month(t));
  }

  lemma DayInterval(t: int, u: int)
    requires t <= u < NextDayStart(t)
    ensures DayOf(u) == DayOf(t)
  {
    NextDayStartIs(t);
  }

  // ---- The calendar in closed form ----

  /** The first of each month, without adding up the months before it. */
  lemma MonthStartClosed(year: int, month: int)
    requires IsMonth(month)
    ensures DaysBeforeMonth(year, month) ==
            if month <= 2 then 31 * (month - 1) else 59 + (153 * month - 457) / 5 + if IsLeap(year) then 1 else 0
  {
    if month > 1 {
      MonthStartClosed(year, month - 1);
    }
  }

  /** Weekdays follow each other in a cycle of seven, and one weekday lasts a whole day. */
  lemma WeekdayCycle(t: int)
    ensures Weekday(t + MINUTES_PER_DAY) == if Weekday(t) == 6 then 0 else Weekday(t) + 1
    ensures forall u :: DayOf(u) == DayOf(t) ==> Weekday(u) == Weekday(t)
  {
    assert DayOf(t + MINUTES_PER_DAY) == DayOf(t) + 1;
    hide DayOf;
  }

  /** Five calendar years on, date and time of day are the same, except that the 29th of February becomes the 1st of
      March. */
  lemma FiveYearsOn(t: int)
    ensures var u := AddDate(t, 5, 0, 0);
            && Year(u) == Year(t) + 5 && Hour(u) == Hour(t) && Minute(u) == Minute(t)
            && (if Month(t) == 2 && Day(t) == 29 then Month(u) == 3 && Day(u) == 1
                else Month(u) == Month(t) && Day(u) == Day(t))
  {
    hide YearOfDay, MonthOfDay, DayOfMonth, DayNumber, DaysBeforeYear, DaysBeforeMonth;
    DayNumberOfFields(DayOf(t));
    var y, m, d := Year(t) + 5, Month(t), Day(t);
    if m == 2 && d == 29 {
      LeapDayCarries(y);
      FieldsOfDate(y, 3, 1, Hour(t), Minute(t));
    } else {
      FieldsOfDate(y, m, d, Hour(t), Minute(t));
    }
  }

  lemma LeapDayCarries(year: int)
    requires IsLeap(year - 5)
    ensures !IsLeap(year) && DayNumber(year, 2, 29) == DayNumber(year, 3, 1)
  {
    hide DaysBeforeYear;
  }
}
