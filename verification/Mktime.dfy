/** kernel_mktime of kernel/mktime.c, and the calendars it is compared with. */
module Mktime {
  function Minutes(n: int): int { 60 * n }

  function Hours(n: int): int { 3600 * n }

  function Days(n: int): int { 86400 * n }

  /** Years of 365 days. */
  function Years(n: int): int { 31536000 * n }

  /** The fields of struct tm that are read; year counts from 1900 and mon from 0. */
  datatype Tm = Tm(sec: int, min: int, hour: int, mday: int, mon: int, year: int)

  /** Seconds before each month of a leap year. */
  const MONTH: seq<int> := [
    0,
    Days(31),
    Days(31 + 29),
    Days(31 + 29 + 31),
    Days(31 + 29 + 31 + 30),
    Days(31 + 29 + 31 + 30 + 31),
    Days(31 + 29 + 31 + 30 + 31 + 30),
    Days(31 + 29 + 31 + 30 + 31 + 30 + 31),
    Days(31 + 29 + 31 + 30 + 31 + 30 + 31 + 31),
    Days(31 + 29 + 31 + 30 + 31 + 30 + 31 + 31 + 30),
    Days(31 + 29 + 31 + 30 + 31 + 30 + 31 + 31 + 30 + 31),
    Days(31 + 29 + 31 + 30 + 31 + 30 + 31 + 31 + 30 + 31 + 30)
  ]

  /** C's quotient and remainder, which round toward zero. */
  function Quotient(a: int, b: int): int
    requires b > 0
  {
    if a >= 0 then a / b else -(-a / b)
  }

  function Remainder(a: int, b: int): int
    requires b > 0
  {
    a - b * Quotient(a, b)
  }

  function KernelMktime(tm: Tm): int
    requires 0 <= tm.mon < 12
  {
    var year := tm.year - 70;
    var res := Years(year) + Days(Quotient(year + 1, 4));
    var res := res + MONTH[tm.mon];
    var res := if tm.mon > 1 && Remainder(year + 2, 4) != 0 then res - Days(1) else res;
    var res := res + Days(tm.mday - 1);
    var res := res + Hours(tm.hour);
    var res := res + Minutes(tm.min);
    res + tm.sec
  }

  datatype Rule = EveryFourthYear | Gregorian

  /** y counts from 1900. */
  predicate Leap(rule: Rule, y: int) {
    y % 4 == 0 && (rule.Gregorian? ==> y % 100 != 0 || (1900 + y) % 400 == 0)
  }

  function DaysInMonth(leap: bool, mon: int): int
    requires 0 <= mon < 12
  {
    if mon == 1 then (if leap then 29 else 28)
    else if mon == 3 || mon == 5 || mon == 8 || mon == 10 then 30
    else 31
  }

  /** A broken-down time of the calendar with this leap rule, from 1970 on. */
  predicate Valid(rule: Rule, tm: Tm) {
    && tm.year >= 70 && 0 <= tm.mon < 12
    && 1 <= tm.mday <= DaysInMonth(Leap(rule, tm.year), tm.mon)
    && 0 <= tm.hour < 24 && 0 <= tm.min < 60 && 0 <= tm.sec < 60
  }

  const EPOCH := Tm(0, 0, 0, 1, 0, 70)

  /** One second later, carrying through every field. */
  function Next(rule: Rule, tm: Tm): Tm
    requires Valid(rule, tm)
  {
    if tm.sec < 59 then tm.(sec := tm.sec + 1)
    else if tm.min < 59 then tm.(sec := 0, min := tm.min + 1)
    else if tm.hour < 23 then tm.(sec := 0, min := 0, hour := tm.hour + 1)
    else if tm.mday < DaysInMonth(Leap(rule, tm.year), tm.mon) then
      tm.(sec := 0, min := 0, hour := 0, mday := tm.mday + 1)
    else if tm.mon < 11 then Tm(0, 0, 0, 1, tm.mon + 1, tm.year)
    else Tm(0, 0, 0, 1, 0, tm.year + 1)
  }

  function DaysBeforeMonth(leap: bool, mon: int): int
    requires 0 <= mon < 12
    decreases mon
  {
    if mon == 0 then 0 else DaysBeforeMonth(leap, mon - 1) + DaysInMonth(leap, mon - 1)
  }

  function DaysInYear(rule: Rule, y: int): int {
    if Leap(rule, y) then 366 else 365
  }

  /** Days from the start of 1970 to the start of year y. */
  function DaysBeforeYear(rule: Rule, y: int): int
    requires y >= 70
    decreases y
  {
    if y == 70 then 0 else DaysBeforeYear(rule, y - 1) + DaysInYear(rule, y - 1)
  }

  function DayNumber(rule: Rule, tm: Tm): int
    requires tm.year >= 70 && 0 <= tm.mon < 12
  {
    DaysBeforeYear(rule, tm.year) + DaysBeforeMonth(Leap(rule, tm.year), tm.mon) + tm.mday - 1
  }

  function SecondOfDay(tm: Tm): int {
    tm.hour * 3600 + tm.min * 60 + tm.sec
  }

  /** Seconds since the epoch, counted year by year and month by month. */
  function Seconds(rule: Rule, tm: Tm): int
    requires tm.year >= 70 && 0 <= tm.mon < 12
  {
    DayNumber(rule, tm) * 86400 + SecondOfDay(tm)
  }

  /** The lengths of the months. */
  lemma MonthLengthsByName(leap: bool, mon: int)
    requires 0 <= mon < 12
    ensures DaysInMonth(leap, mon) == [31, if leap then 29 else 28, 31, 30, 31, 30, 31, 31, 30, 31, 30, 31][mon]
  {
  }

  /** The leap rules, for the year as it is written. */
  lemma LeapYears(year: int)
    ensures Leap(EveryFourthYear, year - 1900) <==> year % 4 == 0
    ensures Leap(Gregorian, year - 1900) <==> year % 4 == 0 && (year % 100 != 0 || year % 400 == 0)
  {
    var y := year - 1900;
    FoursSince1900(y);
    HundredsSince1900(y);
    assert 1900 + y == year;
  }

  lemma FoursSince1900(y: int)
    ensures (1900 + y) % 4 == y % 4
  {
  }

  lemma HundredsSince1900(y: int)
    ensures (1900 + y) % 100 == y % 100
  {
  }

  lemma MonthTable(leap: bool, mon: int)
    requires 0 <= mon < 12
    ensures MONTH[mon] - (if mon > 1 && !leap then Days(1) else 0) == 86400 * DaysBeforeMonth(leap, mon)
  {
    MonthLengths(leap);
  }

  lemma MonthLengths(leap: bool)
    ensures var l := if leap then 1 else 0;
            && DaysBeforeMonth(leap, 0) == 0 && DaysBeforeMonth(leap, 1) == 31 && DaysBeforeMonth(leap, 2) == 59 + l
            && DaysBeforeMonth(leap, 3) == 90 + l && DaysBeforeMonth(leap, 4) == 120 + l
            && DaysBeforeMonth(leap, 5) == 151 + l && DaysBeforeMonth(leap, 6) == 181 + l
            && DaysBeforeMonth(leap, 7) == 212 + l && DaysBeforeMonth(leap, 8) == 243 + l
            && DaysBeforeMonth(leap, 9) == 273 + l && DaysBeforeMonth(leap, 10) == 304 + l
            && DaysBeforeMonth(leap, 11) == 334 + l
  {
    assert DaysBeforeMonth(leap, 2) == DaysBeforeMonth(leap, 1) + DaysInMonth(leap, 1);
    assert DaysBeforeMonth(leap, 4) == DaysBeforeMonth(leap, 3) + 30;
    assert DaysBeforeMonth(leap, 6) == DaysBeforeMonth(leap, 5) + 30;
    assert DaysBeforeMonth(leap, 8) == DaysBeforeMonth(leap, 7) + 31;
    assert DaysBeforeMonth(leap, 10) == DaysBeforeMonth(leap, 9) + 31;
  }

  lemma {:induction false} LeapYearsSoFar(y: int)
    requires y >= 70
    ensures DaysBeforeYear(EveryFourthYear, y) == 365 * (y - 70) + (y - 69) / 4
    decreases y
  {
    if y == 70 {
    } else {
      LeapYearsSoFar(y - 1);
    }
  }

  /** The closed formula counts every day of every month of every year under the four-year rule. */
  lemma MktimeCountsSeconds(tm: Tm)
    requires Valid(EveryFourthYear, tm)
    ensures KernelMktime(tm) == Seconds(EveryFourthYear, tm)
  {
    var year, leap := tm.year - 70, Leap(EveryFourthYear, tm.year);
    MonthTable(leap, tm.mon);
    LeapYearsSoFar(tm.year);
    MagicOffsets(year);
    Collect(tm, year, Quotient(year + 1, 4), DaysBeforeMonth(leap, tm.mon));
  }

  /** The two offsets of the code: leap years so far, and whether this one is leap. */
  lemma MagicOffsets(year: int)
    requires year >= 0
    ensures Quotient(year + 1, 4) == (year + 70 - 69) / 4
    ensures Remainder(year + 2, 4) != 0 <==> !Leap(EveryFourthYear, year + 70)
  {
  }

  lemma Collect(tm: Tm, year: int, leaps: int, days: int)
    ensures Years(year) + Days(leaps) + 86400 * days + Days(tm.mday - 1) + Hours(tm.hour) + Minutes(tm.min) + tm.sec
            == (365 * year + leaps + days + tm.mday - 1) * 86400 + SecondOfDay(tm)
  {
  }

  lemma NextSecond(rule: Rule, tm: Tm)
    requires Valid(rule, tm)
    ensures Valid(rule, Next(rule, tm))
    ensures Seconds(rule, Next(rule, tm)) == Seconds(rule, tm) + 1
  {
    var leap := Leap(rule, tm.year);
    if tm.mon == 11 { MonthLengths(leap); }
  }

  /** Lexicographic order of the fields, year first. */
  predicate Earlier(a: Tm, b: Tm) {
    a.year < b.year || (a.year == b.year &&
      (a.mon < b.mon || (a.mon == b.mon &&
        (a.mday < b.mday || (a.mday == b.mday && SecondOfDay(a) < SecondOfDay(b))))))
  }

  lemma {:induction false} YearsGrow(rule: Rule, y: int, z: int)
    requires 70 <= y < z
    ensures DaysBeforeYear(rule, z) >= DaysBeforeYear(rule, y) + DaysInYear(rule, y)
    decreases z
  {
    if z == y + 1 {
    } else {
      YearsGrow(rule, y, z - 1);
    }
  }

  lemma {:induction false} MonthsGrow(leap: bool, a: int, b: int)
    requires 0 <= a < b < 12
    ensures DaysBeforeMonth(leap, b) >= DaysBeforeMonth(leap, a) + DaysInMonth(leap, a)
    decreases b
  {
    if b == a + 1 {
    } else {
      MonthsGrow(leap, a, b - 1);
    }
  }

  lemma WithinYear(leap: bool, mon: int, mday: int)
    requires 0 <= mon < 12 && 1 <= mday <= DaysInMonth(leap, mon)
    ensures 0 <= DaysBeforeMonth(leap, mon) + mday - 1 < if leap then 366 else 365
  {
    MonthLengths(leap);
  }

  lemma StrictlyMonotone(rule: Rule, a: Tm, b: Tm)
    requires Valid(rule, a) && Valid(rule, b) && Earlier(a, b)
    ensures Seconds(rule, a) < Seconds(rule, b)
  {
    WithinYear(Leap(rule, a.year), a.mon, a.mday);
    WithinYear(Leap(rule, b.year), b.mon, b.mday);
    if a.year < b.year {
      YearsGrow(rule, a.year, b.year);
    } else if a.mon < b.mon {
      MonthsGrow(Leap(rule, a.year), a.mon, b.mon);
    }
    DaysFirst(DayNumber(rule, a), DayNumber(rule, b), SecondOfDay(a), SecondOfDay(b));
  }

  lemma DaysFirst(d: int, e: int, s: int, t: int)
    requires 0 <= s < 86400 && 0 <= t < 86400 && (d < e || (d == e && s < t))
    ensures d * 86400 + s < e * 86400 + t
  {
  }

  lemma EpochDay(rule: Rule)
    ensures Valid(rule, EPOCH) && DayNumber(rule, EPOCH) == 0 && SecondOfDay(EPOCH) == 0
  {
  }

  lemma SecondsAtMidnight(rule: Rule, tm: Tm)
    requires Valid(rule, tm) && DayNumber(rule, tm) == 0 && SecondOfDay(tm) == 0
    ensures Seconds(rule, tm) == 0
  {
  }

  lemma SecondLater(rule: Rule, tm: Tm) returns (u: Tm)
    requires Valid(rule, tm)
    ensures Valid(rule, u) && Seconds(rule, u) == Seconds(rule, tm) + 1
  {
    NextSecond(rule, tm);
    u := Next(rule, tm);
  }

  /** Counting n seconds from the epoch reaches a time of the calendar. */
  lemma {:induction false} Reach(rule: Rule, n: nat) returns (tm: Tm)
    ensures Valid(rule, tm) && Seconds(rule, tm) == n
  {
    if n == 0 {
      tm := EPOCH;
      EpochDay(rule);
      SecondsAtMidnight(rule, tm);
    } else {
      tm := Reach(rule, n - 1);
      tm := SecondLater(rule, tm);
    }
  }

  /** Onto: every natural is the value of a time. */
  lemma MktimeIsOnto(n: nat) returns (tm: Tm)
    ensures Valid(EveryFourthYear, tm) && KernelMktime(tm) == n
  {
    tm := Reach(EveryFourthYear, n);
    MktimeCountsSeconds(tm);
  }

  /** One to one, in fact strictly monotone, and never negative. */
  lemma MktimeIsMonotone(a: Tm, b: Tm)
    requires Valid(EveryFourthYear, a) && Valid(EveryFourthYear, b)
    ensures KernelMktime(a) >= 0
    ensures KernelMktime(a) < KernelMktime(b) <==> Earlier(a, b)
    ensures KernelMktime(a) == KernelMktime(b) <==> a == b
  {
    MktimeCountsSeconds(a);
    MktimeCountsSeconds(b);
    SecondsNotNegative(EveryFourthYear, a);
    Comparable(a, b);
    if Earlier(a, b) {
      StrictlyMonotone(EveryFourthYear, a, b);
    } else if Earlier(b, a) {
      StrictlyMonotone(EveryFourthYear, b, a);
    }
  }

  lemma Comparable(a: Tm, b: Tm)
    requires 0 <= a.min < 60 && 0 <= a.sec < 60 && 0 <= b.min < 60 && 0 <= b.sec < 60
    ensures a == b || Earlier(a, b) || Earlier(b, a)
  {
    if SecondOfDay(a) == SecondOfDay(b) { SameTimeOfDay(a, b); }
  }

  lemma SameTimeOfDay(a: Tm, b: Tm)
    requires 0 <= a.min < 60 && 0 <= a.sec < 60 && 0 <= b.min < 60 && 0 <= b.sec < 60
    requires SecondOfDay(a) == SecondOfDay(b)
    ensures a.hour == b.hour && a.min == b.min && a.sec == b.sec
  {
  }

  lemma SecondsNotNegative(rule: Rule, tm: Tm)
    requires Valid(rule, tm)
    ensures Seconds(rule, tm) >= 0
  {
    WithinYear(Leap(rule, tm.year), tm.mon, tm.mday);
    if tm.year > 70 { YearsGrow(rule, 70, tm.year); }
  }

  /** In terms of kernel_mktime alone: the epoch is 0 and each next second is one more. */
  lemma MktimeNextSecond(tm: Tm)
    requires Valid(EveryFourthYear, tm)
    ensures KernelMktime(EPOCH) == 0
    ensures Valid(EveryFourthYear, Next(EveryFourthYear, tm))
    ensures KernelMktime(Next(EveryFourthYear, tm)) == KernelMktime(tm) + 1
  {
    NextSecond(EveryFourthYear, tm);
    MktimeCountsSeconds(tm);
    MktimeCountsSeconds(Next(EveryFourthYear, tm));
  }

  /** 00:00:00 on 1 March 2100, the day after the last on which the two calendars agree. */
  const MARCH_2100 := Tm(0, 0, 0, 1, 2, 200)

  /** Through 2100 the two rules have counted the same days; then the four-year rule is ahead. */
  lemma {:induction false} CalendarsPart(y: int)
    requires y >= 70
    ensures y <= 200 ==> DaysBeforeYear(EveryFourthYear, y) == DaysBeforeYear(Gregorian, y)
    ensures y > 200 ==> DaysBeforeYear(EveryFourthYear, y) > DaysBeforeYear(Gregorian, y)
    decreases y
  {
    if y == 70 {
    } else {
      var y' := y - 1;
      CalendarsPart(y');
      LeapsCompared(y');
    }
  }

  lemma LeapsCompared(y: int)
    ensures Leap(Gregorian, y) ==> Leap(EveryFourthYear, y)
    ensures 70 <= y < 200 ==> Leap(Gregorian, y) == Leap(EveryFourthYear, y)
    ensures y == 200 ==> Leap(EveryFourthYear, y) && !Leap(Gregorian, y)
  {
  }

  /** A Gregorian date exists under the four-year rule too, and counts no fewer days into the year. */
  lemma GregorianInJulian(tm: Tm)
    requires Valid(Gregorian, tm)
    ensures Valid(EveryFourthYear, tm)
    ensures var four, greg := Leap(EveryFourthYear, tm.year), Leap(Gregorian, tm.year);
            DaysBeforeMonth(four, tm.mon) == DaysBeforeMonth(greg, tm.mon) + if four != greg && tm.mon > 1 then 1 else 0
  {
    MonthLengths(true);
    MonthLengths(false);
  }

  /** The day counts of a Gregorian date differ from March 2100 on, and only then. */
  lemma DayNumbersPart(tm: Tm)
    requires Valid(Gregorian, tm)
    ensures DayNumber(EveryFourthYear, tm) >= DayNumber(Gregorian, tm)
    ensures DayNumber(EveryFourthYear, tm) == DayNumber(Gregorian, tm)
            <==> tm.year < 200 || (tm.year == 200 && tm.mon <= 1)
  {
    GregorianInJulian(tm);
    CalendarsPart(tm.year);
    LeapsCompared(tm.year);
  }

  /** kernel_mktime is the Gregorian second count exactly up to the end of 28 February 2100. */
  lemma GregorianUntil2100(tm: Tm)
    requires Valid(Gregorian, tm)
    ensures KernelMktime(tm) == Seconds(Gregorian, tm) <==> Earlier(tm, MARCH_2100)
  {
    GregorianInJulian(tm);
    MktimeCountsSeconds(tm);
    DayNumbersPart(tm);
    BeforeMarch2100(tm);
  }

  lemma BeforeMarch2100(tm: Tm)
    requires Valid(Gregorian, tm)
    ensures Earlier(tm, MARCH_2100) <==> tm.year < 200 || (tm.year == 200 && tm.mon <= 1)
  {
  }

  /** The formula of section 4.16 of POSIX.1-2017 XBD, with tm_yday made explicit. */
  function PosixSeconds(tm: Tm): int
    requires 0 <= tm.mon < 12
  {
    var yday := DaysBeforeMonth(Leap(Gregorian, tm.year), tm.mon) + tm.mday - 1;
    tm.sec + tm.min * 60 + tm.hour * 3600 + yday * 86400
    + (tm.year - 70) * 31536000 + (tm.year - 69) / 4 * 86400 - (tm.year - 1) / 100 * 86400
    + (tm.year + 299) / 400 * 86400
  }

  lemma {:induction false} GregorianYears(y: int)
    requires y >= 70
    ensures DaysBeforeYear(Gregorian, y) == 365 * (y - 70) + (y - 69) / 4 - (y - 1) / 100 + (y + 299) / 400
    decreases y
  {
    if y == 70 {
    } else {
      GregorianYears(y - 1);
      LeapStep(y - 1, (y - 69) / 4, (y - 70) / 4, (y - 1) / 100, (y - 2) / 100, (y + 299) / 400, (y + 298) / 400);
    }
  }

  /** One more year adds a leap day to the three quotients exactly when it is leap. */
  lemma LeapStep(y: int, a: int, a': int, b: int, b': int, c: int, c': int)
    requires a == (y - 68) / 4 && a' == (y - 69) / 4
    requires b == y / 100 && b' == (y - 1) / 100
    requires c == (y + 300) / 400 && c' == (y + 299) / 400
    ensures a - b + c == a' - b' + c' + if Leap(Gregorian, y) then 1 else 0
  {
    Step4(y - 68);
    Step100(y);
    Step400(y + 300);
    Shift4(y);
    Shift400(y);
    if y % 100 != 0 { Not400(y); }
    if y % 100 == 0 { Hundreds(y); }
  }

  lemma Step4(a: int)
    ensures a / 4 - (a - 1) / 4 == if a % 4 == 0 then 1 else 0
  {
  }

  lemma Step100(a: int)
    ensures a / 100 - (a - 1) / 100 == if a % 100 == 0 then 1 else 0
  {
  }

  lemma Step400(a: int)
    ensures a / 400 - (a - 1) / 400 == if a % 400 == 0 then 1 else 0
  {
  }

  lemma Shift4(y: int)
    ensures (y - 68) % 4 == y % 4
  {
  }

  lemma Shift400(y: int)
    ensures (1900 + y) % 400 == (y + 300) % 400
  {
  }

  lemma Not400(y: int)
    requires y % 100 != 0
    ensures (y + 300) % 400 != 0
  {
  }

  lemma Hundreds(y: int)
    requires y % 100 == 0
    ensures y % 4 == 0
  {
  }

  lemma PosixFormula(tm: Tm)
    requires Valid(Gregorian, tm)
    ensures PosixSeconds(tm) == Seconds(Gregorian, tm)
  {
    GregorianYears(tm.year);
  }

  /** kernel_mktime is that formula exactly up to the end of 28 February 2100. */
  lemma MktimeIsPosixUntil2100(tm: Tm)
    requires Valid(Gregorian, tm)
    ensures KernelMktime(tm) == PosixSeconds(tm) <==> Earlier(tm, MARCH_2100)
  {
    PosixFormula(tm);
    GregorianUntil2100(tm);
  }

  const INT_MAX := 0x7fff_ffff

  predicate FitsInt(x: int) {
    -0x8000_0000 <= x <= INT_MAX
  }

  predicate AllFit(xs: seq<int>) {
    forall i :: 0 <= i < |xs| ==> FitsInt(xs[i])
  }

  /** Every value that kernel_mktime computes on its way, in the order of the code. */
  function Intermediates(tm: Tm): seq<int>
    requires 0 <= tm.mon < 12
  {
    var year := tm.year - 70;
    Partials(tm, year, Quotient(year + 1, 4), MONTH[tm.mon], Correction(tm))
  }

  /** What is taken off behind February when the year is not a leap year. */
  function Correction(tm: Tm): int {
    if tm.mon > 1 && Remainder(tm.year - 70 + 2, 4) != 0 then Days(1) else 0
  }

  /** The same in terms of the leap days, month seconds and correction that go into them. */
  function Partials(tm: Tm, year: int, leaps: int, month: int, correction: int): seq<int> {
    var r0 := Years(year) + Days(leaps);
    var r2 := r0 + month - correction;
    var r3 := r2 + Days(tm.mday - 1);
    var r4 := r3 + Hours(tm.hour);
    var r5 := r4 + Minutes(tm.min);
    [year, Years(year), year + 1, Days(leaps), r0, r0 + month, year + 2, r2,
     Days(tm.mday - 1), r3, Hours(tm.hour), r4, Minutes(tm.min), r5, r5 + tm.sec]
  }

  /** The sums, for the leap days, month and correction that go into them. */
  lemma PartialsInOrder(tm: Tm, year: int, leaps: int, month: int, correction: int)
    ensures var v := Partials(tm, year, leaps, month, correction);
            && |v| == 15
            && v[0] == year && v[1] == 365 * 86400 * v[0]
            && v[2] == v[0] + 1 && v[3] == 86400 * leaps && v[4] == v[1] + v[3]
            && v[5] == v[4] + month
            && v[6] == v[0] + 2 && v[7] == v[5] - correction
            && v[8] == 86400 * (tm.mday - 1) && v[9] == v[7] + v[8]
            && v[10] == 3600 * tm.hour && v[11] == v[9] + v[10]
            && v[12] == 60 * tm.min && v[13] == v[11] + v[12]
            && v[14] == v[13] + tm.sec
  {
  }

  lemma LeapsAndCorrection(tm: Tm)
    requires tm.year >= 70
    ensures Quotient(tm.year - 70 + 1, 4) == (tm.year - 70 + 1) / 4
    ensures Correction(tm) == if tm.mon > 1 && (tm.year - 70 + 2) % 4 != 0 then 86400 else 0
  {
    var n := tm.year - 70 + 2;
    assert n == 4 * (n / 4) + n % 4;
  }

  /** Each value is what the code makes of those before it; the last one is the result. */
  lemma IntermediatesInOrder(tm: Tm)
    requires Valid(EveryFourthYear, tm)
    ensures var v, month := Intermediates(tm), DaysBeforeMonth(true, tm.mon);
            && |v| == 15
            && v[0] == tm.year - 70 && v[1] == 365 * 86400 * v[0]
            && v[2] == v[0] + 1 && v[3] == 86400 * (v[2] / 4) && v[4] == v[1] + v[3]
            && v[5] == v[4] + 86400 * month
            && v[6] == v[0] + 2 && v[7] == (if tm.mon > 1 && v[6] % 4 != 0 then v[5] - 86400 else v[5])
            && v[8] == 86400 * (tm.mday - 1) && v[9] == v[7] + v[8]
            && v[10] == 3600 * tm.hour && v[11] == v[9] + v[10]
            && v[12] == 60 * tm.min && v[13] == v[11] + v[12]
            && v[14] == v[13] + tm.sec
  {
    var year := tm.year - 70;
    MonthTable(true, tm.mon);
    LeapsAndCorrection(tm);
    PartialsInOrder(tm, year, Quotient(year + 1, 4), MONTH[tm.mon], Correction(tm));
  }

  /** To fit is to be a 32-bit number in two's complement. */
  lemma FitMeans(xs: seq<int>)
    ensures AllFit(xs) <==> forall x :: x in xs ==> -2147483648 <= x <= 2147483647
  {
    assert forall i :: 0 <= i < |xs| ==> xs[i] in xs;
  }

  /** No intermediate overflows a 32-bit int exactly when the result does not. */
  lemma NoOverflowIff(tm: Tm)
    requires Valid(EveryFourthYear, tm)
    ensures AllFit(Intermediates(tm)) <==> KernelMktime(tm) <= INT_MAX
  {
    assert Intermediates(tm)[14] == KernelMktime(tm);
    if KernelMktime(tm) <= INT_MAX { IntermediatesFit(tm); }
  }

  /** The last instant that a 32-bit int can hold. */
  lemma LastInstant()
    ensures Valid(EveryFourthYear, LAST_INSTANT) && KernelMktime(LAST_INSTANT) == INT_MAX
  {
  }

  const LAST_INSTANT := Tm(7, 14, 3, 19, 0, 138)

  /** No intermediate overflows exactly up to 03:14:07 on 19 January 2038. */
  lemma NoOverflowUntil2038(tm: Tm)
    requires Valid(EveryFourthYear, tm)
    ensures AllFit(Intermediates(tm)) <==> !Earlier(LAST_INSTANT, tm)
  {
    NoOverflowIff(tm);
    LastInstant();
    MktimeIsMonotone(LAST_INSTANT, tm);
  }

  lemma IntermediatesFit(tm: Tm)
    requires Valid(EveryFourthYear, tm) && Intermediates(tm)[14] <= INT_MAX
    ensures AllFit(Intermediates(tm))
  {
    var year := tm.year - 70;
    MonthBounds(tm.mon);
    SumsFit(tm, year, Quotient(year + 1, 4), MONTH[tm.mon], Correction(tm));
  }

  lemma MonthBounds(mon: int)
    requires 0 <= mon < 12
    ensures 0 <= MONTH[mon] <= 335 * 86400 && (mon > 1 ==> MONTH[mon] >= 60 * 86400)
  {
  }

  lemma SumsFit(tm: Tm, year: int, leaps: int, month: int, correction: int)
    requires year >= 0 && leaps == (year + 1) / 4 && 0 <= month <= 335 * 86400
    requires correction == 0 || (correction == 86400 && month >= 60 * 86400)
    requires 1 <= tm.mday <= 31 && 0 <= tm.hour < 24 && 0 <= tm.min < 60 && 0 <= tm.sec < 60
    requires Partials(tm, year, leaps, month, correction)[14] <= INT_MAX
    ensures AllFit(Partials(tm, year, leaps, month, correction))
  {
    assert year <= 68;
  }
}
