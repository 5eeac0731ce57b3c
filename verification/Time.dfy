/**
 Calendar arithmetic of include/service/time.h: `mktime` and `gmtime`.

 The reference calendar counts days by adding up year and month lengths one at a
 time. `MkTime` (closed formula) and `GmTime` (division by 400-, 100-, 4- and
 1-year cycles plus a month estimate) are proved against it, which makes them
 inverse to each other.
 */
module Calendar {
  import opened Common
  import opened Multiples

  const TWO32: int := 0x1_0000_0000

  /** Broken down time; `wday` 0 is Sunday, `yday` counts from 1. */
  datatype Tm = Tm(sec: int, min: int, hour: int, mday: int, mon: int, year: int, wday: int, yday: int)

  // ---------------------------------------------------------------- reference calendar

  /** The Gregorian rule. */
  predicate Leap(year: int) {
    (year % 4 == 0 && year % 100 != 0) || year % 400 == 0
  }

  function YearLength(year: int): int {
    if Leap(year) then 366 else 365
  }

  function MonthLength(year: int, mon: int): int {
    if mon == 2 then (if Leap(year) then 29 else 28)
    else if mon == 4 || mon == 6 || mon == 9 || mon == 11 then 30
    else 31
  }

  /** Days between 0001-01-01 and the first day of `year`. */
  function DaysBeforeYear(year: nat): nat {
    if year <= 1 then 0 else DaysBeforeYear(year - 1) + YearLength(year - 1)
  }

  /** Days between the first of January and the first of `mon`. */
  function DaysBeforeMonth(year: int, mon: nat): nat {
    if mon <= 1 then 0 else DaysBeforeMonth(year, mon - 1) + MonthLength(year, mon - 1)
  }

  predicate ValidDate(year: int, mon: int, mday: int) {
    1 <= year && 1 <= mon <= 12 && 1 <= mday <= MonthLength(year, mon)
  }

  predicate ValidTm(tm: Tm) {
    && ValidDate(tm.year, tm.mon, tm.mday)
    && 0 <= tm.hour < 24 && 0 <= tm.min < 60 && 0 <= tm.sec < 60
  }

  /** Day number of a date, counted from 0001-01-01. */
  function DayNumber(year: int, mon: int, mday: int): int
    requires ValidDate(year, mon, mday)
  {
    DaysBeforeYear(year) + DaysBeforeMonth(year, mon) + mday - 1
  }

  /** Day number of 1970-01-01. */
  const EPOCH: int := 719162

  lemma EpochIsFirstOfJanuary1970()
    ensures EPOCH == DayNumber(1970, 1, 1)
  {
    YearsClosedForm(1970);
  }

  /** Seconds since the epoch, negative for earlier dates. */
  function SecondsOf(tm: Tm): int
    requires ValidTm(tm)
  {
    InSeconds(DayNumber(tm.year, tm.mon, tm.mday) - EPOCH, tm)
  }

  /** A number of days and the time of day, in seconds. */
  function InSeconds(days: int, tm: Tm): int {
    ((days * 24 + tm.hour) * 60 + tm.min) * 60 + tm.sec
  }

  /** The derived fields agree with the date: 0001-01-01 was a Monday. */
  predicate DerivedFields(tm: Tm)
    requires ValidTm(tm)
  {
    && tm.wday == (DayNumber(tm.year, tm.mon, tm.mday) + 1) % 7
    && tm.yday == DaysBeforeMonth(tm.year, tm.mon) + tm.mday
  }

  // ---------------------------------------------------------------- facts about the reference

  /** The leap years up to and including `year`. */
  function LeapYears(year: nat): int { year / 4 - year / 100 + year / 400 }

  lemma {:induction false} YearsClosedForm(year: nat)
    requires 1 <= year
    ensures DaysBeforeYear(year) == 365 * (year - 1) + LeapYears(year - 1)
    decreases year
  {
    if year > 1 {
      YearsClosedForm(year - 1);
      LeapDays(year - 1);
    }
  }

  lemma {:induction false} YearsMonotone(a: nat, b: nat)
    requires 1 <= a <= b
    ensures DaysBeforeYear(a) + 365 * (b - a) <= DaysBeforeYear(b)
    decreases b - a
  {
    if a < b {
      YearsMonotone(a, b - 1);
    }
  }

  /** The two month tables of `gmtime`. */
  function MonthTable(leap: bool): (t: seq<int>)
    ensures |t| == 13
  {
    if leap then [0, 31, 60, 91, 121, 152, 182, 213, 244, 274, 305, 335, 366]
    else [0, 31, 59, 90, 120, 151, 181, 212, 243, 273, 304, 334, 365]
  }

  lemma MonthTableIsSum(year: int, mon: nat)
    requires 1 <= mon <= 12
    ensures MonthTable(Leap(year))[mon - 1] == DaysBeforeMonth(year, mon)
    ensures MonthTable(Leap(year))[mon] == DaysBeforeMonth(year, mon) + MonthLength(year, mon)
  {
    if mon > 1 {
      MonthTableIsSum(year, mon - 1);
    }
  }

  /** A date stays within its year, and months of one year do not overlap. */
  lemma DateWithinYear(year: int, mon: int, mday: int)
    requires ValidDate(year, mon, mday)
    ensures 0 <= DaysBeforeMonth(year, mon) + mday - 1 < YearLength(year)
  {
    MonthTableIsSum(year, mon);
    var t := MonthTable(Leap(year));
    assert t[mon] <= t[12];
  }

  lemma {:induction false} MonthsMonotone(year: int, a: nat, b: nat)
    requires 1 <= a < b
    ensures DaysBeforeMonth(year, a) + MonthLength(year, a) <= DaysBeforeMonth(year, b)
    decreases b - a
  {
    if a + 1 < b {
      MonthsMonotone(year, a, b - 1);
    }
  }

  lemma DayInYear(year: int, mon: int, mday: int)
    requires ValidDate(year, mon, mday)
    ensures DaysBeforeYear(year) <= DayNumber(year, mon, mday) < DaysBeforeYear(year + 1)
  {
    DateWithinYear(year, mon, mday);
  }

  lemma DayInMonth(year: int, m1: int, d1: int, m2: int, d2: int)
    requires ValidDate(year, m1, d1) && ValidDate(year, m2, d2) && m1 < m2
    ensures DaysBeforeMonth(year, m1) + d1 < DaysBeforeMonth(year, m2) + d2
  {
    MonthsMonotone(year, m1, m2);
  }

  /** Distinct valid dates have distinct day numbers. */
  lemma DayNumberInjective(y1: int, m1: int, d1: int, y2: int, m2: int, d2: int)
    requires ValidDate(y1, m1, d1) && ValidDate(y2, m2, d2)
    requires DayNumber(y1, m1, d1) == DayNumber(y2, m2, d2)
    ensures y1 == y2 && m1 == m2 && d1 == d2
  {
    DayInYear(y1, m1, d1);
    DayInYear(y2, m2, d2);
    if y1 < y2 {
      YearsMonotone(y1 + 1, y2);
    } else if y2 < y1 {
      YearsMonotone(y2 + 1, y1);
    } else if m1 < m2 {
      DayInMonth(y1, m1, d1, m2, d2);
    } else if m2 < m1 {
      DayInMonth(y1, m2, d2, m1, d1);
    }
  }

  /** A time lies before the first day of `year` iff its own year is smaller. */
  lemma BeforeYear(tm: Tm, year: nat, first: int)
    requires ValidTm(tm) && 1 <= year
    requires first == 365 * (year - 1) + LeapYears(year - 1)
    ensures SecondsOf(tm) < (first - EPOCH) * 86400 <==> tm.year < year
  {
    YearsClosedForm(year);
    DayInYear(tm.year, tm.mon, tm.mday);
    if tm.year < year {
      YearsMonotone(tm.year + 1, year);
    } else {
      YearsMonotone(year, tm.year);
    }
  }

  // ---------------------------------------------------------------- mktime

  /** C integer division truncates toward zero. */
  function CDiv(a: int, b: int): int
    requires b > 0
  {
    if a >= 0 then a / b else -((-a) / b)
  }

  /** The `int` part of `mktime`: everything added up before the leap-day corrections. */
  function MkDaysInt(tm: Tm): int {
    var beforeMarch := if tm.mon < 3 then 1 else 0;
    var leap := if Leap(tm.year) then 1 else 0;
    CDiv((tm.mon + 10) * 367, 12) + 2 * beforeMarch - 719866 + tm.mday - beforeMarch * leap + tm.year * 365
  }

  /** `mktime`: the result is a 64-bit unsigned value, so negative day counts wrap. */
  function MkTime(tm: Tm): u64 {
    Wrap64(InSeconds(MkDays(tm), tm))
  }

  /** The day count of `mktime` with the leap-day corrections. */
  function MkDays(tm: Tm): int {
    MkDaysInt(tm) + (CDiv(tm.year, 4) - CDiv(tm.year, 100) + CDiv(tm.year, 400))
  }

  /** Last year for which the signed 32-bit product `year*365` of `mktime` does not overflow. */
  const MAX_MKTIME_YEAR: int := 5883516

  lemma MkDaysFitsInt(tm: Tm)
    requires ValidTm(tm)
    ensures tm.year * 365 < 0x8000_0000 <==> tm.year <= MAX_MKTIME_YEAR
    ensures tm.year <= MAX_MKTIME_YEAR ==> -0x8000_0000 <= MkDaysInt(tm) < 0x8000_0000
  {
  }

  /** The month formula of `mktime` agrees with the table of month lengths. */
  lemma MonthFormula(year: int, mon: nat)
    requires 1 <= mon <= 12
    ensures var beforeMarch := if mon < 3 then 1 else 0;
            var leap := if Leap(year) then 1 else 0;
            CDiv((mon + 10) * 367, 12) + 2 * beforeMarch - beforeMarch * leap
            == DaysBeforeMonth(year, mon) + 338 - leap
  {
    MonthTableIsSum(year, mon);
    assert CDiv((mon + 10) * 367, 12) == (mon + 10) * 367 / 12;
  }

  /** `mktime` counts seconds exactly, for every valid date (modulo 2^64 before 1970). */
  lemma MkTimeCountsSeconds(tm: Tm)
    requires ValidTm(tm)
    ensures MkTime(tm) == Wrap64(SecondsOf(tm))
    ensures 1970 <= tm.year <= MAX_MKTIME_YEAR ==> MkTime(tm) == SecondsOf(tm)
  {
    MkDaysCountsDays(tm);
    if 1970 <= tm.year <= MAX_MKTIME_YEAR {
      SecondsFit(tm);
      WrapSmall(SecondsOf(tm));
    }
  }

  /** The day formula of `mktime` is the day number relative to the epoch. */
  lemma MkDaysCountsDays(tm: Tm)
    requires ValidTm(tm)
    ensures MkDays(tm) == DayNumber(tm.year, tm.mon, tm.mday) - EPOCH
  {
    MonthFormula(tm.year, tm.mon);
    YearsWithLeapDays(tm.year);
  }

  /** The days before a year from the leap years up to and including it. */
  lemma YearsWithLeapDays(y: nat)
    requires 1 <= y
    ensures DaysBeforeYear(y) == 365 * (y - 1) + LeapYears(y) - (if Leap(y) then 1 else 0)
  {
    YearsClosedForm(y);
    LeapDays(y);
  }

  lemma LeapDays(y: nat)
    requires 1 <= y
    ensures LeapYears(y) == LeapYears(y - 1) + (if Leap(y) then 1 else 0)
  {
    StepDiv(y, 4);
    StepDiv(y, 100);
    StepDiv(y, 400);
    LongerCycles(y);
  }

  /** A year that ends a longer cycle ends the shorter ones. */
  lemma LongerCycles(y: nat)
    ensures y % 100 == 0 ==> y % 4 == 0
    ensures y % 400 == 0 ==> y % 100 == 0
  {
    if y % 100 == 0 {
      DivideBy(y, 4, y / 100 * 25, 0);
    }
    if y % 400 == 0 {
      DivideBy(y, 100, y / 400 * 4, 0);
    }
  }

  lemma StepDiv(y: nat, k: nat)
    requires 1 <= y && (k == 4 || k == 100 || k == 400)
    ensures y / k == (y - 1) / k + (if y % k == 0 then 1 else 0)
  {
  }

  lemma SecondsFit(tm: Tm)
    requires ValidTm(tm) && 1970 <= tm.year <= MAX_MKTIME_YEAR
    ensures 0 <= SecondsOf(tm) <= NEVER
  {
    EpochIsFirstOfJanuary1970();
    DateWithinYear(tm.year, tm.mon, tm.mday);
    YearsMonotone(1970, tm.year);
    YearsClosedForm(tm.year);
  }

  // ---------------------------------------------------------------- gmtime

  /** Seconds whose year fits the signed 32-bit field `tm_simple::year`. */
  const GMTIME_LIMIT: int := (DAYS_BEFORE_YEAR_2_31 - EPOCH) * 86400
  const DAYS_BEFORE_YEAR_2_31: int := 784352295939

  /** The year part of `gmtime` on the 400-, 100-, 4- and 1-year cycles. */
  lemma CycleDecomposition(a: nat, c: nat, e: nat, f: nat, rest: nat)
    requires c <= 3 && e <= 24 && f <= 3
    requires rest < 365 || (rest == 365 && f == 3 && (e < 24 || c == 3))
    ensures var year := ((a * 4 + c) * 25 + e) * 4 + f + 1;
            && DaysBeforeYear(year) == a * 146097 + c * 36524 + e * 1461 + f * 365
            && rest < YearLength(year)
  {
    var y := ((a * 4 + c) * 25 + e) * 4 + f;
    YearsClosedForm(y + 1);
    DivideBy(y, 4, 100 * a + 25 * c + e, f);
    DivideBy(y, 100, 4 * a + c, 4 * e + f);
    DivideBy(y, 400, a, 100 * c + 4 * e + f);
    if rest == 365 {
      LastYearOfCycle(a, c, e);
    }
  }

  /** The last year of a 4-year cycle is a leap year, unless it ends a 100- but no 400-year cycle. */
  lemma LastYearOfCycle(a: nat, c: nat, e: nat)
    requires c <= 3 && e <= 24 && (e < 24 || c == 3)
    ensures Leap(((a * 4 + c) * 25 + e) * 4 + 3 + 1)
  {
    var y := ((a * 4 + c) * 25 + e) * 4 + 3 + 1;
    DivideBy(y, 4, 100 * a + 25 * c + e + 1, 0);
    if e < 24 {
      DivideBy(y, 100, 4 * a + c, 4 * e + 4);
    } else {
      DivideBy(y, 400, a + 1, 0);
    }
  }

  /** Month and day of month from the day of the year, as looked up by `gmtime`. */
  lemma MonthEstimate(year: int, day: nat)
    requires day < YearLength(year)
    ensures var t := MonthTable(Leap(year));
            var m := day / 31;
            && m <= 11
            && t[m] <= day
            && (day - t[m] >= t[m + 1] - t[m] ==> m + 2 <= 12 && day < t[m + 2])
  {
    var m := day / 31;
    assert 31 * m <= day < 31 * (m + 1);
    assert m <= 11;
  }

  /**
   The position of a day inside its 400-year cycle: `years100`, `years4`, `years` and
   the day of the year. Two branches correct the overflow on the last day of a 400-
   and of a 4-year cycle.
   */
  method CyclesOfDay(inCycle: nat) returns (years100: nat, years4: nat, years: nat, day: nat)
    requires inCycle < 146097
    ensures inCycle == years100 * 36524 + years4 * 1461 + years * 365 + day
    ensures years100 <= 3 && years4 <= 24 && years <= 3
    ensures day < 365 || (day == 365 && years == 3 && (years4 < 24 || years100 == 3))
  {
    var days := inCycle;
    years100 := days / 36524;
    days := days % 36524;
    if years100 == 4 {
      years100, days := years100 - 1, days + 36524;
    }
    years4 := days / 1461;
    days := days % 1461;
    years := days / 365;
    days := days % 365;
    if years == 4 {
      years, days := years - 1, days + 365;
    }
    day := days;
  }

  /** The year part of `gmtime`; `years400` and the year are truncated to 32 bits. */
  method YearOfDay(number: nat) returns (year: int, day: nat)
    ensures day < 366
    ensures number < DAYS_BEFORE_YEAR_2_31
            ==> 1 <= year && DaysBeforeYear(year) + day == number && day < YearLength(year)
  {
    var quotient, inCycle := number / (4 * 36524 + 1), number % (4 * 36524 + 1);
    var years400 := Low32(quotient);
    var years100, years4, years, rest := CyclesOfDay(inCycle);
    var sum := (((years400 * 4 + years100) * 25 + years4) * 4) + years + 1;
    year, day := ToInt32(Low32(sum)), rest;
    if number < DAYS_BEFORE_YEAR_2_31 {
      YearRange(number, years400, years100, years4, years, day);
    }
  }

  /** The month and the day of the month of a day of the year, starting from an estimate. */
  method MonthOfDay(year: int, day: nat) returns (mon: int, mday: int)
    requires day < 366
    ensures day < YearLength(year) ==> 1 <= mon <= 12 && 1 <= mday <= MonthLength(year, mon)
                                       && DaysBeforeMonth(year, mon) + mday - 1 == day
  {
    var l := MonthTable(Leap(year));
    var m, days := day / 31, day;
    days := days - l[m];
    if days >= l[m + 1] - l[m] {
      days := days - (l[m + 1] - l[m]);
      m := m + 1;
    }
    mon, mday := m + 1, days + 1;
    if day < YearLength(year) {
      MonthEstimate(year, day);
      MonthTableIsSum(year, mon);
    }
  }

  /**
   `gmtime`. Every 64- and 32-bit truncation of the source is written out, so the
   method is defined for all 64-bit inputs; whenever the year fits its field, the
   result is the valid date that the reference calendar assigns to these seconds.
   */
  method GmTime(s: u64) returns (tm: Tm)
    ensures s < GMTIME_LIMIT ==> ValidTm(tm) && DerivedFields(tm) && SecondsOf(tm) == s
  {
    var seconds: nat := Wrap64(s + (719528 - 366) * 86400);
    SinceYear1(s);
    var sec := seconds % 60;
    seconds := seconds / 60;
    var min := seconds % 60;
    seconds := seconds / 60;
    var hour := seconds % 24;
    seconds := seconds / 24;
    var number := seconds;
    seconds := seconds + 1;
    var wday := seconds % 7;
    var year, day := YearOfDay(number);
    var mon, mday := MonthOfDay(year, day);
    tm := Tm(sec, min, hour, mday, mon, year, wday, day + 1);
  }

  /** The seconds since the year 1 do not wrap as long as the year fits. */
  lemma SinceYear1(s: u64)
    ensures s < GMTIME_LIMIT ==> Wrap64(s + (719528 - 366) * 86400) == s + EPOCH * 86400
  {
  }

  /** Truncation to an unsigned 32-bit value. */
  function Low32(x: nat): (r: nat)
    ensures r < 0x1_0000_0000
    ensures x < 0x1_0000_0000 ==> r == x
  {
    x % 0x1_0000_0000
  }

  function ToInt32(x: int): int
    requires 0 <= x < 0x1_0000_0000
  {
    if x < 0x8000_0000 then x else x - TWO32
  }

  lemma YearRange(number: nat, a: nat, c: nat, e: nat, f: nat, rest: nat)
    requires number < DAYS_BEFORE_YEAR_2_31
    requires number == a * 146097 + c * 36524 + e * 1461 + f * 365 + rest
    requires c <= 3 && e <= 24 && f <= 3
    requires rest < 365 || (rest == 365 && f == 3 && (e < 24 || c == 3))
    ensures var year := ((a * 4 + c) * 25 + e) * 4 + f + 1;
            && year < 0x8000_0000
            && DaysBeforeYear(year) + rest == number
            && rest < YearLength(year)
  {
    var year := ((a * 4 + c) * 25 + e) * 4 + f + 1;
    CycleDecomposition(a, c, e, f, rest);
    YearsClosedForm(0x8000_0000);
    YearsClosedForm(year);
  }

  // ---------------------------------------------------------------- round trips

  /** Seconds whose year is at most `MAX_MKTIME_YEAR`. */
  const MKTIME_LIMIT: int := (2148910092 - EPOCH) * 86400

  /** `mktime(gmtime(s)) == s` for every s whose year fits. */
  method GmTimeThenMkTime(s: int) returns (tm: Tm, back: int)
    requires 0 <= s < MKTIME_LIMIT
    ensures ValidTm(tm) && DerivedFields(tm) && 1970 <= tm.year <= MAX_MKTIME_YEAR
    ensures back == s
  {
    tm := GmTime(s);
    YearBounds(tm);
    MkTimeCountsSeconds(tm);
    back := MkTime(tm);
  }

  lemma YearBounds(tm: Tm)
    requires ValidTm(tm)
    ensures 0 <= SecondsOf(tm) <==> 1970 <= tm.year
    ensures SecondsOf(tm) < MKTIME_LIMIT <==> tm.year <= MAX_MKTIME_YEAR
  {
    BeforeYear(tm, 1970, EPOCH);
    BeforeYear(tm, MAX_MKTIME_YEAR + 1, 2148910092);
  }

  /** `gmtime(mktime(tm)) == tm` for every valid time from 1970 on whose year fits. */
  method MkTimeThenGmTime(tm: Tm) returns (s: int, back: Tm)
    requires ValidTm(tm) && 1970 <= tm.year <= MAX_MKTIME_YEAR
    ensures back == tm.(wday := back.wday, yday := back.yday)
    ensures DerivedFields(back)
  {
    MkTimeCountsSeconds(tm);
    YearBounds(tm);
    s := MkTime(tm);
    back := GmTime(s);
    SameDate(tm, back);
  }

  lemma SameDate(a: Tm, b: Tm)
    requires ValidTm(a) && ValidTm(b) && SecondsOf(a) == SecondsOf(b)
    ensures b == a.(wday := b.wday, yday := b.yday)
  {
    SameDayAndTime(DayNumber(a.year, a.mon, a.mday) - EPOCH, a, DayNumber(b.year, b.mon, b.mday) - EPOCH, b);
    DayNumberInjective(a.year, a.mon, a.mday, b.year, b.mon, b.mday);
  }

  lemma SameDayAndTime(d1: int, a: Tm, d2: int, b: Tm)
    requires ValidTm(a) && ValidTm(b)
    requires ((d1 * 24 + a.hour) * 60 + a.min) * 60 + a.sec == ((d2 * 24 + b.hour) * 60 + b.min) * 60 + b.sec
    ensures d1 == d2 && a.hour == b.hour && a.min == b.min && a.sec == b.sec
  {
  }
}
