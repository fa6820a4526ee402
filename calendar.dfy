/**
 * Calendar arithmetic of the tracker's Date objects.
 *
 * A Date is modelled by the three fields the tracker reads from it
 * (getFullYear, getMonth, getDate). Building a Date from possibly
 * out-of-range fields, as `new Date(y, m, d)` does, follows the day
 * arithmetic of ECMA-262, section 21.4.1 (DayFromYear, DaysInYear,
 * the month table of MonthFromTime, MakeDay) and the two-digit year
 * rule of the Date constructor (MakeFullYear).
 */
module Calendar {

  /** A month index as getMonth returns it: 0 is January, 11 is December. */
  type MonthIndex = m: nat | m < 12

  /** The local-time calendar fields of a Date object. */
  datatype Date = Date(year: int, month: MonthIndex, day: nat)

  /** The proleptic Gregorian leap-year rule of DaysInYear. */
  predicate IsLeapYear(y: int) {
    y % 4 == 0 && (y % 100 != 0 || y % 400 == 0)
  }

  function DaysInYear(y: int): (r: nat)
    ensures r == 365 || r == 366
    ensures r == 366 <==> IsLeapYear(y)
  {
    if y % 4 != 0 then 365
    else if y % 100 != 0 then 366
    else if y % 400 != 0 then 365
    else 366
  }

  /** Day number (days since 1 January 1970) of 1 January of year y. */
  function DayFromYear(y: int): int {
    365 * (y - 1970) + (y - 1969) / 4 - (y - 1901) / 100 + (y - 1601) / 400
  }

  /** The floor quotients in DayFromYear grow by one exactly at multiples of 4, 100 and 400. */
  lemma QuarterStep(y: int)
    ensures (y - 1968) / 4 - (y - 1969) / 4 == (if y % 4 == 0 then 1 else 0)
  {
    assert (y - 1968) % 4 == 0 <==> y % 4 == 0;
  }

  lemma CenturyStep(y: int)
    ensures (y - 1900) / 100 - (y - 1901) / 100 == (if y % 100 == 0 then 1 else 0)
  {
    assert (y - 1900) % 100 == 0 <==> y % 100 == 0;
  }

  lemma QuadCenturyStep(y: int)
    ensures (y - 1600) / 400 - (y - 1601) / 400 == (if y % 400 == 0 then 1 else 0)
  {
    assert (y - 1600) % 400 == 0 <==> y % 400 == 0;
  }

  /** A multiple of 100 * k is a multiple of 100. */
  lemma HundredsDivide(y: int, k: int)
    requires y == 100 * k
    ensures y % 100 == 0
  {
  }

  /** A multiple of 4 * k is a multiple of 4. */
  lemma FoursDivide(y: int, k: int)
    requires y == 4 * k
    ensures y % 4 == 0
  {
  }

  /** Multiples of 400 are multiples of 100, and those are multiples of 4. */
  lemma DivisibilityChain(y: int)
    ensures y % 400 == 0 ==> y % 100 == 0
    ensures y % 100 == 0 ==> y % 4 == 0
  {
    if y % 400 == 0 {
      HundredsDivide(y, 4 * (y / 400));
    }
    if y % 100 == 0 {
      FoursDivide(y, 25 * (y / 100));
    }
  }

  /** Consecutive DayFromYear values are one year length apart. */
  lemma YearLength(y: int)
    ensures DayFromYear(y + 1) == DayFromYear(y) + DaysInYear(y)
  {
    QuarterStep(y);
    CenturyStep(y);
    QuadCenturyStep(y);
    DivisibilityChain(y);
    assert DayFromYear(y + 1) - DayFromYear(y)
        == 365 + ((y - 1968) / 4 - (y - 1969) / 4) - ((y - 1900) / 100 - (y - 1901) / 100)
           + ((y - 1600) / 400 - (y - 1601) / 400);
  }

  /**
   * Day number of 1 January of year y, counted year by year from 1970.
   * YearStartIsDayFromYear shows that it is DayFromYear.
   */
  function YearStart(y: int): int
    decreases if y < 1970 then 1970 - y else y - 1970
  {
    if y == 1970 then 0
    else if y > 1970 then YearStart(y - 1) + DaysInYear(y - 1)
    else YearStart(y + 1) - DaysInYear(y)
  }

  lemma {:induction false} YearStartIsDayFromYear(y: int)
    ensures YearStart(y) == DayFromYear(y)
    decreases if y < 1970 then 1970 - y else y - 1970
  {
    if y > 1970 {
      YearStartIsDayFromYear(y - 1);
      YearLength(y - 1);
    } else if y < 1970 {
      YearStartIsDayFromYear(y + 1);
      YearLength(y);
    }
  }

  /** Consecutive year starts are one year length apart. */
  lemma YearStartStep(y: int)
    ensures YearStart(y + 1) == YearStart(y) + DaysInYear(y)
  {
  }

  /** Days from 1 January to the first of month m, as MonthFromTime partitions a year. */
  function MonthStart(y: int, m: MonthIndex): nat {
    var leap := if IsLeapYear(y) then 1 else 0;
    if m == 0 then 0
    else if m == 1 then 31
    else if m == 2 then 59 + leap
    else if m == 3 then 90 + leap
    else if m == 4 then 120 + leap
    else if m == 5 then 151 + leap
    else if m == 6 then 181 + leap
    else if m == 7 then 212 + leap
    else if m == 8 then 243 + leap
    else if m == 9 then 273 + leap
    else if m == 10 then 304 + leap
    else 334 + leap
  }

  /** MakeDay: the day number of (year, month, date), any month and date normalised. */
  function MakeDay(year: int, month: int, date: int): int {
    var ym := year + month / 12;
    var mn := month % 12;
    YearStart(ym) + MonthStart(ym, mn) + date - 1
  }

  /** Length of month m of year y in the proleptic Gregorian calendar. */
  function MonthLength(y: int, m: MonthIndex): (r: nat)
    ensures 28 <= r <= 31
  {
    if m == 1 then (if IsLeapYear(y) then 29 else 28)
    else if m == 3 || m == 5 || m == 8 || m == 10 then 30
    else 31
  }

  /** The first day of month m, in terms of YearStart and MonthStart. */
  lemma MonthFirst(y: int, m: MonthIndex)
    ensures MakeDay(y, m, 1) == YearStart(y) + MonthStart(y, m)
  {
    assert m / 12 == 0 && m % 12 == m;
  }

  /** Month 12 of year y is January of the year after. */
  lemma NewYearFirst(y: int)
    ensures MakeDay(y, 12, 1) == YearStart(y) + DaysInYear(y)
  {
    assert 12 / 12 == 1 && 12 % 12 == 0;
    YearStartStep(y);
  }

  /** Consecutive entries of the MonthFromTime table are one month length apart. */
  lemma MonthStartStep(y: int, m: MonthIndex)
    ensures m < 11 ==> MonthStart(y, m + 1) == MonthStart(y, m) + MonthLength(y, m)
    ensures m == 11 ==> DaysInYear(y) == MonthStart(y, m) + MonthLength(y, m)
  {
  }

  /** The fields of a real Date: the day lies within its month. */
  predicate ValidDate(d: Date) {
    1 <= d.day <= MonthLength(d.year, d.month)
  }

  /** The day number a Date denotes. */
  function DayNumber(d: Date): int {
    MakeDay(d.year, d.month, d.day)
  }

  /** A day-of-month counts on from the first of its month. */
  lemma MakeDayFromFirst(y: int, m: MonthIndex, day: int)
    ensures MakeDay(y, m, day) == MakeDay(y, m, 1) + day - 1
  {
  }

  /**
   * The month lengths agree with ECMA-262 day arithmetic: the first of the
   * following month is MonthLength days after the first of month m.
   */
  lemma FollowingFirst(y: int, m: MonthIndex)
    ensures MakeDay(if m == 11 then y + 1 else y, if m == 11 then 0 else m + 1, 1)
         == MakeDay(y, m, 1) + MonthLength(y, m)
  {
    MonthFirst(y, m);
    MonthStartStep(y, m);
    if m == 11 {
      MonthFirst(y + 1, 0);
      NewYearFirst(y);
    } else {
      MonthFirst(y, m + 1);
    }
  }

  /** Stepping back one month while adding that month's length denotes the same day. */
  lemma BackStep(y: int, m: MonthIndex, day: int)
    ensures var py := if m == 0 then y - 1 else y;
            var pm: MonthIndex := if m == 0 then 11 else m - 1;
            MakeDay(py, pm, day + MonthLength(py, pm)) == MakeDay(y, m, day)
  {
    var py := if m == 0 then y - 1 else y;
    var pm: MonthIndex := if m == 0 then 11 else m - 1;
    assert (if pm == 11 then py + 1 else py) == y;
    FollowingFirst(py, pm);
    MakeDayFromFirst(py, pm, day + MonthLength(py, pm));
    MakeDayFromFirst(y, m, day);
  }

  /** Stepping forward one month while subtracting this month's length denotes the same day. */
  lemma ForwardStep(y: int, m: MonthIndex, day: int)
    ensures var ny := if m == 11 then y + 1 else y;
            var nm: MonthIndex := if m == 11 then 0 else m + 1;
            MakeDay(ny, nm, day - MonthLength(y, m)) == MakeDay(y, m, day)
  {
    var ny := if m == 11 then y + 1 else y;
    var nm: MonthIndex := if m == 11 then 0 else m + 1;
    FollowingFirst(y, m);
    MakeDayFromFirst(ny, nm, day - MonthLength(y, m));
    MakeDayFromFirst(y, m, day);
  }

  /**
   * Normalises a day-of-month that may lie before or after month m of
   * year y by stepping whole months back or forward.
   */
  function NormalizeDay(y: int, m: MonthIndex, day: int): (r: Date)
    ensures ValidDate(r)
    ensures DayNumber(r) == MakeDay(y, m, day)
    decreases if day < 1 then -day else day
  {
    if day < 1 then
      var py := if m == 0 then y - 1 else y;
      var pm: MonthIndex := if m == 0 then 11 else m - 1;
      var d := day + MonthLength(py, pm);
      BackStep(y, m, day);
      if d >= 1 then Date(py, pm, d) else NormalizeDay(py, pm, d)
    else if day > MonthLength(y, m) then
      var ny := if m == 11 then y + 1 else y;
      var nm: MonthIndex := if m == 11 then 0 else m + 1;
      var d := day - MonthLength(y, m);
      ForwardStep(y, m, day);
      if d <= MonthLength(ny, nm) then Date(ny, nm, d) else NormalizeDay(ny, nm, d)
    else
      Date(y, m, day)
  }

  /** The Date constructor's year rule: 0..99 stand for 1900..1999. */
  function MakeFullYear(year: int): int {
    if 0 <= year <= 99 then 1900 + year else year
  }

  /** `new Date(year, month, day)` in local time. */
  function NewDate(year: int, month: int, day: int): (r: Date)
    ensures ValidDate(r)
    ensures DayNumber(r) == MakeDay(MakeFullYear(year), month, day)
  {
    MakeDayCarriesMonths(MakeFullYear(year), month, day);
    NormalizeDay(MakeFullYear(year) + month / 12, month % 12, day)
  }

  /** Carrying whole years out of the month first does not change MakeDay. */
  lemma MakeDayCarriesMonths(y: int, month: int, day: int)
    ensures MakeDay(y + month / 12, month % 12, day) == MakeDay(y, month, day)
  {
    var m := month % 12;
    assert 0 <= m < 12;
    assert m / 12 == 0 && m % 12 == m;
  }

  /**
   * daysInMonth as written: the day-of-month of `new Date(y, m + 1, 0)`,
   * the last day of month m. The constructor reads a year 0..99 as 1900..1999.
   */
  function DaysInMonthAsWritten(date: Date): (r: nat)
    ensures !(0 <= date.year <= 99) ==> r == MonthLength(date.year, date.month)
    ensures 0 <= date.year <= 99 ==> r == MonthLength(1900 + date.year, date.month)
  {
    NewDate(date.year, date.month + 1, 0).day
  }

  /** February of year 0 (a leap year) gets the length of February 1900 (not one). */
  lemma TwoDigitYearFebruary()
    ensures DaysInMonthAsWritten(Date(0, 1, 1)) == 28
    ensures DaysInMonth(Date(0, 1, 1)) == 29
  {
    assert !IsLeapYear(1900) && IsLeapYear(0);
  }

  /** daysInMonth as intended: the length of the date's own month. */
  function DaysInMonth(date: Date): (r: nat)
    ensures 28 <= r <= 31
  {
    MonthLength(date.year, date.month)
  }

  /**
   * DaysInMonth is what `new Date(y, m + 1, 0)` yields when the year is
   * taken as it is: day 0 of the following month normalises to the last day
   * of month m.
   */
  lemma DaysInMonthIsDayZero(date: Date)
    ensures NormalizeDay(date.year + (date.month + 1) / 12, (date.month + 1) % 12, 0)
         == Date(date.year, date.month, DaysInMonth(date))
  {
  }

  /** Outside the years 0..99 the code as written and the intended daysInMonth agree. */
  lemma AsWrittenAgrees(date: Date)
    requires !(0 <= date.year <= 99)
    ensures DaysInMonthAsWritten(date) == DaysInMonth(date)
  {
  }

  /** Months since year 0, the quantity month navigation moves by one. */
  function MonthNumber(d: Date): int {
    d.year * 12 + d.month
  }

  /** getActiveMonthDate: the first of the month monthOffset months from today's. */
  function ActiveMonth(today: Date, monthOffset: int): (r: Date)
    ensures ValidDate(r) && r.day == 1
    ensures MonthNumber(r) == MakeFullYear(today.year) * 12 + today.month + monthOffset
    ensures !(0 <= today.year <= 99) ==> MonthNumber(r) == MonthNumber(today) + monthOffset
  {
    NewDate(today.year, today.month + monthOffset, 1)
  }

  /** The first of the month after cur's month comes right after cur's month ends. */
  lemma SuccessorMonth(cur: Date, next: Date)
    requires cur.day == 1 && next.day == 1
    requires MonthNumber(next) == MonthNumber(cur) + 1
    ensures DayNumber(next) == DayNumber(cur) + DaysInMonth(cur)
  {
    assert next.year == (if cur.month == 11 then cur.year + 1 else cur.year);
    assert next.month == (if cur.month == 11 then 0 else cur.month + 1);
    FollowingFirst(cur.year, cur.month);
  }

  /**
   * Moving the offset by one shows the month that immediately follows:
   * its first day comes right after the last day of the current month.
   */
  lemma NextMonthFollows(today: Date, monthOffset: int)
    ensures MonthNumber(ActiveMonth(today, monthOffset + 1)) == MonthNumber(ActiveMonth(today, monthOffset)) + 1
    ensures DayNumber(ActiveMonth(today, monthOffset + 1))
         == DayNumber(ActiveMonth(today, monthOffset)) + DaysInMonth(ActiveMonth(today, monthOffset))
  {
    SuccessorMonth(ActiveMonth(today, monthOffset), ActiveMonth(today, monthOffset + 1));
  }
}
