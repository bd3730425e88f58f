/**
 * Local calendar arithmetic as the JavaScript Date constructor performs it:
 * proleptic Gregorian years, 0-based month indices that are normalised into
 * the year, day 0 as the last day of the previous month, and the two-digit
 * year rule. Days are numbered from 1970-01-01 (day 0); instants within a
 * day are local seconds since that date's midnight.
 */
module Calendar {

  const SecondsPerDay := 86400

  /** Days from 0001-01-01 to 1970-01-01. */
  const UnixEpochDay := 719162

  predicate IsLeapYear(y: int) {
    y % 4 == 0 && (y % 100 != 0 || y % 400 == 0)
  }

  /** Number of days of the 1-indexed month m of year y. */
  function DaysInMonth(y: int, m: int): (n: int)
    requires 1 <= m <= 12
    ensures 28 <= n <= 31
  {
    if m == 2 then (if IsLeapYear(y) then 29 else 28)
    else if m == 4 || m == 6 || m == 9 || m == 11 then 30
    else 31
  }

  function DaysInYear(y: int): int {
    if IsLeapYear(y) then 366 else 365
  }

  /** Days from 0001-01-01 to January 1st of year y. */
  function DaysBeforeYear(y: int): int {
    365 * (y - 1) + (y - 1) / 4 - (y - 1) / 100 + (y - 1) / 400
  }

  /** Days from January 1st to the first day of the 1-indexed month m (m == 13: the whole year). */
  function DaysBeforeMonth(y: int, m: int): int
    requires 1 <= m <= 13
  {
    if m == 1 then 0 else DaysBeforeMonth(y, m - 1) + DaysInMonth(y, m - 1)
  }

  /** Day number (days since 1970-01-01) of the date y-m-d, for a 1-indexed month. */
  function DayNumber(y: int, m: int, d: int): int
    requires 1 <= m <= 12
  {
    DaysBeforeYear(y) + DaysBeforeMonth(y, m) + d - 1 - UnixEpochDay
  }

  /** The year argument of `new Date(year, month, ...)`: 0..99 stand for 1900..1999. */
  function FullYear(y: int): int {
    if 0 <= y <= 99 then 1900 + y else y
  }

  /** Year and 1-indexed month that a (possibly out-of-range) 0-based month index falls in. */
  function NormalYear(y: int, monthIndex: int): int {
    y + monthIndex / 12
  }

  function NormalMonth(monthIndex: int): (m: int)
    ensures 1 <= m <= 12
  {
    monthIndex % 12 + 1
  }

  /**
   * Day number of `new Date(year, monthIndex, date)`: the month index is
   * normalised into the year, and the date counts from the first of that
   * month, so date 0 is the last day of the previous month.
   */
  function DateDay(year: int, monthIndex: int, date: int): int {
    var y := FullYear(year);
    DayNumber(NormalYear(y, monthIndex), NormalMonth(monthIndex), 1) + date - 1
  }

  /** A closed interval of local instants, in seconds since 1970-01-01 00:00:00. */
  datatype Interval = Interval(start: int, end: int)

  /** Local instant of midnight of a day. */
  function Midnight(day: int): int {
    day * SecondsPerDay
  }

  /**
   * The range of a summary month: `new Date(year, monthIndex, 1)` to
   * `new Date(year, monthIndex + 1, 0, 23, 59, 59)`.
   */
  function MonthRange(year: int, monthIndex: int): Interval {
    Interval(Midnight(DateDay(year, monthIndex, 1)),
             Midnight(DateDay(year, monthIndex + 1, 0)) + 23 * 3600 + 59 * 60 + 59)
  }

  predicate Contains(iv: Interval, instant: int) {
    iv.start <= instant <= iv.end
  }

  // ---------------------------------------------------------------------
  // Lemmas

  lemma EpochDay()
    ensures DaysBeforeYear(1970) == UnixEpochDay
  {
  }

  /** Floor division by a positive constant steps by one exactly at multiples. */
  lemma FloorDivStep(x: int, k: int)
    requires k == 4 || k == 12 || k == 100 || k == 400
    ensures (x + 1) / k - x / k == if (x + 1) % k == 0 then 1 else 0
  {
  }

  /** Consecutive years are DaysInYear apart: the leap rule and the day count agree. */
  lemma {:induction false} YearLength(y: int)
    ensures DaysBeforeYear(y + 1) - DaysBeforeYear(y) == DaysInYear(y)
  {
    FloorDivStep(y - 1, 4);
    FloorDivStep(y - 1, 100);
    FloorDivStep(y - 1, 400);
    DivisibleChain(y);
    var leaps := (y / 4 - (y - 1) / 4) - (y / 100 - (y - 1) / 100) + (y / 400 - (y - 1) / 400);
    assert DaysBeforeYear(y + 1) - DaysBeforeYear(y) == 365 + leaps;
    assert leaps == if IsLeapYear(y) then 1 else 0;
  }

  /** A multiple of 400 is one of 100, and a multiple of 100 is one of 4. */
  lemma DivisibleChain(y: int)
    ensures y % 400 == 0 ==> y % 100 == 0
    ensures y % 100 == 0 ==> y % 4 == 0
  {
    if y % 400 == 0 {
      var q := 4 * (y / 400);
      assert y == 100 * q;
      assert y % 100 == 100 * (q - y / 100);
    }
    if y % 100 == 0 {
      var q := 25 * (y / 100);
      assert y == 4 * q;
      assert y % 4 == 4 * (q - y / 4);
    }
  }

  /** All twelve months together make up the year. */
  lemma MonthsMakeYear(y: int)
    ensures DaysBeforeMonth(y, 13) == DaysInYear(y)
  {
    assert DaysBeforeMonth(y, 2) == 31;
    assert DaysBeforeMonth(y, 3) == 31 + DaysInMonth(y, 2);
    assert DaysBeforeMonth(y, 4) == 62 + DaysInMonth(y, 2);
    assert DaysBeforeMonth(y, 5) == 92 + DaysInMonth(y, 2);
    assert DaysBeforeMonth(y, 6) == 123 + DaysInMonth(y, 2);
    assert DaysBeforeMonth(y, 7) == 153 + DaysInMonth(y, 2);
    assert DaysBeforeMonth(y, 8) == 184 + DaysInMonth(y, 2);
    assert DaysBeforeMonth(y, 9) == 215 + DaysInMonth(y, 2);
    assert DaysBeforeMonth(y, 10) == 245 + DaysInMonth(y, 2);
    assert DaysBeforeMonth(y, 11) == 276 + DaysInMonth(y, 2);
    assert DaysBeforeMonth(y, 12) == 306 + DaysInMonth(y, 2);
  }

  /** The first day of the next month (in the same year or the next) follows the last day of month m. */
  lemma NextMonthStart(y: int, m: int)
    requires 1 <= m <= 12
    ensures m < 12 ==> DayNumber(y, m + 1, 1) == DayNumber(y, m, 1) + DaysInMonth(y, m)
    ensures m == 12 ==> DayNumber(y + 1, 1, 1) == DayNumber(y, 12, 1) + 31
  {
    if m == 12 {
      YearLength(y);
      MonthsMakeYear(y);
    }
  }

  /** Normalising month index i + 1 moves to the next month, wrapping December into January of the next year. */
  lemma NormalSuccessor(y: int, i: int)
    ensures NormalMonth(i) < 12 ==> NormalYear(y, i + 1) == NormalYear(y, i) && NormalMonth(i + 1) == NormalMonth(i) + 1
    ensures NormalMonth(i) == 12 ==> NormalYear(y, i + 1) == NormalYear(y, i) + 1 && NormalMonth(i + 1) == 1
  {
    FloorDivStep(i, 12);
  }

  /**
   * The summary range of any month index runs from the first of the
   * (normalised) month at 00:00:00 to its last day at 23:59:59, so it spans
   * exactly DaysInMonth days.
   */
  lemma {:induction false} MonthRangeBounds(year: int, monthIndex: int)
    ensures var y, m := NormalYear(FullYear(year), monthIndex), NormalMonth(monthIndex);
      && MonthRange(year, monthIndex).start == Midnight(DayNumber(y, m, 1))
      && MonthRange(year, monthIndex).end == Midnight(DayNumber(y, m, DaysInMonth(y, m))) + SecondsPerDay - 1
  {
    var fy := FullYear(year);
    var y, m := NormalYear(fy, monthIndex), NormalMonth(monthIndex);
    NormalSuccessor(fy, monthIndex);
    NextMonthStart(y, m);
  }

  /** A record dated at the midnight of `day` falls in a month's range iff the day is one of that month's days. */
  lemma {:induction false} MonthRangeContains(year: int, monthIndex: int, day: int)
    ensures var y, m := NormalYear(FullYear(year), monthIndex), NormalMonth(monthIndex);
      Contains(MonthRange(year, monthIndex), Midnight(day)) <==>
        DayNumber(y, m, 1) <= day <= DayNumber(y, m, DaysInMonth(y, m))
  {
    MonthRangeBounds(year, monthIndex);
  }

  /** For a 1-indexed month of a four-digit year, the range covers exactly that month's days. */
  lemma MonthRangeOfMonth(year: int, month: int, day: int)
    requires 1 <= month <= 12 && year >= 100
    ensures Contains(MonthRange(year, month - 1), Midnight(day)) <==>
      DayNumber(year, month, 1) <= day <= DayNumber(year, month, DaysInMonth(year, month))
  {
    assert FullYear(year) == year;
    assert NormalYear(year, month - 1) == year && NormalMonth(month - 1) == month;
    MonthRangeContains(year, month - 1, day);
  }

  /** Month 2 (index 1) of 2024 runs from 1 Feb 00:00:00 to 29 Feb 23:59:59: 2024 is a leap year. */
  lemma February2024()
    ensures MonthRange(2024, 1).start == Midnight(DayNumber(2024, 2, 1))
    ensures MonthRange(2024, 1).end == Midnight(DayNumber(2024, 2, 29)) + 23 * 3600 + 59 * 60 + 59
    ensures DayNumber(2024, 2, 1) == 19754
  {
    assert FullYear(2024) == 2024;
    assert NormalYear(2024, 1) == 2024 && NormalMonth(1) == 2;
    assert DaysInMonth(2024, 2) == 29 by { assert IsLeapYear(2024); }
    MonthRangeBounds(2024, 1);
    assert DaysBeforeYear(2024) == 738885;
    assert DaysBeforeMonth(2024, 2) == 31;
  }

  /** A 1-indexed month 13 is January of the following year, and month 0 is December of the previous one. */
  lemma MonthOverflow(year: int)
    requires year >= 101
    ensures MonthRange(year, 12) == MonthRange(year + 1, 0)
    ensures MonthRange(year, -1) == MonthRange(year - 1, 11)
  {
    assert NormalYear(year, 12) == year + 1 && NormalMonth(12) == 1;
    assert NormalYear(year, 13) == year + 1 && NormalMonth(13) == 2;
    assert NormalYear(year + 1, 1) == year + 1 && NormalMonth(1) == 2;
    assert NormalYear(year, -1) == year - 1 && NormalMonth(-1) == 12;
    assert NormalYear(year, 0) == year && NormalMonth(0) == 1;
    assert NormalYear(year - 1, 11) == year - 1 && NormalMonth(11) == 12;
    assert NormalYear(year - 1, 12) == year && NormalMonth(12) == 1;
  }
}
