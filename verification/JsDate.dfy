/**
 * The day arithmetic of ECMAScript `Date` objects (ECMA-262, "Date Objects"): days are counted
 * from 1970-01-01 on the proleptic Gregorian calendar; months are zero-based and dates one-based.
 * Times of day, local-time offsets and non-finite values are not modelled.
 */
module JsDate {

  predicate InLeapYear(y: int)
  {
    y % 4 == 0 && (y % 100 != 0 || y % 400 == 0)
  }

  /** DaysInYear: 366 in a leap year, 365 otherwise. */
  function DaysInYear(y: int): (n: nat)
    ensures n == 365 || n == 366
  {
    if InLeapYear(y) then 366 else 365
  }

  /** DayFromYear: the day number of January 1 of year `y` (floors, as Dafny's `/` is for a positive divisor). */
  function DayFromYear(y: int): int
  {
    365 * (y - 1970) + (y - 1969) / 4 - (y - 1901) / 100 + (y - 1601) / 400
  }

  /** The closed form counts exactly one year's days from each January 1 to the next. */
  lemma DayFromYearStep(y: int)
    ensures DayFromYear(y + 1) == DayFromYear(y) + DaysInYear(y)
  {
    LeapCount(y);
    CenturyCount(y);
    QuadCenturyCount(y);
    LeapDivisors(y);
  }

  /** Each of the three floor terms of DayFromYear grows by one exactly across a multiple of its divisor. */
  lemma LeapCount(y: int)
    ensures (y - 1968) / 4 - (y - 1969) / 4 == if y % 4 == 0 then 1 else 0
  {
  }

  lemma CenturyCount(y: int)
    ensures (y - 1900) / 100 - (y - 1901) / 100 == if y % 100 == 0 then 1 else 0
  {
  }

  lemma QuadCenturyCount(y: int)
    ensures (y - 1600) / 400 - (y - 1601) / 400 == if y % 400 == 0 then 1 else 0
  {
  }

  lemma LeapDivisors(y: int)
    ensures y % 400 == 0 ==> y % 100 == 0
    ensures y % 100 == 0 ==> y % 4 == 0
  {
    if y % 400 == 0 {
      CenturyOfMultiple(4 * (y / 400));
    }
    if y % 100 == 0 {
      QuarterOfMultiple(25 * (y / 100));
    }
  }

  lemma CenturyOfMultiple(k: int)
    ensures (100 * k) % 100 == 0
  {
  }

  lemma QuarterOfMultiple(k: int)
    ensures (4 * k) % 4 == 0
  {
  }

  /** Later years start later: every year ends no later than any later year begins. */
  lemma {:induction false} DayFromYearMonotone(a: int, b: int)
    requires a < b
    ensures DayFromYear(a + 1) <= DayFromYear(b)
    decreases b - a
  {
    if a + 1 < b {
      DayFromYearMonotone(a, b - 1);
      DayFromYearStep(b - 1);
    }
  }

  /** The length of zero-based month `m` of year `y`. */
  function MonthLength(y: int, m: int): (n: nat)
    requires 0 <= m < 12
    ensures 28 <= n <= 31
    ensures m == 1 ==> (n == 29 <==> InLeapYear(y))
  {
    if m == 1 then (if InLeapYear(y) then 29 else 28)
    else if m == 3 || m == 5 || m == 8 || m == 10 then 30
    else 31
  }

  /**
   * The number of days of year `y` before the first of zero-based month `m`: the cumulative
   * day counts of MonthFromTime, one day more from March on in a leap year.
   */
  function DaysBeforeMonth(y: int, m: int): (n: nat)
    requires 0 <= m <= 12
    ensures m == 12 ==> n == DaysInYear(y)
  {
    [0, 31, 59, 90, 120, 151, 181, 212, 243, 273, 304, 334, 365][m] + (if m >= 2 && InLeapYear(y) then 1 else 0)
  }

  /** Consecutive month starts lie exactly one month length apart. */
  lemma DaysBeforeMonthStep(y: int, m: int)
    requires 0 <= m < 12
    ensures DaysBeforeMonth(y, m + 1) == DaysBeforeMonth(y, m) + MonthLength(y, m)
  {
  }

  lemma {:induction false} DaysBeforeMonthMonotone(y: int, a: int, b: int)
    requires 0 <= a < b <= 12
    ensures DaysBeforeMonth(y, a + 1) <= DaysBeforeMonth(y, b)
    decreases b - a
  {
    if a + 1 < b {
      DaysBeforeMonthMonotone(y, a, b - 1);
      DaysBeforeMonthStep(y, b - 1);
    }
  }

  /**
   * MakeDay(year, month, date): the month may lie outside 0..11 and the date outside the month;
   * both roll over into neighbouring months and years. Each twelve months outside 0..11 move the
   * year by one, which is the year `year + floor(month / 12)` and month `month modulo 12` of the
   * standard.
   */
  function MakeDay(year: int, month: int, date: int): int
    decreases if month < 0 then 12 - month else month
  {
    if month >= 12 then MakeDay(year + 1, month - 12, date)
    else if month < 0 then MakeDay(year - 1, month + 12, date)
    else DayFromYear(year) + DaysBeforeMonth(year, month) + date - 1
  }

  /** YearFromTime: the year whose days include day `t`. */
  function YearFromDay(t: int): (y: int)
    ensures DayFromYear(y) <= t < DayFromYear(y + 1)
  {
    if t >= 0 then YearUp(t, 1970) else YearDown(t, 1969)
  }

  function YearUp(t: int, y: int): (r: int)
    requires DayFromYear(y) <= t
    ensures DayFromYear(r) <= t < DayFromYear(r + 1)
    decreases t - DayFromYear(y)
  {
    DayFromYearStep(y);
    if t < DayFromYear(y + 1) then y else YearUp(t, y + 1)
  }

  function YearDown(t: int, y: int): (r: int)
    requires t < DayFromYear(y + 1)
    ensures DayFromYear(r) <= t < DayFromYear(r + 1)
    decreases DayFromYear(y + 1) - t
  {
    DayFromYearStep(y);
    if DayFromYear(y) <= t then y else YearDown(t, y - 1)
  }

  /** Only one year can hold a given day. */
  lemma YearUnique(t: int, a: int, b: int)
    requires DayFromYear(a) <= t < DayFromYear(a + 1)
    requires DayFromYear(b) <= t < DayFromYear(b + 1)
    ensures a == b
  {
    if a < b { DayFromYearMonotone(a, b); }
    if b < a { DayFromYearMonotone(b, a); }
  }

  /** The zero-based month, at or after `m`, that holds day `k` of year `y`. */
  function MonthOfYearDay(y: int, k: int, m: int): (r: int)
    requires 0 <= m < 12 && DaysBeforeMonth(y, m) <= k < DaysInYear(y)
    ensures m <= r < 12 && DaysBeforeMonth(y, r) <= k < DaysBeforeMonth(y, r + 1)
    decreases 12 - m
  {
    if k < DaysBeforeMonth(y, m + 1) then m else MonthOfYearDay(y, k, m + 1)
  }

  /** Only one month of a year can hold a given day of that year. */
  lemma MonthUnique(y: int, k: int, a: int, b: int)
    requires 0 <= a < 12 && DaysBeforeMonth(y, a) <= k < DaysBeforeMonth(y, a + 1)
    requires 0 <= b < 12 && DaysBeforeMonth(y, b) <= k < DaysBeforeMonth(y, b + 1)
    ensures a == b
  {
    if a < b { DaysBeforeMonthMonotone(y, a, b); }
    if b < a { DaysBeforeMonthMonotone(y, b, a); }
  }

  /** DayWithinYear: how many days of its year precede day `t`. */
  function DayWithinYear(t: int): (k: int)
    ensures 0 <= k < DaysInYear(YearFromDay(t))
  {
    var y := YearFromDay(t);
    DayFromYearStep(y);
    t - DayFromYear(y)
  }

  /** MonthFromTime: the zero-based month of day `t`, the one whose days include it. */
  function MonthFromDay(t: int): (m: int)
    ensures 0 <= m < 12
    ensures DaysBeforeMonth(YearFromDay(t), m) <= DayWithinYear(t) < DaysBeforeMonth(YearFromDay(t), m + 1)
  {
    MonthOfYearDay(YearFromDay(t), DayWithinYear(t), 0)
  }

  /** DateFromTime: the one-based day of the month of day `t`. */
  function DateFromDay(t: int): (d: int)
    ensures 1 <= d <= MonthLength(YearFromDay(t), MonthFromDay(t))
  {
    var y, m := YearFromDay(t), MonthFromDay(t);
    DaysBeforeMonthStep(y, m);
    DayWithinYear(t) - DaysBeforeMonth(y, m) + 1
  }

  /** WeekDay: 0 is Sunday, 1 is Monday, ..., 6 is Saturday; day 0 (1970-01-01) was a Thursday. */
  function WeekDay(t: int): (w: int)
    ensures 0 <= w < 7
  {
    (t + 4) % 7
  }

  /** Reading a well-formed date back from its day number gives its year, month and date. */
  lemma DecodeMakeDay(y: int, m: int, d: int)
    requires 0 <= m < 12 && 1 <= d <= MonthLength(y, m)
    ensures YearFromDay(MakeDay(y, m, d)) == y
    ensures MonthFromDay(MakeDay(y, m, d)) == m
    ensures DateFromDay(MakeDay(y, m, d)) == d
  {
    var t := MakeDay(y, m, d);
    var k := DaysBeforeMonth(y, m) + d - 1;
    assert t == DayFromYear(y) + k;
    DaysBeforeMonthStep(y, m);
    DaysBeforeMonthMonotone(y, m, 12);
    DecodeYear(y, t);
    assert DayWithinYear(t) == k;
    MonthUnique(y, k, m, MonthFromDay(t));
  }

  /** A day between two consecutive January 1sts belongs to the earlier one's year. */
  lemma DecodeYear(y: int, t: int)
    requires 0 <= t - DayFromYear(y) < DaysInYear(y)
    ensures YearFromDay(t) == y
  {
    DayFromYearStep(y);
    YearUnique(t, y, YearFromDay(t));
  }

  /** Date 0 of the month after `m` is the last date of `m` (December rolls into the next year). */
  lemma MakeDayDayZero(y: int, m: int)
    requires 0 <= m < 12
    ensures MakeDay(y, m + 1, 0) == MakeDay(y, m, MonthLength(y, m))
  {
    DaysBeforeMonthStep(y, m);
    if m == 11 {
      DayFromYearStep(y);
      assert MakeDay(y, 12, 0) == MakeDay(y + 1, 0, 0) == DayFromYear(y + 1) - 1;
    }
  }

  /** Consecutive dates have consecutive day numbers, across month ends too. */
  lemma MakeDayNextMonth(y: int, m: int)
    requires 0 <= m < 11
    ensures MakeDay(y, m + 1, 1) == MakeDay(y, m, 1) + MonthLength(y, m)
  {
    DaysBeforeMonthStep(y, m);
  }
}
