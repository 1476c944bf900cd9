/**
 * The month geometry of the 2026 calendar screen: the length of the displayed month, the
 * Monday-first column of its first day, month navigation, the `2026-MM-DD` strings of the grid
 * and the month that `new Date(date).getMonth()` reads from an event's date.
 */
module Calendar {
  import opened Types
  import opened JsString
  import JsDate
  import Constants

  /** The one year the screen shows. */
  const Year: int := 2026

  /**
   * `daysInMonth`: the length of zero-based month `currentMonth` of 2026. The screen obtains it
   * as the date of day 0 of the following month; DaysInMonthIsDayZero proves the two agree.
   */
  function DaysInMonth(currentMonth: int): (n: int)
    requires 0 <= currentMonth < 12
    ensures 28 <= n <= 31
    ensures currentMonth == 1 ==> n == 28
  {
    JsDate.MonthLength(Year, currentMonth)
  }

  /** Day 0 of the following month rolls back to the last day of this one, across the year end too. */
  lemma DaysInMonthIsDayZero(currentMonth: int)
    requires 0 <= currentMonth < 12
    ensures DaysInMonth(currentMonth) == JsDate.DateFromDay(JsDate.MakeDay(Year, currentMonth + 1, 0))
  {
    JsDate.MakeDayDayZero(Year, currentMonth);
    JsDate.DecodeMakeDay(Year, currentMonth, JsDate.MonthLength(Year, currentMonth));
  }

  /**
   * `firstDayOfMonth`: the weekday of the 1st (Sunday = 0 .. Saturday = 6) moved to a Monday-first
   * column. Column `c` holds the days whose weekday is `(c + 1) % 7`, and counts the days since
   * the last Monday.
   */
  function FirstDayOfMonth(currentMonth: int): (c: int)
    requires 0 <= currentMonth < 12
    ensures 0 <= c < 7
    ensures c == (DayOfFirst(currentMonth) + 3) % 7
  {
    var t := JsDate.MakeDay(Year, currentMonth, 1);
    MakeDayOfFirst(currentMonth, 1);
    var first := JsDate.WeekDay(t);
    MondayFirstColumn(t);
    if first == 0 then 6 else first - 1
  }

  /** The day number of the 1st of month `currentMonth` of 2026, counted month by month from 1 January. */
  function DayOfFirst(currentMonth: int): int
    requires 0 <= currentMonth < 12
    decreases currentMonth
  {
    if currentMonth == 0 then JsDate.DayFromYear(Year) else DayOfFirst(currentMonth - 1) + DaysInMonth(currentMonth - 1)
  }

  /** Date `d` of a month lies `d - 1` days after its 1st. */
  lemma {:induction false} MakeDayOfFirst(currentMonth: int, d: int)
    requires 0 <= currentMonth < 12
    ensures JsDate.MakeDay(Year, currentMonth, d) == DayOfFirst(currentMonth) + d - 1
    decreases currentMonth
  {
    if currentMonth > 0 {
      MakeDayOfFirst(currentMonth - 1, 1);
      JsDate.MakeDayNextMonth(Year, currentMonth - 1);
    }
  }

  /** Moving Sunday to the end shifts every other weekday one column left. */
  lemma MondayFirstColumn(t: int)
    ensures var w := JsDate.WeekDay(t); (if w == 0 then 6 else w - 1) == (t + 3) % 7
    ensures var w := JsDate.WeekDay(t); w == ((if w == 0 then 6 else w - 1) + 1) % 7
  {
  }

  /** The 1st of the month has the weekday of its column: column `c` is weekday `(c + 1) % 7`. */
  lemma FirstDayWeekday(currentMonth: int)
    requires 0 <= currentMonth < 12
    ensures JsDate.WeekDay(JsDate.MakeDay(Year, currentMonth, 1)) == (FirstDayOfMonth(currentMonth) + 1) % 7
  {
    var t := JsDate.MakeDay(Year, currentMonth, 1);
    MakeDayOfFirst(currentMonth, 1);
    MondayFirstColumn(t);
  }

  /** 1 January 2026 is a Thursday, the fourth column. */
  lemma FirstDayOfJanuary()
    ensures FirstDayOfMonth(0) == 3
    ensures JsDate.WeekDay(JsDate.MakeDay(Year, 0, 1)) == 4
  {
    assert DayOfFirst(0) == 20454;
    FirstDayWeekday(0);
  }

  /** Each month's grid starts in the column after the previous month's last day. */
  lemma FirstDayOfNextMonth(currentMonth: int)
    requires 0 <= currentMonth < 11
    ensures FirstDayOfMonth(currentMonth + 1) == (FirstDayOfMonth(currentMonth) + DaysInMonth(currentMonth)) % 7
  {
    ColumnStep(DayOfFirst(currentMonth), DayOfFirst(currentMonth + 1),
               FirstDayOfMonth(currentMonth), FirstDayOfMonth(currentMonth + 1), DaysInMonth(currentMonth));
  }

  /** Columns of days `n` apart lie `n` columns apart, modulo the week. */
  lemma ColumnStep(t0: int, t1: int, c0: int, c1: int, n: int)
    requires c0 == (t0 + 3) % 7 && c1 == (t1 + 3) % 7 && t1 == t0 + n
    ensures c1 == (c0 + n) % 7
  {
    ShiftColumn(t0, n);
  }

  lemma ShiftColumn(t: int, n: int)
    ensures (t + n + 3) % 7 == ((t + 3) % 7 + n) % 7
  {
  }

  /** `handlePrevMonth`: one month back, January wrapping to December. */
  function PrevMonth(m: int): (r: int)
    requires 0 <= m < 12
    ensures 0 <= r < 12 && (r + 1) % 12 == m
  {
    if m == 0 then 11 else m - 1
  }

  /** `handleNextMonth`: one month on, December wrapping to January. */
  function NextMonth(m: int): (r: int)
    requires 0 <= m < 12
    ensures 0 <= r < 12 && r == (m + 1) % 12
  {
    if m == 11 then 0 else m + 1
  }

  /** Going forward then back, or back then forward, returns to the same month. */
  lemma PrevNextInverse(m: int)
    requires 0 <= m < 12
    ensures PrevMonth(NextMonth(m)) == m && NextMonth(PrevMonth(m)) == m
  {
  }

  /** `k` presses of the next button move `k` months on, modulo twelve. */
  function NextMonthTimes(m: int, k: nat): (r: int)
    requires 0 <= m < 12
    ensures 0 <= r < 12
  {
    if k == 0 then m else NextMonth(NextMonthTimes(m, k - 1))
  }

  lemma {:induction false} NextMonthTimesIsModular(m: int, k: nat)
    requires 0 <= m < 12
    ensures NextMonthTimes(m, k) == (m + k) % 12
  {
    if k > 0 {
      NextMonthTimesIsModular(m, k - 1);
      NextMonthOfResidue(m + k - 1, NextMonthTimes(m, k - 1));
      assert (m + k - 1) + 1 == m + k;
    }
  }

  lemma NextMonthOfResidue(x: int, r: int)
    requires r == x % 12
    ensures NextMonth(r) == (x + 1) % 12
  {
  }

  /** Twelve presses of the next button bring the screen back to the month it started from. */
  lemma TwelveMonthsCycle(m: int)
    requires 0 <= m < 12
    ensures NextMonthTimes(m, 12) == m
  {
    NextMonthTimesIsModular(m, 12);
  }

  /** `String(n).padStart(2, '0')`. */
  function TwoDigit(n: nat): string
  {
    PadStart(NatToString(n), 2, '0')
  }

  /** The `dateStr` of day `d` in the grid of month `currentMonth`. */
  function DateString(currentMonth: int, d: nat): string
    requires 0 <= currentMonth
  {
    "2026-" + TwoDigit(currentMonth + 1) + "-" + TwoDigit(d)
  }

  /** A string shaped YYYY-MM-DD read as numbers; nothing is checked about their ranges. */
  datatype IsoDate = IsoDate(year: nat, month: nat, day: nat)

  predicate IsDateShape(s: string)
  {
    |s| == 10 && s[4] == '-' && s[7] == '-' &&
    AllDigits(s[..4]) && AllDigits(s[5..7]) && AllDigits(s[8..])
  }

  function ParseIsoDate(s: string): (r: Option<IsoDate>)
    ensures r.Some? <==> IsDateShape(s)
    ensures r.Some? ==> r.value.month < 100 && r.value.day < 100
  {
    if IsDateShape(s) then
      TwoDigitValue(s[5..7]);
      TwoDigitValue(s[8..]);
      Some(IsoDate(DecimalValue(s[..4]), DecimalValue(s[5..7]), DecimalValue(s[8..])))
    else None
  }

  lemma TwoDigitValue(t: string)
    requires |t| == 2 && AllDigits(t)
    ensures DecimalValue(t) == 10 * DigitValue(t[0]) + DigitValue(t[1])
  {
    var u := t[..1];
    assert u[..0] == [] && u[0] == t[0];
    assert DecimalValue(u) == DigitValue(t[0]);
  }

  /** A month number 1..12 and a day that exists in that month of that year. */
  predicate IsCalendarDate(d: IsoDate)
  {
    1 <= d.month <= 12 && 1 <= d.day <= JsDate.MonthLength(d.year, d.month - 1)
  }

  /**
   * The month an event date denotes. Only YYYY-MM-DD strings with an existing day are read, giving
   * their zero-based month; every other string gives none, which stands for the `NaN` of an invalid
   * date and equals no month index. `Date` also reads some other forms (YYYY-MM, date-times,
   * expanded years, engine-specific formats); the model does not. The year is parsed but not
   * compared. For YYYY-MM-DD strings with an existing day, MonthOfDateIsGetMonth shows this is
   * `new Date(date).getMonth()`.
   */
  function MonthOfDate(s: string): (r: Option<int>)
    ensures r.Some? ==> 0 <= r.value < 12
  {
    match ParseIsoDate(s)
    case None => None
    case Some(d) => if IsCalendarDate(d) then Some(d.month - 1) else None
  }

  /**
   * `new Date(date).getMonth()` for a YYYY-MM-DD string with an existing day: the string is read as
   * the day MakeDay(year, month - 1, day) and its month taken back by MonthFromTime. For every other
   * string the model gives none, although `Date` reads some of them.
   */
  lemma MonthOfDateIsGetMonth(s: string)
    ensures MonthOfDate(s) ==
            match ParseIsoDate(s)
            case None => None
            case Some(d) =>
              if IsCalendarDate(d) then Some(JsDate.MonthFromDay(JsDate.MakeDay(d.year, d.month - 1, d.day)))
              else None
  {
    match ParseIsoDate(s)
    case None =>
    case Some(d) =>
      if IsCalendarDate(d) {
        JsDate.DecodeMakeDay(d.year, d.month - 1, d.day);
      }
  }

  lemma {:induction false} TwoDigitRoundTrip(n: nat)
    requires n < 100
    ensures |TwoDigit(n)| == 2 && AllDigits(TwoDigit(n)) && DecimalValue(TwoDigit(n)) == n
  {
    TwoDigits(n);
    var t := TwoDigit(n);
    assert t == [DigitChar(n / 10), DigitChar(n % 10)];
    assert DigitValue(t[0]) == n / 10 && DigitValue(t[1]) == n % 10;
    TwoDigitValue(t);
  }

  /** Every grid date string has ten characters and reads back as 2026, the month and the day. */
  lemma DateStringParses(currentMonth: int, d: nat)
    requires 0 <= currentMonth < 12 && d < 100
    ensures |DateString(currentMonth, d)| == 10
    ensures ParseIsoDate(DateString(currentMonth, d)) == Some(IsoDate(2026, currentMonth + 1, d))
  {
    TwoDigitRoundTrip(currentMonth + 1);
    TwoDigitRoundTrip(d);
    ParseOfParts(TwoDigit(currentMonth + 1), TwoDigit(d));
  }

  /** A 2026 date assembled from two two-digit fields reads back as those fields' values. */
  lemma ParseOfParts(mm: string, dd: string)
    requires |mm| == 2 && AllDigits(mm) && |dd| == 2 && AllDigits(dd)
    ensures |"2026-" + mm + "-" + dd| == 10
    ensures ParseIsoDate("2026-" + mm + "-" + dd) == Some(IsoDate(2026, DecimalValue(mm), DecimalValue(dd)))
  {
    var s := "2026-" + mm + "-" + dd;
    assert s[..4] == "2026";
    assert s[5..7] == mm;
    assert s[8..] == dd;
    Value2026();
  }

  lemma Value2026()
    ensures AllDigits("2026") && DecimalValue("2026") == 2026
  {
    assert "2026"[..3] == "202" && "202"[..2] == "20" && "20"[..1] == "2" && "2"[..0] == "";
  }

  /** A 2026 date string whose digits spell month `m + 1` and day `d` is the grid's string for that day. */
  lemma DateStringOfChars(m: int, d: nat, m1: char, m2: char, d1: char, d2: char)
    requires 0 <= m && IsDigit(m1) && IsDigit(m2) && IsDigit(d1) && IsDigit(d2)
    requires m + 1 == 10 * DigitValue(m1) + DigitValue(m2) && d == 10 * DigitValue(d1) + DigitValue(d2)
    ensures DateString(m, d) == "2026-" + [m1, m2] + "-" + [d1, d2]
  {
    TwoDigitOfChars(m + 1, m1, m2);
    TwoDigitOfChars(d, d1, d2);
  }

  /** A ten-character string with the year prefix and the second dash is made of its two fields. */
  lemma SplitDateString(s: string)
    requires |s| == 10 && s[..5] == "2026-" && s[7] == '-'
    ensures s == "2026-" + [s[5], s[6]] + "-" + [s[8], s[9]]
  {
    assert s == s[..5] + [s[5], s[6]] + [s[7]] + [s[8], s[9]];
  }

  lemma TwoDigitOfChars(n: nat, a: char, b: char)
    requires IsDigit(a) && IsDigit(b) && n == 10 * DigitValue(a) + DigitValue(b)
    ensures TwoDigit(n) == [a, b]
  {
    assert n / 10 == DigitValue(a) && n % 10 == DigitValue(b);
    TwoDigits(n);
    DigitCharOfValue(a);
    DigitCharOfValue(b);
  }

  /** Every grid date string starts with the year. */
  lemma DateStringPrefix(currentMonth: int, d: nat)
    requires 0 <= currentMonth
    ensures DateString(currentMonth, d)[..5] == "2026-"
  {
  }

  /** Reading a date string character by character. */
  lemma ParseDateChars(s: string)
    requires |s| == 10 && s[4] == '-' && s[7] == '-' && AllDigits(s[..4])
    requires IsDigit(s[5]) && IsDigit(s[6]) && IsDigit(s[8]) && IsDigit(s[9])
    ensures ParseIsoDate(s).Some?
    ensures ParseIsoDate(s).value.month == 10 * DigitValue(s[5]) + DigitValue(s[6])
    ensures ParseIsoDate(s).value.day == 10 * DigitValue(s[8]) + DigitValue(s[9])
  {
    assert s[5..7] == [s[5], s[6]] && s[8..] == [s[8], s[9]];
    TwoDigitValue(s[5..7]);
    TwoDigitValue(s[8..]);
  }

  /** Distinct days (or months) give distinct date strings. */
  lemma DateStringInjective(m1: int, d1: nat, m2: int, d2: nat)
    requires 0 <= m1 < 12 && d1 < 100 && 0 <= m2 < 12 && d2 < 100
    requires DateString(m1, d1) == DateString(m2, d2)
    ensures m1 == m2 && d1 == d2
  {
    DateStringParses(m1, d1);
    DateStringParses(m2, d2);
  }

  /** The date string of a day shown in month `currentMonth`'s grid lies in that month. */
  lemma DateStringMonth(currentMonth: int, d: nat)
    requires 0 <= currentMonth < 12 && 1 <= d <= DaysInMonth(currentMonth)
    ensures MonthOfDate(DateString(currentMonth, d)) == Some(currentMonth)
  {
    DateStringParses(currentMonth, d);
    MonthOfParsed(DateString(currentMonth, d), IsoDate(2026, currentMonth + 1, d));
  }

  lemma MonthOfParsed(s: string, p: IsoDate)
    requires ParseIsoDate(s) == Some(p) && IsCalendarDate(p)
    ensures MonthOfDate(s) == Some(p.month - 1)
  {
  }

  /**
   * Conversely, a well-formed 2026 date is exactly the string the grid builds for its day, so an
   * event with such a date is shown in that day's cell.
   */
  lemma CanonicalDateString(s: string)
    requires ParseIsoDate(s).Some? && ParseIsoDate(s).value.year == 2026
    requires 1 <= ParseIsoDate(s).value.month
    ensures s == DateString(ParseIsoDate(s).value.month - 1, ParseIsoDate(s).value.day)
  {
    var d := ParseIsoDate(s).value;
    ParseDateChars(s);
    YearPrefix(s);
    SplitDateString(s);
    DateStringOfChars(d.month - 1, d.day, s[5], s[6], s[8], s[9]);
  }

  lemma YearPrefix(s: string)
    requires IsDateShape(s) && DecimalValue(s[..4]) == 2026
    ensures s[..5] == "2026-"
  {
    YearDigits(s[..4]);
    assert s[..5] == s[..4] + [s[4]];
  }

  lemma YearDigits(t: string)
    requires |t| == 4 && AllDigits(t) && DecimalValue(t) == 2026
    ensures t == "2026"
  {
    var a, b, c, e := DigitValue(t[0]), DigitValue(t[1]), DigitValue(t[2]), DigitValue(t[3]);
    TwoDigitValue(t[..2]);
    assert t[..3][..2] == t[..2];
    assert DecimalValue(t[..3]) == 100 * a + 10 * b + c;
    assert 1000 * a + 100 * b + 10 * c + e == 2026;
    DigitCharOfValue(t[0]);
    DigitCharOfValue(t[1]);
    DigitCharOfValue(t[2]);
    DigitCharOfValue(t[3]);
  }

  /** Column headings: Monday is "Thứ 2" through Saturday "Thứ 7", then Sunday "Chủ Nhật". */
  lemma WeekdayLabels()
    ensures |Constants.DaysOfWeek| == 7
    ensures forall c :: 0 <= c < 6 ==> Constants.DaysOfWeek[c] == "Thứ " + NatToString(c + 2)
    ensures Constants.DaysOfWeek[6] == "Chủ Nhật"
  {
    forall c | 0 <= c < 6 ensures Constants.DaysOfWeek[c] == "Thứ " + NatToString(c + 2) {
      assert NatToString(c + 2) == [DigitChar(c + 2)];
    }
  }

  /** Month names: entry `i` is "Tháng " followed by the month's one-based number. */
  lemma MonthLabels()
    ensures |Constants.Months| == 12
    ensures forall i :: 0 <= i < 12 ==> Constants.Months[i] == "Tháng " + NatToString(i + 1)
  {
    forall i | 0 <= i < 12 ensures Constants.Months[i] == "Tháng " + NatToString(i + 1) {
      if i < 9 {
        assert NatToString(i + 1) == [DigitChar(i + 1)];
      } else {
        assert NatToString(i + 1) == ['1', DigitChar(i - 9)];
      }
    }
  }
}
