/**
 * The event list of the calendar screen as values: the holiday seed, the guard on adding,
 * deletion by id, the events of one grid day, and the month list of the sidebar.
 */
module EventStore {
  import opened Types
  import opened JsString
  import opened JsArray
  import opened Constants
  import opened Calendar
  import JsDate

  /** The first-run map over the holiday list: one `holiday` event per entry, in order, with the given ids. */
  function SeedEvents(entries: seq<HolidayEntry>, ids: seq<string>): (r: seq<CalendarEvent>)
    requires |ids| == |entries|
    ensures |r| == |entries|
    ensures forall i :: 0 <= i < |r| ==>
              r[i] == CalendarEvent(ids[i], entries[i].title, None, entries[i].date, Holiday)
  {
    if entries == [] then []
    else [CalendarEvent(ids[0], entries[0].title, None, entries[0].date, Holiday)] + SeedEvents(entries[1..], ids[1..])
  }

  /** The seed list: nine holidays, each dated by the grid's string of a day that exists in 2026. */
  lemma HolidayDates()
    ensures |Holidays2026| == 9
    ensures forall i :: 0 <= i < 9 ==> Holidays2026[i].date == DateString(HolidayMonth(i), HolidayDay(i))
    ensures forall i :: 0 <= i < 9 ==> 1 <= HolidayDay(i) <= DaysInMonth(HolidayMonth(i))
  {
    forall i | 0 <= i < 9
      ensures Holidays2026[i].date == DateString(HolidayMonth(i), HolidayDay(i))
    {
      HolidayDate(i);
    }
    forall i | 0 <= i < 9 ensures 1 <= HolidayDay(i) <= DaysInMonth(HolidayMonth(i)) {
      HolidayDayValid(i);
    }
  }

  /** Every holiday has a title. */
  lemma HolidayTitles()
    ensures |Holidays2026| == 9
    ensures forall i :: 0 <= i < 9 ==> Holidays2026[i].title != ""
  {
  }

  /** The holiday dates strictly increase in string order. */
  lemma HolidayOrder()
    ensures |Holidays2026| == 9
    ensures forall i, j :: 0 <= i < j < 9 ==> LexLt(Holidays2026[i].date, Holidays2026[j].date)
  {
    var dates := seq(9, i requires 0 <= i < 9 => Holidays2026[i].date);
    assert ChainIncreasing(dates) by {
      forall i | 0 <= i < 8 ensures LexLt(dates[i], dates[i + 1]) {
        HolidayStep(i);
      }
    }
    forall i, j | 0 <= i < j < 9 ensures LexLt(Holidays2026[i].date, Holidays2026[j].date) {
      ChainIncreasingPairwise(dates, i, j);
    }
  }

  /** The zero-based month and the day of holiday `i`. */
  function HolidayMonth(i: int): (m: int)
    requires 0 <= i < 9
    ensures 0 <= m < 12
  {
    [0, 1, 1, 1, 2, 3, 4, 8, 11][i]
  }

  function HolidayDay(i: int): (d: nat)
    requires 0 <= i < 9
    ensures 1 <= d <= 31
  {
    [1, 17, 18, 19, 26, 30, 1, 2, 25][i]
  }

  /** Each seed date is the grid's date string of its day (checked in three groups to keep each proof small). */
  lemma HolidayDate(i: int)
    requires 0 <= i < 9
    ensures Holidays2026[i].date == DateString(HolidayMonth(i), HolidayDay(i))
  {
    if i < 3 {
      HolidayDateFirst(i);
    } else if i < 6 {
      HolidayDateMiddle(i);
    } else {
      HolidayDateLast(i);
    }
  }

  lemma HolidayDateFirst(i: int)
    requires 0 <= i < 3
    ensures Holidays2026[i].date == DateString(HolidayMonth(i), HolidayDay(i))
  {
    if i == 0 {
      HolidayDateAt(i, 0, 1, '0', '1', '0', '1');
    } else if i == 1 {
      HolidayDateAt(i, 1, 17, '0', '2', '1', '7');
    } else {
      HolidayDateAt(i, 1, 18, '0', '2', '1', '8');
    }
  }

  lemma HolidayDateMiddle(i: int)
    requires 3 <= i < 6
    ensures Holidays2026[i].date == DateString(HolidayMonth(i), HolidayDay(i))
  {
    if i == 3 {
      HolidayDateAt(i, 1, 19, '0', '2', '1', '9');
    } else if i == 4 {
      HolidayDateAt(i, 2, 26, '0', '3', '2', '6');
    } else {
      HolidayDateAt(i, 3, 30, '0', '4', '3', '0');
    }
  }

  lemma HolidayDateLast(i: int)
    requires 6 <= i < 9
    ensures Holidays2026[i].date == DateString(HolidayMonth(i), HolidayDay(i))
  {
    if i == 6 {
      HolidayDateAt(i, 4, 1, '0', '5', '0', '1');
    } else if i == 7 {
      HolidayDateAt(i, 8, 2, '0', '9', '0', '2');
    } else {
      HolidayDateAt(i, 11, 25, '1', '2', '2', '5');
    }
  }

  lemma HolidayDateAt(i: int, m: int, d: nat, m1: char, m2: char, d1: char, d2: char)
    requires 0 <= i < 9 && m == HolidayMonth(i) && d == HolidayDay(i)
    requires IsDigit(m1) && IsDigit(m2) && IsDigit(d1) && IsDigit(d2)
    requires m + 1 == 10 * DigitValue(m1) + DigitValue(m2) && d == 10 * DigitValue(d1) + DigitValue(d2)
    requires Holidays2026[i].date == "2026-" + [m1, m2] + "-" + [d1, d2]
    ensures Holidays2026[i].date == DateString(HolidayMonth(i), HolidayDay(i))
  {
    DateStringOfChars(m, d, m1, m2, d1, d2);
  }

  lemma HolidayDayValid(i: int)
    requires 0 <= i < 9
    ensures 1 <= HolidayDay(i) <= DaysInMonth(HolidayMonth(i))
  {
    var m := HolidayMonth(i);
    assert DaysInMonth(m) == JsDate.MonthLength(Year, m);
    assert HolidayDay(i) <= JsDate.MonthLength(Year, m);
  }

  lemma HolidayStep(i: int)
    requires 0 <= i < 8
    ensures LexLt(Holidays2026[i].date, Holidays2026[i + 1].date)
  {
    if i == 0 {
      LexLtFirstDiff(Holidays2026[i].date, Holidays2026[i + 1].date, 6);
    } else if i == 1 {
      LexLtFirstDiff(Holidays2026[i].date, Holidays2026[i + 1].date, 9);
    } else if i == 2 {
      LexLtFirstDiff(Holidays2026[i].date, Holidays2026[i + 1].date, 9);
    } else if i == 3 {
      LexLtFirstDiff(Holidays2026[i].date, Holidays2026[i + 1].date, 6);
    } else if i == 4 {
      LexLtFirstDiff(Holidays2026[i].date, Holidays2026[i + 1].date, 6);
    } else if i == 5 {
      LexLtFirstDiff(Holidays2026[i].date, Holidays2026[i + 1].date, 6);
    } else if i == 6 {
      LexLtFirstDiff(Holidays2026[i].date, Holidays2026[i + 1].date, 6);
    } else {
      LexLtFirstDiff(Holidays2026[i].date, Holidays2026[i + 1].date, 5);
    }
  }

  /** Seeding copies every holiday as a `holiday` event; the dates are pairwise distinct. */
  lemma SeedEventsFacts(ids: seq<string>)
    requires |ids| == |Holidays2026|
    ensures |SeedEvents(Holidays2026, ids)| == 9
    ensures forall i :: 0 <= i < 9 ==> SeedEvents(Holidays2026, ids)[i].kind == Holiday
    ensures forall i :: 0 <= i < 9 ==> SeedEvents(Holidays2026, ids)[i].title != ""
    ensures forall i, j :: 0 <= i < j < 9 ==> SeedEvents(Holidays2026, ids)[i].date != SeedEvents(Holidays2026, ids)[j].date
  {
    HolidayTitles();
    HolidayOrder();
  }

  /** `addEvent`'s guard: a selected day that is a non-empty string, and a title that is not blank after trimming. */
  function CanAdd(selectedDay: Option<string>, title: string): (ok: bool)
    ensures ok <==> selectedDay.Some? && selectedDay.value != "" && !AllWhitespace(title)
  {
    TrimEmptyIff(title);
    !(selectedDay.None? || selectedDay.value == "" || Trim(title) == "")
  }

  /** The predicates the filters of the screen use. */
  function HasDate(date: string): CalendarEvent -> bool { (e: CalendarEvent) => e.date == date }

  function IdIsNot(id: string): CalendarEvent -> bool { (e: CalendarEvent) => e.id != id }

  function IdIs(id: string): CalendarEvent -> bool { (e: CalendarEvent) => e.id == id }

  function InMonth(m: int): CalendarEvent -> bool { (e: CalendarEvent) => MonthOfDate(e.date) == Some(m) }

  function DateKey(e: CalendarEvent): string { e.date }

  /** `deleteEvent`: keep the events whose id differs. */
  function RemoveById(events: seq<CalendarEvent>, id: string): seq<CalendarEvent>
  {
    Filter(events, IdIsNot(id))
  }

  /** Deleting removes every event with that id, keeps all others, and keeps their order. */
  lemma RemoveByIdSpec(events: seq<CalendarEvent>, id: string)
    ensures forall e :: e in RemoveById(events, id) <==> e in events && e.id != id
    ensures forall e: CalendarEvent :: e.id != id ==> multiset(RemoveById(events, id))[e] == multiset(events)[e]
    ensures IsSubsequence(RemoveById(events, id), events)
    ensures |RemoveById(events, id)| + |Filter(events, IdIs(id))| == |events|
  {
    var r := RemoveById(events, id);
    forall e | e in events && e.id != id ensures e in r {
      var i :| 0 <= i < |events| && events[i] == e;
    }
    forall e: CalendarEvent | e.id != id ensures multiset(r)[e] == multiset(events)[e] {
      FilterMultiset(events, IdIsNot(id), e);
    }
    FilterIsSubsequence(events, IdIsNot(id));
    FilterPartition(events, IdIsNot(id), IdIs(id));
  }

  /** Deleting an id that no event has changes nothing. */
  lemma RemoveAbsentId(events: seq<CalendarEvent>, id: string)
    requires forall e :: e in events ==> e.id != id
    ensures RemoveById(events, id) == events
  {
    FilterKeepsAll(events, IdIsNot(id));
  }

  /** Deleting the same id twice is the same as deleting it once. */
  lemma RemoveByIdIdempotent(events: seq<CalendarEvent>, id: string)
    ensures RemoveById(RemoveById(events, id), id) == RemoveById(events, id)
  {
    FilterIdempotent(events, IdIsNot(id));
  }

  /** When exactly one event has the id, deleting it shortens the list by exactly one. */
  lemma RemoveUniqueId(events: seq<CalendarEvent>, id: string, k: int)
    requires 0 <= k < |events| && events[k].id == id
    requires forall i :: 0 <= i < |events| && i != k ==> events[i].id != id
    ensures |RemoveById(events, id)| == |events| - 1
  {
    RemoveByIdSpec(events, id);
    FilterSlice(events, IdIs(id), k, k + 1);
  }

  /** Deleting the id of an appended event undoes the append, and removes any older event with that id too. */
  lemma RemoveAppended(events: seq<CalendarEvent>, e: CalendarEvent)
    ensures RemoveById(events + [e], e.id) == RemoveById(events, e.id)
    ensures (forall x :: x in events ==> x.id != e.id) ==> RemoveById(events + [e], e.id) == events
  {
    FilterAppend(events, [e], IdIsNot(e.id));
    assert [e][1..] == [];
    if forall x :: x in events ==> x.id != e.id {
      RemoveAbsentId(events, e.id);
    }
  }

  /** The events shown in the cell of `date`. */
  function EventsOn(events: seq<CalendarEvent>, date: string): seq<CalendarEvent>
  {
    Filter(events, HasDate(date))
  }

  /** A day's cell shows exactly the events with that date, each as often as stored, in insertion order. */
  lemma EventsOnSpec(events: seq<CalendarEvent>, date: string)
    ensures forall e :: e in EventsOn(events, date) <==> e in events && e.date == date
    ensures forall e :: multiset(EventsOn(events, date))[e] == if e.date == date then multiset(events)[e] else 0
    ensures IsSubsequence(EventsOn(events, date), events)
  {
    var r := EventsOn(events, date);
    forall e | e in events && e.date == date ensures e in r {
      var i :| 0 <= i < |events| && events[i] == e;
    }
    forall e: CalendarEvent ensures multiset(r)[e] == if e.date == date then multiset(events)[e] else 0 {
      FilterMultiset(events, HasDate(date), e);
    }
    FilterIsSubsequence(events, HasDate(date));
  }

  /** An appended event shows up last in the cell of its date, and no other cell changes. */
  lemma AppendShowsOnItsDay(events: seq<CalendarEvent>, e: CalendarEvent, date: string)
    ensures EventsOn(events + [e], date) ==
            if e.date == date then EventsOn(events, date) + [e] else EventsOn(events, date)
  {
    FilterAppend(events, [e], HasDate(date));
    assert [e][1..] == [];
  }

  /** The sidebar list: the events of month `m`, sorted by date string. */
  function MonthEvents(events: seq<CalendarEvent>, m: int): seq<CalendarEvent>
  {
    SortBy(Filter(events, InMonth(m)), DateKey)
  }

  /**
   * The sidebar list is ascending by date, is a permutation of the events whose date lies in
   * month `m`, and keeps insertion order among events of the same date.
   */
  lemma MonthEventsSpec(events: seq<CalendarEvent>, m: int)
    ensures SortedBy(MonthEvents(events, m), DateKey)
    ensures multiset(MonthEvents(events, m)) == multiset(Filter(events, InMonth(m)))
    ensures forall e :: e in MonthEvents(events, m) <==> e in events && MonthOfDate(e.date) == Some(m)
    ensures forall d :: Filter(MonthEvents(events, m), KeyIs(DateKey, d)) ==
                        Filter(Filter(events, InMonth(m)), KeyIs(DateKey, d))
  {
    var f := Filter(events, InMonth(m));
    SortBySorted(f, DateKey);
    forall d ensures Filter(MonthEvents(events, m), KeyIs(DateKey, d)) == Filter(f, KeyIs(DateKey, d)) {
      SortByStable(f, DateKey, d);
    }
    forall e ensures e in MonthEvents(events, m) <==> e in f {
      assert e in multiset(MonthEvents(events, m)) <==> e in multiset(f);
    }
    forall e | e in events && MonthOfDate(e.date) == Some(m) ensures e in f {
      var i :| 0 <= i < |events| && events[i] == e;
    }
  }

  /**
   * For an event dated in 2026 the sidebar of month `m` and the grid of month `m` agree: the
   * event is listed exactly when some day cell of that month shows it, and that cell is unique.
   */
  lemma SidebarMatchesGrid(events: seq<CalendarEvent>, m: int, e: CalendarEvent)
    requires 0 <= m < 12 && e in events
    requires ParseIsoDate(e.date).Some? && ParseIsoDate(e.date).value.year == 2026
    ensures e in MonthEvents(events, m) <==>
            exists d :: 1 <= d <= DaysInMonth(m) && e in EventsOn(events, DateString(m, d))
    ensures forall d1, d2 ::
              (1 <= d1 <= DaysInMonth(m) && 1 <= d2 <= DaysInMonth(m) &&
               e in EventsOn(events, DateString(m, d1)) && e in EventsOn(events, DateString(m, d2))) ==> d1 == d2
  {
    if e in MonthEvents(events, m) {
      SidebarToGrid(events, m, e);
    }
    forall d | 1 <= d <= DaysInMonth(m) && e in EventsOn(events, DateString(m, d))
      ensures e in MonthEvents(events, m)
    {
      GridToSidebar(events, m, e, d);
    }
    forall d1, d2 | 1 <= d1 <= DaysInMonth(m) && 1 <= d2 <= DaysInMonth(m) &&
                    e in EventsOn(events, DateString(m, d1)) && e in EventsOn(events, DateString(m, d2))
      ensures d1 == d2
    {
      EventsOnSpec(events, DateString(m, d1));
      EventsOnSpec(events, DateString(m, d2));
      DateStringInjective(m, d1, m, d2);
    }
  }

  /** A listed 2026 event sits in the cell of its own day. */
  lemma SidebarToGrid(events: seq<CalendarEvent>, m: int, e: CalendarEvent)
    requires 0 <= m < 12 && e in MonthEvents(events, m)
    requires ParseIsoDate(e.date).Some? && ParseIsoDate(e.date).value.year == 2026
    ensures 1 <= ParseIsoDate(e.date).value.day <= DaysInMonth(m)
    ensures e in EventsOn(events, DateString(m, ParseIsoDate(e.date).value.day))
  {
    MonthEventsSpec(events, m);
    var p := ParseIsoDate(e.date).value;
    assert e in events && MonthOfDate(e.date) == Some(m);
    assert p.month == m + 1;
    CanonicalDateString(e.date);
    EventsOnSpec(events, DateString(m, p.day));
  }

  /** An event shown in a cell of month `m` is listed in that month's sidebar. */
  lemma GridToSidebar(events: seq<CalendarEvent>, m: int, e: CalendarEvent, d: int)
    requires 0 <= m < 12 && 1 <= d <= DaysInMonth(m) && e in EventsOn(events, DateString(m, d))
    ensures e in MonthEvents(events, m)
  {
    EventsOnSpec(events, DateString(m, d));
    DateStringMonth(m, d);
    MonthEventsSpec(events, m);
  }

  /**
   * The sidebar compares months only: an event dated in another year is listed under its month
   * although no cell of the 2026 grid shows it.
   */
  lemma SidebarIgnoresYear()
    ensures var e := CalendarEvent("x", "Sinh nhật", None, "2025-02-10", Personal);
            e in MonthEvents([e], 1) &&
            forall d :: 1 <= d <= DaysInMonth(1) ==> e !in EventsOn([e], DateString(1, d))
  {
    var e := CalendarEvent("x", "Sinh nhật", None, "2025-02-10", Personal);
    ParseDateChars(e.date);
    assert MonthOfDate(e.date) == Some(1);
    MonthEventsSpec([e], 1);
    assert e.date[..5] != "2026-" by { assert e.date[..5][3] == '5'; }
    forall d | 1 <= d <= DaysInMonth(1) ensures e !in EventsOn([e], DateString(1, d)) {
      OtherYearNotShown([e], e, 1, d);
    }
  }

  /** No cell of the grid shows an event whose date does not start with the year 2026. */
  lemma OtherYearNotShown(events: seq<CalendarEvent>, e: CalendarEvent, m: int, d: nat)
    requires 0 <= m && (|e.date| < 5 || e.date[..5] != "2026-")
    ensures e !in EventsOn(events, DateString(m, d))
  {
    DateStringPrefix(m, d);
    EventsOnSpec(events, DateString(m, d));
  }

  /** In the seeded list, February's sidebar holds the three Tết days and starts with 2026-02-17. */
  lemma FebruarySeed(ids: seq<string>)
    requires |ids| == |Holidays2026|
    ensures var s := SeedEvents(Holidays2026, ids);
            MonthEvents(s, 1) == s[1..4] && |MonthEvents(s, 1)| == 3 && MonthEvents(s, 1)[0].date == "2026-02-17"
  {
    var s := SeedEvents(Holidays2026, ids);
    SeedMonths(ids);
    FebruaryOfSeed(s);
    SeedSorted(ids);
    SortedSlice(s, DateKey, 1, 4);
    SortBySortedIdentity(s[1..4], DateKey);
  }

  /** The month each seed event is listed under. */
  lemma SeedMonths(ids: seq<string>)
    requires |ids| == |Holidays2026|
    ensures |SeedEvents(Holidays2026, ids)| == 9
    ensures forall i :: 0 <= i < 9 ==> MonthOfDate(SeedEvents(Holidays2026, ids)[i].date) == Some(HolidayMonth(i))
  {
    HolidayDates();
    forall i | 0 <= i < 9 ensures MonthOfDate(SeedEvents(Holidays2026, ids)[i].date) == Some(HolidayMonth(i)) {
      DateStringMonth(HolidayMonth(i), HolidayDay(i));
    }
  }

  /** The seed events are in ascending date order. */
  lemma SeedSorted(ids: seq<string>)
    requires |ids| == |Holidays2026|
    ensures SortedBy(SeedEvents(Holidays2026, ids), DateKey)
  {
    var s := SeedEvents(Holidays2026, ids);
    HolidayOrder();
    forall i, j | 0 <= i < j < |s| ensures LexLe(DateKey(s[i]), DateKey(s[j])) {
      assert s[i].date == Holidays2026[i].date && s[j].date == Holidays2026[j].date;
      assert LexLt(Holidays2026[i].date, Holidays2026[j].date);
    }
  }

  lemma FebruaryOfSeed(s: seq<CalendarEvent>)
    requires |s| == 9 && forall i :: 0 <= i < 9 ==> MonthOfDate(s[i].date) == Some(HolidayMonth(i))
    ensures Filter(s, InMonth(1)) == s[1..4]
  {
    FebruaryPositions(s);
    FilterSlice(s, InMonth(1), 1, 4);
  }

  lemma FebruaryPositions(s: seq<CalendarEvent>)
    requires |s| == 9 && forall i :: 0 <= i < 9 ==> MonthOfDate(s[i].date) == Some(HolidayMonth(i))
    ensures forall i :: 0 <= i < |s| ==> (InMonth(1)(s[i]) <==> 1 <= i < 4)
  {
    forall i | 0 <= i < |s| ensures InMonth(1)(s[i]) <==> 1 <= i < 4 {
      assert MonthOfDate(s[i].date) == Some(HolidayMonth(i));
    }
  }
}
