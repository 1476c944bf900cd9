/**
 * The calendar screen itself: the grid that `renderDays` builds, the sidebar list, and the
 * component state that the handlers update.
 */
module Screen {
  import opened Types
  import opened JsString
  import opened JsArray
  import opened Constants
  import opened Calendar
  import opened EventStore
  import JsDate

  /** A grid cell: a blank padding cell, or the cell of day `day` with its date string and its events. */
  datatype Cell = Pad(index: nat) | Day(day: nat, date: string, events: seq<CalendarEvent>)

  /** The cell of day `d` of month `currentMonth`. */
  function DayCell(currentMonth: int, events: seq<CalendarEvent>, d: nat): Cell
    requires 0 <= currentMonth < 12
  {
    var date := DateString(currentMonth, d);
    Day(d, date, EventsOn(events, date))
  }

  /** `pad` padding cells, then the cells of days 1 to `days` of month `currentMonth`. */
  function Layout(pad: nat, days: nat, currentMonth: int, events: seq<CalendarEvent>): (g: seq<Cell>)
    requires 0 <= currentMonth < 12
    ensures |g| == pad + days
    ensures forall i :: 0 <= i < |g| ==> (g[i].Day? <==> i >= pad)
  {
    seq(pad, i requires 0 <= i => Pad(i)) + seq(days, i requires 0 <= i => DayCell(currentMonth, events, i + 1))
  }

  /** The grid of month `currentMonth`: the padding cells, then the cells of days 1 to the month's length. */
  function Grid(currentMonth: int, events: seq<CalendarEvent>): (g: seq<Cell>)
    requires 0 <= currentMonth < 12
    ensures |g| == FirstDayOfMonth(currentMonth) + DaysInMonth(currentMonth)
    ensures forall i :: 0 <= i < |g| ==> (g[i].Day? <==> i >= FirstDayOfMonth(currentMonth))
  {
    Layout(FirstDayOfMonth(currentMonth), DaysInMonth(currentMonth), currentMonth, events)
  }

  /** Where each cell sits: padding first, then day `d` at position `pad + d - 1`. */
  lemma LayoutShape(pad: nat, days: nat, currentMonth: int, events: seq<CalendarEvent>)
    requires 0 <= currentMonth < 12
    ensures var g := Layout(pad, days, currentMonth, events);
            forall i :: 0 <= i < |g| ==>
              g[i] == if i < pad then Pad(i) else DayCell(currentMonth, events, i - pad + 1)
  {
  }

  /**
   * `renderDays`, given the `firstDayOfMonth` and `daysInMonth` it reads: one padding cell per
   * column before the 1st, then one cell per day holding the day's `2026-MM-DD` string and the
   * events with exactly that date.
   */
  method RenderDays(currentMonth: int, firstDayOfMonth: nat, daysInMonth: nat, events: seq<CalendarEvent>)
    returns (cells: seq<Cell>)
    requires 0 <= currentMonth < 12
    ensures cells == Layout(firstDayOfMonth, daysInMonth, currentMonth, events)
  {
    cells := [];
    var i := 0;
    while i < firstDayOfMonth
      invariant 0 <= i <= firstDayOfMonth
      invariant LaidOut(cells, i, 0, currentMonth, events)
    {
      cells := cells + [Pad(i)];
      i := i + 1;
    }
    var d := 1;
    while d <= daysInMonth
      invariant 1 <= d <= daysInMonth + 1
      invariant LaidOut(cells, firstDayOfMonth, d - 1, currentMonth, events)
    {
      var dateStr := DateString(currentMonth, d);
      var dayEvents := EventsOn(events, dateStr);
      LaidOutNextDay(cells, firstDayOfMonth, d, currentMonth, events);
      cells := cells + [Day(d, dateStr, dayEvents)];
      d := d + 1;
    }
    LayoutOfCells(firstDayOfMonth, daysInMonth, currentMonth, events, cells);
  }

  /** `cells` holds `pad` padding cells followed by the cells of days 1 to `days`. */
  ghost predicate LaidOut(cells: seq<Cell>, pad: nat, days: nat, currentMonth: int, events: seq<CalendarEvent>)
    requires 0 <= currentMonth < 12
  {
    |cells| == pad + days &&
    (forall k :: 0 <= k < pad ==> cells[k] == Pad(k)) &&
    (forall j :: 1 <= j <= days ==> cells[pad + j - 1] == DayCell(currentMonth, events, j))
  }

  lemma LaidOutNextDay(cells: seq<Cell>, pad: nat, d: nat, currentMonth: int, events: seq<CalendarEvent>)
    requires 0 <= currentMonth < 12 && 1 <= d && LaidOut(cells, pad, d - 1, currentMonth, events)
    ensures LaidOut(cells + [DayCell(currentMonth, events, d)], pad, d, currentMonth, events)
  {
  }

  /** A sequence laid out cell by cell as LayoutShape describes is the layout. */
  lemma LayoutOfCells(pad: nat, days: nat, currentMonth: int, events: seq<CalendarEvent>, cells: seq<Cell>)
    requires 0 <= currentMonth < 12
    requires LaidOut(cells, pad, days, currentMonth, events)
    ensures cells == Layout(pad, days, currentMonth, events)
  {
    LayoutShape(pad, days, currentMonth, events);
    forall k | pad <= k < |cells| ensures cells[k] == DayCell(currentMonth, events, k - pad + 1) {
      var j := k - pad + 1;
      assert cells[pad + j - 1] == DayCell(currentMonth, events, j);
    }
    assert forall k :: 0 <= k < |cells| ==> cells[k] == Layout(pad, days, currentMonth, events)[k];
  }

  /**
   * Every day cell carries a ten-character date string that reads back as its own month, and
   * shows exactly the events with its date, in insertion order.
   */
  lemma GridDays(currentMonth: int, events: seq<CalendarEvent>)
    requires 0 <= currentMonth < 12
    ensures var g, pad := Grid(currentMonth, events), FirstDayOfMonth(currentMonth);
            forall i :: pad <= i < |g| ==>
              g[i].Day? && g[i].day == i - pad + 1 && |g[i].date| == 10 &&
              MonthOfDate(g[i].date) == Some(currentMonth) &&
              (forall e :: e in g[i].events <==> e in events && e.date == g[i].date) &&
              IsSubsequence(g[i].events, events)
  {
    var g, pad := Grid(currentMonth, events), FirstDayOfMonth(currentMonth);
    LayoutShape(FirstDayOfMonth(currentMonth), DaysInMonth(currentMonth), currentMonth, events);
    forall i | pad <= i < |g|
      ensures g[i].Day? && g[i].day == i - pad + 1 && |g[i].date| == 10 &&
              MonthOfDate(g[i].date) == Some(currentMonth) &&
              (forall e :: e in g[i].events <==> e in events && e.date == g[i].date) &&
              IsSubsequence(g[i].events, events)
    {
      GridDayAt(currentMonth, events, i);
    }
  }

  lemma GridDayAt(currentMonth: int, events: seq<CalendarEvent>, i: int)
    requires 0 <= currentMonth < 12
    requires FirstDayOfMonth(currentMonth) <= i < |Grid(currentMonth, events)|
    ensures var c, d := Grid(currentMonth, events)[i], i - FirstDayOfMonth(currentMonth) + 1;
            c.Day? && c.day == d && |c.date| == 10 && MonthOfDate(c.date) == Some(currentMonth) &&
            (forall e :: e in c.events <==> e in events && e.date == c.date) &&
            IsSubsequence(c.events, events)
  {
    var d := i - FirstDayOfMonth(currentMonth) + 1;
    LayoutShape(FirstDayOfMonth(currentMonth), DaysInMonth(currentMonth), currentMonth, events);
    assert Grid(currentMonth, events)[i] == DayCell(currentMonth, events, d);
    DayCellFacts(currentMonth, events, d);
  }

  /** No two day cells of a grid share a date string. */
  lemma GridDatesDistinct(currentMonth: int, events: seq<CalendarEvent>)
    requires 0 <= currentMonth < 12
    ensures var g, pad := Grid(currentMonth, events), FirstDayOfMonth(currentMonth);
            forall i, j :: pad <= i < j < |g| ==> g[i].date != g[j].date
  {
    var g, pad := Grid(currentMonth, events), FirstDayOfMonth(currentMonth);
    forall i, j | pad <= i < j < |g| ensures g[i].date != g[j].date {
      GridDateAt(currentMonth, events, i);
      GridDateAt(currentMonth, events, j);
      if g[i].date == g[j].date {
        DateStringInjective(currentMonth, i - pad + 1, currentMonth, j - pad + 1);
      }
    }
  }

  lemma GridDateAt(currentMonth: int, events: seq<CalendarEvent>, i: int)
    requires 0 <= currentMonth < 12
    requires FirstDayOfMonth(currentMonth) <= i < |Grid(currentMonth, events)|
    ensures var pad := FirstDayOfMonth(currentMonth);
            i - pad + 1 <= DaysInMonth(currentMonth) &&
            Grid(currentMonth, events)[i].Day? && Grid(currentMonth, events)[i].date == DateString(currentMonth, i - pad + 1)
  {
    var d := i - FirstDayOfMonth(currentMonth) + 1;
    LayoutShape(FirstDayOfMonth(currentMonth), DaysInMonth(currentMonth), currentMonth, events);
    assert Grid(currentMonth, events)[i] == DayCell(currentMonth, events, d);
  }

  lemma DayCellFacts(currentMonth: int, events: seq<CalendarEvent>, d: nat)
    requires 0 <= currentMonth < 12 && 1 <= d <= DaysInMonth(currentMonth)
    ensures var c := DayCell(currentMonth, events, d);
            |c.date| == 10 && MonthOfDate(c.date) == Some(currentMonth) &&
            (forall e :: e in c.events <==> e in events && e.date == c.date) &&
            IsSubsequence(c.events, events)
  {
    DateStringParses(currentMonth, d);
    DateStringMonth(currentMonth, d);
    EventsOnSpec(events, DateString(currentMonth, d));
  }

  /**
   * The grid has seven columns headed Monday to Sunday: the cell of day `d` lands in the column
   * of its weekday (column `c` is weekday `(c + 1) % 7`, Sunday being 0).
   */
  lemma GridColumnIsWeekday(currentMonth: int, d: int)
    requires 0 <= currentMonth < 12 && 1 <= d <= DaysInMonth(currentMonth)
    ensures var column := (FirstDayOfMonth(currentMonth) + d - 1) % 7;
            JsDate.WeekDay(JsDate.MakeDay(Year, currentMonth, d)) == (column + 1) % 7
  {
    MakeDayOfFirst(currentMonth, d);
    WeekdayOfColumn(DayOfFirst(currentMonth), d);
  }

  lemma WeekdayOfColumn(t: int, d: int)
    ensures JsDate.WeekDay(t + d - 1) == (((t + 3) % 7 + d - 1) % 7 + 1) % 7
  {
    ShiftColumn(t, d - 1);
    ShiftColumn(t + d - 1, 1);
  }

  /** The sidebar shows its empty-month message exactly when no event falls in the month. */
  lemma SidebarEmptyIff(events: seq<CalendarEvent>, m: int)
    ensures MonthEvents(events, m) == [] <==> forall e :: e in events ==> MonthOfDate(e.date) != Some(m)
  {
    MonthEventsSpec(events, m);
    if MonthEvents(events, m) != [] {
      assert MonthEvents(events, m)[0] in MonthEvents(events, m);
    }
  }

  /** The state of the calendar screen: the `useState` fields the handlers update. */
  class CalendarScreen {
    var currentMonth: int
    var events: seq<CalendarEvent>
    var selectedDay: Option<string>
    var showEventModal: bool
    var newEventTitle: string
    var newEventType: EventType

    /** The displayed month is always one of the twelve. */
    ghost predicate Valid()
      reads this
    {
      0 <= currentMonth < 12
    }

    /** The initial state: January, no events yet, nothing selected, the modal closed, an empty personal draft. */
    constructor ()
      ensures Valid()
      ensures currentMonth == 0 && events == [] && selectedDay == None
      ensures !showEventModal && newEventTitle == "" && newEventType == Personal
    {
      currentMonth := 0;
      events := [];
      selectedDay := None;
      showEventModal := false;
      newEventTitle := "";
      newEventType := Personal;
    }

    /**
     * The mount effect: a stored list, even an empty one, is used as it is; without one, the
     * holidays are seeded with the given ids.
     */
    method LoadEvents(stored: Option<seq<CalendarEvent>>, ids: seq<string>)
      requires Valid() && |ids| == |Holidays2026|
      modifies this`events
      ensures Valid()
      ensures stored.Some? ==> events == stored.value
      ensures stored.None? ==> events == SeedEvents(Holidays2026, ids)
    {
      if stored.Some? {
        events := stored.value;
      } else {
        events := SeedEvents(Holidays2026, ids);
      }
    }

    method HandlePrevMonth()
      requires Valid()
      modifies this`currentMonth
      ensures Valid() && currentMonth == PrevMonth(old(currentMonth))
    {
      currentMonth := if currentMonth == 0 then 11 else currentMonth - 1;
    }

    method HandleNextMonth()
      requires Valid()
      modifies this`currentMonth
      ensures Valid() && currentMonth == NextMonth(old(currentMonth))
    {
      currentMonth := if currentMonth == 11 then 0 else currentMonth + 1;
    }

    /** Clicking a day cell (or the floating button, with today's date) selects the date and opens the modal. */
    method SelectDay(date: string)
      requires Valid()
      modifies this`selectedDay, this`showEventModal
      ensures Valid() && selectedDay == Some(date) && showEventModal
    {
      selectedDay := Some(date);
      showEventModal := true;
    }

    /** Typing in the title field. */
    method EditTitle(title: string)
      requires Valid()
      modifies this`newEventTitle
      ensures Valid() && newEventTitle == title
    {
      newEventTitle := title;
    }

    /** Choosing one of the four type buttons. */
    method ChooseType(kind: EventType)
      requires Valid()
      modifies this`newEventType
      ensures Valid() && newEventType == kind
    {
      newEventType := kind;
    }

    /** The close and cancel buttons of the modal. */
    method CloseModal()
      requires Valid()
      modifies this`showEventModal
      ensures Valid() && !showEventModal
    {
      showEventModal := false;
    }

    /**
     * `addEvent`: without a selected day or with a blank title nothing changes; otherwise one event
     * with the untrimmed title, the selected date and the chosen type is appended, the title is
     * cleared and the modal closes.
     */
    method AddEvent(id: string)
      requires Valid()
      modifies this`events, this`newEventTitle, this`showEventModal
      ensures Valid()
      ensures !CanAdd(old(selectedDay), old(newEventTitle)) ==>
                events == old(events) && newEventTitle == old(newEventTitle) && showEventModal == old(showEventModal)
      ensures CanAdd(old(selectedDay), old(newEventTitle)) ==>
                events == old(events) + [CalendarEvent(id, old(newEventTitle), None, old(selectedDay).value, newEventType)] &&
                newEventTitle == "" && !showEventModal
    {
      var day, title := selectedDay, newEventTitle;
      if !CanAdd(day, title) {
        return;
      }
      var newEvent := CalendarEvent(id, title, None, day.value, newEventType);
      events := events + [newEvent];
      newEventTitle := "";
      showEventModal := false;
    }

    /** `deleteEvent`: every event with the id goes, the others stay in order. */
    method DeleteEvent(id: string)
      requires Valid()
      modifies this`events
      ensures Valid() && events == RemoveById(old(events), id)
    {
      events := RemoveById(events, id);
    }

    /** What the grid shows for the current state; the event list is not changed. */
    method Render() returns (cells: seq<Cell>)
      requires Valid()
      ensures cells == Grid(currentMonth, events)
    {
      cells := RenderDays(currentMonth, FirstDayOfMonth(currentMonth), DaysInMonth(currentMonth), events);
    }

    /** What the sidebar lists for the current state; the event list is not changed. */
    method Sidebar() returns (list: seq<CalendarEvent>)
      ensures list == MonthEvents(events, currentMonth)
    {
      list := MonthEvents(events, currentMonth);
    }
  }
}
