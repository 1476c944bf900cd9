# 2026 event calendar: a verified model of the calendar screen

The application is a one-page React calendar for the year 2026 (the Year of the Horse). Its screen
shows one month at a time as a Monday-first grid of seven columns. Each day cell shows the events
whose date is that day. A sidebar lists the month's events in date order, and a modal adds an event
to the selected day. Clicking an event (after a confirmation) deletes it. On first use the event
list is seeded with the nine Vietnamese public holidays of 2026.

This Dafny project models the logic of that screen:

- the month geometry that `App.tsx` obtains from JavaScript `Date`: the month length by day-0
  rollover and the Monday-first column of the 1st;
- month navigation with wrap-around;
- the event list as the state of a class, with the load-or-seed effect, the guarded `addEvent` and
  `deleteEvent`;
- the grid that `renderDays` builds in two loops, with its `2026-MM-DD` strings and per-day filter;
- the sidebar's month filter and date sort;
- the fixed data of `constants.ts` and the shapes of `types.ts`.

Modules, one file each:

- `Types`: `CalendarEvent`, `EventType` and the `MonthInsight` shape.
- `Constants`: the weekday and month labels and the holiday list.
- `JsDate`: the day arithmetic of ECMAScript `Date` (day numbers from 1970-01-01, `MakeDay`,
  `YearFromTime`, `MonthFromTime`, `DateFromTime`, `WeekDay`).
- `JsString`: `String(n)`, `padStart`, `trim` and code-point string order.
- `JsArray`: `filter` and the stable `sort`.
- `Calendar`: the 2026 geometry, navigation, date strings and date parsing.
- `EventStore`: the event-list operations as functions, with the seed facts.
- `Screen`: the grid, the `RenderDays` method with its loops, and the class `CalendarScreen`,
  whose fields are the component's `useState` variables.

Some facts about the code:

- the code seeds nine holidays (constants.ts:12-20);
- App.tsx:89-91 fetches the month insight again on every month change and keeps no cache;
- `JSON.parse` throws on a stored event list that is not valid JSON, and the code has no fallback
  to the seed;
- ids come from `Math.random` and need not be unique.

## Model

| member | source | states |
|---|---|---|
| Types.TypeValue | types.ts:16-21 | each of the four enum members carries one of the strings `work`, `personal`, `holiday`, `other` |
| Types.ParseType | types.ts:7 | a string is an event type exactly when it is one of the four strings of the union |
| Types.TypeValueRoundTrip | types.ts:16-21 | reading a member's string back gives that member |
| Types.ParseTypeRoundTrip | types.ts:7 | every string of the union is the value of the member it reads as |
| Types.TypeValueInjective | types.ts:16-21 | distinct members carry distinct strings, so the enum and the union correspond one to one and the cast at App.tsx:108 stays in the union |
| JsString.DigitChar | App.tsx:124 | the digit character of 0..9 is a digit that reads back as the same value |
| JsString.NatToString | App.tsx:124 | `String(n)` is a non-empty string of digits with no leading zero, one character exactly when n < 10 |
| JsString.NatToStringRoundTrip | App.tsx:124 | reading `String(n)` as a decimal number gives n |
| JsString.PadStart | App.tsx:124 | `padStart` reaches the target length unless the string is longer, ends with the string, and fills only on the left |
| JsString.TwoDigits | App.tsx:124 | a number below 100 padded to two places is its tens digit followed by its units digit |
| JsString.TrimStart | App.tsx:103 | the result is the suffix left after a run of whitespace, and it does not start with whitespace |
| JsString.TrimEnd | App.tsx:103 | the result is the prefix left before a run of whitespace, and it does not end with whitespace |
| JsString.Trim | App.tsx:103 | `trim()` is `TrimEnd` after `TrimStart`: see TrimStart, TrimEnd and TrimEmptyIff |
| JsString.TrimEmptyIff | App.tsx:103 | `trim()` gives the empty string exactly when every character is whitespace |
| JsString.LexLeReflexive | App.tsx:263 | the date order used by the sort is reflexive |
| JsString.LexLeTotal | App.tsx:263 | any two dates are comparable |
| JsString.LexLeAntisymmetric | App.tsx:263 | two strings each at most the other are equal |
| JsString.LexLeTransitive | App.tsx:263 | the order is transitive |
| JsString.LexLtTransitive | App.tsx:263 | the strict order is transitive |
| JsString.LexLtFirstDiff | App.tsx:263 | strings equal up to position k and smaller at k are strictly ordered |
| JsString.ChainIncreasingPairwise | constants.ts:12-20 | a list whose neighbours strictly increase is strictly increasing throughout |
| JsArray.Filter | App.tsx:115 | `filter` keeps only elements satisfying the predicate, keeps all of them, and is no longer than its input |
| JsArray.FilterIsSubsequence | App.tsx:115 | `filter` keeps the original order |
| JsArray.FilterAppend | App.tsx:125 | filtering a concatenation is concatenating the filtered parts |
| JsArray.FilterKeepsAll | App.tsx:115 | filtering returns its input exactly when every element satisfies the predicate |
| JsArray.FilterDropsAll | App.tsx:115 | filtering with a predicate no element satisfies gives the empty list |
| JsArray.FilterIdempotent | App.tsx:115 | filtering twice with one predicate equals filtering once |
| JsArray.FilterMultiset | App.tsx:262 | each value keeps its multiplicity when it satisfies the predicate and disappears otherwise |
| JsArray.FilterPartition | App.tsx:115 | the kept and the dropped elements together number the input's length |
| JsArray.FilterSlice | App.tsx:262 | when exactly the positions lo..hi satisfy the predicate, the filter is that slice |
| JsArray.Insert | App.tsx:263 | one insertion step of the sort adds exactly the inserted element to the multiset of the list |
| JsArray.SortBy | App.tsx:263 | the sort returns a permutation of its input |
| JsArray.InsertSorted | App.tsx:263 | inserting into a sorted list keeps it sorted |
| JsArray.SortBySorted | App.tsx:263 | the sort's result is ascending by key |
| JsArray.InsertStable | App.tsx:263 | an insertion goes before every element of equal key |
| JsArray.SortByStable | App.tsx:263 | the sort is stable: elements with the same key keep their input order |
| JsArray.SortedSlice | App.tsx:263 | a slice of a sorted list is sorted |
| JsArray.SortBySortedIdentity | App.tsx:263 | sorting a list already in order changes nothing |
| JsDate.DayFromYear | App.tsx:93-95 | the day number of 1 January of a year: see DayFromYearStep and DayFromYearMonotone |
| JsDate.DaysInYear | App.tsx:93 | a year has 365 or 366 days |
| JsDate.DayFromYearStep | App.tsx:93 | the closed-form day number of 1 January advances by exactly one year's days |
| JsDate.DayFromYearMonotone | App.tsx:93 | later years start later |
| JsDate.MonthLength | App.tsx:93 | a month has 28 to 31 days, and February has 29 exactly in a leap year |
| JsDate.DaysBeforeMonth | App.tsx:93 | the days before month 12 are the whole year |
| JsDate.DaysBeforeMonthStep | App.tsx:93 | consecutive month starts lie one month length apart |
| JsDate.DaysBeforeMonthMonotone | App.tsx:93 | later months start later in the year |
| JsDate.MakeDay | App.tsx:93-95 | the day number of `new Date(2026, month, date)`, with months and dates rolling over: see DecodeMakeDay, MakeDayDayZero, MakeDayNextMonth and Calendar.MakeDayOfFirst |
| JsDate.YearFromDay | App.tsx:93 | `YearFromTime` gives the year whose days include the given day |
| JsDate.YearUp | App.tsx:93 | the upward search ends at the year holding the day |
| JsDate.YearDown | App.tsx:93 | the downward search ends at the year holding the day |
| JsDate.YearUnique | App.tsx:93 | only one year holds a given day |
| JsDate.MonthOfYearDay | App.tsx:93 | the month search ends at the month holding the day of the year |
| JsDate.MonthUnique | App.tsx:93 | only one month holds a given day of the year |
| JsDate.DayWithinYear | App.tsx:93 | the day within the year is below the year's length |
| JsDate.MonthFromDay | App.tsx:93 | `MonthFromTime` is 0..11, the month whose days include the day |
| JsDate.DateFromDay | App.tsx:93 | `DateFromTime` lies between 1 and the month's length |
| JsDate.WeekDay | App.tsx:95 | `getDay()` lies in 0..6 |
| JsDate.DecodeMakeDay | App.tsx:93 | reading year, month and date back from `MakeDay` of a real date gives them back |
| JsDate.DecodeYear | App.tsx:93 | a day between two consecutive 1 Januaries belongs to the earlier year |
| JsDate.MakeDayDayZero | App.tsx:93 | date 0 of the next month is the last date of this month, December rolling into the next year |
| JsDate.MakeDayNextMonth | App.tsx:94-97 | the 1st of the next month comes one month length after this month's 1st |
| Calendar.DaysInMonth | App.tsx:93 | `daysInMonth` lies in 28..31, and February 2026 has 28 days |
| Calendar.DaysInMonthIsDayZero | App.tsx:93 | the month length equals `new Date(2026, m + 1, 0).getDate()` |
| Calendar.FirstDayOfMonth | App.tsx:94-97 | `firstDayOfMonth` lies in 0..6 and is the Monday-first column of the 1st |
| Calendar.MakeDayOfFirst | App.tsx:95 | date d of a month lies d - 1 days after its 1st |
| Calendar.MondayFirstColumn | App.tsx:96 | Sunday goes to 6 and any other weekday w to w - 1; the column maps back to the weekday |
| Calendar.FirstDayWeekday | App.tsx:94-97 | the 1st's `getDay()` is the weekday of its column |
| Calendar.FirstDayOfJanuary | App.tsx:94-97 | 1 January 2026 is a Thursday, column 3 |
| Calendar.FirstDayOfNextMonth | App.tsx:93-97 | each month's grid starts in the column after the previous month's last day |
| Calendar.PrevMonth | App.tsx:99 | the previous month lies in 0..11 and is followed by the current one |
| Calendar.NextMonth | App.tsx:100 | the next month is (m + 1) mod 12 |
| Calendar.PrevNextInverse | App.tsx:99-100 | next then previous, and previous then next, return to the same month |
| Calendar.NextMonthTimesIsModular | App.tsx:100 | k presses of the next button move k months on, modulo 12 |
| Calendar.NextMonthTimes | App.tsx:100 | the month after k presses of the next button lies in 0..11: see NextMonthTimesIsModular and TwelveMonthsCycle |
| Calendar.TwelveMonthsCycle | App.tsx:100 | twelve presses return to the starting month |
| Calendar.TwoDigit | App.tsx:124 | `String(n).padStart(2, '0')`: see TwoDigitRoundTrip and JsString.TwoDigits |
| Calendar.ParseIsoDate | App.tsx:262 | a string is read as a date exactly when it has the YYYY-MM-DD shape |
| Calendar.MonthOfDate | App.tsx:262 | the month read from an event date lies in 0..11 |
| Calendar.MonthOfDateIsGetMonth | App.tsx:262 | that month is `MonthFromTime` of the day the string denotes |
| Calendar.TwoDigitRoundTrip | App.tsx:124 | `String(n).padStart(2, '0')` has two digits that read back as n |
| Calendar.DateString | App.tsx:124 | the `dateStr` template: see DateStringParses, DateStringOfChars, DateStringInjective, DateStringMonth and CanonicalDateString |
| Calendar.DateStringParses | App.tsx:124 | each `dateStr` has ten characters and reads back as 2026, the month and the day |
| Calendar.DateStringOfChars | App.tsx:124 | the `dateStr` of a day is `2026-` followed by the month's two digits, `-` and the day's two digits |
| Calendar.DateStringPrefix | App.tsx:124 | every `dateStr` starts with `2026-` |
| Calendar.ParseDateChars | App.tsx:262 | the month and day read from a date string are the values of its digit pairs |
| Calendar.DateStringInjective | App.tsx:124 | distinct days give distinct date strings |
| Calendar.DateStringMonth | App.tsx:124 | the `dateStr` of a day of month m reads back as month m |
| Calendar.CanonicalDateString | App.tsx:124-125 | every well-formed 2026 date is the `dateStr` of its own day |
| Calendar.WeekdayLabels | constants.ts:2-4 | seven headings, `Thứ 2` to `Thứ 7` for Monday to Saturday, then `Chủ Nhật` |
| Calendar.MonthLabels | constants.ts:6-9 | twelve month names, entry i being `Tháng ` and i + 1 |
| EventStore.SeedEvents | App.tsx:68-73 | seeding makes one `holiday` event per holiday, in list order, with its title and date |
| EventStore.HolidayDates | constants.ts:11-21 | nine holidays, each dated by the `2026-MM-DD` string of a day that exists |
| EventStore.HolidayDate | constants.ts:12-20 | each holiday's date is the grid's string of its day |
| EventStore.HolidayTitles | constants.ts:12-20 | every holiday title is non-empty |
| EventStore.HolidayOrder | constants.ts:12-20 | holiday dates strictly increase as strings |
| EventStore.SeedEventsFacts | App.tsx:68-74 | the seed has nine `holiday` events with non-empty titles and pairwise distinct dates |
| EventStore.SeedMonths | constants.ts:11-21 | the month each seeded holiday is listed under |
| EventStore.SeedSorted | constants.ts:12-20 | the seeded events are in ascending date order |
| EventStore.FebruarySeed | constants.ts:13-15 | February's list in the seeded state is exactly the three Tết days and starts with 2026-02-17 |
| EventStore.CanAdd | App.tsx:103 | `addEvent` proceeds exactly when a non-empty day is selected and the title is not blank after trimming |
| EventStore.RemoveById | App.tsx:115 | the `deleteEvent` filter: see RemoveByIdSpec, RemoveAbsentId, RemoveByIdIdempotent, RemoveUniqueId and RemoveAppended |
| EventStore.RemoveByIdSpec | App.tsx:115 | `deleteEvent` keeps exactly the events with another id, with their multiplicities and in order |
| EventStore.RemoveAbsentId | App.tsx:115 | deleting an id no event has changes nothing |
| EventStore.RemoveByIdIdempotent | App.tsx:115 | deleting the same id twice equals deleting it once |
| EventStore.RemoveUniqueId | App.tsx:115 | when exactly one event has the id, the list gets one shorter |
| EventStore.RemoveAppended | App.tsx:110-115 | deleting the id of the event just added undoes the addition when that id was new |
| EventStore.EventsOn | App.tsx:125 | the `dayEvents` filter: see EventsOnSpec and AppendShowsOnItsDay |
| EventStore.EventsOnSpec | App.tsx:125 | a day shows exactly the events with its date, each as often as stored, in insertion order |
| EventStore.AppendShowsOnItsDay | App.tsx:110-125 | an added event shows up last in its own day and nowhere else |
| EventStore.InMonth | App.tsx:262 | the sidebar's month test: see MonthEventsSpec and Calendar.MonthOfDateIsGetMonth |
| EventStore.MonthEvents | App.tsx:261-263 | the sidebar's filter then sort: see MonthEventsSpec, SidebarMatchesGrid and Screen.SidebarEmptyIff |
| EventStore.MonthEventsSpec | App.tsx:261-263 | the sidebar is ascending by date, a permutation of the month's events, and stable among equal dates |
| EventStore.SidebarMatchesGrid | App.tsx:123-125 | a 2026 event is listed in month m exactly when one day cell of month m shows it, and that cell is unique |
| EventStore.SidebarToGrid | App.tsx:261-262 | a listed 2026 event sits in the cell of its own day |
| EventStore.GridToSidebar | App.tsx:261-262 | an event shown in a cell of month m is listed for month m |
| EventStore.SidebarIgnoresYear | App.tsx:262 | the sidebar compares months only: an event of 2025 is listed although no cell shows it |
| EventStore.OtherYearNotShown | App.tsx:124-125 | no cell shows an event whose date does not start with `2026-` |
| Screen.DayCell | App.tsx:123-125 | the cell of one day with its `dateStr` and `dayEvents`: see GridDays and GridDatesDistinct |
| Screen.Layout | App.tsx:119-123 | the cells are the padding cells followed by the day cells |
| Screen.Grid | App.tsx:117-160 | the grid has `firstDayOfMonth` padding cells, then one cell per day of the month |
| Screen.LayoutShape | App.tsx:119-125 | cell i is padding cell i, or the cell of day i - pad + 1 with its date string and events |
| Screen.RenderDays | App.tsx:117-160 | the two loops of `renderDays` build exactly the layout |
| Screen.GridDays | App.tsx:123-125 | each day cell has its day number, a ten-character date of its month, and exactly that date's events in order |
| Screen.GridDatesDistinct | App.tsx:124 | no two day cells share a date string |
| Screen.GridColumnIsWeekday | App.tsx:94-97 | each day falls in the column of its weekday under the Monday-first headings |
| Screen.SidebarEmptyIff | App.tsx:275 | the empty-month message shows exactly when no event falls in the month |
| Screen.CalendarScreen.constructor | App.tsx:54-61 | the initial state is January, no events, nothing selected, modal closed, an empty personal draft |
| Screen.CalendarScreen.LoadEvents | App.tsx:63-76 | a stored list, even an empty one, is used as it is; otherwise the holidays are seeded |
| Screen.CalendarScreen.HandlePrevMonth | App.tsx:99 | `currentMonth` becomes the previous month and stays in 0..11 |
| Screen.CalendarScreen.HandleNextMonth | App.tsx:100 | `currentMonth` becomes the next month and stays in 0..11 |
| Screen.CalendarScreen.SelectDay | App.tsx:131-134 | clicking a day selects its date and opens the modal |
| Screen.CalendarScreen.EditTitle | App.tsx:342 | typing sets the draft title |
| Screen.CalendarScreen.ChooseType | App.tsx:360 | a type button sets the draft type |
| Screen.CalendarScreen.CloseModal | App.tsx:331 | the close and cancel buttons close the modal |
| Screen.CalendarScreen.AddEvent | App.tsx:102-113 | a failed guard changes nothing; otherwise one event is appended with the untrimmed title, the selected date and the chosen type, the title is cleared and the modal closes |
| Screen.CalendarScreen.DeleteEvent | App.tsx:115 | the events become the old list without the id |
| Screen.CalendarScreen.Render | App.tsx:297 | the grid shown is the grid of the current month and events |
| Screen.CalendarScreen.Sidebar | App.tsx:261-263 | the list shown is the month's events sorted by date |

## Left out

- Rendering: JSX, the `CuteHorse` SVG, CSS, the `<style>` block and the cell decorations (`isToday`, the dot, the horse on every tenth day) are presentation.
- Storage: `localStorage` and `JSON.parse`/`JSON.stringify` are not modelled. The stored list is an `Option<seq<CalendarEvent>>` input to `LoadEvents`. The persisting effect (App.tsx:78-80) only writes, so it has no model.
- Ids: `Math.random` ids are parameters of `LoadEvents` and `AddEvent`, and nothing assumes they are unique.
- Clock: `new Date()` for today (App.tsx:126) and the floating button (App.tsx:382-385) are left out. `SelectDay` takes the date, which covers the button's effect given today's date.
- MonthOfDate: only reads a YYYY-MM-DD string with a day that exists as a month, and gives none for every other string. Engines differ on dates such as 2026-02-30 (some roll over, others give an invalid date), and that case is not modelled. `Date` also reads other forms that the model rejects: `2026-02` (YYYY-MM, read as UTC), `2026-02-17T09:00` (a date-time, read as local time), `+002026-02-17` (an expanded year), and engine-specific formats such as `2026/02/17`. The app itself only makes YYYY-MM-DD dates (App.tsx:124, the holiday list, and App.tsx:383).
- MonthOfDate: parses the string as a UTC date and reads its month in local time. This equals the string's digits only for time zones at or east of UTC, such as Vietnam's.
- `new Date(event.date).getDate()` in the sidebar (App.tsx:267) is display only.
- LexLe: stands for `localeCompare`. It is code-point order, which equals code-unit order on text with no character above U+FFFF, and so on every date string. It agrees with `localeCompare` on the digit-and-dash strings of well-formed dates but not on arbitrary text.
- The month insight: `getMonthInsight` in geminiService.ts is a network call. It is not part of this model, and neither is the `loadingInsight` flow (App.tsx:82-91). `MonthInsight` is kept as a shape.
- `confirm()` before a delete (App.tsx:149) is a UI prompt. `DeleteEvent` models the confirmed case.
- React effect ordering and re-renders are framework behaviour. Each handler is one method call on the state.
