/** The record shapes of the calendar: an event, its category and the monthly insight blurb. */
module Types {

  datatype Option<+T> = None | Some(value: T)

  /** The four event categories; each stands for the string value the enum gives it. */
  datatype EventType = Work | Personal | Holiday | Other

  /** The string each category carries at run time (the enum's initialisers). */
  function TypeValue(t: EventType): (s: string)
    ensures s in {"work", "personal", "holiday", "other"}
  {
    match t
    case Work => "work"
    case Personal => "personal"
    case Holiday => "holiday"
    case Other => "other"
  }

  /** Reads a category back from its string value; anything outside the union is rejected. */
  function ParseType(s: string): (r: Option<EventType>)
    ensures r.Some? <==> s in {"work", "personal", "holiday", "other"}
  {
    if s == "work" then Some(Work)
    else if s == "personal" then Some(Personal)
    else if s == "holiday" then Some(Holiday)
    else if s == "other" then Some(Other)
    else None
  }

  /** Every category's value is one of the union's strings and reads back as that category. */
  lemma TypeValueRoundTrip(t: EventType)
    ensures ParseType(TypeValue(t)) == Some(t)
  {
  }

  /** Conversely, every string of the union is the value of exactly the category it parses to. */
  lemma ParseTypeRoundTrip(s: string)
    requires ParseType(s).Some?
    ensures TypeValue(ParseType(s).value) == s
  {
  }

  /** Distinct categories have distinct values, so the enum and the string union are in bijection. */
  lemma TypeValueInjective(a: EventType, b: EventType)
    requires TypeValue(a) == TypeValue(b)
    ensures a == b
  {
    TypeValueRoundTrip(a);
    TypeValueRoundTrip(b);
  }

  /** A calendar event; `description` is the only optional field and `kind` is the `type` field. */
  datatype CalendarEvent = CalendarEvent(
    id: string,
    title: string,
    description: Option<string>,
    date: string,  // documented as YYYY-MM-DD
    kind: EventType)

  /** The month blurb: three required strings. */
  datatype MonthInsight = MonthInsight(vibe: string, suggestion: string, quote: string)
}
