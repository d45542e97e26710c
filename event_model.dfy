/** The event record (`Event` in types.ts, one row of the `events` table)
    and the partial record the admin form edits and sends as a JSON body. */
module EventModel {
  import opened Optional
  import opened StringOrder

  /** A stored event. `date` and `title` are NOT NULL columns; every other
      column may hold NULL, which reaches the browser as JSON `null`. */
  datatype Event = Event(
    id: int,
    date: string,
    title: string,
    artists: Option<string>,
    description: Option<string>,
    openTime: Option<string>,
    startTime: Option<string>,
    ticketPrice: Option<string>,
    doorPrice: Option<string>,
    imageUrl: Option<string>)

  /** `Partial<Event>`: the form's state and the JSON body of a POST or PUT.
      `None` is a field that is absent, `undefined` or `null`. */
  datatype Draft = Draft(
    id: Option<int>,
    date: Option<string>,
    title: Option<string>,
    artists: Option<string>,
    description: Option<string>,
    openTime: Option<string>,
    startTime: Option<string>,
    ticketPrice: Option<string>,
    doorPrice: Option<string>,
    imageUrl: Option<string>)

  /** `{}` */
  const EmptyDraft := Draft(None, None, None, None, None, None, None, None, None, None)

  /** The whole event as a form value, as the edit button hands it over. */
  function DraftOf(e: Event): Draft {
    Draft(Some(e.id), Some(e.date), Some(e.title), e.artists, e.description,
          e.openTime, e.startTime, e.ticketPrice, e.doorPrice, e.imageUrl)
  }

  /** JavaScript truthiness of an optional string: present and non-empty. */
  predicate Truthy(s: Option<string>) {
    s.Some? && s.value != ""
  }

  /** The order `ORDER BY date ASC` produces. */
  predicate SortedByDate(s: seq<Event>) {
    forall i, j :: 0 <= i < j < |s| ==> LexLessEq(s[i].date, s[j].date)
  }
}
