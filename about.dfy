/** The "next show" teaser of the About page (About.tsx). */
module About {
  import opened Optional
  import opened StringOrder
  import opened EventModel
  import opened Dates

  /** `new Date(date) >= today's midnight`, with `today` the number YYYYMMDD
      of the local date. A string that names no day is an invalid `Date`,
      which compares false. */
  predicate Upcoming(date: string, today: nat) {
    CalendarDay(date).Some? && CalendarDay(date).value >= today
  }

  /** `data.find(e => Upcoming(e.date))`: the first upcoming event. */
  function NextShow(events: seq<Event>, today: nat): (r: Option<Event>)
    ensures r.None? <==> forall i :: 0 <= i < |events| ==> !Upcoming(events[i].date, today)
    ensures r.Some? ==>
      exists k :: 0 <= k < |events| && events[k] == r.value && Upcoming(events[k].date, today) &&
        forall j :: 0 <= j < k ==> !Upcoming(events[j].date, today)
    decreases |events|
  {
    if events == [] then None
    else if Upcoming(events[0].date, today) then Some(events[0])
    else
      var r := NextShow(events[1..], today);
      assert forall i :: 1 <= i < |events| ==> events[i] == events[1..][i - 1];
      r
  }

  /** `nextEvent` after the page has loaded: it starts as `null` and is set
      only when a fetched list holds an upcoming event. */
  function NextEventAfterLoad(fetched: Option<seq<Event>>, today: nat): (r: Option<Event>)
    ensures fetched.None? ==> r.None?
    ensures fetched.Some? ==> r == NextShow(fetched.value, today)
  {
    match fetched
    case None => None
    case Some(data) =>
      match NextShow(data, today)
      case Some(upcoming) => Some(upcoming)
      case None => None
  }

  /** With today given as its ISO date string, an event is upcoming exactly
      when its date names a day and today's string sorts before or equal to
      it: the same test as the string order the events are listed in. */
  lemma UpcomingIsStringOrder(date: string, today: string)
    requires CalendarDay(today).Some?
    ensures Upcoming(date, DayNumber(today)) <==> CalendarDay(date).Some? && LexLessEq(today, date)
  {
    if CalendarDay(date).Some? {
      IsoOrderIsDayOrder(today, date);
    }
  }

  /** On a list sorted by date, as the events endpoint returns it, the first
      upcoming event is the earliest upcoming event. */
  lemma NextShowIsEarliest(events: seq<Event>, today: nat)
    requires SortedByDate(events)
    requires NextShow(events, today).Some?
    ensures forall i :: 0 <= i < |events| && Upcoming(events[i].date, today) ==>
      CalendarDay(NextShow(events, today).value.date).value <= CalendarDay(events[i].date).value
  {
    var e := NextShow(events, today).value;
    var k :| 0 <= k < |events| && events[k] == e && Upcoming(events[k].date, today) &&
      forall j :: 0 <= j < k ==> !Upcoming(events[j].date, today);
    forall i | 0 <= i < |events| && Upcoming(events[i].date, today)
      ensures CalendarDay(e.date).value <= CalendarDay(events[i].date).value
    {
      if i == k {
      } else {
        assert k < i;
        IsoOrderIsDayOrder(e.date, events[i].date);
      }
    }
  }
}
