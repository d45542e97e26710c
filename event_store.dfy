/** The `events` table and the four JSON endpoints over it (server.ts),
    with SQLite replaced by an in-memory table keyed by id and the
    AUTOINCREMENT sequence kept as the largest id ever issued. */
module Server {
  import opened Optional
  import opened StringOrder
  import opened EventModel

  /** The JSON answer of a write endpoint. `Failed` is the status-500 reply
      `{error: message}`; the others are status 200. */
  datatype Reply = Saved(event: Draft) | Deleted | Failed(message: string)

  /** The NOT NULL constraints on `date` and `title`. */
  predicate HasRequired(body: Draft) {
    body.date.Some? && body.title.Some?
  }

  /** `x || ''` on an optional text column. */
  function OrEmpty(x: Option<string>): (r: Option<string>)
    ensures r.Some? && (x.Some? ==> r == x) && (x.None? ==> r == Some(""))
  {
    Some(x.GetOr(""))
  }

  /** The row an INSERT or UPDATE writes for a request body: `artists`,
      `doorPrice` and `imageUrl` fall back to '' and every other column is
      the body's value (NULL when absent). */
  function RowFromBody(id: int, body: Draft): (r: Event)
    requires HasRequired(body)
    ensures r.id == id && r.date == body.date.value && r.title == body.title.value
    ensures r.description == body.description && r.openTime == body.openTime
    ensures r.startTime == body.startTime && r.ticketPrice == body.ticketPrice
    ensures r.artists == OrEmpty(body.artists) && r.doorPrice == OrEmpty(body.doorPrice)
    ensures r.imageUrl == OrEmpty(body.imageUrl)
  {
    Event(id, body.date.value, body.title.value, OrEmpty(body.artists), body.description,
          body.openTime, body.startTime, body.ticketPrice, OrEmpty(body.doorPrice), OrEmpty(body.imageUrl))
  }

  /** Saving an event back unchanged, as the edit form does when nothing is
      typed, rewrites the same row exactly when none of the three defaulted
      columns holds NULL (a NULL there becomes ''). */
  lemma RowFromBodyRoundTrip(e: Event)
    ensures RowFromBody(e.id, DraftOf(e)) == e <==>
      e.artists.Some? && e.doorPrice.Some? && e.imageUrl.Some?
  {
  }

  /** `{ id, ...body }`: the body's own `id`, if it has one, wins. */
  function WithId(body: Draft, id: int): (r: Draft)
    ensures body.id.None? ==> r == body.(id := Some(id))
    ensures body.id.Some? ==> r == body
  {
    if body.id.Some? then body else body.(id := Some(id))
  }

  // ---- ordering of the list

  lemma PrependSorted(h: Event, t: seq<Event>)
    requires SortedByDate(t)
    requires forall y :: y in t ==> LexLessEq(h.date, y.date)
    ensures SortedByDate([h] + t)
  {
    var s := [h] + t;
    forall i, j | 0 <= i < j < |s| ensures LexLessEq(s[i].date, s[j].date) {
      if i > 0 {
        assert s[i] == t[i - 1] && s[j] == t[j - 1];
      } else {
        assert s[j] == t[j - 1] && s[j] in t;
      }
    }
  }

  /** The head of a sorted list sorts before or equal to all of it. */
  lemma HeadIsFirst(s: seq<Event>)
    requires SortedByDate(s) && s != []
    ensures forall y :: y in s ==> LexLessEq(s[0].date, y.date)
  {
    forall y | y in s ensures LexLessEq(s[0].date, y.date) {
      var j :| 0 <= j < |s| && s[j] == y;
      if j == 0 { LexReflexive(s[0].date); }
    }
  }

  /** A row that sorts before or equal to the head can go in front. */
  lemma InsertAtFront(s: seq<Event>, x: Event)
    requires SortedByDate(s) && s != [] && LexLessEq(x.date, s[0].date)
    ensures SortedByDate([x] + s)
  {
    HeadIsFirst(s);
    forall y | y in s ensures LexLessEq(x.date, y.date) {
      LexTransitive(x.date, s[0].date, y.date);
    }
    PrependSorted(x, s);
  }

  /** The head stays in front of the rest with `x` inserted when `x` sorts
      after it. */
  lemma InsertBehindHead(s: seq<Event>, x: Event, rest: seq<Event>)
    requires SortedByDate(s) && s != [] && !LexLessEq(x.date, s[0].date)
    requires SortedByDate(rest) && multiset(rest) == multiset(s[1..]) + multiset{x}
    ensures SortedByDate([s[0]] + rest)
  {
    HeadIsFirst(s);
    LexTotal(x.date, s[0].date);
    forall y | y in rest ensures LexLessEq(s[0].date, y.date) {
      assert y in multiset(rest);
      if y != x {
        assert y in s[1..];
        var j :| 0 <= j < |s[1..]| && s[1..][j] == y;
        assert s[j + 1] == y;
      }
    }
    PrependSorted(s[0], rest);
  }

  /** Insert `x` into a list sorted by date, after every row whose date
      sorts strictly before its own. */
  function InsertByDate(s: seq<Event>, x: Event): (r: seq<Event>)
    requires SortedByDate(s)
    ensures SortedByDate(r)
    ensures multiset(r) == multiset(s) + multiset{x}
    decreases |s|
  {
    if s == [] then [x]
    else if LexLessEq(x.date, s[0].date) then
      InsertAtFront(s, x);
      [x] + s
    else
      var rest := InsertByDate(s[1..], x);
      InsertBehindHead(s, x, rest);
      assert s == [s[0]] + s[1..];
      [s[0]] + rest
  }

  lemma InsertMembers(s: seq<Event>, x: Event)
    requires SortedByDate(s)
    ensures |InsertByDate(s, x)| == |s| + 1
    ensures forall y :: y in InsertByDate(s, x) <==> y in s || y == x
  {
    var r := InsertByDate(s, x);
    assert |multiset(r)| == |multiset(s)| + 1;
    forall y ensures y in r <==> y in s || y == x {
      assert y in r <==> y in multiset(r);
      assert y in s <==> y in multiset(s);
    }
  }

  /** Every element of `r` is the row stored under its id. */
  predicate RowsOf(rows: map<int, Event>, r: seq<Event>) {
    forall i :: 0 <= i < |r| ==> r[i].id in rows && rows[r[i].id] == r[i]
  }

  /** One step of the listing loop: inserting row `k` keeps every listed
      element a stored row and adds row `k` to what is listed. */
  lemma ListStep(rows: map<int, Event>, r: seq<Event>, k: int)
    requires k in rows && rows[k].id == k && SortedByDate(r) && RowsOf(rows, r)
    requires forall j :: j in rows && j < k ==> rows[j] in r
    ensures RowsOf(rows, InsertByDate(r, rows[k]))
    ensures forall j :: j in rows && j < k + 1 ==> rows[j] in InsertByDate(r, rows[k])
    ensures |InsertByDate(r, rows[k])| == |r| + 1
  {
    var r' := InsertByDate(r, rows[k]);
    InsertMembers(r, rows[k]);
    forall i | 0 <= i < |r'| ensures r'[i].id in rows && rows[r'[i].id] == r'[i] {
      assert r'[i] in r';
      if r'[i] != rows[k] {
        var i0 :| 0 <= i0 < |r| && r[i0] == r'[i];
      }
    }
  }

  // ---- the seed data

  /** The three demonstration events, without their ids. */
  function SeedEvents(today: string, tomorrow: string, nextWeek: string): seq<Event> {
    [NeonNights(today), MetalThunder(tomorrow), JazzAndGin(nextWeek)]
  }

  function NeonNights(date: string): Event {
    Event(0, date, "Neon Nights: Synthwave Special", Some("The Midnight Runners, Cyber City"),
          Some("Featuring The Midnight Runners and Cyber City."), Some("18:00"), Some("19:00"),
          Some("¥2,500"), Some("¥3,000"), None)
  }

  function MetalThunder(date: string): Event {
    Event(0, date, "Heavy Metal Thunder", Some("Iron Fist, Skull Crusher"),
          Some("Loud noises and headbanging. Earplugs recommended."), Some("17:30"), Some("18:30"),
          Some("¥3,000"), Some("¥3,500"), None)
  }

  function JazzAndGin(date: string): Event {
    Event(0, date, "Jazz & Gin", Some("Downtown Quartet"),
          Some("Smooth jazz evening with the Downtown Quartet."), Some("19:00"), Some("20:00"),
          Some("¥2,000"), Some("¥2,500"), None)
  }

  class EventStore {
    /** The rows of `events`, by id. */
    var rows: map<int, Event>
    /** The AUTOINCREMENT sequence: the largest id ever issued. */
    var lastId: nat
    /** Every id the table has ever handed out, deleted rows' included. */
    ghost var issued: set<int>

    /** Each row is stored under its own id, which was issued, and no
        issued id lies beyond the sequence, so the next id is fresh. */
    ghost predicate Valid()
      reads this
    {
      && (forall id :: id in rows ==> rows[id].id == id && id in issued)
      && (forall id :: id in issued ==> 0 < id <= lastId)
    }

    /** A newly created database file with an empty table. */
    constructor ()
      ensures Valid() && rows == map[] && lastId == 0 && issued == {}
    {
      rows := map[];
      lastId := 0;
      issued := {};
    }

    /** One INSERT: the row gets the next id of the sequence. */
    method Insert(e: Event) returns (id: int)
      requires Valid()
      modifies this
      ensures Valid()
      ensures id == old(lastId) + 1 && lastId == id
      ensures id !in old(issued) && issued == old(issued) + {id}
      ensures rows == old(rows)[id := e.(id := id)]
    {
      id := lastId + 1;
      rows := rows[id := e.(id := id)];
      lastId := id;
      issued := issued + {id};
    }

    /** Three INSERTs in a row, into an empty table. */
    method InsertThree(e0: Event, e1: Event, e2: Event)
      requires Valid() && rows == map[]
      modifies this
      ensures Valid()
      ensures var n := old(lastId);
        lastId == n + 3 && issued == old(issued) + {n + 1, n + 2, n + 3} &&
        rows == map[n + 1 := e0.(id := n + 1), n + 2 := e1.(id := n + 2), n + 3 := e2.(id := n + 3)]
    {
      var _ := Insert(e0);
      var _ := Insert(e1);
      var _ := Insert(e2);
    }

    /** The start-up seed: three events, inserted only into an empty table. */
    method SeedIfEmpty(today: string, tomorrow: string, nextWeek: string)
      requires Valid()
      modifies this
      ensures Valid()
      ensures |old(rows)| != 0 ==> rows == old(rows) && lastId == old(lastId) && issued == old(issued)
      ensures |old(rows)| == 0 ==>
        var n, seed := old(lastId), SeedEvents(today, tomorrow, nextWeek);
        lastId == n + 3 && issued == old(issued) + {n + 1, n + 2, n + 3} &&
        rows == map[n + 1 := seed[0].(id := n + 1), n + 2 := seed[1].(id := n + 2), n + 3 := seed[2].(id := n + 3)]
    {
      if |rows| == 0 {
        var seed := SeedEvents(today, tomorrow, nextWeek);
        assert rows == map[];
        InsertThree(seed[0], seed[1], seed[2]);
      }
    }

    /** `GET /api/events`: every row once, sorted by date. Rows with the
        same date come in no particular order. */
    method List() returns (r: seq<Event>)
      requires Valid()
      ensures |r| == |rows|
      ensures RowsOf(rows, r)
      ensures forall id :: id in rows ==> rows[id] in r
      ensures SortedByDate(r)
    {
      r := [];
      ghost var done: set<int> := {};
      for k := 1 to lastId + 1
        invariant forall j :: j in done <==> j in rows && j < k
        invariant SortedByDate(r)
        invariant |r| == |done|
        invariant RowsOf(rows, r)
        invariant forall j :: j in rows && j < k ==> rows[j] in r
      {
        if k in rows {
          ListStep(rows, r, k);
          assert k !in done;
          r, done := InsertByDate(r, rows[k]), done + {k};
        }
      }
      assert done == rows.Keys by {
        forall j | j in rows ensures j in done {
          assert rows[j].id == j && j in issued && j <= lastId;
        }
        forall j | j in done ensures j in rows.Keys {
        }
      }
    }

    /** `POST /api/events`: insert the body as a new row with a fresh id and
        answer with the body and that id; a body without `date` or `title`
        breaks a NOT NULL constraint and changes nothing. */
    method Create(body: Draft) returns (reply: Reply)
      requires Valid()
      modifies this
      ensures Valid()
      ensures !HasRequired(body) ==>
        reply == Failed("Failed to create event") && rows == old(rows) && lastId == old(lastId) &&
        issued == old(issued)
      ensures HasRequired(body) ==>
        && lastId == old(lastId) + 1
        && lastId !in old(issued) && issued == old(issued) + {lastId}
        && (forall id :: id in old(rows) ==> id < lastId)
        && rows == old(rows)[lastId := RowFromBody(lastId, body)]
        && reply == Saved(WithId(body, lastId))
    {
      if !HasRequired(body) {
        return Failed("Failed to create event");
      }
      var id := Insert(RowFromBody(0, body));
      reply := Saved(WithId(body, id));
    }

    /** `PUT /api/events/:id`: overwrite every column of that row from the
        body. An unknown id matches no row, changes nothing and succeeds;
        a matched row with no `date` or `title` breaks NOT NULL. */
    method Update(id: int, body: Draft) returns (reply: Reply)
      requires Valid()
      modifies this
      ensures Valid() && lastId == old(lastId) && issued == old(issued)
      ensures id !in old(rows) ==> rows == old(rows) && reply == Saved(WithId(body, id))
      ensures id in old(rows) && !HasRequired(body) ==>
        rows == old(rows) && reply == Failed("Failed to update event")
      ensures id in old(rows) && HasRequired(body) ==>
        rows == old(rows)[id := RowFromBody(id, body)] && reply == Saved(WithId(body, id))
    {
      if id in rows {
        if !HasRequired(body) {
          return Failed("Failed to update event");
        }
        rows := rows[id := RowFromBody(id, body)];
      }
      reply := Saved(WithId(body, id));
    }

    /** `DELETE /api/events/:id`: remove that row if there is one; succeed
        either way. */
    method Delete(id: int) returns (reply: Reply)
      requires Valid()
      modifies this
      ensures Valid() && lastId == old(lastId) && issued == old(issued)
      ensures rows == old(rows) - {id} && reply == Deleted
    {
      rows := rows - {id};
      reply := Deleted;
    }
  }
}
