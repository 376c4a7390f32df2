/** The public listing of the events coming up at one location: each event
    with an event-venue there starting at or after `now`, ordered by title,
    reported with its earliest such start and the cheapest seat of the venue
    holding that start. */
module LocationListing {
  import opened Records
  import opened Ordering
  import opened Seqs
  import opened Sorting

  /** One entry of the listing. `lowestPrice` is `None` when the venue has no
      seats. */
  datatype Card = Card(
    id: nat,
    title: string,
    thumbnail: string,
    duration: string,
    category: Option<string>,
    start: int,
    lowestPrice: Option<int>)

  /** `r` is an event-venue of event `eventId` at the location, not yet begun. */
  predicate UpcomingAt(r: EventVenue, eventId: nat, locationId: nat, now: int) {
    r.eventId == eventId && r.locationId == locationId && r.start >= now
  }

  /** The `whereHas` condition: some event-venue of `e` is upcoming at the
      location. */
  predicate Listed(e: Event, rows: seq<EventVenue>, locationId: nat, now: int) {
    exists i :: 0 <= i < |rows| && UpcomingAt(rows[i], e.id, locationId, now)
  }

  /** The position of the first eager-loaded event-venue: an upcoming row of
      the event at the location with the smallest start. */
  function EarliestUpcoming(rows: seq<EventVenue>, eventId: nat, locationId: nat, now: int): (k: Option<nat>)
    ensures k.None? <==> !exists i :: 0 <= i < |rows| && UpcomingAt(rows[i], eventId, locationId, now)
    ensures k.Some? ==> k.value < |rows| && UpcomingAt(rows[k.value], eventId, locationId, now)
    ensures k.Some? ==> forall i :: 0 <= i < |rows| && UpcomingAt(rows[i], eventId, locationId, now) ==>
                          rows[k.value].start <= rows[i].start
    decreases |rows|
  {
    if |rows| == 0 then None
    else
      var n := |rows| - 1;
      var front := rows[..n];
      assert forall i :: 0 <= i < n ==> front[i] == rows[i];
      var rest := EarliestUpcoming(front, eventId, locationId, now);
      if !UpcomingAt(rows[n], eventId, locationId, now) then rest
      else if rest.Some? && rows[rest.value].start <= rows[n].start then rest
      else Some(n)
  }

  /** The cheapest seat price of a venue, `None` when it has no seats. */
  function MinPrice(seats: seq<Seat>, venueId: nat): (m: Option<int>)
    ensures m.None? <==> forall i :: 0 <= i < |seats| ==> seats[i].venueId != venueId
    ensures m.Some? ==> exists i :: 0 <= i < |seats| && seats[i].venueId == venueId && seats[i].price == m.value
    ensures m.Some? ==> forall i :: 0 <= i < |seats| && seats[i].venueId == venueId ==> m.value <= seats[i].price
    decreases |seats|
  {
    if |seats| == 0 then None
    else
      var n := |seats| - 1;
      var front := seats[..n];
      assert forall i :: 0 <= i < n ==> front[i] == seats[i];
      var rest := MinPrice(front, venueId);
      if seats[n].venueId != venueId then rest
      else if rest.Some? && rest.value <= seats[n].price then rest
      else Some(seats[n].price)
  }

  /** The card of a listed event. */
  function CardOf(e: Event, rows: seq<EventVenue>, seats: seq<Seat>, locationId: nat, now: int): Card
    requires Listed(e, rows, locationId, now)
  {
    var first := rows[EarliestUpcoming(rows, e.id, locationId, now).value];
    Card(e.id, e.title, e.thumbnail, e.duration, e.categoryName, first.start, MinPrice(seats, first.venueId))
  }

  /** `c` reports event `e`: its own fields, its earliest upcoming start at
      the location, and the cheapest seat of a venue holding that start. */
  predicate Describes(c: Card, e: Event, rows: seq<EventVenue>, seats: seq<Seat>, locationId: nat, now: int) {
    && c.id == e.id && c.title == e.title && c.thumbnail == e.thumbnail
    && c.duration == e.duration && c.category == e.categoryName
    && c.start >= now
    && (exists k :: 0 <= k < |rows| && UpcomingAt(rows[k], e.id, locationId, now)
         && rows[k].start == c.start && c.lowestPrice == MinPrice(seats, rows[k].venueId))
    && (forall k :: 0 <= k < |rows| && UpcomingAt(rows[k], e.id, locationId, now) ==> c.start <= rows[k].start)
  }

  /** `c` describes some listed event of `events`. */
  predicate Reports(c: Card, events: seq<Event>, rows: seq<EventVenue>, seats: seq<Seat>, locationId: nat, now: int) {
    exists e :: e in events && Listed(e, rows, locationId, now) && Describes(c, e, rows, seats, locationId, now)
  }

  lemma CardDescribes(e: Event, rows: seq<EventVenue>, seats: seq<Seat>, locationId: nat, now: int)
    requires Listed(e, rows, locationId, now)
    ensures Describes(CardOf(e, rows, seats, locationId, now), e, rows, seats, locationId, now)
  {
    var k := EarliestUpcoming(rows, e.id, locationId, now).value;
    assert UpcomingAt(rows[k], e.id, locationId, now);
  }

  /** The listed events, ordered by title. */
  function ListedByTitle(events: seq<Event>, rows: seq<EventVenue>, locationId: nat, now: int): (sorted: seq<Event>)
    ensures forall e :: e in sorted <==> e in events && Listed(e, rows, locationId, now)
    ensures forall i :: 0 <= i < |sorted| ==> Listed(sorted[i], rows, locationId, now)
    ensures |sorted| == |set i | 0 <= i < |events| && Listed(events[i], rows, locationId, now)|
    ensures Sorted(sorted, TitleColumn, Asc)
  {
    var chosen := Filter(events, (e: Event) => Listed(e, rows, locationId, now));
    FilterCount(events, (e: Event) => Listed(e, rows, locationId, now));
    CountIsCard(events, (e: Event) => Listed(e, rows, locationId, now),
                set i | 0 <= i < |events| && Listed(events[i], rows, locationId, now));
    var sorted := Sort(chosen, TitleColumn, Asc);
    assert forall e :: e in sorted <==> e in chosen by {
      forall e ensures e in sorted <==> e in chosen {
        SortKeepsMembers(chosen, TitleColumn, Asc, e);
      }
    }
    assert forall i :: 0 <= i < |sorted| ==> Listed(sorted[i], rows, locationId, now) by {
      forall i | 0 <= i < |sorted| ensures Listed(sorted[i], rows, locationId, now) {
        assert sorted[i] in sorted;
      }
    }
    sorted
  }

  /** `getEventsByLocation`. */
  function EventsByLocation(events: seq<Event>, rows: seq<EventVenue>, seats: seq<Seat>, locationId: nat, now: int)
    : (r: seq<Card>)
    ensures |r| == |set i | 0 <= i < |events| && Listed(events[i], rows, locationId, now)|
    ensures forall i :: 0 <= i < |r| ==>
              Reports(r[i], events, rows, seats, locationId, now)
    ensures forall e :: e in events && Listed(e, rows, locationId, now) ==> exists i :: 0 <= i < |r| && r[i].id == e.id
    ensures forall i, j :: 0 <= i < j < |r| ==> LexLe(r[i].title, r[j].title)
  {
    var sorted := ListedByTitle(events, rows, locationId, now);
    var r := seq(|sorted|, i requires 0 <= i < |sorted| => CardOf(sorted[i], rows, seats, locationId, now));
    ListingSound(events, sorted, r, rows, seats, locationId, now);
    ListingComplete(events, sorted, r, rows, seats, locationId, now);
    ListingOrdered(sorted, r, rows, seats, locationId, now);
    r
  }

  lemma ListingSound(events: seq<Event>, sorted: seq<Event>, r: seq<Card>,
                     rows: seq<EventVenue>, seats: seq<Seat>, locationId: nat, now: int)
    requires forall e :: e in sorted ==> e in events
    requires |r| == |sorted|
    requires forall i :: 0 <= i < |sorted| ==> Listed(sorted[i], rows, locationId, now)
    requires forall i :: 0 <= i < |r| ==> r[i] == CardOf(sorted[i], rows, seats, locationId, now)
    ensures forall i :: 0 <= i < |r| ==>
              Reports(r[i], events, rows, seats, locationId, now)
  {
    forall i | 0 <= i < |r|
      ensures Reports(r[i], events, rows, seats, locationId, now)
    {
      CardDescribes(sorted[i], rows, seats, locationId, now);
      assert sorted[i] in sorted;
      assert Describes(r[i], sorted[i], rows, seats, locationId, now);
    }
  }

  lemma ListingComplete(events: seq<Event>, sorted: seq<Event>, r: seq<Card>,
                        rows: seq<EventVenue>, seats: seq<Seat>, locationId: nat, now: int)
    requires forall e :: e in events && Listed(e, rows, locationId, now) ==> e in sorted
    requires |r| == |sorted|
    requires forall i :: 0 <= i < |sorted| ==> Listed(sorted[i], rows, locationId, now)
    requires forall i :: 0 <= i < |r| ==> r[i] == CardOf(sorted[i], rows, seats, locationId, now)
    ensures forall e :: e in events && Listed(e, rows, locationId, now) ==> exists i :: 0 <= i < |r| && r[i].id == e.id
  {
    forall e | e in events && Listed(e, rows, locationId, now) ensures exists i :: 0 <= i < |r| && r[i].id == e.id {
      var i :| 0 <= i < |sorted| && sorted[i] == e;
      assert r[i].id == e.id;
    }
  }

  lemma ListingOrdered(sorted: seq<Event>, r: seq<Card>,
                       rows: seq<EventVenue>, seats: seq<Seat>, locationId: nat, now: int)
    requires Sorted(sorted, TitleColumn, Asc)
    requires |r| == |sorted|
    requires forall i :: 0 <= i < |sorted| ==> Listed(sorted[i], rows, locationId, now)
    requires forall i :: 0 <= i < |r| ==> r[i] == CardOf(sorted[i], rows, seats, locationId, now)
    ensures forall i, j :: 0 <= i < j < |r| ==> LexLe(r[i].title, r[j].title)
  {
    forall i, j | 0 <= i < j < |r| ensures LexLe(r[i].title, r[j].title) {
      assert InOrder(TitleColumn, Asc, sorted[i], sorted[j]);
    }
  }

  /** An event whose event-venues at the location have all begun is not
      listed. */
  lemma PastEventsNotListed(events: seq<Event>, rows: seq<EventVenue>, seats: seq<Seat>, locationId: nat, now: int, e: Event)
    requires e in events
    requires forall i, j :: 0 <= i < |events| && 0 <= j < |events| && events[i].id == events[j].id ==> i == j
    requires forall k :: 0 <= k < |rows| && rows[k].eventId == e.id && rows[k].locationId == locationId ==> rows[k].start < now
    ensures forall c :: c in EventsByLocation(events, rows, seats, locationId, now) ==> c.id != e.id
  {
    var r := EventsByLocation(events, rows, seats, locationId, now);
    forall c | c in r ensures c.id != e.id {
      var i :| 0 <= i < |r| && r[i] == c;
      var d :| d in events && Listed(d, rows, locationId, now) && Describes(r[i], d, rows, seats, locationId, now);
    }
  }
}
