/** The seat and ticket tables and the invariant that ties them together: a
    seat is booked exactly when a booked ticket holds it, and no seat is held
    by two booked tickets. */
module TicketStore {
  import opened Records

  /** Event-venues, seats and tickets. A ticket's position is its id. */
  datatype Store = Store(rows: seq<EventVenue>, seats: seq<Seat>, tickets: seq<Ticket>)

  predicate UniqueSeatIds(seats: seq<Seat>) {
    forall a, b :: 0 <= a < b < |seats| ==> seats[a].id != seats[b].id
  }

  /** Some booked ticket holds seat `id`. */
  predicate HeldByBooked(tickets: seq<Ticket>, id: nat) {
    exists i :: 0 <= i < |tickets| && tickets[i].status == Booked && id in tickets[i].seatIds
  }

  predicate Disjoint(a: seq<nat>, b: seq<nat>) {
    forall x :: x in a ==> x !in b
  }

  /** The invariant booking and expiry maintain. */
  predicate Consistent(st: Store) {
    && UniqueSeatIds(st.seats)
    && (forall j :: 0 <= j < |st.seats| ==> (st.seats[j].isBooked <==> HeldByBooked(st.tickets, st.seats[j].id)))
    && (forall a, b :: 0 <= a < b < |st.tickets| && st.tickets[a].status == Booked && st.tickets[b].status == Booked ==>
          Disjoint(st.tickets[a].seatIds, st.tickets[b].seatIds))
  }

  /** Seat tables that differ at most in the booked flags. */
  predicate SameSeats(a: seq<Seat>, b: seq<Seat>) {
    |a| == |b| && forall j :: 0 <= j < |a| ==> a[j].id == b[j].id && a[j].venueId == b[j].venueId && a[j].price == b[j].price
  }
}

/** The `tickets:expire` command: every booked ticket whose event-venue has
    begun becomes expired, and the seats it holds are released. */
module ExpirySweep {
  import opened Records
  import opened TicketStore

  /** The event-venue with id `id` starts before `now`. */
  predicate Begun(rows: seq<EventVenue>, id: nat, now: int) {
    exists k :: 0 <= k < |rows| && rows[k].id == id && rows[k].start < now
  }

  /** The tickets the command selects. */
  predicate Stale(t: Ticket, rows: seq<EventVenue>, now: int) {
    t.status == Booked && Begun(rows, t.eventVenueId, now)
  }

  /** Seat `id` is held by one of the first `n` tickets the command selects. */
  predicate ReleasedBy(st: Store, now: int, n: nat, id: nat)
    requires n <= |st.tickets|
  {
    exists i :: 0 <= i < n && Stale(st.tickets[i], st.rows, now) && id in st.tickets[i].seatIds
  }

  function ExpireTicket(t: Ticket, rows: seq<EventVenue>, now: int): Ticket {
    if Stale(t, rows, now) then t.(status := Expired) else t
  }

  function ReleaseSeat(st: Store, now: int, s: Seat): Seat {
    if ReleasedBy(st, now, |st.tickets|, s.id) then s.(isBooked := false) else s
  }

  /** The store after the whole command, stated table by table. */
  function Sweep(st: Store, now: int): Store {
    Store(st.rows,
          seq(|st.seats|, j requires 0 <= j < |st.seats| => ReleaseSeat(st, now, st.seats[j])),
          seq(|st.tickets|, i requires 0 <= i < |st.tickets| => ExpireTicket(st.tickets[i], st.rows, now)))
  }

  /** Release the seats with ids in `ids` that exist; missing ids are
      skipped. */
  function Unbook(seats: seq<Seat>, ids: seq<nat>): (r: seq<Seat>)
    ensures |r| == |seats|
    ensures forall j :: 0 <= j < |seats| ==> r[j] == if seats[j].id in ids then seats[j].(isBooked := false) else seats[j]
  {
    seq(|seats|, j requires 0 <= j < |seats| => if seats[j].id in ids then seats[j].(isBooked := false) else seats[j])
  }

  /** `handle`: select the stale tickets up front, then expire them one by
      one, each together with its seat releases. */
  method Expire(st: Store, now: int) returns (r: Store)
    ensures r == Sweep(st, now)
    ensures r.rows == st.rows && |r.tickets| == |st.tickets| && |r.seats| == |st.seats|
    ensures forall i :: 0 <= i < |st.tickets| && Stale(st.tickets[i], st.rows, now) ==>
              r.tickets[i] == st.tickets[i].(status := Expired)
    ensures forall i :: 0 <= i < |st.tickets| && !Stale(st.tickets[i], st.rows, now) ==> r.tickets[i] == st.tickets[i]
    ensures forall j :: 0 <= j < |st.seats| ==>
              r.seats[j].isBooked == (st.seats[j].isBooked && !ReleasedBy(st, now, |st.tickets|, st.seats[j].id))
  {
    var tickets := st.tickets;
    var seats := st.seats;
    var i := 0;
    while i < |st.tickets|
      invariant 0 <= i <= |st.tickets|
      invariant |tickets| == |st.tickets| && |seats| == |st.seats|
      invariant forall k :: 0 <= k < i ==> tickets[k] == ExpireTicket(st.tickets[k], st.rows, now)
      invariant forall k :: i <= k < |st.tickets| ==> tickets[k] == st.tickets[k]
      invariant forall j :: 0 <= j < |seats| ==>
                  seats[j] == if ReleasedBy(st, now, i, st.seats[j].id) then st.seats[j].(isBooked := false) else st.seats[j]
    {
      var t := st.tickets[i];
      if Stale(t, st.rows, now) {
        tickets := tickets[i := t.(status := Expired)];
        seats := Unbook(seats, t.seatIds);
      }
      assert forall id :: ReleasedBy(st, now, i + 1, id) <==>
               ReleasedBy(st, now, i, id) || (Stale(t, st.rows, now) && id in t.seatIds);
      i := i + 1;
    }
    r := Store(st.rows, seats, tickets);
  }

  /** A second run with the same `now` changes nothing. */
  lemma SweepIdempotent(st: Store, now: int)
    ensures Sweep(Sweep(st, now), now) == Sweep(st, now)
  {
    var once := Sweep(st, now);
    assert forall i :: 0 <= i < |once.tickets| ==> !Stale(once.tickets[i], once.rows, now);
    assert forall id :: !ReleasedBy(once, now, |once.tickets|, id);
  }

  /** Tickets the command does not select, and seats none of the selected
      tickets hold, are left as they were. */
  lemma SweepLeavesOthers(st: Store, now: int)
    ensures forall i :: 0 <= i < |st.tickets| && !Stale(st.tickets[i], st.rows, now) ==>
              Sweep(st, now).tickets[i] == st.tickets[i]
    ensures forall j :: 0 <= j < |st.seats| && !ReleasedBy(st, now, |st.tickets|, st.seats[j].id) ==>
              Sweep(st, now).seats[j] == st.seats[j]
    ensures SameSeats(Sweep(st, now).seats, st.seats)
  {
  }

  /** After the command no booked ticket of a begun event-venue is left. */
  lemma SweepLeavesNoStale(st: Store, now: int)
    ensures forall i :: 0 <= i < |st.tickets| ==> !Stale(Sweep(st, now).tickets[i], st.rows, now)
    ensures forall i :: 0 <= i < |st.tickets| && Stale(st.tickets[i], st.rows, now) ==>
              Sweep(st, now).tickets[i].status == Expired
  {
  }

  /** The command keeps the seat/ticket invariant. */
  lemma SweepKeepsConsistent(st: Store, now: int)
    requires Consistent(st)
    ensures Consistent(Sweep(st, now))
  {
    var r := Sweep(st, now);
    forall j | 0 <= j < |r.seats| ensures r.seats[j].isBooked <==> HeldByBooked(r.tickets, r.seats[j].id) {
      var id := st.seats[j].id;
      if ReleasedBy(st, now, |st.tickets|, id) {
        var a :| 0 <= a < |st.tickets| && Stale(st.tickets[a], st.rows, now) && id in st.tickets[a].seatIds;
      } else {
        if HeldByBooked(st.tickets, id) {
          var b :| 0 <= b < |st.tickets| && st.tickets[b].status == Booked && id in st.tickets[b].seatIds;
          assert r.tickets[b] == st.tickets[b];
        }
      }
    }
  }
}
