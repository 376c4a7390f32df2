/** The ticket seeder's booking loop: for each event-venue starting within a
    month, tickets take the venue's free seats off the front of the list, one
    to three at a time, each ticket in its own transaction. The random
    choices are a plan passed in. */
module SeatBooking {
  import opened Records
  import opened Seqs
  import opened TicketStore

  /** The choices made for one ticket: the buyer, the number of seats asked
      for, the ticket code, and whether the transaction throws. */
  datatype Draw = Draw(userId: nat, count: nat, code: string, fails: bool)

  function SeatIds(seats: seq<Seat>): (ids: seq<nat>)
    ensures |ids| == |seats|
    ensures forall k :: 0 <= k < |seats| ==> ids[k] == seats[k].id
  {
    seq(|seats|, k requires 0 <= k < |seats| => seats[k].id)
  }

  /** `$seatsToBook->sum('price')`. */
  function SumPrices(seats: seq<Seat>): int {
    if |seats| == 0 then 0 else seats[0].price + SumPrices(seats[1..])
  }

  /** The price of the seat with id `id` in the table, 0 when there is none. */
  function PriceOf(seats: seq<Seat>, id: nat): int {
    if |seats| == 0 then 0 else if seats[0].id == id then seats[0].price else PriceOf(seats[1..], id)
  }

  /** The price of a list of seat ids, looked up in the seat table. */
  function SumById(seats: seq<Seat>, ids: seq<nat>): int {
    if |ids| == 0 then 0 else PriceOf(seats, ids[0]) + SumById(seats, ids[1..])
  }

  lemma {:induction false} PriceOfMember(seats: seq<Seat>, s: Seat)
    requires UniqueSeatIds(seats) && s in seats
    ensures PriceOf(seats, s.id) == s.price
  {
    if seats[0] != s {
      var c :| 0 <= c < |seats| && seats[c] == s;
      assert c != 0;
      assert seats[1..][c - 1] == s;
      PriceOfMember(seats[1..], s);
    }
  }

  lemma {:induction false} SumByIdOfMembers(seats: seq<Seat>, chosen: seq<Seat>)
    requires UniqueSeatIds(seats)
    requires forall s :: s in chosen ==> s in seats
    ensures SumById(seats, SeatIds(chosen)) == SumPrices(chosen)
  {
    if |chosen| > 0 {
      PriceOfMember(seats, chosen[0]);
      assert SeatIds(chosen)[1..] == SeatIds(chosen[1..]);
      SumByIdOfMembers(seats, chosen[1..]);
    }
  }

  lemma {:induction false} PriceOfSame(a: seq<Seat>, b: seq<Seat>, id: nat)
    requires SameSeats(a, b)
    ensures PriceOf(a, id) == PriceOf(b, id)
  {
    if |a| > 0 {
      PriceOfSame(a[1..], b[1..], id);
    }
  }

  lemma {:induction false} SumByIdSame(a: seq<Seat>, b: seq<Seat>, ids: seq<nat>)
    requires SameSeats(a, b)
    ensures SumById(a, ids) == SumById(b, ids)
  {
    if |ids| > 0 {
      PriceOfSame(a, b, ids[0]);
      SumByIdSame(a, b, ids[1..]);
    }
  }

  lemma {:induction false} SubseqUniqueIds(r: seq<Seat>, s: seq<Seat>)
    requires IsSubseq(r, s) && UniqueSeatIds(s)
    ensures UniqueSeatIds(r)
    decreases |s|
  {
    if |r| > 0 {
      if r[0] == s[0] && IsSubseq(r[1..], s[1..]) {
        SubseqUniqueIds(r[1..], s[1..]);
        SubseqMembers(r[1..], s[1..]);
        forall b | 0 < b < |r| ensures r[0].id != r[b].id {
          assert r[b] in r[1..];
          var c :| 0 <= c < |s[1..]| && s[1..][c] == r[b];
          assert s[c + 1] == r[b];
        }
      } else {
        SubseqUniqueIds(r, s[1..]);
      }
    }
  }

  /** The venue's seats that are not booked, in table order. */
  function FreeSeats(seats: seq<Seat>, venueId: nat): (r: seq<Seat>)
    ensures forall s :: s in r <==> s in seats && s.venueId == venueId && !s.isBooked
    ensures UniqueSeatIds(seats) ==> UniqueSeatIds(r)
  {
    var r := Filter(seats, (s: Seat) => s.venueId == venueId && !s.isBooked);
    if UniqueSeatIds(seats) then SubseqUniqueIds(r, seats); r else r
  }

  /** Set the booked flag of the seats whose ids are listed. */
  function MarkBooked(seats: seq<Seat>, ids: seq<nat>): (r: seq<Seat>)
    ensures |r| == |seats|
    ensures forall j :: 0 <= j < |seats| ==> r[j] == if seats[j].id in ids then seats[j].(isBooked := true) else seats[j]
  {
    seq(|seats|, j requires 0 <= j < |seats| => if seats[j].id in ids then seats[j].(isBooked := true) else seats[j])
  }

  /** One ticket's transaction: a booked ticket priced at the sum of its
      seats, one join row per seat, and the seats marked booked. A failed
      transaction is rolled back and leaves the store as it was. */
  function BookTicket(st: Store, eventVenueId: nat, d: Draw, chosen: seq<Seat>): (r: Store)
    ensures r == st <==> d.fails
    ensures r.rows == st.rows && |r.seats| == |st.seats|
    ensures !d.fails ==> |r.tickets| == |st.tickets| + 1 && r.tickets[..|st.tickets|] == st.tickets
  {
    if d.fails then st
    else
      var ids := SeatIds(chosen);
      Store(st.rows, MarkBooked(st.seats, ids),
            st.tickets + [Ticket(d.userId, eventVenueId, d.code, SumPrices(chosen), Booked, ids)])
  }

  /** Booking free seats keeps the seat/ticket invariant. */
  lemma BookKeepsConsistent(st: Store, eventVenueId: nat, d: Draw, chosen: seq<Seat>)
    requires Consistent(st)
    requires forall s :: s in chosen ==> s in st.seats && !s.isBooked
    ensures Consistent(BookTicket(st, eventVenueId, d, chosen))
    ensures SameSeats(BookTicket(st, eventVenueId, d, chosen).seats, st.seats)
  {
    if !d.fails {
      var ids := SeatIds(chosen);
      var t := Ticket(d.userId, eventVenueId, d.code, SumPrices(chosen), Booked, ids);
      assert BookTicket(st, eventVenueId, d, chosen) == Store(st.rows, MarkBooked(st.seats, ids), st.tickets + [t]);
      ChosenNotHeld(st, chosen);
      AppendKeepsSeatClause(st, t);
      AppendKeepsDisjoint(st, t);
    }
  }

  /** Free seats are held by no booked ticket. */
  lemma ChosenNotHeld(st: Store, chosen: seq<Seat>)
    requires Consistent(st)
    requires forall s :: s in chosen ==> s in st.seats && !s.isBooked
    ensures forall x :: x in SeatIds(chosen) ==> !HeldByBooked(st.tickets, x)
  {
    var ids := SeatIds(chosen);
    forall x | x in ids ensures !HeldByBooked(st.tickets, x) {
      var k :| 0 <= k < |chosen| && ids[k] == x;
      var j :| 0 <= j < |st.seats| && st.seats[j] == chosen[k];
    }
  }

  /** Appending a booked ticket and marking its seats booked keeps "booked
      exactly when held". */
  lemma AppendKeepsSeatClause(st: Store, t: Ticket)
    requires Consistent(st) && t.status == Booked
    ensures forall j :: 0 <= j < |st.seats| ==>
              (MarkBooked(st.seats, t.seatIds)[j].isBooked <==> HeldByBooked(st.tickets + [t], st.seats[j].id))
  {
    var all := st.tickets + [t];
    var n := |st.tickets|;
    forall j | 0 <= j < |st.seats|
      ensures MarkBooked(st.seats, t.seatIds)[j].isBooked <==> HeldByBooked(all, st.seats[j].id)
    {
      var id := st.seats[j].id;
      if id in t.seatIds {
        assert all[n] == t;
      } else {
        if HeldByBooked(st.tickets, id) {
          var i :| 0 <= i < n && st.tickets[i].status == Booked && id in st.tickets[i].seatIds;
          assert all[i] == st.tickets[i];
        }
        if HeldByBooked(all, id) {
          var i :| 0 <= i < |all| && all[i].status == Booked && id in all[i].seatIds;
          assert i < n && all[i] == st.tickets[i];
        }
      }
    }
  }

  /** A booked ticket on seats no booked ticket holds shares no seat with
      the others. */
  lemma AppendKeepsDisjoint(st: Store, t: Ticket)
    requires Consistent(st)
    requires forall x :: x in t.seatIds ==> !HeldByBooked(st.tickets, x)
    ensures var all := st.tickets + [t];
            forall a, b :: 0 <= a < b < |all| && all[a].status == Booked && all[b].status == Booked ==>
              Disjoint(all[a].seatIds, all[b].seatIds)
  {
    var all := st.tickets + [t];
    var n := |st.tickets|;
    forall a, b | 0 <= a < b < |all| && all[a].status == Booked && all[b].status == Booked
      ensures Disjoint(all[a].seatIds, all[b].seatIds)
    {
      assert all[a] == st.tickets[a];
      if b == n {
        forall x | x in all[a].seatIds ensures x !in t.seatIds {
          assert st.tickets[a].status == Booked && x in st.tickets[a].seatIds;
        }
      } else {
        assert all[b] == st.tickets[b];
      }
    }
  }

  /** The tickets the loop for one event-venue creates from its free seats
      `free`: each draw takes the next `count` seats off the front (all that
      are left when fewer remain). A failing draw creates no ticket, but its
      seats are spliced off all the same. The first empty splice ends the
      loop. */
  function PlannedTickets(row: EventVenue, free: seq<Seat>, draws: seq<Draw>): seq<Ticket>
    decreases |draws|
  {
    if |draws| == 0 then []
    else
      var d := draws[0];
      var k := if d.count < |free| then d.count else |free|;
      if k == 0 then []
      else
        var rest := PlannedTickets(row, free[k..], draws[1..]);
        if d.fails then rest
        else [Ticket(d.userId, row.id, d.code, SumPrices(free[..k]), Booked, SeatIds(free[..k]))] + rest
  }

  /** The seat ids the tickets hold, in ticket order. */
  function HeldIds(ts: seq<Ticket>): seq<nat> {
    if |ts| == 0 then [] else ts[0].seatIds + HeldIds(ts[1..])
  }

  /** The store after the loop for one event-venue: the planned tickets
      appended and their seats marked booked. */
  function BookedVenue(st: Store, row: EventVenue, draws: seq<Draw>): Store {
    var ts := PlannedTickets(row, FreeSeats(st.seats, row.venueId), draws);
    Store(st.rows, MarkBooked(st.seats, HeldIds(ts)), st.tickets + ts)
  }

  /** The store after the seeder has visited `rows` in order, booking those
      starting no later than `oneMonthLater`. */
  function SeedFrom(s: Store, rows: seq<EventVenue>, oneMonthLater: int, plan: EventVenue -> seq<Draw>): Store
    decreases |rows|
  {
    if |rows| == 0 then s
    else
      var next := if rows[0].start <= oneMonthLater then BookedVenue(s, rows[0], plan(rows[0])) else s;
      SeedFrom(next, rows[1..], oneMonthLater, plan)
  }

  lemma {:induction false} HeldIdsSnoc(ts: seq<Ticket>, t: Ticket)
    ensures HeldIds(ts + [t]) == HeldIds(ts) + t.seatIds
    decreases |ts|
  {
    if |ts| > 0 {
      assert (ts + [t])[1..] == ts[1..] + [t];
      HeldIdsSnoc(ts[1..], t);
    }
  }

  lemma {:induction false} MarkBookedTwice(seats: seq<Seat>, a: seq<nat>, b: seq<nat>)
    ensures MarkBooked(MarkBooked(seats, a), b) == MarkBooked(seats, a + b)
  {
    var l := MarkBooked(MarkBooked(seats, a), b);
    var r := MarkBooked(seats, a + b);
    forall j | 0 <= j < |seats| ensures l[j] == r[j] {
      assert seats[j].id in a + b <==> seats[j].id in a || seats[j].id in b;
    }
  }

  lemma SeatIdsSplit(free: seq<Seat>, k: nat)
    requires k <= |free|
    ensures SeatIds(free) == SeatIds(free[..k]) + SeatIds(free[k..])
  {
  }

  /** With draws that all ask for a seat and succeed, and at least as many
      draws as free seats, every free seat is sold, in list order. */
  lemma {:induction false} PlannedSellsAll(row: EventVenue, free: seq<Seat>, draws: seq<Draw>)
    requires forall i :: 0 <= i < |draws| ==> draws[i].count >= 1 && !draws[i].fails
    requires |draws| >= |free|
    ensures HeldIds(PlannedTickets(row, free, draws)) == SeatIds(free)
    decreases |draws|
  {
    if |free| > 0 {
      var d := draws[0];
      assert d.count >= 1 && !d.fails;
      var k := if d.count < |free| then d.count else |free|;
      var t := Ticket(d.userId, row.id, d.code, SumPrices(free[..k]), Booked, SeatIds(free[..k]));
      var rest := PlannedTickets(row, free[k..], draws[1..]);
      assert forall i :: 0 <= i < |draws[1..]| ==> draws[1..][i] == draws[i + 1];
      PlannedSellsAll(row, free[k..], draws[1..]);
      assert PlannedTickets(row, free, draws) == [t] + rest;
      assert HeldIds([t] + rest) == t.seatIds + HeldIds(rest) by {
        assert ([t] + rest)[0] == t && ([t] + rest)[1..] == rest;
      }
      SeatIdsSplit(free, k);
    } else if |draws| > 0 {
      assert PlannedTickets(row, free, draws) == [];
    }
  }

  /** One draw of the loop against the reference: what is done plus what is
      still planned does not change, and the seats booked so far are those
      the new tickets hold. */
  lemma {:induction false} PlanStep(st: Store, r: Store, r': Store, row: EventVenue, free: seq<Seat>, draws: seq<Draw>, remaining: seq<Seat>, n: nat, k: nat)
    requires n < |draws| && 0 < k <= |remaining|
    requires k == if draws[n].count < |remaining| then draws[n].count else |remaining|
    requires r' == BookTicket(r, row.id, draws[n], remaining[..k])
    requires OnPlan(st, r, row, free, draws, remaining, n)
    requires r.tickets[..|st.tickets|] == st.tickets
    ensures OnPlan(st, r', row, free, draws, remaining[k..], n + 1)
  {
    var rest := draws[n..];
    assert rest[0] == draws[n] && rest[1..] == draws[n + 1..];
    PlanStepTickets(r, r', row, remaining, rest, k);
    if !draws[n].fails {
      PlanStepSeats(st, r, r', row, draws[n], remaining[..k]);
    }
  }

  lemma PlanStepTickets(r: Store, r': Store, row: EventVenue, remaining: seq<Seat>, rest: seq<Draw>, k: nat)
    requires |rest| > 0 && 0 < k <= |remaining|
    requires k == if rest[0].count < |remaining| then rest[0].count else |remaining|
    requires r' == BookTicket(r, row.id, rest[0], remaining[..k])
    ensures r'.tickets + PlannedTickets(row, remaining[k..], rest[1..]) == r.tickets + PlannedTickets(row, remaining, rest)
  {
  }

  lemma PlanStepSeats(st: Store, r: Store, r': Store, row: EventVenue, d: Draw, chosen: seq<Seat>)
    requires !d.fails && |st.tickets| <= |r.tickets| && r.tickets[..|st.tickets|] == st.tickets
    requires r' == BookTicket(r, row.id, d, chosen)
    requires r.seats == MarkBooked(st.seats, HeldIds(r.tickets[|st.tickets|..]))
    ensures r'.seats == MarkBooked(st.seats, HeldIds(r'.tickets[|st.tickets|..]))
  {
    var t := Ticket(d.userId, row.id, d.code, SumPrices(chosen), Booked, SeatIds(chosen));
    assert r'.tickets[|st.tickets|..] == r.tickets[|st.tickets|..] + [t];
    HeldIdsSnoc(r.tickets[|st.tickets|..], t);
    MarkBookedTwice(st.seats, HeldIds(r.tickets[|st.tickets|..]), t.seatIds);
  }

  /** The loop for one event-venue is on plan: the tickets created so far
      followed by those still planned for `remaining` and the draws left
      are the tickets planned from the start, and the seats booked so far
      are those the new tickets hold. */
  predicate OnPlan(st: Store, r: Store, row: EventVenue, free: seq<Seat>, draws: seq<Draw>, remaining: seq<Seat>, n: nat)
    requires n <= |draws|
  {
    && |st.tickets| <= |r.tickets|
    && r.tickets + PlannedTickets(row, remaining, draws[n..]) == st.tickets + PlannedTickets(row, free, draws)
    && r.seats == MarkBooked(st.seats, HeldIds(r.tickets[|st.tickets|..]))
  }

  lemma PlanStart(st: Store, row: EventVenue, draws: seq<Draw>)
    ensures OnPlan(st, st, row, FreeSeats(st.seats, row.venueId), draws, FreeSeats(st.seats, row.venueId), 0)
  {
    assert draws[0..] == draws;
    assert st.tickets[|st.tickets|..] == [];
    assert st.seats == MarkBooked(st.seats, []);
  }

  /** Once the draws are used up or the next splice is empty, the store is
      the reference one. */
  lemma PlanDone(st: Store, r: Store, row: EventVenue, draws: seq<Draw>, remaining: seq<Seat>, n: nat)
    requires n <= |draws| && r.rows == st.rows
    requires OnPlan(st, r, row, FreeSeats(st.seats, row.venueId), draws, remaining, n)
    requires n < |draws| ==> draws[n].count == 0 || |remaining| == 0
    ensures r == BookedVenue(st, row, draws)
  {
    var free := FreeSeats(st.seats, row.venueId);
    assert PlannedTickets(row, remaining, draws[n..]) == [];
    assert r.tickets == st.tickets + PlannedTickets(row, free, draws);
    assert r.tickets[|st.tickets|..] == PlannedTickets(row, free, draws);
  }

  /** What a ticket created for event-venue `row` satisfies, against the seat
      table `seats` as it was before the booking loop. */
  predicate NewTicketOk(t: Ticket, row: EventVenue, seats: seq<Seat>) {
    && t.status == Booked
    && t.eventVenueId == row.id
    && |t.seatIds| > 0
    && t.totalPrice == SumById(seats, t.seatIds)
    && (forall x :: x in t.seatIds ==>
          exists j :: 0 <= j < |seats| && seats[j].id == x && seats[j].venueId == row.venueId && !seats[j].isBooked)
  }

  /** The tickets for one event-venue: each draw takes the next `count`
      free seats; the loop stops when the seats run out. A failed draw's
      seats are spliced off all the same. */
  method BookEventVenue(st: Store, row: EventVenue, draws: seq<Draw>) returns (r: Store)
    requires Consistent(st)
    ensures Consistent(r)
    ensures r.rows == st.rows && SameSeats(r.seats, st.seats)
    ensures |st.tickets| <= |r.tickets| <= |st.tickets| + |draws|
    ensures r.tickets[..|st.tickets|] == st.tickets
    ensures forall i :: |st.tickets| <= i < |r.tickets| ==> NewTicketOk(r.tickets[i], row, st.seats)
    ensures forall a, b :: |st.tickets| <= a < b < |r.tickets| ==> Disjoint(r.tickets[a].seatIds, r.tickets[b].seatIds)
    ensures (forall j :: 0 <= j < |st.seats| && st.seats[j].venueId == row.venueId ==> st.seats[j].isBooked) ==> r == st
    ensures r == BookedVenue(st, row, draws)
  {
    var remaining, n;
    r, remaining, n := SpliceDraws(st, row, draws);
    BookingExit(st, r, row, draws, remaining, n);
    PlanDone(st, r, row, draws, remaining, n);
  }

  /** The loop of `BookEventVenue`; it also returns the seats not spliced
      off and the number of draws used. */
  method SpliceDraws(st: Store, row: EventVenue, draws: seq<Draw>) returns (r: Store, remaining: seq<Seat>, n: nat)
    requires Consistent(st)
    ensures n <= |draws| && Booking(st, r, row, draws, remaining, n)
    ensures n < |draws| ==> draws[n].count == 0 || |remaining| == 0
  {
    remaining := FreeSeats(st.seats, row.venueId);
    r := st;
    n := 0;
    PlanStart(st, row, draws);
    assert Booking(st, r, row, draws, remaining, n);
    while n < |draws|
      invariant n <= |draws|
      invariant Booking(st, r, row, draws, remaining, n)
    {
      var d := draws[n];
      var k := if d.count < |remaining| then d.count else |remaining|;
      if k == 0 {
        break;
      }
      var before := r;
      r := BookTicket(r, row.id, d, remaining[..k]);
      BookingStep(st, before, r, row, draws, remaining, n, k);
      remaining := remaining[k..];
      n := n + 1;
    }
  }

  /** What the loop invariant gives once the loop of `SpliceDraws` ends. */
  lemma BookingExit(st: Store, r: Store, row: EventVenue, draws: seq<Draw>, remaining: seq<Seat>, n: nat)
    requires n <= |draws| && Booking(st, r, row, draws, remaining, n)
    ensures Consistent(r)
    ensures r.rows == st.rows && SameSeats(r.seats, st.seats)
    ensures |st.tickets| <= |r.tickets| <= |st.tickets| + |draws|
    ensures r.tickets[..|st.tickets|] == st.tickets
    ensures forall i :: |st.tickets| <= i < |r.tickets| ==> NewTicketOk(r.tickets[i], row, st.seats)
    ensures forall a, b :: |st.tickets| <= a < b < |r.tickets| ==> Disjoint(r.tickets[a].seatIds, r.tickets[b].seatIds)
    ensures (forall j :: 0 <= j < |st.seats| && st.seats[j].venueId == row.venueId ==> st.seats[j].isBooked) ==> r == st
    ensures OnPlan(st, r, row, FreeSeats(st.seats, row.venueId), draws, remaining, n)
  {
    NewTicketsDisjoint(st, r, row);
    var free := FreeSeats(st.seats, row.venueId);
    if free != [] {
      assert free[0] in free;
    }
  }

  /** Booked tickets of a consistent store share no seat. */
  lemma NewTicketsDisjoint(st: Store, r: Store, row: EventVenue)
    requires Consistent(r) && |st.tickets| <= |r.tickets|
    requires forall i :: |st.tickets| <= i < |r.tickets| ==> NewTicketOk(r.tickets[i], row, st.seats)
    ensures forall a, b :: |st.tickets| <= a < b < |r.tickets| ==> Disjoint(r.tickets[a].seatIds, r.tickets[b].seatIds)
  {
    forall a, b | |st.tickets| <= a < b < |r.tickets|
      ensures Disjoint(r.tickets[a].seatIds, r.tickets[b].seatIds)
    {
      assert NewTicketOk(r.tickets[a], row, st.seats) && NewTicketOk(r.tickets[b], row, st.seats);
    }
  }

  /** The invariant of the loop for one event-venue after `n` draws, with
      `remaining` the free seats not yet spliced off. */
  predicate Booking(st: Store, r: Store, row: EventVenue, draws: seq<Draw>, remaining: seq<Seat>, n: nat)
    requires n <= |draws|
  {
    var free := FreeSeats(st.seats, row.venueId);
    && Consistent(r)
    && r.rows == st.rows && SameSeats(r.seats, st.seats)
    && |st.tickets| <= |r.tickets| <= |st.tickets| + n
    && r.tickets[..|st.tickets|] == st.tickets
    && (forall i :: |st.tickets| <= i < |r.tickets| ==> NewTicketOk(r.tickets[i], row, st.seats))
    && UniqueSeatIds(remaining)
    && (forall s :: s in remaining ==> s in free && s in r.seats)
    && (|free| == 0 ==> r == st)
    && OnPlan(st, r, row, free, draws, remaining, n)
  }

  /** One draw that splices off `k > 0` seats keeps the loop invariant. */
  lemma BookingStep(st: Store, before: Store, r: Store, row: EventVenue, draws: seq<Draw>, remaining: seq<Seat>, n: nat, k: nat)
    requires Consistent(st) && n < |draws| && Booking(st, before, row, draws, remaining, n)
    requires k == if draws[n].count < |remaining| then draws[n].count else |remaining|
    requires k > 0
    requires r == BookTicket(before, row.id, draws[n], remaining[..k])
    ensures Booking(st, r, row, draws, remaining[k..], n + 1)
  {
    var free := FreeSeats(st.seats, row.venueId);
    assert remaining[0] in remaining;
    StepKeepsStore(st, before, r, row, draws[n], free, remaining[..k], n);
    StepKeepsRemaining(before, r, row, draws[n], free, remaining, k);
    PlanStep(st, before, r, row, free, draws, remaining, n, k);
  }

  /** The store half of `BookingStep`. */
  lemma StepKeepsStore(st: Store, before: Store, r: Store, row: EventVenue, d: Draw, free: seq<Seat>, chosen: seq<Seat>, n: nat)
    requires Consistent(st) && Consistent(before) && |chosen| > 0
    requires free == FreeSeats(st.seats, row.venueId)
    requires forall s :: s in chosen ==> s in free && s in before.seats
    requires before.rows == st.rows && SameSeats(before.seats, st.seats)
    requires |st.tickets| <= |before.tickets| <= |st.tickets| + n
    requires before.tickets[..|st.tickets|] == st.tickets
    requires forall i :: |st.tickets| <= i < |before.tickets| ==> NewTicketOk(before.tickets[i], row, st.seats)
    requires r == BookTicket(before, row.id, d, chosen)
    ensures Consistent(r)
    ensures r.rows == st.rows && SameSeats(r.seats, st.seats)
    ensures |st.tickets| <= |r.tickets| <= |st.tickets| + n + 1
    ensures r.tickets[..|st.tickets|] == st.tickets
    ensures forall i :: |st.tickets| <= i < |r.tickets| ==> NewTicketOk(r.tickets[i], row, st.seats)
  {
    StepConsistent(st, before, r, row, d, free, chosen);
    ChosenTicketOk(st, before, r, row, d, free, chosen);
  }

  lemma StepConsistent(st: Store, before: Store, r: Store, row: EventVenue, d: Draw, free: seq<Seat>, chosen: seq<Seat>)
    requires Consistent(before)
    requires free == FreeSeats(st.seats, row.venueId)
    requires forall s :: s in chosen ==> s in free && s in before.seats
    requires SameSeats(before.seats, st.seats)
    requires r == BookTicket(before, row.id, d, chosen)
    ensures Consistent(r) && SameSeats(r.seats, st.seats)
  {
    BookKeepsConsistent(before, row.id, d, chosen);
    SameSeatsTransitive(r.seats, before.seats, st.seats);
  }

  lemma SameSeatsTransitive(a: seq<Seat>, b: seq<Seat>, c: seq<Seat>)
    requires SameSeats(a, b) && SameSeats(b, c)
    ensures SameSeats(a, c)
  {
  }

  /** The remaining-seats half of `BookingStep`. */
  lemma StepKeepsRemaining(before: Store, r: Store, row: EventVenue, d: Draw, free: seq<Seat>, remaining: seq<Seat>, k: nat)
    requires k <= |remaining| && UniqueSeatIds(remaining)
    requires forall s :: s in remaining ==> s in free && s in before.seats
    requires r == BookTicket(before, row.id, d, remaining[..k])
    ensures UniqueSeatIds(remaining[k..])
    ensures forall s :: s in remaining[k..] ==> s in free && s in r.seats
  {
    RestStillFree(before, r, row.id, d, remaining, k);
    assert forall s :: s in remaining[k..] ==> s in remaining;
  }

  /** The ticket a successful draw creates meets `NewTicketOk`. */
  lemma ChosenTicketOk(st: Store, before: Store, after: Store, row: EventVenue, d: Draw, free: seq<Seat>, chosen: seq<Seat>)
    requires Consistent(st) && |chosen| > 0
    requires forall s :: s in free <==> s in st.seats && s.venueId == row.venueId && !s.isBooked
    requires forall s :: s in chosen ==> s in free
    requires |st.tickets| <= |before.tickets|
    requires before.tickets[..|st.tickets|] == st.tickets
    requires forall i :: |st.tickets| <= i < |before.tickets| ==> NewTicketOk(before.tickets[i], row, st.seats)
    requires after == BookTicket(before, row.id, d, chosen)
    ensures |st.tickets| <= |after.tickets| && after.tickets[..|st.tickets|] == st.tickets
    ensures forall i :: |st.tickets| <= i < |after.tickets| ==> NewTicketOk(after.tickets[i], row, st.seats)
  {
    if !d.fails {
      var t := after.tickets[|before.tickets|];
      var ids := SeatIds(chosen);
      SumByIdOfMembers(st.seats, chosen);
      forall x | x in t.seatIds
        ensures exists j :: 0 <= j < |st.seats| && st.seats[j].id == x && st.seats[j].venueId == row.venueId && !st.seats[j].isBooked
      {
        var k :| 0 <= k < |chosen| && ids[k] == x;
        assert chosen[k] in free;
        var j :| 0 <= j < |st.seats| && st.seats[j] == chosen[k];
      }
      assert NewTicketOk(t, row, st.seats);
      assert after.tickets[..|st.tickets|] == before.tickets[..|st.tickets|];
    }
  }

  /** The seats left after the splice are untouched by the booking. */
  lemma RestStillFree(before: Store, after: Store, eventVenueId: nat, d: Draw, remaining: seq<Seat>, k: nat)
    requires k <= |remaining|
    requires UniqueSeatIds(remaining)
    requires forall s :: s in remaining ==> s in before.seats
    requires after == BookTicket(before, eventVenueId, d, remaining[..k])
    ensures UniqueSeatIds(remaining[k..])
    ensures forall s :: s in remaining[k..] ==> s in after.seats
  {
    var ids := SeatIds(remaining[..k]);
    forall s | s in remaining[k..] ensures s in after.seats {
      var c :| 0 <= c < |remaining[k..]| && remaining[k..][c] == s;
      assert remaining[k + c] == s && s in remaining;
      assert s.id !in ids by {
        forall m | 0 <= m < k ensures ids[m] != s.id {
          assert remaining[m].id != remaining[k + c].id;
        }
      }
      var j :| 0 <= j < |before.seats| && before.seats[j] == s;
      assert after.seats[j] == s;
    }
    assert forall a, b :: 0 <= a < b < |remaining[k..]| ==> remaining[k..][a] == remaining[k + a] && remaining[k..][b] == remaining[k + b];
  }

  /** The whole seeder: every event-venue starting no later than
      `oneMonthLater`, in table order, with the plan's draws for it. */
  method Seed(st: Store, oneMonthLater: int, plan: EventVenue -> seq<Draw>) returns (r: Store)
    requires Consistent(st)
    ensures Consistent(r)
    ensures r.rows == st.rows && SameSeats(r.seats, st.seats)
    ensures |st.tickets| <= |r.tickets| && r.tickets[..|st.tickets|] == st.tickets
    ensures forall i :: |st.tickets| <= i < |r.tickets| ==> SeededOk(r.tickets[i], st, oneMonthLater)
    ensures r == SeedFrom(st, st.rows, oneMonthLater, plan)
  {
    r := st;
    var k := 0;
    assert st.rows[0..] == st.rows;
    while k < |st.rows|
      invariant k <= |st.rows|
      invariant Consistent(r)
      invariant r.rows == st.rows && SameSeats(r.seats, st.seats)
      invariant |st.tickets| <= |r.tickets| && r.tickets[..|st.tickets|] == st.tickets
      invariant forall i :: |st.tickets| <= i < |r.tickets| ==> SeededOk(r.tickets[i], st, oneMonthLater)
      invariant SeedFrom(r, st.rows[k..], oneMonthLater, plan) == SeedFrom(st, st.rows, oneMonthLater, plan)
    {
      var row := st.rows[k];
      var before := r;
      if row.start <= oneMonthLater {
        r := BookEventVenue(r, row, plan(row));
        SeedStep(st, before, r, k, oneMonthLater);
      }
      SeedFromStep(st, before, r, k, oneMonthLater, plan);
      k := k + 1;
    }
  }

  /** Visiting one more event-venue keeps the loop on the reference. */
  lemma SeedFromStep(st: Store, r: Store, r': Store, k: nat, oneMonthLater: int, plan: EventVenue -> seq<Draw>)
    requires k < |st.rows|
    requires r' == if st.rows[k].start <= oneMonthLater then BookedVenue(r, st.rows[k], plan(st.rows[k])) else r
    requires SeedFrom(r, st.rows[k..], oneMonthLater, plan) == SeedFrom(st, st.rows, oneMonthLater, plan)
    ensures SeedFrom(r', st.rows[k + 1..], oneMonthLater, plan) == SeedFrom(st, st.rows, oneMonthLater, plan)
  {
    assert st.rows[k..][0] == st.rows[k] && st.rows[k..][1..] == st.rows[k + 1..];
  }

  /** What the seeder promises about each ticket it creates: booked, holding
      at least one seat, priced at the sum of its seats, on an event-venue
      starting no later than `oneMonthLater`. */
  predicate SeededOk(t: Ticket, st: Store, oneMonthLater: int) {
    && t.status == Booked
    && |t.seatIds| > 0
    && t.totalPrice == SumById(st.seats, t.seatIds)
    && exists k :: 0 <= k < |st.rows| && st.rows[k].id == t.eventVenueId && st.rows[k].start <= oneMonthLater
  }

  lemma SeedStep(st: Store, before: Store, after: Store, k: nat, oneMonthLater: int)
    requires k < |st.rows| && st.rows[k].start <= oneMonthLater
    requires SameSeats(before.seats, st.seats)
    requires |st.tickets| <= |before.tickets| && before.tickets[..|st.tickets|] == st.tickets
    requires forall i :: |st.tickets| <= i < |before.tickets| ==> SeededOk(before.tickets[i], st, oneMonthLater)
    requires |before.tickets| <= |after.tickets| && after.tickets[..|before.tickets|] == before.tickets
    requires forall i :: |before.tickets| <= i < |after.tickets| ==> NewTicketOk(after.tickets[i], st.rows[k], before.seats)
    ensures |st.tickets| <= |after.tickets| && after.tickets[..|st.tickets|] == st.tickets
    ensures forall i :: |st.tickets| <= i < |after.tickets| ==> SeededOk(after.tickets[i], st, oneMonthLater)
  {
    assert after.tickets[..|st.tickets|] == after.tickets[..|before.tickets|][..|st.tickets|];
    forall i | |st.tickets| <= i < |after.tickets| ensures SeededOk(after.tickets[i], st, oneMonthLater) {
      if i < |before.tickets| {
        assert after.tickets[i] == after.tickets[..|before.tickets|][i];
      } else {
        SumByIdSame(before.seats, st.seats, after.tickets[i].seatIds);
      }
    }
  }
}
