/** The admin dashboard figures: per category, the number of events, how
    many of them have a venue date in the current week with the growth
    percentage derived from the two, and the number of booked tickets. */
module AdminStats {
  import opened Records
  import opened Seqs
  import opened TicketStore
  import ExpirySweep

  /** `round(thisWeek / total * 100)` in exact arithmetic, rounding halves
      up; with no events it is 0, or 100 if some event is counted anyway. */
  function Growth(thisWeek: nat, total: nat): (g: int)
    ensures total == 0 ==> g == (if thisWeek == 0 then 0 else 100)
    ensures total > 0 ==> 2 * total * g - total <= 200 * thisWeek < 2 * total * g + total
  {
    if total == 0 then (if thisWeek == 0 then 0 else 100)
    else (200 * thisWeek + total) / (2 * total)
  }

  /** The percentage is a percentage: between 0 and 100, and 100 exactly
      when every event is scheduled this week. */
  lemma GrowthInRange(thisWeek: nat, total: nat)
    requires thisWeek <= total
    ensures 0 <= Growth(thisWeek, total) <= 100
    ensures total > 0 && thisWeek == total ==> Growth(thisWeek, total) == 100
    ensures thisWeek == 0 ==> Growth(thisWeek, total) == 0
  {
    if total > 0 {
      var n := 200 * thisWeek + total;
      var d := 2 * total;
      QuotientBelow(n, d, 101);
      if thisWeek == total {
        assert n == d * 100 + total;
        QuotientExact(n, d, 100);
      }
      if thisWeek == 0 {
        QuotientExact(n, d, 0);
      }
    }
  }

  lemma QuotientBelow(n: nat, d: nat, k: nat)
    requires d > 0 && n < d * k
    ensures 0 <= n / d < k
  {
    if n / d >= k {
      MulMonotone(d, k, n / d);
    }
  }

  lemma QuotientExact(n: nat, d: nat, k: nat)
    requires d > 0 && d * k <= n < d * k + d
    ensures n / d == k
  {
    var q := n / d;
    assert d * q <= n < d * q + d;
    if q < k {
      MulMonotone(d, q + 1, k);
    } else if q > k {
      MulMonotone(d, k + 1, q);
    }
  }

  lemma MulMonotone(d: nat, a: nat, b: nat)
    requires a <= b
    ensures d * a <= d * b
  {
    assert d * b == d * a + d * (b - a);
  }

  predicate InCategory(e: Event, categoryId: nat) {
    e.categoryId == categoryId
  }

  /** `Carbon::between`: the start lies in the window, both ends included. */
  predicate InWeek(rows: seq<EventVenue>, e: Event, weekStart: int, weekEnd: int) {
    exists k :: 0 <= k < |rows| && rows[k].eventId == e.id && weekStart <= rows[k].start <= weekEnd
  }

  predicate ThisWeekIn(e: Event, categoryId: nat, rows: seq<EventVenue>, weekStart: int, weekEnd: int) {
    InCategory(e, categoryId) && InWeek(rows, e, weekStart, weekEnd)
  }

  datatype EventStat = EventStat(total: nat, thisWeek: nat, growth: int)

  /** One category's row of `getEventStats`. */
  function EventStats(categoryId: nat, events: seq<Event>, rows: seq<EventVenue>, weekStart: int, weekEnd: int)
    : (s: EventStat)
    ensures s.total == |set i | 0 <= i < |events| && InCategory(events[i], categoryId)|
    ensures s.thisWeek == |set i | 0 <= i < |events| && ThisWeekIn(events[i], categoryId, rows, weekStart, weekEnd)|
    ensures s.growth == Growth(s.thisWeek, s.total)
    ensures s.thisWeek <= s.total <= |events|
    ensures 0 <= s.growth <= 100
    ensures s.total == 0 <==> forall i :: 0 <= i < |events| ==> !InCategory(events[i], categoryId)
    ensures s.thisWeek == 0 <==> forall i :: 0 <= i < |events| ==> !ThisWeekIn(events[i], categoryId, rows, weekStart, weekEnd)
  {
    var total := Count(events, (e: Event) => InCategory(e, categoryId));
    var thisWeek := Count(events, (e: Event) => ThisWeekIn(e, categoryId, rows, weekStart, weekEnd));
    CountPointwise(events, events, (e: Event) => ThisWeekIn(e, categoryId, rows, weekStart, weekEnd),
                   (e: Event) => InCategory(e, categoryId));
    GrowthInRange(thisWeek, total);
    CountIsCard(events, (e: Event) => InCategory(e, categoryId),
                set i | 0 <= i < |events| && InCategory(events[i], categoryId));
    CountIsCard(events, (e: Event) => ThisWeekIn(e, categoryId, rows, weekStart, weekEnd),
                set i | 0 <= i < |events| && ThisWeekIn(events[i], categoryId, rows, weekStart, weekEnd));
    EventStat(total, thisWeek, Growth(thisWeek, total))
  }

  /** The ticket counts toward the category: it is booked and its
      event-venue's event belongs to the category. */
  predicate SoldIn(t: Ticket, rows: seq<EventVenue>, events: seq<Event>, categoryId: nat) {
    && t.status == Booked
    && exists k, m :: 0 <= k < |rows| && 0 <= m < |events|
         && rows[k].id == t.eventVenueId && events[m].id == rows[k].eventId && events[m].categoryId == categoryId
  }

  /** One category's `tickets_sold`. */
  function TicketsSold(tickets: seq<Ticket>, rows: seq<EventVenue>, events: seq<Event>, categoryId: nat): (n: nat)
    ensures n == |set i | 0 <= i < |tickets| && SoldIn(tickets[i], rows, events, categoryId)|
    ensures n <= |tickets|
    ensures n == 0 <==> forall i :: 0 <= i < |tickets| ==> !SoldIn(tickets[i], rows, events, categoryId)
  {
    CountIsCard(tickets, (t: Ticket) => SoldIn(t, rows, events, categoryId),
                set i | 0 <= i < |tickets| && SoldIn(tickets[i], rows, events, categoryId));
    Count(tickets, (t: Ticket) => SoldIn(t, rows, events, categoryId))
  }

  /** Expired and refunded tickets never count, so the expiry sweep can only
      lower a category's sales figure. */
  lemma SweepNeverRaisesSales(st: Store, now: int, events: seq<Event>, categoryId: nat)
    ensures TicketsSold(ExpirySweep.Sweep(st, now).tickets, st.rows, events, categoryId)
            <= TicketsSold(st.tickets, st.rows, events, categoryId)
  {
    var after := ExpirySweep.Sweep(st, now).tickets;
    var p := (t: Ticket) => SoldIn(t, st.rows, events, categoryId);
    forall i | 0 <= i < |after| && p(after[i]) ensures p(st.tickets[i]) {
      assert after[i].status == Booked;
      assert after[i] == st.tickets[i];
    }
    CountPointwise(after, st.tickets, p, p);
  }
}
