/** The newer admin page's stack of expanded sections: a venue section opens
    under an event row and a ticket section under a venue row; the top of the
    stack is the most recently opened one. */
module UiStack {
  import opened Seqs
  import opened EventRules

  datatype Kind = VenueSection | TicketSection

  /** The row a section was inserted after. */
  datatype Row = EventRow(eventId: nat) | VenueRow(venueId: nat)

  datatype Section = Section(kind: Kind, after: Row)

  /** The stack, bottom first: its top is the last element. */
  type Stack = seq<Section>

  /** `clearUIStack`: pop and remove sections until none is left. The second
      result lists the removed sections in removal order. */
  method Clear(stack: Stack) returns (r: Stack, removed: seq<Section>)
    ensures r == []
    ensures removed == Reverse(stack)
  {
    r := stack;
    removed := [];
    while |r| > 0
      invariant |removed| + |r| == |stack|
      invariant r == stack[..|r|]
      invariant forall i :: 0 <= i < |removed| ==> removed[i] == stack[|stack| - 1 - i]
      decreases |r|
    {
      removed := removed + [r[|r| - 1]];
      r := r[..|r| - 1];
    }
  }

  /** `popIfTypeExists`: pop the top section when it is of kind `k`. */
  function PopIfKind(stack: Stack, k: Kind): (r: Stack)
    ensures |stack| > 0 && stack[|stack| - 1].kind == k ==> r + [stack[|stack| - 1]] == stack
    ensures !(|stack| > 0 && stack[|stack| - 1].kind == k) ==> r == stack
  {
    if |stack| > 0 && stack[|stack| - 1].kind == k then stack[..|stack| - 1] else stack
  }

  /** `popIfTopMatchesElement`: pop the top section when it was opened right
      after `row`, and say whether it did. */
  function PopIfFollows(stack: Stack, row: Row): (r: (bool, Stack))
    ensures r.0 <==> |stack| > 0 && stack[|stack| - 1].after == row
    ensures r.0 ==> r.1 + [stack[|stack| - 1]] == stack
    ensures !r.0 ==> r.1 == stack
  {
    if |stack| > 0 && stack[|stack| - 1].after == row then (true, stack[..|stack| - 1]) else (false, stack)
  }

  /** The shapes the page can show: nothing, one event's venues, or one
      event's venues with one venue's tickets under them. */
  predicate Shaped(stack: Stack) {
    || |stack| == 0
    || (|stack| == 1 && stack[0].kind == VenueSection && stack[0].after.EventRow?)
    || (&& |stack| == 2
        && stack[0].kind == VenueSection && stack[0].after.EventRow?
        && stack[1].kind == TicketSection && stack[1].after.VenueRow?)
  }

  /** A click on an event row. `fetched` says whether the venue request
      was sent and answered. */
  function EventRowClick(stack: Stack, eventId: nat, s: Status, fetched: bool): (r: Stack)
    ensures EventClickGate(s) != Proceed ==> r == stack
  {
    if EventClickGate(s) != Proceed then stack
    else
      var (popped, rest) := PopIfFollows(stack, EventRow(eventId));
      if popped then rest
      else if fetched then [Section(VenueSection, EventRow(eventId))]
      else []
  }

  /** A click on a venue row inside the open venue section. */
  function VenueRowClick(stack: Stack, venueId: nat, parent: Status, fetched: bool): (r: Stack)
    ensures VenueClickGate(parent) != Proceed ==> r == stack
  {
    if VenueClickGate(parent) != Proceed then stack
    else
      var (popped, rest) := PopIfFollows(stack, VenueRow(venueId));
      if popped then rest
      else
        var base := PopIfKind(stack, TicketSection);
        if fetched then base + [Section(TicketSection, VenueRow(venueId))] else base
  }

  /** Event-row clicks keep the page in one of its shapes. */
  lemma EventClickKeepsShape(stack: Stack, eventId: nat, s: Status, fetched: bool)
    requires Shaped(stack)
    ensures Shaped(EventRowClick(stack, eventId, s, fetched))
  {
  }

  /** Venue-row clicks keep the page in one of its shapes; a venue row is on
      screen only while a venue section is open. */
  lemma VenueClickKeepsShape(stack: Stack, venueId: nat, parent: Status, fetched: bool)
    requires Shaped(stack) && |stack| > 0
    ensures Shaped(VenueRowClick(stack, venueId, parent, fetched))
    ensures |VenueRowClick(stack, venueId, parent, fetched)| > 0
  {
    var r := VenueRowClick(stack, venueId, parent, fetched);
    if VenueClickGate(parent) == Proceed && !PopIfFollows(stack, VenueRow(venueId)).0 {
      var base := PopIfKind(stack, TicketSection);
      assert |base| == 1 && base[0] == stack[0];
    }
  }

  /** Clicking an event row opens its venues, and clicking it again closes
      them, back to an empty page. */
  lemma EventClickToggles(eventId: nat, s: Status)
    requires s != Cancelled
    ensures EventRowClick([], eventId, s, true) == [Section(VenueSection, EventRow(eventId))]
    ensures EventRowClick(EventRowClick([], eventId, s, true), eventId, s, true) == []
  {
  }

  /** Clicking the venue row whose tickets are open closes just them. */
  lemma VenueClickCloses(venues: Section, venueId: nat, parent: Status, fetched: bool)
    requires parent == Active || parent == Completed
    ensures VenueRowClick([venues, Section(TicketSection, VenueRow(venueId))], venueId, parent, fetched) == [venues]
  {
  }
}
