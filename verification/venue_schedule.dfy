/** Creating, updating and cancelling an event's venue bookings. A venue
    holds at most one event-venue per calendar day; every request either
    applies completely or leaves the store as it was. */
module VenueSchedule {
  import opened Text
  import opened Records
  import opened Seqs
  import Duration

  const SecondsPerDay: int := 86400

  /** The calendar day of a timestamp (`toDateString`, one fixed time zone). */
  function DayOf(t: int): int {
    t / SecondsPerDay
  }

  /** One venue of a create or update request. */
  datatype VenueInput = VenueInput(venueId: nat, locationId: nat, start: int)

  /** The event fields a create or update request carries. */
  datatype EventFields = EventFields(title: string, description: string, duration: string, categoryId: nat)

  /** The tables involved: events, event-venues and the next free ids. */
  datatype Db = Db(events: seq<Event>, rows: seq<EventVenue>, nextEventId: nat, nextRowId: nat)

  datatype Failure = Invalid | PastDate | AlreadyBooked(venueId: nat, day: int) | NotFound | NoVenues

  /** The answer to a request and the store after it. */
  datatype Reply = Reply(failure: Option<Failure>, db: Db)

  /** A booking slot: a venue on a calendar day. */
  function RowSlot(r: EventVenue): (nat, int) {
    (r.venueId, DayOf(r.start))
  }

  function InputSlot(v: VenueInput): (nat, int) {
    (v.venueId, DayOf(v.start))
  }

  predicate BookedOn(rows: seq<EventVenue>, slot: (nat, int)) {
    exists i :: 0 <= i < |rows| && RowSlot(rows[i]) == slot
  }

  /** No venue carries two event-venues on one calendar day. */
  predicate NoDoubleBooking(rows: seq<EventVenue>) {
    forall i, j :: 0 <= i < j < |rows| ==> RowSlot(rows[i]) != RowSlot(rows[j])
  }

  /** The rows a request's venues become, numbered from `firstId`. */
  function NewRows(eventId: nat, inputs: seq<VenueInput>, firstId: nat): (r: seq<EventVenue>)
    ensures |r| == |inputs|
    ensures forall i :: 0 <= i < |inputs| ==>
              r[i] == EventVenue(firstId + i, eventId, inputs[i].venueId, inputs[i].locationId, inputs[i].start)
    decreases |inputs|
  {
    if |inputs| == 0 then []
    else [EventVenue(firstId, eventId, inputs[0].venueId, inputs[0].locationId, inputs[0].start)]
         + NewRows(eventId, inputs[1..], firstId + 1)
  }

  datatype Added = Added(rows: seq<EventVenue>, nextRowId: nat) | Rejected(failure: Failure)

  /** Store the request's venues one after another. Each is checked (for a
      future day when `checkFuture`, then for a free slot) against the rows
      stored so far, including those this request added. */
  function AddRows(rows: seq<EventVenue>, eventId: nat, inputs: seq<VenueInput>, nextRowId: nat,
                   checkFuture: bool, today: int): (r: Added)
    ensures r.Added? ==> r.rows == rows + NewRows(eventId, inputs, nextRowId)
                         && r.nextRowId == nextRowId + |inputs|
    ensures r.Rejected? ==> r.failure.PastDate? || r.failure.AlreadyBooked?
    decreases |inputs|
  {
    if |inputs| == 0 then Added(rows, nextRowId)
    else
      var v := inputs[0];
      if checkFuture && DayOf(v.start) <= today then Rejected(PastDate)
      else if BookedOn(rows, InputSlot(v)) then Rejected(AlreadyBooked(v.venueId, DayOf(v.start)))
      else
        var row := EventVenue(nextRowId, eventId, v.venueId, v.locationId, v.start);
        assert NewRows(eventId, inputs, nextRowId) == [row] + NewRows(eventId, inputs[1..], nextRowId + 1);
        assert rows + [row] + NewRows(eventId, inputs[1..], nextRowId + 1) == rows + NewRows(eventId, inputs, nextRowId);
        AddRows(rows + [row], eventId, inputs[1..], nextRowId + 1, checkFuture, today)
  }

  /** What the request must satisfy to be stored: every day in the future
      (when checked), no slot already taken, no slot taken twice. */
  predicate Acceptable(rows: seq<EventVenue>, inputs: seq<VenueInput>, checkFuture: bool, today: int) {
    && (checkFuture ==> forall i :: 0 <= i < |inputs| ==> DayOf(inputs[i].start) > today)
    && (forall i :: 0 <= i < |inputs| ==> !BookedOn(rows, InputSlot(inputs[i])))
    && (forall i, j :: 0 <= i < j < |inputs| ==> InputSlot(inputs[i]) != InputSlot(inputs[j]))
  }

  lemma AcceptableStep(rows: seq<EventVenue>, row: EventVenue, inputs: seq<VenueInput>, checkFuture: bool, today: int)
    requires |inputs| > 0 && RowSlot(row) == InputSlot(inputs[0])
    ensures Acceptable(rows, inputs, checkFuture, today) <==>
            && (checkFuture ==> DayOf(inputs[0].start) > today)
            && !BookedOn(rows, InputSlot(inputs[0]))
            && Acceptable(rows + [row], inputs[1..], checkFuture, today)
  {
    var rows' := rows + [row];
    var tail := inputs[1..];
    forall slot ensures BookedOn(rows', slot) <==> BookedOn(rows, slot) || RowSlot(row) == slot {
      if BookedOn(rows', slot) {
        var i :| 0 <= i < |rows'| && RowSlot(rows'[i]) == slot;
        if i < |rows| {
          assert rows'[i] == rows[i];
        }
      }
      if BookedOn(rows, slot) {
        var i :| 0 <= i < |rows| && RowSlot(rows[i]) == slot;
        assert rows'[i] == rows[i];
      }
      if RowSlot(row) == slot {
        assert rows'[|rows|] == row;
      }
    }
    if Acceptable(rows, inputs, checkFuture, today) {
      forall i, j | 0 <= i < j < |tail| ensures InputSlot(tail[i]) != InputSlot(tail[j]) {
        assert tail[i] == inputs[i + 1] && tail[j] == inputs[j + 1];
      }
      forall i | 0 <= i < |tail| ensures !BookedOn(rows', InputSlot(tail[i])) {
        assert tail[i] == inputs[i + 1];
        assert InputSlot(inputs[0]) != InputSlot(inputs[i + 1]);
      }
    }
    if && (checkFuture ==> DayOf(inputs[0].start) > today)
       && !BookedOn(rows, InputSlot(inputs[0]))
       && Acceptable(rows', tail, checkFuture, today)
    {
      forall i | 0 <= i < |inputs| ensures !BookedOn(rows, InputSlot(inputs[i])) {
        if i > 0 {
          assert inputs[i] == tail[i - 1];
        }
      }
      forall i, j | 0 <= i < j < |inputs| ensures InputSlot(inputs[i]) != InputSlot(inputs[j]) {
        assert inputs[j] == tail[j - 1];
        if i > 0 {
          assert inputs[i] == tail[i - 1];
        } else {
          assert !BookedOn(rows', InputSlot(tail[j - 1]));
        }
      }
      if checkFuture {
        forall i | 0 <= i < |inputs| ensures DayOf(inputs[i].start) > today {
          if i > 0 {
            assert inputs[i] == tail[i - 1];
          }
        }
      }
    }
  }

  /** The venues are stored exactly when the request is acceptable. */
  lemma {:induction false} AddRowsSucceedsIff(rows: seq<EventVenue>, eventId: nat, inputs: seq<VenueInput>,
                                              nextRowId: nat, checkFuture: bool, today: int)
    ensures AddRows(rows, eventId, inputs, nextRowId, checkFuture, today).Added?
            <==> Acceptable(rows, inputs, checkFuture, today)
    decreases |inputs|
  {
    if |inputs| > 0 {
      var v := inputs[0];
      var row := EventVenue(nextRowId, eventId, v.venueId, v.locationId, v.start);
      AcceptableStep(rows, row, inputs, checkFuture, today);
      AddRowsSucceedsIff(rows + [row], eventId, inputs[1..], nextRowId + 1, checkFuture, today);
    }
  }

  /** Storing an acceptable request keeps every venue to one event per day. */
  lemma AddRowsKeepsNoDoubleBooking(rows: seq<EventVenue>, eventId: nat, inputs: seq<VenueInput>,
                                    nextRowId: nat, checkFuture: bool, today: int)
    requires NoDoubleBooking(rows)
    requires AddRows(rows, eventId, inputs, nextRowId, checkFuture, today).Added?
    ensures NoDoubleBooking(AddRows(rows, eventId, inputs, nextRowId, checkFuture, today).rows)
  {
    AddRowsSucceedsIff(rows, eventId, inputs, nextRowId, checkFuture, today);
    var added := NewRows(eventId, inputs, nextRowId);
    var all := rows + added;
    forall i, j | 0 <= i < j < |all| ensures RowSlot(all[i]) != RowSlot(all[j]) {
      if j >= |rows| {
        assert all[j] == added[j - |rows|];
        assert RowSlot(added[j - |rows|]) == InputSlot(inputs[j - |rows|]);
        if i >= |rows| {
          assert all[i] == added[i - |rows|];
          assert RowSlot(added[i - |rows|]) == InputSlot(inputs[i - |rows|]);
        } else {
          assert all[i] == rows[i];
          assert !BookedOn(rows, InputSlot(inputs[j - |rows|]));
        }
      } else {
        assert all[i] == rows[i] && all[j] == rows[j];
      }
    }
  }

  /** The request fields Laravel validates for a create. */
  predicate CreateValid(f: EventFields, inputs: seq<VenueInput>) {
    f.title != [] && |f.title| <= 255 && |f.description| >= 10 && f.duration != [] && |inputs| > 0
  }

  /** `create`: insert the event, then its venues; any failure undoes
      everything. `today` is the current calendar day. */
  function Create(db: Db, f: EventFields, thumbnail: string, adminId: nat, inputs: seq<VenueInput>, today: int): (r: Reply)
    ensures r.failure.Some? ==> r.db == db
    ensures r.failure.None? <==> CreateValid(f, inputs) && Acceptable(db.rows, inputs, true, today)
    ensures r.failure.None? ==>
      && r.db.events == db.events + [Event(db.nextEventId, f.title, f.description, f.duration, f.categoryId,
                                           None, adminId, None, None, thumbnail)]
      && r.db.rows == db.rows + NewRows(db.nextEventId, inputs, db.nextRowId)
  {
    if !CreateValid(f, inputs) then Reply(Some(Invalid), db)
    else
      var event := Event(db.nextEventId, f.title, f.description, f.duration, f.categoryId, None, adminId, None, None, thumbnail);
      var added := AddRows(db.rows, event.id, inputs, db.nextRowId, true, today);
      AddRowsSucceedsIff(db.rows, event.id, inputs, db.nextRowId, true, today);
      if added.Rejected? then Reply(Some(added.failure), db)
      else Reply(None, Db(db.events + [event], added.rows, db.nextEventId + 1, added.nextRowId))
  }

  /** Every row a create stores starts on a day after `today`. */
  lemma CreateOnlyFutureDays(db: Db, f: EventFields, thumbnail: string, adminId: nat, inputs: seq<VenueInput>, today: int)
    requires Create(db, f, thumbnail, adminId, inputs, today).failure.None?
    ensures var rows := Create(db, f, thumbnail, adminId, inputs, today).db.rows;
            forall i :: |db.rows| <= i < |rows| ==> DayOf(rows[i].start) > today
  {
    var rows := Create(db, f, thumbnail, adminId, inputs, today).db.rows;
    var added := NewRows(db.nextEventId, inputs, db.nextRowId);
    forall i | |db.rows| <= i < |rows| ensures DayOf(rows[i].start) > today {
      assert rows[i] == added[i - |db.rows|];
    }
  }

  lemma CreateKeepsNoDoubleBooking(db: Db, f: EventFields, thumbnail: string, adminId: nat, inputs: seq<VenueInput>, today: int)
    requires NoDoubleBooking(db.rows)
    ensures NoDoubleBooking(Create(db, f, thumbnail, adminId, inputs, today).db.rows)
  {
    if CreateValid(f, inputs) && AddRows(db.rows, db.nextEventId, inputs, db.nextRowId, true, today).Added? {
      AddRowsKeepsNoDoubleBooking(db.rows, db.nextEventId, inputs, db.nextRowId, true, today);
    }
  }

  /** Position of the event with id `id`, if any. */
  function FindEvent(events: seq<Event>, id: nat): (k: Option<nat>)
    ensures k.Some? ==> k.value < |events| && events[k.value].id == id
    ensures k.None? ==> forall i :: 0 <= i < |events| ==> events[i].id != id
  {
    if |events| == 0 then None
    else if events[0].id == id then Some(0)
    else
      var k := FindEvent(events[1..], id);
      if k.Some? then Some(k.value + 1) else None
  }

  /** The rows of every other event. */
  function OtherRows(rows: seq<EventVenue>, eventId: nat): (r: seq<EventVenue>)
    ensures forall x :: x in r <==> x in rows && x.eventId != eventId
    ensures IsSubseq(r, rows)
  {
    Filter(rows, (x: EventVenue) => x.eventId != eventId)
  }

  /** `__edit_mode`, `full` when absent; any other value acts as partial. */
  predicate FullMode(mode: Option<string>) {
    mode.GetOr("full") == "full"
  }

  /** The request fields Laravel validates for an update. */
  predicate UpdateValid(f: EventFields, mode: Option<string>, inputs: seq<VenueInput>) {
    && f.title != [] && |f.title| <= 255 && f.description != []
    && Duration.ServerDurationOk(f.duration)
    && (FullMode(mode) ==> |inputs| >= 1)
  }

  /** The main-field update: the four validated fields and, when a file was
      uploaded, its stored path as the thumbnail; nothing else changes. */
  function WithFields(e: Event, f: EventFields, newThumbnail: Option<string>): (r: Event)
    ensures r.title == f.title && r.description == f.description
    ensures r.duration == f.duration && r.categoryId == f.categoryId
    ensures newThumbnail.Some? ==> r.thumbnail == newThumbnail.value
    ensures newThumbnail.None? ==> r.thumbnail == e.thumbnail
    ensures r.id == e.id && r.adminId == e.adminId
    ensures r.categoryName == e.categoryName && r.adminName == e.adminName && r.createdBy == e.createdBy
  {
    e.(title := f.title, description := f.description, duration := f.duration, categoryId := f.categoryId,
       thumbnail := newThumbnail.GetOr(e.thumbnail))
  }

  /** `update`: main fields always; in full mode the event's rows are removed
      and the request's venues stored in their place (without a future-day
      check). A booked slot undoes everything, the field change included. */
  function Update(db: Db, eventId: nat, mode: Option<string>, f: EventFields, newThumbnail: Option<string>,
                  inputs: seq<VenueInput>): (r: Reply)
    ensures r.failure.Some? ==> r.db == db
    ensures FindEvent(db.events, eventId).None? ==> r.failure == Some(NotFound)
    ensures FindEvent(db.events, eventId).Some? && !UpdateValid(f, mode, inputs) ==> r.failure == Some(Invalid)
    ensures r.failure.None? ==> |r.db.events| == |db.events|
    ensures r.failure.None? && UniqueEventIds(db.events) ==>
              forall i :: 0 <= i < |db.events| ==>
                r.db.events[i] == if db.events[i].id == eventId then WithFields(db.events[i], f, newThumbnail) else db.events[i]
    ensures r.failure.None? && !FullMode(mode) ==> r.db.rows == db.rows
    ensures r.failure.None? && FullMode(mode) ==>
              r.db.rows == OtherRows(db.rows, eventId) + NewRows(eventId, inputs, db.nextRowId)
    ensures FindEvent(db.events, eventId).Some? && UpdateValid(f, mode, inputs) ==>
              (r.failure.None? <==> !FullMode(mode) || Acceptable(OtherRows(db.rows, eventId), inputs, false, 0))
  {
    var k := FindEvent(db.events, eventId);
    if k.None? then Reply(Some(NotFound), db)
    else if !UpdateValid(f, mode, inputs) then Reply(Some(Invalid), db)
    else
      var events := db.events[k.value := WithFields(db.events[k.value], f, newThumbnail)];
      if !FullMode(mode) then Reply(None, db.(events := events))
      else
        var kept := OtherRows(db.rows, eventId);
        var added := AddRows(kept, eventId, inputs, db.nextRowId, false, 0);
        AddRowsSucceedsIff(kept, eventId, inputs, db.nextRowId, false, 0);
        if added.Rejected? then Reply(Some(added.failure), db)
        else Reply(None, db.(events := events, rows := added.rows, nextRowId := added.nextRowId))
  }

  /** Event ids are unique in the store. */
  predicate UniqueEventIds(events: seq<Event>) {
    forall i, j :: 0 <= i < j < |events| ==> events[i].id != events[j].id
  }

  /** A partial update never touches an event-venue row. */
  lemma PartialUpdateKeepsRows(db: Db, eventId: nat, mode: Option<string>, f: EventFields,
                               newThumbnail: Option<string>, inputs: seq<VenueInput>)
    requires !FullMode(mode)
    ensures Update(db, eventId, mode, f, newThumbnail, inputs).db.rows == db.rows
  {
  }

  lemma OtherRowsKeepNoDoubleBooking(rows: seq<EventVenue>, eventId: nat)
    requires NoDoubleBooking(rows)
    ensures NoDoubleBooking(OtherRows(rows, eventId))
  {
    SubseqKeepsNoDoubleBooking(OtherRows(rows, eventId), rows);
  }

  lemma {:induction false} SubseqKeepsNoDoubleBooking(r: seq<EventVenue>, s: seq<EventVenue>)
    requires IsSubseq(r, s) && NoDoubleBooking(s)
    ensures NoDoubleBooking(r)
    decreases |s|
  {
    if |r| > 0 {
      assert NoDoubleBooking(s[1..]) by {
        forall i, j | 0 <= i < j < |s| - 1 ensures RowSlot(s[1..][i]) != RowSlot(s[1..][j]) {
          assert s[1..][i] == s[i + 1] && s[1..][j] == s[j + 1];
        }
      }
      if r[0] == s[0] && IsSubseq(r[1..], s[1..]) {
        SubseqKeepsNoDoubleBooking(r[1..], s[1..]);
        SubseqMembers(r[1..], s[1..]);
        forall i, j | 0 <= i < j < |r| ensures RowSlot(r[i]) != RowSlot(r[j]) {
          if i == 0 {
            assert r[j] == r[1..][j - 1];
            assert r[j] in s[1..];
            var k :| 0 <= k < |s[1..]| && s[1..][k] == r[j];
            assert s[k + 1] == r[j];
          } else {
            assert r[i] == r[1..][i - 1] && r[j] == r[1..][j - 1];
          }
        }
      } else {
        SubseqKeepsNoDoubleBooking(r, s[1..]);
      }
    }
  }

  lemma UpdateKeepsNoDoubleBooking(db: Db, eventId: nat, mode: Option<string>, f: EventFields,
                                   newThumbnail: Option<string>, inputs: seq<VenueInput>)
    requires NoDoubleBooking(db.rows)
    ensures NoDoubleBooking(Update(db, eventId, mode, f, newThumbnail, inputs).db.rows)
  {
    var kept := OtherRows(db.rows, eventId);
    OtherRowsKeepNoDoubleBooking(db.rows, eventId);
    if AddRows(kept, eventId, inputs, db.nextRowId, false, 0).Added? {
      AddRowsKeepsNoDoubleBooking(kept, eventId, inputs, db.nextRowId, false, 0);
    }
  }

  /** The venues of an event's current rows, as a request would carry them. */
  function AsInputs(rows: seq<EventVenue>): (r: seq<VenueInput>)
    ensures |r| == |rows|
    ensures forall i :: 0 <= i < |rows| ==> InputSlot(r[i]) == RowSlot(rows[i])
  {
    seq(|rows|, i requires 0 <= i < |rows| => VenueInput(rows[i].venueId, rows[i].locationId, rows[i].start))
  }

  /** The event's own rows, in store order. */
  function OwnRows(rows: seq<EventVenue>, eventId: nat): (r: seq<EventVenue>)
    ensures forall x :: x in r <==> x in rows && x.eventId == eventId
    ensures IsSubseq(r, rows)
  {
    Filter(rows, (x: EventVenue) => x.eventId == eventId)
  }

  /** Re-submitting an event's own current schedule in full mode is never
      refused as a double booking, because its old rows are removed first. */
  lemma ResubmitOwnScheduleAccepted(rows: seq<EventVenue>, eventId: nat)
    requires NoDoubleBooking(rows)
    ensures Acceptable(OtherRows(rows, eventId), AsInputs(OwnRows(rows, eventId)), false, 0)
  {
    var own := OwnRows(rows, eventId);
    var others := OtherRows(rows, eventId);
    var inputs := AsInputs(own);
    SubseqKeepsNoDoubleBooking(own, rows);
  }

  /** `cancel`: an event without venues is refused; otherwise all its rows
      go and the event itself stays. */
  function Cancel(db: Db, eventId: nat): (r: Reply)
    ensures r.failure.Some? ==> r.db == db
    ensures FindEvent(db.events, eventId).None? ==> r.failure == Some(NotFound)
    ensures FindEvent(db.events, eventId).Some? ==>
              (r.failure == Some(NoVenues) <==> forall x :: x in db.rows ==> x.eventId != eventId)
    ensures r.failure.None? ==> r.db.events == db.events && r.db.rows == OtherRows(db.rows, eventId)
    ensures r.failure.None? ==> forall x :: x in r.db.rows ==> x.eventId != eventId
  {
    if FindEvent(db.events, eventId).None? then Reply(Some(NotFound), db)
    else if forall x :: x in db.rows ==> x.eventId != eventId then Reply(Some(NoVenues), db)
    else Reply(None, db.(rows := OtherRows(db.rows, eventId)))
  }

  lemma CancelKeepsNoDoubleBooking(db: Db, eventId: nat)
    requires NoDoubleBooking(db.rows)
    ensures NoDoubleBooking(Cancel(db, eventId).db.rows)
  {
    OtherRowsKeepNoDoubleBooking(db.rows, eventId);
  }

  /** After a successful cancel the event reads as cancelled and a second
      cancel is refused. */
  lemma CancelTwiceRefused(db: Db, eventId: nat)
    requires Cancel(db, eventId).failure.None?
    ensures Cancel(Cancel(db, eventId).db, eventId).failure == Some(NoVenues)
  {
  }
}
