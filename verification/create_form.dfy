/** The create/edit event form of the admin pages: the list of saved venues
    with its running id counter, the venue picker's search, the edit
    prefill, and the checks the submit button runs before sending. */
module CreateForm {
  import opened Text
  import opened Records
  import opened Ordering
  import opened Seqs
  import Duration

  /** A saved venue row: its list id and the raw field values. */
  datatype VenueEntry = VenueEntry(id: nat, venue: string, date: string, time: string)

  /** The saved venues and the id counter (`currentVenueId`). */
  datatype Form = Form(saved: seq<VenueEntry>, counter: nat)

  /** List ids increase along the list and none exceeds the counter, so the
      next id handed out is fresh. */
  predicate WellNumbered(f: Form) {
    && (forall i, j :: 0 <= i < j < |f.saved| ==> f.saved[i].id < f.saved[j].id)
    && (forall i :: 0 <= i < |f.saved| ==> f.saved[i].id <= f.counter)
  }

  const Unselected: string := "Select"
  const DefaultTime: string := "09:00"

  datatype SaveOutcome = PastDate | MissingFields | Saved

  /** `trySaveVenue`. The date is compared as text with today's ISO date
      before the fields are checked for presence. */
  function TrySaveVenue(f: Form, venue: string, date: string, time: string, today: string): (r: (SaveOutcome, Form))
    ensures r.0 == PastDate <==> LexLt(date, today)
    ensures r.0 == MissingFields <==>
              !LexLt(date, today) && (venue == [] || venue == Unselected || date == [] || time == [])
    ensures r.0 != Saved ==> r.1 == f
    ensures r.0 == Saved ==>
              && |r.1.saved| == |f.saved| + 1
              && r.1.saved[..|f.saved|] == f.saved
              && r.1.saved[|f.saved|] == VenueEntry(r.1.counter, venue, date, time)
              && r.1.counter == f.counter + 1
  {
    if LexLt(date, today) then (PastDate, f)
    else if venue == [] || venue == Unselected || date == [] || time == [] then (MissingFields, f)
    else
      var id := f.counter + 1;
      (Saved, Form(f.saved + [VenueEntry(id, venue, date, time)], id))
  }

  /** An empty date is reported as lying in the past, not as missing. */
  lemma EmptyDateReportsPast(f: Form, venue: string, time: string, today: string)
    requires today != []
    ensures TrySaveVenue(f, venue, [], time, today).0 == PastDate
  {
  }

  /** Saving hands out a fresh, larger id. */
  lemma SaveKeepsNumbering(f: Form, venue: string, date: string, time: string, today: string)
    requires WellNumbered(f)
    ensures WellNumbered(TrySaveVenue(f, venue, date, time, today).1)
    ensures var r := TrySaveVenue(f, venue, date, time, today);
            r.0 == Saved ==> forall i :: 0 <= i < |f.saved| ==> f.saved[i].id != r.1.counter
  {
  }

  /** The list without the entry whose id is `id`: what both the edit and
      the delete buttons do to it. */
  function Without(s: seq<VenueEntry>, id: nat): (r: seq<VenueEntry>)
    decreases |s|
  {
    if |s| == 0 then []
    else
      var tail := Without(s[1..], id);
      if s[0].id == id then tail else [s[0]] + tail
  }

  lemma {:induction false} WithoutMembers(s: seq<VenueEntry>, id: nat)
    ensures forall e :: e in Without(s, id) <==> e in s && e.id != id
    ensures IsSubseq(Without(s, id), s)
  {
    if |s| > 0 {
      var tail := Without(s[1..], id);
      WithoutMembers(s[1..], id);
      assert forall x :: x in s <==> x == s[0] || x in s[1..];
      SubseqSkip(tail, s);
      if s[0].id != id {
        SubseqCons(tail, s);
      }
    }
  }

  lemma {:induction false} WithoutAbsent(s: seq<VenueEntry>, id: nat)
    requires forall i :: 0 <= i < |s| ==> s[i].id != id
    ensures Without(s, id) == s
  {
    if |s| > 0 {
      WithoutAbsent(s[1..], id);
      assert s == [s[0]] + s[1..];
    }
  }

  /** Removing an id that only entry `k` has removes exactly that entry and
      keeps the others in order. */
  lemma {:induction false} WithoutRemovesOne(s: seq<VenueEntry>, k: nat)
    requires k < |s|
    requires forall i :: 0 <= i < |s| && i != k ==> s[i].id != s[k].id
    ensures Without(s, s[k].id) == s[..k] + s[k + 1..]
    decreases k
  {
    var id := s[k].id;
    var rest := s[1..];
    assert Without(s, id) == if s[0].id == id then Without(rest, id) else [s[0]] + Without(rest, id);
    if k == 0 {
      assert forall i :: 0 <= i < |rest| ==> rest[i] == s[i + 1];
      WithoutAbsent(rest, id);
    } else {
      forall i | 0 <= i < |rest| && i != k - 1 ensures rest[i].id != rest[k - 1].id {
        assert rest[i] == s[i + 1];
      }
      WithoutRemovesOne(rest, k - 1);
      assert rest[..k - 1] + rest[k..] == s[1..k] + s[k + 1..];
      assert s[..k] + s[k + 1..] == [s[0]] + (s[1..k] + s[k + 1..]);
    }
  }

  /** Removing entries keeps the numbering. */
  lemma RemoveKeepsNumbering(f: Form, id: nat)
    requires WellNumbered(f)
    ensures WellNumbered(Form(Without(f.saved, id), f.counter))
  {
    var r := Without(f.saved, id);
    WithoutMembers(f.saved, id);
    SubseqIncreasing(r, f.saved);
  }

  lemma {:induction false} SubseqIncreasing(r: seq<VenueEntry>, s: seq<VenueEntry>)
    requires IsSubseq(r, s)
    requires forall i, j :: 0 <= i < j < |s| ==> s[i].id < s[j].id
    ensures forall i, j :: 0 <= i < j < |r| ==> r[i].id < r[j].id
    decreases |s|
  {
    if |r| > 0 {
      if r[0] == s[0] && IsSubseq(r[1..], s[1..]) {
        SubseqIncreasing(r[1..], s[1..]);
        SubseqMembers(r[1..], s[1..]);
        forall b | 0 < b < |r| ensures r[0].id < r[b].id {
          assert r[b] in r[1..];
          var c :| 0 <= c < |s[1..]| && s[1..][c] == r[b];
          assert s[c + 1] == r[b];
        }
        forall i, j | 0 < i < j < |r| ensures r[i].id < r[j].id {
          assert r[i] == r[1..][i - 1] && r[j] == r[1..][j - 1];
        }
      } else {
        SubseqIncreasing(r, s[1..]);
      }
    }
  }

  /** The sub-form after a successful save or a close: the picker back on
      "Select", no date, the default time. */
  function ClearedDraft(open: bool): VenueDraft {
    VenueDraft(open, Unselected, [], DefaultTime)
  }

  /** A saved venue's edit button: the entry goes back into the open
      sub-form and leaves the list. */
  function EditEntry(f: Form, e: VenueEntry): (r: (Form, VenueDraft))
    ensures r.1 == VenueDraft(true, e.venue, e.date, e.time)
    ensures r.0.counter == f.counter
    ensures forall x :: x in r.0.saved <==> x in f.saved && x.id != e.id
  {
    WithoutMembers(f.saved, e.id);
    (Form(Without(f.saved, e.id), f.counter), VenueDraft(true, e.venue, e.date, e.time))
  }

  /** Editing a saved venue and saving it unchanged moves it to the end of
      the list under a fresh id; the other entries keep their order. */
  lemma EditThenSave(f: Form, k: nat, today: string)
    requires WellNumbered(f) && k < |f.saved|
    requires var e := f.saved[k]; !LexLt(e.date, today) && e.venue != [] && e.venue != Unselected && e.date != [] && e.time != []
    ensures var e := f.saved[k];
            var (g, d) := EditEntry(f, e);
            TrySaveVenue(g, d.venue, d.date, d.time, today) ==
              (Saved, Form(f.saved[..k] + f.saved[k + 1..] + [e.(id := f.counter + 1)], f.counter + 1))
  {
    var e := f.saved[k];
    var g := Form(Without(f.saved, e.id), f.counter);
    assert EditEntry(f, e) == (g, VenueDraft(true, e.venue, e.date, e.time));
    WithoutRemovesOne(f.saved, k);
    var added := VenueEntry(f.counter + 1, e.venue, e.date, e.time);
    assert TrySaveVenue(g, e.venue, e.date, e.time, today) == (Saved, Form(g.saved + [added], f.counter + 1));
    assert added == e.(id := f.counter + 1);
  }

  /** The toggle button: a closed sub-form opens; an open one closes only
      when its venue is saved, and is then cleared. */
  function ToggleVenue(f: Form, d: VenueDraft, today: string): (r: (Form, VenueDraft))
    ensures !d.open ==> r == (f, d.(open := true))
    ensures d.open ==> (r.1.open <==> TrySaveVenue(f, d.venue, d.date, d.time, today).0 != Saved)
    ensures d.open && r.1.open ==> r == (f, d)
    ensures d.open && !r.1.open ==> r == (TrySaveVenue(f, d.venue, d.date, d.time, today).1, ClearedDraft(false))
    ensures WellNumbered(f) ==> WellNumbered(r.0)
  {
    if !d.open then (f, d.(open := true))
    else
      var (outcome, g) := TrySaveVenue(f, d.venue, d.date, d.time, today);
      var r := if outcome == Saved then (g, ClearedDraft(false)) else (f, d);
      if WellNumbered(f) then SaveKeepsNumbering(f, d.venue, d.date, d.time, today); r else r
  }

  /** A stored event-venue as the edit page receives it. */
  datatype StoredVenue = StoredVenue(venueId: string, date: string, time: string)

  /** The edit prefill: a full-mode edit numbers the stored venues 1..n and
      sets the counter to n; a partial edit loads none. */
  function Prefill(stored: seq<StoredVenue>, partial: bool): (f: Form)
    ensures partial ==> f == Form([], 0)
    ensures !partial ==> |f.saved| == |stored| && f.counter == |stored|
    ensures !partial ==> forall i :: 0 <= i < |stored| ==>
              f.saved[i] == VenueEntry(i + 1, stored[i].venueId, stored[i].date, stored[i].time)
  {
    if partial then Form([], 0)
    else Form(seq(|stored|, i requires 0 <= i < |stored| => VenueEntry(i + 1, stored[i].venueId, stored[i].date, stored[i].time)),
              |stored|)
  }

  /** A prefilled form is well numbered, so venues added afterwards get ids
      no prefilled venue has. */
  lemma PrefillWellNumbered(stored: seq<StoredVenue>, partial: bool)
    ensures WellNumbered(Prefill(stored, partial))
  {
  }

  /** A venue of the picker. */
  datatype VenueOption = VenueOption(id: nat, name: string, city: string)

  predicate SearchHit(v: VenueOption, query: string) {
    Contains(Lower(v.name), Lower(query)) || Contains(Lower(v.city), Lower(query))
  }

  /** The venue picker's search: venues whose name or city contains the
      query, ignoring case, in their original order. */
  function VenueSearch(all: seq<VenueOption>, query: string): (r: seq<VenueOption>)
    ensures forall v :: v in r <==> v in all && SearchHit(v, query)
    ensures IsSubseq(r, all)
  {
    Filter(all, (v: VenueOption) => SearchHit(v, query))
  }

  /** An empty query lists every venue (`includes("")` holds). */
  lemma EmptyQueryListsAll(all: seq<VenueOption>)
    ensures VenueSearch(all, []) == all
  {
    forall i | 0 <= i < |all| ensures SearchHit(all[i], []) {
      assert OccursAt(Lower(all[i].name), [], 0);
    }
    FilterAll(all, (v: VenueOption) => SearchHit(v, []));
  }

  /** The state of the venue sub-form when submit is pressed. */
  datatype VenueDraft = VenueDraft(open: bool, venue: string, date: string, time: string)

  /** The main fields of the form. */
  datatype MainFields = MainFields(title: string, description: string, category: string, duration: string)

  /** `None` when creating (no `edit_event_data_backup` is stored); the
      stored `__edit_mode` when editing. */
  type Editing = Option<string>

  datatype SubmitOutcome =
    | IncompleteVenue
    | MissingMain
    | BadDuration
    | NeedsImage
    | NeedsVenue
    | Send(venues: seq<VenueEntry>, thumbnail: bool)

  /** What one click of the submit button leaves behind: its outcome, the
      saved venues, the venue sub-form and the editing state for the next
      click. */
  datatype Click = Click(outcome: SubmitOutcome, form: Form, draft: VenueDraft, editing: Editing)

  /** A partially filled open venue sub-form is saved first. */
  predicate HasSomeInput(d: VenueDraft) {
    d.venue != Unselected || d.date != [] || d.time != DefaultTime
  }

  predicate VenueIncomplete(d: VenueDraft) {
    d.venue == [] || d.venue == Unselected || d.date == [] || d.time == []
  }

  /** The auto-save stores the draft: it is open, touched, complete and not
      dated before today. */
  predicate AutoSaves(d: VenueDraft, today: string) {
    d.open && HasSomeInput(d) && !VenueIncomplete(d) && !LexLt(d.date, today)
  }

  /** The saved venues and the venue sub-form after the submit button's
      auto-save. A past-dated draft is refused by `trySaveVenue`, which
      alerts; submission then goes on without it and the sub-form keeps its
      values. A stored draft empties the sub-form, which stays open. */
  function AutoSave(f: Form, d: VenueDraft, today: string): (r: (Form, VenueDraft))
    ensures WellNumbered(f) ==> WellNumbered(r.0)
    ensures AutoSaves(d, today) ==>
              && |r.0.saved| == |f.saved| + 1 && r.0.saved[..|f.saved|] == f.saved
              && r.0.saved[|f.saved|] == VenueEntry(f.counter + 1, d.venue, d.date, d.time)
              && r.0.counter == f.counter + 1
              && r.1 == ClearedDraft(true)
    ensures !AutoSaves(d, today) ==> r == (f, d)
  {
    if d.open && HasSomeInput(d) && !VenueIncomplete(d) then
      var (outcome, g) := TrySaveVenue(f, d.venue, d.date, d.time, today);
      var r := if outcome == Saved then (g, ClearedDraft(true)) else (f, d);
      if WellNumbered(f) then SaveKeepsNumbering(f, d.venue, d.date, d.time, today); r else r
    else (f, d)
  }

  predicate PartialEdit(editing: Editing) {
    editing.Some? && editing.value == "partial"
  }

  /** The submit button's checks, in order. An incomplete venue sub-form
      stops the click before anything changes. Every later refusal keeps the
      auto-save's effects. Once the request is being prepared (the venue
      check and the send), the edit backup is removed in the `finally`
      block, so the next click runs as a create. */
  function Submit(f: Form, d: VenueDraft, today: string, m: MainFields, editing: Editing, hasImage: bool)
    : (c: Click)
    ensures c.outcome == IncompleteVenue <==> d.open && HasSomeInput(d) && VenueIncomplete(d)
    ensures c.outcome == IncompleteVenue ==> c.form == f && c.draft == d
    ensures c.outcome != IncompleteVenue ==> (c.form, c.draft) == AutoSave(f, d, today)
    ensures c.outcome.Send? <==>
              && !(d.open && HasSomeInput(d) && VenueIncomplete(d))
              && m.title != [] && m.description != [] && m.category != [] && m.duration != []
              && Duration.DurationOk(m.duration)
              && (editing.Some? || hasImage)
              && (PartialEdit(editing) || |AutoSave(f, d, today).0.saved| > 0)
    ensures c.outcome.Send? ==> c.outcome.venues == c.form.saved && c.outcome.thumbnail == hasImage
    ensures c.outcome == NeedsImage ==> editing.None? && !hasImage
    ensures c.outcome == NeedsVenue ==> !PartialEdit(editing) && c.form.saved == []
    ensures c.editing == if c.outcome == NeedsVenue || c.outcome.Send? then None else editing
  {
    if d.open && HasSomeInput(d) && VenueIncomplete(d) then Click(IncompleteVenue, f, d, editing)
    else
      var (g, d') := AutoSave(f, d, today);
      if m.title == [] || m.description == [] || m.category == [] || m.duration == [] then Click(MissingMain, g, d', editing)
      else if !Duration.DurationOk(m.duration) then Click(BadDuration, g, d', editing)
      else if editing.None? && !hasImage then Click(NeedsImage, g, d', editing)
      else if !PartialEdit(editing) && |g.saved| == 0 then Click(NeedsVenue, g, d', None)
      else Click(Send(g.saved, hasImage), g, d', None)
  }

  /** A completed venue draft dated before today is refused by the
      auto-save, and the submission still goes out with the venues saved
      earlier. */
  lemma PastDraftDropped(f: Form, d: VenueDraft, today: string, m: MainFields, editing: Editing, hasImage: bool)
    requires d.open && !VenueIncomplete(d) && LexLt(d.date, today)
    requires |f.saved| > 0 && editing.Some?
    requires m.title != [] && m.description != [] && m.category != [] && Duration.DurationOk(m.duration)
    ensures Submit(f, d, today, m, editing, hasImage) == Click(Send(f.saved, hasImage), f, d, None)
  {
  }

  /** A refused click that got past the venue sub-form keeps the venue the
      auto-save stored. */
  lemma RefusalKeepsAutoSave(f: Form, d: VenueDraft, today: string, m: MainFields, editing: Editing, hasImage: bool)
    requires AutoSaves(d, today)
    ensures var c := Submit(f, d, today, m, editing, hasImage);
            && c.outcome != IncompleteVenue
            && c.form.saved == f.saved + [VenueEntry(f.counter + 1, d.venue, d.date, d.time)]
            && c.form.counter == f.counter + 1
  {
    var c := Submit(f, d, today, m, editing, hasImage);
    assert c.form.saved == c.form.saved[..|f.saved|] + [c.form.saved[|f.saved|]];
  }

  /** A full-mode edit refused for having no venue loses its edit backup: the
      next click with the same fields runs as a create, so without a new
      image it is refused for lacking one. */
  lemma RefusedEditRetriesAsCreate(f: Form, d: VenueDraft, today: string, m: MainFields, mode: string)
    requires Submit(f, d, today, m, Some(mode), false).outcome == NeedsVenue
    ensures var c := Submit(f, d, today, m, Some(mode), false);
            && c.editing == None
            && Submit(c.form, c.draft, today, m, c.editing, false).outcome == NeedsImage
  {
    var c := Submit(f, d, today, m, Some(mode), false);
    assert !(c.draft.open && HasSomeInput(c.draft) && VenueIncomplete(c.draft));
  }
}
