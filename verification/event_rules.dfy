/** The admin page's per-event rules: the status derived from the venue start
    times, the sort-header toggle, the query string sent to the listing,
    which action buttons a row shows, and what the edit and delete buttons
    and a venue-row click lead to. Both admin page revisions share these
    rules. */
module EventRules {
  import opened Text
  import opened Records

  datatype Status = Cancelled | Completed | Active | Inactive

  /** The earliest of a non-empty list of start times. */
  function Earliest(starts: seq<int>): (m: int)
    requires |starts| > 0
    ensures m in starts
    ensures forall i :: 0 <= i < |starts| ==> m <= starts[i]
  {
    if |starts| == 1 then starts[0]
    else
      var rest := Earliest(starts[1..]);
      assert forall i :: 1 <= i < |starts| ==> starts[i] == starts[1..][i - 1];
      if starts[0] <= rest then starts[0] else rest
  }

  /** `calculateStatus`: no venues means cancelled; otherwise the earliest
      start decides, against `now` and the moment one month later. */
  function CalculateStatus(starts: seq<int>, now: int, oneMonthLater: int): (s: Status)
    ensures s == Cancelled <==> |starts| == 0
    ensures s == Completed <==> exists i :: 0 <= i < |starts| && starts[i] < now
    ensures s == Active <==>
      && |starts| > 0
      && (forall i :: 0 <= i < |starts| ==> starts[i] >= now)
      && (exists i :: 0 <= i < |starts| && starts[i] <= oneMonthLater)
    ensures s == Inactive <==>
      && |starts| > 0
      && (forall i :: 0 <= i < |starts| ==> starts[i] >= now && starts[i] > oneMonthLater)
  {
    if |starts| == 0 then Cancelled
    else
      var earliest := Earliest(starts);
      if earliest < now then Completed
      else if earliest <= oneMonthLater then Active
      else Inactive
  }

  /** The status depends on the set of start times only, not on their order
      or repetition. */
  lemma StatusIgnoresOrder(a: seq<int>, b: seq<int>, now: int, oneMonthLater: int)
    requires forall x :: x in a <==> x in b
    ensures CalculateStatus(a, now, oneMonthLater) == CalculateStatus(b, now, oneMonthLater)
  {
    if |a| > 0 {
      assert a[0] in a;
    } else if |b| > 0 {
      assert b[0] in b;
    }
    var sa := CalculateStatus(a, now, oneMonthLater);
    if sa == Completed {
      var i :| 0 <= i < |a| && a[i] < now;
      assert a[i] in b;
    } else if sa == Active {
      var i :| 0 <= i < |a| && a[i] <= oneMonthLater;
      assert a[i] in b;
    }
  }

  /** The header sort state: the selected key and the direction. */
  datatype SortState = SortState(sortBy: Option<string>, ascending: bool)

  /** A click on the sort header `key`. */
  function ToggleSort(st: SortState, key: string): (r: SortState)
    ensures r.sortBy == Some(key)
    ensures st.sortBy == Some(key) ==> r.ascending == !st.ascending
    ensures st.sortBy != Some(key) ==> r.ascending
  {
    if st.sortBy == Some(key) then SortState(st.sortBy, !st.ascending) else SortState(Some(key), true)
  }

  /** Two clicks on the selected header restore the direction; a click on a
      new header and one more on it leave it descending. */
  lemma ToggleSortTwice(st: SortState, key: string)
    ensures st.sortBy == Some(key) ==> ToggleSort(ToggleSort(st, key), key) == st
    ensures st.sortBy != Some(key) ==> !ToggleSort(ToggleSort(st, key), key).ascending
  {
  }

  function OrderText(ascending: bool): string {
    if ascending then "asc" else "desc"
  }

  /** The listing query of the newer admin page: sort parameters when a key
      is selected, then the search term when there is one. */
  function ListingQuery(st: SortState, search: string): (q: seq<(string, string)>)
    ensures |q| <= 3
    ensures (exists p :: p in q && p.0 == "sort_by") <==> st.sortBy.Some? && st.sortBy.value != ""
    ensures (exists p :: p in q && p.0 == "sort_order") <==> st.sortBy.Some? && st.sortBy.value != ""
    ensures ("search", search) in q <==> search != []
    ensures forall p :: p in q && p.0 == "sort_by" ==> p.1 == st.sortBy.value
    ensures forall p :: p in q && p.0 == "sort_order" ==> p.1 == OrderText(st.ascending)
  {
    var sortPart := if st.sortBy.Some? && st.sortBy.value != ""
                    then [("sort_by", st.sortBy.value), ("sort_order", OrderText(st.ascending))] else [];
    var searchPart := if search != [] then [("search", search)] else [];
    sortPart + searchPart
  }

  /** The listing request of the older admin page: a search replaces the
      endpoint and drops the sort parameters. */
  function LegacyListingQuery(st: SortState, search: string, url: string): (r: (string, seq<(string, string)>))
    ensures search != [] ==> r == (SearchEndpoint, [("search", search)])
    ensures search == [] ==> r.0 == url && r.1 == ListingQuery(st, [])
  {
    if search != [] then (SearchEndpoint, [("search", search)])
    else (url, ListingQuery(st, []))
  }

  const SearchEndpoint: string := "http://127.0.0.1:8000/api/admin/events-search"

  /** The query string joined to the URL: `&` when the URL already has a
      query, `?` otherwise. */
  function FullUrl(url: string, query: string): (r: string)
    ensures |r| == |url| + 1 + |query|
    ensures r[..|url|] == url && r[|url| + 1..] == query
    ensures r[|url|] == (if '?' in url then '&' else '?')
  {
    url + [if '?' in url then '&' else '?'] + query
  }

  /** A URL with no query gains exactly one `?`. */
  lemma FullUrlSingleQuestionMark(url: string, query: string)
    requires '?' !in url && '?' !in query
    ensures var r := FullUrl(url, query);
            forall i :: 0 <= i < |r| ==> (r[i] == '?' <==> i == |url|)
  {
    var r := FullUrl(url, query);
    forall i | 0 <= i < |r| ensures r[i] == '?' <==> i == |url| {
      if i < |url| {
        assert r[i] == url[i];
      } else if i > |url| {
        assert r[i] == query[i - |url| - 1];
      }
    }
  }

  datatype Button = EditButton | DeleteButton

  /** The action buttons a row shows for its status. */
  function Buttons(s: Status): (b: set<Button>)
    ensures DeleteButton in b <==> s != Completed
    ensures EditButton in b <==> s == Active || s == Inactive
  {
    match s
    case Completed => {}
    case Cancelled => {DeleteButton}
    case _ => {EditButton, DeleteButton}
  }

  datatype EditMode = Partial | Full

  /** An active event with booked tickets may only have its main fields
      edited. */
  function EditModeFor(s: Status, ticketsBooked: seq<int>): (m: EditMode)
    ensures m == Partial <==> s == Active && exists i :: 0 <= i < |ticketsBooked| && ticketsBooked[i] > 0
  {
    if s == Active && exists i :: 0 <= i < |ticketsBooked| && ticketsBooked[i] > 0 then Partial else Full
  }

  datatype EditOutcome = EditNotAuthorized | EditLoaded(mode: EditMode)

  /** The edit button: only the creating admin may edit. */
  function EditDecision(createdBy: nat, loggedInAdmin: Option<string>, s: Status, ticketsBooked: seq<int>): (o: EditOutcome)
    ensures o.EditLoaded? <==> loggedInAdmin == Some(NatToString(createdBy))
    ensures o.EditLoaded? ==> o.mode == EditModeFor(s, ticketsBooked)
  {
    if loggedInAdmin != Some(NatToString(createdBy)) then EditNotAuthorized
    else EditLoaded(EditModeFor(s, ticketsBooked))
  }

  datatype DeleteOutcome = NotAuthenticated | DeleteNotAuthorized | CannotDelete | ConfirmDelete | ChooseCancelOrDelete

  /** The delete button: authentication, then authorship, then status. */
  function DeleteDecision(hasToken: bool, createdBy: nat, loggedInAdmin: Option<string>, s: Status): (o: DeleteOutcome)
    ensures o == NotAuthenticated <==> !hasToken
    ensures o == DeleteNotAuthorized <==> hasToken && loggedInAdmin != Some(NatToString(createdBy))
    ensures o == CannotDelete <==> hasToken && loggedInAdmin == Some(NatToString(createdBy)) && s == Completed
    ensures o == ConfirmDelete <==> hasToken && loggedInAdmin == Some(NatToString(createdBy)) && s == Cancelled
    ensures o == ChooseCancelOrDelete <==>
      hasToken && loggedInAdmin == Some(NatToString(createdBy)) && (s.Active? || s.Inactive?)
  {
    if !hasToken then NotAuthenticated
    else if loggedInAdmin != Some(NatToString(createdBy)) then DeleteNotAuthorized
    else if s == Completed then CannotDelete
    else if s != Cancelled then ChooseCancelOrDelete
    else ConfirmDelete
  }

  /** A completed event is never deleted: its row shows no delete button and
      the handler refuses it anyway. */
  lemma CompletedNeverDeleted(hasToken: bool, createdBy: nat, loggedInAdmin: Option<string>)
    ensures DeleteButton !in Buttons(Completed)
    ensures DeleteDecision(hasToken, createdBy, loggedInAdmin, Completed) !in {ConfirmDelete, ChooseCancelOrDelete}
  {
  }

  datatype ClickGate = BlockedCancelled | BlockedNotStarted | Proceed

  /** A click on a venue row: nothing opens under a cancelled event or one
      whose booking has not started. */
  function VenueClickGate(parent: Status): (g: ClickGate)
    ensures g == Proceed <==> parent.Active? || parent.Completed?
    ensures g == BlockedCancelled <==> parent == Cancelled
  {
    if parent == Cancelled then BlockedCancelled
    else if parent == Inactive then BlockedNotStarted
    else Proceed
  }

  /** A click on an event row: only a cancelled event is refused. */
  function EventClickGate(s: Status): (g: ClickGate)
    ensures g == Proceed <==> s != Cancelled
    ensures g != BlockedNotStarted
  {
    if s == Cancelled then BlockedCancelled else Proceed
  }

  /** Ticket rows can only open under an event that has at least one venue
      starting no later than a month from now. */
  lemma TicketsNeedBookableEvent(starts: seq<int>, now: int, oneMonthLater: int)
    requires VenueClickGate(CalculateStatus(starts, now, oneMonthLater)) == Proceed
    ensures exists i :: 0 <= i < |starts| && (starts[i] < now || starts[i] <= oneMonthLater)
  {
    var s := CalculateStatus(starts, now, oneMonthLater);
    if s == Completed {
      var i :| 0 <= i < |starts| && starts[i] < now;
    } else {
      var i :| 0 <= i < |starts| && starts[i] <= oneMonthLater;
    }
  }
}
