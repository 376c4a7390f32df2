# Tick-here event ticketing — a Dafny model of its core

Tick-here is an event-ticketing site. Its admin pages create events and book them into venues on calendar days. They list, sort and search the events, and show counts per category. The public pages list upcoming events per location. A seeder sells seats as tickets, and a scheduled command expires the tickets of events that have begun.

This project models the logic behind those features as pure Dafny functions and methods over immutable records. It covers:

- **Event search.** The backend's linear and binary search strategies, and the admin listing pipeline around them: sort whitelist, status keywords, strategy choice and pages of ten.
- **Admin page rules.** The frontend's local bisection search; the derived event status; and the sort header, query string, edit, delete and click rules of the two admin page revisions, including the stack of expanded sections.
- **Venue scheduling.** Create, update and cancel, where a venue holds at most one event-venue per calendar day and a failed request leaves the store untouched.
- **Seats and tickets.** The seeder's booking loop and the expiry sweep, with the invariant that ties them together: a seat is booked exactly when a booked ticket holds it.
- **Validators and small helpers.** The password rule and username of new admin accounts; the category statistics; the create-event form (saved venue list, auto-save and submit checks, duration format); the new-location form; and the home page's card selection and `/events` link.

Datetimes are integers (seconds). `now`, "one month from now", today's calendar day and the week window are parameters. The calendar day of a timestamp is `t / 86400`. Strings are sequences of Unicode characters. White space, as JavaScript's `trim()` and `\s` see it, is ECMAScript's full WhiteSpace and LineTerminator set (including U+00A0, U+FEFF and U+2028). Case folding is ASCII-only, and text order is plain lexicographic order on character codes.

Modules, in dependency order:

- **Shared**
  - `Text`: character classes, lower-casing, containment, trimming, decimal numbers.
  - `Records`: events, event-venues, seats, tickets and `Option`.
  - `Ordering`: lexicographic order.
  - `Seqs`: subsequences, filter, count, reverse.
  - `Sorting`: sort columns and one insertion sort.
- **Search and listing**: `LinearSearch`, `BackendBinarySearch`, `AdminListing`, `FrontendSearch`.
- **Admin page rules**: `EventRules`, `UiStack`.
- **Event data**: `Duration`, `VenueSchedule`, `LocationListing`.
- **Seats and tickets**: `TicketStore`, `ExpirySweep`, `SeatBooking`.
- **Admin accounts and statistics**: `AdminAccounts`, `AdminStats`.
- **Frontend forms and pages**: `CreateForm`, `LocationForm`, `HomePage`.

## Model

| member | source | states |
|---|---|---|
| LinearSearch.Search | backend/app/Services/SearchingService.php:16-23 | An event is kept exactly when one of its six lower-cased fields contains the term: title, id, duration, description, category name and admin name, with a missing category or admin read as empty. The result is never longer than the input. |
| LinearSearch.SearchIsSubsequence | backend/app/Services/SearchingService.php:16 | The linear search is a filter: its result is a subsequence of the input, in the same relative order. |
| LinearSearch.EmptySearchFindsNothing | backend/app/Services/SearchingService.php:17-22 | An empty term matches nothing, because `Str::contains` never matches an empty needle. |
| LinearSearch.TitleHitMatches | backend/app/Services/SearchingService.php:17 | A non-empty term contained in the lower-cased title always makes the event a match. |
| Sorting.Sort | backend/app/Services/SearchingService.php:29 | Sorting by a column yields a permutation of the input, ordered by that column in the chosen direction. |
| BackendBinarySearch.Bisect | backend/app/Services/SearchingService.php:30-35 | Bisection terminates. When it reports a hit, the midpoint is an index whose key contains the term. An empty collection never yields a hit. When the lower-cased keys ascend and the term is non-empty, a key that starts with the term is never missed. |
| BackendBinarySearch.ExpandLeft | backend/app/Services/SearchingService.php:40-44 | The left walk collects the anchor and its matching left neighbours in decreasing index order. It stops at the first non-match or at the front. |
| BackendBinarySearch.ExpandRight | backend/app/Services/SearchingService.php:47-51 | The right walk collects the matching neighbours after the anchor in increasing order. It stops at the first non-match or at the end. |
| BackendBinarySearch.DedupFacts | backend/app/Services/SearchingService.php:61 | `unique('id')` keeps exactly the first event with each id not already seen: an event is kept iff it is the first of the input with its id. So ids are unique, no id is lost, and the result is a subsequence of its input. |
| BackendBinarySearch.BinarySearch | backend/app/Services/SearchingService.php:27-62 | The results come from a key-ascending copy of the input. Every result's key contains the term, and no id repeats. If an anchor is found, the run around it is maximal and the results start with the anchor. If none is found, the result is empty: there is no fallback. An empty collection gives an empty result. On a text column whose values are already lower-case, an event whose value starts with a non-empty term always yields an anchor. |
| BackendBinarySearch.CollectedFacts | backend/app/Services/SearchingService.php:40-51 | Every event the expansion collects from a maximal run is an input event whose key matches. |
| BackendBinarySearch.TitleResultsAreLinearMatches | backend/app/Services/SearchingService.php:38 | On the title column, every binary-search hit is also a linear-search match. |
| AdminListing.SortColumn | backend/app/Http/Controllers/EventController.php:32-39 | `title`, `admin` and `duration` select their columns. Everything else, including an absent value, sorts by id. Both directions of each case are stated. |
| AdminListing.SortDirection | backend/app/Http/Controllers/EventController.php:29 | An absent order means descending. `asc` and `desc` are accepted in any case. Any other value is rejected. |
| AdminListing.SliceStart | backend/app/Http/Controllers/EventController.php:83 | Where PHP's `array_slice` starts: the offset clamped to the item count, or counted from the end when negative. |
| AdminListing.LastPage | backend/app/Http/Controllers/EventController.php:82-88 | The last page is at least 1, and is the least number of ten-item pages that holds every result. |
| AdminListing.Paginate | backend/app/Http/Controllers/EventController.php:78-88 | For page p ≥ 1 the items are the results from index (p-1)·10 up to p·10 or the end, and nothing past the last result. Page 0 holds the last ten results, or all of them when there are fewer. The total is the full count, and the reported page number is at least 1. |
| AdminListing.PageHolds | backend/app/Http/Controllers/EventController.php:78-88 | Result k is item k mod 10 of page k div 10 + 1, and that page is not past the last page. |
| AdminListing.PastLastPageEmpty | backend/app/Http/Controllers/EventController.php:78-88 | A page after the last one is empty. |
| AdminListing.SearchStep | backend/app/Http/Controllers/EventController.php:70-76 | No search for a falsy term. Binary search exactly for a truthy term with `sort_by` `title` or `admin`, otherwise linear search, both on the lower-cased term. Linear results are the linear filter. Binary results have unique ids and matching keys, and are empty or the de-duplicated maximal run of the key-ascending copy. When every key is already lower-case and some key starts with the term, the binary results are not empty. |
| AdminListing.Index | backend/app/Http/Controllers/EventController.php:26-94 | Status keywords become a status filter and clear the search. A truthy search uses binary search when `sort_by` is `title` or `admin`, and linear search otherwise, on the lower-cased term over the sorted events. A binary result is empty or the de-duplicated maximal run around an anchor of the key-ascending copy, and it is not empty when every key is lower-case and some event's key starts with the term. With no search, the listing is the sorted events (filtered by status when a keyword was given). The page is the slice of the matched events. |
| FrontendSearch.LocalColumn | frontend/src/admin/manage-event/manageEvent.ts:215-223 | The local copy is sorted by id exactly when the header is `sl`, and by title otherwise. |
| FrontendSearch.BisectId | frontend/src/admin/manage-event/manageEvent.ts:226-239 | On ids sorted in either direction, bisection finds an event with the sought id exactly when one exists. |
| FrontendSearch.BisectTitle | frontend/src/admin/manage-event/manageEvent.ts:226-251 | A reported anchor's lower-cased title starts with the term; an empty list never yields one. When the lower-cased titles follow the sort direction, some title starting with the term means an anchor is found. |
| FrontendSearch.NoPrefixFrom | frontend/src/admin/manage-event/manageEvent.ts:241-244 | When the midpoint's lower-cased title does not start with the term and lies beyond it in the sort direction, no title from the midpoint on starts with the term, so moving `high` below it loses nothing. |
| FrontendSearch.NoPrefixUpTo | frontend/src/admin/manage-event/manageEvent.ts:241-247 | When the midpoint's lower-cased title does not start with the term and does not lie beyond it, no title up to the midpoint starts with the term, so moving `low` above it loses nothing. |
| FrontendSearch.LowerCaseTitlesOrdered | frontend/src/admin/manage-event/manageEvent.ts:216-223 | Titles that are already lower-case keep the sort order once lower-cased, in both directions. |
| FrontendSearch.PrefixRun | frontend/src/admin/manage-event/manageEvent.ts:256-266 | Around an anchor, the run of titles starting with the term is contiguous and maximal: the neighbours just outside it do not start with the term. |
| FrontendSearch.Fallback | frontend/src/admin/manage-event/manageEvent.ts:271-277 | The fallback keeps exactly the sorted events whose id text contains the raw term (id path) or whose lower-cased title contains the lower-cased term (title path), in sorted order. |
| FrontendSearch.SearchId | frontend/src/admin/manage-event/manageEvent.ts:230-277 | On the id path there is exactly one result, with the sought id, precisely when such an event exists. Otherwise the result is the containment fallback. |
| FrontendSearch.SearchTitle | frontend/src/admin/manage-event/manageEvent.ts:240-277 | On the title path the result is either a non-empty maximal prefix run of the sorted copy or the containment fallback. When no title starts with the term, it is the fallback. When the lower-cased titles follow the sort direction and some title starts with the term, it is a prefix run. Every result's title contains the term. |
| FrontendSearch.Search | frontend/src/admin/manage-event/manageEvent.ts:185-291 | A blank trimmed term does nothing. Local bisection runs only for `sl` with an all-digit term or `title` with any other term; every other case goes to the backend. Local results are loaded events, as described by the two paths. On the title path the result is a non-empty maximal prefix run of the sorted copy or the fallback; the fallback when no title starts with the term; a prefix run when all titles are lower-case and one starts with the term. |
| FrontendSearch.SearchLocal | frontend/src/admin/manage-event/manageEvent.ts:214-277 | Past the eligibility gate, results are loaded events. On `sl`, exactly one result with the sought id precisely when such an event exists, else the id fallback. On `title`, a non-empty maximal prefix run of the sorted copy or the title fallback. It is the fallback when no title starts with the term, and a prefix run when every title is lower-case and some title starts with the term. |
| EventRules.CalculateStatus | frontend/src/admin/manage-event/manageEvent.ts:52-68 | No venues means Cancelled. Otherwise the status depends on the earliest start: Completed if before now, Active if no later than a month from now, Inactive after that. Each case is stated as an if-and-only-if. |
| EventRules.Earliest | frontend/src/Admin/manage-event/manageEvent.ts:90-94 | The first date after sorting is a start time of the list that no other start time precedes. |
| EventRules.StatusIgnoresOrder | frontend/src/Admin/manage-event/manageEvent.ts:83-99 | Two lists with the same start times give the same status, whatever their order. |
| EventRules.ToggleSort | frontend/src/Admin/manage-event/manageEvent.ts:359-364 | Clicking the selected header flips the direction. Clicking another header selects it, ascending. |
| EventRules.ToggleSortTwice | frontend/src/admin/manage-event/manageEvent.ts:476-481 | Two clicks on the selected header restore the state. Two clicks on a new header leave it descending. |
| EventRules.ListingQuery | frontend/src/Admin/manage-event/manageEvent.ts:145-152 | `sort_by` and `sort_order` appear exactly when a key is selected, and `search` exactly when the term is non-empty. Both may appear together. |
| EventRules.LegacyListingQuery | frontend/src/admin/manage-event/manageEvent.ts:114-122 | In the older page, a search switches to the search endpoint with only the `search` parameter. Otherwise the sort parameters go to the given URL. |
| EventRules.FullUrl | frontend/src/Admin/manage-event/manageEvent.ts:154-156 | The query string is joined with `&` when the URL already has a `?`, and with `?` otherwise. |
| EventRules.FullUrlSingleQuestionMark | frontend/src/Admin/manage-event/manageEvent.ts:154-156 | A URL and query without `?` give a URL with exactly one `?`, right after the original URL. |
| EventRules.Buttons | frontend/src/Admin/manage-event/manageEvent.ts:124-131 | A row has a delete button unless it is Completed, and an edit button exactly when it is Active or Inactive. |
| EventRules.EditModeFor | frontend/src/Admin/manage-event/manageEvent.ts:470-479 | Editing is partial exactly when the event is Active and some venue has booked tickets. |
| EventRules.EditDecision | frontend/src/Admin/manage-event/manageEvent.ts:443-479 | Only the creating admin may edit. An allowed edit loads in the mode given by `EditModeFor`. |
| EventRules.DeleteDecision | frontend/src/Admin/manage-event/manageEvent.ts:494-567 | The delete button checks authentication, then authorship, then status. Completed is refused, Cancelled is confirmed and deleted, and Active or Inactive gets the cancel-or-delete choice. Each outcome is stated as an if-and-only-if. |
| EventRules.CompletedNeverDeleted | frontend/src/Admin/manage-event/manageEvent.ts:516-519 | A Completed event shows no delete button, and the handler never offers to delete it. |
| EventRules.VenueClickGate | frontend/src/Admin/manage-event/manageEvent.ts:412-420 | A venue row opens its tickets only under an Active or Completed event. |
| EventRules.EventClickGate | frontend/src/Admin/manage-event/manageEvent.ts:391-394 | An event row opens its venues unless the event is Cancelled. |
| EventRules.TicketsNeedBookableEvent | frontend/src/Admin/manage-event/manageEvent.ts:412-420 | If tickets can open, the event has a venue starting no later than a month from now. |
| UiStack.Clear | frontend/src/Admin/manage-event/manageEvent.ts:50-55 | Clearing always empties the stack and removes the sections top first. |
| UiStack.PopIfKind | frontend/src/Admin/manage-event/manageEvent.ts:61-67 | Exactly one section is popped when the top has the given kind. Otherwise the stack is unchanged. |
| UiStack.PopIfFollows | frontend/src/Admin/manage-event/manageEvent.ts:69-80 | It returns true and pops once exactly when the top section follows the clicked row. Otherwise it returns false and leaves the stack unchanged. |
| UiStack.EventRowClick | frontend/src/Admin/manage-event/manageEvent.ts:387-402 | A refused click on an event row leaves the stack unchanged. |
| UiStack.VenueRowClick | frontend/src/Admin/manage-event/manageEvent.ts:405-427 | A refused click on a venue row leaves the stack unchanged. |
| UiStack.EventClickKeepsShape | frontend/src/Admin/manage-event/manageEvent.ts:387-402 | Event-row clicks keep the page in one of its shapes: nothing open, one event's venues open, or those venues plus one venue's tickets. |
| UiStack.VenueClickKeepsShape | frontend/src/Admin/manage-event/manageEvent.ts:405-427 | Venue-row clicks keep the page in one of its shapes and keep the venue section open. |
| UiStack.EventClickToggles | frontend/src/Admin/manage-event/manageEvent.ts:397-401 | Clicking an event row opens its venues, and clicking it again closes them. |
| UiStack.VenueClickCloses | frontend/src/Admin/manage-event/manageEvent.ts:423 | Clicking the venue row whose tickets are open closes just the tickets. |
| Duration.FormatRoundTrip | frontend/src/Admin/create_event/create.ts:418-423 | Every `H:m:s` written from numbers below 100 passes the client and server checks, and its three groups read back as those numbers. |
| Duration.NeedsThreeGroups | frontend/src/Admin/create_event/create.ts:418 | A duration whose colon count is not two is refused. |
| VenueSchedule.NewRows | backend/app/Http/Controllers/EventController.php:230-235 | Each venue of the request becomes one event-venue of the event, with consecutive ids, in request order. |
| VenueSchedule.AddRows | backend/app/Http/Controllers/EventController.php:206-236 | Stored rows are the old rows plus the request's rows. A refusal is a past date or a booked slot. |
| VenueSchedule.AddRowsSucceedsIff | backend/app/Http/Controllers/EventController.php:206-228 | The venues are stored exactly when every day is in the future (when checked), no slot is already taken, and no slot is taken twice within the request. |
| VenueSchedule.AddRowsKeepsNoDoubleBooking | backend/app/Http/Controllers/EventController.php:217-228 | Storing a request keeps every venue to at most one event-venue per calendar day. |
| VenueSchedule.Create | backend/app/Http/Controllers/EventController.php:173-263 | A create succeeds exactly when the fields are valid and the venues are acceptable with the future-day check. It then appends the event and its rows; any failure leaves the store as it was. |
| VenueSchedule.CreateOnlyFutureDays | backend/app/Http/Controllers/EventController.php:207-215 | Every row a create stores starts on a day after today. |
| VenueSchedule.CreateKeepsNoDoubleBooking | backend/app/Http/Controllers/EventController.php:206-236 | A create never double-books a venue on a day. |
| VenueSchedule.FindEvent | backend/app/Http/Controllers/EventController.php:306-311 | A found position holds the event with that id; not found means no event has it. |
| VenueSchedule.OtherRows | backend/app/Http/Controllers/EventController.php:359 | Deleting an event's rows keeps exactly the other events' rows, in order. |
| VenueSchedule.WithFields | backend/app/Http/Controllers/EventController.php:340-354 | The title, description, duration and category come from the validated request. The thumbnail is the newly stored file when one was uploaded, and the old path otherwise. The id, the admin and the loaded names are unchanged. |
| VenueSchedule.Update | backend/app/Http/Controllers/EventController.php:304-391 | A missing event is NotFound, an invalid request for an existing event is Invalid, and any failure leaves the store as it was. Partial mode never touches event-venue rows. A valid full-mode update replaces the event's rows with the request's, and succeeds exactly when the new venues are acceptable against the other events' rows. |
| VenueSchedule.PartialUpdateKeepsRows | backend/app/Http/Controllers/EventController.php:357-383 | A partial-mode update leaves every event-venue row as it was. |
| VenueSchedule.UpdateKeepsNoDoubleBooking | backend/app/Http/Controllers/EventController.php:357-383 | An update never double-books a venue on a day. |
| VenueSchedule.ResubmitOwnScheduleAccepted | backend/app/Http/Controllers/EventController.php:359-368 | Re-submitting an event's current schedule in full mode is never refused as a double booking. |
| VenueSchedule.Cancel | backend/app/Http/Controllers/EventController.php:284-301 | Cancel refuses an event without venues. Otherwise it removes exactly that event's rows and keeps the event. |
| VenueSchedule.CancelKeepsNoDoubleBooking | backend/app/Http/Controllers/EventController.php:295 | Cancelling keeps every venue to one event-venue per day. |
| VenueSchedule.CancelTwiceRefused | backend/app/Http/Controllers/EventController.php:287-293 | A second cancel of the same event is refused as having no venues. |
| LocationListing.EarliestUpcoming | backend/app/Http/Controllers/EventController.php:402-413 | The first eager-loaded event-venue is an upcoming one of the event at the location with the smallest start. There is none exactly when no such row exists. |
| LocationListing.MinPrice | backend/app/Http/Controllers/EventController.php:422-424 | The lowest price is a seat price of the venue that no other seat there undercuts. It is null exactly when the venue has no seats. |
| LocationListing.CardDescribes | backend/app/Http/Controllers/EventController.php:412-425 | A listed event's card carries its fields, its earliest upcoming start at the location, and the cheapest seat of a venue holding that start. |
| LocationListing.ListedByTitle | backend/app/Http/Controllers/EventController.php:396-410 | It keeps exactly the events with an event-venue at the location starting at or after now, ordered by title, one entry per position of the event list that holds such an event. |
| LocationListing.EventsByLocation | backend/app/Http/Controllers/EventController.php:394-431 | Every card describes a listed event, every listed event has a card, and the cards are in title order. There are exactly as many cards as positions of the event list holding a listed event, so each listed event yields one card. |
| LocationListing.PastEventsNotListed | backend/app/Http/Controllers/EventController.php:396-399 | An event whose event-venues at the location have all begun gets no card. |
| ExpirySweep.Unbook | backend/app/Console/Commands/ExpireTickets.php:32-38 | Existing seats whose ids the ticket holds are released. Ids with no seat are skipped, and other seats are unchanged. |
| ExpirySweep.Expire | backend/app/Console/Commands/ExpireTickets.php:16-43 | The command expires exactly the booked tickets whose event-venue began before now. It releases exactly the seats those tickets hold, and leaves every other ticket and seat as it was. |
| ExpirySweep.SweepIdempotent | backend/app/Console/Commands/ExpireTickets.php:20-24 | A second run with the same `now` changes nothing. |
| ExpirySweep.SweepLeavesOthers | backend/app/Console/Commands/ExpireTickets.php:20-24 | Unselected tickets, and seats no selected ticket holds, are left untouched. Seat ids, venues and prices never change. |
| ExpirySweep.SweepLeavesNoStale | backend/app/Console/Commands/ExpireTickets.php:26-29 | Afterwards no booked ticket of a begun event-venue remains, and every selected ticket is expired. |
| ExpirySweep.SweepKeepsConsistent | backend/app/Console/Commands/ExpireTickets.php:26-39 | The sweep keeps the invariant: a seat is booked exactly when a booked ticket holds it, and no two booked tickets share a seat. |
| SeatBooking.FreeSeats | backend/database/seeders/TicketSeeder.php:33 | The candidates are exactly the venue's unbooked seats, with unique ids. |
| SeatBooking.MarkBooked | backend/database/seeders/TicketSeeder.php:60-67 | The chosen seats are marked booked, and no other seat changes. |
| SeatBooking.SumByIdOfMembers | backend/database/seeders/TicketSeeder.php:47 | Looking the chosen seats' prices up by id in the seat table gives the same sum as the chosen seats' own prices. |
| SeatBooking.BookTicket | backend/database/seeders/TicketSeeder.php:49-74 | A failed transaction leaves the store exactly as it was, and a successful one appends exactly one ticket. |
| SeatBooking.BookKeepsConsistent | backend/database/seeders/TicketSeeder.php:49-74 | Booking free seats keeps the seat/ticket invariant, and changes no seat's id, venue or price. |
| SeatBooking.BookEventVenue | backend/database/seeders/TicketSeeder.php:31-75 | The store afterwards is exactly BookedVenue: each draw takes the next count free seats (all that are left when fewer remain) off the front of the venue's free seats, a failing draw uses up its seats without creating a ticket, and the first empty splice stops the loop. Every other draw adds, in order, a booked ticket holding those seats and priced at the sum of their prices, and the seats become booked. New tickets share no seat, the invariant holds, and a venue with no free seat is skipped. |
| SeatBooking.Seed | backend/database/seeders/TicketSeeder.php:18-79 | The store afterwards is exactly SeedFrom: the event-venues starting no later than a month from now are booked in turn, each against the free seats the previous ones left. Every seeded ticket is booked, non-empty, priced at the sum of its seats, and on such an event-venue. The invariant holds throughout. |
| SeatBooking.PlannedSellsAll | backend/database/seeders/TicketSeeder.php:40-75 | When every draw asks for at least one seat and succeeds, and there are at least as many draws as free seats, the new tickets together hold every free seat, in list order. |
| AdminAccounts.Score | backend/app/Http/Controllers/AdminController.php:31-36 | The score counts the character classes present, so it is at most 4. |
| AdminAccounts.PasswordOk | backend/app/Http/Controllers/AdminController.php:26-41 | A password is accepted exactly when it has at least 8 characters and three of the four classes: upper case, lower case, digit, and other (underscore included). |
| AdminAccounts.NoSymbolNeedsAllThree | backend/app/Http/Controllers/AdminController.php:31-38 | Without a symbol, a password needs upper case, lower case and a digit together. |
| AdminAccounts.SingleClassRefused | backend/app/Http/Controllers/AdminController.php:31-38 | A password drawn from a single class is refused, whatever its length. |
| AdminAccounts.Username | backend/app/Http/Controllers/AdminController.php:48 | The username is the email's text before its first `@`. It never contains `@`, and is empty when the email has none. |
| AdminAccounts.UsernameOfAddress | backend/app/Http/Controllers/AdminController.php:48 | When an address is a local part containing no at sign, then an at sign, then any domain, the username stored for it is exactly that local part. |
| AdminStats.Growth | backend/app/Http/Controllers/AdminController.php:199 | With no events the growth is 0 or 100. Otherwise it is thisWeek/total*100 rounded half up, stated as a bracket. |
| AdminStats.GrowthInRange | backend/app/Http/Controllers/AdminController.php:190-199 | When thisWeek ≤ total the growth lies in 0..100. It is 100 when every event is this week, and 0 when none is. |
| AdminStats.EventStats | backend/app/Http/Controllers/AdminController.php:189-207 | The total is the number of events of the category. This week's count is the number of those with an event-venue starting inside the week, both ends included. The growth is `Growth` of the two, so it lies in 0..100, and this week's count never exceeds the total. |
| AdminStats.TicketsSold | backend/app/Http/Controllers/AdminController.php:237-240 | The figure is the number of booked tickets whose event-venue belongs to an event of the category. It is zero exactly when there is none. |
| AdminStats.SweepNeverRaisesSales | backend/app/Http/Controllers/AdminController.php:238-240 | The expiry sweep never raises a category's tickets-sold count. |
| CreateForm.TrySaveVenue | frontend/src/Admin/create_event/create.ts:574-608 | A date below today's date as text is refused as past, before any field check. A missing field is refused next. A refusal leaves the list unchanged; a save appends the venue under the next counter value. |
| CreateForm.EmptyDateReportsPast | frontend/src/Admin/create_event/create.ts:584-596 | An empty date is reported as past, not as missing. |
| CreateForm.SaveKeepsNumbering | frontend/src/Admin/create_event/create.ts:598-603 | Saved ids stay strictly increasing and no larger than the counter, and a new id is one no saved venue has. |
| CreateForm.WithoutMembers | frontend/src/Admin/create_event/create.ts:672 | Removing an id keeps exactly the entries with other ids, in order. |
| CreateForm.WithoutRemovesOne | frontend/src/Admin/create_event/create.ts:659 | Removing an id that only one entry has removes exactly that entry and keeps the rest in order. |
| CreateForm.RemoveKeepsNumbering | frontend/src/Admin/create_event/create.ts:672 | Removing entries keeps the list well numbered. |
| CreateForm.EditEntry | frontend/src/Admin/create_event/create.ts:654-664 | The edit button reopens the sub-form with the entry's values and removes exactly that entry from the list. |
| CreateForm.EditThenSave | frontend/src/Admin/create_event/create.ts:654-664 | Editing a saved venue and saving it unchanged moves it to the end under a fresh id. The other entries keep their order. |
| CreateForm.ToggleVenue | frontend/src/Admin/create_event/create.ts:357-369 | A closed sub-form opens. An open one closes, cleared, exactly when its venue is saved, and otherwise stays as it was. |
| CreateForm.Prefill | frontend/src/Admin/create_event/create.ts:227-241 | A full-mode edit numbers the stored venues 1..n and sets the counter to n. A partial edit loads none. |
| CreateForm.PrefillWellNumbered | frontend/src/Admin/create_event/create.ts:229-239 | A prefilled list is well numbered, so venues added later get fresh ids. |
| CreateForm.VenueSearch | frontend/src/Admin/create_event/create.ts:148-156 | The venue search keeps exactly the venues whose name or city contains the query, ignoring case, in order. |
| CreateForm.EmptyQueryListsAll | frontend/src/Admin/create_event/create.ts:149-154 | An empty query lists every venue. |
| CreateForm.AutoSave | frontend/src/Admin/create_event/create.ts:381-401 | An open, touched, complete draft not dated before today is appended under the next id and the sub-form is emptied but stays open. Any other draft leaves the list and the sub-form as they were. The list stays well numbered. |
| CreateForm.Submit | frontend/src/Admin/create_event/create.ts:377-535 | An open, partly filled, incomplete venue sub-form stops the click before anything changes. Every other click keeps the auto-save's effects, whatever its outcome. The form is sent exactly when the main fields are present, the duration is well formed, a create has an image, and (unless partial) some venue is saved. A missing image can only stop a create. Refusing for no venue, or sending, removes the edit backup. |
| CreateForm.PastDraftDropped | frontend/src/Admin/create_event/create.ts:399 | A completed past-dated draft is refused by the auto-save, and the form is still sent with the earlier venues. |
| CreateForm.RefusalKeepsAutoSave | frontend/src/Admin/create_event/create.ts:399-423 | A click refused after the auto-save keeps the venue it stored and the advanced counter. |
| CreateForm.RefusedEditRetriesAsCreate | frontend/src/Admin/create_event/create.ts:484-491 | After a full-mode edit is refused for having no venue, the edit backup is gone: the next click runs as a create and, without an image, is refused for lacking one. |
| LocationForm.CheckCountry | frontend/src/Admin/manage-location/manageLocation.ts:180-191 | An empty country is "required". A non-empty one with a character outside ASCII letters, JavaScript white space and `-` is "bad characters". Anything else passes. |
| LocationForm.CheckPlace | frontend/src/Admin/manage-location/manageLocation.ts:193-217 | The same rule for state and city, with digits also allowed. |
| LocationForm.CreateLocation | frontend/src/Admin/manage-location/manageLocation.ts:161-225 | With no token nothing happens. The trimmed values are sent exactly when all three checks pass; otherwise each field's own error is reported, independently of the others. |
| LocationForm.BlankIsRequired | frontend/src/Admin/manage-location/manageLocation.ts:165-185 | A country of JavaScript white space only (U+00A0 included) is reported as required, never as bad characters. |
| LocationForm.CountryIsPlace | frontend/src/Admin/manage-location/manageLocation.ts:170-171 | Every accepted country would also be accepted as a state or city. |
| LocationForm.SubmittedTrimmed | frontend/src/Admin/manage-location/manageLocation.ts:165-167 | Submitted values are non-empty and start and end with a non-space. |
| HomePage.Classify | frontend/src/main.ts:50-51 | An event is upcoming exactly when it starts after the one-month horizon. |
| HomePage.OngoingMembers | frontend/src/main.ts:49-58 | A card is listed as ongoing exactly when it is one of the response's events and is not upcoming. |
| HomePage.ShowEvents | frontend/src/main.ts:36-67 | Empty data shows "No events found", and data with no ongoing event shows "No ongoing events found". Otherwise the first (at most four) ongoing events are shown. Each message case is stated as an if-and-only-if. |
| HomePage.HeadFull | frontend/src/main.ts:60 | Once four ongoing cards are found, the rest of the response cannot change them. |
| HomePage.NoneOngoing | frontend/src/main.ts:63-67 | No ongoing card exists exactly when every event is upcoming. |
| HomePage.AllEventsPath | frontend/src/main.ts:101-111 | The link always ends in `/events`. It is `/events` itself from a path containing `/events`, and otherwise extends the current path. |
| HomePage.AllEventsPathStable | frontend/src/main.ts:101-111 | Following the link from the events page stays on `/events`. |
| HomePage.NoDoubleSlash | frontend/src/main.ts:108-109 | A path ending in `/` gains `events`, not `/events`. |

## Left out

- DOM rendering, jQuery/fetch requests, alerts, loaders, navigation and local storage. The values they carry are parameters: the token's presence, the logged-in admin, the image's presence, today's date.
- Date arithmetic: JavaScript `Date`/`setMonth`, Carbon parsing, time zones and `startOfWeek`/`endOfWeek`. Times are integers, and the horizons and windows are inputs.
- `localeCompare` collation, database collation and PHP's numeric-string comparison. Text is ordered lexicographically by character code, and lower-casing is ASCII-only.
- The first-character `LIKE` prefilter of the admin listing, which depends on database collation. The `withComputedStatus` scope is not part of this model; it is the `inStatus` parameter of `AdminListing.Index`.
- AdminListing.Index: the paginator's URLs are not modelled. A page number below 1 is modelled through `SliceStart`'s negative-offset rule and reported as page 1, as the paginator does.
- Laravel validation rules are reduced to the field conditions they check (`CreateValid`, `UpdateValid`). Existence of categories, venues and locations, and image type checks, are assumed to pass.
- The `delete` action of the event controller (EventController.php:266-281) is a single row deletion whose effect on event-venues depends on the database schema, which is not part of this model.
- Transactions are modelled only as "a failure returns the original store". Locks, races and auto-increment gaps left by a rollback are not modelled.
- ExpirySweep.Expire: a ticket's transaction never fails in the model. In the code a failure rolls that ticket back and the exception ends the command, so that ticket and every later selected ticket stay booked.
- SeatBooking.Seed: the random choices (`rand(2, 4)` tickets per event-venue, `rand(1, 3)` seats per ticket, the user and the ticket code) are a plan passed in. The model accepts any number of draws and any seat count. A count of 0 stops the loop, as an empty splice does.
- VenueSchedule.WithFields: the eager-loaded category name is kept as it was when the category changes; the database reloads the relation on the next read, which this model does not do.
- AdminStats.Growth: the floating-point division and `round` are computed exactly, with half rounded up. Results where the float rounding would differ are not modelled.
- VenueSchedule.Update: the per-event result is stated for stores whose event ids are unique, which auto-increment guarantees.
- The create form's cancel button clears the form and navigates away, so the cleared state is never used again. The auto-save's venue-block visibility is the draft's `open` flag.
- Mail, newsletters, the contact form, the external email check, login and sign-up, thumbnail storage, migrations, models and routes are not part of this model.

Behaviour of the code worth knowing:

- The backend binary search has no containment fallback: no anchor means an empty result.
- Bisection steers by the lower-cased key, but the sort is on the key as stored. Bisection is complete only for keys that start with the term, on keys that ascend once lower-cased; a key that contains the term elsewhere, or a mixed-case column, can be missed.
- It is chosen for `sort_by` `title` or `admin`, with no check of the term's type.
- The admin page's title bisection likewise sorts by the title as stored but steers by the lower-cased title. Its completeness is stated for lists whose titles are all lower-case; on a mixed-case list a title starting with the term can be missed, and the page then shows the containment fallback.
- The events are sorted before the search. The binary strategy returns its run in collection order: the anchor, its left neighbours descending, then its right neighbours.
- Only the binary strategy de-duplicates by id.
- The seeder never re-checks a seat's booked flag inside its transaction; it relies on having selected unbooked seats.
