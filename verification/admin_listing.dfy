/** The admin event listing: whitelisted sort column, reserved status
    keywords, choice of search strategy and fixed-size pages. */
module AdminListing {
  import opened Text
  import opened Records
  import opened Seqs
  import opened Sorting
  import LinearSearch
  import BackendBinarySearch

  /** The query string of a listing request; `page` is the value after PHP's
      `(int)` cast, 1 when absent. */
  datatype Request = Request(sortBy: Option<string>, sortOrder: Option<string>, search: Option<string>, page: int)

  datatype Strategy = NoSearch | Linear | Binary

  /** One page of a `LengthAwarePaginator`. */
  datatype Page = Page(items: seq<Event>, total: nat, perPage: nat, currentPage: nat, lastPage: nat)

  datatype Listing = Listing(statusFilter: Option<string>, strategy: Strategy, matched: seq<Event>, page: Page)

  const PerPage: nat := 10

  /** The search terms that select a status instead of searching. */
  const StatusKeywords: set<string> := {"completed", "active", "inactive", "cancelled"}

  /** The sort keys the binary strategy serves. */
  const BinaryKeys: set<string> := {"title", "admin"}

  /** `sort_by` through the whitelist; anything else sorts by id. */
  function SortColumn(sortBy: Option<string>): (col: Column)
    ensures col == TitleColumn <==> sortBy == Some("title")
    ensures col == CreatedByColumn <==> sortBy == Some("admin")
    ensures col == DurationColumn <==> sortBy == Some("duration")
    ensures col == IdColumn <==> sortBy !in {Some("title"), Some("admin"), Some("duration")}
  {
    match sortBy
    case Some("title") => TitleColumn
    case Some("admin") => CreatedByColumn
    case Some("duration") => DurationColumn
    case _ => IdColumn
  }

  /** `sort_order`, `desc` when absent; the query builder accepts `asc` and
      `desc` in any letter case and rejects everything else. */
  function SortDirection(sortOrder: Option<string>): (d: Option<Direction>)
    ensures sortOrder.None? ==> d == Some(Desc)
    ensures sortOrder.Some? ==> (d == Some(Asc) <==> Lower(sortOrder.value) == "asc")
    ensures sortOrder.Some? ==> (d == Some(Desc) <==> Lower(sortOrder.value) == "desc")
  {
    if sortOrder.None? then Some(Desc)
    else if Lower(sortOrder.value) == "asc" then Some(Asc)
    else if Lower(sortOrder.value) == "desc" then Some(Desc)
    else None
  }

  /** PHP truthiness of the search parameter: null, "" and "0" are false. */
  predicate Truthy(s: Option<string>) {
    s.Some? && s.value != "" && s.value != "0"
  }

  /** Where PHP's `array_slice` starts for `offset` on `count` items. */
  function SliceStart(count: nat, offset: int): (start: nat)
    ensures start <= count
    ensures offset >= 0 ==> start == if offset <= count then offset else count
    ensures offset < 0 ==> start == if count + offset >= 0 then count + offset else 0
  {
    if offset >= 0 then (if offset <= count then offset else count)
    else if count + offset >= 0 then count + offset else 0
  }

  /** The number of pages: at least one, and just enough to hold every item. */
  function LastPage(total: nat): (last: nat)
    ensures last >= 1
    ensures total <= last * PerPage
    ensures last == 1 || (last - 1) * PerPage < total
  {
    if total == 0 then 1 else (total + PerPage - 1) / PerPage
  }

  /** `$events->slice($offset, 10)` wrapped in a paginator; a page number
      below 1 is reported as page 1. */
  function Paginate(results: seq<Event>, page: int): (p: Page)
    ensures p.total == |results| && p.perPage == PerPage
    ensures p.currentPage == if page >= 1 then page else 1
    ensures p.lastPage == LastPage(|results|)
    ensures |p.items| <= PerPage
    ensures forall e :: e in p.items ==> e in results
    ensures page >= 1 && (page - 1) * PerPage < |results| ==>
              p.items == results[(page - 1) * PerPage..if page * PerPage <= |results| then page * PerPage else |results|]
    ensures page >= 1 && (page - 1) * PerPage >= |results| ==> p.items == []
    ensures page == 0 ==> |p.items| == (if |results| < PerPage then |results| else PerPage)
                          && p.items == results[|results| - |p.items|..]
  {
    var start := SliceStart(|results|, (page - 1) * PerPage);
    var end := if start + PerPage <= |results| then start + PerPage else |results|;
    Page(results[start..end], |results|, PerPage, if page >= 1 then page else 1, LastPage(|results|))
  }

  /** Item `k` of the results is item `k % 10` of page `k / 10 + 1`, which is
      never past the last page. */
  lemma PageHolds(results: seq<Event>, k: nat)
    requires k < |results|
    ensures var p := Paginate(results, k / PerPage + 1);
            k % PerPage < |p.items| && p.items[k % PerPage] == results[k] && k / PerPage + 1 <= p.lastPage
  {
    var page := k / PerPage + 1;
    assert (page - 1) * PerPage == k - k % PerPage;
    var last := LastPage(|results|);
    assert k < last * 10;
  }

  /** Pages after the last one are empty. */
  lemma PastLastPageEmpty(results: seq<Event>, page: int)
    requires page > LastPage(|results|)
    ensures Paginate(results, page).items == []
  {
    assert (page - 1) * PerPage >= LastPage(|results|) * PerPage;
  }

  /** The admin listing: status keyword, sort, search strategy, page. `None`
      is the rejected sort direction; `inStatus` is the status scope. */
  method Index(req: Request, events: seq<Event>, inStatus: (string, Event) -> bool) returns (r: Option<Listing>)
    ensures r.None? <==> SortDirection(req.sortOrder).None?
    ensures r.Some? ==> var l := r.value;
      && (l.statusFilter.Some? <==> Lower(req.search.GetOr("")) in StatusKeywords)
      && (l.statusFilter.Some? ==> l.statusFilter.value == Lower(req.search.GetOr("")) && l.strategy == NoSearch)
      && (l.strategy != NoSearch <==> l.statusFilter.None? && Truthy(req.search))
      && (l.strategy == Binary <==> l.strategy != NoSearch && req.sortBy.Some? && req.sortBy.value in BinaryKeys)
      && l.page == Paginate(l.matched, req.page)
      && (forall e :: e in l.matched ==> e in events)
      && (l.statusFilter.Some? ==> forall e :: e in l.matched <==> e in events && inStatus(l.statusFilter.value, e))
      && (l.strategy == NoSearch && l.statusFilter.None? ==> multiset(l.matched) == multiset(events))
      && (l.strategy == NoSearch ==> Sorted(l.matched, SortColumn(req.sortBy), SortDirection(req.sortOrder).value))
      && (l.strategy == Linear ==>
            l.matched == LinearSearch.Search(Sort(events, SortColumn(req.sortBy), SortDirection(req.sortOrder).value),
                                             Lower(req.search.value)))
      && (l.strategy == Binary ==>
            var col := SortColumn(req.sortBy);
            && BackendBinarySearch.UniqueIds(l.matched)
            && (forall e :: e in l.matched ==> BackendBinarySearch.KeyMatches(col, e, Lower(req.search.value)))
            && BackendBinarySearch.FromRun(Sort(Sort(events, col, SortDirection(req.sortOrder).value), col, Asc),
                                           col, Lower(req.search.value), l.matched))
    ensures r.Some? && r.value.strategy == Binary ==>
              var col := SortColumn(req.sortBy);
              && col != IdColumn
              && ((&& (forall e :: e in events ==> Lower(TextKey(col, e)) == TextKey(col, e))
                   && (exists e :: e in events && StartsWith(TextKey(col, e), Lower(req.search.value)))) ==> r.value.matched != [])
  {
    var col := SortColumn(req.sortBy);
    var dir := SortDirection(req.sortOrder);
    if dir.None? {
      return None;
    }
    var keyword := Lower(req.search.GetOr(""));
    var statusFilter: Option<string> := None;
    var search := req.search;
    if keyword in StatusKeywords {
      statusFilter := Some(keyword);
      search := None;
    }
    var loaded := if statusFilter.Some? then Filter(events, e => inStatus(keyword, e)) else events;
    var ordered := Sort(loaded, col, dir.value);
    forall e ensures e in ordered <==> e in loaded {
      SortKeepsMembers(loaded, col, dir.value, e);
    }
    var strategy, matched := SearchStep(ordered, search, req.sortBy);
    r := Some(Listing(statusFilter, strategy, matched, Paginate(matched, req.page)));
  }

  /** The search step on the ordered events: no search for a falsy term,
      binary search for the `title` and `admin` keys, linear search
      otherwise, on the lower-cased term. */
  method SearchStep(ordered: seq<Event>, search: Option<string>, sortBy: Option<string>)
    returns (strategy: Strategy, matched: seq<Event>)
    ensures strategy != NoSearch <==> Truthy(search)
    ensures strategy == Binary <==> Truthy(search) && sortBy.Some? && sortBy.value in BinaryKeys
    ensures strategy == NoSearch ==> matched == ordered
    ensures forall e :: e in matched ==> e in ordered
    ensures strategy == Linear ==> matched == LinearSearch.Search(ordered, Lower(search.value))
    ensures strategy == Binary ==>
              var col := SortColumn(sortBy);
              && BackendBinarySearch.UniqueIds(matched)
              && (forall e :: e in matched ==> BackendBinarySearch.KeyMatches(col, e, Lower(search.value)))
              && BackendBinarySearch.FromRun(Sort(ordered, col, Asc), col, Lower(search.value), matched)
    ensures strategy == Binary ==>
              var col := SortColumn(sortBy);
              && col != IdColumn
              && ((&& (forall e :: e in ordered ==> Lower(TextKey(col, e)) == TextKey(col, e))
                   && (exists e :: e in ordered && StartsWith(TextKey(col, e), Lower(search.value)))) ==> matched != [])
  {
    strategy := NoSearch;
    matched := ordered;
    if Truthy(search) {
      var term := Lower(search.value);
      var col := SortColumn(sortBy);
      if sortBy.Some? && sortBy.value in BinaryKeys {
        strategy := Binary;
        var items, window;
        items, window, matched := BackendBinarySearch.BinarySearch(ordered, term, col);
        if window.Some? {
          assert BackendBinarySearch.MaximalRun(items, col, term, window.value);
        }
      } else {
        strategy := Linear;
        matched := LinearSearch.Search(ordered, term);
      }
    }
  }
}
