/** The backend's linear search strategy: keep every event one of whose six
    searchable fields contains the (already lower-cased) search string. */
module LinearSearch {
  import opened Text
  import opened Records
  import opened Seqs

  /** The six fields the search looks at, each lower-cased; a missing
      category or admin reads as the empty string. */
  function SearchFields(e: Event): (fields: seq<string>)
    ensures |fields| == 6
  {
    [ Lower(e.title),
      Lower(NatToString(e.id)),
      Lower(e.duration),
      Lower(e.description),
      Lower(e.categoryName.GetOr("")),
      Lower(e.adminName.GetOr("")) ]
  }

  predicate Matches(e: Event, search: string) {
    exists k | 0 <= k < 6 :: StrContains(SearchFields(e)[k], search)
  }

  /** The events of `events` that match `search`, in their original order. */
  function Search(events: seq<Event>, search: string): (r: seq<Event>)
    ensures forall e :: e in r <==> e in events && Matches(e, search)
    ensures |r| <= |events|
  {
    if |events| == 0 then []
    else
      var tail := Search(events[1..], search);
      assert forall e :: e in events <==> e == events[0] || e in events[1..];
      if Matches(events[0], search) then [events[0]] + tail else tail
  }

  /** The search is a filter: its result is a subsequence of the input. */
  lemma {:induction false} SearchIsSubsequence(events: seq<Event>, search: string)
    ensures IsSubseq(Search(events, search), events)
  {
    var r := Search(events, search);
    if |events| > 0 {
      SearchIsSubsequence(events[1..], search);
      if Matches(events[0], search) {
        assert r[0] == events[0] && r[1..] == Search(events[1..], search);
      } else {
        assert r == Search(events[1..], search);
        if |r| > 0 {
          assert IsSubseq(r, events[1..]);
        }
      }
    }
  }

  /** An empty search string matches nothing, as `Str::contains` never matches
      an empty needle. */
  lemma EmptySearchFindsNothing(events: seq<Event>)
    ensures Search(events, []) == []
  {
    if |Search(events, [])| > 0 {
      var e := Search(events, [])[0];
      assert e in Search(events, []);
    }
  }

  /** A lower-case search string found in the title is always a match. */
  lemma TitleHitMatches(e: Event, search: string)
    requires search != [] && Contains(Lower(e.title), search)
    ensures Matches(e, search)
  {
    assert StrContains(SearchFields(e)[0], search);
  }
}
