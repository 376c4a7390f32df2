/** The admin page's in-browser search over the full event list: a gate that
    decides between local bisection and the backend, a sort by the current
    header, exact-id or title-prefix bisection, and a containment fallback. */
module FrontendSearch {
  import opened Text
  import opened Records
  import opened Ordering
  import opened Seqs
  import opened Sorting

  /** What a search keystroke leads to: nothing, a backend request, or a
      locally computed result list. */
  datatype Outcome = Ignored | Backend | Local(results: seq<Event>)

  /** `/^\d+$/`. */
  predicate IsNumeric(s: string) {
    |s| > 0 && AllDigits(s)
  }

  /** Local bisection serves an all-digit term on the `sl` column and any
      other term on the `title` column. */
  predicate Eligible(sortBy: Option<string>, term: string) {
    (sortBy == Some("sl") && IsNumeric(term)) || (sortBy == Some("title") && !IsNumeric(term))
  }

  /** The column the local copy is sorted by. */
  function LocalColumn(sortBy: Option<string>): (col: Column)
    ensures col == IdColumn <==> sortBy == Some("sl")
    ensures col != IdColumn ==> col == TitleColumn
  {
    if sortBy == Some("sl") then IdColumn else TitleColumn
  }

  predicate TitlePrefix(e: Event, lowerTerm: string) {
    StartsWith(Lower(e.title), lowerTerm)
  }

  /** Exact-id bisection. On a sorted copy it finds an event with id `n`
      whenever one exists. */
  method BisectId(items: seq<Event>, dir: Direction, n: nat) returns (found: bool, mid: nat)
    requires Sorted(items, IdColumn, dir)
    ensures found ==> mid < |items| && items[mid].id == n
    ensures found <==> exists k :: 0 <= k < |items| && items[k].id == n
  {
    var low := 0;
    var high := |items| - 1;
    found, mid := false, 0;
    while low <= high
      invariant 0 <= low <= high + 1 <= |items|
      invariant forall k :: 0 <= k < |items| && items[k].id == n ==> low <= k <= high
      decreases high - low
    {
      var m := (low + high) / 2;
      if items[m].id == n {
        return true, m;
      }
      if (if dir == Asc then n < items[m].id else n > items[m].id) {
        high := m - 1;
      } else {
        low := m + 1;
      }
    }
  }

  /** The lower-cased titles follow `dir`: the order title bisection
      steers by. */
  predicate LowerTitleOrdered(items: seq<Event>, dir: Direction) {
    forall i, j :: 0 <= i < j < |items| ==>
      if dir == Asc then LexLe(Lower(items[i].title), Lower(items[j].title))
      else LexLe(Lower(items[j].title), Lower(items[i].title))
  }

  /** Title bisection: stop at the first midpoint whose lower-cased title
      starts with the term, steering by string `<`. On titles ordered once
      lower-cased, a title starting with the term is never missed. */
  method BisectTitle(items: seq<Event>, dir: Direction, lowerTerm: string) returns (found: bool, mid: nat)
    ensures found ==> mid < |items| && TitlePrefix(items[mid], lowerTerm)
    ensures |items| == 0 ==> !found
    ensures LowerTitleOrdered(items, dir) && (exists k :: 0 <= k < |items| && TitlePrefix(items[k], lowerTerm)) ==> found
  {
    var low := 0;
    var high := |items| - 1;
    found, mid := false, 0;
    while low <= high
      invariant 0 <= low <= high + 1 <= |items|
      invariant LowerTitleOrdered(items, dir) ==>
                  forall k :: 0 <= k < |items| && TitlePrefix(items[k], lowerTerm) ==> low <= k <= high
      decreases high - low
    {
      var m := (low + high) / 2;
      var midVal := Lower(items[m].title);
      if StartsWith(midVal, lowerTerm) {
        return true, m;
      }
      if (if dir == Asc then LexLt(lowerTerm, midVal) else LexLt(midVal, lowerTerm)) {
        if LowerTitleOrdered(items, dir) {
          NoPrefixFrom(items, dir, lowerTerm, m);
        }
        high := m - 1;
      } else {
        if LowerTitleOrdered(items, dir) {
          NoPrefixUpTo(items, dir, lowerTerm, m);
        }
        low := m + 1;
      }
    }
  }

  /** Past a title that sorts beyond the term without starting with it, no
      title starts with the term. */
  lemma NoPrefixFrom(items: seq<Event>, dir: Direction, t: string, m: nat)
    requires LowerTitleOrdered(items, dir) && m < |items|
    requires var v := Lower(items[m].title);
             !StartsWith(v, t) && (if dir == Asc then LexLt(t, v) else LexLt(v, t))
    ensures forall k :: m <= k < |items| ==> !TitlePrefix(items[k], t)
  {
    var v := Lower(items[m].title);
    forall k | m < k < |items| ensures !TitlePrefix(items[k], t) {
      var p := Lower(items[k].title);
      if dir == Asc {
        NotPrefixAbove(t, v, p);
      } else {
        NotPrefixBelow(t, v, p);
      }
    }
  }

  /** Up to a title that sorts before the term (or equals it) without
      starting with it, no title starts with the term. */
  lemma NoPrefixUpTo(items: seq<Event>, dir: Direction, t: string, m: nat)
    requires LowerTitleOrdered(items, dir) && m < |items|
    requires var v := Lower(items[m].title);
             !StartsWith(v, t) && !(if dir == Asc then LexLt(t, v) else LexLt(v, t))
    ensures forall k :: 0 <= k <= m ==> !TitlePrefix(items[k], t)
  {
    var v := Lower(items[m].title);
    LexLeTotal(t, v);
    LexLeReflexive(v);
    forall k | 0 <= k < m ensures !TitlePrefix(items[k], t) {
      var p := Lower(items[k].title);
      if dir == Asc {
        NotPrefixBelow(t, v, p);
      } else {
        NotPrefixAbove(t, v, p);
      }
    }
  }

  /** A string between `t` and `p` that does not start with `t` keeps `p`
      from starting with it. */
  lemma NotPrefixAbove(t: string, v: string, p: string)
    requires LexLe(t, v) && LexLe(v, p) && !StartsWith(v, t)
    ensures !StartsWith(p, t)
  {
    if StartsWith(p, t) {
      BetweenKeepsPrefix(t, v, p);
    }
  }

  /** Below a string `v` that sorts at or before `t` without starting with it,
      no string starts with `t`. */
  lemma NotPrefixBelow(t: string, v: string, p: string)
    requires LexLe(p, v) && LexLe(v, t) && !StartsWith(v, t)
    ensures !StartsWith(p, t)
  {
    if StartsWith(p, t) {
      PrefixLe(t, p);
      LexLeTransitive(t, p, v);
      LexLeAntisymmetric(t, v);
    }
  }

  /** Titles that are already lower-case and sorted stay ordered once
      lower-cased. */
  lemma LowerCaseTitlesOrdered(events: seq<Event>, dir: Direction)
    requires forall e :: e in events ==> Lower(e.title) == e.title
    ensures LowerTitleOrdered(Sort(events, TitleColumn, dir), dir)
  {
    var items := Sort(events, TitleColumn, dir);
    forall i, j | 0 <= i < j < |items|
      ensures if dir == Asc then LexLe(Lower(items[i].title), Lower(items[j].title))
              else LexLe(Lower(items[j].title), Lower(items[i].title))
    {
      SortKeepsMembers(events, TitleColumn, dir, items[i]);
      SortKeepsMembers(events, TitleColumn, dir, items[j]);
      assert InOrder(TitleColumn, dir, items[i], items[j]);
    }
  }

  /** The run of titles starting with the term around a matching anchor,
      collected outwards and kept in sorted order. */
  method PrefixRun(items: seq<Event>, lowerTerm: string, anchor: nat) returns (left: int, right: nat)
    requires anchor < |items| && TitlePrefix(items[anchor], lowerTerm)
    ensures -1 <= left < anchor < right <= |items|
    ensures forall k :: left < k < right ==> TitlePrefix(items[k], lowerTerm)
    ensures left >= 0 ==> !TitlePrefix(items[left], lowerTerm)
    ensures right < |items| ==> !TitlePrefix(items[right], lowerTerm)
  {
    left := anchor;
    while left >= 0 && TitlePrefix(items[left], lowerTerm)
      invariant -1 <= left <= anchor
      invariant forall k :: left < k <= anchor ==> TitlePrefix(items[k], lowerTerm)
      decreases left + 1
    {
      left := left - 1;
    }
    right := anchor + 1;
    while right < |items| && TitlePrefix(items[right], lowerTerm)
      invariant anchor + 1 <= right <= |items|
      invariant forall k :: left < k < right ==> TitlePrefix(items[k], lowerTerm)
      decreases |items| - right
    {
      right := right + 1;
    }
  }

  /** The containment fallback: the id's decimal text contains the raw term,
      or the lower-cased title contains the lower-cased term. */
  predicate FallbackHit(col: Column, e: Event, rawTerm: string) {
    if col == IdColumn then Contains(NatToString(e.id), rawTerm) else Contains(Lower(e.title), Lower(rawTerm))
  }

  /** The fallback result: every event of `sorted` the fallback accepts, in
      sorted order. */
  function Fallback(sorted: seq<Event>, col: Column, rawTerm: string): (r: seq<Event>)
    ensures forall e :: e in r <==> e in sorted && FallbackHit(col, e, rawTerm)
    ensures IsSubseq(r, sorted)
  {
    Filter(sorted, e => FallbackHit(col, e, rawTerm))
  }

  /** `sorted[left + 1..right]` is a non-empty maximal run of titles
      starting with the lower-cased term. */
  predicate PrefixWindow(sorted: seq<Event>, lowerTerm: string, left: int, right: nat) {
    && -1 <= left && left + 1 < right <= |sorted|
    && (forall k :: left < k < right ==> TitlePrefix(sorted[k], lowerTerm))
    && (left >= 0 ==> !TitlePrefix(sorted[left], lowerTerm))
    && (right < |sorted| ==> !TitlePrefix(sorted[right], lowerTerm))
  }

  /** The `sl` path: one exact match, or the fallback when there is none. */
  method SearchId(sorted: seq<Event>, dir: Direction, term: string) returns (results: seq<Event>)
    requires IsNumeric(term) && Sorted(sorted, IdColumn, dir)
    ensures (exists e :: e in sorted && e.id == ParseNat(term)) <==> |results| == 1 && results[0].id == ParseNat(term)
    ensures (exists e :: e in sorted && e.id == ParseNat(term)) ==> results[0] in sorted
    ensures !(exists e :: e in sorted && e.id == ParseNat(term)) ==>
              results == Fallback(sorted, IdColumn, term)
  {
    var n := ParseNat(term);
    var found, mid := BisectId(sorted, dir, n);
    if found {
      results := [sorted[mid]];
    } else {
      if e :| e in sorted && e.id == n {
        assert false;
      }
      results := Fallback(sorted, IdColumn, term);
    }
  }

  /** The `title` path: the maximal prefix run around an anchor, or the
      fallback when bisection finds no anchor. */
  method SearchTitle(sorted: seq<Event>, dir: Direction, term: string) returns (results: seq<Event>)
    ensures (exists left: int, right: nat :: PrefixWindow(sorted, Lower(term), left, right)
               && results == sorted[left + 1..right])
            || results == Fallback(sorted, TitleColumn, term)
    ensures (forall e :: e in sorted ==> !TitlePrefix(e, Lower(term))) ==> results == Fallback(sorted, TitleColumn, term)
    ensures LowerTitleOrdered(sorted, dir) && (exists e :: e in sorted && TitlePrefix(e, Lower(term))) ==>
              exists left: int, right: nat :: PrefixWindow(sorted, Lower(term), left, right)
                && results == sorted[left + 1..right]
    ensures forall e :: e in results ==> e in sorted && Contains(Lower(e.title), Lower(term))
  {
    var lowerTerm := Lower(term);
    var found, mid := BisectTitle(sorted, dir, lowerTerm);
    PrefixedSomewhere(sorted, lowerTerm);
    if found {
      assert sorted[mid] in sorted;
      var left, right := PrefixRun(sorted, lowerTerm, mid);
      results := sorted[left + 1..right];
      assert PrefixWindow(sorted, lowerTerm, left, right);
      WindowContains(sorted, lowerTerm, left, right);
    } else {
      results := Fallback(sorted, TitleColumn, term);
    }
  }

  /** A prefixed member sits at some position. */
  lemma PrefixedSomewhere(sorted: seq<Event>, lowerTerm: string)
    ensures (exists e :: e in sorted && TitlePrefix(e, lowerTerm)) ==>
              exists k :: 0 <= k < |sorted| && TitlePrefix(sorted[k], lowerTerm)
  {
    if e :| e in sorted && TitlePrefix(e, lowerTerm) {
      var k :| 0 <= k < |sorted| && sorted[k] == e;
      assert TitlePrefix(sorted[k], lowerTerm);
    }
  }

  /** Every title of a prefix window contains the term. */
  lemma WindowContains(sorted: seq<Event>, lowerTerm: string, left: int, right: nat)
    requires PrefixWindow(sorted, lowerTerm, left, right)
    ensures forall e :: e in sorted[left + 1..right] ==> e in sorted && Contains(Lower(e.title), lowerTerm)
  {
    var run := sorted[left + 1..right];
    forall e | e in run ensures e in sorted && Contains(Lower(e.title), lowerTerm) {
      var k :| 0 <= k < |run| && run[k] == e;
      assert e == sorted[left + 1 + k];
      StartsWithContains(Lower(e.title), lowerTerm);
    }
  }

  /** `binarySearchEvents`: the whole keystroke handler as a function of the
      loaded events, the header state and the input. */
  method Search(allEvents: seq<Event>, sortBy: Option<string>, dir: Direction, rawInput: string)
    returns (o: Outcome)
    ensures Trim(rawInput) == [] <==> o == Ignored
    ensures o == Backend <==> Trim(rawInput) != [] && !Eligible(sortBy, Trim(rawInput))
    ensures o.Local? ==> forall e :: e in o.results ==> e in allEvents
    ensures o.Local? && sortBy == Some("sl") ==>
              var sorted := Sort(allEvents, IdColumn, dir);
              var n := ParseNat(Trim(rawInput));
              && ((exists e :: e in allEvents && e.id == n) <==> |o.results| == 1 && o.results[0].id == n)
              && (!(exists e :: e in allEvents && e.id == n) ==>
                    o.results == Fallback(sorted, IdColumn, Trim(rawInput)))
    ensures o.Local? && sortBy != Some("sl") ==>
              var sorted := Sort(allEvents, TitleColumn, dir);
              (exists left: int, right: nat :: PrefixWindow(sorted, Lower(Trim(rawInput)), left, right)
                 && o.results == sorted[left + 1..right])
              || o.results == Fallback(sorted, TitleColumn, Trim(rawInput))
    ensures o.Local? && sortBy != Some("sl") && (forall e :: e in allEvents ==> !TitlePrefix(e, Lower(Trim(rawInput)))) ==>
              o.results == Fallback(Sort(allEvents, TitleColumn, dir), TitleColumn, Trim(rawInput))
    ensures && o.Local? && sortBy != Some("sl")
            && (forall e :: e in allEvents ==> Lower(e.title) == e.title)
            && (exists e :: e in allEvents && TitlePrefix(e, Lower(Trim(rawInput)))) ==>
              var sorted := Sort(allEvents, TitleColumn, dir);
              exists left: int, right: nat :: PrefixWindow(sorted, Lower(Trim(rawInput)), left, right)
                && o.results == sorted[left + 1..right]
  {
    var term := Trim(rawInput);
    if term == [] {
      return Ignored;
    }
    if !Eligible(sortBy, term) {
      return Backend;
    }
    var results := SearchLocal(allEvents, sortBy, dir, term);
    return Local(results);
  }

  /** The local part of the handler, reached only past the eligibility gate:
      sort a copy by the header's column, then take the id or the title
      path. */
  method SearchLocal(allEvents: seq<Event>, sortBy: Option<string>, dir: Direction, term: string)
    returns (results: seq<Event>)
    requires Eligible(sortBy, term)
    ensures forall e :: e in results ==> e in allEvents
    ensures sortBy == Some("sl") ==>
              var sorted := Sort(allEvents, IdColumn, dir);
              var n := ParseNat(term);
              && ((exists e :: e in allEvents && e.id == n) <==> |results| == 1 && results[0].id == n)
              && (!(exists e :: e in allEvents && e.id == n) ==> results == Fallback(sorted, IdColumn, term))
    ensures sortBy != Some("sl") ==>
              var sorted := Sort(allEvents, TitleColumn, dir);
              (exists left: int, right: nat :: PrefixWindow(sorted, Lower(term), left, right)
                 && results == sorted[left + 1..right])
              || results == Fallback(sorted, TitleColumn, term)
    ensures sortBy != Some("sl") && (forall e :: e in allEvents ==> !TitlePrefix(e, Lower(term))) ==>
              results == Fallback(Sort(allEvents, TitleColumn, dir), TitleColumn, term)
    ensures && sortBy != Some("sl")
            && (forall e :: e in allEvents ==> Lower(e.title) == e.title)
            && (exists e :: e in allEvents && TitlePrefix(e, Lower(term))) ==>
              var sorted := Sort(allEvents, TitleColumn, dir);
              exists left: int, right: nat :: PrefixWindow(sorted, Lower(term), left, right)
                && results == sorted[left + 1..right]
  {
    var col := LocalColumn(sortBy);
    var sorted := Sort(allEvents, col, dir);
    forall e ensures e in sorted <==> e in allEvents {
      SortKeepsMembers(allEvents, col, dir, e);
    }
    if col == IdColumn {
      results := SearchId(sorted, dir, term);
    } else {
      if forall e :: e in allEvents ==> Lower(e.title) == e.title {
        LowerCaseTitlesOrdered(allEvents, dir);
      }
      results := SearchTitle(sorted, dir, term);
    }
  }
}
