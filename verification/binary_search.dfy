/** The backend's binary search strategy. The collection is sorted ascending
    by the key column; bisection stops at the first midpoint whose lower-cased
    key contains the search string, the matching run is collected outwards
    from that anchor (left side first, walking down; then the right side,
    walking up), and the collected events are de-duplicated by id. */
module BackendBinarySearch {
  import opened Text
  import opened Records
  import opened Ordering
  import opened Seqs
  import opened Sorting
  import LinearSearch

  /** The key column's value as text: an id prints in decimal. */
  function KeyText(col: Column, e: Event): string {
    if col == IdColumn then NatToString(e.id) else TextKey(col, e)
  }

  predicate KeyMatches(col: Column, e: Event, search: string) {
    StrContains(Lower(KeyText(col, e)), search)
  }

  predicate UniqueIds(s: seq<Event>) {
    forall i, j :: 0 <= i < j < |s| ==> s[i].id != s[j].id
  }

  function Ids(s: seq<Event>): set<nat> {
    set e | e in s :: e.id
  }

  /** Collection `unique('id')`: keep the first event seen with each id, skipping
      ids already in `seen`. */
  function DedupFrom(s: seq<Event>, seen: set<nat>): (r: seq<Event>)
    ensures |r| <= |s|
    decreases |s|
  {
    if |s| == 0 then []
    else
      var tail := DedupFrom(s[1..], SeenAfter(s[0], seen));
      if s[0].id in seen then tail else [s[0]] + tail
  }

  /** The de-duplicated events have unique ids, none of them already seen,
      cover every id not seen before, keep their input order, and are
      exactly the first events of the input with each unseen id. */
  lemma DedupFacts(s: seq<Event>, seen: set<nat>)
    ensures var r := DedupFrom(s, seen);
            && UniqueIds(r)
            && (forall e :: e in r ==> e in s && e.id !in seen)
            && Ids(r) == Ids(s) - seen
            && IsSubseq(r, s)
            && (forall e :: e in r <==> exists k :: 0 <= k < |s| && s[k] == e && e.id !in seen && FirstWithId(s, k))
  {
    DedupFirst(s, seen);
    DedupMembers(s, seen);
    DedupUnique(s, seen);
    DedupIds(s, seen);
    DedupSubseq(s, seen);
  }

  /** The step of `DedupFrom` at the head of `s`. */
  function SeenAfter(e: Event, seen: set<nat>): set<nat> {
    if e.id in seen then seen else seen + {e.id}
  }

  lemma DedupUnfold(s: seq<Event>, seen: set<nat>)
    requires |s| > 0
    ensures DedupFrom(s, seen) ==
              if s[0].id in seen then DedupFrom(s[1..], SeenAfter(s[0], seen))
              else [s[0]] + DedupFrom(s[1..], SeenAfter(s[0], seen))
  {
  }

  lemma {:induction false} DedupMembers(s: seq<Event>, seen: set<nat>)
    ensures forall e :: e in DedupFrom(s, seen) ==> e in s && e.id !in seen
    decreases |s|
  {
    if |s| > 0 {
      DedupMembers(s[1..], SeenAfter(s[0], seen));
      DedupUnfold(s, seen);
    }
  }

  lemma {:induction false} DedupUnique(s: seq<Event>, seen: set<nat>)
    ensures UniqueIds(DedupFrom(s, seen))
    decreases |s|
  {
    if |s| > 0 {
      var tail := DedupFrom(s[1..], SeenAfter(s[0], seen));
      DedupUnique(s[1..], SeenAfter(s[0], seen));
      DedupUnfold(s, seen);
      if s[0].id !in seen {
        DedupMembers(s[1..], SeenAfter(s[0], seen));
        var r := [s[0]] + tail;
        forall i, j | 0 <= i < j < |r| ensures r[i].id != r[j].id {
          assert r[j] == tail[j - 1];
          if i > 0 {
            assert r[i] == tail[i - 1];
          } else {
            assert tail[j - 1] in tail;
          }
        }
      }
    }
  }

  lemma {:induction false} DedupIds(s: seq<Event>, seen: set<nat>)
    ensures Ids(DedupFrom(s, seen)) == Ids(s) - seen
    decreases |s|
  {
    if |s| > 0 {
      var tail := DedupFrom(s[1..], SeenAfter(s[0], seen));
      DedupIds(s[1..], SeenAfter(s[0], seen));
      DedupUnfold(s, seen);
      assert Ids(s) == {s[0].id} + Ids(s[1..]) by {
        assert forall e :: e in s <==> e == s[0] || e in s[1..];
      }
      if s[0].id !in seen {
        assert Ids([s[0]] + tail) == {s[0].id} + Ids(tail) by {
          assert forall e :: e in [s[0]] + tail <==> e == s[0] || e in tail;
        }
      }
    }
  }

  lemma {:induction false} DedupSubseq(s: seq<Event>, seen: set<nat>)
    ensures IsSubseq(DedupFrom(s, seen), s)
    decreases |s|
  {
    if |s| > 0 {
      var tail := DedupFrom(s[1..], SeenAfter(s[0], seen));
      DedupSubseq(s[1..], SeenAfter(s[0], seen));
      DedupUnfold(s, seen);
      if s[0].id in seen {
        SubseqSkip(tail, s);
      } else {
        SubseqCons(tail, s);
      }
    }
  }

  /** `s[k]` is the first event of `s` carrying its id. */
  predicate FirstWithId(s: seq<Event>, k: nat)
    requires k < |s|
  {
    forall j :: 0 <= j < k ==> s[j].id != s[k].id
  }

  /** An event is kept exactly when it is the first of `s` with its id and
      that id was not seen before. */
  lemma {:induction false} DedupFirst(s: seq<Event>, seen: set<nat>)
    ensures forall e :: e in DedupFrom(s, seen) <==>
              exists k :: 0 <= k < |s| && s[k] == e && e.id !in seen && FirstWithId(s, k)
  {
    DedupOnlyFirst(s, seen);
    DedupKeepsFirst(s, seen);
  }

  lemma {:induction false} DedupOnlyFirst(s: seq<Event>, seen: set<nat>)
    ensures forall e :: e in DedupFrom(s, seen) ==>
              exists k :: 0 <= k < |s| && s[k] == e && e.id !in seen && FirstWithId(s, k)
    decreases |s|
  {
    if |s| > 0 {
      var seen' := SeenAfter(s[0], seen);
      var tail := DedupFrom(s[1..], seen');
      DedupOnlyFirst(s[1..], seen');
      DedupUnfold(s, seen);
      forall e | e in DedupFrom(s, seen)
        ensures exists k :: 0 <= k < |s| && s[k] == e && e.id !in seen && FirstWithId(s, k)
      {
        if s[0].id !in seen && e == s[0] {
          assert FirstWithId(s, 0);
        } else {
          assert e in tail;
          var k' :| 0 <= k' < |s[1..]| && s[1..][k'] == e && e.id !in seen' && FirstWithId(s[1..], k');
          assert s[k' + 1] == e;
          forall j | 0 <= j < k' + 1 ensures s[j].id != s[k' + 1].id {
            if j > 0 {
              assert s[j] == s[1..][j - 1];
            }
          }
          assert FirstWithId(s, k' + 1);
        }
      }
    }
  }

  lemma {:induction false} DedupKeepsFirst(s: seq<Event>, seen: set<nat>)
    ensures forall k :: 0 <= k < |s| && s[k].id !in seen && FirstWithId(s, k) ==> s[k] in DedupFrom(s, seen)
    decreases |s|
  {
    if |s| > 0 {
      var seen' := SeenAfter(s[0], seen);
      var tail := DedupFrom(s[1..], seen');
      DedupKeepsFirst(s[1..], seen');
      DedupUnfold(s, seen);
      forall k | 0 <= k < |s| && s[k].id !in seen && FirstWithId(s, k) ensures s[k] in DedupFrom(s, seen) {
        if k > 0 {
          assert s[0].id != s[k].id;
          forall j | 0 <= j < k - 1 ensures s[1..][j].id != s[1..][k - 1].id {
            assert s[1..][j] == s[j + 1];
          }
          assert s[1..][k - 1] == s[k] && FirstWithId(s[1..], k - 1);
        }
      }
    }
  }

  function Dedup(s: seq<Event>): seq<Event> {
    DedupFrom(s, {})
  }

  /** Where the anchor was found: the collected run is the index range
      `left < k < right` around `anchor`. */
  datatype Window = Window(left: int, anchor: nat, right: nat)

  /** The events the expansion collects, in collection order: the anchor, its
      left neighbours walking down, then its right neighbours walking up. */
  function Collected(items: seq<Event>, w: Window): seq<Event>
    requires -1 <= w.left < w.anchor < w.right <= |items|
  {
    Downward(items, w.anchor, w.left) + items[w.anchor + 1..w.right]
  }

  /** `items[from]`, `items[from - 1]`, ..., `items[downTo + 1]`. */
  function Downward(items: seq<Event>, from: nat, downTo: int): (r: seq<Event>)
    requires -1 <= downTo <= from < |items|
    ensures |r| == from - downTo
    ensures forall i :: 0 <= i < |r| ==> r[i] == items[from - i]
  {
    seq(from - downTo, i requires 0 <= i < from - downTo => items[from - i])
  }

  /** The window is a maximal run of matches around a matching anchor. */
  predicate MaximalRun(items: seq<Event>, col: Column, search: string, w: Window) {
    && -1 <= w.left < w.anchor < w.right <= |items|
    && KeyMatches(col, items[w.anchor], search)
    && (forall k :: w.left < k < w.right ==> KeyMatches(col, items[k], search))
    && (w.left >= 0 ==> !KeyMatches(col, items[w.left], search))
    && (w.right < |items| ==> !KeyMatches(col, items[w.right], search))
  }

  /** `results` is an outcome of the binary strategy on the key-ascending
      `items`: nothing, when bisection finds no anchor, or the de-duplicated
      maximal run around an anchor. */
  ghost predicate FromRun(items: seq<Event>, col: Column, search: string, results: seq<Event>) {
    results == [] || exists w :: MaximalRun(items, col, search, w) && results == Dedup(Collected(items, w))
  }

  /** The lower-cased keys ascend: the order bisection steers by. */
  predicate LowerSorted(items: seq<Event>, col: Column) {
    forall i, j :: 0 <= i < j < |items| ==> LexLe(Lower(KeyText(col, items[i])), Lower(KeyText(col, items[j])))
  }

  /** Item `k`'s lower-cased key starts with the search string. */
  predicate PrefixedAt(items: seq<Event>, col: Column, search: string, k: int) {
    0 <= k < |items| && StartsWith(Lower(KeyText(col, items[k])), search)
  }

  /** Bisection: probe midpoints until one contains the search string. PHP's
      `<` on the lower-cased key steers towards the upper or lower half. On
      keys that ascend once lower-cased, a key starting with the search
      string is never missed (one that merely contains it can be). */
  method Bisect(items: seq<Event>, col: Column, search: string) returns (found: bool, mid: nat)
    ensures found ==> mid < |items| && KeyMatches(col, items[mid], search)
    ensures |items| == 0 ==> !found
    ensures LowerSorted(items, col) && search != [] && (exists k :: PrefixedAt(items, col, search, k)) ==> found
  {
    var low := 0;
    var high := |items| - 1;
    found, mid := false, 0;
    while low <= high
      invariant 0 <= low <= high + 1 <= |items|
      invariant LowerSorted(items, col) && search != [] ==>
                  forall k :: PrefixedAt(items, col, search, k) ==> low <= k <= high
      decreases high - low
    {
      var m := (low + high) / 2;
      var value := Lower(KeyText(col, items[m]));
      if StrContains(value, search) {
        return true, m;
      } else if LexLt(value, search) {
        if LowerSorted(items, col) && search != [] {
          forall k | PrefixedAt(items, col, search, k) ensures m < k {
            if k <= m { PrefixedNotBelow(items, col, search, k, m); }
          }
        }
        low := m + 1;
      } else {
        if LowerSorted(items, col) && search != [] {
          forall k | PrefixedAt(items, col, search, k) ensures k < m {
            if m <= k { PrefixedNotAbove(items, col, search, m, k); }
          }
        }
        high := m - 1;
      }
    }
  }

  /** Below a key that sorts before the search string, no key starts with it. */
  lemma PrefixedNotBelow(items: seq<Event>, col: Column, search: string, k: nat, m: nat)
    requires LowerSorted(items, col) && k <= m < |items|
    requires LexLt(Lower(KeyText(col, items[m])), search)
    ensures !PrefixedAt(items, col, search, k)
  {
    var key, value := Lower(KeyText(col, items[k])), Lower(KeyText(col, items[m]));
    if StartsWith(key, search) {
      PrefixLe(search, key);
      if k < m {
        LexLeTransitive(search, key, value);
      }
      LexLeAntisymmetric(search, value);
    }
  }

  /** Above a key that sorts after the search string and does not contain
      it, no key starts with it. */
  lemma PrefixedNotAbove(items: seq<Event>, col: Column, search: string, m: nat, k: nat)
    requires LowerSorted(items, col) && m <= k < |items| && search != []
    requires var value := Lower(KeyText(col, items[m])); !StrContains(value, search) && !LexLt(value, search)
    ensures !PrefixedAt(items, col, search, k)
  {
    var key, value := Lower(KeyText(col, items[k])), Lower(KeyText(col, items[m]));
    if StartsWith(key, search) {
      LexLeTotal(value, search);
      if value == search || LexLe(value, search) {
        StartsWithContains(value, search);
      } else {
        LexLeReflexive(value);
        BetweenKeepsPrefix(search, value, key);
        StartsWithContains(value, search);
      }
    }
  }

  /** Text keys that are already lower-case and sorted stay sorted once
      lower-cased. */
  lemma LowerCaseKeysSorted(collection: seq<Event>, col: Column)
    requires col != IdColumn
    requires forall e :: e in collection ==> Lower(TextKey(col, e)) == TextKey(col, e)
    ensures LowerSorted(Sort(collection, col, Asc), col)
  {
    var items := Sort(collection, col, Asc);
    forall i, j | 0 <= i < j < |items|
      ensures LexLe(Lower(KeyText(col, items[i])), Lower(KeyText(col, items[j])))
    {
      SortKeepsMembers(collection, col, Asc, items[i]);
      SortKeepsMembers(collection, col, Asc, items[j]);
      assert InOrder(col, Asc, items[i], items[j]);
    }
  }

  /** The left half of the expansion: the anchor and the matches below it,
      collected walking down. */
  method ExpandLeft(items: seq<Event>, col: Column, search: string, mid: nat)
    returns (raw: seq<Event>, left: int)
    requires mid < |items|
    ensures -1 <= left <= mid
    ensures raw == Downward(items, mid, left)
    ensures forall k :: left < k <= mid ==> KeyMatches(col, items[k], search)
    ensures left >= 0 ==> !KeyMatches(col, items[left], search)
  {
    raw := [];
    left := mid;
    while left >= 0 && KeyMatches(col, items[left], search)
      invariant -1 <= left <= mid
      invariant |raw| == mid - left
      invariant forall i :: 0 <= i < |raw| ==> raw[i] == items[mid - i]
      invariant forall k :: left < k <= mid ==> KeyMatches(col, items[k], search)
      decreases left + 1
    {
      raw := raw + [items[left]];
      left := left - 1;
    }
    assert raw == Downward(items, mid, left);
  }

  /** The right half of the expansion: the matches above the anchor,
      collected walking up. */
  method ExpandRight(items: seq<Event>, col: Column, search: string, mid: nat)
    returns (raw: seq<Event>, right: nat)
    requires mid < |items|
    ensures mid + 1 <= right <= |items|
    ensures raw == items[mid + 1..right]
    ensures forall k :: mid < k < right ==> KeyMatches(col, items[k], search)
    ensures right < |items| ==> !KeyMatches(col, items[right], search)
  {
    raw := [];
    right := mid + 1;
    while right < |items| && KeyMatches(col, items[right], search)
      invariant mid + 1 <= right <= |items|
      invariant raw == items[mid + 1..right]
      invariant forall k :: mid < k < right ==> KeyMatches(col, items[k], search)
      decreases |items| - right
    {
      assert items[mid + 1..right + 1] == items[mid + 1..right] + [items[right]];
      raw := raw + [items[right]];
      right := right + 1;
    }
  }

  /** `SearchingService::binarySearch`: sort, bisect, expand, de-duplicate. */
  method BinarySearch(collection: seq<Event>, search: string, col: Column)
    returns (items: seq<Event>, window: Option<Window>, results: seq<Event>)
    ensures items == Sort(collection, col, Asc)
    ensures window.None? ==> results == []
    ensures window.Some? ==> MaximalRun(items, col, search, window.value)
                             && results == Dedup(Collected(items, window.value))
    ensures window.Some? ==> results != [] && results[0] == items[window.value.anchor]
    ensures forall e :: e in results ==> e in collection && KeyMatches(col, e, search)
    ensures UniqueIds(results)
    ensures |collection| == 0 ==> results == []
    ensures (&& col != IdColumn && search != []
             && (forall e :: e in collection ==> Lower(TextKey(col, e)) == TextKey(col, e))
             && (exists e :: e in collection && StartsWith(TextKey(col, e), search))) ==> window.Some?
  {
    items := Sort(collection, col, Asc);
    var found, mid := Bisect(items, col, search);
    if col != IdColumn && search != [] && (forall e :: e in collection ==> Lower(TextKey(col, e)) == TextKey(col, e)) {
      LowerCaseKeysSorted(collection, col);
      forall e | e in collection && StartsWith(TextKey(col, e), search) ensures found {
        SortKeepsMembers(collection, col, Asc, e);
        var k :| 0 <= k < |items| && items[k] == e;
        assert PrefixedAt(items, col, search, k);
      }
    }
    if !found {
      window := None;
      results := [];
      return;
    }
    var w;
    w, results := Gather(collection, items, col, search, mid);
    window := Some(w);
  }

  /** From a matching anchor: expand both ways and de-duplicate the run. */
  method Gather(ghost collection: seq<Event>, items: seq<Event>, col: Column, search: string, mid: nat)
    returns (w: Window, results: seq<Event>)
    requires items == Sort(collection, col, Asc)
    requires mid < |items| && KeyMatches(col, items[mid], search)
    ensures w.anchor == mid
    ensures MaximalRun(items, col, search, w) && results == Dedup(Collected(items, w))
    ensures results != [] && results[0] == items[mid]
    ensures forall e :: e in results ==> e in collection && KeyMatches(col, e, search)
    ensures UniqueIds(results)
  {
    var leftRaw, left := ExpandLeft(items, col, search, mid);
    var rightRaw, right := ExpandRight(items, col, search, mid);
    var raw := leftRaw + rightRaw;
    w := Window(left, mid, right);
    JoinRuns(items, col, search, w, leftRaw, rightRaw);
    results := Dedup(raw);
    ResultsFacts(collection, items, col, search, w);
  }

  /** The two expansions together make a maximal run, collected in
      expansion order. */
  lemma JoinRuns(items: seq<Event>, col: Column, search: string, w: Window, leftRaw: seq<Event>, rightRaw: seq<Event>)
    requires -1 <= w.left <= w.anchor < w.right <= |items|
    requires leftRaw == Downward(items, w.anchor, w.left)
    requires rightRaw == items[w.anchor + 1..w.right]
    requires forall k :: w.left < k <= w.anchor ==> KeyMatches(col, items[k], search)
    requires w.left >= 0 ==> !KeyMatches(col, items[w.left], search)
    requires forall k :: w.anchor < k < w.right ==> KeyMatches(col, items[k], search)
    requires w.right < |items| ==> !KeyMatches(col, items[w.right], search)
    requires KeyMatches(col, items[w.anchor], search)
    ensures MaximalRun(items, col, search, w)
    ensures leftRaw + rightRaw == Collected(items, w)
  {
  }

  /** What the de-duplicated run of a maximal window satisfies. */
  lemma ResultsFacts(collection: seq<Event>, items: seq<Event>, col: Column, search: string, w: Window)
    requires items == Sort(collection, col, Asc)
    requires MaximalRun(items, col, search, w)
    ensures var results := Dedup(Collected(items, w));
            && results != [] && results[0] == items[w.anchor]
            && (forall e :: e in results ==> e in collection && KeyMatches(col, e, search))
            && UniqueIds(results)
  {
    var raw := Collected(items, w);
    var results := Dedup(raw);
    DedupFacts(raw, {});
    CollectedFacts(items, col, search, w);
    forall e | e in results ensures e in collection && KeyMatches(col, e, search) {
      SortKeepsMembers(collection, col, Asc, e);
    }
    assert raw[0] == items[w.anchor];
    DedupUnfold(raw, {});
  }

  lemma CollectedFacts(items: seq<Event>, col: Column, search: string, w: Window)
    requires MaximalRun(items, col, search, w)
    ensures forall e :: e in Collected(items, w) ==> e in items && KeyMatches(col, e, search)
  {
    forall e | e in Collected(items, w) ensures e in items && KeyMatches(col, e, search) {
      CollectedInWindow(items, w, e);
      var i :| w.left < i < w.right && items[i] == e;
    }
  }

  /** Every collected event sits strictly inside the window. */
  lemma CollectedInWindow(items: seq<Event>, w: Window, e: Event)
    requires -1 <= w.left < w.anchor < w.right <= |items|
    requires e in Collected(items, w)
    ensures exists i :: w.left < i < w.right && items[i] == e
  {
    var lp := Downward(items, w.anchor, w.left);
    var rp := items[w.anchor + 1..w.right];
    var c := Collected(items, w);
    var k :| 0 <= k < |c| && c[k] == e;
    if k < |lp| {
      assert c[k] == lp[k] == items[w.anchor - k];
    } else {
      assert c[k] == rp[k - |lp|] == items[w.anchor + 1 + (k - |lp|)];
    }
  }

  /** On the title column the binary strategy never returns an event the
      linear strategy would reject. */
  lemma TitleResultsAreLinearMatches(e: Event, search: string)
    requires KeyMatches(TitleColumn, e, search)
    ensures LinearSearch.Matches(e, search)
  {
    LinearSearch.TitleHitMatches(e, search);
  }
}
