/** Ordering an event collection by one column, as PHP's `sortBy` and the
    admin page's `Array.prototype.sort` comparators do. The sort is an
    insertion sort that keeps equal keys in their original order. */
module Sorting {
  import opened Records
  import opened Ordering

  datatype Column = IdColumn | TitleColumn | CreatedByColumn | DurationColumn
  datatype Direction = Asc | Desc

  /** The value a text column holds for `e`; a missing `created_by` reads as "". */
  function TextKey(col: Column, e: Event): string
    requires col != IdColumn
  {
    match col
    case TitleColumn => e.title
    case CreatedByColumn => e.createdBy.GetOr("")
    case DurationColumn => e.duration
  }

  /** `a` may come before `b` when sorting ascending by `col`. */
  predicate KeyLe(col: Column, a: Event, b: Event) {
    if col == IdColumn then a.id <= b.id else LexLe(TextKey(col, a), TextKey(col, b))
  }

  predicate InOrder(col: Column, dir: Direction, a: Event, b: Event) {
    if dir == Asc then KeyLe(col, a, b) else KeyLe(col, b, a)
  }

  predicate Sorted(s: seq<Event>, col: Column, dir: Direction) {
    forall i, j :: 0 <= i < j < |s| ==> InOrder(col, dir, s[i], s[j])
  }

  lemma InOrderTotal(col: Column, dir: Direction, a: Event, b: Event)
    ensures InOrder(col, dir, a, b) || InOrder(col, dir, b, a)
  {
    if col != IdColumn {
      LexLeTotal(TextKey(col, a), TextKey(col, b));
    }
  }

  lemma InOrderTransitive(col: Column, dir: Direction, a: Event, b: Event, c: Event)
    requires InOrder(col, dir, a, b) && InOrder(col, dir, b, c)
    ensures InOrder(col, dir, a, c)
  {
    if col != IdColumn {
      if dir == Asc {
        LexLeTransitive(TextKey(col, a), TextKey(col, b), TextKey(col, c));
      } else {
        LexLeTransitive(TextKey(col, c), TextKey(col, b), TextKey(col, a));
      }
    }
  }

  /** Place `x` in front of the first element it may precede. */
  function Insert(x: Event, s: seq<Event>, col: Column, dir: Direction): (r: seq<Event>)
    requires Sorted(s, col, dir)
    ensures Sorted(r, col, dir)
    ensures multiset(r) == multiset(s) + multiset{x}
    decreases |s|
  {
    if |s| == 0 then [x]
    else if InOrder(col, dir, x, s[0]) then
      InsertFront(x, s, col, dir);
      [x] + s
    else
      InOrderTotal(col, dir, x, s[0]);
      var tail := Insert(x, s[1..], col, dir);
      InsertBehind(s[0], tail, x, s[1..], col, dir);
      assert s == [s[0]] + s[1..];
      [s[0]] + tail
  }

  lemma InsertFront(x: Event, s: seq<Event>, col: Column, dir: Direction)
    requires Sorted(s, col, dir) && |s| > 0 && InOrder(col, dir, x, s[0])
    ensures Sorted([x] + s, col, dir)
  {
    var r := [x] + s;
    forall i, j | 0 <= i < j < |r| ensures InOrder(col, dir, r[i], r[j]) {
      if i == 0 && j > 1 {
        InOrderTransitive(col, dir, x, s[0], s[j - 1]);
      }
    }
  }

  lemma InsertBehind(h: Event, tail: seq<Event>, x: Event, rest: seq<Event>, col: Column, dir: Direction)
    requires Sorted(tail, col, dir) && Sorted([h] + rest, col, dir)
    requires InOrder(col, dir, h, x)
    requires multiset(tail) == multiset(rest) + multiset{x}
    ensures Sorted([h] + tail, col, dir)
  {
    var r := [h] + tail;
    forall i, j | 0 <= i < j < |r| ensures InOrder(col, dir, r[i], r[j]) {
      if i == 0 {
        var y := tail[j - 1];
        assert r[0] == h && r[j] == y;
        assert y in multiset(tail);
        if y != x {
          assert y in multiset(rest);
          var k :| 0 <= k < |rest| && rest[k] == y;
          var hr := [h] + rest;
          assert hr[0] == h && hr[k + 1] == y;
          assert InOrder(col, dir, hr[0], hr[k + 1]);
        }
      } else {
        assert r[i] == tail[i - 1] && r[j] == tail[j - 1];
      }
    }
  }

  /** The collection ordered by `col` in direction `dir`: a permutation of `s`. */
  function Sort(s: seq<Event>, col: Column, dir: Direction): (r: seq<Event>)
    ensures Sorted(r, col, dir)
    ensures multiset(r) == multiset(s)
    ensures |r| == |s|
    decreases |s|
  {
    if |s| == 0 then []
    else
      assert s == [s[0]] + s[1..];
      Insert(s[0], Sort(s[1..], col, dir), col, dir)
  }

  lemma SortKeepsMembers(s: seq<Event>, col: Column, dir: Direction, e: Event)
    ensures e in Sort(s, col, dir) <==> e in s
  {
    var r := Sort(s, col, dir);
    assert e in r <==> e in multiset(r);
    assert e in s <==> e in multiset(s);
  }
}
