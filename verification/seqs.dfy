/** Generic facts about sequences used by the search and listing modules. */
module Seqs {

  /** `r` is `s` with some elements dropped, the rest kept in order. */
  predicate IsSubseq<T(==)>(r: seq<T>, s: seq<T>)
    decreases |s|
  {
    if |r| == 0 then true
    else if |s| == 0 then false
    else (r[0] == s[0] && IsSubseq(r[1..], s[1..])) || IsSubseq(r, s[1..])
  }

  lemma {:induction false} SubseqMembers<T>(r: seq<T>, s: seq<T>)
    requires IsSubseq(r, s)
    ensures forall x :: x in r ==> x in s
    ensures |r| <= |s|
    decreases |s|
  {
    if |r| > 0 {
      if r[0] == s[0] && IsSubseq(r[1..], s[1..]) {
        SubseqMembers(r[1..], s[1..]);
        assert forall x :: x in r ==> x == r[0] || x in r[1..];
      } else {
        SubseqMembers(r, s[1..]);
      }
    }
  }

  lemma SubseqSkip<T>(r: seq<T>, s: seq<T>)
    requires |s| > 0 && IsSubseq(r, s[1..])
    ensures IsSubseq(r, s)
  {
  }

  lemma SubseqCons<T>(r: seq<T>, s: seq<T>)
    requires |s| > 0 && IsSubseq(r, s[1..])
    ensures IsSubseq([s[0]] + r, s)
  {
    assert ([s[0]] + r)[1..] == r;
  }

  /** The elements of `s` satisfying `p`, in their original order. */
  function Filter<T(==,!new)>(s: seq<T>, p: T -> bool): (r: seq<T>)
    ensures forall x :: x in r <==> x in s && p(x)
    ensures IsSubseq(r, s)
    ensures |r| <= |s|
  {
    if |s| == 0 then []
    else
      var tail := Filter(s[1..], p);
      assert forall x :: x in s <==> x == s[0] || x in s[1..];
      SubseqSkip(tail, s);
      if p(s[0]) then SubseqCons(tail, s); [s[0]] + tail else tail
  }

  /** A filter every element passes keeps the whole sequence. */
  lemma {:induction false} FilterAll<T(!new)>(s: seq<T>, p: T -> bool)
    requires forall i :: 0 <= i < |s| ==> p(s[i])
    ensures Filter(s, p) == s
  {
    if |s| > 0 {
      FilterAll(s[1..], p);
      assert s == [s[0]] + s[1..];
    }
  }

  /** The number of elements of `s` satisfying `p`. */
  function Count<T>(s: seq<T>, p: T -> bool): (n: nat)
    ensures n <= |s|
    ensures n == 0 <==> forall i :: 0 <= i < |s| ==> !p(s[i])
    ensures n == |s| <==> forall i :: 0 <= i < |s| ==> p(s[i])
  {
    if |s| == 0 then 0
    else
      assert forall i :: 1 <= i < |s| ==> s[i] == s[1..][i - 1];
      (if p(s[0]) then 1 else 0) + Count(s[1..], p)
  }

  /** Counting is monotone: when every position satisfying `p` in `a` has
      the corresponding position of `b` satisfying `q`, `b` counts at least
      as many. */
  lemma {:induction false} CountPointwise<T>(a: seq<T>, b: seq<T>, p: T -> bool, q: T -> bool)
    requires |a| == |b|
    requires forall i :: 0 <= i < |a| && p(a[i]) ==> q(b[i])
    ensures Count(a, p) <= Count(b, q)
  {
    if |a| > 0 {
      CountPointwise(a[1..], b[1..], p, q);
    }
  }

  lemma {:induction false} CountSnoc<T>(s: seq<T>, x: T, p: T -> bool)
    ensures Count(s + [x], p) == Count(s, p) + (if p(x) then 1 else 0)
    decreases |s|
  {
    if |s| > 0 {
      assert (s + [x])[0] == s[0] && (s + [x])[1..] == s[1..] + [x];
      CountSnoc(s[1..], x, p);
    }
  }

  /** `Count` is the number of positions whose element satisfies `p`. */
  lemma {:induction false} CountPositions<T>(s: seq<T>, p: T -> bool)
    ensures Count(s, p) == |set i | 0 <= i < |s| && p(s[i])|
    decreases |s|
  {
    if |s| > 0 {
      var t, x := s[..|s| - 1], s[|s| - 1];
      assert s == t + [x];
      CountSnoc(t, x, p);
      CountPositions(t, p);
      PositionsSnoc(t, x, p);
    }
  }

  /** Appending `x` adds its position to the matching positions when it
      matches. */
  lemma PositionsSnoc<T>(t: seq<T>, x: T, p: T -> bool)
    ensures |set i | 0 <= i < |t + [x]| && p((t + [x])[i])|
            == |set i | 0 <= i < |t| && p(t[i])| + (if p(x) then 1 else 0)
  {
    var s := t + [x];
    var before := set i | 0 <= i < |t| && p(t[i]);
    var after := set i | 0 <= i < |s| && p(s[i]);
    var last: set<int> := if p(x) then {|t|} else {};
    forall i ensures i in after <==> i in before + last {
      if 0 <= i < |t| {
        assert s[i] == t[i];
      }
    }
    assert after == before + last;
    assert before !! last;
  }

  /** The same, for any set described by its members. */
  lemma CountIsCard<T>(s: seq<T>, p: T -> bool, positions: set<int>)
    requires forall i :: i in positions <==> 0 <= i < |s| && p(s[i])
    ensures Count(s, p) == |positions|
  {
    CountPositions(s, p);
    assert positions == set i | 0 <= i < |s| && p(s[i]);
  }

  /** A filter keeps as many elements as `Count` counts. */
  lemma {:induction false} FilterCount<T(!new)>(s: seq<T>, p: T -> bool)
    ensures |Filter(s, p)| == Count(s, p)
    decreases |s|
  {
    if |s| > 0 {
      FilterCount(s[1..], p);
    }
  }

  function Reverse<T>(s: seq<T>): (r: seq<T>)
    ensures |r| == |s|
    ensures forall i :: 0 <= i < |s| ==> r[i] == s[|s| - 1 - i]
  {
    if |s| == 0 then [] else Reverse(s[1..]) + [s[0]]
  }

  lemma ReverseMembers<T>(s: seq<T>)
    ensures forall x :: x in Reverse(s) <==> x in s
  {
    var r := Reverse(s);
    forall x | x in r ensures x in s {
      var i :| 0 <= i < |r| && r[i] == x;
      assert s[|s| - 1 - i] == x;
    }
    forall x | x in s ensures x in r {
      var i :| 0 <= i < |s| && s[i] == x;
      assert r[|s| - 1 - i] == x;
    }
  }
}
