/** The home page: the cards shown for the chosen location and the link to
    the full events page. */
module HomePage {
  import opened Text
  import opened LocationListing

  datatype Kind = Upcoming | Ongoing

  /** An event starting after the one-month horizon is upcoming; any other
      is ongoing. */
  function Classify(start: int, oneMonthLater: int): (k: Kind)
    ensures k == Upcoming <==> start > oneMonthLater
  {
    if start > oneMonthLater then Upcoming else Ongoing
  }

  /** The ongoing cards of a response, in response order. */
  function OngoingCards(data: seq<Card>, oneMonthLater: int): (r: seq<Card>)
    ensures |r| <= |data|
    decreases |data|
  {
    if |data| == 0 then []
    else
      var last := data[|data| - 1];
      OngoingCards(data[..|data| - 1], oneMonthLater) + (if Classify(last.start, oneMonthLater) == Ongoing then [last] else [])
  }

  /** The ongoing cards are exactly the response's ongoing events. */
  lemma {:induction false} OngoingMembers(data: seq<Card>, oneMonthLater: int)
    ensures forall c :: c in OngoingCards(data, oneMonthLater) <==> c in data && Classify(c.start, oneMonthLater) == Ongoing
    decreases |data|
  {
    if |data| > 0 {
      var front := data[..|data| - 1];
      var last := data[|data| - 1];
      OngoingMembers(front, oneMonthLater);
      assert data == front + [last];
      OngoingSnoc(data, oneMonthLater);
    }
  }

  const MaxCards: nat := 4

  /** The first `MaxCards` elements of `s`, or all of them. */
  function Head(s: seq<Card>): (r: seq<Card>)
    ensures |r| <= MaxCards
  {
    if |s| <= MaxCards then s else s[..MaxCards]
  }

  datatype Shown = NoEventsFound | NoOngoingFound | Cards(cards: seq<Card>)

  /** The response handler: walk the events in order, show ongoing ones
      until four are shown, then pick the message. */
  method ShowEvents(data: seq<Card>, oneMonthLater: int) returns (shown: Shown)
    ensures shown == NoEventsFound <==> |data| == 0
    ensures shown == NoOngoingFound <==>
              |data| > 0 && forall i :: 0 <= i < |data| ==> Classify(data[i].start, oneMonthLater) == Upcoming
    ensures shown.Cards? ==> shown.cards == Head(OngoingCards(data, oneMonthLater)) && 0 < |shown.cards| <= MaxCards
  {
    if |data| == 0 {
      return NoEventsFound;
    }
    ghost var all := OngoingCards(data, oneMonthLater);
    var cards: seq<Card> := [];
    var i := 0;
    while i < |data|
      invariant 0 <= i <= |data|
      invariant cards == Head(OngoingCards(data[..i], oneMonthLater))
      invariant |cards| < MaxCards
    {
      ShowStep(data, i, oneMonthLater, cards);
      if Classify(data[i].start, oneMonthLater) == Ongoing && |cards| < MaxCards {
        cards := cards + [data[i]];
      }
      i := i + 1;
      if |cards| >= MaxCards {
        HeadFull(data, i, oneMonthLater);
        break;
      }
    }
    if i == |data| {
      assert data[..i] == data;
    }
    assert cards == Head(all);
    NoneOngoing(data, oneMonthLater);
    if |cards| == 0 {
      return NoOngoingFound;
    }
    shown := Cards(cards);
  }

  /** One more event, while fewer than four cards are shown, adds its card
      when it is ongoing. */
  lemma ShowStep(data: seq<Card>, i: nat, oneMonthLater: int, cards: seq<Card>)
    requires i < |data|
    requires cards == Head(OngoingCards(data[..i], oneMonthLater)) && |cards| < MaxCards
    ensures Head(OngoingCards(data[..i + 1], oneMonthLater)) ==
              if Classify(data[i].start, oneMonthLater) == Ongoing then cards + [data[i]] else cards
  {
    assert data[..i + 1][..i] == data[..i];
    OngoingSnoc(data[..i + 1], oneMonthLater);
  }

  /** The ongoing cards unfolded at the last event. */
  lemma OngoingSnoc(data: seq<Card>, oneMonthLater: int)
    requires |data| > 0
    ensures var last := data[|data| - 1];
            OngoingCards(data, oneMonthLater) ==
              OngoingCards(data[..|data| - 1], oneMonthLater) + (if Classify(last.start, oneMonthLater) == Ongoing then [last] else [])
  {
  }

  /** Appending after four cards does not change the first four. */
  lemma HeadAppend(a: seq<Card>, tail: seq<Card>)
    requires |a| >= MaxCards
    ensures Head(a + tail) == Head(a)
  {
    assert (a + tail)[..MaxCards] == a[..MaxCards];
  }

  /** Once four ongoing cards are found, later events do not change the
      first four. */
  lemma {:induction false} HeadFull(data: seq<Card>, i: nat, oneMonthLater: int)
    requires i <= |data|
    requires |OngoingCards(data[..i], oneMonthLater)| >= MaxCards
    ensures Head(OngoingCards(data, oneMonthLater)) == Head(OngoingCards(data[..i], oneMonthLater))
    decreases |data| - i
  {
    if i < |data| {
      var j := |data| - 1;
      var front := data[..j];
      assert front[..i] == data[..i];
      HeadFull(front, i, oneMonthLater);
      OngoingSnoc(data, oneMonthLater);
      var tail := if Classify(data[j].start, oneMonthLater) == Ongoing then [data[j]] else [];
      HeadAppend(OngoingCards(front, oneMonthLater), tail);
    } else {
      assert data[..i] == data;
    }
  }

  lemma NoneOngoing(data: seq<Card>, oneMonthLater: int)
    ensures OngoingCards(data, oneMonthLater) == [] <==>
              forall i :: 0 <= i < |data| ==> Classify(data[i].start, oneMonthLater) == Upcoming
  {
    var r := OngoingCards(data, oneMonthLater);
    OngoingMembers(data, oneMonthLater);
    if r != [] {
      assert r[0] in r;
    }
    if exists i :: 0 <= i < |data| && Classify(data[i].start, oneMonthLater) == Ongoing {
      var i :| 0 <= i < |data| && Classify(data[i].start, oneMonthLater) == Ongoing;
      assert data[i] in r;
    }
  }

  const EventsPath: string := "/events"

  /** The "see more" link: `/events` from anywhere under it, otherwise the
      current path with `events` appended as a child. */
  function AllEventsPath(path: string): (r: string)
    ensures EndsWith(r, EventsPath)
    ensures Contains(path, EventsPath) ==> r == EventsPath
    ensures !Contains(path, EventsPath) ==> StartsWith(r, path) && |r| - |path| in {6, 7}
  {
    if Contains(path, EventsPath) then EventsPath
    else if EndsWith(path, "/") then path + "events"
    else path + EventsPath
  }

  /** Following the link again stays on `/events`. */
  lemma AllEventsPathStable(path: string)
    ensures AllEventsPath(AllEventsPath(path)) == EventsPath
  {
    EndsWithContains(AllEventsPath(path), EventsPath);
  }

  /** A path ending in `/` gains no doubled slash. */
  lemma NoDoubleSlash(path: string)
    requires EndsWith(path, "/") && !Contains(path, EventsPath)
    ensures AllEventsPath(path) == path + "events"
  {
  }
}
