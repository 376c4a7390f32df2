/** The event duration format `H:m:s`: three groups of one or two decimal
    digits separated by colons, as the regular expression
    `^\d{1,2}:\d{1,2}:\d{1,2}$` accepts it. */
module Duration {
  import opened Text

  /** The pieces of `s` between colons. */
  function Split(s: string): (parts: seq<string>)
    ensures |parts| >= 1
    decreases |s|
  {
    var k := IndexOf(s, ':');
    if k == |s| then [s] else [s[..k]] + Split(s[k + 1..])
  }

  /** The pieces joined back with colons. */
  function Join(parts: seq<string>): (s: string)
    requires |parts| >= 1
  {
    if |parts| == 1 then parts[0] else parts[0] + ":" + Join(parts[1..])
  }

  lemma {:induction false} JoinSplit(s: string)
    ensures Join(Split(s)) == s
    decreases |s|
  {
    var k := IndexOf(s, ':');
    if k < |s| {
      SplitCons(s, k);
      JoinSplit(s[k + 1..]);
      JoinCons(s[..k], Split(s[k + 1..]));
      AroundColon(s, k);
    }
  }

  /** Split unfolded once at the first colon. */
  lemma SplitCons(s: string, k: nat)
    requires k == IndexOf(s, ':') && k < |s|
    ensures Split(s) == [s[..k]] + Split(s[k + 1..])
  {
  }

  lemma AroundColon(s: string, k: nat)
    requires k < |s| && s[k] == ':'
    ensures s == s[..k] + ":" + s[k + 1..]
  {
    assert s == s[..k] + [s[k]] + s[k + 1..];
  }

  /** Join unfolded once. */
  lemma JoinCons(p: string, rest: seq<string>)
    requires |rest| >= 1
    ensures Join([p] + rest) == p + ":" + Join(rest)
  {
    assert ([p] + rest)[1..] == rest;
  }

  lemma {:induction false} SplitJoin(parts: seq<string>)
    requires |parts| >= 1
    requires forall i :: 0 <= i < |parts| ==> ':' !in parts[i]
    ensures Split(Join(parts)) == parts
    decreases |parts|
  {
    var s := Join(parts);
    if |parts| == 1 {
      assert IndexOf(s, ':') == |s|;
    } else {
      var p := parts[0];
      var more := parts[1..];
      var rest := Join(more);
      assert parts == [p] + more;
      JoinCons(p, more);
      assert s == p + [':'] + rest;
      IndexOfAfter(p, ':', rest);
      assert s[..|p|] == p && s[|p| + 1..] == rest;
      assert Split(s) == [p] + Split(rest);
      assert forall i :: 0 <= i < |more| ==> more[i] == parts[i + 1];
      SplitJoin(more);
    }
  }

  predicate Group(p: string) {
    1 <= |p| <= 2 && AllDigits(p)
  }

  /** `^\d{1,2}:\d{1,2}:\d{1,2}$` as JavaScript applies it. */
  predicate DurationOk(s: string) {
    var parts := Split(s);
    |parts| == 3 && Group(parts[0]) && Group(parts[1]) && Group(parts[2])
  }

  /** The same pattern as PHP's `preg_match` applies it: `$` also matches
      before one final line feed. */
  predicate ServerDurationOk(s: string) {
    DurationOk(s) || (|s| > 0 && s[|s| - 1] == '\n' && DurationOk(s[..|s| - 1]))
  }

  /** A duration written from hours, minutes and seconds below 100. */
  function Format(h: nat, m: nat, sec: nat): (s: string)
    requires h < 100 && m < 100 && sec < 100
  {
    Join([NatToString(h), NatToString(m), NatToString(sec)])
  }

  lemma ShortNumber(n: nat)
    requires n < 100
    ensures Group(NatToString(n)) && ':' !in NatToString(n)
  {
    var r := NatToString(n);
    if n >= 10 {
      assert r == NatToString(n / 10) + [DigitChar(n % 10)];
    }
  }

  /** Every formatted duration passes both checks and reads back as the
      numbers it was made from. */
  lemma FormatRoundTrip(h: nat, m: nat, sec: nat)
    requires h < 100 && m < 100 && sec < 100
    ensures DurationOk(Format(h, m, sec)) && ServerDurationOk(Format(h, m, sec))
    ensures var parts := Split(Format(h, m, sec));
            ParseNat(parts[0]) == h && ParseNat(parts[1]) == m && ParseNat(parts[2]) == sec
  {
    ShortNumber(h);
    ShortNumber(m);
    ShortNumber(sec);
    var parts := [NatToString(h), NatToString(m), NatToString(sec)];
    SplitJoin(parts);
    ParseNatToString(h);
    ParseNatToString(m);
    ParseNatToString(sec);
  }

  /** A string with a colon count other than two is never accepted. */
  lemma NeedsThreeGroups(s: string)
    requires |Split(s)| != 3
    ensures !DurationOk(s)
  {
  }
}
