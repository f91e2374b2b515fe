/** The two patterns `src/prec.rs` applies to the PREC event log, written out as
    scanners. The extraction pattern is
      `\[[\d/\s:]+]\s?(.+)\s\("(.+)"\s?at`
    and its captures are the event description and the demo's base name. The
    scanner follows the regex engine's leftmost-first rule: the leftmost start
    that can match wins, and at that start the alternatives are tried in the
    engine's priority order (greedy repetitions longest first, an optional
    whitespace taken before it is skipped). */
module PrecLog {
  import opened Wrappers
  import opened Text

  /** `[\d/\s:]`. */
  predicate IsTimestampChar(c: char)
  {
    IsAsciiDigit(c) || c == '/' || IsWhitespace(c) || c == ':'
  }

  predicate NoNewline(s: string)
  {
    forall k :: 0 <= k < |s| ==> s[k] != '\n'
  }

  /** The end of the run of timestamp characters that starts at `i`. */
  function RunEnd(s: string, i: nat): (r: nat)
    requires i <= |s|
    decreases |s| - i
    ensures i <= r <= |s|
    ensures forall k :: i <= k < r ==> IsTimestampChar(s[k])
    ensures r < |s| ==> !IsTimestampChar(s[r])
  {
    if i < |s| && IsTimestampChar(s[i]) then RunEnd(s, i + 1) else i
  }

  /** The furthest a `.+` starting at `i` can reach: `.` matches anything but a
      line feed. */
  function LineEnd(s: string, i: nat): (r: nat)
    requires i <= |s|
    decreases |s| - i
    ensures i <= r <= |s|
    ensures forall k :: i <= k < r ==> s[k] != '\n'
    ensures r < |s| ==> s[r] == '\n'
  {
    if i < |s| && s[i] != '\n' then LineEnd(s, i + 1) else i
  }

  /** One match: the event description, the demo name, and where the match ends. */
  datatype Capture = Capture(event: string, demo: string, end: nat)

  /** `\s?at` at `p`, taking the whitespace first: the end of the match, if any.
      The match ends in `at`, right at `p` or after one whitespace character;
      there is none exactly when neither form occurs at `p`. */
  function AtSuffix(s: string, p: nat): (r: Option<nat>)
    ensures r.Some? ==> p + 2 <= r.value <= |s| && s[r.value - 2] == 'a' && s[r.value - 1] == 't'
    ensures r.Some? ==> r.value == p + 2 || (r.value == p + 3 && IsWhitespace(s[p]))
    ensures r.None? ==> !(p + 2 <= |s| && s[p] == 'a' && s[p + 1] == 't')
    ensures r.None? ==> !(p + 3 <= |s| && IsWhitespace(s[p]) && s[p + 1] == 'a' && s[p + 2] == 't')
  {
    if p + 3 <= |s| && IsWhitespace(s[p]) && s[p + 1] == 'a' && s[p + 2] == 't' then Some(p + 3)
    else if p + 2 <= |s| && s[p] == 'a' && s[p + 1] == 't' then Some(p + 2)
    else None
  }

  /** `\s\("` right after the first group ends at `e1`. */
  predicate Opener(s: string, e1: nat)
  {
    e1 + 3 <= |s| && IsWhitespace(s[e1]) && s[e1 + 1] == '(' && s[e1 + 2] == '"'
  }

  /** A `"` at `e2` followed by `\s?at`. */
  predicate Closer(s: string, e2: nat)
  {
    e2 < |s| && s[e2] == '"' && AtSuffix(s, e2 + 1).Some?
  }

  /** Some end of a second group starting at `g2`, on its line, is followed by
      `"\s?at`. */
  predicate HasDemoFrom(s: string, g2: nat)
    requires g2 <= |s|
  {
    exists q :: g2 < q <= LineEnd(s, g2) && Closer(s, q)
  }

  /** Some end of a first group starting at `g1`, on its line, is followed by
      `\s\("` and a second group that closes. */
  predicate HasEventFrom(s: string, g1: nat)
    requires g1 <= |s|
  {
    exists e :: g1 < e <= LineEnd(s, g1) && Opener(s, e) && HasDemoFrom(s, e + 3)
  }

  /** `c` is a match of `(.+)\s\("(.+)"\s?at` from `g1`: the event is the text from
      `g1` up to a `\s\("`, the demo name the text from after it up to a `"`
      followed by `\s?at`, neither of them empty or crossing a line feed, and the
      match ends where `\s?at` ends. */
  predicate IsMatchFrom(s: string, g1: nat, c: Capture)
  {
    var e := g1 + |c.event|;
    var g2 := e + 3;
    var q := g2 + |c.demo|;
    && 0 < |c.event| && 0 < |c.demo| && q < |s|
    && s[g1..e] == c.event && NoNewline(c.event) && Opener(s, e)
    && s[g2..q] == c.demo && NoNewline(c.demo) && Closer(s, q)
    && c.end == AtSuffix(s, q + 1).value
  }

  /** No end of a second group from `g2` past `q` on its line is followed by
      `"\s?at`. */
  predicate DemoGreedy(s: string, g2: nat, q: nat)
    requires g2 <= |s|
  {
    forall k :: q < k <= LineEnd(s, g2) ==> !Closer(s, k)
  }

  /** No end of a first group past `e`, up to `e1`, is followed by `\s\("` and a
      second group that closes. */
  predicate EventGreedy(s: string, e: nat, e1: nat)
  {
    forall k :: e < k <= e1 ==> !(Opener(s, k) && HasDemoFrom(s, k + 3))
  }

  /** The match the engine reports from `g1`: both groups are greedy, so the event
      runs to the last `\s\("` on its line after which a demo name can close, and
      the demo name to the last `"\s?at` on its line. */
  predicate IsFirstMatchFrom(s: string, g1: nat, c: Capture)
    requires g1 <= |s|
  {
    IsMatchFrom(s, g1, c)
    && DemoGreedy(s, g1 + |c.event| + 3, g1 + |c.event| + 3 + |c.demo|)
    && EventGreedy(s, g1 + |c.event|, LineEnd(s, g1))
  }

  /** The second group `(.+)` from `g2`, ending at `e2` or earlier, then `"\s?at`:
      the longest end that works. */
  function TryDemo(s: string, event: string, g2: nat, e2: nat): (r: Option<Capture>)
    requires g2 <= e2 <= |s|
    requires forall k :: g2 <= k < e2 ==> s[k] != '\n'
    decreases e2
    ensures r.Some? ==> r.value.event == event && 0 < |r.value.demo| <= e2 - g2
    ensures r.Some? ==> g2 < r.value.end <= |s|
  {
    if e2 <= g2 then None
    else if Closer(s, e2) then Some(Capture(event, s[g2..e2], AtSuffix(s, e2 + 1).value))
    else TryDemo(s, event, g2, e2 - 1)
  }

  /** What the second group's search finds: the demo name is the text from `g2`
      up to the last `"\s?at` that ends no later than `e2`, and the match ends
      where `\s?at` ends; when it finds nothing, no `"\s?at` closes the group. */
  lemma {:induction false} TryDemoFinds(s: string, event: string, g2: nat, e2: nat)
    requires g2 <= e2 <= |s|
    requires forall k :: g2 <= k < e2 ==> s[k] != '\n'
    ensures var r := TryDemo(s, event, g2, e2);
      r.Some? ==> var q := g2 + |r.value.demo|;
        && Closer(s, q) && r.value.demo == s[g2..q]
        && r.value.end == AtSuffix(s, q + 1).value
        && forall k :: q < k <= e2 ==> !Closer(s, k)
    ensures TryDemo(s, event, g2, e2).None? ==> forall k :: g2 < k <= e2 ==> !Closer(s, k)
    decreases e2
  {
    if e2 > g2 && !Closer(s, e2) {
      TryDemoFinds(s, event, g2, e2 - 1);
    }
  }

  /** The first group `(.+)` from `g1`, ending at `e1` or earlier, then the rest of
      the pattern: the longest end for which the rest matches. */
  function TryEvent(s: string, g1: nat, e1: nat): (r: Option<Capture>)
    requires g1 <= e1 <= |s|
    requires forall k :: g1 <= k < e1 ==> s[k] != '\n'
    decreases e1
    ensures r.Some? ==> g1 + |r.value.event| <= e1 && |r.value.event| > 0 && |r.value.demo| > 0
    ensures r.Some? ==> g1 < r.value.end <= |s|
  {
    if e1 <= g1 then None
    else if Opener(s, e1) then
      match DemoAfter(s, g1, e1)
      case Some(c) => Some(c)
      case None => TryEvent(s, g1, e1 - 1)
    else TryEvent(s, g1, e1 - 1)
  }

  /** The demo name after an event ending at `e1` and its `\s\("`. */
  function DemoAfter(s: string, g1: nat, e1: nat): Option<Capture>
    requires g1 <= e1 && Opener(s, e1)
  {
    TryDemo(s, s[g1..e1], e1 + 3, LineEnd(s, e1 + 3))
  }

  /** One step of the first group's search: the longest end is tried first. */
  lemma TryEventStep(s: string, g1: nat, e1: nat)
    requires g1 < e1 <= |s|
    requires forall k :: g1 <= k < e1 ==> s[k] != '\n'
    ensures TryEvent(s, g1, e1) ==
      if Opener(s, e1) && DemoAfter(s, g1, e1).Some? then DemoAfter(s, g1, e1) else TryEvent(s, g1, e1 - 1)
  {
  }

  /** A demo name found after an event ending at `e1` completes a match from `g1`. */
  lemma DemoAfterMatches(s: string, g1: nat, e1: nat)
    requires g1 < e1 && Opener(s, e1)
    requires forall k :: g1 <= k < e1 ==> s[k] != '\n'
    requires DemoAfter(s, g1, e1).Some?
    ensures var c := DemoAfter(s, g1, e1).value;
      IsMatchFrom(s, g1, c) && DemoGreedy(s, e1 + 3, e1 + 3 + |c.demo|) && |c.event| == e1 - g1
  {
    var g2 := e1 + 3;
    TryDemoFinds(s, s[g1..e1], g2, LineEnd(s, g2));
    var c := DemoAfter(s, g1, e1).value;
    var q := g2 + |c.demo|;
    assert NoNewline(c.demo) by {
      forall k | 0 <= k < |c.demo| ensures c.demo[k] != '\n' {
        assert c.demo[k] == s[g2 + k];
      }
    }
    assert NoNewline(c.event) by {
      forall k | 0 <= k < |c.event| ensures c.event[k] != '\n' {
        assert c.event[k] == s[g1 + k];
      }
    }
  }

  /** No demo name found after an event ending at `e1` means none closes there. */
  lemma DemoAfterNone(s: string, g1: nat, e1: nat)
    requires g1 <= e1 && Opener(s, e1)
    requires DemoAfter(s, g1, e1).None?
    ensures !HasDemoFrom(s, e1 + 3)
  {
    TryDemoFinds(s, s[g1..e1], e1 + 3, LineEnd(s, e1 + 3));
  }

  /** When the first group's search finds nothing, no event end from `g1` up to
      `e1` is followed by `\s\("` and a demo name that closes. */
  lemma {:induction false} TryEventNone(s: string, g1: nat, e1: nat)
    requires g1 <= e1 <= |s|
    requires forall k :: g1 <= k < e1 ==> s[k] != '\n'
    requires TryEvent(s, g1, e1).None?
    ensures EventGreedy(s, g1, e1)
    decreases e1
  {
    if e1 > g1 {
      TryEventStep(s, g1, e1);
      if Opener(s, e1) {
        DemoAfterNone(s, g1, e1);
      }
      TryEventNone(s, g1, e1 - 1);
      EventGreedyExtend(s, g1, e1);
    }
  }

  /** What the first group's search finds: a match from `g1` whose event ends at
      `e1` or earlier, with the greedy demo name, and no later event end that
      works. */
  lemma {:induction false} TryEventSome(s: string, g1: nat, e1: nat)
    requires g1 <= e1 <= |s|
    requires forall k :: g1 <= k < e1 ==> s[k] != '\n'
    requires TryEvent(s, g1, e1).Some?
    ensures var c := TryEvent(s, g1, e1).value; var e := g1 + |c.event|;
      IsMatchFrom(s, g1, c) && DemoGreedy(s, e + 3, e + 3 + |c.demo|) && EventGreedy(s, e, e1)
    decreases e1
  {
    TryEventStep(s, g1, e1);
    if Opener(s, e1) && DemoAfter(s, g1, e1).Some? {
      TryEventSomeHere(s, g1, e1);
    } else {
      TryEventSome(s, g1, e1 - 1);
      TryEventSomeEarlier(s, g1, e1);
    }
  }

  /** The first group's search succeeds at its longest end `e1`. */
  lemma TryEventSomeHere(s: string, g1: nat, e1: nat)
    requires g1 < e1 <= |s|
    requires forall k :: g1 <= k < e1 ==> s[k] != '\n'
    requires Opener(s, e1) && DemoAfter(s, g1, e1).Some?
    ensures TryEvent(s, g1, e1).Some?
    ensures var c := TryEvent(s, g1, e1).value; var e := g1 + |c.event|;
      IsMatchFrom(s, g1, c) && DemoGreedy(s, e + 3, e + 3 + |c.demo|) && EventGreedy(s, e, e1)
  {
    TryEventStep(s, g1, e1);
    DemoAfterMatches(s, g1, e1);
  }

  /** The first group's search fails at its longest end `e1` and succeeds
      earlier: the match found earlier is kept, and `e1` does not work. */
  lemma TryEventSomeEarlier(s: string, g1: nat, e1: nat)
    requires g1 < e1 <= |s|
    requires forall k :: g1 <= k < e1 ==> s[k] != '\n'
    requires !(Opener(s, e1) && DemoAfter(s, g1, e1).Some?)
    requires TryEvent(s, g1, e1 - 1).Some?
    requires var c := TryEvent(s, g1, e1 - 1).value; var e := g1 + |c.event|;
      IsMatchFrom(s, g1, c) && DemoGreedy(s, e + 3, e + 3 + |c.demo|) && EventGreedy(s, e, e1 - 1)
    ensures TryEvent(s, g1, e1) == TryEvent(s, g1, e1 - 1)
    ensures var c := TryEvent(s, g1, e1).value; var e := g1 + |c.event|;
      IsMatchFrom(s, g1, c) && DemoGreedy(s, e + 3, e + 3 + |c.demo|) && EventGreedy(s, e, e1)
  {
    TryEventStep(s, g1, e1);
    var c := TryEvent(s, g1, e1 - 1).value;
    assert !(Opener(s, e1) && HasDemoFrom(s, e1 + 3)) by {
      if Opener(s, e1) {
        DemoAfterNone(s, g1, e1);
      }
    }
    EventGreedyExtend(s, g1 + |c.event|, e1);
  }

  lemma EventGreedyExtend(s: string, e: nat, e1: nat)
    requires e < e1 && EventGreedy(s, e, e1 - 1)
    requires !(Opener(s, e1) && HasDemoFrom(s, e1 + 3))
    ensures EventGreedy(s, e, e1)
  {
  }

  /** `(.+)\s\("(.+)"\s?at` from `g1`. */
  function AfterTimestamp(s: string, g1: nat): (r: Option<Capture>)
    requires g1 <= |s|
    ensures r.Some? ==> g1 < r.value.end <= |s| && |r.value.event| > 0 && |r.value.demo| > 0
  {
    TryEvent(s, g1, LineEnd(s, g1))
  }

  /** The rest of the pattern matches from `g1` exactly when some event end and
      demo end work, and the match found is the one the greedy groups give. */
  lemma AfterTimestampFinds(s: string, g1: nat)
    requires g1 <= |s|
    ensures AfterTimestamp(s, g1).Some? <==> HasEventFrom(s, g1)
    ensures AfterTimestamp(s, g1).Some? ==> IsFirstMatchFrom(s, g1, AfterTimestamp(s, g1).value)
  {
    if AfterTimestamp(s, g1).Some? {
      AfterTimestampSome(s, g1);
    } else {
      TryEventNone(s, g1, LineEnd(s, g1));
    }
  }

  /** A match found from `g1` is a match, with greedy groups. */
  lemma AfterTimestampSome(s: string, g1: nat)
    requires g1 <= |s| && AfterTimestamp(s, g1).Some?
    ensures HasEventFrom(s, g1) && IsFirstMatchFrom(s, g1, AfterTimestamp(s, g1).value)
  {
    var e1 := LineEnd(s, g1);
    TryEventSome(s, g1, e1);
    MatchClosesOnLine(s, g1, TryEvent(s, g1, e1).value);
  }

  /** The demo name of a match closes on its line. */
  lemma MatchClosesOnLine(s: string, g1: nat, c: Capture)
    requires IsMatchFrom(s, g1, c)
    ensures g1 + |c.event| + 3 <= |s| && HasDemoFrom(s, g1 + |c.event| + 3)
  {
    var g2 := g1 + |c.event| + 3;
    var q := g2 + |c.demo|;
    forall k | g2 <= k < q
      ensures s[k] != '\n'
    {
      assert s[k] == c.demo[k - g2];
    }
    assert q <= LineEnd(s, g2);
  }

  /** `\[[\d/\s:]+]` at `i`: a `[`, a non-empty run of timestamp characters and a
      `]`. As `]` is not a timestamp character, the run is the longest one. */
  predicate StampAt(s: string, i: nat)
  {
    i < |s| && s[i] == '[' && RunEnd(s, i + 1) > i + 1 && RunEnd(s, i + 1) < |s| && s[RunEnd(s, i + 1)] == ']'
  }

  /** The whole pattern at position `i`. */
  function MatchAt(s: string, i: nat): (r: Option<Capture>)
    ensures r.Some? ==> i < r.value.end <= |s| && |r.value.event| > 0 && |r.value.demo| > 0
  {
    if i < |s| && s[i] == '[' then
      var t := RunEnd(s, i + 1);
      if t > i + 1 && t < |s| && s[t] == ']' then
        var p := t + 1;
        var taken := if p < |s| && IsWhitespace(s[p]) then AfterTimestamp(s, p + 1) else None;
        if taken.Some? then taken else AfterTimestamp(s, p)
      else None
    else None
  }

  /** The pattern matches at `i` exactly when a timestamp in brackets starts there
      and the rest matches after it, with the optional whitespace taken when that
      works and skipped otherwise; the captures are those of the greedy groups. */
  lemma MatchAtFinds(s: string, i: nat)
    ensures MatchAt(s, i).Some? <==> StampAt(s, i) && (var p := RunEnd(s, i + 1) + 1;
      (p < |s| && IsWhitespace(s[p]) && HasEventFrom(s, p + 1)) || HasEventFrom(s, p))
    ensures MatchAt(s, i).Some? ==> StampAt(s, i) && var p := RunEnd(s, i + 1) + 1;
      if p < |s| && IsWhitespace(s[p]) && HasEventFrom(s, p + 1) then IsFirstMatchFrom(s, p + 1, MatchAt(s, i).value)
      else IsFirstMatchFrom(s, p, MatchAt(s, i).value)
  {
    MatchAtStep(s, i);
    if StampAt(s, i) {
      var p := RunEnd(s, i + 1) + 1;
      if p < |s| && IsWhitespace(s[p]) {
        AfterTimestampFinds(s, p + 1);
      }
      AfterTimestampFinds(s, p);
    }
  }

  /** The match at `i`, by whether the optional whitespace after the timestamp
      can be taken. */
  lemma MatchAtStep(s: string, i: nat)
    ensures !StampAt(s, i) ==> MatchAt(s, i).None?
    ensures StampAt(s, i) ==> var p := RunEnd(s, i + 1) + 1;
      MatchAt(s, i) == if p < |s| && IsWhitespace(s[p]) && AfterTimestamp(s, p + 1).Some?
                       then AfterTimestamp(s, p + 1) else AfterTimestamp(s, p)
  {
  }

  /** `captures_iter` from position `i`: the leftmost match, then the search goes
      on where it ended. */
  function CapturesFrom(s: string, i: nat): (r: seq<Capture>)
    decreases |s| - i
    ensures forall k :: 0 <= k < |r| ==> |r[k].event| > 0 && |r[k].demo| > 0 && i < r[k].end <= |s|
  {
    if i >= |s| then []
    else match MatchAt(s, i)
      case Some(c) => [c] + CapturesFrom(s, c.end)
      case None => CapturesFrom(s, i + 1)
  }

  /** `EVENT_EXTRACT_RE.captures_iter` over the whole log. */
  function Captures(s: string): seq<Capture>
  {
    CapturesFrom(s, 0)
  }

  /** One step of the search: a match at `i` is taken and the search goes on
      where it ends; otherwise the search moves one position on. */
  lemma CapturesFromStep(s: string, i: nat)
    requires i < |s|
    ensures CapturesFrom(s, i) ==
      if MatchAt(s, i).Some? then [MatchAt(s, i).value] + CapturesFrom(s, MatchAt(s, i).value.end)
      else CapturesFrom(s, i + 1)
  {
  }

  /** The search from `i` finds nothing exactly when no position from `i` on
      matches. */
  lemma CapturesFromNone(s: string, i: nat)
    ensures CapturesFrom(s, i) == [] <==> forall j :: i <= j < |s| ==> MatchAt(s, j).None?
  {
    if CapturesFrom(s, i) == [] {
      EmptySearchNoMatch(s, i);
    } else if NoMatchBetween(s, i, |s|) {
      NoMatchEmptySearch(s, i);
    }
  }

  /** A search that finds nothing passes only positions that do not match. */
  lemma {:induction false} EmptySearchNoMatch(s: string, i: nat)
    requires CapturesFrom(s, i) == []
    ensures NoMatchBetween(s, i, |s|)
    decreases |s| - i
  {
    if i < |s| {
      EmptySearchStep(s, i);
      EmptySearchNoMatch(s, i + 1);
      NoMatchBefore(s, i, |s|);
    }
  }

  /** A search that finds nothing from `i` finds no match at `i` and nothing
      from the next position. */
  lemma EmptySearchStep(s: string, i: nat)
    requires i < |s| && CapturesFrom(s, i) == []
    ensures MatchAt(s, i).None? && CapturesFrom(s, i + 1) == []
  {
    CapturesFromStep(s, i);
  }

  /** A search over positions that do not match finds nothing. */
  lemma {:induction false} NoMatchEmptySearch(s: string, i: nat)
    requires NoMatchBetween(s, i, |s|)
    ensures CapturesFrom(s, i) == []
    decreases |s| - i
  {
    if i < |s| {
      NoMatchAfter(s, i, |s|);
      CapturesFromStep(s, i);
      NoMatchEmptySearch(s, i + 1);
    }
  }

  /** A stretch without matches has none at its start, nor after it. */
  lemma NoMatchAfter(s: string, i: nat, j: nat)
    requires i < j && NoMatchBetween(s, i, j)
    ensures MatchAt(s, i).None? && NoMatchBetween(s, i + 1, j)
  {
  }

  /** The first capture of the search from `i` is the match at the leftmost
      position that matches, and the search goes on where that match ends. */
  lemma CapturesFromLeftmost(s: string, i: nat)
    requires CapturesFrom(s, i) != []
    ensures exists j :: && i <= j < |s|
                        && MatchAt(s, j) == Some(CapturesFrom(s, i)[0])
                        && CapturesFrom(s, i)[1..] == CapturesFrom(s, CapturesFrom(s, i)[0].end)
                        && forall j' :: i <= j' < j ==> MatchAt(s, j').None?
  {
    var j := LeftmostMatch(s, i);
  }

  /** No match starts from `i` up to `j`. */
  predicate NoMatchBetween(s: string, i: nat, j: nat)
  {
    forall j' :: i <= j' < j ==> MatchAt(s, j').None?
  }

  /** Where the first capture from `i` starts. */
  lemma {:induction false} LeftmostMatch(s: string, i: nat) returns (j: nat)
    requires CapturesFrom(s, i) != []
    ensures i <= j < |s| && MatchAt(s, j) == Some(CapturesFrom(s, i)[0])
    ensures CapturesFrom(s, i)[1..] == CapturesFrom(s, CapturesFrom(s, i)[0].end)
    ensures NoMatchBetween(s, i, j)
    decreases |s| - i
  {
    CapturesFromStep(s, i);
    if MatchAt(s, i).Some? {
      j := i;
      ConsParts(CapturesFrom(s, i), MatchAt(s, i).value, CapturesFrom(s, MatchAt(s, i).value.end));
    } else {
      j := LeftmostMatch(s, i + 1);
      NoMatchBefore(s, i, j);
    }
  }

  /** A position that does not match extends a stretch without matches. */
  lemma NoMatchBefore(s: string, i: nat, j: nat)
    requires MatchAt(s, i).None? && NoMatchBetween(s, i + 1, j)
    ensures NoMatchBetween(s, i, j)
  {
  }

  /** The head and tail of a sequence built as one element before others. */
  lemma ConsParts<T>(r: seq<T>, c: T, rest: seq<T>)
    requires r == [c] + rest
    ensures r[0] == c && r[1..] == rest
  {
  }


  /** `Kill\sStreak:\d` at position `i` (one digit is enough for a match). */
  predicate KillStreakAt(s: string, i: nat)
  {
    i + 13 <= |s|
    && s[i] == 'K' && s[i + 1] == 'i' && s[i + 2] == 'l' && s[i + 3] == 'l'
    && IsWhitespace(s[i + 4])
    && s[i + 5] == 'S' && s[i + 6] == 't' && s[i + 7] == 'r' && s[i + 8] == 'e'
    && s[i + 9] == 'a' && s[i + 10] == 'k' && s[i + 11] == ':'
    && IsAsciiDigit(s[i + 12])
  }

  /** `KS_RE.is_match` from position `i` on: a match anywhere, case-sensitive. */
  function HasKillStreakFrom(s: string, i: nat): (r: bool)
    decreases |s| - i
    ensures r <==> exists k: nat :: i <= k && KillStreakAt(s, k)
  {
    if i + 13 > |s| then false
    else KillStreakAt(s, i) || HasKillStreakFrom(s, i + 1)
  }

  /** `KS_RE.is_match(event_name)`. */
  predicate IsKillstreakEvent(event: string)
  {
    HasKillStreakFrom(event, 0)
  }

  /** The killstreak test is a substring search that respects case: the PREC
      label `Kill Streak:5` passes, also inside longer text, while other casings
      and the DemoSupport spelling do not. */
  lemma KillstreakEventExamples()
    ensures IsKillstreakEvent("Kill Streak:5")
    ensures IsKillstreakEvent("Big Kill Streak:12!")
    ensures !IsKillstreakEvent("kill streak:5")
    ensures !IsKillstreakEvent("Killstreak")
    ensures !IsKillstreakEvent("Kill Streak:x")
  {
    assert KillStreakAt("Kill Streak:5", 0);
    assert KillStreakAt("Big Kill Streak:12!", 4);
    var x := "Kill Streak:x";
    assert forall k: nat :: KillStreakAt(x, k) ==> k == 0;
  }

  /** Lowering the end of the second group past positions where no `"\s?at`
      can follow changes nothing. */
  lemma {:induction false} TryDemoSkip(s: string, event: string, g2: nat, e2: nat, lo: nat)
    requires g2 <= lo <= e2 <= |s|
    requires forall k :: g2 <= k < e2 ==> s[k] != '\n'
    requires forall k :: lo < k <= e2 ==> !Closer(s, k)
    ensures TryDemo(s, event, g2, e2) == TryDemo(s, event, g2, lo)
    decreases e2
  {
    if e2 > lo {
      TryDemoSkip(s, event, g2, e2 - 1, lo);
    }
  }

  /** Lowering the end of the first group past positions not followed by
      `\s\("` changes nothing. */
  lemma {:induction false} TryEventSkip(s: string, g1: nat, e1: nat, lo: nat)
    requires g1 <= lo <= e1 <= |s|
    requires forall k :: g1 <= k < e1 ==> s[k] != '\n'
    requires forall k :: lo < k <= e1 ==> !Opener(s, k)
    ensures TryEvent(s, g1, e1) == TryEvent(s, g1, lo)
    decreases e1
  {
    if e1 > lo {
      TryEventSkip(s, g1, e1 - 1, lo);
    }
  }

  /** Where each piece of a line of the documented shape sits. */
  lemma WellFormedLineLayout(line: string, ts: string, event: string, demo: string, rest: string)
    requires line == "[" + ts + "] " + event + " (\"" + demo + "\" at" + rest
    ensures var t := 1 + |ts|; var g1 := t + 2; var sep := g1 + |event|;
      var g2 := sep + 3; var q := g2 + |demo|;
      && |line| == q + 4 + |rest|
      && line[0] == '[' && line[t] == ']' && line[t + 1] == ' '
      && (forall k :: 1 <= k < t ==> line[k] == ts[k - 1])
      && line[g1..sep] == event
      && line[sep] == ' ' && line[sep + 1] == '(' && line[sep + 2] == '"'
      && line[g2..q] == demo
      && line[q] == '"' && line[q + 1] == ' ' && line[q + 2] == 'a' && line[q + 3] == 't'
      && line[q + 4..] == rest
  {
  }

  /** After the timestamp of a line that ends at `n` (a line feed or the end of
      the text): the event runs from `g1` to `sep`, the demo name from `sep + 3`
      to `q`. The next line must not start with `(`, since `\s` also matches the
      line feed. */
  lemma MatchesLaidOutRest(s: string, g1: nat, sep: nat, q: nat, n: nat)
    requires g1 < sep && sep + 3 < q && q + 4 <= n <= |s|
    requires s[sep] == ' ' && s[sep + 1] == '(' && s[sep + 2] == '"'
    requires s[q] == '"' && s[q + 1] == ' ' && s[q + 2] == 'a' && s[q + 3] == 't'
    requires forall k :: g1 <= k < n ==> s[k] != '\n'
    requires forall k :: sep + 1 < k < n ==> s[k] != '('
    requires forall k :: q < k < n ==> s[k] != '"'
    requires n < |s| ==> s[n] == '\n' && (n + 1 < |s| ==> s[n + 1] != '(')
    ensures AfterTimestamp(s, g1) == Some(Capture(s[g1..sep], s[sep + 3..q], q + 4))
  {
    var g2 := sep + 3;
    assert LineEnd(s, g1) == n;
    assert LineEnd(s, g2) == n;
    forall k | sep < k <= n
      ensures !Opener(s, k)
    {
      if k + 1 < n {
        assert s[k + 1] != '(';
      }
    }
    TryEventSkip(s, g1, n, sep);
    assert Opener(s, sep);
    TryDemoSkip(s, s[g1..sep], g2, n, q);
    assert AtSuffix(s, q + 1) == Some(q + 4);
    assert Closer(s, q);
  }

  /** The match at `b` on a line that ends at `n`, stated over positions: a
      timestamp run from `b + 1` to `t`, then one space, the event from `t + 2` to
      `sep`, the demo name from `sep + 3` to `q`. */
  lemma MatchesLaidOutLine(s: string, b: nat, t: nat, sep: nat, q: nat, n: nat)
    requires b + 1 < t && t + 2 < sep && sep + 3 < q && q + 4 <= n <= |s|
    requires s[b] == '[' && s[t] == ']' && s[t + 1] == ' '
    requires forall k :: b + 1 <= k < t ==> IsTimestampChar(s[k])
    requires s[sep] == ' ' && s[sep + 1] == '(' && s[sep + 2] == '"'
    requires s[q] == '"' && s[q + 1] == ' ' && s[q + 2] == 'a' && s[q + 3] == 't'
    requires forall k :: t + 2 <= k < n ==> s[k] != '\n'
    requires forall k :: sep + 1 < k < n ==> s[k] != '('
    requires forall k :: q < k < n ==> s[k] != '"'
    requires n < |s| ==> s[n] == '\n' && (n + 1 < |s| ==> s[n + 1] != '(')
    ensures MatchAt(s, b) == Some(Capture(s[t + 2..sep], s[sep + 3..q], q + 4))
  {
    assert RunEnd(s, b + 1) == t;
    MatchesLaidOutRest(s, t + 2, sep, q, n);
    MatchAtStep(s, b);
  }

  /** Which characters a laid-out line avoids after its timestamp, given what its
      event, demo name and rest avoid. */
  lemma LaidOutLineChars(line: string, g1: nat, sep: nat, q: nat, event: string, demo: string, rest: string)
    requires g1 <= sep && sep + 3 <= q && q + 4 <= |line|
    requires line[g1..sep] == event && line[sep + 3..q] == demo && line[q + 4..] == rest
    requires line[sep] == ' ' && line[sep + 1] == '(' && line[sep + 2] == '"'
    requires line[q] == '"' && line[q + 1] == ' ' && line[q + 2] == 'a' && line[q + 3] == 't'
    requires NoNewline(event)
    requires NoNewline(demo) && '"' !in demo && '(' !in demo
    requires NoNewline(rest) && '"' !in rest && '(' !in rest
    ensures forall k :: g1 <= k < |line| ==> line[k] != '\n'
    ensures forall k :: sep + 1 < k < |line| ==> line[k] != '('
    ensures forall k :: q < k < |line| ==> line[k] != '"'
  {
    forall k | g1 <= k < |line|
      ensures line[k] != '\n'
      ensures sep + 1 < k ==> line[k] != '('
      ensures q < k ==> line[k] != '"'
    {
      if k < sep {
        assert line[k] == event[k - g1];
      } else if sep + 3 <= k < q {
        assert line[k] == demo[k - sep - 3];
      } else if q + 4 <= k {
        assert line[k] == rest[k - q - 4];
      }
    }
  }

  /** A log line of the documented shape
        `[<timestamp>] <event> ("<demo>" at<rest>`
      yields exactly its event and demo name, provided the demo name and the rest
      of the line hold no quote, no opening parenthesis and no line feed (the
      event itself may hold anything but a line feed). */
  lemma ExtractsWellFormedLine(ts: string, event: string, demo: string, rest: string)
    requires |ts| > 0 && forall k :: 0 <= k < |ts| ==> IsTimestampChar(ts[k])
    requires |event| > 0 && NoNewline(event)
    requires |demo| > 0 && NoNewline(demo) && '"' !in demo && '(' !in demo
    requires NoNewline(rest) && '"' !in rest && '(' !in rest
    ensures var line := "[" + ts + "] " + event + " (\"" + demo + "\" at" + rest;
      MatchAt(line, 0) == Some(Capture(event, demo, |line| - |rest|))
  {
    var line := "[" + ts + "] " + event + " (\"" + demo + "\" at" + rest;
    WellFormedLineLayout(line, ts, event, demo, rest);
    var t := 1 + |ts|;
    var g1 := t + 2;
    var sep := g1 + |event|;
    var g2 := sep + 3;
    var q := g2 + |demo|;
    LaidOutLineChars(line, g1, sep, q, event, demo, rest);
    MatchesLaidOutLine(line, 0, t, sep, q, |line|);
  }

  /** Text without `[` holds no match. */
  lemma {:induction false} NoBracketNoCaptures(s: string, i: nat)
    requires forall k :: i <= k < |s| ==> s[k] != '['
    ensures CapturesFrom(s, i) == []
    decreases |s| - i
  {
    if i < |s| {
      NoBracketNoCaptures(s, i + 1);
    }
  }

  /** A whole log of one such line, with no `[` after the name, gives that one
      capture. */
  lemma CapturesOfWellFormedLine(ts: string, event: string, demo: string, rest: string)
    requires |ts| > 0 && forall k :: 0 <= k < |ts| ==> IsTimestampChar(ts[k])
    requires |event| > 0 && NoNewline(event)
    requires |demo| > 0 && NoNewline(demo) && '"' !in demo && '(' !in demo
    requires NoNewline(rest) && '"' !in rest && '(' !in rest && '[' !in rest
    ensures var line := "[" + ts + "] " + event + " (\"" + demo + "\" at" + rest;
      Captures(line) == [Capture(event, demo, |line| - |rest|)]
  {
    var line := "[" + ts + "] " + event + " (\"" + demo + "\" at" + rest;
    ExtractsWellFormedLine(ts, event, demo, rest);
    var e := |line| - |rest|;
    assert line[e..] == rest;
    forall k | e <= k < |line|
      ensures line[k] != '['
    {
      assert line[k] == line[e..][k - e];
    }
    NoBracketNoCaptures(line, e);
  }

  /** The search passes over text without `[` and finds nothing in it. */
  lemma NoBracketSkip(s: string, i: nat, j: nat)
    requires i <= j <= |s|
    requires forall k :: i <= k < j ==> s[k] != '['
    ensures CapturesFrom(s, i) == CapturesFrom(s, j)
  {
    assert '[' !in s[i..j] by {
      forall k | 0 <= k < j - i ensures s[i..j][k] != '[' {
        assert s[i..j][k] == s[i + k];
      }
    }
    SkipSlice(s, i, j);
  }

  /** The search passes over a slice without `[`. */
  lemma {:induction false} SkipSlice(s: string, i: nat, j: nat)
    requires i <= j <= |s| && '[' !in s[i..j]
    ensures CapturesFrom(s, i) == CapturesFrom(s, j)
    decreases j - i
  {
    if i < j {
      assert s[i] == s[i..j][0];
      assert s[i + 1..j] == s[i..j][1..];
      SkipNonBracket(s, i);
      SkipSlice(s, i + 1, j);
    }
  }

  /** No match starts at a character other than `[`. */
  lemma SkipNonBracket(s: string, i: nat)
    requires i < |s| && s[i] != '['
    ensures CapturesFrom(s, i) == CapturesFrom(s, i + 1)
  {
    CapturesFromStep(s, i);
    MatchAtStep(s, i);
  }

  /** A line of the documented shape:
        `[<timestamp>] <event> ("<demo>" at<rest>`. */
  datatype LogLine = LogLine(stamp: string, event: string, demo: string, rest: string)
  {
    function Text(): string
    {
      "[" + stamp + "] " + event + " (\"" + demo + "\" at" + rest
    }

    /** A non-empty timestamp; an event without line feed; a demo name and rest
        without quote, opening parenthesis or line feed; no `[` in the rest. */
    predicate WellFormed()
    {
      && |stamp| > 0 && (forall k :: 0 <= k < |stamp| ==> IsTimestampChar(stamp[k]))
      && |event| > 0 && NoNewline(event)
      && |demo| > 0 && NoNewline(demo) && '"' !in demo && '(' !in demo
      && NoNewline(rest) && '"' !in rest && '(' !in rest && '[' !in rest
    }
  }

  /** Where the pieces of a line sit: the timestamp from 1 to `t`, the event from
      `t + 2` to `sep`, the demo name from `sep + 3` to `q`, and after `q + 4`
      no line feed, `(`, `"` or `[`. */
  predicate LaidOut(text: string, t: nat, sep: nat, q: nat)
  {
    && 1 < t && t + 2 < sep && sep + 3 < q && q + 4 <= |text|
    && text[0] == '[' && text[t] == ']' && text[t + 1] == ' '
    && (forall k :: 1 <= k < t ==> IsTimestampChar(text[k]))
    && text[sep] == ' ' && text[sep + 1] == '(' && text[sep + 2] == '"'
    && text[q] == '"' && text[q + 1] == ' ' && text[q + 2] == 'a' && text[q + 3] == 't'
    && (forall k :: t + 2 <= k < |text| ==> text[k] != '\n')
    && (forall k :: sep + 1 < k < |text| ==> text[k] != '(')
    && (forall k :: q < k < |text| ==> text[k] != '"')
    && (forall k :: q + 4 <= k < |text| ==> text[k] != '[')
  }

  /** The layout of a well-formed line. */
  lemma LineLaidOut(line: LogLine)
    requires line.WellFormed()
    ensures var t := 1 + |line.stamp|; var sep := t + 2 + |line.event|; var q := sep + 3 + |line.demo|;
      && LaidOut(line.Text(), t, sep, q)
      && line.Text()[t + 2..sep] == line.event && line.Text()[sep + 3..q] == line.demo
      && |line.Text()| == q + 4 + |line.rest|
  {
    var text := line.Text();
    WellFormedLineLayout(text, line.stamp, line.event, line.demo, line.rest);
    var t := 1 + |line.stamp|;
    var g1 := t + 2;
    var sep := g1 + |line.event|;
    var q := sep + 3 + |line.demo|;
    LaidOutLineChars(text, g1, sep, q, line.event, line.demo, line.rest);
    forall k | 1 <= k < t
      ensures IsTimestampChar(text[k])
    {
      assert text[k] == line.stamp[k - 1];
    }
    forall k | q + 4 <= k < |text|
      ensures text[k] != '['
    {
      assert text[k] == line.rest[k - q - 4];
    }
  }

  /** Where the line ends when it starts at `b`: `b + |line.Text()|`. */
  function EndOf(b: nat, line: LogLine): nat
  {
    b + 1 + |line.stamp| + 2 + |line.event| + 3 + |line.demo| + 4 + |line.rest|
  }

  /** `line` sits at position `b` of `s`: its text is there, and it ends at
      the end of `s` or at a line feed not followed by `(`. */
  predicate LineAt(s: string, b: nat, line: LogLine)
  {
    var n := EndOf(b, line);
    && line.WellFormed() && n <= |s| && s[b..n] == line.Text()
    && (n < |s| ==> s[n] == '\n' && (n + 1 < |s| ==> s[n + 1] != '('))
  }

  /** A well-formed line written at `b`, followed by a line feed and text that
      does not start with `(`, sits at `b`. */
  lemma TextLineAt(s: string, b: nat, line: LogLine, more: string)
    requires line.WellFormed()
    requires |more| == 0 || more[0] != '('
    requires b <= |s| && s[b..] == line.Text() + "\n" + more
    ensures LineAt(s, b, line)
    ensures EndOf(b, line) < |s| && s[EndOf(b, line) + 1..] == more
  {
    TextLength(line);
    FeedSplit(s, b, line.Text(), more);
  }

  /** Text, a line feed and more text, found at `b`, split into their parts. */
  lemma FeedSplit(s: string, b: nat, text: string, more: string)
    requires b <= |s| && s[b..] == text + "\n" + more
    ensures b + |text| < |s| && s[b..b + |text|] == text && s[b + |text|] == '\n'
    ensures s[b + |text| + 1..] == more
    ensures b + |text| + 1 < |s| ==> s[b + |text| + 1] == more[0]
  {
    assert s[b..b + |text|] == s[b..][..|text|];
    assert s[b + |text|] == s[b..][|text|];
    assert s[b + |text| + 1..] == s[b..][|text| + 1..];
  }

  /** The layout of a text found at `b` of `s`, restated over positions of `s`. */
  lemma TransferLaidOut(s: string, b: nat, text: string, t: nat, sep: nat, q: nat)
    requires LaidOut(text, t, sep, q)
    requires b + |text| <= |s| && s[b..b + |text|] == text
    ensures s[b] == '[' && s[b + t] == ']' && s[b + t + 1] == ' '
    ensures forall k :: b + 1 <= k < b + t ==> IsTimestampChar(s[k])
    ensures s[b + t + 2..b + sep] == text[t + 2..sep] && s[b + sep + 3..b + q] == text[sep + 3..q]
    ensures s[b + sep] == ' ' && s[b + sep + 1] == '(' && s[b + sep + 2] == '"'
    ensures s[b + q] == '"' && s[b + q + 1] == ' ' && s[b + q + 2] == 'a' && s[b + q + 3] == 't'
    ensures forall k :: b + t + 2 <= k < b + |text| ==> s[k] != '\n'
    ensures forall k :: b + sep + 1 < k < b + |text| ==> s[k] != '('
    ensures forall k :: b + q < k < b + |text| ==> s[k] != '"'
    ensures forall k :: b + q + 4 <= k < b + |text| ==> s[k] != '['
  {
    assert forall k :: b <= k < b + |text| ==> s[k] == text[k - b];
  }

  /** A line at `b` gives the match at `b`, with its event and demo name, and the
      search goes on from the next line. */
  lemma CapturesOfLineAt(s: string, b: nat, line: LogLine)
    requires LineAt(s, b, line)
    ensures var n := EndOf(b, line);
      CapturesFrom(s, b) == [Capture(line.event, line.demo, n - |line.rest|)] + CapturesFrom(s, n + 1)
  {
    var n := EndOf(b, line);
    LineAtMatch(s, b, line);
    FirstCaptureThenNext(s, b, Capture(line.event, line.demo, n - |line.rest|), n);
  }

  /** A line at `b` matches there, with its event and demo name; its end is the
      end of `s` or a line feed, and no `[` follows the match before it. */
  lemma LineAtMatch(s: string, b: nat, line: LogLine)
    requires LineAt(s, b, line)
    ensures var n := EndOf(b, line);
      && b < |s| && |line.rest| <= n - b && n <= |s|
      && MatchAt(s, b) == Some(Capture(line.event, line.demo, n - |line.rest|))
      && (n < |s| ==> s[n] == '\n')
      && forall k :: n - |line.rest| <= k < n ==> s[k] != '['
  {
    LineAtLaidOut(s, b, line);
    LaidOutMatch(s, b, line);
  }

  /** The pieces of `line` laid out from `b` in `s`, stated position by position,
      up to its end, which is the end of `s` or a line feed not followed by `(`. */
  predicate LaidOutAt(s: string, b: nat, line: LogLine)
  {
    var t := b + 1 + |line.stamp|;
    var sep := t + 2 + |line.event|;
    var q := sep + 3 + |line.demo|;
    var n := EndOf(b, line);
    && 0 < |line.stamp| && 0 < |line.event| && 0 < |line.demo| && n <= |s|
    && s[b] == '[' && s[t] == ']' && s[t + 1] == ' '
    && (forall k :: b + 1 <= k < t ==> IsTimestampChar(s[k]))
    && s[t + 2..sep] == line.event && s[sep + 3..q] == line.demo
    && s[sep] == ' ' && s[sep + 1] == '(' && s[sep + 2] == '"'
    && s[q] == '"' && s[q + 1] == ' ' && s[q + 2] == 'a' && s[q + 3] == 't'
    && (forall k :: t + 2 <= k < n ==> s[k] != '\n')
    && (forall k :: sep + 1 < k < n ==> s[k] != '(')
    && (forall k :: q < k < n ==> s[k] != '"')
    && (forall k :: q + 4 <= k < n ==> s[k] != '[')
    && (n < |s| ==> s[n] == '\n' && (n + 1 < |s| ==> s[n + 1] != '('))
  }

  /** A line laid out at `b` matches there, with its event and demo name, and
      no `[` follows the match before the line's end. */
  lemma LaidOutMatch(s: string, b: nat, line: LogLine)
    requires LaidOutAt(s, b, line)
    ensures var n := EndOf(b, line);
      && b < |s| && |line.rest| <= n - b && n <= |s|
      && MatchAt(s, b) == Some(Capture(line.event, line.demo, n - |line.rest|))
      && (n < |s| ==> s[n] == '\n')
      && forall k :: n - |line.rest| <= k < n ==> s[k] != '['
  {
    var t := b + 1 + |line.stamp|;
    var sep := t + 2 + |line.event|;
    var q := sep + 3 + |line.demo|;
    MatchesLaidOutLine(s, b, t, sep, q, EndOf(b, line));
  }

  /** The layout of a line at `b`, restated over positions of `s`. */
  lemma LineAtLaidOut(s: string, b: nat, line: LogLine)
    requires LineAt(s, b, line)
    ensures LaidOutAt(s, b, line)
  {
    var text := line.Text();
    TextLength(line);
    LineLaidOut(line);
    TransferLaidOut(s, b, text, 1 + |line.stamp|, 1 + |line.stamp| + 2 + |line.event|,
                    1 + |line.stamp| + 2 + |line.event| + 3 + |line.demo|);
  }

  /** A match `c` at `b`, with no `[` from its end up to `n`: the search from `b`
      takes `c` and goes on from `n`. */
  lemma FirstCaptureThenFrom(s: string, b: nat, c: Capture, n: nat)
    requires b < |s| && MatchAt(s, b) == Some(c)
    requires c.end <= n <= |s|
    requires forall k :: c.end <= k < n ==> s[k] != '['
    ensures CapturesFrom(s, b) == [c] + CapturesFrom(s, n)
  {
    CapturesFromStep(s, b);
    NoBracketSkip(s, c.end, n);
  }

  /** A match `c` at `b`, with no `[` from its end up to `n`, which is the end of
      `s` or a line feed: the search from `b` takes `c` and goes on after `n`. */
  lemma FirstCaptureThenNext(s: string, b: nat, c: Capture, n: nat)
    requires b < |s| && MatchAt(s, b) == Some(c)
    requires c.end <= n <= |s| && (n < |s| ==> s[n] == '\n')
    requires forall k :: c.end <= k < n ==> s[k] != '['
    ensures CapturesFrom(s, b) == [c] + CapturesFrom(s, n + 1)
  {
    if n < |s| {
      FirstCaptureThenFrom(s, b, c, n + 1);
    } else {
      FirstCaptureThenFrom(s, b, c, n);
    }
  }

  /** The length of a line's text. */
  lemma TextLength(line: LogLine)
    ensures |line.Text()| == EndOf(0, line)
  {
  }

  /** A log: lines, each followed by a line feed. */
  function Log(lines: seq<LogLine>): string
  {
    if lines == [] then "" else lines[0].Text() + "\n" + Log(lines[1..])
  }

  /** The lines sit one after another from `b`, each followed by a line feed, up
      to the end of `s`. */
  predicate LinesAt(s: string, b: nat, lines: seq<LogLine>)
    decreases |lines|
  {
    if lines == [] then b == |s|
    else LineAt(s, b, lines[0]) && EndOf(b, lines[0]) < |s| && LinesAt(s, EndOf(b, lines[0]) + 1, lines[1..])
  }

  /** A non-empty log starts with the `[` of its first line. */
  lemma LogStartsWithBracket(lines: seq<LogLine>)
    requires lines != []
    ensures |Log(lines)| > 0 && Log(lines)[0] == '['
  {
  }

  /** The first line of a log found at `b` sits at `b`; the rest of the log
      follows its line feed. */
  lemma LogHeadAt(s: string, b: nat, lines: seq<LogLine>) returns (n: nat)
    requires lines != [] && lines[0].WellFormed()
    requires b <= |s| && s[b..] == Log(lines)
    ensures LineAt(s, b, lines[0]) && n == EndOf(b, lines[0])
    ensures n < |s| && s[n + 1..] == Log(lines[1..])
  {
    if lines[1..] != [] {
      LogStartsWithBracket(lines[1..]);
    }
    TextLineAt(s, b, lines[0], Log(lines[1..]));
    n := EndOf(b, lines[0]);
  }

  /** A log of well-formed lines, found at `b`, has its lines there. */
  lemma {:induction false} LogLinesAt(s: string, b: nat, lines: seq<LogLine>)
    requires b <= |s| && s[b..] == Log(lines)
    requires AllWellFormed(lines)
    ensures LinesAt(s, b, lines)
    decreases |lines|
  {
    if lines != [] {
      AllWellFormedTail(lines);
      var n := LogHeadAt(s, b, lines);
      LogLinesAt(s, n + 1, lines[1..]);
      LinesAtCons(s, b, lines, n);
    }
  }

  /** Every line is well formed. */
  predicate AllWellFormed(lines: seq<LogLine>)
  {
    forall k :: 0 <= k < |lines| ==> lines[k].WellFormed()
  }

  lemma AllWellFormedTail(lines: seq<LogLine>)
    requires lines != [] && AllWellFormed(lines)
    ensures lines[0].WellFormed() && AllWellFormed(lines[1..])
  {
    assert forall k :: 0 <= k < |lines| - 1 ==> lines[1..][k] == lines[k + 1];
  }

  /** The first line at `b` and the others after its line feed. */
  lemma LinesAtCons(s: string, b: nat, lines: seq<LogLine>, n: nat)
    requires lines != [] && LineAt(s, b, lines[0]) && n == EndOf(b, lines[0])
    requires n < |s| && LinesAt(s, n + 1, lines[1..])
    ensures LinesAt(s, b, lines)
  {
  }

  /** One capture per line, in order, with that line's event and demo name. */
  predicate OneCapturePerLine(cs: seq<Capture>, lines: seq<LogLine>)
  {
    && |cs| == |lines|
    && forall k :: 0 <= k < |lines| ==> cs[k].event == lines[k].event && cs[k].demo == lines[k].demo
  }

  /** A line at `b` gives a capture with its event and demo name, followed by
      the captures after its line feed. */
  lemma LineAtStep(s: string, b: nat, line: LogLine) returns (c: Capture)
    requires LineAt(s, b, line)
    ensures c.event == line.event && c.demo == line.demo
    ensures CapturesFrom(s, b) == [c] + CapturesFrom(s, EndOf(b, line) + 1)
  {
    c := Capture(line.event, line.demo, EndOf(b, line) - |line.rest|);
    CapturesOfLineAt(s, b, line);
  }

  /** The first of the lines at `b` gives the first capture from `b`; the
      others sit after its line feed. */
  lemma LinesAtStep(s: string, b: nat, lines: seq<LogLine>) returns (n: nat, c: Capture)
    requires lines != [] && LinesAt(s, b, lines)
    ensures c.event == lines[0].event && c.demo == lines[0].demo
    ensures CapturesFrom(s, b) == [c] + CapturesFrom(s, n + 1)
    ensures LinesAt(s, n + 1, lines[1..])
  {
    n := EndOf(b, lines[0]);
    c := LineAtStep(s, b, lines[0]);
  }

  /** Lines one after another from `b` yield one capture each, in order, with
      each line's event and demo name. */
  lemma {:induction false} CapturesOfLinesAt(s: string, b: nat, lines: seq<LogLine>)
    requires LinesAt(s, b, lines)
    ensures OneCapturePerLine(CapturesFrom(s, b), lines)
    decreases |lines|
  {
    if lines == [] {
      NoLinesNoCaptures(s, b);
    } else {
      var n, c := LinesAtStep(s, b, lines);
      CapturesOfLinesAt(s, n + 1, lines[1..]);
      CapturesPerLine(CapturesFrom(s, b), c, CapturesFrom(s, n + 1), lines);
    }
  }

  /** No lines from `b` means `b` is the end of `s`, where the search finds
      nothing. */
  lemma NoLinesNoCaptures(s: string, b: nat)
    requires LinesAt(s, b, [])
    ensures CapturesFrom(s, b) == []
  {
  }

  /** One capture per line, given the first and those of the other lines. */
  lemma CapturesPerLine(cs: seq<Capture>, c: Capture, rest: seq<Capture>, lines: seq<LogLine>)
    requires lines != [] && cs == [c] + rest
    requires c.event == lines[0].event && c.demo == lines[0].demo
    requires OneCapturePerLine(rest, lines[1..])
    ensures OneCapturePerLine(cs, lines)
  {
    forall k | 0 < k < |lines|
      ensures cs[k].event == lines[k].event && cs[k].demo == lines[k].demo
    {
      assert cs[k] == rest[k - 1];
      assert lines[1..][k - 1] == lines[k];
    }
  }

  /** A log of well-formed lines (`KillStreaks.txt`) yields one capture per line,
      in order, with each line's event and demo name. */
  lemma CapturesOfLog(lines: seq<LogLine>)
    requires forall k :: 0 <= k < |lines| ==> lines[k].WellFormed()
    ensures |Captures(Log(lines))| == |lines|
    ensures forall k :: 0 <= k < |lines| ==>
      Captures(Log(lines))[k].event == lines[k].event && Captures(Log(lines))[k].demo == lines[k].demo
  {
    var s := Log(lines);
    assert s[0..] == s;
    assert AllWellFormed(lines);
    LogLinesAt(s, 0, lines);
    CapturesOfLinesAt(s, 0, lines);
  }

  /** The pieces of the log line quoted in `src/prec.rs`. */
  const ExampleStamp: string := "2023/11/27/ 22:01"
  const ExampleEvent: string := "Kill Streak:5"
  const ExampleDemo: string := "20231127_2152_cp_altitude_RED_BLU"
  const ExampleRest: string := " 32900)"

  lemma ExampleStampChars()
    ensures forall k :: 0 <= k < |ExampleStamp| ==> IsTimestampChar(ExampleStamp[k])
  {
    forall k | 0 <= k < |ExampleStamp| ensures IsTimestampChar(ExampleStamp[k]) { }
  }

  lemma ExampleDemoPlain()
    ensures NoNewline(ExampleDemo) && '"' !in ExampleDemo && '(' !in ExampleDemo
  {
    forall k | 0 <= k < |ExampleDemo|
      ensures ExampleDemo[k] != '\n' && ExampleDemo[k] != '"' && ExampleDemo[k] != '('
    {
    }
  }

  lemma ExampleRestPlain()
    ensures NoNewline(ExampleEvent)
    ensures NoNewline(ExampleRest) && '"' !in ExampleRest && '(' !in ExampleRest && '[' !in ExampleRest
  {
  }

  /** The line quoted in `src/prec.rs`, put together from its pieces, gives the
      event `Kill Streak:5` for the demo `20231127_2152_cp_altitude_RED_BLU`, and
      that event passes the killstreak test. */
  lemma SourceExampleLine()
    ensures Captures("[" + ExampleStamp + "] " + ExampleEvent + " (\""
                     + ExampleDemo + "\" at" + ExampleRest)
            == [Capture(ExampleEvent, ExampleDemo, 73)]
    ensures IsKillstreakEvent(ExampleEvent)
  {
    ExampleStampChars();
    ExampleDemoPlain();
    ExampleRestPlain();
    CapturesOfWellFormedLine(ExampleStamp, ExampleEvent, ExampleDemo, ExampleRest);
    KillstreakEventExamples();
  }
}
