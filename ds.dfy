/** `src/ds.rs`: the DemoSupport collector. Each demo `x.dem` may have a sidecar
    `x.json` whose `"name"` entries label its events. */
module DemoSupportCollector {
  import opened Wrappers
  import opened Text
  import opened Paths
  import opened Util
  import opened Policy
  import opened Files

  /** A sidecar with no events, once whitespace is gone. */
  const EmptyEvents: string := "{\"events\":[]}"

  /** What the event regex requires before a label on whitespace-free text: the
      optional whitespace after the colon can match nothing there. */
  const NameKey: string := "\"name\":\""

  /** What the regex requires after a label. */
  const Close: string := "\","

  /** `NameKey` starts at `i`, told character by character. */
  predicate KeyAt(s: string, i: nat)
  {
    i + |NameKey| <= |s|
    && s[i] == '"' && s[i + 1] == 'n' && s[i + 2] == 'a' && s[i + 3] == 'm'
    && s[i + 4] == 'e' && s[i + 5] == '"' && s[i + 6] == ':' && s[i + 7] == '"'
  }

  lemma KeyAtIsSlice(s: string, i: nat)
    requires i + |NameKey| <= |s|
    ensures KeyAt(s, i) <==> s[i..i + |NameKey|] == NameKey
  {
    var k := s[i..i + |NameKey|];
    assert s[i] == k[0] && s[i + 1] == k[1] && s[i + 2] == k[2] && s[i + 3] == k[3];
    assert s[i + 4] == k[4] && s[i + 5] == k[5] && s[i + 6] == k[6] && s[i + 7] == k[7];
    if KeyAt(s, i) {
      assert forall m :: 0 <= m < |NameKey| ==> k[m] == NameKey[m];
    }
  }

  predicate CloseAt(s: string, j: nat)
  {
    j + 2 <= |s| && s[j] == '"' && s[j + 1] == ','
  }

  ghost predicate ContainsClose(s: string)
  {
    exists j: nat :: CloseAt(s, j)
  }

  /** `t` occurs in `s` at position `p`. */
  predicate OccursAt(t: string, s: string, p: nat)
  {
    p + |t| <= |s| && s[p..p + |t|] == t
  }

  /** The first `",` at or after `from`. */
  function FindClose(s: string, from: nat): (r: Option<nat>)
    decreases |s| - from
    ensures r.Some? ==> from <= r.value && CloseAt(s, r.value)
    ensures r.Some? ==> forall j: nat :: from <= j < r.value ==> !CloseAt(s, j)
    ensures r.None? ==> forall j: nat :: from <= j ==> !CloseAt(s, j)
  {
    if from + 2 > |s| then None
    else if CloseAt(s, from) then Some(from)
    else FindClose(s, from + 1)
  }

  /** The captures of `"name":\s?+"(.*?)",` from position `i` on, on text that has
      no whitespace: the leftmost `"name":"`, the shortest text up to the next
      `",`, and the search resumes after that `",`. */
  function LabelsFrom(s: string, i: nat): seq<string>
    decreases |s| - i
  {
    if i + |NameKey| > |s| then []
    else if KeyAt(s, i) then
      match FindClose(s, i + |NameKey|)
      case Some(j) => [s[i + |NameKey|..j]] + LabelsFrom(s, j + 2)
      case None => LabelsFrom(s, i + 1)
    else LabelsFrom(s, i + 1)
  }

  function Labels(s: string): seq<string>
  {
    LabelsFrom(s, 0)
  }

  /** Each label sits in the text between `"name":"` and `",`, and holds no `",`
      itself: it is the shortest such text. */
  lemma {:induction false} LabelsFromShape(s: string, i: nat, k: nat)
    requires k < |LabelsFrom(s, i)|
    ensures exists p: nat :: EntryAt(s, p, LabelsFrom(s, i)[k])
    ensures !ContainsClose(LabelsFrom(s, i)[k])
    decreases |s| - i
  {
    var n := |NameKey|;
    if KeyAt(s, i) && FindClose(s, i + n).Some? {
      var j := FindClose(s, i + n).value;
      LabelsFromMatch(s, i, j);
      if k == 0 {
        assert LabelsFrom(s, i)[0] == s[i + n..j];
        FirstLabelShape(s, i, j);
      } else {
        LabelsFromShape(s, j + 2, k - 1);
        assert LabelsFrom(s, i)[k] == LabelsFrom(s, j + 2)[k - 1];
      }
    } else {
      LabelsFromSkip(s, i);
      LabelsFromShape(s, i + 1, k);
    }
  }

  /** The label a match cuts out lies between the key and the close, and holds
      no close itself. */
  lemma FirstLabelShape(s: string, i: nat, j: nat)
    requires KeyAt(s, i) && FindClose(s, i + |NameKey|) == Some(j)
    ensures EntryAt(s, i, s[i + |NameKey|..j])
    ensures !ContainsClose(s[i + |NameKey|..j])
  {
    var n := |NameKey|;
    var l := s[i + n..j];
    forall m: nat | m + 2 <= |l|
      ensures !CloseAt(l, m)
    {
      assert !CloseAt(s, i + n + m);
      assert l[m] == s[i + n + m] && l[m + 1] == s[i + n + m + 1];
    }
  }

  /** Where no match starts, the scan moves on by one character. */
  lemma LabelsFromSkip(s: string, i: nat)
    requires !KeyAt(s, i) || FindClose(s, i + |NameKey|).None?
    ensures LabelsFrom(s, i) == LabelsFrom(s, i + 1)
  {
  }

  /** Labels are cut from whitespace-free text, so they hold no whitespace. */
  lemma LabelsOfWhitespaceFree(s: string)
    requires HasNoWhitespace(s)
    ensures forall k :: 0 <= k < |Labels(s)| ==> HasNoWhitespace(Labels(s)[k])
  {
    forall k | 0 <= k < |Labels(s)|
      ensures HasNoWhitespace(Labels(s)[k])
    {
      var l := Labels(s)[k];
      LabelsFromShape(s, 0, k);
      var p: nat :| EntryAt(s, p, l);
      forall m | 0 <= m < |l|
        ensures !IsWhitespace(l[m])
      {
        assert s[p + |NameKey| + m] == l[m];
      }
    }
  }

  /** `eq_ignore_ascii_case("killstreak")`. */
  predicate IsKillstreakLabel(name: string)
  {
    EqIgnoreAsciiCase(name, "killstreak")
  }

  /** The label set the policy sees: none for the empty-events literal, otherwise
      the extracted labels (possibly none at all). */
  function DsEvents(stripped: string): Option<set<string>>
  {
    if stripped == EmptyEvents then None else Some(set l | l in Labels(stripped))
  }

  /** The decision `should_include_demo` reaches on a sidecar's text. */
  function DsDecision(content: string, filterKsOnly: bool): (d: Decision)
    ensures Strip(content) == EmptyEvents ==> d == Decision(true, NoEvents)
    ensures Strip(content) != EmptyEvents && !filterKsOnly ==> d == Decision(false, HasEvents)
  {
    Decide(DsEvents(Strip(content)), filterKsOnly, IsKillstreakLabel)
  }

  /** With the flag set, a sidecar that is not the empty literal is kept exactly
      when every extracted label is `killstreak` in some ASCII casing; with no
      labels at all the demo is kept too. Otherwise it has a custom bookmark. */
  lemma DsKillstreakFilter(content: string)
    requires Strip(content) != EmptyEvents
    ensures var labels := Labels(Strip(content));
      DsDecision(content, true) ==
        if forall k :: 0 <= k < |labels| ==> IsKillstreakLabel(labels[k])
        then Decision(true, OnlyKillstreaks)
        else Decision(false, HasCustomBookmark)
  {
    var labels := Labels(Strip(content));
    AllKillstreaksOfLabels(labels);
    assert DsEvents(Strip(content)) == Some(set l | l in labels);
  }

  lemma AllKillstreaksOfLabels(labels: seq<string>)
    ensures AllKillstreaks((set l | l in labels), IsKillstreakLabel)
            <==> forall k :: 0 <= k < |labels| ==> IsKillstreakLabel(labels[k])
  {
    if forall k :: 0 <= k < |labels| ==> IsKillstreakLabel(labels[k]) {
      forall l | l in (set l | l in labels)
        ensures IsKillstreakLabel(l)
      {
        var k :| 0 <= k < |labels| && labels[k] == l;
      }
    }
  }

  /** `content.retain(|c| !c.is_whitespace())` on the string's buffer: the kept
      characters move to the front, in order; the new length is returned. */
  method RetainNonWhitespace(buf: array<char>) returns (len: nat)
    modifies buf
    ensures len <= buf.Length
    ensures buf[..len] == Strip(old(buf[..]))
  {
    ghost var orig := buf[..];
    var read := 0;
    len := 0;
    while read < buf.Length
      invariant len <= read <= buf.Length
      invariant buf[..len] == Strip(orig[..read])
      invariant forall k :: read <= k < buf.Length ==> buf[k] == orig[k]
    {
      var c := buf[read];
      StripPrefixStep(orig, read);
      if !IsWhitespace(c) {
        ghost var kept := buf[..len];
        buf[len] := c;
        assert buf[..len + 1] == kept + [c];
        len := len + 1;
      }
      read := read + 1;
    }
    assert orig[..read] == orig;
  }

  /** The loop over the captures: stops at the first label that is not a
      killstreak. */
  method OnlyKillstreakLabels(labels: seq<string>) returns (ok: bool)
    ensures ok <==> forall k :: 0 <= k < |labels| ==> IsKillstreakLabel(labels[k])
  {
    var k := 0;
    while k < |labels|
      invariant k <= |labels|
      invariant forall m :: 0 <= m < k ==> IsKillstreakLabel(labels[m])
    {
      if !IsKillstreakLabel(labels[k]) {
        return false;
      }
      k := k + 1;
    }
    return true;
  }

  /** `should_include_demo`: strips the text in place, then decides. The loop
      returns at the first label that is not a killstreak. */
  method ShouldIncludeDemo(content: array<char>, filterKsOnly: bool) returns (len: nat, d: Decision)
    modifies content
    ensures len <= content.Length
    ensures content[..len] == Strip(old(content[..]))
    ensures d == DsDecision(old(content[..]), filterKsOnly)
  {
    ghost var orig := content[..];
    len := RetainNonWhitespace(content);
    var text := content[..len];
    assert text == Strip(orig);
    if text == EmptyEvents {
      return len, Decision(true, NoEvents);
    }
    if filterKsOnly {
      var onlyKillstreaks := OnlyKillstreakLabels(Labels(text));
      DsKillstreakFilter(orig);
      if !onlyKillstreaks {
        return len, Decision(false, HasCustomBookmark);
      }
      return len, Decision(true, OnlyKillstreaks);
    }
    return len, Decision(false, HasEvents);
  }

  /** The decision for a demo whose sidecar exists: a failed read drops it. */
  function SidecarDecision(fs: FileSystem, json: Path, filterKsOnly: bool): (d: Decision)
    ensures fs.ReadToString(json).Err? ==> d == Decision(false, ReadFailed)
    ensures fs.ReadToString(json).Ok? ==> d == DsDecision(fs.contents[json], filterKsOnly)
    ensures d.keep <==> d.reason == NoEvents || d.reason == OnlyKillstreaks
  {
    match fs.ReadToString(json)
    case Ok(text) => DsDecision(text, filterKsOnly)
    case Err(_) => Decision(false, ReadFailed)
  }

  /** What one directory entry contributes: nothing unless it is a demo with a
      sidecar that the policy keeps. */
  function DsEntry(fs: FileSystem, entry: Path, filterKsOnly: bool): (r: Option<IncludedDemo>)
    ensures r.Some? <==>
      IsDemo(Extension(entry)) && fs.Exists(WithExtension(entry, "json"))
      && SidecarDecision(fs, WithExtension(entry, "json"), filterKsOnly).keep
    ensures r.Some? ==>
      r.value == IncludedDemo(SidecarDecision(fs, WithExtension(entry, "json"), filterKsOnly).reason,
                              entry, Some(WithExtension(entry, "json")), DemoSupport)
  {
    if !IsDemo(Extension(entry)) then None
    else
      var json := WithExtension(entry, "json");
      if !fs.Exists(json) then None
      else
        var d := SidecarDecision(fs, json, filterKsOnly);
        if d.keep then Some(IncludedDemo(d.reason, entry, Some(json), DemoSupport)) else None
  }

  /** The records the walk appends, in listing order. */
  function DsCollected(fs: FileSystem, entries: seq<Path>, filterKsOnly: bool): seq<IncludedDemo>
  {
    Gathered(entries, e => DsEntry(fs, e, filterKsOnly))
  }

  /** The whole collection: the walk's records, or the error of `read_dir`. */
  function DsResult(fs: FileSystem, demosDir: Path, filterKsOnly: bool): Result<seq<IncludedDemo>, Error>
  {
    match fs.ReadDir(demosDir)
    case Ok(entries) => Ok(DsCollected(fs, entries, filterKsOnly))
    case Err(e) => Err(e)
  }

  /** Every collected record is a `.dem` entry of the listing whose sidecar exists
      and was kept (empty, or only killstreaks), tagged `demosupport`, with the
      sidecar's path as its events path. */
  lemma DsCollectedRecords(fs: FileSystem, entries: seq<Path>, filterKsOnly: bool)
    ensures forall r :: r in DsCollected(fs, entries, filterKsOnly) ==>
      r.demoPath in entries && IsDemo(Extension(r.demoPath))
      && r.eventsJsonPath == Some(WithExtension(r.demoPath, "json"))
      && fs.Exists(WithExtension(r.demoPath, "json"))
      && r.id == DemoSupport
      && (r.inclusionReason == NoEvents || r.inclusionReason == OnlyKillstreaks)
  {
    GatheredMembers(entries, e => DsEntry(fs, e, filterKsOnly));
    forall r | r in DsCollected(fs, entries, filterKsOnly)
      ensures r.demoPath in entries && DsEntry(fs, r.demoPath, filterKsOnly) == Some(r)
    {
      var k :| 0 <= k < |entries| && DsEntry(fs, entries[k], filterKsOnly) == Some(r);
    }
  }

  /** Without the flag, only demos whose sidecar is the empty event list are kept. */
  lemma DsDefaultKeepsEmptySidecars(fs: FileSystem, entries: seq<Path>)
    ensures forall r :: r in DsCollected(fs, entries, false) ==>
      r.inclusionReason == NoEvents
      && WithExtension(r.demoPath, "json") in fs.contents
      && Strip(fs.contents[WithExtension(r.demoPath, "json")]) == EmptyEvents
  {
    GatheredMembers(entries, e => DsEntry(fs, e, false));
    forall r | r in DsCollected(fs, entries, false)
      ensures r.inclusionReason == NoEvents
      ensures WithExtension(r.demoPath, "json") in fs.contents
      ensures Strip(fs.contents[WithExtension(r.demoPath, "json")]) == EmptyEvents
    {
      var k :| 0 <= k < |entries| && DsEntry(fs, entries[k], false) == Some(r);
    }
  }

  /** The body of the walk for one entry: skip what is not a demo or has no
      sidecar; read the sidecar and decide; build the record of a kept demo. */
  method VisitEntry(fs: FileSystem, entry: Path, filterKsOnly: bool) returns (r: Option<IncludedDemo>)
    ensures r == DsEntry(fs, entry, filterKsOnly)
  {
    if !IsDemo(Extension(entry)) {
      return None;
    }
    var json := WithExtension(entry, "json");
    if !fs.Exists(json) {
      return None;
    }
    var d: Decision;
    var read := fs.ReadToString(json);
    if read.Ok? {
      var text := read.value;
      var content := new char[|text|](i requires 0 <= i < |text| => text[i]);
      assert content[..] == text;
      var len;
      len, d := ShouldIncludeDemo(content, filterKsOnly);
    } else {
      d := Decision(false, ReadFailed);
    }
    if !d.keep {
      return None;
    }
    return Some(IncludedDemo(d.reason, entry, Some(json), DemoSupport));
  }

  /** `collect_ds_demos`: appends to `included` the records of the kept demos,
      leaving what was there; an unreadable directory appends nothing. */
  method CollectDsDemos(fs: FileSystem, demosDir: Path, filterKsOnly: bool, included: seq<IncludedDemo>)
    returns (res: Outcome, out: seq<IncludedDemo>)
    ensures DsResult(fs, demosDir, filterKsOnly).Err? ==>
      res == Failed(DsResult(fs, demosDir, filterKsOnly).error) && out == included
    ensures DsResult(fs, demosDir, filterKsOnly).Ok? ==>
      res == Done && out == included + DsResult(fs, demosDir, filterKsOnly).value
  {
    var listing := fs.ReadDir(demosDir);
    if listing.Err? {
      return Failed(listing.error), included;
    }
    var entries := listing.value;
    out := included;
    var n := 0;
    while n < |entries|
      invariant n <= |entries|
      invariant out == included + DsCollected(fs, entries[..n], filterKsOnly)
    {
      var entry := entries[n];
      GatheredStep(entries, n, e => DsEntry(fs, e, filterKsOnly));
      var record := VisitEntry(fs, entry, filterKsOnly);
      if record.Some? {
        out := out + [record.value];
      }
      n := n + 1;
    }
    assert entries[..n] == entries;
    return Done, out;
  }

  /** A label holding a double quote is not `killstreak` in any casing. */
  lemma QuotedLabelIsCustom(l: string, m: nat)
    requires m < |l| && l[m] == '"'
    ensures !IsKillstreakLabel(l)
  {
  }

  /** `"name":"<x>",` at `p`, told apart into its key, its label and its close. */
  predicate EntryAt(s: string, p: nat, x: string)
  {
    KeyAt(s, p) && p + |NameKey| + |x| <= |s|
    && s[p + |NameKey|..p + |NameKey| + |x|] == x && CloseAt(s, p + |NameKey| + |x|)
  }

  lemma OccurrenceIsEntry(s: string, p: nat, x: string)
    requires OccursAt(NameKey + x + Close, s, p)
    ensures EntryAt(s, p, x)
  {
    var occ := NameKey + x + Close;
    var n := |NameKey|;
    assert s[p..p + |occ|] == occ;
    assert s[p..p + n] == s[p..p + |occ|][..n];
    KeyAtIsSlice(s, p);
    assert s[p + n..p + n + |x|] == s[p..p + |occ|][n..n + |x|];
    assert s[p + n + |x|] == occ[n + |x|] && s[p + n + |x| + 1] == occ[n + |x| + 1];
  }

  lemma EntryIsOccurrence(s: string, p: nat, x: string)
    requires EntryAt(s, p, x)
    ensures OccursAt(NameKey + x + Close, s, p)
  {
    var n := |NameKey|;
    var c := p + n + |x|;
    KeyAtIsSlice(s, p);
    assert s[c..c + 2] == Close by {
      assert s[c..c + 2][0] == '"' && s[c..c + 2][1] == ',';
    }
    assert s[p..c + 2] == s[p..p + n] + s[p + n..c] + s[c..c + 2];
  }

  /** A match that starts at the entry captures exactly its label. */
  lemma EntryMatchedAtStart(s: string, p: nat, x: string)
    requires EntryAt(s, p, x) && !ContainsClose(x)
    ensures FindClose(s, p + |NameKey|) == Some(p + |NameKey| + |x|)
  {
    var n := |NameKey|;
    var c := p + n + |x|;
    forall m: nat | p + n <= m < c
      ensures !CloseAt(s, m)
    {
      if m + 1 < c {
        assert !CloseAt(x, m - p - n);
        assert s[m] == x[m - p - n] && s[m + 1] == x[m - p - n + 1];
      } else {
        assert s[m + 1] == '"';
      }
    }
  }

  /** A match that starts before the entry and ends after its start swallows a
      double quote. */
  lemma EntrySwallowed(s: string, i: nat, j: nat, p: nat, x: string)
    requires KeyAt(s, i) && FindClose(s, i + |NameKey|) == Some(j)
    requires i < p < j + 2
    requires EntryAt(s, p, x)
    ensures '"' in s[i + |NameKey|..j]
  {
    var n := |NameKey|;
    var l := s[i + n..j];
    if p < i + n {
      assert p == i + 7;
      assert s[i + 12] == '"' && s[i + 13] == ':';
      assert !CloseAt(s, i + 8) && !CloseAt(s, i + 12);
      assert j >= i + 13;
      assert l[4] == s[i + 12];
    } else if p < j {
      assert l[p - i - n] == s[p];
    } else {
      assert false;
    }
  }

  /** Some label is `x` itself or holds a double quote. */
  predicate YieldsOrSwallows(labels: seq<string>, x: string)
  {
    exists k :: 0 <= k < |labels| && (labels[k] == x || '"' in labels[k])
  }

  lemma YieldsOrSwallowsCons(l: string, rest: seq<string>, x: string)
    requires l == x || '"' in l || YieldsOrSwallows(rest, x)
    ensures YieldsOrSwallows([l] + rest, x)
  {
    if l == x || '"' in l {
      assert ([l] + rest)[0] == l;
    } else {
      var k :| 0 <= k < |rest| && (rest[k] == x || '"' in rest[k]);
      assert ([l] + rest)[k + 1] == rest[k];
    }
  }

  /** A key followed by a close yields one label and resumes after the close. */
  lemma LabelsFromMatch(s: string, i: nat, j: nat)
    requires KeyAt(s, i) && FindClose(s, i + |NameKey|) == Some(j)
    ensures LabelsFrom(s, i) == [s[i + |NameKey|..j]] + LabelsFrom(s, j + 2)
  {
    assert i + |NameKey| <= |s|;
  }

  /** A key before an entry always finds a close: the entry's own. */
  lemma EntryCloses(s: string, i: nat, p: nat, x: string)
    requires i <= p && EntryAt(s, p, x)
    ensures FindClose(s, i + |NameKey|).Some?
  {
    var c := p + |NameKey| + |x|;
    assert CloseAt(s, c);
  }

  /** If the text holds `"name":"<x>",` at or after `i`, with `x` free of `",`,
      the scan from `i` yields either `x` itself or the label of an earlier match
      that swallowed the entry, and so holds a double quote. */
  lemma {:induction false} EntryYieldsLabel(s: string, i: nat, p: nat, x: string)
    requires i <= p && EntryAt(s, p, x) && !ContainsClose(x)
    ensures YieldsOrSwallows(LabelsFrom(s, i), x)
    decreases |s| - i
  {
    var n := |NameKey|;
    if KeyAt(s, i) {
      EntryCloses(s, i, p, x);
      var j := FindClose(s, i + n).value;
      var l := s[i + n..j];
      LabelsFromMatch(s, i, j);
      if p >= j + 2 {
        EntryYieldsLabel(s, j + 2, p, x);
      } else if p == i {
        EntryMatchedAtStart(s, p, x);
      } else {
        EntrySwallowed(s, i, j, p, x);
      }
      YieldsOrSwallowsCons(l, LabelsFrom(s, j + 2), x);
    } else {
      assert p != i;
      LabelsFromSkip(s, i);
      EntryYieldsLabel(s, i + 1, p, x);
    }
  }

  /** With the flag set, a sidecar whose stripped text holds `"name":"<x>",` for
      some `x` that is not `killstreak` in any casing is dropped as having a
      custom bookmark. */
  lemma DsCustomBookmark(content: string, p: nat, x: string)
    requires OccursAt(NameKey + x + Close, Strip(content), p)
    requires !ContainsClose(x) && !IsKillstreakLabel(x)
    ensures DsDecision(content, true) == Decision(false, HasCustomBookmark)
  {
    var s := Strip(content);
    OccurrenceIsEntry(s, p, x);
    assert s != EmptyEvents;
    EntryYieldsLabel(s, 0, p, x);
    var labels := Labels(s);
    var k :| 0 <= k < |labels| && (labels[k] == x || '"' in labels[k]);
    if labels[k] != x {
      var m :| 0 <= m < |labels[k]| && labels[k][m] == '"';
      QuotedLabelIsCustom(labels[k], m);
    }
    DsKillstreakFilter(content);
  }
}
