/** `src/prec.rs`: the PREC collector. One shared log, `KillStreaks.txt`, names
    the events of every demo in its directory. */
module PrecCollector {
  import opened Wrappers
  import opened Text
  import opened Paths
  import opened Util
  import opened Policy
  import opened Files
  import opened PrecLog

  const PrecKsFile: string := "KillStreaks.txt"

  /** `into_iter().flatten().find(|path| path.exists())`: the first present
      candidate that exists. */
  function FirstExisting(fs: FileSystem, candidates: seq<Option<Path>>): (r: Option<Path>)
    ensures r.Some? ==> fs.Exists(r.value)
    ensures r.Some? <==> exists k :: 0 <= k < |candidates| && candidates[k].Some? && fs.Exists(candidates[k].value)
    ensures |candidates| > 0 && candidates[0].Some? && fs.Exists(candidates[0].value) ==> r == candidates[0]
    ensures |candidates| > 0 && !(candidates[0].Some? && fs.Exists(candidates[0].value)) ==> r == FirstExisting(fs, candidates[1..])
  {
    if candidates == [] then None
    else if candidates[0].Some? && fs.Exists(candidates[0].value) then candidates[0]
    else
      var r := FirstExisting(fs, candidates[1..]);
      assert forall k :: 1 <= k < |candidates| ==> candidates[k] == candidates[1..][k - 1];
      r
  }

  /** `find_prec_ks_file`: the log in the chosen directory, else the log in its
      parent, else none. */
  function FindPrecKsFile(fs: FileSystem, demosDir: Path): (r: Option<Path>)
    ensures fs.Exists(Join(demosDir, PrecKsFile)) ==> r == Some(Join(demosDir, PrecKsFile))
    ensures !fs.Exists(Join(demosDir, PrecKsFile)) && |demosDir| > 0
            && fs.Exists(Join(Parent(demosDir).value, PrecKsFile))
            ==> r == Some(Join(Parent(demosDir).value, PrecKsFile))
    ensures r.None? <==>
      !fs.Exists(Join(demosDir, PrecKsFile))
      && (|demosDir| == 0 || !fs.Exists(Join(Parent(demosDir).value, PrecKsFile)))
  {
    var candidates := [
      Some(Join(demosDir, PrecKsFile)),
      match Parent(demosDir) case Some(par) => Some(Join(par, PrecKsFile)) case None => None
    ];
    var r := FirstExisting(fs, candidates);
    assert FirstExisting(fs, candidates[1..][1..]) == None;
    r
  }

  /** The log that was found lies in the chosen directory or in its parent. */
  lemma FoundLogLocation(fs: FileSystem, demosDir: Path)
    requires FindPrecKsFile(fs, demosDir).Some?
    ensures var ks := FindPrecKsFile(fs, demosDir).value;
      fs.Exists(ks) && Parent(ks).Some?
      && (Parent(ks).value == demosDir || (|demosDir| > 0 && Parent(ks) == Parent(demosDir)))
  {
    ParentOfJoin(demosDir, PrecKsFile);
    if |demosDir| > 0 {
      ParentOfJoin(Parent(demosDir).value, PrecKsFile);
    }
  }

  /** The directory the walk uses: the directory holding the log. */
  function LogRoot(fs: FileSystem, demosDir: Path): (root: Option<Path>)
    ensures root.Some? <==> FindPrecKsFile(fs, demosDir).Some?
    ensures root.Some? ==> root == Parent(FindPrecKsFile(fs, demosDir).value)
    ensures root.Some? ==> root.value == demosDir || (|demosDir| > 0 && root == Parent(demosDir))
  {
    match FindPrecKsFile(fs, demosDir)
    case None => None
    case Some(ks) =>
      FoundLogLocation(fs, demosDir);
      Parent(ks)
  }

  /** The map key for a demo name in the log: `root / (lowercase(name) + ".dem")`. */
  function EventKey(root: Path, demo: string): Path
  {
    Join(root, ToLowercase(demo) + ".dem")
  }

  /** The event map the first loop builds from the captures, in log order. */
  function EventMap(fs: FileSystem, root: Path, captures: seq<Capture>): map<Path, set<string>>
  {
    if captures == [] then map[]
    else
      var m := EventMap(fs, root, captures[..|captures| - 1]);
      var c := captures[|captures| - 1];
      var key := EventKey(root, c.demo);
      if !fs.Exists(key) then m
      else m[key := (if key in m then m[key] else {}) + {c.event}]
  }

  /** Some capture among the first `n` names the demo at `key` with event `event`. */
  ghost predicate Mentions(captures: seq<Capture>, n: nat, root: Path, key: Path, event: string)
  {
    exists j :: 0 <= j < n && j < |captures| && EventKey(root, captures[j].demo) == key && captures[j].event == event
  }

  /** The map holds an existing demo's event exactly when the log names that
      demo with that event; every key exists, lies under the root and has at
      least one event. */
  lemma {:induction false} EventMapContents(fs: FileSystem, root: Path, captures: seq<Capture>)
    ensures var m := EventMap(fs, root, captures);
      forall key :: key in m ==> fs.Exists(key) && m[key] != {} && Parent(key) == Some(root)
    ensures var m := EventMap(fs, root, captures);
      forall key, event :: key in m && event in m[key] <==> fs.Exists(key) && Mentions(captures, |captures|, root, key, event)
  {
    if captures != [] {
      var n := |captures| - 1;
      EventMapContents(fs, root, captures[..n]);
      ParentOfJoin(root, ToLowercase(captures[n].demo) + ".dem");
      MentionsStep(captures, root);
    }
  }

  /** One capture more mentions what the others mention, plus its own demo and event. */
  lemma MentionsStep(captures: seq<Capture>, root: Path)
    requires captures != []
    ensures var n := |captures| - 1; var c := captures[n];
      forall key, event :: Mentions(captures, |captures|, root, key, event)
        <==> Mentions(captures[..n], n, root, key, event) || (EventKey(root, c.demo) == key && c.event == event)
  {
    var n := |captures| - 1;
    var init := captures[..n];
    forall key, event
      ensures Mentions(captures, |captures|, root, key, event)
              <==> Mentions(init, n, root, key, event) || (EventKey(root, captures[n].demo) == key && captures[n].event == event)
    {
      if Mentions(captures, |captures|, root, key, event) {
        var j :| 0 <= j < |captures| && EventKey(root, captures[j].demo) == key && captures[j].event == event;
        if j < n {
          assert init[j] == captures[j];
        }
      }
      if Mentions(init, n, root, key, event) {
        var j :| 0 <= j < n && j < |init| && EventKey(root, init[j].demo) == key && init[j].event == event;
        assert captures[j] == init[j];
      }
    }
  }

  /** The first loop of `collect_prec_demos`: for each capture whose demo exists,
      add its event to that demo's set (`entry(..).or_insert(..)`, then `insert`). */
  method BuildEventMap(fs: FileSystem, root: Path, captures: seq<Capture>) returns (m: map<Path, set<string>>)
    ensures m == EventMap(fs, root, captures)
  {
    m := map[];
    var n := 0;
    while n < |captures|
      invariant n <= |captures|
      invariant m == EventMap(fs, root, captures[..n])
    {
      assert captures[..n + 1][..n] == captures[..n];
      var c := captures[n];
      var key := EventKey(root, c.demo);
      if fs.Exists(key) {
        var events := if key in m then m[key] else {};
        m := m[key := events + {c.event}];
      }
      n := n + 1;
    }
    assert captures[..n] == captures;
  }

  /** `should_include_demo`: the loop over the set returns at the first event that
      is not a killstreak; it reaches the shared policy's decision. */
  method ShouldIncludeDemo(events: Option<set<string>>, filterKsOnly: bool) returns (d: Decision)
    ensures d == Decide(events, filterKsOnly, IsKillstreakEvent)
  {
    if events.None? {
      return Decision(true, NoEvents);
    }
    if filterKsOnly {
      var remaining := events.value;
      while remaining != {}
        invariant remaining <= events.value
        invariant forall e :: e in events.value && e !in remaining ==> IsKillstreakEvent(e)
        decreases remaining
      {
        var e :| e in remaining;
        if !IsKillstreakEvent(e) {
          return Decision(false, HasCustomBookmark);
        }
        remaining := remaining - {e};
      }
      return Decision(true, OnlyKillstreaks);
    }
    return Decision(false, HasEvents);
  }

  /** `event_map.get(path)`. */
  function Lookup(m: map<Path, set<string>>, p: Path): Option<set<string>>
  {
    if p in m then Some(m[p]) else None
  }

  /** What one directory entry contributes to the result. */
  function PrecEntry(m: map<Path, set<string>>, entry: Path, filterKsOnly: bool): (r: Option<IncludedDemo>)
    ensures r.Some? <==> IsDemo(Extension(entry)) && Decide(Lookup(m, entry), filterKsOnly, IsKillstreakEvent).keep
    ensures r.Some? ==> r.value.demoPath == entry && r.value.eventsJsonPath.None? && r.value.id == Prec
    ensures r.Some? ==> r.value.inclusionReason == Decide(Lookup(m, entry), filterKsOnly, IsKillstreakEvent).reason
  {
    if !IsDemo(Extension(entry)) then None
    else
      var d := Decide(Lookup(m, entry), filterKsOnly, IsKillstreakEvent);
      if d.keep then Some(IncludedDemo(d.reason, entry, None, Prec)) else None
  }

  /** The records the second loop appends, in listing order. */
  function PrecCollected(m: map<Path, set<string>>, entries: seq<Path>, filterKsOnly: bool): seq<IncludedDemo>
  {
    Gathered(entries, e => PrecEntry(m, e, filterKsOnly))
  }

  /** A demo the log never names has no entry in the map and is kept as having
      no events, whatever the flag. */
  lemma UnloggedDemoKept(m: map<Path, set<string>>, entry: Path, filterKsOnly: bool)
    requires IsDemo(Extension(entry)) && entry !in m
    ensures PrecEntry(m, entry, filterKsOnly) == Some(IncludedDemo(NoEvents, entry, None, Prec))
  {
  }

  /** Every collected record is a `.dem` entry of the listing, kept (no events,
      or only killstreaks), tagged `prec`, with no events file. */
  lemma PrecCollectedRecords(m: map<Path, set<string>>, entries: seq<Path>, filterKsOnly: bool)
    ensures forall r :: r in PrecCollected(m, entries, filterKsOnly) ==>
      r.demoPath in entries && IsDemo(Extension(r.demoPath))
      && r.eventsJsonPath.None? && r.id == Prec
      && (r.inclusionReason == NoEvents || r.inclusionReason == OnlyKillstreaks)
  {
    GatheredMembers(entries, e => PrecEntry(m, e, filterKsOnly));
    forall r | r in PrecCollected(m, entries, filterKsOnly)
      ensures r.demoPath in entries && PrecEntry(m, r.demoPath, filterKsOnly) == Some(r)
    {
      var k :| 0 <= k < |entries| && PrecEntry(m, entries[k], filterKsOnly) == Some(r);
    }
  }

  /** The whole collection: no log means no records and no error; otherwise the
      log is read, the map built, and the log's directory walked. */
  function PrecResult(fs: FileSystem, demosDir: Path, filterKsOnly: bool): (r: Result<seq<IncludedDemo>, Error>)
    ensures FindPrecKsFile(fs, demosDir).None? ==> r == Ok([])
  {
    match FindPrecKsFile(fs, demosDir)
    case None => Ok([])
    case Some(ks) =>
      var root := LogRoot(fs, demosDir).value;
      match fs.ReadToString(ks)
      case Err(e) => Err(e)
      case Ok(text) =>
        var m := EventMap(fs, root, Captures(text));
        match fs.ReadDir(root)
        case Err(e) => Err(e)
        case Ok(entries) => Ok(PrecCollected(m, entries, filterKsOnly))
  }

  /** The second loop of `collect_prec_demos`. */
  method WalkDemos(m: map<Path, set<string>>, entries: seq<Path>, filterKsOnly: bool, included: seq<IncludedDemo>)
    returns (out: seq<IncludedDemo>)
    ensures out == included + PrecCollected(m, entries, filterKsOnly)
  {
    out := included;
    var n := 0;
    while n < |entries|
      invariant n <= |entries|
      invariant out == included + PrecCollected(m, entries[..n], filterKsOnly)
    {
      GatheredStep(entries, n, e => PrecEntry(m, e, filterKsOnly));
      var entry := entries[n];
      if IsDemo(Extension(entry)) {
        var d := ShouldIncludeDemo(Lookup(m, entry), filterKsOnly);
        if d.keep {
          out := out + [IncludedDemo(d.reason, entry, None, Prec)];
        }
      }
      n := n + 1;
    }
    assert entries[..n] == entries;
  }

  /** `collect_prec_demos`: appends the kept demos' records to `included`; with
      no log it returns success and appends nothing. */
  method CollectPrecDemos(fs: FileSystem, demosDir: Path, filterKsOnly: bool, included: seq<IncludedDemo>)
    returns (res: Outcome, out: seq<IncludedDemo>)
    ensures PrecResult(fs, demosDir, filterKsOnly).Err? ==>
      res == Failed(PrecResult(fs, demosDir, filterKsOnly).error) && out == included
    ensures PrecResult(fs, demosDir, filterKsOnly).Ok? ==>
      res == Done && out == included + PrecResult(fs, demosDir, filterKsOnly).value
  {
    var found := FindPrecKsFile(fs, demosDir);
    if found.None? {
      return Done, included;
    }
    var ks := found.value;
    var root := LogRoot(fs, demosDir).value;
    var read := fs.ReadToString(ks);
    if read.Err? {
      return Failed(read.error), included;
    }
    var m := BuildEventMap(fs, root, Captures(read.value));
    var listing := fs.ReadDir(root);
    if listing.Err? {
      return Failed(listing.error), included;
    }
    out := WalkDemos(m, listing.value, filterKsOnly, included);
    res := Done;
  }

  /** The walk covers the directory that holds the log, not necessarily the one
      chosen: every record lies directly in the log's directory, which is the
      chosen directory or its parent. */
  lemma PrecRecordsUnderLogRoot(fs: FileSystem, demosDir: Path, filterKsOnly: bool)
    requires PrecResult(fs, demosDir, filterKsOnly).Ok?
    ensures forall r :: r in PrecResult(fs, demosDir, filterKsOnly).value ==>
      LogRoot(fs, demosDir).Some? && Parent(r.demoPath) == LogRoot(fs, demosDir)
      && r.eventsJsonPath.None? && r.id == Prec
      && (Parent(r.demoPath) == Some(demosDir) || (|demosDir| > 0 && Parent(r.demoPath) == Parent(demosDir)))
  {
    if FindPrecKsFile(fs, demosDir).Some? {
      var ks := FindPrecKsFile(fs, demosDir).value;
      var root := LogRoot(fs, demosDir).value;
      var text := fs.ReadToString(ks).value;
      var m := EventMap(fs, root, Captures(text));
      var entries := fs.ReadDir(root).value;
      PrecCollectedRecords(m, entries, filterKsOnly);
      forall r | r in PrecCollected(m, entries, filterKsOnly)
        ensures Parent(r.demoPath) == Some(root)
      {
        var k :| 0 <= k < |entries| && entries[k] == r.demoPath;
        ParentOfJoin(root, fs.listings[root][k]);
      }
    }
  }
}
