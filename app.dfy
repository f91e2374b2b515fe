/** `src/main.rs`: what happens to the records once collected, and the checks
    `process` makes around the collection. Prompts become parameters. */
module App {
  import opened Wrappers
  import opened Paths
  import opened Files
  import DemoSupportCollector
  import PrecCollector

  /** Which paths exist on disk while files are moved or copied, and which
      target paths refuse to be created or written. */
  datatype Disk = Disk(existing: set<Path>, blocked: set<Path>)
  {
    /** `std::fs::create_dir`. */
    function CreateDir(p: Path): (r: Result<Disk, Error>)
      ensures r.Err? <==> p in blocked
      ensures r.Ok? ==> r.value == Disk(existing + {p}, blocked)
    {
      if p in blocked then Err(CreateDirFailed(p)) else Ok(Disk(existing + {p}, blocked))
    }

    /** `std::fs::copy` (the source stays) or `std::fs::rename` (it goes). */
    function Transfer(from: Path, to: Path, copy: bool): (r: Result<Disk, Error>)
      ensures r.Err? <==> from !in existing || to in blocked
      ensures r.Ok? ==> to in r.value.existing && r.value.blocked == blocked
      ensures r.Ok? && copy ==> r.value.existing == existing + {to}
      ensures r.Ok? && !copy ==> r.value.existing == existing - {from} + {to}
    {
      if from !in existing || to in blocked then Err(TransferFailed(from))
      else if copy then Ok(Disk(existing + {to}, blocked))
      else Ok(Disk(existing - {from} + {to}, blocked))
    }
  }

  /** The record's paths have a file name (`file_name().unwrap()` succeeds). */
  predicate Movable(rec: IncludedDemo)
  {
    |rec.demoPath| > 0 && (rec.eventsJsonPath.Some? ==> |rec.eventsJsonPath.value| > 0)
  }

  /** The directory `move_to` puts a record's files in: `output_dir / id`. */
  function TargetDir(rec: IncludedDemo, outputDir: Path): Path
  {
    Join(outputDir, rec.id.Name())
  }

  /** Where one path lands: the target directory joined with its file name. On a
      copy the record keeps pointing at the original. */
  function Relocated(path: Path, dir: Path, copy: bool): Path
    requires |path| > 0
  {
    if copy then path else Join(dir, FileName(path))
  }

  /** The record after a `move_to` that succeeded. */
  function Moved(rec: IncludedDemo, copy: bool, outputDir: Path): IncludedDemo
    requires Movable(rec)
  {
    var dir := TargetDir(rec, outputDir);
    rec.(demoPath := Relocated(rec.demoPath, dir, copy),
         eventsJsonPath := match rec.eventsJsonPath
           case None => None
           case Some(json) => Some(Relocated(json, dir, copy)))
  }

  /** A move rewrites every path of the record to `output_dir / id / file_name`,
      keeping the file name; the absent events path stays absent; the reason and
      the id are kept. */
  lemma MovedPaths(rec: IncludedDemo, outputDir: Path)
    requires Movable(rec)
    ensures var r := Moved(rec, false, outputDir);
      Parent(r.demoPath) == Some(Join(outputDir, rec.id.Name()))
      && FileName(r.demoPath) == FileName(rec.demoPath)
      && (r.eventsJsonPath.Some? <==> rec.eventsJsonPath.Some?)
      && (r.eventsJsonPath.Some? ==>
            Parent(r.eventsJsonPath.value) == Some(Join(outputDir, rec.id.Name()))
            && FileName(r.eventsJsonPath.value) == FileName(rec.eventsJsonPath.value))
      && r.inclusionReason == rec.inclusionReason && r.id == rec.id
  {
    var dir := TargetDir(rec, outputDir);
    ParentOfJoin(dir, FileName(rec.demoPath));
    if rec.eventsJsonPath.Some? {
      ParentOfJoin(dir, FileName(rec.eventsJsonPath.value));
    }
  }

  /** A copy leaves the record as it was. */
  lemma CopiedUnchanged(rec: IncludedDemo, outputDir: Path)
    requires Movable(rec)
    ensures Moved(rec, true, outputDir) == rec
  {
  }

  /** Moving a moved record to the same directory again changes nothing. */
  lemma MovedIdempotent(rec: IncludedDemo, copy: bool, outputDir: Path)
    requires Movable(rec)
    ensures Movable(Moved(rec, copy, outputDir))
    ensures Moved(Moved(rec, copy, outputDir), copy, outputDir) == Moved(rec, copy, outputDir)
  {
  }

  /** The demo and its events file have different file names, so they do not
      land on one another. */
  predicate DistinctNames(rec: IncludedDemo)
    requires Movable(rec)
  {
    rec.eventsJsonPath.Some? ==> FileName(rec.eventsJsonPath.value) != FileName(rec.demoPath)
  }

  /** Every path the record names exists on the disk. */
  predicate Holds(disk: Disk, rec: IncludedDemo)
  {
    rec.demoPath in disk.existing
    && (rec.eventsJsonPath.Some? ==> rec.eventsJsonPath.value in disk.existing)
  }

  /** The number of files `move_to` transfers for a record. */
  function Transfers(rec: IncludedDemo): nat
  {
    if rec.eventsJsonPath.Some? then 2 else 1
  }

  /** What a `move_to` that failed leaves of a record: the demo either stayed or
      moved, and everything else is as it was. */
  predicate PartlyMoved(rec': IncludedDemo, rec: IncludedDemo, copy: bool, outputDir: Path)
    requires Movable(rec)
  {
    && rec'.inclusionReason == rec.inclusionReason && rec'.id == rec.id
    && rec'.eventsJsonPath == rec.eventsJsonPath
    && (rec'.demoPath == rec.demoPath || rec'.demoPath == Moved(rec, copy, outputDir).demoPath)
  }

  /** `IncludedDemo::move_to`: creates `output_dir / id` when missing, then moves
      or copies the demo and, when there is one, the events file. A move rewrites
      each path once its file has gone; a failed events transfer leaves the demo
      already moved. `done` counts the files transferred. */
  method MoveTo(rec: IncludedDemo, copy: bool, outputDir: Path, disk: Disk)
    returns (res: Outcome, rec': IncludedDemo, disk': Disk, done: nat)
    requires Movable(rec)
    ensures Movable(rec')
    ensures res.Done? ==> rec' == Moved(rec, copy, outputDir) && done == Transfers(rec)
    ensures res.Done? && DistinctNames(rec) ==> Holds(disk', rec')
    ensures res.Failed? ==> done < Transfers(rec) && PartlyMoved(rec', rec, copy, outputDir)
    ensures copy ==> rec' == rec && disk.existing <= disk'.existing
    ensures disk'.blocked == disk.blocked
  {
    var dir := TargetDir(rec, outputDir);
    disk' := disk;
    rec' := rec;
    done := 0;
    if dir !in disk'.existing {
      var created := disk'.CreateDir(dir);
      if created.Err? {
        return Failed(created.error), rec', disk', done;
      }
      disk' := created.value;
    }
    var target := Join(dir, FileName(rec.demoPath));
    var moved := disk'.Transfer(rec.demoPath, target, copy);
    if moved.Err? {
      return Failed(moved.error), rec', disk', done;
    }
    disk' := moved.value;
    done := 1;
    if !copy {
      rec' := rec'.(demoPath := target);
    }
    if rec.eventsJsonPath.Some? {
      var json := rec.eventsJsonPath.value;
      var jsonTarget := Join(dir, FileName(json));
      var movedJson := disk'.Transfer(json, jsonTarget, copy);
      if movedJson.Err? {
        return Failed(movedJson.error), rec', disk', done;
      }
      disk' := movedJson.value;
      done := 2;
      if !copy {
        rec' := rec'.(eventsJsonPath := Some(jsonTarget));
      }
    }
    res := Done;
  }

  /** The number of records that carry an events file. */
  function JsonCount(files: seq<IncludedDemo>): (n: nat)
    ensures n <= |files|
  {
    if files == [] then 0
    else JsonCount(files[..|files| - 1]) + (if files[|files| - 1].eventsJsonPath.Some? then 1 else 0)
  }

  /** The lines `action_export` writes: each demo path, each followed by its
      events path when asked for and present. */
  function ExportLines(files: seq<IncludedDemo>, includeJson: bool): seq<Path>
  {
    if files == [] then []
    else
      var last := files[|files| - 1];
      ExportLines(files[..|files| - 1], includeJson) + [last.demoPath]
      + (if includeJson && last.eventsJsonPath.Some? then [last.eventsJsonPath.value] else [])
  }

  /** `action_export`: writes the lines in record order, counting one per line. */
  method ActionExport(files: seq<IncludedDemo>, includeJson: bool) returns (lines: seq<Path>, count: nat)
    ensures lines == ExportLines(files, includeJson)
    ensures count == |lines|
  {
    lines := [];
    count := 0;
    var n := 0;
    while n < |files|
      invariant n <= |files|
      invariant lines == ExportLines(files[..n], includeJson)
      invariant count == |lines|
    {
      assert files[..n + 1][..n] == files[..n];
      var file := files[n];
      lines := lines + [file.demoPath];
      if includeJson {
        if file.eventsJsonPath.Some? {
          lines := lines + [file.eventsJsonPath.value];
          count := count + 1;
        }
      }
      count := count + 1;
      n := n + 1;
    }
    assert files[..n] == files;
  }

  /** The exported count is one per record, plus one per events file when those
      are asked for. */
  lemma {:induction false} ExportCount(files: seq<IncludedDemo>, includeJson: bool)
    ensures |ExportLines(files, includeJson)| == |files| + (if includeJson then JsonCount(files) else 0)
  {
    if files != [] {
      ExportCount(files[..|files| - 1], includeJson);
    }
  }

  /** Without events paths, the export is exactly the demo paths in record order. */
  lemma {:induction false} ExportDemoPaths(files: seq<IncludedDemo>)
    ensures ExportLines(files, false) == seq(|files|, i requires 0 <= i < |files| => files[i].demoPath)
  {
    if files != [] {
      var front := files[..|files| - 1];
      ExportDemoPaths(front);
      assert forall i :: 0 <= i < |front| ==> front[i] == files[i];
    }
  }

  /** With events paths, each record's events file directly follows its demo. */
  lemma {:induction false} ExportPairs(files: seq<IncludedDemo>)
    requires forall i :: 0 <= i < |files| ==> files[i].eventsJsonPath.Some?
    ensures |ExportLines(files, true)| == 2 * |files|
    ensures forall i :: 0 <= i < |files| ==>
      ExportLines(files, true)[2 * i] == files[i].demoPath
      && ExportLines(files, true)[2 * i + 1] == files[i].eventsJsonPath.value
  {
    if files != [] {
      var front := files[..|files| - 1];
      ExportPairs(front);
      var lines := ExportLines(files, true);
      assert lines == ExportLines(front, true) + [files[|files| - 1].demoPath, files[|files| - 1].eventsJsonPath.value];
      forall i | 0 <= i < |files|
        ensures lines[2 * i] == files[i].demoPath && lines[2 * i + 1] == files[i].eventsJsonPath.value
      {
        if i < |front| {
          assert front[i] == files[i];
        }
      }
    }
  }

  /** The count `action_move_copy` prints: two files per record. */
  function ReportedMoveCount(files: seq<IncludedDemo>): nat
  {
    |files| * 2
  }

  /** The files `move_to` transfers over the first `n` records. */
  function TransfersUpTo(files: seq<IncludedDemo>, n: nat): nat
    requires n <= |files|
  {
    if n == 0 then 0 else TransfersUpTo(files, n - 1) + Transfers(files[n - 1])
  }

  /** The files `move_to` transfers over all records. */
  function TransferCount(files: seq<IncludedDemo>): nat
  {
    TransfersUpTo(files, |files|)
  }

  /** One file per record, plus one per events file. */
  lemma {:induction false} TransferCountOfRecords(files: seq<IncludedDemo>)
    ensures TransferCount(files) == |files| + JsonCount(files)
  {
    if files != [] {
      var front := files[..|files| - 1];
      TransferCountOfRecords(front);
      TransfersUpToPrefix(files, front, |front|);
    }
  }

  /** The count over a prefix depends only on that prefix. */
  lemma {:induction false} TransfersUpToPrefix(files: seq<IncludedDemo>, front: seq<IncludedDemo>, n: nat)
    requires n <= |front| <= |files| && front == files[..|front|]
    ensures TransfersUpTo(files, n) == TransfersUpTo(front, n)
  {
    if n > 0 {
      TransfersUpToPrefix(files, front, n - 1);
      assert front[n - 1] == files[n - 1];
    }
  }

  /** A single PREC record moves one file, yet two are reported. */
  lemma ReportedCountOvercounts(demo: Path)
    ensures var files := [IncludedDemo(Policy.NoEvents, demo, None, Prec)];
      ReportedMoveCount(files) == 2 && TransferCount(files) == 1
  {
    var files := [IncludedDemo(Policy.NoEvents, demo, None, Prec)];
    assert TransfersUpTo(files, 1) == TransfersUpTo(files, 0) + Transfers(files[0]);
  }

  /** The printed count is right exactly when every record has an events file,
      which holds for DemoSupport records and never for PREC ones. */
  lemma {:induction false} ReportedCountExactIff(files: seq<IncludedDemo>)
    ensures ReportedMoveCount(files) == TransferCount(files)
            <==> forall i :: 0 <= i < |files| ==> files[i].eventsJsonPath.Some?
  {
    TransferCountOfRecords(files);
    JsonAll(files);
  }

  lemma {:induction false} JsonAll(files: seq<IncludedDemo>)
    ensures JsonCount(files) == |files| <==> forall i :: 0 <= i < |files| ==> files[i].eventsJsonPath.Some?
  {
    if files != [] {
      var front := files[..|files| - 1];
      JsonAll(front);
      assert forall i :: 0 <= i < |front| ==> front[i] == files[i];
    }
  }

  /** The records once the first `n` have been moved or copied: those are
      `Moved`, the rest are as they were; a copy changes none of them. */
  function MovedUpTo(orig: seq<IncludedDemo>, n: nat, copy: bool, outputDir: Path): (p: seq<IncludedDemo>)
    requires n <= |orig| && forall i :: 0 <= i < |orig| ==> Movable(orig[i])
    ensures |p| == |orig|
    ensures forall i :: 0 <= i < n ==> p[i] == Moved(orig[i], copy, outputDir)
    ensures forall i :: n <= i < |orig| ==> p[i] == orig[i]
    ensures forall i :: 0 <= i < |p| ==> Movable(p[i])
    ensures copy ==> p == orig
  {
    if n == 0 then orig
    else
      MovedIdempotent(orig[n - 1], copy, outputDir);
      MovedUpTo(orig, n - 1, copy, outputDir)[n - 1 := Moved(orig[n - 1], copy, outputDir)]
  }

  /** `now` is `before` with its first `h` records moved, the records after
      record `h` as they were, and record `h`, when there is one, as a `move_to`
      that failed leaves it. */
  predicate StoppedAt(now: seq<IncludedDemo>, before: seq<IncludedDemo>, h: nat, copy: bool, outputDir: Path)
    requires forall i :: 0 <= i < |before| ==> Movable(before[i])
  {
    && h <= |before| && |now| == |before|
    && (forall i :: 0 <= i < h ==> now[i] == Moved(before[i], copy, outputDir))
    && (forall i :: h < i < |before| ==> now[i] == before[i])
    && (h < |before| ==> PartlyMoved(now[h], before[h], copy, outputDir))
  }

  /** All records moved is the move stopped after the last one. */
  lemma StoppedAtEnd(now: seq<IncludedDemo>, before: seq<IncludedDemo>, copy: bool, outputDir: Path)
    requires forall i :: 0 <= i < |before| ==> Movable(before[i])
    requires StoppedAt(now, before, |before|, copy, outputDir)
    ensures now == MovedUpTo(before, |before|, copy, outputDir)
  {
  }

  /** `action_move_copy` over the records in place (`iter_mut`): creates the
      output directory when missing, then moves or copies each record in turn,
      stopping at the first failure. `handled` counts the records fully handled,
      `transferred` the files; `reported` is the count the message prints. */
  method ActionMoveCopy(files: array<IncludedDemo>, copy: bool, outputDir: Path, disk: Disk)
    returns (res: Outcome, disk': Disk, handled: nat, transferred: nat, reported: nat)
    requires forall i :: 0 <= i < files.Length ==> Movable(files[i])
    modifies files
    ensures forall i :: 0 <= i < files.Length ==> Movable(files[i])
    ensures StoppedAt(files[..], old(files[..]), handled, copy, outputDir)
    ensures res.Done? ==> handled == files.Length
    ensures res.Done? ==> transferred == TransferCount(old(files[..]))
    ensures res.Done? ==> reported == ReportedMoveCount(old(files[..]))
    ensures copy ==> forall i :: 0 <= i < files.Length ==> files[i] == old(files[i])
  {
    disk' := disk;
    handled := 0;
    transferred := 0;
    reported := 0;
    if outputDir !in disk'.existing {
      var created := disk'.CreateDir(outputDir);
      if created.Err? {
        return Failed(created.error), disk', handled, transferred, reported;
      }
      disk' := created.value;
    }
    res, disk', handled, transferred := MoveAll(files, copy, outputDir, disk');
    if res.Done? {
      reported := files.Length * 2;
    }
  }

  /** The loop of `action_move_copy`: `move_to` on each record in order; the
      first failure is returned at once, with the record it failed on left as
      `move_to` left it. */
  method MoveAll(files: array<IncludedDemo>, copy: bool, outputDir: Path, disk: Disk)
    returns (res: Outcome, disk': Disk, handled: nat, transferred: nat)
    requires forall i :: 0 <= i < files.Length ==> Movable(files[i])
    modifies files
    ensures handled <= files.Length
    ensures res.Done? ==> handled == files.Length && transferred == TransferCount(old(files[..]))
    ensures res.Done? ==> files[..] == MovedUpTo(old(files[..]), handled, copy, outputDir)
    ensures res.Failed? ==> (handled < files.Length && Movable(files[handled])
      && files[..] == MovedUpTo(old(files[..]), handled, copy, outputDir)[handled := files[handled]]
      && PartlyMoved(files[handled], old(files[handled]), copy, outputDir))
    ensures copy ==> files[..] == old(files[..])
  {
    ghost var orig := files[..];
    disk' := disk;
    handled := 0;
    transferred := 0;
    while handled < files.Length
      invariant handled <= files.Length
      invariant files[..] == MovedUpTo(orig, handled, copy, outputDir)
      invariant transferred == TransfersUpTo(orig, handled)
    {
      var r, rec', d', done := MoveTo(files[handled], copy, outputDir, disk');
      files[handled] := rec';
      disk' := d';
      if r.Failed? {
        return r, disk', handled, transferred;
      }
      transferred := transferred + done;
      handled := handled + 1;
    }
    res := Done;
  }

  /** The search mode `process` asks for. */
  datatype SearchMode = DemoSupportMode | PrecMode

  /** The actions offered for the included files. */
  datatype Action = MoveCopy | Export

  /** What the chosen collector yields for the directory, from no records. */
  function Collected(fs: FileSystem, demosDir: Path, mode: SearchMode, filterKsOnly: bool): Result<seq<IncludedDemo>, Error>
  {
    match mode
    case PrecMode => PrecCollector.PrecResult(fs, demosDir, filterKsOnly)
    case DemoSupportMode => DemoSupportCollector.DsResult(fs, demosDir, filterKsOnly)
  }

  /** Collected records name files: their paths are never empty. */
  lemma CollectedMovable(fs: FileSystem, demosDir: Path, mode: SearchMode, filterKsOnly: bool)
    requires Collected(fs, demosDir, mode, filterKsOnly).Ok?
    ensures forall r :: r in Collected(fs, demosDir, mode, filterKsOnly).value ==> Movable(r)
  {
    match mode
    case PrecMode =>
      PrecCollector.PrecRecordsUnderLogRoot(fs, demosDir, filterKsOnly);
    case DemoSupportMode =>
      var entries := fs.ReadDir(demosDir).value;
      DemoSupportCollector.DsCollectedRecords(fs, entries, filterKsOnly);
      forall r | r in Collected(fs, demosDir, mode, filterKsOnly).value
        ensures Movable(r)
      {
        var k :| 0 <= k < |entries| && entries[k] == r.demoPath;
      }
  }

  /** The collection step of `process`: the chosen collector, from no records. */
  method Collect(fs: FileSystem, demosDir: Path, mode: SearchMode, filterKsOnly: bool)
    returns (res: Outcome, records: seq<IncludedDemo>)
    ensures Collected(fs, demosDir, mode, filterKsOnly).Err? ==>
      res == Failed(Collected(fs, demosDir, mode, filterKsOnly).error) && records == []
    ensures Collected(fs, demosDir, mode, filterKsOnly).Ok? ==>
      res == Done && records == Collected(fs, demosDir, mode, filterKsOnly).value
  {
    if mode == PrecMode {
      res, records := PrecCollector.CollectPrecDemos(fs, demosDir, filterKsOnly, []);
    } else {
      res, records := DemoSupportCollector.CollectDsDemos(fs, demosDir, filterKsOnly, []);
    }
  }

  /** The records once `acts` have run from `start`: a move leaves every
      record `Moved`, and a later move changes nothing more. */
  function AfterActions(start: seq<IncludedDemo>, acts: seq<Action>, copy: bool, outputDir: Path): seq<IncludedDemo>
    requires forall i :: 0 <= i < |start| ==> Movable(start[i])
  {
    if MoveCopy in acts then MovedUpTo(start, |start|, copy, outputDir) else start
  }

  /** The exports `acts` write from `start`: each export writes the records as
      the actions before it left them. */
  function ExportsOf(start: seq<IncludedDemo>, acts: seq<Action>, copy: bool, outputDir: Path,
                     includeJson: bool): seq<seq<Path>>
    requires forall i :: 0 <= i < |start| ==> Movable(start[i])
    decreases |acts|
  {
    if acts == [] then []
    else
      var front := acts[..|acts| - 1];
      ExportsOf(start, front, copy, outputDir, includeJson)
      + if acts[|acts| - 1] == Export then [ExportLines(AfterActions(start, front, copy, outputDir), includeJson)]
        else []
  }

  /** Moving the moved records again changes nothing. */
  lemma MovedTwice(start: seq<IncludedDemo>, copy: bool, outputDir: Path)
    requires forall i :: 0 <= i < |start| ==> Movable(start[i])
    ensures var once := MovedUpTo(start, |start|, copy, outputDir);
      MovedUpTo(once, |once|, copy, outputDir) == once
  {
    var once := MovedUpTo(start, |start|, copy, outputDir);
    forall i | 0 <= i < |start|
      ensures MovedUpTo(once, |once|, copy, outputDir)[i] == once[i]
    {
      MovedIdempotent(start[i], copy, outputDir);
    }
  }

  /** The records after one action: a move leaves every record `Moved`, an
      export leaves them as they are. */
  function Step(recs: seq<IncludedDemo>, a: Action, copy: bool, outputDir: Path): seq<IncludedDemo>
    requires forall i :: 0 <= i < |recs| ==> Movable(recs[i])
  {
    if a == MoveCopy then MovedUpTo(recs, |recs|, copy, outputDir) else recs
  }

  /** One more action takes one more step, whether or not a move ran before. */
  lemma AfterOneMore(start: seq<IncludedDemo>, acts: seq<Action>, a: Action, copy: bool, outputDir: Path)
    requires forall i :: 0 <= i < |start| ==> Movable(start[i])
    ensures forall i :: 0 <= i < |AfterActions(start, acts, copy, outputDir)| ==>
      Movable(AfterActions(start, acts, copy, outputDir)[i])
    ensures AfterActions(start, acts + [a], copy, outputDir)
      == Step(AfterActions(start, acts, copy, outputDir), a, copy, outputDir)
  {
    assert MoveCopy in acts + [a] <==> MoveCopy in acts || a == MoveCopy by {
      assert forall x :: x in acts + [a] <==> x in acts || x == a;
    }
    if a == MoveCopy && MoveCopy in acts {
      MovedTwice(start, copy, outputDir);
    }
  }

  /** A copy, or actions without a move, leave the records as they were. */
  lemma AfterActionsUnchanged(start: seq<IncludedDemo>, acts: seq<Action>, copy: bool, outputDir: Path)
    requires forall i :: 0 <= i < |start| ==> Movable(start[i])
    requires copy || MoveCopy !in acts
    ensures AfterActions(start, acts, copy, outputDir) == start
  {
  }

  /** One more action: an export adds the records as the actions before it left
      them; a move adds nothing. */
  lemma ExportsOfOneMore(start: seq<IncludedDemo>, acts: seq<Action>, a: Action, copy: bool, outputDir: Path,
                         includeJson: bool)
    requires forall i :: 0 <= i < |start| ==> Movable(start[i])
    ensures ExportsOf(start, acts + [a], copy, outputDir, includeJson)
      == ExportsOf(start, acts, copy, outputDir, includeJson)
         + if a == Export then [ExportLines(AfterActions(start, acts, copy, outputDir), includeJson)] else []
  {
    assert (acts + [a])[..|acts|] == acts;
  }

  /** Every export writes either the records as collected or the moved ones,
      and the collected ones as long as no move has run before it. */
  lemma {:induction false} ExportsOfRecords(start: seq<IncludedDemo>, acts: seq<Action>, copy: bool,
                                            outputDir: Path, includeJson: bool)
    requires forall i :: 0 <= i < |start| ==> Movable(start[i])
    ensures forall e :: e in ExportsOf(start, acts, copy, outputDir, includeJson) ==>
      e == ExportLines(start, includeJson) || e == ExportLines(MovedUpTo(start, |start|, copy, outputDir), includeJson)
    ensures MoveCopy !in acts ==>
      forall e :: e in ExportsOf(start, acts, copy, outputDir, includeJson) ==> e == ExportLines(start, includeJson)
    decreases |acts|
  {
    if acts != [] {
      var front := acts[..|acts| - 1];
      assert acts == front + [acts[|acts| - 1]];
      assert forall x :: x in front ==> x in acts;
      ExportsOfRecords(start, front, copy, outputDir, includeJson);
    }
  }

  /** A move followed by an export writes the moved records. */
  lemma MoveThenExport(start: seq<IncludedDemo>, copy: bool, outputDir: Path, includeJson: bool)
    requires forall i :: 0 <= i < |start| ==> Movable(start[i])
    ensures ExportsOf(start, [MoveCopy, Export], copy, outputDir, includeJson)
      == [ExportLines(MovedUpTo(start, |start|, copy, outputDir), includeJson)]
  {
    assert [MoveCopy, Export][..1] == [MoveCopy];
    assert [MoveCopy][..0] == [];
  }

  /** The action at index `n` takes the records and the exports one step on. */
  lemma RunStep(start: seq<IncludedDemo>, actions: seq<Action>, n: nat, copy: bool, outputDir: Path,
                includeJson: bool)
    requires forall i :: 0 <= i < |start| ==> Movable(start[i])
    requires n < |actions|
    ensures forall i :: 0 <= i < |AfterActions(start, actions[..n], copy, outputDir)| ==>
      Movable(AfterActions(start, actions[..n], copy, outputDir)[i])
    ensures AfterActions(start, actions[..n + 1], copy, outputDir)
      == Step(AfterActions(start, actions[..n], copy, outputDir), actions[n], copy, outputDir)
    ensures ExportsOf(start, actions[..n + 1], copy, outputDir, includeJson)
      == ExportsOf(start, actions[..n], copy, outputDir, includeJson)
         + if actions[n] == Export then [ExportLines(AfterActions(start, actions[..n], copy, outputDir), includeJson)]
           else []
  {
    assert actions[..n + 1] == actions[..n] + [actions[n]];
    AfterOneMore(start, actions[..n], actions[n], copy, outputDir);
    ExportsOfOneMore(start, actions[..n], actions[n], copy, outputDir, includeJson);
  }

  /** One action of `process` on the records in place: a move or copy of every
      record, or an export of them as they are. */
  method RunAction(files: array<IncludedDemo>, action: Action, copy: bool, outputDir: Path,
                   includeJson: bool, disk: Disk)
    returns (res: Outcome, disk': Disk, exported: seq<seq<Path>>)
    requires forall i :: 0 <= i < files.Length ==> Movable(files[i])
    modifies files
    ensures exported == if action == Export then [ExportLines(old(files[..]), includeJson)] else []
    ensures res.Done? ==> files[..] == Step(old(files[..]), action, copy, outputDir)
    ensures res.Failed? ==> action == MoveCopy && exists h :: StoppedAt(files[..], old(files[..]), h, copy, outputDir)
    ensures copy ==> files[..] == old(files[..])
  {
    exported := [];
    disk' := disk;
    match action {
      case MoveCopy =>
        ghost var before := files[..];
        var handled, transferred, reported;
        res, disk', handled, transferred, reported := ActionMoveCopy(files, copy, outputDir, disk);
        if res.Done? {
          StoppedAtEnd(files[..], before, copy, outputDir);
        }
      case Export =>
        var lines, count := ActionExport(files[..], includeJson);
        exported := [lines];
        res := Done;
    }
  }

  /** The action loop of `process` over the records in place; the first failure
      ends it. `ran` counts the actions completed. Each export writes the
      records as the actions before it left them; when every action succeeds
      the records are as the actions leave them, and a move that fails leaves
      them stopped part-way. */
  method RunActions(files: array<IncludedDemo>, actions: seq<Action>, copy: bool, outputDir: Path,
                    includeJson: bool, disk: Disk)
    returns (res: Outcome, exports: seq<seq<Path>>, ran: nat)
    requires forall i :: 0 <= i < files.Length ==> Movable(files[i])
    modifies files
    ensures ran <= |actions|
    ensures exports == ExportsOf(old(files[..]), actions[..ran], copy, outputDir, includeJson)
    ensures res.Done? ==> ran == |actions| && files[..] == AfterActions(old(files[..]), actions, copy, outputDir)
    ensures res.Failed? ==>
      && ran < |actions| && actions[ran] == MoveCopy
      && exists h :: StoppedAt(files[..], AfterActions(old(files[..]), actions[..ran], copy, outputDir), h, copy, outputDir)
    ensures (copy || MoveCopy !in actions) ==> files[..] == old(files[..])
  {
    ghost var start := files[..];
    var d := disk;
    exports := [];
    ran := 0;
    while ran < |actions|
      invariant ran <= |actions|
      invariant files[..] == AfterActions(start, actions[..ran], copy, outputDir)
      invariant exports == ExportsOf(start, actions[..ran], copy, outputDir, includeJson)
    {
      RunStep(start, actions, ran, copy, outputDir, includeJson);
      var r, d', exported := RunAction(files, actions[ran], copy, outputDir, includeJson, d);
      d := d';
      if r.Failed? {
        if copy {
          AfterActionsUnchanged(start, actions[..ran], copy, outputDir);
        }
        return r, exports, ran;
      }
      exports := exports + exported;
      ran := ran + 1;
    }
    assert actions[..ran] == actions;
    if copy || MoveCopy !in actions {
      AfterActionsUnchanged(start, actions, copy, outputDir);
    }
    res := Done;
  }

  /** `process`, after the prompts: the chosen directory must exist; the chosen
      collector fills the records; with none, nothing more happens; otherwise the
      chosen actions run in order on the same records, so an export after a move
      writes the new paths. */
  method Process(fs: FileSystem, blocked: set<Path>, demosDir: Path, mode: SearchMode, filterKsOnly: bool,
                 actions: seq<Action>, copy: bool, outputDir: Path, includeJson: bool)
    returns (res: Outcome, records: seq<IncludedDemo>, exports: seq<seq<Path>>, ran: nat)
    ensures !fs.Exists(demosDir) ==> res == Failed(DirectoryNotFound(demosDir)) && records == [] && ran == 0
    ensures fs.Exists(demosDir) && Collected(fs, demosDir, mode, filterKsOnly).Err? ==>
      res == Failed(Collected(fs, demosDir, mode, filterKsOnly).error) && ran == 0
    ensures fs.Exists(demosDir) && Collected(fs, demosDir, mode, filterKsOnly) == Ok([]) ==>
      res == Done && records == [] && exports == [] && ran == 0
    ensures ran <= |actions|
    ensures fs.Exists(demosDir) && Collected(fs, demosDir, mode, filterKsOnly).Ok?
            && Collected(fs, demosDir, mode, filterKsOnly) != Ok([]) ==>
      var start := Collected(fs, demosDir, mode, filterKsOnly).value;
      && (forall i :: 0 <= i < |start| ==> Movable(start[i]))
      && exports == ExportsOf(start, actions[..ran], copy, outputDir, includeJson)
      && (res.Done? ==> ran == |actions| && records == AfterActions(start, actions, copy, outputDir))
      && (res.Failed? ==>
            && ran < |actions| && actions[ran] == MoveCopy
            && exists h :: StoppedAt(records, AfterActions(start, actions[..ran], copy, outputDir), h, copy, outputDir))
      && ((copy || MoveCopy !in actions) ==> records == start)
  {
    if !fs.Exists(demosDir) {
      return Failed(DirectoryNotFound(demosDir)), [], [], 0;
    }
    var collected;
    collected, records := Collect(fs, demosDir, mode, filterKsOnly);
    if collected.Failed? {
      return collected, records, [], 0;
    }
    if records == [] {
      return Done, records, [], 0;
    }
    CollectedMovable(fs, demosDir, mode, filterKsOnly);
    assert forall i :: 0 <= i < |records| ==> records[i] in records;
    var files := new IncludedDemo[|records|](i requires 0 <= i < |records| => records[i]);
    assert files[..] == records;
    res, exports, ran := RunActions(files, actions, copy, outputDir, includeJson, Disk(fs.existing, blocked));
    records := files[..];
  }
}
