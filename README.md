# demclean in Dafny

demclean sorts Team Fortress 2 demo recordings (`.dem` files). It keeps the demos
that carry no bookmarked events, and optionally those whose only events are
killstreaks. Then it moves or copies the kept demos to an output directory, or
exports their paths to a text file. Two recorders are supported:

- **DemoSupport** writes a sidecar `<demo>.json` next to each demo. Its
  `"name"` entries label the events.
- **PREC** writes one shared log, `KillStreaks.txt`. Each of its lines reads
  `[<timestamp>] <event> ("<demo>" at <tick>)`.

The model follows the source file by file:

- `policy.dfy` (module `Policy`) holds the three-rule decision both collectors
  reach: no labels keeps the demo; labels without the flag drop it; with the flag
  the demo is kept exactly when every label is a killstreak.
- `ds.dfy` (module `DemoSupportCollector`, for `src/ds.rs`) models the sidecar
  decision. It strips whitespace in place on a character array, then scans
  `"name":"<label>",` entries, returning at the first label that is not a
  killstreak. It also models the directory walk that pairs each demo with its
  sidecar. Both loops are proved equal to specification functions.
- `prec_log.dfy` (module `PrecLog`) writes the two PREC patterns out as scanners.
  The extraction pattern follows the regex engine's leftmost-first rule; the
  killstreak test is a case-sensitive substring search.
- `prec.dfy` (module `PrecCollector`, for `src/prec.rs`) models the search for the
  log (the chosen directory, then its parent) and the event map built from the
  log. It also models the walk of the log's directory.
- `util.dfy` (module `Util`) is the `.dem` test. `paths.dfy` (module `Paths`)
  holds the `std::path` rules the tool relies on: join, parent, extension, file
  stem and `with_extension`.
- `app.dfy` (module `App`, for `src/main.rs`) models how a move rewrites a
  record's paths and the lines and count of an export. It also models the
  move/copy action, which updates an array of records in place, and the checks
  `process` makes around the collection.
- `files.dfy` (module `Files`) holds the file-system snapshot the collectors read,
  the errors and the `IncludedDemo` record. `text.dfy` (module `Text`) holds the
  character classes.

A path is the list of its components, read relative to the working directory: there is no root component, so an absolute directory is not told apart from a relative one, and the parent of a one-component path is the empty path.

The file system is a value. It lists each readable directory's entries in
listing order, and it holds the set of existing paths and the text of each
readable file. The empty path is never listable: `read_dir("")` fails, so a
snapshot that stands for a run has no listing for `[]`. This matters when the log
is found in the working directory, whose path here is the empty parent of a
one-component directory; the walk then ends in an error. Moves and copies act on a second value, `App.Disk`. It starts from
the same set of existing paths and names the targets that refuse to be written.
Every answer a prompt gives becomes a parameter of `App.Process`.

## Model

| member | source | states |
|---|---|---|
| Text.Strip | src/ds.rs:14-15 | the stripped text holds no whitespace and keeps exactly the characters of the input that are not whitespace, where whitespace is `char::is_whitespace` (`Text.IsWhitespace`, the Unicode `White_Space` characters) |
| Text.StripAppend | src/ds.rs:15 | stripping a concatenation strips each part and concatenates the results, so every character that is not whitespace is kept once, in its place, and each whitespace character is dropped |
| Text.StripOfWhitespaceFree | src/ds.rs:15 | stripping text that has no whitespace returns it unchanged |
| Text.StripIdempotent | src/ds.rs:15 | stripping twice gives the same result as stripping once |
| Text.AsciiLower | src/ds.rs:27 | only `A`..`Z` change, each to its lower-case letter |
| Text.ToLowercase | src/prec.rs:78 | has the same length as the input, and lowers each ASCII letter |
| Paths.ToStr | src/util.rs:17 | conversion succeeds exactly for text that is valid Unicode |
| Paths.Parent | src/prec.rs:67 | has a parent exactly when the path is not empty; joining the parent with the last component gives the path back |
| Paths.ParentOfJoin | src/prec.rs:67 | the parent of `dir.join(name)` (`Paths.Join`) is `dir` |
| Paths.LastDot | src/util.rs:16-18 | finds the last `.` of a file name, or reports that it has none; `Paths.SplitAtDot` cuts the name there as `std::path` does, and `Paths.Extension`, `Paths.FileStem` and `Paths.WithExtension` are built on that cut |
| Util.IsDemo | src/util.rs:16-19 | true exactly for the extension `dem`, compared case-sensitively; false for no extension and for one that is not valid Unicode |
| Util.IsDemoPath | src/ds.rs:46 | a path passes the demo test exactly when its file name (`Paths.FileName`) is a non-empty stem followed by `.dem`; `..` and a name whose only dot leads have no extension (`Paths.Extension`) |
| Util.DemoWithJsonExtension | src/ds.rs:50 | the sidecar path of a demo (`Paths.WithExtension`, which keeps `Paths.FileStem` of the name) swaps `.dem` for `.json` in the file name and keeps the directory |
| Policy.Decide | src/prec.rs:27-46 | no labels gives (true, "no events"); labels without the flag give (false, "has events"); with the flag: (true, "has only killstreak events") when every label is a killstreak, otherwise (false, "has custom bookmark"); a demo is kept exactly when the reason is one of the two kept reasons |
| Policy.DefaultKeepsOnlyUnlabelled | src/prec.rs:35-45 | with the flag off, a demo is kept exactly when it has no labels |
| Files.FileSystem.ReadDir | src/ds.rs:44 | fails exactly for a directory that cannot be listed; otherwise gives `dir.join(name)` for each listed name, in order |
| Files.FileSystem.ReadToString | src/ds.rs:57 | succeeds exactly for an existing (`FileSystem.Exists`), readable file and gives its text |
| DemoSupportCollector.FindClose | src/ds.rs:9 | finds the first `",` at or after the given position, or reports that there is none |
| DemoSupportCollector.LabelsFromShape | src/ds.rs:9-24 | each label that `captures_iter` extracts (`LabelsFrom` from a position, `Labels` from the start) sits between `"name":"` and `",` in the text, and holds no `",` itself (it is the shortest such text) |
| DemoSupportCollector.LabelsOfWhitespaceFree | src/ds.rs:23-24 | labels cut from stripped text hold no whitespace |
| DemoSupportCollector.DsDecision | src/ds.rs:17-36 | the decision is the shared policy on `DsEvents` (none for the empty event list, else the set of labels): the empty event list gives (true, "no events") whatever the flag; other text without the flag gives (false, "has events"), even with no label in it |
| DemoSupportCollector.DsKillstreakFilter | src/ds.rs:22-33 | with the flag, any other text is kept as killstreak-only exactly when every label passes `IsKillstreakLabel`, that is equals `killstreak` ignoring ASCII case (`Text.EqIgnoreAsciiCase`: same length, equal after `AsciiLower`) (also when there is no label); otherwise it has a custom bookmark |
| DemoSupportCollector.EntryYieldsLabel | src/ds.rs:9 | an entry `"name":"<x>",` (with no `",` in `x`) makes the scan yield `x` itself, or the label of an earlier match that swallowed the entry's quote |
| DemoSupportCollector.DsCustomBookmark | src/ds.rs:22-30 | with the flag, a sidecar whose stripped text holds `"name":"<x>",` for a non-killstreak `x` is dropped as having a custom bookmark |
| DemoSupportCollector.RetainNonWhitespace | src/ds.rs:15 | the in-place `retain` leaves the stripped text at the front of the buffer and returns its length |
| DemoSupportCollector.OnlyKillstreakLabels | src/ds.rs:22-31 | the loop over the captures, stopping at the first label that is not `killstreak` in some ASCII casing, answers whether every label is one |
| DemoSupportCollector.ShouldIncludeDemo | src/ds.rs:13-37 | the in-place strip and the early-return loop over labels reach the decision of `DsDecision` on the original text |
| DemoSupportCollector.SidecarDecision | src/ds.rs:57-63 | a failed read gives (false, "failed to read json"); otherwise the decision on the text; kept exactly for the two kept reasons |
| DemoSupportCollector.DsEntry | src/ds.rs:46-75 | an entry yields a record exactly when it is a demo whose sidecar exists and is kept; the record carries the reason, the demo path, `Some(sidecar)` and the id `demosupport` (`SourceId.Name`) |
| Files.GatheredAppend | src/ds.rs:44-47 | the records of a walk (`Files.Gathered`, each entry pushing what it yields) come out in listing order: the records of a split listing are those of its parts, concatenated (shared by both collectors' walks) |
| Files.GatheredMembers | src/ds.rs:44-76 | a record is gathered exactly when some entry of the listing yields it (both directions; shared by both collectors' walks) |
| Files.GatheredStep | src/prec.rs:89-110 | one more entry of a walk pushes exactly what that entry yields onto the records gathered so far |
| DemoSupportCollector.DsCollectedRecords | src/ds.rs:70-75 | every record is a `.dem` entry of the listing, with an existing sidecar as its events path, the id `demosupport` and a kept reason |
| DemoSupportCollector.DsDefaultKeepsEmptySidecars | src/ds.rs:17-36 | without the flag, only demos whose sidecar strips to `{"events":[]}` are collected, with the reason "no events" |
| DemoSupportCollector.VisitEntry | src/ds.rs:48-75 | the loop body on one entry yields what `DsEntry` specifies |
| DemoSupportCollector.CollectDsDemos | src/ds.rs:39-79 | the result is `DsResult`, the walk `DsCollected` over the listing: an unlistable directory is an error and appends nothing; otherwise the kept records are appended after the existing ones, which stay unchanged |
| PrecLog.RunEnd | src/prec.rs:11 | `[\d/\s:]+` runs greedily: every character up to the end is a timestamp character, and the next one is not |
| PrecLog.LineEnd | src/prec.rs:11 | `.+` reaches up to the next line feed or the end of the text |
| PrecLog.AtSuffix | src/prec.rs:11 | `\s?at` with the whitespace taken first: the match ends in `at`, either right at the position or after one whitespace character; none exactly when neither form occurs there |
| PrecLog.TryDemo | src/prec.rs:11 | the second group is non-empty, carries the event it was given and ends no later than the search bound |
| PrecLog.TryDemoFinds | src/prec.rs:11 | the greedy second group: the demo name is the text up to the last `"` followed by `\s?at` within the bound, and the match ends where `\s?at` ends; with no such `"`, nothing is found |
| PrecLog.TryEvent | src/prec.rs:11 | both captured groups are non-empty and the event ends no later than the search bound |
| PrecLog.TryEventSome | src/prec.rs:11 | a capture found from a position is a match there (event up to a `\s("`, demo up to a `"\s?at`, no line feed in either), its demo name is greedy, and no later event end up to the bound completes a match |
| PrecLog.TryEventNone | src/prec.rs:11 | when nothing is found, no event end up to the bound is followed by `\s("` and a demo name that closes |
| PrecLog.AfterTimestampFinds | src/prec.rs:11 | `(.+)\s\("(.+)"\s?at` matches from a position exactly when some event end and demo end work on that line, and the match found is the one both greedy groups give |
| PrecLog.MatchAt | src/prec.rs:11 | a match captures a non-empty event and demo name, and ends after where it starts |
| PrecLog.MatchAtFinds | src/prec.rs:11 | the whole pattern matches at a position exactly when `[<timestamp>]` starts there and the rest matches after it, with the optional whitespace taken when that works and skipped otherwise; the captured event and demo name are those of the greedy groups |
| PrecLog.CapturesFrom | src/prec.rs:74-76 | every capture (`Captures` searches from the start) has a non-empty event and demo name and ends within the text |
| PrecLog.CapturesFromNone | src/prec.rs:74-76 | the search from a position yields nothing exactly when the pattern matches at no later position |
| PrecLog.CapturesFromLeftmost | src/prec.rs:74-76 | the first capture is the match at the leftmost position where the pattern matches, and the search goes on where that match ends |
| PrecLog.HasKillStreakFrom | src/prec.rs:14 | true exactly when `Kill<ws>Streak:<digit>` (`KillStreakAt`) occurs somewhere from the position on; `IsKillstreakEvent` searches the whole event name |
| PrecLog.KillstreakEventExamples | src/prec.rs:14 | `Kill Streak:5` passes, also inside longer text; `kill streak:5`, `Killstreak` and `Kill Streak:x` do not |
| PrecLog.ExtractsWellFormedLine | src/prec.rs:8-11 | a line `[<ts>] <event> ("<demo>" at<rest>` matches with exactly that event and demo name |
| PrecLog.NoBracketNoCaptures | src/prec.rs:11 | text without `[` holds no match |
| PrecLog.CapturesOfWellFormedLine | src/prec.rs:74-76 | a log of one such line gives that one capture |
| PrecLog.CapturesOfLineAt | src/prec.rs:74-76 | a well-formed line at a position, ended by a line feed or the end of the text, gives its own capture first, followed by the captures after its line feed |
| PrecLog.CapturesOfLog | src/prec.rs:74-76 | a log of well-formed lines, each followed by a line feed, gives exactly one capture per line, in order, with that line's event and demo name |
| PrecLog.SourceExampleLine | src/prec.rs:9 | the example line of the source gives the event `Kill Streak:5` for the demo `20231127_2152_cp_altitude_RED_BLU`, and that event is a killstreak |
| PrecCollector.FirstExisting | src/prec.rs:24 | gives the first present candidate that exists, or none when no such candidate exists |
| PrecCollector.FindPrecKsFile | src/prec.rs:18-25 | gives `demos_dir/KillStreaks.txt` when it exists, else `parent/KillStreaks.txt` when it exists, else none |
| PrecCollector.FoundLogLocation | src/prec.rs:18-25 | a log that was found exists and lies in the chosen directory or in its parent |
| PrecCollector.LogRoot | src/prec.rs:67 | the walk root is the log's parent directory: the chosen directory or its parent |
| PrecCollector.EventMapContents | src/prec.rs:71-87 | for `EventMap`, where each capture's key (`EventKey`) is the root joined with the demo name lower-cased plus `.dem`: every key of the map exists, lies in the root and has a non-empty set; an event is in a key's set exactly when the key exists and some capture names that demo, lower-cased with `.dem` added, with that event |
| PrecCollector.BuildEventMap | src/prec.rs:71-87 | the loop over the captures builds the map `EventMap` specifies |
| PrecCollector.ShouldIncludeDemo | src/prec.rs:27-46 | the early-return loop over the event set reaches the shared policy's decision under the case-sensitive killstreak test |
| PrecCollector.PrecEntry | src/prec.rs:91-109 | an entry yields a record exactly when it is a demo that the policy keeps on its event set (`Lookup` in the event map, none when the map lacks the path); the record has no events path and the id `prec` |
| PrecCollector.UnloggedDemoKept | src/prec.rs:96-97 | a demo that the log never names is kept with the reason "no events", whatever the flag |
| PrecCollector.PrecCollectedRecords | src/prec.rs:104-109 | every record is a `.dem` entry of the listing, with no events path, the id `prec` and a kept reason |
| PrecCollector.PrecResult | src/prec.rs:53-65 | when no log is found, the result is success with no records |
| PrecCollector.WalkDemos | src/prec.rs:89-110 | the second loop appends exactly the records of `PrecCollected`, after the existing ones |
| PrecCollector.CollectPrecDemos | src/prec.rs:48-113 | a failed read of the log or of the directory is an error and appends nothing; otherwise the records are appended after the existing ones |
| PrecCollector.PrecRecordsUnderLogRoot | src/prec.rs:67-89 | every record lies directly in the log's directory, which is the chosen directory or its parent, and has no events path |
| App.Disk.CreateDir | src/main.rs:40-42 | fails exactly for a blocked path; otherwise the directory exists afterwards |
| App.Disk.Transfer | src/main.rs:44-47 | fails when the source is missing or the target is blocked; a copy keeps the source and a rename removes it; the target exists afterwards |
| App.MovedPaths | src/main.rs:49-60 | for `Moved` (each path `Relocated` into the target directory): after a move, each path of the record is `output_dir / id / file_name`, keeping its file name; a missing events path stays missing; the reason and id are kept |
| App.CopiedUnchanged | src/main.rs:58-60 | after a copy the record is unchanged |
| App.MovedIdempotent | src/main.rs:38-71 | moving a moved record to the same directory again changes nothing |
| App.MoveTo | src/main.rs:38-71 | on success the record is the moved record and one or two files were transferred; after a move, the files are where the record says; on failure the record keeps its reason, id and events path, and its demo path is either the old one or the moved one; a copy leaves the record as it was and removes nothing |
| App.ActionExport | src/main.rs:140-152 | writes the lines `ExportLines` specifies (each demo path, followed by its events path when those are asked for and present), and the count equals the number of lines |
| App.ExportCount | src/main.rs:140-151 | the exported count is one per record, plus one per events path (`JsonCount`) when those are asked for |
| App.ExportDemoPaths | src/main.rs:141-143 | without events paths, the export is exactly the demo paths in record order |
| App.ExportPairs | src/main.rs:141-150 | when every record has an events path and those are asked for, each demo line is directly followed by its events line |
| App.TransferCountOfRecords | src/main.rs:65-68 | `TransferCount`, the sum of the files each `move_to` transfers (`Transfers`: the demo, plus the events file when there is one): a move or copy transfers one file per record plus one per events path |
| App.ReportedCountOvercounts | src/main.rs:104 | the reported count (`ReportedMoveCount`, twice the number of records): for one PREC record, two files are reported while one is transferred |
| App.ReportedCountExactIff | src/main.rs:99-105 | the reported count is correct exactly when every record has an events path |
| App.MovedUpTo | src/main.rs:95-97 | after the first `n` records are handled, those are moved and the rest are untouched; every record stays movable; a copy changes none |
| App.MoveAll | src/main.rs:95-97 | the loop calls `move_to` on each record in order and returns the first failure at once; on success every record is moved and the transferred count is `TransferCount`; on failure the records before it are moved, those after it untouched, and the failing record is as `move_to` left it: its demo stayed or moved, everything else kept; a copy leaves the array as it was |
| App.ActionMoveCopy | src/main.rs:74-111 | records run in order and stop at the first failure; records before that point are moved, the failing one is as `move_to` left it, and records after it are unchanged; on success it counts the files transferred and reports `2 * len`; a copy leaves every record unchanged |
| App.CollectedMovable | src/main.rs:193-199 | every collected record has a file name, so `file_name().unwrap()` succeeds on it |
| App.Collect | src/main.rs:191-199 | the chosen collector's error is returned with no records; otherwise its records are returned |
| App.RunAction | src/main.rs:222-226 | one action on the records in place: an export writes the records as they stand and changes nothing; a move or copy that succeeds leaves every record moved, one that fails leaves them stopped part-way; a copy changes no record |
| App.RunActions | src/main.rs:222-227 | stated with `AfterActions` (the records once actions have run, one `Step` per action) and `ExportsOf` (what the exports write): the actions run in order on the same records until the first failure, which only a move or copy can cause; each export writes `ExportLines` of the records as the actions before it left them; when all succeed the records are as the actions leave them (moved once a move has run); a failed move leaves them stopped part-way; a copy, or no move at all, leaves them unchanged |
| App.AfterOneMore | src/main.rs:222-227 | one more action takes the records one step on: a move moves them, also when a move ran before, and an export leaves them as they are |
| App.MovedTwice | src/main.rs:222-227 | moving the moved records again changes nothing, so a second move action leaves them as the first did |
| App.ExportsOfRecords | src/main.rs:222-227 | every export writes either the records as collected or the moved ones, and the collected ones as long as no move ran before it |
| App.MoveThenExport | src/main.rs:222-227 | choosing move then export exports the moved paths |
| App.Process | src/main.rs:162-230 | a missing directory is an error before any collection; a collector error is returned; no records means success with no action run; otherwise every collected record is movable, the actions run on those records, the exports and final records are those `RunActions` states (on a failed move, the records are stopped part-way through that move), and a copy or no move leaves the records as collected |
| Policy.TextIdentifiesReason | src/ds.rs:17-36 | the printed reason texts (also those of src/prec.rs:32-45 and "failed to read json" of src/ds.rs:61) tell the reasons apart: two reasons print the same text exactly when they are the same |

## Left out

- The prompts, coloured printing, the `Display` of the action names and the wait for a key in `main` are user interface, and so are the collectors' messages: the missing-sidecar, failed-read and "Skipping" lines of `collect_ds_demos`, and the log-not-found and "Skipping" lines of `collect_prec_demos`. The model keeps their decisions and reasons, not the printing. `App.Process` takes every answer as a parameter: the directory, the mode, the flag, the actions, the output directory, copy or move, and whether to export events paths.
- `get_output_name` reads the wall clock. The output directory and the export file are parameters, so the default names built from it are not modelled.
- Opening and writing the export file (`OpenOptions`, `BufWriter`) is left out. `App.ActionExport` returns the lines it would write, and a failed write is not modelled.
- The contents of moved or copied files are left out. `App.Disk` tracks only which paths exist. A transfer fails only when the source is missing or the target is blocked, and other operating-system errors are not told apart.
- `MoveTo` returns the updated record instead of changing it through `&mut self`. The in-place update of the slice is kept in `App.ActionMoveCopy`, which works on an array.
- The error messages (`anyhow` texts) are not modelled. Each error is a constructor of `Files.Error` that names its path.
- The regex engine is not modelled. Both patterns are written out as scanners over the text.
- PrecLog.KillStreakAt: `\d` is modelled as ASCII digits only, while the regex crate's `\d` also matches other Unicode decimal digits. The same holds for the timestamp class in `PrecLog.IsTimestampChar`.
- Text.ToLowercase: only ASCII letters are lowered, while `str::to_lowercase` lowers every Unicode letter. Demo names with other letters can therefore map to a different key.
- The DemoSupport pattern `\s?+` after the colon repeats an optional whitespace character, so it accepts any run of whitespace there. It runs only on stripped text, so that whitespace never occurs and the scanner leaves it out.
- `.unwrap()` on directory entries is taken to succeed. `file_name().unwrap()` becomes the precondition `App.Movable`, which `App.CollectedMovable` proves for every collected record. The `to_str().unwrap()` on paths in the export is not modelled, because paths here are text.
- Root components and absolute paths are not modelled: paths are relative component lists, so `Path::parent` of `/` (none) and of a top-level absolute directory are not told apart from the relative cases.
- PrecCollector.EventKey: a captured demo name is one path component. `Path::join` splits a name holding `/` into components, lets an absolute name replace the directory, and `PathBuf` equality ignores inner `.` components, so a name such as `./demo` keys `demos/demo.dem` in the tool but `demos/"./demo.dem"` here, which never exists. EventMapContents' "every key lies in the root" rests on this.
- App.RunActions: the action list may repeat or reorder actions. The prompt yields each chosen action at most once, with the move or copy before the export, so `App.MovedTwice` and the repeated-move case of `App.AfterOneMore` cover lists the prompt never produces.
- `HashMap` and `HashSet` become Dafny `map` and `set`. The decision does not depend on iteration order.
- The printing loop in `process` that lists the included demos is left out.

## Findings

| source | as written | input that shows it | evidently intended | confidence | as-written member | corrected member |
|---|---|---|---|---|---|---|
| src/main.rs:104 | the move/copy message reports `files.len() * 2` files | a single PREC record, which has no events file: one file is moved, but 2 files are reported | the number of files transferred: one per record plus one per events file | not executed | App.ReportedCountOvercounts | App.TransferCountOfRecords |
