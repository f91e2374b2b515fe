/** The file system as the collectors see it, the errors they can raise, and the
    record they produce (`IncludedDemo` in `src/main.rs`). */
module Files {
  import opened Wrappers
  import opened Paths
  import opened Policy

  /** A snapshot of the file system: the names `read_dir` lists for each readable
      directory, in listing order; every path that `exists()`; and the text
      `read_to_string` returns for each readable file. */
  datatype FileSystem = FileSystem(listings: map<Path, seq<string>>, existing: set<Path>, contents: map<Path, string>)
  {
    predicate Exists(p: Path)
    {
      p in existing
    }

    /** `std::fs::read_dir`, each entry given as `dir.join(name)`. */
    function ReadDir(dir: Path): (r: Result<seq<Path>, Error>)
      ensures r.Err? <==> dir !in listings
      ensures r.Err? ==> r.error == ReadDirFailed(dir)
      ensures r.Ok? ==> |r.value| == |listings[dir]|
      ensures r.Ok? ==> forall i :: 0 <= i < |r.value| ==> r.value[i] == Join(dir, listings[dir][i])
    {
      if dir in listings then
        var names := listings[dir];
        Ok(seq(|names|, i requires 0 <= i < |names| => Join(dir, names[i])))
      else Err(ReadDirFailed(dir))
    }

    /** `std::fs::read_to_string`: only an existing, readable file gives text. */
    function ReadToString(p: Path): (r: Result<string, Error>)
      ensures r.Ok? <==> Exists(p) && p in contents
      ensures r.Ok? ==> r.value == contents[p]
      ensures r.Err? ==> r.error == ReadFileFailed(p)
    {
      if Exists(p) && p in contents then Ok(contents[p]) else Err(ReadFileFailed(p))
    }
  }

  /** The errors the tool propagates with `?`. */
  datatype Error =
    | DirectoryNotFound(path: Path)
    | ReadDirFailed(path: Path)
    | ReadFileFailed(path: Path)
    | CreateDirFailed(path: Path)
    | TransferFailed(path: Path)

  /** `Result<(), anyhow::Error>`. */
  datatype Outcome = Done | Failed(error: Error)

  /** The collector that produced a record. */
  datatype SourceId = DemoSupport | Prec
  {
    /** The `id` text, also the name of the output sub-directory. */
    function Name(): string
    {
      match this
      case DemoSupport => "demosupport"
      case Prec => "prec"
    }
  }

  /** One demo that passed the policy. */
  datatype IncludedDemo = IncludedDemo(inclusionReason: Reason, demoPath: Path, eventsJsonPath: Option<Path>, id: SourceId)

  /** Appending an optional record: `Vec::push` when there is one. */
  function Pushed(records: seq<IncludedDemo>, r: Option<IncludedDemo>): seq<IncludedDemo>
  {
    if r.Some? then records + [r.value] else records
  }

  /** A walk over a listing that pushes what each entry yields, in listing order. */
  function Gathered(entries: seq<Path>, visit: Path -> Option<IncludedDemo>): seq<IncludedDemo>
  {
    if entries == [] then []
    else Pushed(Gathered(entries[..|entries| - 1], visit), visit(entries[|entries| - 1]))
  }

  /** One more entry of the walk pushes what it yields. */
  lemma GatheredStep(entries: seq<Path>, n: nat, visit: Path -> Option<IncludedDemo>)
    requires n < |entries|
    ensures Gathered(entries[..n + 1], visit) == Pushed(Gathered(entries[..n], visit), visit(entries[n]))
  {
    assert entries[..n + 1][..n] == entries[..n];
  }

  /** The walk keeps listing order: the records of a listing are those of its
      first part followed by those of the rest. */
  lemma {:induction false} GatheredAppend(a: seq<Path>, b: seq<Path>, visit: Path -> Option<IncludedDemo>)
    ensures Gathered(a + b, visit) == Gathered(a, visit) + Gathered(b, visit)
    decreases |b|
  {
    if b == [] {
      assert a + b == a;
    } else {
      var b' := b[..|b| - 1];
      assert (a + b)[..|a + b| - 1] == a + b';
      GatheredAppend(a, b', visit);
    }
  }

  /** A record is gathered exactly when some entry of the listing yields it. */
  lemma {:induction false} GatheredMembers(entries: seq<Path>, visit: Path -> Option<IncludedDemo>)
    ensures forall r :: r in Gathered(entries, visit) <==>
      exists k :: 0 <= k < |entries| && visit(entries[k]) == Some(r)
    decreases |entries|
  {
    if entries != [] {
      var front := entries[..|entries| - 1];
      GatheredMembers(front, visit);
      forall r | r in Gathered(entries, visit)
        ensures exists k :: 0 <= k < |entries| && visit(entries[k]) == Some(r)
      {
        if r in Gathered(front, visit) {
          var k :| 0 <= k < |front| && visit(front[k]) == Some(r);
          assert entries[k] == front[k];
        } else {
          assert visit(entries[|entries| - 1]) == Some(r);
        }
      }
      forall r, k | 0 <= k < |entries| && visit(entries[k]) == Some(r)
        ensures r in Gathered(entries, visit)
      {
        if k < |front| {
          assert front[k] == entries[k];
        }
      }
    }
  }
}
