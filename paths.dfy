/** The part of Rust's `std::path` the tool relies on, over paths given by their components. */
module Paths {
  import opened Wrappers

  /** A path as its components: `demos/a.dem` is `["demos", "a.dem"]`. */
  type Path = seq<string>

  /** An `OsStr`: either it converts to UTF-8 text or it does not. */
  datatype OsStr = Unicode(text: string) | NonUnicode

  /** `OsStr::to_str`. */
  function ToStr(s: OsStr): (r: Option<string>)
    ensures r.Some? <==> s.Unicode?
    ensures s.Unicode? ==> r.value == s.text
  {
    match s
    case Unicode(t) => Some(t)
    case NonUnicode => None
  }

  /** `Path::join` with a single file name. */
  function Join(p: Path, name: string): Path
  {
    p + [name]
  }

  /** `Path::parent`: the path without its last component; none for the empty path. */
  function Parent(p: Path): (r: Option<Path>)
    ensures r.Some? <==> |p| > 0
    ensures r.Some? ==> Join(r.value, p[|p| - 1]) == p
  {
    if |p| == 0 then None else Some(p[..|p| - 1])
  }

  lemma ParentOfJoin(p: Path, name: string)
    ensures Parent(Join(p, name)) == Some(p)
  {
    assert Join(p, name)[..|p|] == p;
  }

  /** `Path::file_name`: the last component. */
  function FileName(p: Path): string
    requires |p| > 0
  {
    p[|p| - 1]
  }

  /** Index of the last `.` in `s`, if any. */
  function LastDot(s: string): (r: Option<nat>)
    ensures r.Some? ==> r.value < |s| && s[r.value] == '.'
    ensures r.Some? ==> forall j :: r.value < j < |s| ==> s[j] != '.'
    ensures r.None? ==> forall j :: 0 <= j < |s| ==> s[j] != '.'
  {
    if |s| == 0 then None
    else if s[|s| - 1] == '.' then Some(|s| - 1)
    else LastDot(s[..|s| - 1])
  }

  /** The private `rsplit_file_at_dot` of `std::path`: the text before and after the
      last dot of a file name. `..` and a name whose only dot leads have no "after". */
  function SplitAtDot(name: string): (Option<string>, Option<string>)
  {
    if name == ".." then (Some(name), None)
    else match LastDot(name)
      case None => (None, Some(name))
      case Some(k) => if k == 0 then (Some(name), None) else (Some(name[..k]), Some(name[k + 1..]))
  }

  /** `Path::extension`: `before.and(after)` of the file name's split. */
  function Extension(p: Path): Option<OsStr>
  {
    if |p| == 0 then None
    else
      var (before, after) := SplitAtDot(FileName(p));
      if before.Some? && after.Some? then Some(Unicode(after.value)) else None
  }

  /** `Path::file_stem`: `before.or(after)` of the file name's split. */
  function FileStem(name: string): string
  {
    var (before, after) := SplitAtDot(name);
    if before.Some? then before.value else if after.Some? then after.value else name
  }

  /** `Path::with_extension`: the file name's stem followed by `.ext`
      (no dot for an empty `ext`); a path without file name is returned as it is. */
  function WithExtension(p: Path, ext: string): Path
  {
    if |p| == 0 then p
    else p[..|p| - 1] + [FileStem(FileName(p)) + (if ext == "" then "" else "." + ext)]
  }
}
