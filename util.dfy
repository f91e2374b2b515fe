/** `src/util.rs`: the demo-file test. */
module Util {
  import opened Wrappers
  import opened Paths

  const DemoExtension: string := "dem"

  /** `is_demo`: the extension converts to text and that text is exactly `dem`. */
  function IsDemo(ext: Option<OsStr>): (r: bool)
    ensures r <==> ext == Some(Unicode("dem"))
    ensures ext.None? || ext == Some(NonUnicode) ==> !r
  {
    match ext
    case None => false
    case Some(os) =>
      match ToStr(os)
      case None => false
      case Some(text) => text == DemoExtension
  }

  /** A file name that `Path::extension` reports as `dem`: at least one character,
      then `.dem`. */
  predicate IsDemoName(name: string)
  {
    |name| >= 5 && name[|name| - 4..] == ".dem"
  }

  /** On whole paths the test is a test of the file name: the extension is `dem`
      exactly when the name is a non-empty stem followed by `.dem`. */
  lemma IsDemoPath(p: Path)
    ensures IsDemo(Extension(p)) <==> |p| > 0 && IsDemoName(p[|p| - 1])
  {
    if |p| > 0 {
      var name := p[|p| - 1];
      if IsDemoName(name) {
        DemoNameSplits(name);
      }
      if IsDemo(Extension(p)) {
        DemoSplitIsDemoName(name);
      }
    }
  }

  /** A demo name splits at its last dot into a non-empty stem and `dem`. */
  lemma DemoNameSplits(name: string)
    requires IsDemoName(name)
    ensures SplitAtDot(name) == (Some(name[..|name| - 4]), Some("dem"))
  {
    var k := |name| - 4;
    var tail := name[k..];
    assert tail == ".dem";
    assert tail[0] == '.' && tail[1] == 'd' && tail[2] == 'e' && tail[3] == 'm';
    assert name[k] == tail[0] && name[k + 1] == tail[1] && name[k + 2] == tail[2] && name[k + 3] == tail[3];
    assert LastDot(name) == Some(k);
    assert name[k + 1..] == "dem";
    assert name != ".." by {
      assert |name| >= 5;
    }
  }

  /** A name whose split gives the extension `dem` is a demo name. */
  lemma DemoSplitIsDemoName(name: string)
    requires SplitAtDot(name).0.Some? && SplitAtDot(name).1 == Some("dem")
    ensures IsDemoName(name)
  {
    assert name != "..";
    var k := LastDot(name).value;
    assert k != 0;
    var after := name[k + 1..];
    assert after == "dem";
    assert |name| == k + 4;
    assert after[0] == 'd' && after[1] == 'e' && after[2] == 'm';
    var tail := name[k..];
    assert |tail| == 4;
    assert tail[0] == '.' && tail[1] == after[0] && tail[2] == after[1] && tail[3] == after[2];
    assert tail == ".dem";
  }

  /** `with_extension("json")` on a demo path swaps `.dem` for `.json` in the file
      name and keeps the directory. */
  lemma DemoWithJsonExtension(p: Path)
    requires IsDemo(Extension(p))
    ensures |p| > 0
    ensures WithExtension(p, "json") == p[..|p| - 1] + [p[|p| - 1][..|p[|p| - 1]| - 4] + ".json"]
  {
    IsDemoPath(p);
    var name := p[|p| - 1];
    var k := |name| - 4;
    assert name[k] == '.' && name[k + 1] == 'd' && name[k + 2] == 'e' && name[k + 3] == 'm' by {
      assert name[k..] == ".dem";
    }
    assert LastDot(name) == Some(k);
    assert name != ".." && k != 0;
    assert FileStem(name) == name[..k];
    assert FileName(p) == name;
    assert WithExtension(p, "json") == p[..|p| - 1] + [name[..k] + ("." + "json")];
    assert "." + "json" == ".json";
  }
}
