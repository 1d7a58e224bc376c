/**
 * File-system paths as sequences of components, the view `std::path::Path` gives of them on a
 * Unix system: whether the path is rooted, then its normal components (no "." and no empty
 * components, which `Path::components` never yields).
 */
module Paths {
  import opened Base

  datatype Path = Path(absolute: bool, parts: seq<string>)

  const DOT_GIT: string := ".git"

  /** `Path::join`: an absolute right-hand side replaces the left-hand side. */
  function Join(p: Path, q: Path): (r: Path)
    ensures q.absolute ==> r == q
    ensures !q.absolute ==> r.absolute == p.absolute && r.parts == p.parts + q.parts
  {
    if q.absolute then q else Path(p.absolute, p.parts + q.parts)
  }

  /** The relative path of one component. */
  function Component(name: string): Path {
    Path(false, [name])
  }

  /** `Path::parent`: the path without its last component; none for a root or an empty path. */
  function Parent(p: Path): (r: Option<Path>)
    ensures r.None? <==> p.parts == []
    ensures r.Some? ==> r.value.absolute == p.absolute && r.value.parts + [p.parts[|p.parts| - 1]] == p.parts
  {
    if p.parts == [] then None else Some(Path(p.absolute, p.parts[..|p.parts| - 1]))
  }

  /** `Path::file_name`: the last component, unless it is "..". */
  function FileName(p: Path): (r: Option<string>)
    ensures r.Some? ==> p.parts != [] && r.value == p.parts[|p.parts| - 1] && r.value != ".."
  {
    if p.parts == [] || p.parts[|p.parts| - 1] == ".." then None else Some(p.parts[|p.parts| - 1])
  }

  /** `Path::ends_with` for a single component. */
  predicate EndsWithComponent(p: Path, name: string) {
    p.parts != [] && p.parts[|p.parts| - 1] == name
  }

  /** `Path::strip_prefix(base).is_ok()`: `base` is a component-wise prefix of `p`. */
  predicate StartsWith(p: Path, base: Path)
    ensures StartsWith(p, base) ==> |base.parts| <= |p.parts| && Join(base, Path(false, p.parts[|base.parts|..])) == p
  {
    p.absolute == base.absolute && |base.parts| <= |p.parts| && p.parts[..|base.parts|] == base.parts
  }

  /** Index of the last '.' in a name. */
  function LastDot(name: string): (r: Option<nat>)
    ensures r.None? <==> '.' !in name
    ensures r.Some? ==> r.value < |name| && name[r.value] == '.' && '.' !in name[r.value + 1..]
  {
    if name == [] then None
    else if name[|name| - 1] == '.' then Some(|name| - 1)
    else
      var r := LastDot(name[..|name| - 1]);
      assert forall j :: 0 <= j < |name| - 1 ==> name[..|name| - 1][j] == name[j];
      r
  }

  /**
   * `Path::extension`: what follows the last '.' of the file name, unless that '.' opens the
   * name (".git" has no extension); ".." has none either.
   */
  function Extension(p: Path): (r: Option<string>)
    ensures r.Some? ==> FileName(p).Some? && '.' !in r.value
    ensures r.Some? ==> var name := FileName(p).value;
      |r.value| + 2 <= |name| && name[|name| - |r.value| - 1] == '.' && name[|name| - |r.value|..] == r.value
    ensures FileName(p).Some? && '.' !in FileName(p).value ==> r.None?
  {
    match FileName(p)
    case None => None
    case Some(name) =>
      match LastDot(name)
      case None => None
      case Some(i) => if i == 0 then None else Some(name[i + 1..])
  }

  lemma StartsWithReflexive(p: Path)
    ensures StartsWith(p, p)
  {
    assert p.parts[..|p.parts|] == p.parts;
  }

  /** A relative path joined onto `base` stays under `base`. */
  lemma JoinStartsWith(base: Path, q: Path)
    requires !q.absolute
    ensures StartsWith(Join(base, q), base)
  {
    assert (base.parts + q.parts)[..|base.parts|] == base.parts;
  }

  /** The parent of `p/name` is `p`, and its file name is `name`. */
  lemma ParentOfJoinComponent(p: Path, name: string)
    requires name != ".."
    ensures Parent(Join(p, Component(name))) == Some(p)
    ensures FileName(Join(p, Component(name))) == Some(name)
  {
    assert (p.parts + [name])[..|p.parts|] == p.parts;
  }

  /** A path is its parent joined with its last component. */
  lemma JoinParentFileName(p: Path)
    requires FileName(p).Some?
    ensures Parent(p).Some? && Join(Parent(p).value, Component(FileName(p).value)) == p
  {
  }

  /** A name that starts with its only dot has no extension: ".git" is not an extension "git". */
  lemma ExtensionExamples()
    ensures Extension(Component(".git")) == None
    ensures Extension(Component("repo.git")) == Some("git")
    ensures Extension(Component("repo")) == None
  {
    assert LastDot(".git") == Some(0);
    LastDotOfRepoGit();
    assert "repo.git"[5..] == "git";
    assert '.' !in "repo";
  }

  /** The last dot of "repo.git" is at index 4. */
  lemma LastDotOfRepoGit()
    ensures LastDot("repo.git") == Some(4)
  {
    var n := "repo.git";
    assert n[..7] == "repo.gi" && n[..7][..6] == "repo.g" && n[..7][..6][..5] == "repo.";
    assert LastDot("repo.") == Some(4);
    assert LastDot("repo.g") == Some(4);
    assert LastDot("repo.gi") == Some(4);
  }

  /** The extension is read off the last component alone. */
  lemma ExtensionOfLastComponent(p: Path, name: string)
    requires p.parts != [] && p.parts[|p.parts| - 1] == name
    ensures Extension(p) == Extension(Component(name))
  {
  }
}
