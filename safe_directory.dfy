/**
 * `check_safe_directories` of gix/src/open/repository.rs: whether a path is covered by the
 * `safe.directory` values, scanned in order with one flag. "*" sets the flag, "" clears it, and
 * any other value is consulted only while the flag is clear: after interpolation (or, should
 * that fail, taken literally) it must be absolute, and it then grants safety by exact equality
 * with the canonicalised path, or, when its last component is "*", by the path lying under
 * its parent.
 *
 * Canonicalisation (`realpath_opts` with the current directory) and interpolation (with the
 * installation and home directories) are the oracles of a `Resolver`.
 */
module SafeDirectory {
  import opened Base
  import opened Paths

  datatype Resolver = Resolver(
    realpath: Path -> Option<Path>,
    interpolate: string -> Option<Path>,
    literal: string -> Path)

  datatype Verdict = Safe | UnsafeGitDir(path: Path)

  /** The path under test: canonicalised, or as given when that fails. */
  function Canonical(r: Resolver, p: Path): Path {
    match r.realpath(p)
    case Some(q) => q
    case None => p
  }

  /** A pattern as a path: interpolated, or taken literally when interpolation fails. */
  function PatternPath(r: Resolver, pattern: string): Path {
    match r.interpolate(pattern)
    case Some(q) => q
    case None => r.literal(pattern)
  }

  /** How an absolute pattern path matches the canonical test path. */
  predicate PathMatches(safeDir: Path, test: Path) {
    if EndsWithComponent(safeDir, "*") then StartsWith(test, Parent(safeDir).value)
    else safeDir == test
  }

  /** An ordinary pattern (neither "*" nor "") that covers the test path. */
  predicate Grants(r: Resolver, test: Path, pattern: string) {
    pattern != "*" && pattern != "" && PatternPath(r, pattern).absolute && PathMatches(PatternPath(r, pattern), test)
  }

  /** The flag after one pattern. */
  function Step(r: Resolver, test: Path, isSafe: bool, pattern: string): bool {
    if pattern == "*" then true
    else if pattern == "" then false
    else isSafe || Grants(r, test, pattern)
  }

  /** The flag after a whole list of patterns: a last "*" leaves it set and a last "" clears it. */
  function Scan(r: Resolver, test: Path, patterns: seq<string>, isSafe: bool): (safe: bool)
    ensures patterns != [] && patterns[|patterns| - 1] == "*" ==> safe
    ensures patterns != [] && patterns[|patterns| - 1] == "" ==> !safe
  {
    if patterns == [] then isSafe else Scan(r, test, patterns[1..], Step(r, test, isSafe, patterns[0]))
  }

  /** The verdict of `check_safe_directories`; a refusal names the canonical path. */
  function CheckSpec(r: Resolver, pathToTest: Path, safeDirs: seq<string>): (v: Verdict)
    ensures v.UnsafeGitDir? ==> v.path == Canonical(r, pathToTest)
    ensures safeDirs == [] ==> v.UnsafeGitDir?
    ensures safeDirs != [] && safeDirs[|safeDirs| - 1] == "*" ==> v == Safe
    ensures safeDirs != [] && safeDirs[|safeDirs| - 1] == "" ==> v.UnsafeGitDir?
  {
    var test := Canonical(r, pathToTest);
    if Scan(r, test, safeDirs, false) then Safe else UnsafeGitDir(test)
  }

  /** `check_safe_directories`: the loop over the patterns with its mutable flag. */
  method CheckSafeDirectories(r: Resolver, pathToTest: Path, safeDirs: seq<string>) returns (v: Verdict)
    ensures v == CheckSpec(r, pathToTest, safeDirs)
  {
    var isSafe := false;
    var test := (match r.realpath(pathToTest) case Some(p) => p case None => pathToTest);
    var i := 0;
    while i < |safeDirs|
      invariant 0 <= i <= |safeDirs|
      invariant Scan(r, test, safeDirs[i..], isSafe) == Scan(r, test, safeDirs, false)
    {
      var safeDir := safeDirs[i];
      assert safeDirs[i..][1..] == safeDirs[i + 1..];
      i := i + 1;
      if safeDir == "*" {
        isSafe := true;
        continue;
      }
      if safeDir == "" {
        isSafe := false;
        continue;
      }
      if !isSafe {
        var dir := (match r.interpolate(safeDir) case Some(p) => p case None => r.literal(safeDir));
        if !dir.absolute {
          continue;
        }
        if EndsWithComponent(dir, "*") {
          var parent := Parent(dir).value;
          if StartsWith(test, parent) {
            isSafe := true;
          }
        } else if dir == test {
          isSafe := true;
        }
      }
    }
    if isSafe {
      v := Safe;
    } else {
      v := UnsafeGitDir(test);
    }
  }

  /** The scan of a concatenation continues from the flag the first part leaves. */
  lemma {:induction false} ScanAppend(r: Resolver, test: Path, ps: seq<string>, qs: seq<string>, isSafe: bool)
    ensures Scan(r, test, ps + qs, isSafe) == Scan(r, test, qs, Scan(r, test, ps, isSafe))
  {
    if ps == [] {
      assert ps + qs == qs;
    } else {
      assert (ps + qs)[1..] == ps[1..] + qs;
      ScanAppend(r, test, ps[1..], qs, Step(r, test, isSafe, ps[0]));
    }
  }

  /** Patterns that set the flag wherever they stand: "*" or an ordinary pattern covering the path. */
  predicate Sets(r: Resolver, test: Path, pattern: string) {
    pattern == "*" || Grants(r, test, pattern)
  }

  /**
   * A reference definition of the scan: the path is safe exactly when some pattern sets the flag
   * and no "" follows it, or the flag starts set and no "" appears at all.
   */
  ghost predicate SafeByLastReset(r: Resolver, test: Path, ps: seq<string>, isSafe: bool) {
    (isSafe && "" !in ps) || exists i :: 0 <= i < |ps| && Sets(r, test, ps[i]) && "" !in ps[i + 1..]
  }

  lemma {:induction false} ScanIsSafeByLastReset(r: Resolver, test: Path, ps: seq<string>, isSafe: bool)
    ensures Scan(r, test, ps, isSafe) <==> SafeByLastReset(r, test, ps, isSafe)
  {
    if ps != [] {
      ScanIsSafeByLastReset(r, test, ps[1..], Step(r, test, isSafe, ps[0]));
      SafeByLastResetStep(r, test, ps, isSafe);
    }
  }

  /** The reference definition after the first pattern: the rest of the list, from the flag that pattern leaves. */
  lemma SafeByLastResetStep(r: Resolver, test: Path, ps: seq<string>, isSafe: bool)
    requires ps != []
    ensures SafeByLastReset(r, test, ps, isSafe) <==> SafeByLastReset(r, test, ps[1..], Step(r, test, isSafe, ps[0]))
  {
    var next := Step(r, test, isSafe, ps[0]);
    var tail := ps[1..];
    assert forall i :: 1 <= i < |ps| ==> ps[i] == tail[i - 1] && ps[i + 1..] == tail[i..];
    assert "" !in ps <==> ps[0] != "" && "" !in tail by {
      assert ps == [ps[0]] + tail;
    }
    if SafeByLastReset(r, test, tail, next) {
      if !(next && "" !in tail) {
        var j :| 0 <= j < |tail| && Sets(r, test, tail[j]) && "" !in tail[j + 1..];
        assert Sets(r, test, ps[j + 1]) && "" !in ps[j + 2..];
      } else if ps[0] == "*" || Grants(r, test, ps[0]) {
        assert Sets(r, test, ps[0]) && "" !in ps[1..];
      }
    }
    if SafeByLastReset(r, test, ps, isSafe) && !(isSafe && "" !in ps) {
      var i :| 0 <= i < |ps| && Sets(r, test, ps[i]) && "" !in ps[i + 1..];
      if i > 0 {
        assert Sets(r, test, tail[i - 1]) && "" !in tail[i..];
      }
    }
  }

  /** A list ending in "" never grants safety. */
  lemma EndingInEmptyIsUnsafe(r: Resolver, test: Path, ps: seq<string>, isSafe: bool)
    ensures !Scan(r, test, ps + [""], isSafe)
  {
    ScanAppend(r, test, ps, [""], isSafe);
  }

  /** A "*" after the last "" restores safety, however unsafe the list was before. */
  lemma StarRestoresSafety(r: Resolver, test: Path, ps: seq<string>, qs: seq<string>, isSafe: bool)
    requires "" !in qs
    ensures Scan(r, test, ps + ["*"] + qs, isSafe)
  {
    ScanAppend(r, test, ps + ["*"], qs, isSafe);
    ScanAppend(r, test, ps, ["*"], isSafe);
    OnlyEmptyRevokes(r, test, qs);
  }

  /** Once safe, only "" revokes it: every other pattern leaves the flag set. */
  lemma {:induction false} OnlyEmptyRevokes(r: Resolver, test: Path, qs: seq<string>)
    requires "" !in qs
    ensures Scan(r, test, qs, true)
  {
    if qs != [] {
      assert qs[0] in qs;
      assert forall s :: s in qs[1..] ==> s in qs;
      OnlyEmptyRevokes(r, test, qs[1..]);
    }
  }

  /** A pattern that is not absolute after interpolation never changes the flag. */
  lemma NonAbsoluteIsIgnored(r: Resolver, test: Path, ps: seq<string>, pattern: string, qs: seq<string>, isSafe: bool)
    requires pattern != "*" && pattern != "" && !PatternPath(r, pattern).absolute
    ensures Scan(r, test, ps + [pattern] + qs, isSafe) == Scan(r, test, ps + qs, isSafe)
  {
    ScanAppend(r, test, ps + [pattern], qs, isSafe);
    ScanAppend(r, test, ps, [pattern], isSafe);
    ScanAppend(r, test, ps, qs, isSafe);
  }

  /** A pattern that fails to interpolate is read literally instead of failing the check. */
  lemma FailedInterpolationIsLiteral(r: Resolver, test: Path, pattern: string)
    requires pattern != "*" && pattern != "" && r.interpolate(pattern).None?
    ensures Grants(r, test, pattern) <==> r.literal(pattern).absolute && PathMatches(r.literal(pattern), test)
  {
  }

  /** A pattern ending in "*" covers exactly the paths under its parent, the parent included. */
  lemma StarPatternCoversParent(safeDir: Path, test: Path)
    requires EndsWithComponent(safeDir, "*")
    ensures PathMatches(safeDir, test) <==> StartsWith(test, Parent(safeDir).value)
    ensures PathMatches(safeDir, Parent(safeDir).value)
  {
    StartsWithReflexive(Parent(safeDir).value);
  }

  /** Components are compared whole: the pattern made of "a" then "*" covers "/a/b/c" but not "/ab". */
  lemma StarPatternIsComponentWise()
    ensures !PathMatches(Path(true, ["a", "*"]), Path(true, ["ab"]))
    ensures PathMatches(Path(true, ["a", "*"]), Path(true, ["a", "b", "c"]))
  {
    assert ["a", "*"][..1] == ["a"];
    assert ["a", "b", "c"][..1] == ["a"];
    assert ["ab"][..1] == ["ab"] && ["ab"] != ["a"];
  }

  /** Any other absolute pattern covers only the canonical test path itself. */
  lemma ExactPatternIsEquality(r: Resolver, test: Path, pattern: string)
    requires pattern != "*" && pattern != "" && PatternPath(r, pattern).absolute
    requires !EndsWithComponent(PatternPath(r, pattern), "*")
    ensures Grants(r, test, pattern) <==> PatternPath(r, pattern) == test
  {
  }

  /** The error carries the canonicalised path, or the path as given when canonicalisation fails. */
  lemma UnsafeCarriesCanonicalPath(r: Resolver, pathToTest: Path, safeDirs: seq<string>)
    ensures CheckSpec(r, pathToTest, safeDirs).UnsafeGitDir? ==> CheckSpec(r, pathToTest, safeDirs).path == Canonical(r, pathToTest)
    ensures r.realpath(pathToTest).None? ==> Canonical(r, pathToTest) == pathToTest
    ensures CheckSpec(r, pathToTest, []) == UnsafeGitDir(Canonical(r, pathToTest))
  {
  }

  /** Order matters: "*" then "" is unsafe, "" then "*" is safe. */
  lemma OrderMatters(r: Resolver, p: Path)
    ensures CheckSpec(r, p, ["*", ""]).UnsafeGitDir?
    ensures CheckSpec(r, p, ["", "*"]) == Safe
  {
    var test := Canonical(r, p);
    assert ["*", ""][1..] == [""] && [""][1..] == [];
    assert Scan(r, test, ["*", ""], false) == Scan(r, test, [""], true) == false;
    assert ["", "*"][1..] == ["*"] && ["*"][1..] == [];
    assert Scan(r, test, ["", "*"], false) == Scan(r, test, ["*"], false) == true;
  }
}
