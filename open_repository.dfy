/**
 * The trust and layout rules of opening a repository, gix/src/open/repository.rs: which path is
 * probed, how `core.worktree` is resolved and a work tree inferred, when trust is re-evaluated
 * against `safe.directory`, how configuration sections are raised to full trust, and where
 * replacement objects come from.
 *
 * The file system, the configuration cascade and the reference store are not modelled: what
 * the source asks of them (is this a repository, normalise a path, the values of a key in
 * cascade order, the current user's ownership, the listed references) arrives as values and
 * oracles.
 */
module OpenRepository {
  import opened Base
  import opened Paths
  import opened SafeDirectory

  datatype Trust = Reduced | Full

  /** Where a configuration section comes from, `gix_config::Source`. */
  datatype Source = GitInstallation | System | Git | User | Local | Worktree | Env | Cli | Api | EnvOverride

  /** The metadata of one configuration section. */
  datatype SectionMeta = SectionMeta(source: Source, path: Option<Path>, trust: Trust)

  datatype CandidateError<E> = NotARepository(source: E, path: Path)

  datatype OpenError =
    | UnsafeGitDir(path: Path)
    | PathInterpolation(value: string)
    | ConfigTypedString
    | ConfigBoolean
    | RelativePath(value: string)

  // ---------------------------------------------------------------------------------------------
  // Candidate path choice in `open_opts`

  /** The path names a git directory already: its last component is ".git" or its extension "git". */
  predicate LooksLikeGitDir(p: Path) {
    EndsWithComponent(p, DOT_GIT) || Extension(p) == Some("git")
  }

  /** The first path to probe. */
  function Candidate(path: Path, openPathAsIs: bool): (c: Path)
    ensures c == path <==> openPathAsIs || LooksLikeGitDir(path)
    ensures c != path ==> c == Join(path, Component(DOT_GIT))
  {
    if !openPathAsIs && !LooksLikeGitDir(path) then Join(path, Component(DOT_GIT)) else path
  }

  /**
   * Probe the candidate; when that was `path/.git`, fall back to `path` itself. `isGit` is
   * `gix_discover::is_git`.
   */
  function OpenCandidate<K, E>(path: Path, openPathAsIs: bool, isGit: Path -> Result<K, E>): (r: Result<(Path, K), CandidateError<E>>)
    ensures r.Ok? ==> isGit(r.value.0) == Ok(r.value.1)
    ensures r.Ok? ==> r.value.0 == Candidate(path, openPathAsIs) || (r.value.0 == path && isGit(Candidate(path, openPathAsIs)).Err?)
    ensures r.Ok? <==> isGit(Candidate(path, openPathAsIs)).Ok? || (Candidate(path, openPathAsIs) != path && isGit(path).Ok?)
    ensures r.Err? ==> r.error.path == path && isGit(path) == Err(r.error.source)
  {
    var candidate := Candidate(path, openPathAsIs);
    match isGit(candidate)
    case Ok(kind) => Ok((candidate, kind))
    case Err(err) =>
      if openPathAsIs || LooksLikeGitDir(path) then Err(NotARepository(err, candidate))
      else
        match isGit(path)
        case Ok(kind) => Ok((path, kind))
        case Err(err2) => Err(NotARepository(err2, path))
  }

  /** A work tree directory is probed as `dir/.git` first, and a path already naming a git directory is left alone. */
  lemma CandidateExamples()
    ensures Candidate(Path(true, ["r", "work"]), false) == Path(true, ["r", "work", ".git"])
    ensures Candidate(Path(true, ["r", "work"]), true) == Path(true, ["r", "work"])
    ensures Candidate(Path(true, ["r", ".git"]), false) == Path(true, ["r", ".git"])
    ensures Candidate(Path(true, ["r", "repo.git"]), false) == Path(true, ["r", "repo.git"])
  {
    WorkDirIsNoGitDir();
    BareDirIsGitDir();
    assert ["r", "work"] + [DOT_GIT] == ["r", "work", ".git"];
  }

  /** A plain work tree directory does not look like a git dir. */
  lemma WorkDirIsNoGitDir()
    ensures !LooksLikeGitDir(Path(true, ["r", "work"]))
  {
    ExtensionOfLastComponent(Path(true, ["r", "work"]), "work");
    assert '.' !in "work";
  }

  /** A directory with the extension "git" does. */
  lemma BareDirIsGitDir()
    ensures LooksLikeGitDir(Path(true, ["r", "repo.git"]))
  {
    ExtensionExamples();
    ExtensionOfLastComponent(Path(true, ["r", "repo.git"]), "repo.git");
  }

  /** `options.git_dir_trust`, filled from the ownership of the git dir when not given. */
  function InitialTrust<E>(given: Option<Trust>, ownership: Result<Trust, E>): (r: Result<Trust, E>)
    ensures given.Some? ==> r == Ok(given.value)
    ensures given.None? ==> r == ownership
  {
    match given
    case Some(t) => Ok(t)
    case None => ownership
  }

  // ---------------------------------------------------------------------------------------------
  // `core.worktree` resolution

  /** A `core.worktree` value and the section that holds it, in cascade order. */
  datatype WorktreeSetting = WorktreeSetting(meta: SectionMeta, value: string)

  /**
   * The collaborators of the worktree rules: the caller's section filter, `gix_path::normalize`
   * against the current directory, interpolation (failure is `None`) and `is_dir`.
   */
  datatype WorktreeEnv = WorktreeEnv(
    filter: SectionMeta -> bool,
    normalize: Path -> Option<Path>,
    interpolate: string -> Option<Path>,
    isDir: Path -> bool)

  /** Values from these sources are used as they are; all others are relative to the git dir. */
  predicate VerbatimSource(s: Source) {
    s == Env || s == Cli || s == Api || s == EnvOverride
  }

  /** The section's file lies, once normalised, inside our git dir. */
  predicate InOurRepo(env: WorktreeEnv, gitDir: Path, meta: SectionMeta) {
    meta.path.Some? && env.normalize(meta.path.value).Some? && StartsWith(env.normalize(meta.path.value).value, gitDir)
  }

  /** A setting the lookup sees: its section passes the filter and is from our repository. */
  predicate Considered(env: WorktreeEnv, gitDir: Path, s: WorktreeSetting) {
    env.filter(s.meta) && InOurRepo(env, gitDir, s.meta)
  }

  /** The setting the lookup finds: the last one considered. */
  function LastConsidered(env: WorktreeEnv, gitDir: Path, settings: seq<WorktreeSetting>): (r: Option<nat>)
    ensures r.Some? ==> r.value < |settings| && Considered(env, gitDir, settings[r.value])
    ensures r.Some? ==> forall j :: r.value < j < |settings| ==> !Considered(env, gitDir, settings[j])
    ensures r.None? ==> forall j :: 0 <= j < |settings| ==> !Considered(env, gitDir, settings[j])
  {
    if settings == [] then None
    else if Considered(env, gitDir, settings[|settings| - 1]) then Some(|settings| - 1)
    else LastConsidered(env, gitDir, settings[..|settings| - 1])
  }

  predicate AnyPassesFilter(env: WorktreeEnv, settings: seq<WorktreeSetting>) {
    exists j :: 0 <= j < |settings| && env.filter(settings[j].meta)
  }

  /** The work tree after `core.worktree`, and whether the missing-directory warning is given. */
  datatype WorktreeResolution = WorktreeResolution(worktree: Option<Path>, warnMissing: bool)

  /**
   * The `core.worktree` step of `open_from_paths`. A bare repository keeps its work tree; the
   * warning is given only for a work tree that is not a directory; a lenient configuration never
   * fails on a missing value.
   */
  function ResolveWorktree(isBare: bool, worktree: Option<Path>, gitDir: Path, settings: seq<WorktreeSetting>, env: WorktreeEnv, lenient: bool): (r: Result<WorktreeResolution, OpenError>)
    ensures isBare ==> r == Ok(WorktreeResolution(worktree, false))
    ensures r.Ok? && r.value.warnMissing ==> r.value.worktree.Some? && !env.isDir(r.value.worktree.value)
    ensures r.Err? ==> r.error.PathInterpolation? || (r.error == ConfigTypedString && !lenient)
    ensures r.Err? && r.error.PathInterpolation? ==> exists j :: 0 <= j < |settings| && settings[j].value == r.error.value
  {
    if isBare then Ok(WorktreeResolution(worktree, false))
    else
      match LastConsidered(env, gitDir, settings)
      case Some(i) =>
        (match env.interpolate(settings[i].value)
         case None => Err(PathInterpolation(settings[i].value))
         case Some(p) =>
           var wt := env.normalize(if VerbatimSource(settings[i].meta.source) then p else Join(gitDir, p));
           Ok(WorktreeResolution(wt, wt.Some? && !env.isDir(wt.value))))
      case None =>
        if !lenient && AnyPassesFilter(env, settings) then Err(ConfigTypedString)
        else Ok(WorktreeResolution(worktree, false))
  }

  /**
   * The value found is the last one from our repository, used verbatim or joined onto the git
   * dir according to its source, then normalised.
   */
  lemma ResolveWorktreeValue(isBare: bool, worktree: Option<Path>, gitDir: Path, settings: seq<WorktreeSetting>, env: WorktreeEnv, lenient: bool, i: nat, p: Path)
    requires !isBare && i < |settings| && Considered(env, gitDir, settings[i])
    requires forall j :: i < j < |settings| ==> !Considered(env, gitDir, settings[j])
    requires env.interpolate(settings[i].value) == Some(p)
    ensures ResolveWorktree(isBare, worktree, gitDir, settings, env, lenient).Ok?
    ensures VerbatimSource(settings[i].meta.source) ==>
      ResolveWorktree(isBare, worktree, gitDir, settings, env, lenient).value.worktree == env.normalize(p)
    ensures !VerbatimSource(settings[i].meta.source) ==>
      ResolveWorktree(isBare, worktree, gitDir, settings, env, lenient).value.worktree == env.normalize(Join(gitDir, p))
  {
    var r := LastConsidered(env, gitDir, settings);
    assert r.Some? && r.value == i;
  }

  /** A value that fails to interpolate fails the open, naming the value. */
  lemma ResolveWorktreeInterpolationError(isBare: bool, worktree: Option<Path>, gitDir: Path, settings: seq<WorktreeSetting>, env: WorktreeEnv, lenient: bool, i: nat)
    requires !isBare && i < |settings| && Considered(env, gitDir, settings[i])
    requires forall j :: i < j < |settings| ==> !Considered(env, gitDir, settings[j])
    requires env.interpolate(settings[i].value).None?
    ensures ResolveWorktree(isBare, worktree, gitDir, settings, env, lenient) == Err(PathInterpolation(settings[i].value))
  {
    var r := LastConsidered(env, gitDir, settings);
    assert r.Some? && r.value == i;
  }

  /**
   * Settings from other repositories, or from sections the filter refuses, are never used: with
   * none left the work tree stays as it was, unless a strict configuration holds a value the
   * filter lets through, which is an error.
   */
  lemma ResolveWorktreeWithoutOurSetting(isBare: bool, worktree: Option<Path>, gitDir: Path, settings: seq<WorktreeSetting>, env: WorktreeEnv, lenient: bool)
    requires forall j :: 0 <= j < |settings| ==> !Considered(env, gitDir, settings[j])
    ensures ResolveWorktree(isBare, worktree, gitDir, settings, env, lenient) == Err(ConfigTypedString)
      <==> !isBare && !lenient && AnyPassesFilter(env, settings)
    ensures ResolveWorktree(isBare, worktree, gitDir, settings, env, lenient).Ok? ==>
      ResolveWorktree(isBare, worktree, gitDir, settings, env, lenient).value.worktree == worktree
  {
    if !isBare {
      assert LastConsidered(env, gitDir, settings).None?;
    }
  }

  /** A missing directory only warns: `is_dir` decides nothing but the warning. */
  lemma MissingDirectoryOnlyWarns(isBare: bool, worktree: Option<Path>, gitDir: Path, settings: seq<WorktreeSetting>, env: WorktreeEnv, lenient: bool, isDir: Path -> bool)
    ensures var a := ResolveWorktree(isBare, worktree, gitDir, settings, env, lenient);
      var b := ResolveWorktree(isBare, worktree, gitDir, settings, env.(isDir := isDir), lenient);
      a.Ok? == b.Ok? && (a.Ok? ==> a.value.worktree == b.value.worktree) && (a.Err? ==> a.error == b.error)
  {
    var env' := env.(isDir := isDir);
    assert forall s :: Considered(env, gitDir, s) == Considered(env', gitDir, s);
    assert LastConsidered(env, gitDir, settings) == LastConsidered(env', gitDir, settings) by {
      LastConsideredIgnoresIsDir(env, isDir, gitDir, settings);
    }
  }

  lemma {:induction false} LastConsideredIgnoresIsDir(env: WorktreeEnv, isDir: Path -> bool, gitDir: Path, settings: seq<WorktreeSetting>)
    ensures LastConsidered(env, gitDir, settings) == LastConsidered(env.(isDir := isDir), gitDir, settings)
  {
    if settings != [] {
      LastConsideredIgnoresIsDir(env, isDir, gitDir, settings[..|settings| - 1]);
    }
  }

  // ---------------------------------------------------------------------------------------------
  // Work tree inference and clearing

  /**
   * A non-bare repository without a work tree whose git dir is named ".git" gets the git dir's
   * parent; a work tree next to a ".git" dir is dropped again when a Local `core.bare` is present
   * and the repository is bare.
   */
  function InferWorktree(worktree: Option<Path>, isBare: bool, gitDir: Path, localCoreBare: bool): (r: Option<Path>)
    ensures r.Some? ==> r == worktree || (worktree.None? && !isBare && Join(r.value, Component(DOT_GIT)) == gitDir)
    ensures worktree.None? && isBare ==> r.None?
  {
    var standard := FileName(gitDir) == Some(DOT_GIT);
    assert standard ==> Parent(gitDir).Some? && Join(Parent(gitDir).value, Component(DOT_GIT)) == gitDir by {
      if standard { JoinParentFileName(gitDir); }
    }
    match worktree
    case None => if !isBare && standard then Parent(gitDir) else None
    case Some(_) => if standard && localCoreBare && isBare then None else worktree
  }

  /** The inferred work tree is the directory that holds the ".git" dir. */
  lemma InferredWorktreeHoldsGitDir(isBare: bool, gitDir: Path, localCoreBare: bool)
    requires !isBare && FileName(gitDir) == Some(DOT_GIT)
    ensures InferWorktree(None, isBare, gitDir, localCoreBare).Some?
    ensures Join(InferWorktree(None, isBare, gitDir, localCoreBare).value, Component(DOT_GIT)) == gitDir
  {
    JoinParentFileName(gitDir);
  }

  /** Nothing is inferred for a bare repository or a git dir with another name, and a given work tree is only ever cleared. */
  lemma InferWorktreeCases(worktree: Option<Path>, isBare: bool, gitDir: Path, localCoreBare: bool)
    ensures worktree.None? && (isBare || FileName(gitDir) != Some(DOT_GIT)) ==> InferWorktree(worktree, isBare, gitDir, localCoreBare).None?
    ensures worktree.Some? ==>
      (InferWorktree(worktree, isBare, gitDir, localCoreBare).None? <==> FileName(gitDir) == Some(DOT_GIT) && localCoreBare && isBare)
    ensures worktree.Some? && InferWorktree(worktree, isBare, gitDir, localCoreBare).Some? ==>
      InferWorktree(worktree, isBare, gitDir, localCoreBare) == worktree
  {
  }

  /** Inferring twice is inferring once. */
  lemma InferWorktreeIdempotent(worktree: Option<Path>, isBare: bool, gitDir: Path, localCoreBare: bool)
    ensures var once := InferWorktree(worktree, isBare, gitDir, localCoreBare);
      InferWorktree(once, isBare, gitDir, localCoreBare) == once
  {
  }

  // ---------------------------------------------------------------------------------------------
  // Trust gate

  /** Trust is re-evaluated unless it is full and there is no work tree the current user may not own. */
  predicate GateRuns(trust: Trust, worktree: Option<Path>, ownedByCurrentUser: Path -> Option<bool>)
    ensures trust == Reduced ==> GateRuns(trust, worktree, ownedByCurrentUser)
    ensures worktree.None? ==> (GateRuns(trust, worktree, ownedByCurrentUser) <==> trust == Reduced)
    ensures worktree.Some? && ownedByCurrentUser(worktree.value).None? ==> GateRuns(trust, worktree, ownedByCurrentUser)
  {
    trust != Full || (worktree.Some? && !ownedByCurrentUser(worktree.value).GetOr(false))
  }

  /** The directory checked against `safe.directory`: the work tree if there is one, else the git dir. */
  function TestDir(worktree: Option<Path>, gitDir: Path): (d: Path)
    ensures worktree.Some? ==> d == worktree.value
    ensures worktree.None? ==> d == gitDir
  {
    worktree.GetOr(gitDir)
  }

  /** The trust the gate leaves: full when the check passes, else reduced, or the open fails when asked to bail. */
  function GateTrust(v: Verdict, bailIfUntrusted: bool): (r: Result<Trust, OpenError>)
    ensures r == Ok(Full) <==> v == Safe
    ensures r == Ok(Reduced) <==> v != Safe && !bailIfUntrusted
    ensures r.Err? <==> v != Safe && bailIfUntrusted
    ensures r.Err? ==> r.error == OpenError.UnsafeGitDir(v.path)
  {
    if v == Safe then Ok(Full)
    else if bailIfUntrusted then Err(OpenError.UnsafeGitDir(v.path))
    else Ok(Reduced)
  }

  // ---------------------------------------------------------------------------------------------
  // Per-section trust elevation

  /**
   * What elevation needs: the test dir, the git dir's trust after the gate, the `safe.directory`
   * values, the resolver of the safe-directory check and `Safe::directory_filter`, the sections
   * trusted by default.
   */
  datatype ElevationContext = ElevationContext(
    testDir: Path,
    gitDirTrust: Trust,
    safeDirs: seq<string>,
    resolver: Resolver,
    trustedByDefault: SectionMeta -> bool)

  /** The sections elevation looks at: not trusted by default, not yet full, and read from a file. */
  predicate Eligible(ctx: ElevationContext, m: SectionMeta)
    ensures Eligible(ctx, m) ==> m.trust == Reduced && m.path.Some?
  {
    !ctx.trustedByDefault(m) && m.trust != Full && m.path.Some?
  }

  /** `config_file_is_safe`. */
  predicate ConfigFileIsSafe(ctx: ElevationContext, p: Path)
    ensures ctx.gitDirTrust == Full && StartsWith(p, ctx.testDir) ==> ConfigFileIsSafe(ctx, p)
    ensures ctx.gitDirTrust == Reduced ==> (ConfigFileIsSafe(ctx, p) <==> CheckSpec(ctx.resolver, p, ctx.safeDirs) == Safe)
  {
    (StartsWith(p, ctx.testDir) && ctx.gitDirTrust == Full) || CheckSpec(ctx.resolver, p, ctx.safeDirs) == Safe
  }

  /** One section after elevation: only its trust may change, and only upwards. */
  function Elevated(ctx: ElevationContext, m: SectionMeta): (r: SectionMeta)
    ensures r.source == m.source && r.path == m.path
    ensures r.trust == Full <==> m.trust == Full || (Eligible(ctx, m) && ConfigFileIsSafe(ctx, m.path.value))
    ensures r != m ==> Eligible(ctx, m) && r.trust == Full
  {
    if Eligible(ctx, m) && ConfigFileIsSafe(ctx, m.path.value) then m.(trust := Full) else m
  }

  function ElevateAll(ctx: ElevationContext, ms: seq<SectionMeta>): (r: seq<SectionMeta>)
    ensures |r| == |ms|
  {
    seq(|ms|, i requires 0 <= i < |ms| => Elevated(ctx, ms[i]))
  }

  /** A section ends up fully trusted exactly when it was, or it was eligible and its file is safe. */
  lemma ElevatedIff(ctx: ElevationContext, ms: seq<SectionMeta>, i: nat)
    requires i < |ms|
    ensures ElevateAll(ctx, ms)[i].trust == Full <==>
      ms[i].trust == Full || (Eligible(ctx, ms[i]) && ConfigFileIsSafe(ctx, ms[i].path.value))
    ensures ElevateAll(ctx, ms)[i].source == ms[i].source && ElevateAll(ctx, ms)[i].path == ms[i].path
    ensures !Eligible(ctx, ms[i]) ==> ElevateAll(ctx, ms)[i] == ms[i]
  {
  }

  /** Trust is never lowered. */
  lemma ElevationNeverLowers(ctx: ElevationContext, ms: seq<SectionMeta>, i: nat)
    requires i < |ms| && ms[i].trust == Full
    ensures ElevateAll(ctx, ms)[i] == ms[i]
  {
  }

  /** Sections from the same file get the same answer. */
  lemma SamePathSameTrust(ctx: ElevationContext, ms: seq<SectionMeta>, i: nat, j: nat)
    requires i < |ms| && j < |ms| && Eligible(ctx, ms[i]) && Eligible(ctx, ms[j]) && ms[i].path == ms[j].path
    ensures ElevateAll(ctx, ms)[i].trust == ElevateAll(ctx, ms)[j].trust
  {
  }

  /** A second run changes nothing. */
  lemma ElevateAllIdempotent(ctx: ElevationContext, ms: seq<SectionMeta>)
    ensures ElevateAll(ctx, ElevateAll(ctx, ms)) == ElevateAll(ctx, ms)
  {
    var once := ElevateAll(ctx, ms);
    forall i | 0 <= i < |ms|
      ensures Elevated(ctx, once[i]) == once[i]
    {
      if once[i] != ms[i] {
        assert once[i].trust == Full;
      }
    }
  }

  /** The resolved configuration: its sections, owned exclusively while trust is adjusted. */
  class ConfigSections {
    var sections: array<SectionMeta>

    constructor(ms: seq<SectionMeta>)
      ensures sections[..] == ms && fresh(sections)
    {
      sections := new SectionMeta[|ms|](i requires 0 <= i < |ms| => ms[i]);
    }

    /**
     * The elevation loop: every eligible section whose file is safe is raised to full trust,
     * asking once per distinct file and answering later sections of that file from the memo.
     * `checked` lists the files evaluated, in order.
     */
    method ElevateTrust(ctx: ElevationContext) returns (ghost checked: seq<Path>)
      modifies sections
      ensures sections[..] == ElevateAll(ctx, old(sections[..]))
      ensures forall a, b :: 0 <= a < b < |checked| ==> checked[a] != checked[b]
      ensures forall p :: p in checked <==>
        exists j :: 0 <= j < sections.Length && Eligible(ctx, old(sections[j])) && old(sections[j]).path == Some(p)
    {
      var memo: map<Path, bool> := map[];
      checked := [];
      ghost var original := sections[..];
      var i := 0;
      while i < sections.Length
        invariant 0 <= i <= sections.Length
        invariant forall j :: 0 <= j < i ==> sections[j] == Elevated(ctx, original[j])
        invariant forall j :: i <= j < sections.Length ==> sections[j] == original[j]
        invariant forall p :: p in memo ==> memo[p] == ConfigFileIsSafe(ctx, p)
        invariant forall p :: p in memo <==> p in checked
        invariant forall a, b :: 0 <= a < b < |checked| ==> checked[a] != checked[b]
        invariant forall p :: p in checked <==>
          exists j :: 0 <= j < i && Eligible(ctx, original[j]) && original[j].path == Some(p)
      {
        var section := sections[i];
        if ctx.trustedByDefault(section) || section.trust == Full || section.path.None? {
          i := i + 1;
          continue;
        }
        var metaPath := section.path.value;
        assert Eligible(ctx, original[i]) && original[i].path == Some(metaPath);
        if metaPath in memo {
          if memo[metaPath] {
            sections[i] := section.(trust := Full);
          }
        } else {
          var isSafe := StartsWith(metaPath, ctx.testDir) && ctx.gitDirTrust == Full;
          if !isSafe {
            var v := CheckSafeDirectories(ctx.resolver, metaPath, ctx.safeDirs);
            isSafe := v == Safe;
          }
          memo := memo[metaPath := isSafe];
          checked := checked + [metaPath];
          if isSafe {
            sections[i] := section.(trust := Full);
          }
        }
        i := i + 1;
      }
      assert forall j :: 0 <= j < sections.Length ==> sections[..][j] == ElevateAll(ctx, original)[j];
    }
  }

  // ---------------------------------------------------------------------------------------------
  // Replacement objects

  const DEFAULT_REPLACE_REF_BASE: string := "refs/replace/"

  /**
   * `replacement_objects_refs_prefix`: `answer` is what `is_replace_refs_enabled` returns, used
   * as the source uses it, as the flag that disables replacement; when it is missing replacement
   * is off. Otherwise the prefix is `gitoxide.objects.replaceRefBase`, by default "refs/replace/".
   */
  function ReplacementRefsPrefix<E>(answer: Result<Option<bool>, E>, replaceRefBase: Option<string>): (r: Result<Option<string>, OpenError>)
    ensures r.Err? <==> answer.Err?
    ensures r.Err? ==> r.error == ConfigBoolean
    ensures r.Ok? && r.value.Some? <==> answer == Ok(Some(false))
    ensures r.Ok? && r.value.Some? ==> r.value.value == replaceRefBase.GetOr(DEFAULT_REPLACE_REF_BASE)
  {
    match answer
    case Err(_) => Err(ConfigBoolean)
    case Ok(flag) =>
      if flag.GetOr(true) then Ok(None)
      else Ok(Some(replaceRefBase.GetOr(DEFAULT_REPLACE_REF_BASE)))
  }

  datatype Oid = Oid(bytes: seq<byte>)

  datatype RefTarget = Object(id: Oid) | Symbolic(name: string)

  datatype Reference = Reference(name: string, target: RefTarget)

  predicate IsPrefix(prefix: string, s: string) {
    |prefix| <= |s| && s[..|prefix|] == prefix
  }

  /** One reference's replacement pair: (the id its name spells after the prefix, the object it points to). */
  function ReplacementPair(prefix: string, r: Option<Reference>, fromHex: string -> Option<Oid>): (p: Option<(Oid, Oid)>)
    ensures p.Some? <==> r.Some? && r.value.target.Object? && IsPrefix(prefix, r.value.name) && fromHex(r.value.name[|prefix|..]).Some?
    ensures p.Some? ==> p.value == (fromHex(r.value.name[|prefix|..]).value, r.value.target.id)
  {
    match r
    case None => None
    case Some(Reference(name, target)) =>
      if !target.Object? || !IsPrefix(prefix, name) then None
      else
        match fromHex(name[|prefix|..])
        case None => None
        case Some(source) => Some((source, target.id))
  }

  /** The pairs of the listed references, in listing order; unreadable references are skipped. */
  function ExtractReplacements(prefix: string, refs: seq<Option<Reference>>, fromHex: string -> Option<Oid>): (r: seq<(Oid, Oid)>)
    ensures |r| <= |refs|
    ensures r == [] <==> forall j :: 0 <= j < |refs| ==> ReplacementPair(prefix, refs[j], fromHex).None?
  {
    if refs == [] then []
    else
      assert forall j :: 1 <= j < |refs| ==> refs[j] == refs[1..][j - 1];
      var rest := ExtractReplacements(prefix, refs[1..], fromHex);
      match ReplacementPair(prefix, refs[0], fromHex)
      case None => rest
      case Some(p) => [p] + rest
  }

  /** A pair is extracted exactly when some listed reference yields it. */
  lemma {:induction false} ExtractReplacementsMembership(prefix: string, refs: seq<Option<Reference>>, fromHex: string -> Option<Oid>, pair: (Oid, Oid))
    ensures pair in ExtractReplacements(prefix, refs, fromHex) <==>
      exists j :: 0 <= j < |refs| && ReplacementPair(prefix, refs[j], fromHex) == Some(pair)
  {
    if refs != [] {
      ExtractReplacementsMembership(prefix, refs[1..], fromHex, pair);
      assert forall j :: 1 <= j < |refs| ==> refs[j] == refs[1..][j - 1];
      if exists j :: 0 <= j < |refs[1..]| && ReplacementPair(prefix, refs[1..][j], fromHex) == Some(pair) {
        var j :| 0 <= j < |refs[1..]| && ReplacementPair(prefix, refs[1..][j], fromHex) == Some(pair);
        assert ReplacementPair(prefix, refs[j + 1], fromHex) == Some(pair);
      }
    }
  }

  /**
   * The replacement list handed to the object store: none without a prefix; the prefix must be a
   * relative path; a reference store that cannot be listed yields none.
   */
  function Replacements(prefix: Option<string>, isRelativePath: string -> bool, listing: Option<seq<Option<Reference>>>, fromHex: string -> Option<Oid>): (r: Result<seq<(Oid, Oid)>, OpenError>)
    ensures prefix.None? ==> r == Ok([])
    ensures r.Err? <==> prefix.Some? && !isRelativePath(prefix.value)
    ensures r.Err? ==> r.error == RelativePath(prefix.value)
    ensures prefix.Some? && isRelativePath(prefix.value) && listing.None? ==> r == Ok([])
    ensures prefix.Some? && isRelativePath(prefix.value) && listing.Some? ==>
      r == Ok(ExtractReplacements(prefix.value, listing.value, fromHex))
  {
    match prefix
    case None => Ok([])
    case Some(p) =>
      if !isRelativePath(p) then Err(RelativePath(p))
      else
        match listing
        case None => Ok([])
        case Some(refs) => Ok(ExtractReplacements(p, refs, fromHex))
  }

  // ---------------------------------------------------------------------------------------------
  // `open_from_paths`

  datatype Options = Options(bailIfUntrusted: bool, lenientConfig: bool)

  /** The oracles standing for the file system, the current user and the configuration's helpers. */
  datatype Environment = Environment(
    worktree: WorktreeEnv,
    ownedByCurrentUser: Path -> Option<bool>,
    resolver: Resolver,
    trustedByDefault: SectionMeta -> bool,
    isRelativePath: string -> bool,
    fromHex: string -> Option<Oid>)

  /** What the configuration and the reference store answer. */
  datatype ConfigValues = ConfigValues(
    isBare: bool,
    worktreeSettings: seq<WorktreeSetting>,
    localCoreBare: bool,
    safeDirs: seq<string>,
    replaceRefsAnswer: Result<Option<bool>, string>,
    replaceRefBase: Option<string>,
    references: Option<seq<Option<Reference>>>)

  datatype Opened = Opened(
    worktree: Option<Path>,
    trust: Trust,
    warnMissingWorktree: bool,
    replacements: seq<(Oid, Oid)>)

  /** The work tree after `core.worktree` and inference. */
  function WorktreeStage(gitDir: Path, worktreeDir: Option<Path>, opts: Options, env: Environment, values: ConfigValues): Result<WorktreeResolution, OpenError> {
    match ResolveWorktree(values.isBare, worktreeDir, gitDir, values.worktreeSettings, env.worktree, opts.lenientConfig)
    case Err(e) => Err(e)
    case Ok(res) => Ok(res.(worktree := InferWorktree(res.worktree, values.isBare, gitDir, values.localCoreBare)))
  }

  /** The git dir's trust after the gate. */
  function TrustStage(gitDir: Path, worktree: Option<Path>, trust: Trust, opts: Options, env: Environment, values: ConfigValues): Result<Trust, OpenError> {
    if GateRuns(trust, worktree, env.ownedByCurrentUser) then
      GateTrust(CheckSpec(env.resolver, TestDir(worktree, gitDir), values.safeDirs), opts.bailIfUntrusted)
    else Ok(trust)
  }

  function Context(gitDir: Path, worktree: Option<Path>, trust: Trust, env: Environment, values: ConfigValues): ElevationContext {
    ElevationContext(TestDir(worktree, gitDir), trust, values.safeDirs, env.resolver, env.trustedByDefault)
  }

  /**
   * The outcome of `open_from_paths`. A reduced trust is only ever the answer of a gate that ran
   * and refused the test dir, for a caller that did not ask to bail; a bare repository gets no
   * work tree it was not given.
   */
  function OpenOutcome(gitDir: Path, worktreeDir: Option<Path>, trust: Trust, opts: Options, env: Environment, values: ConfigValues): (r: Result<Opened, OpenError>)
    ensures r.Ok? && r.value.trust == Reduced ==> !opts.bailIfUntrusted
    ensures r.Ok? && r.value.trust == Reduced ==> CheckSpec(env.resolver, TestDir(r.value.worktree, gitDir), values.safeDirs) != Safe
    ensures r.Ok? && values.isBare ==> r.value.worktree.None? || r.value.worktree == worktreeDir
  {
    match WorktreeStage(gitDir, worktreeDir, opts, env, values)
    case Err(e) => Err(e)
    case Ok(wt) =>
      match TrustStage(gitDir, wt.worktree, trust, opts, env, values)
      case Err(e) => Err(e)
      case Ok(t) =>
        match ReplacementRefsPrefix(values.replaceRefsAnswer, values.replaceRefBase)
        case Err(e) => Err(e)
        case Ok(prefix) =>
          match Replacements(prefix, env.isRelativePath, values.references, env.fromHex)
          case Err(e) => Err(e)
          case Ok(repl) => Ok(Opened(wt.worktree, t, wt.warnMissing, repl))
  }

  /** Whether the sections were elevated, and with which context. */
  function ElevationOf(gitDir: Path, worktreeDir: Option<Path>, trust: Trust, opts: Options, env: Environment, values: ConfigValues): Option<ElevationContext> {
    match WorktreeStage(gitDir, worktreeDir, opts, env, values)
    case Err(_) => None
    case Ok(wt) =>
      if !GateRuns(trust, wt.worktree, env.ownedByCurrentUser) then None
      else
        match TrustStage(gitDir, wt.worktree, trust, opts, env, values)
        case Err(_) => None
        case Ok(t) => Some(Context(gitDir, wt.worktree, t, env, values))
  }

  /**
   * After the open the git dir is fully trusted exactly when it was and no work tree of doubtful
   * ownership exists, or the safe-directory check of the test dir passed.
   */
  lemma OpenedTrust(gitDir: Path, worktreeDir: Option<Path>, trust: Trust, opts: Options, env: Environment, values: ConfigValues)
    requires OpenOutcome(gitDir, worktreeDir, trust, opts, env, values).Ok?
    ensures var o := OpenOutcome(gitDir, worktreeDir, trust, opts, env, values).value;
      GateRuns(trust, o.worktree, env.ownedByCurrentUser) ==>
        (o.trust == Full <==> CheckSpec(env.resolver, TestDir(o.worktree, gitDir), values.safeDirs) == Safe)
    ensures var o := OpenOutcome(gitDir, worktreeDir, trust, opts, env, values).value;
      !GateRuns(trust, o.worktree, env.ownedByCurrentUser) ==> o.trust == trust == Full
  {
  }

  /** The open fails as unsafe exactly when the gate runs, the check fails and the caller asked to bail. */
  lemma OpenedUnsafe(gitDir: Path, worktreeDir: Option<Path>, trust: Trust, opts: Options, env: Environment, values: ConfigValues)
    requires WorktreeStage(gitDir, worktreeDir, opts, env, values).Ok?
    ensures var wt := WorktreeStage(gitDir, worktreeDir, opts, env, values).value.worktree;
      OpenOutcome(gitDir, worktreeDir, trust, opts, env, values).Err? && OpenOutcome(gitDir, worktreeDir, trust, opts, env, values).error.UnsafeGitDir?
      <==> GateRuns(trust, wt, env.ownedByCurrentUser) && opts.bailIfUntrusted
           && CheckSpec(env.resolver, TestDir(wt, gitDir), values.safeDirs) != Safe
  {
  }

  /**
   * `open_from_paths` from the configuration on: the work tree and the trust are reassigned
   * step by step, and the sections are elevated in place when the gate ran.
   */
  method OpenFromPaths(gitDir: Path, worktreeDir: Option<Path>, trust: Trust, opts: Options, env: Environment, values: ConfigValues, config: ConfigSections)
    returns (r: Result<Opened, OpenError>)
    modifies config.sections
    ensures r == OpenOutcome(gitDir, worktreeDir, trust, opts, env, values)
    ensures ElevationOf(gitDir, worktreeDir, trust, opts, env, values).Some? ==>
      config.sections[..] == ElevateAll(ElevationOf(gitDir, worktreeDir, trust, opts, env, values).value, old(config.sections[..]))
    ensures ElevationOf(gitDir, worktreeDir, trust, opts, env, values).None? ==> config.sections[..] == old(config.sections[..])
  {
    var worktree := worktreeDir;
    var gitDirTrust := trust;
    var warnMissing := false;
    var resolved := ResolveWorktree(values.isBare, worktree, gitDir, values.worktreeSettings, env.worktree, opts.lenientConfig);
    if resolved.Err? {
      return Err(resolved.error);
    }
    worktree := resolved.value.worktree;
    warnMissing := resolved.value.warnMissing;
    worktree := InferWorktree(worktree, values.isBare, gitDir, values.localCoreBare);
    assert WorktreeStage(gitDir, worktreeDir, opts, env, values) == Ok(WorktreeResolution(worktree, warnMissing));

    if GateRuns(gitDirTrust, worktree, env.ownedByCurrentUser) {
      var testDir := TestDir(worktree, gitDir);
      var v := CheckSafeDirectories(env.resolver, testDir, values.safeDirs);
      assert TrustStage(gitDir, worktree, trust, opts, env, values) == GateTrust(v, opts.bailIfUntrusted);
      if v == Safe {
        gitDirTrust := Full;
      } else if opts.bailIfUntrusted {
        return Err(OpenError.UnsafeGitDir(v.path));
      } else {
        gitDirTrust := Reduced;
      }
      var ctx := ElevationContext(testDir, gitDirTrust, values.safeDirs, env.resolver, env.trustedByDefault);
      assert ElevationOf(gitDir, worktreeDir, trust, opts, env, values) == Some(ctx);
      ghost var _ := config.ElevateTrust(ctx);
    } else {
      assert ElevationOf(gitDir, worktreeDir, trust, opts, env, values).None?;
    }
    assert TrustStage(gitDir, worktree, trust, opts, env, values) == Ok(gitDirTrust);

    var prefix := ReplacementRefsPrefix(values.replaceRefsAnswer, values.replaceRefBase);
    if prefix.Err? {
      return Err(prefix.error);
    }
    var replacements := Replacements(prefix.value, env.isRelativePath, values.references, env.fromHex);
    if replacements.Err? {
      return Err(replacements.error);
    }
    r := Ok(Opened(worktree, gitDirTrust, warnMissing, replacements.value));
  }
}
