# gitoxide core rules in Dafny

This project models four small, independent cores of gitoxide, a Rust implementation of git, and proves properties of them.

- **Opening a repository** (`gix/src/open/repository.rs`; modules `Paths`, `SafeDirectory`, `OpenRepository`):
  - which path is probed as the git directory;
  - how `core.worktree` is resolved and a work tree is inferred or cleared;
  - the `safe.directory` scan;
  - the gate that re-evaluates the git directory's trust;
  - the loop that raises configuration sections to full trust, memoised per file;
  - the choice of the replacement-ref prefix and the extraction of replacement pairs.

  Paths are sequences of components. The file system, the configuration cascade, the current user and the reference store are oracles, passed as function-typed fields of `Resolver`, `WorktreeEnv` and `Environment`. `check_safe_directories`, the elevation loop and `open_from_paths` keep their imperative form: loops over a flag, a memo map, and an array of section records owned by one `ConfigSections` object. Each is proved against a specification function.
- **Tree entry modes and order** (`gix-object/src/tree/mod.rs`; modules `TreeEntryMode`, `TreeEntryOrder`):
  - the octal mode parser, as a `while` loop;
  - `split_once` and `extract_git_mode`;
  - the mask-based classifier;
  - the conversions between `u16`/`u32`, `EntryKind` and `EntryMode`;
  - the space-padded 6-byte representation;
  - the order of tree entries, in which a tree's name counts as if it ended in '/'.
- **Tag serialisation** (`git-object/src/tag/write.rs`; module `TagWrite`): the layout `write_to` appends, the closed-form `size()`, `validated_name`, and the delegations of `Tag` to `TagRef`.
- **Pack fan-out check** (`gix-pack/src/verify.rs`; module `PackVerify`): `fan`, which finds the first index where the table decreases.

`Base` holds `Option`, `Result` and the byte and integer subset types. Octal constants of the source are written in hex, with the octal spelling beside them.

## Model

| member | source | states |
|---|---|---|
| PackVerify.Fan | gix-pack/src/verify.rs:21-25 | `None` iff every adjacent pair is non-decreasing; `Some(i)` means `data[i] > data[i+1]` and no earlier pair decreases |
| PackVerify.FanFrom | gix-pack/src/verify.rs:21-25 | the same search starting at index k: `None` iff the suffix from k is non-decreasing, otherwise the first decreasing pair at or after k |
| PackVerify.FanOfShortTable | gix-pack/src/verify.rs:21-25 | tables of length 0 or 1 have no violation |
| PackVerify.FanIsFirstViolation | gix-pack/src/verify.rs:22-24 | any decreasing pair j means the result exists and is at most j, which is the first match that `find_map` stops at |
| PackVerify.FanExamples | gix-pack/src/verify.rs:24 | equal neighbours are no violation, since the test is strict; [1,2,2,1,0] gives index 2 |
| TreeEntryMode.OctalPrefixLen | gix-object/src/tree/mod.rs:54-67 | the length of the run of octal digits at the front: all digits before it, a non-digit at it |
| TreeEntryMode.ParseGitMode | gix-object/src/tree/mod.rs:50-72 | the loop returns exactly the specification: `None` when a non-octal, non-space byte or an 8th digit comes before the first space, otherwise the octal prefix value with the u16 shift wrapping |
| TreeEntryMode.ParseGitModeOfEmpty | gix-object/src/tree/mod.rs:71 | the empty input parses as `Some(0)` |
| TreeEntryMode.ParseGitModeIgnoresRest | gix-object/src/tree/mod.rs:56-59 | everything after the first space is ignored |
| TreeEntryMode.ParseGitModeRejectsNonOctal | gix-object/src/tree/mod.rs:61-63 | a byte outside '0'..'7' before the first space gives `None` |
| TreeEntryMode.ParseGitModeRejectsEighthDigit | gix-object/src/tree/mod.rs:64-67 | eight leading octal digits give `None` |
| TreeEntryMode.OctalValueFits | gix-object/src/tree/mod.rs:39-43 | at most 6 digits, and a leading digit of at most 1 when there are 6, fit in a u16 |
| TreeEntryMode.ParseGitModeIsOctalValue | gix-object/src/tree/mod.rs:39-49 | for such digit strings the parse is exactly the octal number, with no wrap |
| TreeEntryMode.ParseGitModeOfDigits | gix-object/src/tree/mod.rs:54-71 | up to 7 octal digits parse to their octal value modulo 2^16 |
| TreeEntryMode.ParseGitModeTreeWithZero | gix-object/src/tree/mod.rs:42-43 | "040000" parses as 0o40000 |
| TreeEntryMode.ParseGitModeTreeWithoutZero | gix-object/src/tree/mod.rs:42-43 | "40000" parses as 0o40000 as well |
| TreeEntryMode.ParseGitModeAcceptsSevenDigits | gix-object/src/tree/mod.rs:64-68 | as written, the seven digits "1000000" are accepted and wrap to `Some(0)` |
| TreeEntryMode.ParseGitModeFixed | gix-object/src/tree/mod.rs:50-72 | the corrected parser: it fails whenever more than 6 octal digits lead the input, and agrees with the loop everywhere else |
| TreeEntryMode.ParseGitModeFixedRejectsSevenDigits | gix-object/src/tree/mod.rs:64-66 | the corrected parser rejects "1000000" |
| TreeEntryMode.ParseGitModeBlob | gix-object/src/tree/mod.rs:50-72 | "100644" parses as 0o100644, both with the loop as written and with the corrected parser |
| TreeEntryMode.SplitOnce | gix-object/src/tree/mod.rs:75-80 | `None` iff the byte does not occur; else first + [v] + second is the input and v is not in first |
| TreeEntryMode.SplitOnceAtFirst | gix-object/src/tree/mod.rs:75-80 | the split happens at the first occurrence, and recovers both parts |
| TreeEntryMode.ExtractGitMode | gix-object/src/tree/mod.rs:87-97 | as written: a result splits the input at its first space, with a non-empty rest and the mode that `parse_git_mode` reads from the part before it; no space gives `None` |
| TreeEntryMode.ExtractGitModeOfEntry | gix-object/src/tree/mod.rs:83-97 | for every mode part without a space and every rest: an entry is read iff the rest is non-empty and the mode part parses, and it is that mode with both parts |
| TreeEntryMode.ExtractGitModeNeedsRest | gix-object/src/tree/mod.rs:90-92 | nothing after the first space gives `None` |
| TreeEntryMode.ExtractGitModeExample | gix-object/src/tree/mod.rs:87-97 | "100644 a" gives (0o100644, ("100644", "a")) |
| TreeEntryMode.ExtractGitModeFixed | gix-object/src/tree/mod.rs:83-97 | the extraction on the corrected parser: a result splits at the first space, has a non-empty rest and a mode part of at most 6 octal digits that the corrected parser reads |
| TreeEntryMode.ExtractGitModeFixedOfEntry | gix-object/src/tree/mod.rs:83-97 | an entry is read iff the rest is non-empty and the corrected parser accepts the mode part; for at most 6 leading digits it agrees with the extraction as written |
| TreeEntryMode.ExtractGitModeAcceptsSevenDigits | gix-object/src/tree/mod.rs:64-68 | as written, the entry "1000000 a" is read with mode 0; the corrected extraction rejects it |
| TreeEntryMode.DescriptiveStrInjective | gix-object/src/tree/mod.rs:219-228 | distinct kinds have distinct descriptive names |
| TreeEntryMode.ParseEntryKindFromValue | gix-object/src/tree/mod.rs:157-173 | `Tree` iff the file type bits are 0o040000, `Link` iff 0o120000, a blob iff 0o100000, executable iff that and bit 0o100; any kind but `Commit` has the file type of its canonical value |
| TreeEntryMode.AsOctalBytes | gix-object/src/tree/mod.rs:207-217 | octal digits only: 5 for a tree, 6 for every other kind |
| TreeEntryMode.AsOctalBytesParses | gix-object/src/tree/mod.rs:207-217 | each kind's octal spelling parses back to the kind's value, as written and with the corrected parser |
| TreeEntryMode.AsDescriptiveStr | gix-object/src/tree/mod.rs:218-228 | each of "tree", "blob", "exe", "link" and "commit" names exactly one kind |
| TreeEntryMode.Kind | gix-object/src/tree/mod.rs:243-246 | any kind but `Commit` keeps the mode's file type bits, an executable has bit 0o100, and `Commit` covers every other file type |
| TreeEntryMode.IsCommit | gix-object/src/tree/mod.rs:248-251 | true iff the file type is none of tree, blob and link |
| TreeEntryMode.IsLink | gix-object/src/tree/mod.rs:253-256 | true iff the file type bits are 0o120000 |
| TreeEntryMode.IsTree | gix-object/src/tree/mod.rs:258-261 | true iff the file type bits are 0o040000 |
| TreeEntryMode.IsNoTree | gix-object/src/tree/mod.rs:263-266 | true iff the file type bits are not 0o040000 |
| TreeEntryMode.IsBlob | gix-object/src/tree/mod.rs:268-271 | true iff the file type bits are 0o100000 |
| TreeEntryMode.IsExecutable | gix-object/src/tree/mod.rs:273-276 | true iff the file type bits are 0o100000 and bit 0o100 is set |
| TreeEntryMode.IsBlobOrSymlink | gix-object/src/tree/mod.rs:278-284 | true iff the file type bits are 0o100000 or 0o120000 |
| TreeEntryMode.EntryModeFromU16 | gix-object/src/tree/mod.rs:181-186 | the result has the kind of the raw value, is that kind's canonical value and spelling, and keeps the file type bits unless the kind is `Commit` |
| TreeEntryMode.EntryModeFromKind | gix-object/src/tree/mod.rs:231-240 | the mode's value is the kind's value, and its 6-byte representation is the octal spelling padded with spaces |
| TreeEntryMode.PredicatesAgreeWithKind | gix-object/src/tree/mod.rs:249-284 | `is_no_tree == !is_tree`; an executable is a blob; blob-or-symlink is blob or link; commit is none of the others |
| TreeEntryMode.KindOfKindMode | gix-object/src/tree/mod.rs:156-198 | `kind(EntryMode::from(k)) == k`, and classifying a kind's value gives that kind back |
| TreeEntryMode.EntryModeFromU16IsCanonical | gix-object/src/tree/mod.rs:175-186 | `EntryMode::from(u16)` classifies through `EntryKind`, so it yields one of the five canonical modes and is idempotent |
| TreeEntryMode.KindTestVectors | gix-object/tests/object/tree/entry_mode.rs:11-45 | the concrete classifications the test pins: 0o100645 is a blob, 0o100700 executable, 0o121234 a link, 0o040101 a tree, 0o167124 and 0 commits |
| TreeEntryMode.TryFromU32 | gix-object/src/tree/mod.rs:99-109 | accepted iff the value is 0o40000, 0o120000 or 0o160000, or has bit 0o100000 set; a rejection carries the input unchanged |
| TreeEntryMode.TryFromU32Kinds | gix-object/src/tree/mod.rs:99-109 | the accepted values map to the canonical mode of their kind |
| TreeEntryMode.SpacePosition | gix-object/src/tree/mod.rs:287-293 | the index of the first space: none iff no space occurs |
| TreeEntryMode.Len | gix-object/src/tree/mod.rs:287-293 | `len` is at most 6, covers no space, and a shorter length stops at a space |
| TreeEntryMode.LenOfPadded | gix-object/src/tree/mod.rs:287-293 | a padded spelling without spaces has its own length |
| TreeEntryMode.AsBytes | gix-object/src/tree/mod.rs:295-299 | a prefix of the buffer of at most 6 bytes, without a space, followed by a space when it is shorter than 6 |
| TreeEntryMode.AsBytesOfKindMode | gix-object/src/tree/mod.rs:208-217 | for a mode built from a kind, `as_bytes` equals `as_octal_bytes`: 5 bytes for a tree, 6 otherwise (as in gix-object/tests/object/tree/entry_mode.rs:47-77) |
| TreeEntryOrder.Cmp | gix-object/src/tree/mod.rs:344-354 | entries of one name are `Equal` iff both or neither are trees, and the tree is `Greater` otherwise; a name that opens the other sorts first as a non-tree, and as a tree iff '/' is below the other name's next byte |
| TreeEntryOrder.LexCompareEqual | gix-object/src/tree/mod.rs:347 | bytewise comparison is `Equal` iff the slices are equal |
| TreeEntryOrder.CmpAntisymmetric | gix-object/src/tree/mod.rs:344-354 | swapping the operands reverses the ordering |
| TreeEntryOrder.CmpIgnoresIdAndModeBits | gix-object/src/tree/mod.rs:374-384 | only the names and the is-tree bits take part |
| TreeEntryOrder.CmpIsSortKeyOrder | gix-object/src/tree/mod.rs:344-354 | for names without '/', the order is the bytewise order of the names with '/' appended to trees |
| TreeEntryOrder.CmpTransitive | gix-object/src/tree/mod.rs:374-384 | for names without '/', the order is transitive |
| TreeEntryOrder.CmpEqualIff | gix-object/src/tree/mod.rs:344-354 | for names without '/', `Equal` iff same name and same is-tree bit |
| TreeEntryOrder.CmpVirtualSlashExamples | gix-object/src/tree/mod.rs:348-353 | the tree "a" sorts after the blob "a.b" and before "a0"; the blob "a" sorts before "a.b" |
| TreeEntryOrder.CmpEqualForDifferentNames | gix-object/src/tree/mod.rs:344-354 | a tree "a" and a blob "a/" compare `Equal` |
| TagWrite.ToHex | git-object/src/tag/write.rs:39 | two lower-case hex digits per byte, high nibble first |
| TagWrite.ValidatedName | git-object/src/tag/write.rs:75-81 | `Ok(name)` iff validation passes and the first byte is not '-'; `InvalidRefName` iff validation fails; `StartsWithDash` iff it passes and starts with '-' |
| TagWrite.WriteTo | git-object/src/tag/write.rs:38-55 | on success it appends the object, type, tag and optional tagger headers, NL, the message and NL plus the signature; a bad name makes it stop after the type header with that name's error |
| TagWrite.Size | git-object/src/tag/write.rs:57-68 | for a 20-byte id, `size()` is the number of bytes a successful write emits |
| TagWrite.Encoded | git-object/src/tag/write.rs:38-55 | the successful output opens with exactly what a write that fails on the name leaves: the object and type headers |
| TagWrite.TaggerLineIff | git-object/src/tag/write.rs:42-44 | right after the tag header comes a "tagger " line iff there is a tagger, the empty line otherwise |
| TagWrite.MessagePlacement | git-object/src/tag/write.rs:45-48 | the message follows the empty line unchanged; an empty message adds no bytes |
| TagWrite.SignatureIsLast | git-object/src/tag/write.rs:50-53 | a PGP signature ends the output, preceded by exactly one NL |
| TagWrite.EncodedStartsWithObjectLine | git-object/src/tag/write.rs:39 | the output opens with "object ", the 40 hex digits of the id and NL |
| TagWrite.TagRefKind | git-object/src/tag/write.rs:70-72 | `kind()` of a `TagRef` is `Tag` |
| TagWrite.TagKind | git-object/src/tag/write.rs:32-34 | `kind()` of a `Tag` is `Tag`, the same as its borrowed view |
| TagWrite.TagSize | git-object/src/tag/write.rs:28-30 | `Tag::size` is the byte length of the borrowed view's output |
| TagWrite.TagWriteTo | git-object/src/tag/write.rs:24-26 | `Tag::write_to` writes what the borrowed view writes, with the same errors: the whole encoding on success, the object and type headers on a bad name |
| Paths.Join | gix/src/open/repository.rs:291 | `Path::join`: an absolute right-hand side replaces the left; otherwise the components are appended |
| Paths.Parent | gix/src/open/repository.rs:315 | `Path::parent`: none iff there are no components; otherwise the path less its last component |
| Paths.FileName | gix/src/open/repository.rs:312 | `Path::file_name`: the last component, never ".." |
| Paths.StartsWith | gix/src/open/repository.rs:269 | `Path::starts_with`: the base joined with the stripped rest gives the path back |
| Paths.Extension | gix/src/open/repository.rs:70 | `Path::extension`: the dot-free part after the last '.' of the file name, where that '.' is not the first byte; none for a name without '.' |
| SafeDirectory.Scan | gix/src/open/repository.rs:507-539 | a list whose last pattern is "*" leaves the flag set, one whose last pattern is "" leaves it clear |
| SafeDirectory.CheckSpec | gix/src/open/repository.rs:494-545 | a refusal names the canonical path; an empty list refuses; a last "*" accepts and a last "" refuses |
| SafeDirectory.CheckSafeDirectories | gix/src/open/repository.rs:494-545 | the loop over the patterns, with its mutable flag, returns the verdict of the scan specification |
| SafeDirectory.ScanIsSafeByLastReset | gix/src/open/repository.rs:507-539 | the scan is safe iff some "*" or granting pattern is followed by no "", or the flag starts set and no "" appears |
| SafeDirectory.ScanAppend | gix/src/open/repository.rs:507-539 | scanning a concatenation continues from the flag the first part leaves |
| SafeDirectory.EndingInEmptyIsUnsafe | gix/src/open/repository.rs:512-515 | a list ending in "" is unsafe |
| SafeDirectory.StarRestoresSafety | gix/src/open/repository.rs:508-511 | a "*" with no "" after it makes the path safe, whatever came before |
| SafeDirectory.OnlyEmptyRevokes | gix/src/open/repository.rs:516 | once safe, only "" clears the flag |
| SafeDirectory.NonAbsoluteIsIgnored | gix/src/open/repository.rs:523-529 | a pattern that is not absolute after interpolation has no effect |
| SafeDirectory.FailedInterpolationIsLiteral | gix/src/open/repository.rs:517-522 | a failed interpolation falls back to the literal pattern and is not an error |
| SafeDirectory.StarPatternCoversParent | gix/src/open/repository.rs:530-534 | a pattern ending in "*" matches exactly the paths under its parent, the parent included |
| SafeDirectory.StarPatternIsComponentWise | gix/src/open/repository.rs:530-534 | the pattern "/a/*" covers "/a/b/c" but not "/ab" |
| SafeDirectory.ExactPatternIsEquality | gix/src/open/repository.rs:535-537 | any other absolute pattern grants only the canonical test path itself |
| SafeDirectory.UnsafeCarriesCanonicalPath | gix/src/open/repository.rs:502-505 | the error carries the canonicalised path, which is the path as given when canonicalisation fails; an empty list is unsafe |
| SafeDirectory.OrderMatters | gix/src/open/repository.rs:540-544 | ["*", ""] is unsafe and ["", "*"] is safe |
| OpenRepository.Candidate | gix/src/open/repository.rs:69-75 | the path itself iff opened as-is or it already looks like a git dir, otherwise path/.git |
| OpenRepository.OpenCandidate | gix/src/open/repository.rs:67-91 | a success names a probed repository: the candidate, or the path after the candidate failed; success iff one of those probes succeeds; a failure carries the last path tried and its error |
| OpenRepository.CandidateExamples | gix/src/open/repository.rs:69-75 | "/r/work" is probed as "/r/work/.git"; "/r/.git" and "/r/repo.git" are probed as given |
| OpenRepository.InitialTrust | gix/src/open/repository.rs:98-100 | a given trust is kept; otherwise the ownership answer, or its error |
| OpenRepository.LastConsidered | gix/src/open/repository.rs:256-276 | the last setting whose section passes the filter and lies in our git dir; none when no setting qualifies |
| OpenRepository.ResolveWorktree | gix/src/open/repository.rs:254-307 | a bare repository keeps its work tree without warning; the warning comes only with a work tree that is not a directory; errors are `PathInterpolation` of a listed value, or `ConfigTypedString` under a strict configuration |
| OpenRepository.ResolveWorktreeValue | gix/src/open/repository.rs:277-293 | the value found is used verbatim from Env/Cli/Api/EnvOverride sources and joined onto the git dir otherwise, then normalised |
| OpenRepository.ResolveWorktreeInterpolationError | gix/src/open/repository.rs:279-285 | a value that fails to interpolate fails the open with `PathInterpolation` of that value |
| OpenRepository.ResolveWorktreeWithoutOurSetting | gix/src/open/repository.rs:298-307 | with no setting from our repository, the open fails with `ConfigTypedString` iff not bare, not lenient and some setting passes the filter; otherwise the work tree is unchanged |
| OpenRepository.MissingDirectoryOnlyWarns | gix/src/open/repository.rs:293-297 | whether the directory exists changes only the warning |
| OpenRepository.InferWorktree | gix/src/open/repository.rs:310-337 | a work tree comes out only as given, or inferred for a non-bare repository as the folder whose ".git" is the git dir; a bare repository without one gets none |
| OpenRepository.InferredWorktreeHoldsGitDir | gix/src/open/repository.rs:314-316 | not bare, no work tree and a git dir named ".git": the work tree is the folder that holds it |
| OpenRepository.InferWorktreeCases | gix/src/open/repository.rs:310-337 | nothing is inferred otherwise; a given work tree is cleared iff the git dir is named ".git", a Local `core.bare` exists and the repository is bare |
| OpenRepository.InferWorktreeIdempotent | gix/src/open/repository.rs:310-337 | inferring twice is inferring once |
| OpenRepository.GateRuns | gix/src/open/repository.rs:341-345 | the gate always runs for a reduced trust; without a work tree it runs iff the trust is reduced; a work tree of unknown ownership makes it run |
| OpenRepository.TestDir | gix/src/open/repository.rs:353 | the work tree if there is one, else the git dir |
| OpenRepository.GateTrust | gix/src/open/repository.rs:361-368 | `Full` iff the check passed; `Reduced` iff it failed without bail; `UnsafeGitDir` with the checked path iff it failed with bail |
| OpenRepository.Eligible | gix/src/open/repository.rs:379-386 | only sections of reduced trust read from a file are looked at |
| OpenRepository.ConfigFileIsSafe | gix/src/open/repository.rs:395-404 | a file under the test dir of a fully trusted git dir is safe; with a reduced git dir trust, safe iff it passes the safe-directory check |
| OpenRepository.Elevated | gix/src/open/repository.rs:379-410 | source and path stay; `Full` afterwards iff it was, or the section is eligible and its file is safe; any change is an eligible section raised to `Full` |
| OpenRepository.ElevateAll | gix/src/open/repository.rs:373-412 | every section is elevated independently, with none added or removed |
| OpenRepository.ElevatedIff | gix/src/open/repository.rs:379-410 | a section is `Full` afterwards iff it was, or it was eligible and its file is under the test dir with a `Full` git dir, or passes the safe-directory check; ineligible sections and the source and path of every section are untouched |
| OpenRepository.ElevationNeverLowers | gix/src/open/repository.rs:382-384 | a `Full` section stays as it is |
| OpenRepository.SamePathSameTrust | gix/src/open/repository.rs:388-395 | eligible sections from one file get one answer |
| OpenRepository.ElevateAllIdempotent | gix/src/open/repository.rs:373-412 | a second run changes nothing |
| OpenRepository.ConfigSections.ElevateTrust | gix/src/open/repository.rs:373-412 | the loop over the section array leaves the elevation specification; each file is asked at most once, and exactly the eligible sections' files are asked |
| OpenRepository.ReplacementRefsPrefix | gix/src/open/repository.rs:470-492 | a configuration error gives `ConfigBoolean`; a prefix comes back iff the flag answers `Some(false)`, and it is `replaceRefBase` or "refs/replace/" |
| OpenRepository.ReplacementPair | gix/src/open/repository.rs:430-435 | a pair iff the reference points to an object and its name is the prefix plus a valid hex id; the pair is that id and the target |
| OpenRepository.ExtractReplacements | gix/src/open/repository.rs:428-437 | at most one pair per reference, and none at all iff no listed reference yields a pair |
| OpenRepository.ExtractReplacementsMembership | gix/src/open/repository.rs:428-437 | a pair is extracted iff some listed reference yields it |
| OpenRepository.Replacements | gix/src/open/repository.rs:418-441 | none without a prefix; `RelativePath` iff the prefix is not a relative path; none when the refs cannot be listed; otherwise the extracted pairs |
| OpenRepository.OpenedTrust | gix/src/open/repository.rs:341-368 | after a successful open, when the gate ran, trust is `Full` iff the test dir passed the check; when it did not run, trust was and stays `Full` |
| OpenRepository.OpenedUnsafe | gix/src/open/repository.rs:341-368 | the open fails as unsafe iff the gate ran, the caller asked to bail and the check failed |
| OpenRepository.OpenOutcome | gix/src/open/repository.rs:253-441 | a reduced trust comes only from a refused test dir and a caller that did not ask to bail; a bare repository gets no work tree it was not given |
| OpenRepository.OpenFromPaths | gix/src/open/repository.rs:253-441 | the step-by-step reassignment of work tree and trust gives exactly the outcome specification; the sections are elevated in place iff the gate ran and the open did not bail, with `Full` or `Reduced` git dir trust, and are left alone otherwise |

## Left out

- File system, process and user queries are oracles or parameters: `gix_discover::is_git`, `from_dot_git_dir`, `current_dir`, `Trust::from_path_ownership`, `is_path_owned_by_current_user`, `realpath_opts`, `is_dir`, `gix_path::normalize`, interpolation with the installation and home directories. `from_dot_git_dir` is not modelled: `open_opts` is modelled up to the choice of path and the initial trust.
- `open`, `open_with_environment_overrides` and `EnvironmentOverrides::from_env` read environment variables, which is process I/O.
- Configuration parsing and the cascade are not modelled: `StageOne::new`, `Cache::from_stage_one`, `path_filter`, `boolean_filter`, `strings_filter`, `is_replace_refs_enabled`, `reflog_or_default`. Their answers are inputs, in `ConfigValues`:
  - `core.worktree` is a list of (section, value) pairs in cascade order, and the lookup takes the last one its filter accepts;
  - `localCoreBare` means a Local `core.bare` value is present that reads as a boolean.
- OpenRepository.ResolveWorktree: the source records `key_source` inside the filter closure, so the source of a section that passes the filter but lacks the value could, in principle, be recorded. The model takes the source of the section whose value is used.
- OpenRepository.InferWorktree: `refs.git_dir()` is taken to be the git dir.
- OpenRepository.ReplacementRefsPrefix: the answer of `is_replace_refs_enabled` is used with the polarity of the lines as written: it is bound to `is_disabled`, and a missing answer disables replacement. The function itself is not part of this model.
- Unicode precomposition of paths (repository.rs:192-215) is foreign string normalisation.
- These are external services: construction of the ref store and the object store, HEAD lookup, the ref namespace and the reflog setting. Replacement pairs are extracted from a given listing of references, where an unreadable reference is `None`.
- The `OwnShared::try_unwrap` runtime check becomes exclusive ownership of the section array by `ConfigSections`.
- The warning about a missing work-tree directory is a boolean in the result, not a trace message.
- Paths are Unix component sequences. `Path::components` normalisation, Windows prefixes and non-UTF-8 names are not modelled.
- `Editor` (tree/mod.rs:24-37) is a declaration whose logic is elsewhere. `TryFrom<&[u8]>` for `EntryMode` is not part of this model. The `size_in_bytes` test checks Rust memory layout. `Debug`, `Octal`, `as_octal_str` and `as_bstr` are formatting only.
- Bit masks of the mode classifier are written with `/` and `%`, which equal the masks for values below 2^16. `From<EntryMode> for u16` is the `value` field.
- TagWrite: these helpers are taken as given:
  - the `encode::*` writers, as "key SP value NL" appenders;
  - hex encoding, as lower-case hex;
  - `git_validate::tag::name`, as a predicate that rejects the empty name;
  - signatures, as the bytes they encode to.

  I/O errors of the sink, and any check `encode::header_field` makes on the name bytes, are not modelled.
- TagWrite.Size: stated for ids of the SHA-1 length, the only hash kind.
- OpenRepository.OpenFromPaths: the replace-refs answer and `gitoxide.objects.replaceRefBase` are inputs fixed before elevation. The source reads them from the configuration after elevation (repository.rs:413-418), so a section raised to full trust could change which values count; the model does not capture that.
- `checksum_on_disk_or_mmap` does file reading, hashing, progress reporting and interrupts.
- `git-tempfile/examples/delete-tempfiles-on-sigterm-interactive.rs` is signal handling and tempfile I/O.

## Findings

| source | as written | input that shows it | evidently intended | confidence | as-written member | corrected member |
|---|---|---|---|---|---|---|
| gix-object/src/tree/mod.rs:64-67 | the check `idx > 6` rejects only the 8th digit, so a 7th octal digit is shifted in and the u16 value wraps | "1000000" (seven digits) parses as `Some(0)`, a commit-kind mode | more than 6 octal digits are malformed, as the comment on the check and the "5-6 octal digits" doc comment say: `idx > 5` | high (proved, not executed) | TreeEntryMode.ParseGitModeAcceptsSevenDigits | TreeEntryMode.ParseGitModeFixed |

`ParseGitMode`, `ExtractGitMode` and their lemmas describe the code as written. `ExtractGitModeAcceptsSevenDigits` shows the entry "1000000 a" read with mode 0. `ExtractGitModeFixed` is the extraction on the corrected parser.
