# Bootstrap sync engine, in Dafny

This project models the file-synchronisation core of `scripts/bootstrap.py`, the Python bootstrap installer of an AI development workflow template. The core does three things:

- **Sync engine.** `sync_workflow_files` copies the files of a template `.github` tree into `<project>/.github`. It reports each template file as *added*, *updated*, *skipped* or *conflicted*.
  - Files whose path mentions `workflows`, `CODEOWNERS` or `dependabot.yml` are never synced. The match is a case-insensitive substring test.
  - A file whose destination differs from the template counts as a conflict, unless `force` is set.
  - With `backup`, the existing `.github` is first copied to a timestamped sibling.
- **Content comparator.** `files_are_identical` compares two files by their SHA-256 digests.
- **Backup manager.** `backup_directory` makes a recursive copy. It never overwrites an existing path.

The project also models the version helpers `version_to_tuple` and `is_version_ge`.

The model is purely functional. The file system is represented by immutable values:

- A `Tree` maps relative paths to file contents.
- A `Folder` maps top-level names to directories or files.

The recursive walk of the template (`rglob`) is an input: a sequence of directory and file items in walk order. Two things the real program gets from its environment are parameters:

- the wall-clock timestamp that names a backup;
- the I/O error a backup copy may raise.

Files:

- `common.dfy`: bytes, `Option`, `Result`.
- `filesystem.dfy`: trees and folders.
- `content.dfy`: the comparator.
- `paths.dfy`: normalisation, lower-casing, substring search, the exclusion rule.
- `versions.dfy`: version parsing and comparison.
- `backup.dfy`: the backup manager.
- `sync.dfy`: the sync engine.
- `sync_properties.dfy`: properties of whole passes.
- `scenarios.dfy`: the concrete situations from the repository's tests.

## Model

| member | source | states |
|---|---|---|
| Content.FilesAreIdentical | scripts/bootstrap.py:243-247 | A missing file is never identical to anything. Two existing files are identical exactly when their contents are equal; the SHA-256 digest is treated as collision-free. |
| Paths.ContainsIff | scripts/bootstrap.py:190 | Python's `pat in s`: the left-to-right scan finds `pat` exactly when `pat` occurs in `s` at some index. |
| Paths.NormalizeIdempotent | scripts/bootstrap.py:188 | After replacing backslashes there are none left. Normalising twice equals normalising once. A path without backslashes is unchanged. |
| Paths.ExcludedIff | scripts/bootstrap.py:29 | A path is excluded exactly when its lower-cased form contains `workflows`, `codeowners` or `dependabot.yml`. |
| Paths.ExclusionMatchesDirectory | scripts/bootstrap.py:189-190 | Every path `workflows/` + `s` is excluded, whatever `s` is. |
| Paths.ExclusionIgnoresCase | scripts/bootstrap.py:189-190 | For every path, it is excluded exactly when its lower-cased form is. That two paths differing only in the case of ASCII letters are excluded together follows directly from the rule reading only the lower-cased path. |
| Paths.ExclusionCaseExamples | scripts/bootstrap.py:189-190 | `CODEOWNERS`, `codeowners` and `Dependabot.YML` are all excluded, although the patterns are written `CODEOWNERS` and `dependabot.yml`. |
| Paths.ExclusionOverMatches | scripts/bootstrap.py:190 | `my-Workflows-notes.md` is excluded, because the test is a plain substring match. |
| Paths.NoPatternLetterNotExcluded | scripts/bootstrap.py:29 | A path with no `w`, and with no `d` or no `y`, is never excluded, whatever its case. |
| Paths.ExclusionMisses | scripts/bootstrap.py:189-190 | `README.md` and `docs/notes.txt` are not excluded. |
| Sync.Classify | scripts/bootstrap.py:190-208 | The four outcomes. Exclusion comes first and gives *skipped*, even when the destination is missing. A missing destination gives *added*. Identical content gives *skipped*. Differing content gives *updated* with `force` and *conflicted* without. |
| Sync.Step | scripts/bootstrap.py:185-208 | One loop iteration. Directories change nothing. Only a non-excluded file's own destination can change, and that destination exists afterwards. |
| Sync.StepCases | scripts/bootstrap.py:190-208 | For each case of the loop body, what is appended to which list. A destination is written only when the file is added or updated, and then it holds the template content. |
| Sync.ReconcileFrame | scripts/bootstrap.py:184-210 | After the loop, every non-excluded template file has a destination. No other destination is modified. |
| Sync.SyncWorkflowFiles | scripts/bootstrap.py:161-210 | A missing template raises before anything is touched. A `.github` that is a file makes the call fail. Otherwise the report and the new `.github` are those of the loop over the old `.github`, whatever the backup did. A backup is attempted exactly when it was asked for and `.github` exists. A successful backup holds the old `.github` under a name that was free. Nothing else in the project root changes. |
| Sync.BackupBeforeSync | scripts/bootstrap.py:169-175 | The backup runs only when asked for and `.github` exists. Its outcome is reported but never acted on. On failure the root is unchanged. |
| Backup.DefaultBackupName | scripts/bootstrap.py:255-257 | The default name is `<name>.backup-<timestamp>`. It extends the source name, so it never equals it. |
| Backup.BackupDirectory | scripts/bootstrap.py:250-267 | A missing source is reported. A source that cannot be read is reported as "Backup failed" even when the backup name is taken, because `copytree` reads the source before it creates the destination. Otherwise a taken name is reported as "already exists". The names `""`, `.` and `..` count as taken, because pathlib resolves them to the parent folder or its parent, which exist. A copy is made exactly when the source is a directory, the backup name is free and the copy raises nothing. On success the sibling holds the source. On failure nothing changes, and an existing entry is never overwritten. |
| Backup.BackupTwiceKeepsFirst | scripts/bootstrap.py:259-267 | A second backup under the same explicit name fails and leaves the first backup intact. It reports "already exists", unless reading the source fails first, which is reported as "Backup failed". |
| Backup.DefaultNameIsFresh | scripts/bootstrap.py:255-267 | A default-named backup never disturbs the directory being backed up. It succeeds exactly when the source is a directory, the timestamped name is free and the copy raises nothing. |
| SyncProperties.ReportCoversEveryFile | scripts/bootstrap.py:184-210 | For any walk, the four lists together hold every file of the walk exactly once, under its normalised path, and nothing else. |
| SyncProperties.ReconcileMatchesClassification | scripts/bootstrap.py:184-210 | When the walk yields each path once, each list is the in-order list of files whose classification against the target as it was before the pass is that outcome. |
| SyncProperties.ExpectedMembers | scripts/bootstrap.py:184-208 | A path is in the reference list for an outcome exactly when some file of the walk has that normalised path and that outcome. |
| SyncProperties.ExactlyOneBucket | scripts/bootstrap.py:184-208 | Partition, under two hypotheses: the walk yields each relative path once, and distinct relative paths stay distinct after normalisation. Then each template file lies in the list of its own outcome and in no other. |
| Backup.ParentNamesOccupied | scripts/bootstrap.py:259-265 | A backup under the explicit name `""`, `.` or `..` of a readable directory is refused with "Backup already exists", naming the parent folder or `<parent>/..`, and changes nothing. |
| SyncProperties.ReconcileContents | scripts/bootstrap.py:196-208 | After a pass, every destination holds the template content if its file was added or updated. Otherwise it keeps its old content, or stays absent. |
| SyncProperties.QuietWhenAllPresent | scripts/bootstrap.py:196-205 | Without `force`, a pass over a target that already has every destination adds nothing, updates nothing and changes nothing. |
| SyncProperties.SecondPassAddsNothing | scripts/bootstrap.py:184-210 | Idempotence: a second pass without `force`, run right after a first pass, adds nothing, updates nothing and leaves the target as the first pass left it. |
| SyncProperties.SecondPassKeepsConflicts | scripts/bootstrap.py:196-205 | The second pass reports exactly the conflicts of the first. There are none if the first pass was forced. |
| SyncProperties.ConflictAgainAfterPass | scripts/bootstrap.py:196-205 | One file is in conflict on the second pass exactly when it was in conflict on the first. A forced pass leaves no conflicts. |
| SyncProperties.TouchedFromWalk | scripts/bootstrap.py:193 | A destination written by the pass belongs to some file of the walk. |
| Scenarios.ExclusionScenario | scripts/tests/test_bootstrap.py:18-38 | The test's template is walked in an order `rglob` produces: top-level entries first, then the entries of `workflows` and `docs`. Syncing it into an empty target adds `README.md` and `docs/notes.txt` with their contents. It skips `CODEOWNERS` and `workflows/ci.yml` without writing them, and reports nothing else. |
| Scenarios.BackslashNameCollides | scripts/bootstrap.py:185-208 | Without the normalisation hypothesis the lists overlap. A top-level `x\y` and `y` inside `x` are both recorded as `x/y`. Against a project holding a differing `x/y`, that path is reported as added, for the new file `x\y`, and also as conflicted. |
| Scenarios.ForceScenario | scripts/tests/test_bootstrap.py:41-54 | A differing `README.md` is reported as conflicted and keeps the project's content without `force`. With `force` it is updated to the template's content. |
| Versions.Split | scripts/bootstrap.py:62 | `str.split`: there is at least one part, no part contains the separator, and joining the parts gives back the input. |
| Versions.SplitJoin | scripts/bootstrap.py:62 | Splitting a join of separator-free parts returns the parts. |
| Versions.NatToString | scripts/bootstrap.py:62 | The decimal spelling of `n` is all digits, and `int()` reads it back as `n`. |
| Versions.NumbersOfDigits | scripts/bootstrap.py:62 | When every part is numeric, the comprehension keeps every part, in order, as its value. |
| Versions.PadToThree | scripts/bootstrap.py:63-64 | Padding reaches at least three elements. It keeps the list as a prefix and adds only zeros. |
| Versions.VersionToTuple | scripts/bootstrap.py:61-65 | Component k of the result is the k-th all-digit part of the dotted string, or 0 when there are fewer than k + 1 such parts. |
| Versions.ParseFormat | scripts/bootstrap.py:61-65 | Round trip: parsing `a.b.c` returns `(a, b, c)`. |
| Versions.TruncatesToThree | scripts/bootstrap.py:65 | Parts after the first three numbers are ignored. |
| Versions.PadsWithZeros | scripts/bootstrap.py:63-64 | A bare major number `n` reads as `(n, 0, 0)`. |
| Versions.VersionWithSuffix | scripts/bootstrap.py:61-65 | `2.43.0.windows.1` reads as `(2, 43, 0)`. |
| Versions.DropsNonNumericParts | scripts/bootstrap.py:62 | A non-numeric part is dropped and the later parts move up, so `v` + `a.b.c` reads as `(b, c, 0)`. |
| Versions.PrefixedVersionReadsAsZero | scripts/bootstrap.py:62 | `v16.0.0` reads as `(0, 0, 0)`. |
| Versions.LexGeTriple | scripts/bootstrap.py:69 | Python's tuple `>=` on triples is the major/minor/patch order. |
| Versions.IsVersionGe | scripts/bootstrap.py:68-69 | `current >= minimum` exactly when the parsed triples compare that way in major/minor/patch order. |
| Versions.IsVersionGeOrder | scripts/bootstrap.py:68-69 | `is_version_ge` is reflexive, total and transitive. Two strings are mutually `>=` exactly when they parse to the same triple. |
| Versions.IsVersionGeExamples | scripts/tests/test_bootstrap.py:13-15 | `2.49.0 >= 2.0.0` holds and `1.9.9 >= 2.0.0` does not. |

## Left out

- Tool detection, `extract_version`, `run_command`, the git helpers, `initialize_git_repo`, argument parsing and console output. They are outside the sync core.
- Content.Digest: SHA-256 and its 8 KiB chunked reading are modelled as an injective digest, namely the content itself. Real hash collisions are not modelled.
- Paths.Lower: `str.lower()` is modelled on ASCII letters only. Versions.IsDigits: `str.isdigit()` likewise accepts only the ASCII digits.
- The order of `rglob` is an input sequence. The model does not derive it from a directory tree.
- Sync.Reconcile: `DistinctPaths` (the walk yields each path once) is a hypothesis of the properties rather than a requirement of the operation.
- SyncProperties.ExactlyOneBucket: the partition is promised only when distinct relative paths normalise to distinct paths. On POSIX a file name may contain a backslash, and then one path can be recorded in two lists (see Scenarios.BackslashNameCollides).
- Sync.Reconcile: relative paths are compared as on a case-sensitive file system. On a case-insensitive volume, such as the default macOS one, a template `README.md` finds an existing `readme.md` and is skipped, conflicted or overwritten in place. The model reports it as added under a second key.
- Sync.Reconcile: assumes the I/O goes through. Not modelled:
  - a destination that is a directory, where hashing raises;
  - a destination whose parent is a file, where `mkdir` raises;
  - `copy2` metadata;
  - errors in the middle of a pass, which leave earlier copies in place.
- Sync.SyncWorkflowFiles: `target_root.mkdir` is taken to succeed; a target root that is itself a file is not modelled.
- Sync.SyncWorkflowFiles: paths in messages are built with `/`. Windows separators in messages are not modelled.
- Backup.BackupDirectory: a backup name containing a path separator, which would put the copy elsewhere, is not modelled.
- Backup.BackupDirectory: the not-a-directory message uses the POSIX `[Errno 20]` text. Other platforms word it differently.
- Backup.BackupDirectory: partial copies left behind by a failing `copytree` are not modelled. A failed copy leaves the folder unchanged.
- Backup.BackupDirectory: I/O errors come in two kinds only. An error reading the source is raised before the destination is checked. An error writing the copy is raised after the destination is created. Errors interleaved with partial writes are not distinguished further.

Two behaviours of the code are kept as written:

- A failed backup only prints a warning, and the pass goes on.
- A `.github` that is a regular file makes the pass raise, from `mkdir`.
