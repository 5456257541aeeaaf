/**
 * The sync engine of scripts/bootstrap.py (`sync_workflow_files`): reconcile
 * a template tree against `<target_root>/.github`, sorting every template
 * file into added, updated, skipped or conflicted.
 *
 * The recursive walk of the template (`source.rglob("*")`) is an input: a
 * sequence of items in walk order, each a directory or a file with its
 * content. The target's `.github` directory is a `Tree` keyed by the same
 * relative paths the walk yields.
 */
module Sync {
  import opened Common
  import opened FileSystem
  import Content
  import Paths
  import Backup

  /** The directory under the target root that receives the template files. */
  const GithubDir: string := ".github"

  /** One entry yielded by the walk of the template, with its path relative to the template root. */
  datatype Item = FileItem(rel: string, content: Bytes) | DirItem(rel: string)

  /** The four ways a template file can be classified. */
  datatype Outcome = Added | Updated | Skipped | Conflicted

  /** `SyncResult`: the normalised paths of each bucket, in walk order. */
  datatype SyncResult = SyncResult(
    filesAdded: seq<string>,
    filesUpdated: seq<string>,
    filesSkipped: seq<string>,
    filesConflicted: seq<string>)
  {
    /** The list that records files of outcome `o`. */
    function Bucket(o: Outcome): seq<string>
    {
      match o
      case Added => filesAdded
      case Updated => filesUpdated
      case Skipped => filesSkipped
      case Conflicted => filesConflicted
    }

    /** All recorded paths, counted with multiplicity. */
    function AllPaths(): multiset<string>
    {
      multiset(filesAdded) + multiset(filesUpdated) + multiset(filesSkipped) + multiset(filesConflicted)
    }

    /** `files_<o>.append(path)`. */
    function Record(o: Outcome, path: string): (r: SyncResult)
      ensures AppendedTo(this, r, o, path)
    {
      match o
      case Added => this.(filesAdded := filesAdded + [path])
      case Updated => this.(filesUpdated := filesUpdated + [path])
      case Skipped => this.(filesSkipped := filesSkipped + [path])
      case Conflicted => this.(filesConflicted := filesConflicted + [path])
    }
  }

  /** The report before any file is seen. */
  const NoFiles: SyncResult := SyncResult([], [], [], [])

  /** `after` is `before` with `path` appended to the bucket of `o` and to no other. */
  predicate AppendedTo(before: SyncResult, after: SyncResult, o: Outcome, path: string)
  {
    && after.Bucket(o) == before.Bucket(o) + [path]
    && forall o' :: o' != o ==> after.Bucket(o') == before.Bucket(o')
  }

  /** Whether the outcome copies the template file over the destination. */
  predicate Writes(o: Outcome)
  {
    o == Added || o == Updated
  }

  /**
   * The decision of the loop body for one file: exclusion first, then
   * whether the destination exists, then whether its content is identical,
   * then the `force` flag.
   */
  function Classify(normalized: string, content: Bytes, destination: Option<Bytes>, force: bool): (o: Outcome)
    // Exclusion takes precedence, even over a missing destination.
    ensures Paths.IsExcluded(normalized) ==> o == Skipped
    ensures !Paths.IsExcluded(normalized) && destination.None? ==> o == Added
    ensures !Paths.IsExcluded(normalized) && destination == Some(content) ==> o == Skipped
    ensures !Paths.IsExcluded(normalized) && destination.Some? && destination.value != content ==>
      o == (if force then Updated else Conflicted)
  {
    if Paths.IsExcluded(normalized) then Skipped
    else if destination.Some? then
      if Content.FilesAreIdentical(Some(content), destination) then Skipped
      else if force then Updated
      else Conflicted
    else Added
  }

  /** The outcome of a template file against the destination tree `tree`. */
  function ClassOf(item: Item, tree: Tree, force: bool): Outcome
    requires item.FileItem?
  {
    Classify(Paths.Normalize(item.rel), item.content, Get(tree, item.rel), force)
  }

  /**
   * One iteration of the loop over the walk: directories are passed over;
   * a file is recorded under its normalised path and copied when added or
   * updated.
   */
  function Step(item: Item, report: SyncResult, tree: Tree, force: bool): (r: (SyncResult, Tree))
    // Only a non-excluded file's own destination can change, and it exists afterwards.
    ensures r.1.Keys == tree.Keys + (if item.FileItem? && !Paths.IsExcluded(Paths.Normalize(item.rel)) then {item.rel} else {})
    ensures forall p :: p in tree && p != item.rel ==> r.1[p] == tree[p]
    ensures item.DirItem? || Paths.IsExcluded(Paths.Normalize(item.rel)) ==> r.1 == tree
  {
    match item
    case DirItem(_) => (report, tree)
    case FileItem(rel, content) =>
      var o := ClassOf(item, tree, force);
      var tree' := if Writes(o) then tree[rel := content] else tree;
      (report.Record(o, Paths.Normalize(rel)), tree')
  }

  /**
   * The four cases of the loop body, as the source states them. Directories
   * are passed over.
   */
  lemma StepCases(item: Item, report: SyncResult, tree: Tree, force: bool)
    ensures item.DirItem? ==> Step(item, report, tree, force) == (report, tree)
    // Excluded: recorded as skipped, the target is not touched.
    ensures item.FileItem? && Paths.IsExcluded(Paths.Normalize(item.rel)) ==>
      AppendedTo(report, Step(item, report, tree, force).0, Skipped, Paths.Normalize(item.rel)) && Step(item, report, tree, force).1 == tree
    // Absent destination: recorded as added, the destination now holds the template content.
    ensures item.FileItem? && !Paths.IsExcluded(Paths.Normalize(item.rel)) && item.rel !in tree ==>
      AppendedTo(report, Step(item, report, tree, force).0, Added, Paths.Normalize(item.rel)) && Step(item, report, tree, force).1 == tree[item.rel := item.content]
    // Identical destination: recorded as skipped, nothing changes.
    ensures item.FileItem? && !Paths.IsExcluded(Paths.Normalize(item.rel))
            && item.rel in tree && tree[item.rel] == item.content ==>
      AppendedTo(report, Step(item, report, tree, force).0, Skipped, Paths.Normalize(item.rel)) && Step(item, report, tree, force).1 == tree
    // Differing destination: overwritten and updated under force, otherwise kept and conflicted.
    ensures item.FileItem? && !Paths.IsExcluded(Paths.Normalize(item.rel))
            && item.rel in tree && tree[item.rel] != item.content && force ==>
      AppendedTo(report, Step(item, report, tree, force).0, Updated, Paths.Normalize(item.rel)) && Step(item, report, tree, force).1 == tree[item.rel := item.content]
    ensures item.FileItem? && !Paths.IsExcluded(Paths.Normalize(item.rel))
            && item.rel in tree && tree[item.rel] != item.content && !force ==>
      AppendedTo(report, Step(item, report, tree, force).0, Conflicted, Paths.Normalize(item.rel)) && Step(item, report, tree, force).1 == tree
  {
  }

  /** The normalised paths of the files of the walk, in walk order. */
  function NormalizedFiles(walk: seq<Item>): seq<string>
  {
    if |walk| == 0 then []
    else
      var last := walk[|walk| - 1];
      NormalizedFiles(walk[..|walk| - 1]) + (if last.FileItem? then [Paths.Normalize(last.rel)] else [])
  }

  /** The destinations the walk may write: relative paths of its non-excluded files. */
  function Touched(walk: seq<Item>): set<string>
  {
    if |walk| == 0 then {}
    else
      var last := walk[|walk| - 1];
      Touched(walk[..|walk| - 1])
        + (if last.FileItem? && !Paths.IsExcluded(Paths.Normalize(last.rel)) then {last.rel} else {})
  }

  /**
   * The loop of `sync_workflow_files` over the walk, starting from the
   * destination tree `tree`; returns the report and the tree afterwards.
   */
  function Reconcile(walk: seq<Item>, tree: Tree, force: bool): (r: (SyncResult, Tree))
    decreases |walk|
  {
    if |walk| == 0 then (NoFiles, tree)
    else
      var (report, t) := Reconcile(walk[..|walk| - 1], tree, force);
      Step(walk[|walk| - 1], report, t, force)
  }

  /**
   * What a pass does to the target: afterwards every non-excluded template
   * file has a destination, and destinations that no non-excluded template
   * file maps to are never modified.
   */
  lemma {:induction false} ReconcileFrame(walk: seq<Item>, tree: Tree, force: bool)
    ensures Reconcile(walk, tree, force).1.Keys == tree.Keys + Touched(walk)
    ensures forall p :: p in tree && p !in Touched(walk) ==> Reconcile(walk, tree, force).1[p] == tree[p]
    decreases |walk|
  {
    if |walk| > 0 {
      ReconcileFrame(walk[..|walk| - 1], tree, force);
    }
  }

  /** Why `sync_workflow_files` raises. */
  datatype SyncError =
    | SourceNotFound(path: string)
    | TargetNotDirectory(path: string)

  /** What a successful pass returns: the report, the target root afterwards, and the backup outcome if one was attempted. */
  datatype SyncOutcome = SyncOutcome(result: SyncResult, root: Folder, backup: Option<Backup.BackupResult>)

  /** The files of the target's `.github` directory; none when it is absent. */
  function TargetTree(root: Folder): Tree
  {
    if GithubDir in root && root[GithubDir].Dir? then root[GithubDir].files else map[]
  }

  /**
   * The optional backup at the start of a pass: `.github` is copied to its
   * timestamped sibling when a backup is asked for and `.github` exists.
   * Its outcome is only reported, never acted upon.
   */
  function BackupBeforeSync(
    root: Folder, rootPath: string, backup: bool, timestamp: string, backupError: Option<Backup.CopyError>
  ): (r: (Option<Backup.BackupResult>, Folder))
    ensures r.0.Some? <==> backup && GithubDir in root
    ensures r.0.Some? && r.0.value.success ==>
      && Backup.DefaultBackupName(GithubDir, timestamp) !in root
      && r.1 == root[Backup.DefaultBackupName(GithubDir, timestamp) := root[GithubDir]]
    ensures !(r.0.Some? && r.0.value.success) ==> r.1 == root
  {
    if backup && GithubDir in root then
      var (b, after) := Backup.BackupDirectory(root, rootPath, GithubDir, None, timestamp, backupError);
      (Some(b), after)
    else (None, root)
  }

  /**
   * `sync_workflow_files(source, target_root, force, backup)`. `source` is
   * the walk of the template root, `None` when that root does not exist;
   * `root` is the target root. The timestamp naming a backup and the I/O
   * error a backup copy would meet are parameters.
   */
  function SyncWorkflowFiles(
    source: Option<seq<Item>>, sourcePath: string, root: Folder, rootPath: string,
    force: bool, backup: bool, timestamp: string, backupError: Option<Backup.CopyError>
  ): (r: Result<SyncOutcome, SyncError>)
    // A missing template root raises before anything is touched.
    ensures source.None? ==> r == Failure(SourceNotFound(sourcePath))
    ensures r.Failure? <==> source.None? || (GithubDir in root && root[GithubDir].File?)
    // The report and the new `.github` depend only on the walk, the old `.github` and `force`:
    // whether a backup was asked for, and whether it worked, changes neither.
    ensures r.Success? ==>
      && r.value.result == Reconcile(source.value, TargetTree(root), force).0
      && GithubDir in r.value.root
      && r.value.root[GithubDir] == Dir(Reconcile(source.value, TargetTree(root), force).1)
    // A backup is attempted exactly when asked for and `.github` exists; a
    // successful one holds `.github` as it was before the pass.
    ensures r.Success? ==> (r.value.backup.Some? <==> backup && GithubDir in root)
    ensures r.Success? && r.value.backup.Some? && r.value.backup.value.success ==>
      Backup.DefaultBackupName(GithubDir, timestamp) !in root
    ensures r.Success? && r.value.backup.Some? && r.value.backup.value.success ==>
      Backup.DefaultBackupName(GithubDir, timestamp) in r.value.root
    ensures r.Success? && r.value.backup.Some? && r.value.backup.value.success ==>
      r.value.root[Backup.DefaultBackupName(GithubDir, timestamp)] == root[GithubDir]
    // Nothing else in the target root changes, and nothing else appears.
    ensures r.Success? ==>
      forall k :: k in root && k != GithubDir ==> k in r.value.root && r.value.root[k] == root[k]
    ensures r.Success? ==> r.value.root.Keys <= root.Keys + {GithubDir, Backup.DefaultBackupName(GithubDir, timestamp)}
  {
    if source.None? then Failure(SourceNotFound(sourcePath))
    else
      var backedUp := BackupBeforeSync(root, rootPath, backup, timestamp, backupError);
      var root' := backedUp.1;
      assert GithubDir in root' <==> GithubDir in root;
      assert GithubDir in root ==> root'[GithubDir] == root[GithubDir];
      if GithubDir in root' && root'[GithubDir].File? then
        Failure(TargetNotDirectory(ChildPath(rootPath, GithubDir)))
      else
        assert TargetTree(root') == TargetTree(root);
        var reconciled := Reconcile(source.value, TargetTree(root), force);
        Success(SyncOutcome(reconciled.0, root'[GithubDir := Dir(reconciled.1)], backedUp.0))
  }
}
