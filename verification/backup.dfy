/**
 * The backup manager of scripts/bootstrap.py (`backup_directory`): copy a
 * directory to a sibling name, refusing to overwrite anything already there.
 * The wall-clock timestamp and any I/O error of the copy are parameters.
 */
module Backup {
  import opened Common
  import opened FileSystem

  /** `BackupResult`: whether a copy was made, where, and the message to print. */
  datatype BackupResult = BackupResult(success: bool, backupPath: Option<string>, message: string)

  /** The name used when none is given: `<name>.backup-<YYYYMMDD-HHMMSS>`. */
  function DefaultBackupName(sourceName: string, timestamp: string): (name: string)
    ensures name != sourceName
    ensures |name| > |sourceName| && name[..|sourceName|] == sourceName
  {
    sourceName + ".backup-" + timestamp
  }

  /** The name of the backup directory: the caller's, or the timestamped default. */
  function BackupName(sourceName: string, backupName: Option<string>, timestamp: string): string
  {
    if backupName.Some? then backupName.value else DefaultBackupName(sourceName, timestamp)
  }

  /**
   * The path `parent / name` spells for a one-segment name: pathlib drops an
   * empty or `.` segment, so those two names denote the parent folder itself.
   */
  function BackupPath(parentPath: string, name: string): (path: string)
    ensures name != "" && name != "." ==> path == ChildPath(parentPath, name)
    ensures name == "" || name == "." ==> path == parentPath
  {
    if name == "" || name == "." then parentPath else ChildPath(parentPath, name)
  }

  /**
   * The destination `parent / name` already exists: an entry of that name,
   * or one of the names that denote the parent folder (`""`, `.`) or its own
   * parent (`..`), which always exist.
   */
  predicate Occupied(parent: Folder, name: string)
  {
    name in parent || name == "" || name == "." || name == ".."
  }

  /**
   * The I/O error a `copytree` call meets. `copytree` lists the source
   * before it creates the destination, so a failure to read the source is
   * raised before an occupied destination is noticed; a failure while
   * writing the copy is raised only once the destination has been created.
   */
  datatype CopyError =
    | SourceUnreadable(message: string)
    | WriteFailed(message: string)

  /**
   * `backup_directory(parent / sourceName, backupName)`. `parent` is the
   * folder holding the directory to back up, and `parentPath` spells it.
   * `copyError` is the I/O error the copy would raise, `None` when the copy
   * goes through. Returns the result and the folder afterwards.
   *
   * The checks come in the order the source makes them: a missing source
   * first; then a source that is not a directory or cannot be read, which
   * the copy rejects before looking at the destination; then an occupied
   * destination; then the writing of the copy.
   */
  function BackupDirectory(
    parent: Folder, parentPath: string, sourceName: string,
    backupName: Option<string>, timestamp: string, copyError: Option<CopyError>
  ): (r: (BackupResult, Folder))
    // A missing source is reported, and nothing is copied.
    ensures sourceName !in parent ==>
      r.0 == BackupResult(false, None, "Source directory not found: " + ChildPath(parentPath, sourceName))
    // An unreadable source directory is reported as a failure, whatever the destination.
    ensures sourceName in parent && parent[sourceName].Dir? && copyError.Some? && copyError.value.SourceUnreadable? ==>
      r.0 == BackupResult(false, None, "Backup failed: " + copyError.value.message)
    // An occupied destination is never overwritten or merged into.
    ensures Occupied(parent, BackupName(sourceName, backupName, timestamp)) ==> !r.0.success && r.1 == parent
    ensures (sourceName in parent && parent[sourceName].Dir? && Occupied(parent, BackupName(sourceName, backupName, timestamp))
      && !(copyError.Some? && copyError.value.SourceUnreadable?)) ==>
      r.0.message == "Backup already exists: " + BackupPath(parentPath, BackupName(sourceName, backupName, timestamp))
    // The copy succeeds exactly when the source is a directory, the name is free and no I/O error occurs.
    ensures r.0.success <==>
      sourceName in parent && parent[sourceName].Dir? && !Occupied(parent, BackupName(sourceName, backupName, timestamp))
      && copyError.None?
    // On success the new sibling holds a copy of the source; on failure nothing changes.
    ensures r.0.success ==>
      && r.0.backupPath == Some(ChildPath(parentPath, BackupName(sourceName, backupName, timestamp)))
      && r.1 == parent[BackupName(sourceName, backupName, timestamp) := parent[sourceName]]
    ensures !r.0.success ==> r.0.backupPath.None? && r.1 == parent
    // Every entry that was there before is still there, unchanged.
    ensures forall k :: k in parent ==> k in r.1 && r.1[k] == parent[k]
  {
    var name := BackupName(sourceName, backupName, timestamp);
    var backupPath := BackupPath(parentPath, name);
    if sourceName !in parent then
      (BackupResult(false, None, "Source directory not found: " + ChildPath(parentPath, sourceName)), parent)
    else if parent[sourceName].File? then
      var error := "[Errno 20] Not a directory: '" + ChildPath(parentPath, sourceName) + "'";
      (BackupResult(false, None, "Backup failed: " + error), parent)
    else if copyError.Some? && copyError.value.SourceUnreadable? then
      (BackupResult(false, None, "Backup failed: " + copyError.value.message), parent)
    else if Occupied(parent, name) then
      (BackupResult(false, None, "Backup already exists: " + backupPath), parent)
    else if copyError.Some? then
      (BackupResult(false, None, "Backup failed: " + copyError.value.message), parent)
    else
      (BackupResult(true, Some(backupPath), "Backup created: " + backupPath), parent[name := parent[sourceName]])
  }

  /**
   * Backing up twice under the same explicit name fails the second time and
   * leaves the first backup as it was. The second attempt reports that the
   * backup already exists, unless reading the source fails first.
   */
  lemma BackupTwiceKeepsFirst(
    parent: Folder, parentPath: string, sourceName: string, name: string,
    timestamp: string, copyError: Option<CopyError>, laterError: Option<CopyError>
  )
    requires BackupDirectory(parent, parentPath, sourceName, Some(name), timestamp, copyError).0.success
    ensures
      var (first, afterFirst) := BackupDirectory(parent, parentPath, sourceName, Some(name), timestamp, copyError);
      var (second, afterSecond) := BackupDirectory(afterFirst, parentPath, sourceName, Some(name), timestamp, laterError);
      && !second.success
      && (laterError.Some? && laterError.value.SourceUnreadable? ==>
            second.message == "Backup failed: " + laterError.value.message)
      && (!(laterError.Some? && laterError.value.SourceUnreadable?) ==>
            second.message == "Backup already exists: " + ChildPath(parentPath, name))
      && afterSecond == afterFirst
      && afterSecond[name] == parent[sourceName]
  {
  }

  /** The timestamped name never collides with the directory being backed up. */
  lemma DefaultNameIsFresh(
    parent: Folder, parentPath: string, sourceName: string, timestamp: string, copyError: Option<CopyError>
  )
    requires sourceName in parent
    ensures
      var (result, after) := BackupDirectory(parent, parentPath, sourceName, None, timestamp, copyError);
      sourceName in after && after[sourceName] == parent[sourceName]
      && (result.success <==>
            parent[sourceName].Dir? && DefaultBackupName(sourceName, timestamp) !in parent && copyError.None?)
  {
  }

  /**
   * The explicit names `""`, `.` and `..` denote folders that exist, so a
   * backup under one of them is refused as already existing and changes
   * nothing.
   */
  lemma ParentNamesOccupied(
    parent: Folder, parentPath: string, sourceName: string, name: string,
    timestamp: string, copyError: Option<CopyError>
  )
    requires name == "" || name == "." || name == ".."
    requires sourceName in parent && parent[sourceName].Dir?
    requires !(copyError.Some? && copyError.value.SourceUnreadable?)
    ensures
      var (result, after) := BackupDirectory(parent, parentPath, sourceName, Some(name), timestamp, copyError);
      && !result.success && after == parent
      && result.message == "Backup already exists: " + (if name == ".." then ChildPath(parentPath, "..") else parentPath)
  {
  }
}
