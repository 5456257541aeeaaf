/**
 * The part of the filesystem the bootstrap engine touches, as immutable values.
 * Nested directories of a tree are flattened into relative paths; a folder
 * (the target root) maps each of its top-level names to a file or a tree.
 */
module FileSystem {
  import opened Common

  /** The regular files under a directory, keyed by path relative to it. */
  type Tree = map<string, Bytes>

  /** A top-level entry of a folder: a directory tree or a regular file. */
  datatype Entry = Dir(files: Tree) | File(content: Bytes)

  /** A directory seen as its top-level entries, each under its own name. */
  type Folder = map<string, Entry>

  /** `str(parent / name)` with POSIX separators. */
  function ChildPath(parentPath: string, name: string): string
  {
    parentPath + "/" + name
  }
}
