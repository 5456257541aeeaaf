/**
 * The content comparator of scripts/bootstrap.py: `calculate_file_hash` and
 * `files_are_identical`. A file that may be missing is an `Option<Bytes>`.
 */
module Content {
  import opened Common

  /**
   * The digest of a file's bytes. SHA-256 is modelled as a collision-free
   * digest, so the digest of a content is the content itself: two digests
   * are equal exactly when the contents are.
   */
  function Digest(content: Bytes): Bytes
  {
    content
  }

  /**
   * `files_are_identical`: false as soon as either file is missing, otherwise
   * whether the two digests agree.
   */
  function FilesAreIdentical(file1: Option<Bytes>, file2: Option<Bytes>): (r: bool)
    ensures file1.None? || file2.None? ==> !r
    ensures r <==> file1.Some? && file2.Some? && file1.value == file2.value
  {
    if file1.None? || file2.None? then false
    else Digest(file1.value) == Digest(file2.value)
  }

  /** Comparing is symmetric, and every existing file is identical to itself. */
  lemma FilesAreIdenticalSymmetric(file1: Option<Bytes>, file2: Option<Bytes>)
    ensures FilesAreIdentical(file1, file2) == FilesAreIdentical(file2, file1)
    ensures file1.Some? ==> FilesAreIdentical(file1, file1)
  {
  }
}
