/** Value types shared by every layer of the functional file system:
    file ids, the two file types, stored metadata, directory items,
    the content union, and the error classes of the engine. */
module Types {

  /** A file id names one *version* of a node; ids are allocated from 1 upwards. */
  type FileId = nat

  /** The raw bytes of a regular file. */
  type Bytes = seq<bv8>

  /** The stored type column: '-' for a regular file, 'd' for a directory. */
  datatype FileType = RegularType | DirectoryType

  datatype Option<T> = None | Some(value: T)

  /** One row of the metadata table. `rmtime` is the time this version was
      written; `mtime` is the time the node's own shape last changed.
      `previousVersionId` is the version it was derived from (null for a
      brand-new node) and `firstVersionId` the first version of its lineage. */
  datatype FileMetadata = FileMetadata(
    id: FileId,
    fileType: FileType,
    rmtime: int,
    mtime: int,
    previousVersionId: Option<FileId>,
    firstVersionId: FileId)

  /** One entry of a directory: the child's id, its name in this directory
      and the time the entry was created (`btime`, called `ctime` in some
      versions of the source). */
  datatype DirectoryContentItem = Item(id: FileId, name: string, btime: int)

  type DirectoryContent = seq<DirectoryContentItem>

  /** What a caller hands to `createFile`: bytes for a regular file, or an
      item list for a directory. */
  datatype FileContent = RegularContent(bytes: Bytes) | DirectoryItems(items: DirectoryContent)

  predicate IsRegularFileContent(content: FileContent) {
    content.RegularContent?
  }

  /** The errors the engine raises. `FileNotFound` and `FileAlreadyExists`
      are the `ExternalError` subclasses; `AssertionFailed` is the error a
      bare `assert(...)` throws, and `UndefinedRow` the `TypeError` thrown
      by reading a field of a row a query did not find, where the code
      does not assert that the row exists. Neither is an `ExternalError`. */
  datatype Error = FileNotFound | FileAlreadyExists | AssertionFailed | UndefinedRow

  predicate IsExternalError(e: Error) {
    e.FileNotFound? || e.FileAlreadyExists?
  }

  datatype Result<T> = Ok(value: T) | Err(error: Error) {
    predicate IsFailure() {
      Err?
    }

    function PropagateFailure<U>(): Result<U>
      requires Err?
    {
      Err(error)
    }

    function Extract(): T
      requires Ok?
    {
      value
    }
  }

  /** True when no two items of a directory share a name. */
  predicate NamesDistinct(items: DirectoryContent) {
    forall i, j :: 0 <= i < j < |items| ==> items[i].name != items[j].name
  }
}
