/** `FfsView`, the public face of the engine: reads a path as a file view,
    and runs each write of the controller inside a database transaction
    that is rolled back when the write fails. */
module View {
  import opened Types
  import opened Store
  import opened Engine
  import Deletion
  import Updating
  import opened Model
  import Controller

  /** `retrieveFileView` as a function of the tables: resolve the path,
      then try the node as a regular file; on an `ExternalError` fall back
      to the listing of its rows, and re-raise any other error. The
      listing carries the write time `column` selects: `rmtime` in this
      view, `mtime` in the kernel's and the drafts' queries. */
  function FileViewAt(db: Tables, rootId: FileId, path: Path, column: TimeColumn): (r: Result<FileView>)
    ensures r.Err? <==> RetrieveFileId(db, rootId, path).Err?
    ensures r.Err? ==> r.error == FileNotFound
  {
    var id :- RetrieveFileId(db, rootId, path);
    match GetRegularFileContent(db, id)
    case Ok(bytes) => Ok(RegularView(bytes))
    case Err(e) =>
      if !IsExternalError(e) then Err(e)
      else Ok(DirectoryView(GetDirectoryViewUnsafe(db, id, column)))
  }

  /** A path that ends at a stored regular file reads as exactly its bytes. */
  lemma FileViewOfRegularFile(db: Tables, rootId: FileId, path: Path, column: TimeColumn)
    requires Wellformed(db)
    requires RetrieveFileId(db, rootId, path).Ok?
    requires var id := RetrieveFileId(db, rootId, path).value;
             id in db.filesMetadata && db.filesMetadata[id].fileType == RegularType
    ensures FileViewAt(db, rootId, path, column) ==
              Ok(RegularView(db.regularFilesContents[RetrieveFileId(db, rootId, path).value]))
  {
  }

  /** A path that ends at a stored directory reads as its listing: one line
      per entry, in row order, joining the entry's name and creation time
      with the child's type and write time when every child is stored. */
  lemma FileViewOfDirectory(db: Tables, rootId: FileId, path: Path, column: TimeColumn)
    requires Wellformed(db) && Closed(db)
    requires RetrieveFileId(db, rootId, path).Ok?
    requires IsDirectory(db, RetrieveFileId(db, rootId, path).value)
    ensures var id := RetrieveFileId(db, rootId, path).value;
            var items := GetDirectoryContentUnsafe(db, id);
            && FileViewAt(db, rootId, path, column).Ok?
            && FileViewAt(db, rootId, path, column).value.DirectoryView?
            && var listing := FileViewAt(db, rootId, path, column).value.listing;
               && |listing| == |items|
               && forall k :: 0 <= k < |items| ==>
                    items[k].id in db.filesMetadata &&
                    listing[k] == ItemView(items[k].name, db.filesMetadata[items[k].id].fileType,
                                           items[k].btime, TimeOf(db.filesMetadata[items[k].id], column))
  {
    var id := RetrieveFileId(db, rootId, path).value;
    var items := GetDirectoryContentUnsafe(db, id);
    assert id !in db.regularFilesContents;
    forall it | it in items ensures it.id in db.filesMetadata {
      assert Edge(id, it) in db.directoriesContents;
    }
  }

  /** A root that is not stored, read with an exhausted path, is not
      reported missing: the fallback lists its rows, and it has none. */
  lemma FileViewOfUnstoredRoot(db: Tables, rootId: FileId, column: TimeColumn)
    requires Wellformed(db) && rootId !in db.filesMetadata
    ensures FileViewAt(db, rootId, [], column) == Ok(DirectoryView([]))
  {
    if GetDirectoryContentUnsafe(db, rootId) != [] {
      RowsHaveStoredParent(db, rootId);
    }
  }

  /** Two listing lines for the same entry: they may differ only in the
      write time they carry. */
  predicate SameEntry(a: DirectoryContentItemView, b: DirectoryContentItemView) {
    a.name == b.name && a.fileType == b.fileType && a.btime == b.btime
  }

  /** Two reads of the same node that differ at most in the write time
      each listing line carries. */
  predicate SameButTimes(a: FileView, b: FileView) {
    match a
    case RegularView(_) => b == a
    case DirectoryView(listing) =>
      && b.DirectoryView?
      && |b.listing| == |listing|
      && forall k :: 0 <= k < |listing| ==> SameEntry(listing[k], b.listing[k])
  }

  lemma {:induction false} JoinColumns(items: DirectoryContent, m: map<FileId, FileMetadata>, c: TimeColumn, d: TimeColumn)
    ensures |JoinMetadata(items, m, c)| == |JoinMetadata(items, m, d)|
    ensures forall k :: 0 <= k < |JoinMetadata(items, m, c)| ==>
              SameEntry(JoinMetadata(items, m, c)[k], JoinMetadata(items, m, d)[k])
  {
    if items != [] {
      JoinColumns(items[1..], m, c, d);
    }
  }

  /** Whichever write time a listing selects, a read of a path fails or
      succeeds alike, shows the same bytes, and lists the same entries in
      the same order with the same names, types and creation times. */
  lemma FileViewColumns(db: Tables, rootId: FileId, path: Path, c: TimeColumn, d: TimeColumn)
    ensures FileViewAt(db, rootId, path, c).Ok? <==> FileViewAt(db, rootId, path, d).Ok?
    ensures FileViewAt(db, rootId, path, c).Ok? ==>
              SameButTimes(FileViewAt(db, rootId, path, c).value, FileViewAt(db, rootId, path, d).value)
  {
    var id := RetrieveFileId(db, rootId, path);
    if id.Ok? {
      JoinColumns(GetDirectoryContentUnsafe(db, id.value), db.filesMetadata, c, d);
    }
  }

  class FfsView {
    /** The controller over the database. */
    const kernel: FfsModel

    constructor (kernel: FfsModel)
      ensures this.kernel == kernel
    {
      this.kernel := kernel;
    }

    ghost predicate Valid()
      reads kernel
    {
      kernel.Valid()
    }

    /** `startTransaction`: the tables a rollback returns to. */
    method StartTransaction() returns (snapshot: Tables)
      ensures snapshot == kernel.Db()
    {
      snapshot := kernel.Db();
    }

    /** `rollbackTransaction`: every row written since `snapshot` is undone. */
    method RollbackTransaction(snapshot: Tables)
      requires Wellformed(snapshot)
      modifies kernel
      ensures Valid() && kernel.Db() == snapshot
    {
      kernel.filesMetadata := snapshot.filesMetadata;
      kernel.regularFilesContents := snapshot.regularFilesContents;
      kernel.directoriesContents := snapshot.directoriesContents;
    }

    /** `retrieveFileView`: reads the tables and changes nothing. */
    method RetrieveFileView(rootId: FileId, path: Path) returns (r: Result<FileView>)
      ensures r == FileViewAt(kernel.Db(), rootId, path, RmtimeColumn)
    {
      var id :- Controller.RetrieveFileId(kernel, rootId, path);
      var content := GetRegularFileContent(kernel.Db(), id);
      if content.Ok? {
        return Ok(RegularView(content.value));
      }
      if !IsExternalError(content.error) {
        return Err(content.error);
      }
      r := Ok(DirectoryView(GetDirectoryViewUnsafe(kernel.Db(), id, RmtimeColumn)));
    }

    /** `createFileFromId` in a transaction: the controller's result, and
        its rows only when it succeeds. */
    method CreateFileFromId(rootId: FileId, dirPath: Path, name: string, newFileId: FileId, creationTime: int)
      returns (r: Result<FileId>)
      requires Valid()
      modifies kernel
      ensures Valid()
      ensures var s := Engine.CreateFileFromId(old(kernel.Db()), rootId, dirPath, name, newFileId, creationTime);
              r == s.result && kernel.Db() == if r.Ok? then s.db else old(kernel.Db())
    {
      var snapshot := StartTransaction();
      r := Controller.CreateFileFromId(kernel, rootId, dirPath, name, newFileId, creationTime);
      if r.Err? {
        RollbackTransaction(snapshot);
      }
    }

    /** `createFile` in a transaction: a failed call leaves no trace, not
        even the node the controller wrote before linking it. */
    method CreateFile(rootId: FileId, dirPath: Path, name: string, content: FileContent, creationTime: int)
      returns (r: Result<FileId>)
      requires Valid()
      modifies kernel
      ensures Valid()
      ensures var s := Engine.CreateFile(old(kernel.Db()), rootId, dirPath, name, content, creationTime);
              r == s.result && kernel.Db() == if r.Ok? then s.db else old(kernel.Db())
    {
      var snapshot := StartTransaction();
      r := Controller.CreateFile(kernel, rootId, dirPath, name, content, creationTime);
      if r.Err? {
        RollbackTransaction(snapshot);
      }
    }

    /** `deleteFile` in a transaction. */
    method DeleteFile(rootId: FileId, path: Path, deletionTime: int) returns (r: Result<Option<FileId>>)
      requires Valid()
      modifies kernel
      ensures Valid()
      ensures var s := Deletion.DeleteFile(old(kernel.Db()), rootId, path, deletionTime);
              r == s.result && kernel.Db() == if r.Ok? then s.db else old(kernel.Db())
    {
      var snapshot := StartTransaction();
      r := Controller.DeleteFile(kernel, rootId, path, deletionTime);
      if r.Err? {
        RollbackTransaction(snapshot);
      }
    }

    /** `updateFile` in a transaction. */
    method UpdateFile(rootId: FileId, path: Path, newContent: Bytes, updatingTime: int) returns (r: Result<FileId>)
      requires Valid()
      modifies kernel
      ensures Valid()
      ensures var s := Updating.UpdateFile(old(kernel.Db()), rootId, path, newContent, updatingTime);
              r == s.result && kernel.Db() == if r.Ok? then s.db else old(kernel.Db())
    {
      var snapshot := StartTransaction();
      r := Controller.UpdateFile(kernel, rootId, path, newContent, updatingTime);
      if r.Err? {
        RollbackTransaction(snapshot);
      }
    }

    /** `getFileMetadata`, passed through to the controller. */
    method GetFileMetadata(id: FileId) returns (r: Result<FileMetadata>)
      ensures r.Ok? <==> id in kernel.filesMetadata
      ensures r.Ok? ==> r.value == kernel.filesMetadata[id]
      ensures r.Err? ==> r.error == FileNotFound
    {
      r := Store.GetFileMetadata(kernel.Db(), id);
    }
  }
}
