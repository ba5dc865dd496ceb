/** The earliest draft of the engine (`FunctionalFileSystem` in
    `src/ffs.ts`). Its metadata table has a single time column, which the
    model writes into both `rmtime` and `mtime`; its metadata and content
    getters do not assert that the row exists, so a missing row fails when
    a field of `undefined` is read. Every directory it rebuilds above the
    target is written with that directory's old time. */
module FirstDraft {
  import opened Types
  import opened Store
  import opened Engine
  import Kernel
  import Draft
  import View
  import Deletion

  /** `getFileMetadata`: the metadata row; reading a missing one fails. */
  function GetFileMetadata(db: Tables, id: FileId): (r: Result<FileMetadata>)
    ensures r.Ok? <==> id in db.filesMetadata
    ensures r.Ok? ==> r.value == db.filesMetadata[id]
    ensures r.Err? ==> r.error == UndefinedRow
  {
    if id in db.filesMetadata then Ok(db.filesMetadata[id]) else Err(UndefinedRow)
  }

  /** `getRegularFileContent`: the stored bytes; reading a missing row fails. */
  function GetRegularFileContent(db: Tables, id: FileId): (r: Result<Bytes>)
    ensures r.Ok? <==> id in db.regularFilesContents
    ensures r.Ok? ==> r.value == db.regularFilesContents[id]
    ensures r.Err? ==> r.error == UndefinedRow
  {
    if id in db.regularFilesContents then Ok(db.regularFilesContents[id]) else Err(UndefinedRow)
  }

  /** `getChildIdByName`: the id of the first row of `parentId` named
      `childName`; a failed `assert` when there is none. */
  function GetChildIdByName(db: Tables, parentId: FileId, childName: string): (r: Result<FileId>)
    ensures r.Err? <==> forall it :: Edge(parentId, it) in db.directoriesContents ==> it.name != childName
    ensures r.Ok? ==> exists it :: Edge(parentId, it) in db.directoriesContents && it.name == childName && it.id == r.value
    ensures r.Err? ==> r.error == AssertionFailed
  {
    var item :- Kernel.GetDirectoryContentItemByName(db, parentId, childName);
    Ok(item.id)
  }

  /** `makeDirectory(mtime, content, derivedFromId)`: the single time is
      written as both times; the lineage follows the store's rule. */
  function MakeDirectory(db: Tables, time: int, content: DirectoryContent, derivedFromId: Option<FileId>): (s: Step<FileId>)
    requires Wellformed(db)
    ensures Wellformed(s.db)
    ensures s.result.Err? <==> derivedFromId.Some? && derivedFromId.value !in db.filesMetadata
    ensures s.result.Err? ==> s.result.error == UndefinedRow && s.db == db
    ensures s.result.Ok? ==> s == Store.MakeDirectory(db, time, time, content, derivedFromId)
    ensures s.result.Ok? ==>
              s.db.filesMetadata[s.result.value].firstVersionId ==
                match derivedFromId
                case Some(previous) => db.filesMetadata[previous].firstVersionId
                case None => s.result.value
  {
    var s := Store.MakeDirectory(db, time, time, content, derivedFromId);
    if s.result.Ok? then s else Step(Err(UndefinedRow), db)
  }

  /** `makeDirectory` as written: like the later draft, it reads the
      lineage from the row of the id it has just allocated, so on a
      well-formed store it fails on every call and writes nothing. */
  function MakeDirectoryAsWritten(db: Tables, time: int, content: DirectoryContent, derivedFromId: Option<FileId>)
    : (s: Step<FileId>)
    requires Wellformed(db)
    ensures s == Step(Err(UndefinedRow), db)
  {
    Draft.MakeDirectoryAsWrittenFails(db, time, time, content, derivedFromId);
    Draft.MakeDirectoryAsWritten(db, time, time, content, derivedFromId)
  }

  // ---------------------------------------------------------------------
  // retrieveFile

  /** `retrieveFile`: at the end of the path, dispatch on the stored type:
      the bytes of a regular file, the listing of anything else. */
  function RetrieveFile(db: Tables, rootId: FileId, path: Path): (r: Result<FileView>)
    decreases |path|
    ensures r.Err? ==> !IsExternalError(r.error)
  {
    if path == [] then
      var metadata :- GetFileMetadata(db, rootId);
      if metadata.fileType == RegularType then
        var bytes :- GetRegularFileContent(db, rootId);
        Ok(RegularView(bytes))
      else Ok(DirectoryView(GetDirectoryViewUnsafe(db, rootId, MtimeColumn)))
    else
      var childId :- GetChildIdByName(db, rootId, path[0]);
      RetrieveFile(db, childId, path[1..])
  }

  /** The type dispatch reads what the view's fallback reads: on a path
      that reaches a stored node the two agree; a missing segment is a
      failed `assert`, and a node that is not stored a missing row, where
      the view would list nothing. */
  lemma {:induction false} RetrieveFileMatchesView(db: Tables, rootId: FileId, path: Path)
    requires Wellformed(db)
    decreases |path|
    ensures var id := RetrieveFileId(db, rootId, path);
            RetrieveFile(db, rootId, path) ==
              if id.Err? then Err(AssertionFailed)
              else if id.value in db.filesMetadata then View.FileViewAt(db, rootId, path, MtimeColumn)
              else Err(UndefinedRow)
  {
    if path != [] {
      RetrieveStep(db, rootId, path);
      LookupIsFind(db, rootId, path[0]);
      match GetDirectoryContentItemByName(db, rootId, path[0])
      case Err(_) =>
      case Ok(child) => RetrieveFileMatchesView(db, child.id, path[1..]);
    }
  }

  // ---------------------------------------------------------------------
  // createFile

  /** `createFile(rootId, path, newFileId, newFileName, ctime)`: links a
      node the caller made. The target must be a directory without that
      name and is written at `ctime`; each directory above it is written
      with its old time. */
  function CreateFile(db: Tables, rootId: FileId, dirPath: Path, newFileId: FileId, newFileName: string,
                      ctime: int): (s: Step<FileId>)
    requires Wellformed(db)
    decreases |dirPath|
    ensures Wellformed(s.db)
    ensures s.result.Err? ==> !IsExternalError(s.result.error) && s.db == db
    ensures s.result.Ok? ==>
              && Extends(db, s.db)
              && |s.db.filesMetadata| == |db.filesMetadata| + |dirPath| + 1
              && IsDirectory(db, rootId)
    ensures s.result.Ok? && IsDirectory(db, rootId) ==>
              var time := if dirPath == [] then ctime else db.filesMetadata[rootId].mtime;
              DerivedDirectory(db, s.db, s.result.value, rootId, time, time)
  {
    match GetFileMetadata(db, rootId)
    case Err(e) => Step(Err(e), db)
    case Ok(parentMetadata) =>
      var items := GetDirectoryContentUnsafe(db, rootId);
      if dirPath == [] then
        if parentMetadata.fileType != DirectoryType then Step(Err(AssertionFailed), db)
        else if FindByName(items, newFileName).Some? then Step(Err(AssertionFailed), db)
        else
          var content := items + [Item(newFileId, newFileName, ctime)];
          ExtendsReflexive(db);
          NewDirectoryVersion(db, db, rootId, ctime, ctime, content);
          MakeDirectory(db, ctime, content, Some(rootId))
      else
        match FindIndexByName(items, dirPath[0])
        case None => Step(Err(AssertionFailed), db)
        case Some(i) =>
          var sub := CreateFile(db, items[i].id, dirPath[1..], newFileId, newFileName, ctime);
          if sub.result.Err? then sub
          else
            RowsHaveStoredParent(db, rootId);
            var content := Relinked(items, i, sub.result.value);
            NewDirectoryVersion(db, sub.db, rootId, parentMetadata.mtime, parentMetadata.mtime, content);
            MakeDirectory(sub.db, parentMetadata.mtime, content, Some(rootId))
  }

  /** The first draft's `createFile` succeeds exactly when the controller's
      `createFileFromId` does: when the path resolves to a directory in
      which the name is free. */
  lemma {:induction false} CreateFileSucceeds(db: Tables, rootId: FileId, dirPath: Path, newFileId: FileId,
                                              newFileName: string, ctime: int)
    requires Wellformed(db)
    ensures CreateFile(db, rootId, dirPath, newFileId, newFileName, ctime).result.Ok? <==>
              NameFreeAt(db, rootId, dirPath, newFileName)
    decreases |dirPath|
  {
    if !IsDirectory(db, rootId) {
      NoRowsUnlessDirectory(db, rootId);
    } else if dirPath != [] {
      var items := GetDirectoryContentUnsafe(db, rootId);
      RetrieveStep(db, rootId, dirPath);
      match FindIndexByName(items, dirPath[0])
      case None =>
      case Some(i) =>
        CreateFileSucceeds(db, items[i].id, dirPath[1..], newFileId, newFileName, ctime);
    }
  }

  /** Round trip of the first draft's `createFile`: under the new root the
      directory path followed by the name resolves to the id the caller
      passed. */
  lemma {:induction false} CreateFileRoundTrip(db: Tables, rootId: FileId, dirPath: Path, newFileId: FileId,
                                               newFileName: string, ctime: int)
    requires Wellformed(db) && NamesUnique(db)
    requires CreateFile(db, rootId, dirPath, newFileId, newFileName, ctime).result.Ok?
    ensures var s := CreateFile(db, rootId, dirPath, newFileId, newFileName, ctime);
            RetrieveFileId(s.db, s.result.value, dirPath + [newFileName]) == Ok(newFileId)
    decreases |dirPath|
  {
    var s := CreateFile(db, rootId, dirPath, newFileId, newFileName, ctime);
    var r := s.result.value;
    var items := GetDirectoryContentUnsafe(db, rootId);
    var time := db.filesMetadata[rootId].mtime;
    PathSnoc(dirPath, newFileName);
    RetrieveStep(s.db, r, dirPath + [newFileName]);
    if dirPath == [] {
      var item := Item(newFileId, newFileName, ctime);
      ExtendsReflexive(db);
      NewDirectoryVersion(db, db, rootId, ctime, ctime, items + [item]);
      FindByNamePushed(items, item);
    } else {
      var i := FindIndexByName(items, dirPath[0]).value;
      var sub := CreateFile(db, items[i].id, dirPath[1..], newFileId, newFileName, ctime);
      var c := sub.result.value;
      NewDirectoryVersion(db, sub.db, rootId, time, time, Relinked(items, i, c));
      assert NamesDistinct(items);
      FindByNameRelinkedSelf(items, i, c);
      CreateFileRoundTrip(db, items[i].id, dirPath[1..], newFileId, newFileName, ctime);
      RetrieveStable(sub.db, s.db, c, dirPath[1..] + [newFileName]);
    }
  }

  // ---------------------------------------------------------------------
  // deleteFile

  /** `deleteFile(rootId, path, dtime)`: the directory holding the last
      segment loses that entry and is written at `dtime`; each directory
      above it relinks the traversed entry and is written with its old
      time. */
  function DeleteFile(db: Tables, rootId: FileId, path: Path, dtime: int): (s: Step<Option<FileId>>)
    requires Wellformed(db)
    decreases |path|
    ensures Wellformed(s.db)
    ensures s.result.Err? ==> !IsExternalError(s.result.error) && s.db == db
    ensures path == [] ==> s == Step(Ok(None), db)
    ensures path != [] && s.result.Ok? ==>
              && s.result.value.Some?
              && Extends(db, s.db)
              && |s.db.filesMetadata| == |db.filesMetadata| + |path|
              && IsDirectory(db, rootId)
    ensures path != [] && s.result.Ok? && s.result.value.Some? && IsDirectory(db, rootId) ==>
              var time := if |path| == 1 then dtime else db.filesMetadata[rootId].mtime;
              DerivedDirectory(db, s.db, s.result.value.value, rootId, time, time)
  {
    if path == [] then Step(Ok(None), db)
    else
      match GetFileMetadata(db, rootId)
      case Err(e) => Step(Err(e), db)
      case Ok(parentMetadata) =>
        var items := GetDirectoryContentUnsafe(db, rootId);
        match FindIndexByName(items, path[0])
        case None => Step(Err(AssertionFailed), db)
        case Some(i) =>
          RowsHaveStoredParent(db, rootId);
          var sub := DeleteFile(db, items[i].id, path[1..], dtime);
          if sub.result.Err? then sub
          else if sub.result.value.Some? then
            var content := Relinked(items, i, sub.result.value.value);
            NewDirectoryVersion(db, sub.db, rootId, parentMetadata.mtime, parentMetadata.mtime, content);
            var s := MakeDirectory(sub.db, parentMetadata.mtime, content, Some(rootId));
            Step(Ok(Some(s.result.value)), s.db)
          else
            var content := Without(items, i);
            ExtendsReflexive(db);
            NewDirectoryVersion(db, db, rootId, dtime, dtime, content);
            var s := MakeDirectory(db, dtime, content, Some(rootId));
            Step(Ok(Some(s.result.value)), s.db)
  }

  /** `deleteFile` on a non-empty path succeeds exactly when the path
      resolves. */
  lemma {:induction false} DeleteFileSucceeds(db: Tables, rootId: FileId, path: Path, dtime: int)
    requires Wellformed(db) && path != []
    ensures DeleteFile(db, rootId, path, dtime).result.Ok? <==> RetrieveFileId(db, rootId, path).Ok?
    decreases |path|
  {
    var items := GetDirectoryContentUnsafe(db, rootId);
    RetrieveStep(db, rootId, path);
    if !IsDirectory(db, rootId) {
      NoRowsUnlessDirectory(db, rootId);
    } else {
      match FindIndexByName(items, path[0])
      case None =>
      case Some(i) =>
        if path[1..] != [] {
          DeleteFileSucceeds(db, items[i].id, path[1..], dtime);
        }
    }
  }

  /** After a successful first-draft `deleteFile`, the directory path
      resolves under the new root to a stored directory without the last
      segment's name. */
  lemma {:induction false} DeleteFileParent(db: Tables, rootId: FileId, path: Path, dtime: int)
    requires Wellformed(db) && NamesUnique(db)
    requires path != [] && DeleteFile(db, rootId, path, dtime).result.Ok?
    ensures var s := DeleteFile(db, rootId, path, dtime);
            var parent := RetrieveFileId(s.db, s.result.value.value, path[..|path| - 1]);
            && parent.Ok?
            && parent.value in s.db.filesMetadata
            && FindByName(GetDirectoryContentUnsafe(s.db, parent.value), path[|path| - 1]).None?
    decreases |path|
  {
    var s := DeleteFile(db, rootId, path, dtime);
    var r := s.result.value.value;
    var items := GetDirectoryContentUnsafe(db, rootId);
    var i := FindIndexByName(items, path[0]).value;
    var sub := DeleteFile(db, items[i].id, path[1..], dtime);
    assert NamesDistinct(items);
    RowsHaveStoredParent(db, rootId);
    if path[1..] == [] {
      ExtendsReflexive(db);
      NewDirectoryVersion(db, db, rootId, dtime, dtime, Without(items, i));
      Deletion.FindByNameWithoutSelf(items, i);
    } else {
      var c := sub.result.value.value;
      var time := db.filesMetadata[rootId].mtime;
      var dirPath := path[..|path| - 1];
      var p := path[1..][..|path[1..]| - 1];
      Deletion.PathInit(path);
      NewDirectoryVersion(db, sub.db, rootId, time, time, Relinked(items, i, c));
      var m := MakeDirectory(sub.db, time, Relinked(items, i, c), Some(rootId));
      assert s == Step(Ok(Some(m.result.value)), m.db);
      DeleteFileParent(db, items[i].id, path[1..], dtime);
      var d := RetrieveFileId(sub.db, c, p).value;
      assert RetrieveFileId(s.db, c, p) == Ok(d) by {
        RetrieveStable(sub.db, s.db, c, p);
      }
      assert FindByName(GetDirectoryContentUnsafe(s.db, d), path[|path| - 1]).None? by {
        ChildrenStable(sub.db, s.db, d);
      }
      assert RetrieveFileId(s.db, r, dirPath) == RetrieveFileId(s.db, c, p) by {
        FindByNameRelinkedSelf(items, i, c);
        RetrieveStep(s.db, r, dirPath);
      }
    }
  }

  /** After a successful first-draft `deleteFile` the deleted path no
      longer resolves under the new root. */
  lemma DeleteFileRemoved(db: Tables, rootId: FileId, path: Path, dtime: int)
    requires Wellformed(db) && NamesUnique(db)
    requires path != [] && DeleteFile(db, rootId, path, dtime).result.Ok?
    ensures var s := DeleteFile(db, rootId, path, dtime);
            RetrieveFileId(s.db, s.result.value.value, path) == Err(FileNotFound)
  {
    var s := DeleteFile(db, rootId, path, dtime);
    var r := s.result.value.value;
    var dirPath := path[..|path| - 1];
    var last := path[|path| - 1];
    DeleteFileParent(db, rootId, path, dtime);
    var d := RetrieveFileId(s.db, r, dirPath).value;
    RetrieveStep(s.db, d, [last]);
    Deletion.PathInit(path);
    RetrieveAppend(s.db, r, dirPath, [last]);
  }

  // ---------------------------------------------------------------------
  // updateFile

  /** `updateFile(rootId, path, newFileId)`: relinks the node the caller
      made at the end of the path; an exhausted path returns that id as it
      is. Each directory on the way is rewritten with its old time. */
  function UpdateFile(db: Tables, rootId: FileId, path: Path, newFileId: FileId): (s: Step<FileId>)
    requires Wellformed(db)
    decreases |path|
    ensures Wellformed(s.db)
    ensures s.result.Err? ==> !IsExternalError(s.result.error) && s.db == db
    ensures path == [] ==> s == Step(Ok(newFileId), db)
    ensures s.result.Ok? ==> Extends(db, s.db)
    ensures s.result.Ok? && path != [] ==>
              && IsDirectory(db, rootId)
              && |s.db.filesMetadata| == |db.filesMetadata| + |path|
              && DerivedDirectory(db, s.db, s.result.value, rootId,
                                  db.filesMetadata[rootId].mtime, db.filesMetadata[rootId].mtime)
  {
    if path == [] then
      ExtendsReflexive(db);
      Step(Ok(newFileId), db)
    else
      match GetFileMetadata(db, rootId)
      case Err(e) => Step(Err(e), db)
      case Ok(parentMetadata) =>
        var items := GetDirectoryContentUnsafe(db, rootId);
        match FindIndexByName(items, path[0])
        case None => Step(Err(AssertionFailed), db)
        case Some(i) =>
          var sub := UpdateFile(db, items[i].id, path[1..], newFileId);
          if sub.result.Err? then sub
          else
            RowsHaveStoredParent(db, rootId);
            var content := Relinked(items, i, sub.result.value);
            NewDirectoryVersion(db, sub.db, rootId, parentMetadata.mtime, parentMetadata.mtime, content);
            MakeDirectory(sub.db, parentMetadata.mtime, content, Some(rootId))
  }

  /** `updateFile` on a non-empty path succeeds exactly when the path
      resolves. */
  lemma {:induction false} UpdateFileSucceeds(db: Tables, rootId: FileId, path: Path, newFileId: FileId)
    requires Wellformed(db) && path != []
    ensures UpdateFile(db, rootId, path, newFileId).result.Ok? <==> RetrieveFileId(db, rootId, path).Ok?
    decreases |path|
  {
    var items := GetDirectoryContentUnsafe(db, rootId);
    RetrieveStep(db, rootId, path);
    if rootId !in db.filesMetadata {
      NoRowsUnlessDirectory(db, rootId);
    } else {
      match FindIndexByName(items, path[0])
      case None =>
      case Some(i) =>
        if path[1..] != [] {
          UpdateFileSucceeds(db, items[i].id, path[1..], newFileId);
        }
    }
  }

  /** Round trip of `updateFile`: under the new root the path resolves to
      exactly the id the caller passed. */
  lemma {:induction false} UpdateFileRoundTrip(db: Tables, rootId: FileId, path: Path, newFileId: FileId)
    requires Wellformed(db) && NamesUnique(db)
    requires UpdateFile(db, rootId, path, newFileId).result.Ok?
    ensures var s := UpdateFile(db, rootId, path, newFileId);
            RetrieveFileId(s.db, s.result.value, path) == Ok(newFileId)
    decreases |path|
  {
    if path != [] {
      var s := UpdateFile(db, rootId, path, newFileId);
      var r := s.result.value;
      var items := GetDirectoryContentUnsafe(db, rootId);
      var i := FindIndexByName(items, path[0]).value;
      var sub := UpdateFile(db, items[i].id, path[1..], newFileId);
      var c := sub.result.value;
      NewDirectoryVersion(db, sub.db, rootId, db.filesMetadata[rootId].mtime, db.filesMetadata[rootId].mtime,
                          Relinked(items, i, c));
      UpdateFileRoundTrip(db, items[i].id, path[1..], newFileId);
      assert NamesDistinct(items);
      FindByNameRelinkedSelf(items, i, c);
      RetrieveStep(s.db, r, path);
      RetrieveStable(sub.db, s.db, c, path[1..]);
    }
  }
}
