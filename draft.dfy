/** The earlier single-class draft of the engine (`FunctionalFileSystem` in
    `src/ffs/ffs.ts`). Its getters and make primitives are the kernel's
    (bare `assert(row)` checks); the recursion differs: the caller builds
    the leaf and passes its id, a directory is only checked for type 'd'
    at the target of `createFile`, and `updateFile` relinks a ready-made
    id instead of writing bytes. */
module Draft {
  import opened Types
  import opened Store
  import opened Engine
  import Kernel
  import View

  // ---------------------------------------------------------------------
  // makeDirectory as written

  /** `getFirstVersionId(id)`: the lineage column of `id`'s own row, read
      without an `assert`, so a missing row fails on the field access. */
  function FirstVersionIdOf(db: Tables, id: FileId): (r: Result<FileId>)
    ensures r.Ok? <==> id in db.filesMetadata
    ensures r.Ok? ==> r.value == db.filesMetadata[id].firstVersionId
    ensures r.Err? ==> r.error == UndefinedRow
  {
    if id in db.filesMetadata then Ok(db.filesMetadata[id].firstVersionId) else Err(UndefinedRow)
  }

  /** `makeDirectory` as this draft writes it: the lineage is read from the
      row of the id just allocated, before that row is inserted, and then
      stored together with the entries. The kernel's `makeDirectory`, which
      the rest of this module uses, reads it from `modifiedFromId`. */
  function MakeDirectoryAsWritten(db: Tables, rmtime: int, mtime: int, content: DirectoryContent,
                                  modifiedFromId: Option<FileId>): (s: Step<FileId>)
    ensures s.result.Err? ==> s.db == db
    ensures s.result.Ok? ==> s.result.value == NextFileId(db) && s.result.value in db.filesMetadata
  {
    var id := NextFileId(db);
    match FirstVersionIdOf(db, id)
    case Err(e) => Step(Err(e), db)
    case Ok(firstVersionId) =>
      var metadata := FileMetadata(id, DirectoryType, rmtime, mtime, modifiedFromId, firstVersionId);
      Step(Ok(id), Tables(db.filesMetadata[id := metadata], db.regularFilesContents,
                          db.directoriesContents + EdgesOf(id, content)))
  }

  /** On every well-formed store the id just allocated has no row yet, so
      the draft's `makeDirectory` always fails before it writes anything,
      whatever it is asked to make. */
  lemma MakeDirectoryAsWrittenFails(db: Tables, rmtime: int, mtime: int, content: DirectoryContent,
                                    modifiedFromId: Option<FileId>)
    requires Wellformed(db)
    ensures MakeDirectoryAsWritten(db, rmtime, mtime, content, modifiedFromId) == Step(Err(UndefinedRow), db)
  {
  }

  /** `retrieveFile`: at the end of the path the bytes of the node when it
      has a content row, and otherwise, whatever the error, the listing of
      its rows; on the way, one named row per segment. */
  function RetrieveFile(db: Tables, rootId: FileId, path: Path): (r: Result<FileView>)
    decreases |path|
    ensures r.Err? ==> r.error == AssertionFailed && path != []
  {
    if path == [] then
      match Kernel.GetRegularFileContent(db, rootId)
      case Ok(bytes) => Ok(RegularView(bytes))
      case Err(_) => Ok(DirectoryView(GetDirectoryViewUnsafe(db, rootId, MtimeColumn)))
    else
      var child :- Kernel.GetDirectoryContentItemByName(db, rootId, path[0]);
      RetrieveFile(db, child.id, path[1..])
  }

  /** The draft reads every path as the view does, except that a missing
      segment is a failed `assert` (its catch-all fallback only ever sees
      the one error a missing content row raises) and that its listing
      selects each child's `mtime`. */
  lemma {:induction false} RetrieveFileMatchesView(db: Tables, rootId: FileId, path: Path)
    decreases |path|
    ensures RetrieveFile(db, rootId, path) == Kernel.Asserted(View.FileViewAt(db, rootId, path, MtimeColumn))
  {
    if path != [] {
      RetrieveStep(db, rootId, path);
      LookupIsFind(db, rootId, path[0]);
      match GetDirectoryContentItemByName(db, rootId, path[0])
      case Err(_) =>
      case Ok(child) => RetrieveFileMatchesView(db, child.id, path[1..]);
    }
  }

  /** `createFile(rootId, dirPath, newFileId, newFileName, ctime)`: links a
      node the caller made. Only the target is checked for type 'd'; above
      it, a node without rows fails the `find` assertion instead. */
  function CreateFile(db: Tables, rootId: FileId, dirPath: Path, newFileId: FileId, newFileName: string,
                      ctime: int): (s: Step<FileId>)
    requires Wellformed(db)
    decreases |dirPath|
    ensures Wellformed(s.db)
    ensures s.result.Err? ==> s.result.error == AssertionFailed && s.db == db
    ensures s.result.Ok? ==> Extends(db, s.db)
  {
    match Kernel.GetFileMetadata(db, rootId)
    case Err(e) => Step(Err(e), db)
    case Ok(parentMetadata) =>
      var items := GetDirectoryContentUnsafe(db, rootId);
      if dirPath == [] then
        if parentMetadata.fileType != DirectoryType then Step(Err(AssertionFailed), db)
        else if FindByName(items, newFileName).Some? then Step(Err(AssertionFailed), db)
        else Kernel.MakeDirectory(db, ctime, ctime, items + [Item(newFileId, newFileName, ctime)], Some(rootId))
      else
        match FindIndexByName(items, dirPath[0])
        case None => Step(Err(AssertionFailed), db)
        case Some(i) =>
          var sub := CreateFile(db, items[i].id, dirPath[1..], newFileId, newFileName, ctime);
          if sub.result.Err? then sub
          else
            var s := Kernel.MakeDirectory(sub.db, ctime, parentMetadata.mtime,
                                          Relinked(items, i, sub.result.value), Some(rootId));
            ExtendsTransitive(db, sub.db, s.db);
            s
  }

  /** The draft's `createFile` is the kernel's `createFileFromId`: the
      missing type check above the target changes nothing, since only a
      directory has rows for `find` to succeed on. */
  lemma {:induction false} CreateFileMatchesKernel(db: Tables, rootId: FileId, dirPath: Path, newFileId: FileId,
                                                   newFileName: string, ctime: int)
    requires Wellformed(db)
    decreases |dirPath|
    ensures CreateFile(db, rootId, dirPath, newFileId, newFileName, ctime) ==
              Kernel.CreateFileFromId(db, rootId, dirPath, newFileName, newFileId, ctime)
  {
    if !IsDirectory(db, rootId) {
      NoRowsUnlessDirectory(db, rootId);
    } else if dirPath != [] {
      var items := GetDirectoryContentUnsafe(db, rootId);
      match FindIndexByName(items, dirPath[0])
      case None =>
      case Some(i) => CreateFileMatchesKernel(db, items[i].id, dirPath[1..], newFileId, newFileName, ctime);
    }
  }

  /** `deleteFile(rootId, path, dtime)`: as the kernel's, reading the
      parent's metadata and rows separately. */
  function DeleteFile(db: Tables, rootId: FileId, path: Path, dtime: int): (s: Step<Option<FileId>>)
    requires Wellformed(db)
    decreases |path|
    ensures Wellformed(s.db)
    ensures s.result.Err? ==> s.result.error == AssertionFailed && s.db == db
    ensures s.result.Ok? ==> Extends(db, s.db)
  {
    if path == [] then
      ExtendsReflexive(db);
      Step(Ok(None), db)
    else
      match Kernel.GetFileMetadata(db, rootId)
      case Err(e) => Step(Err(e), db)
      case Ok(parentMetadata) =>
        var items := GetDirectoryContentUnsafe(db, rootId);
        match FindIndexByName(items, path[0])
        case None => Step(Err(AssertionFailed), db)
        case Some(i) =>
          var sub := DeleteFile(db, items[i].id, path[1..], dtime);
          if sub.result.Err? then sub
          else if sub.result.value.Some? then
            var s := Kernel.MakeDirectory(sub.db, dtime, parentMetadata.mtime,
                                          Relinked(items, i, sub.result.value.value), Some(rootId));
            ExtendsTransitive(db, sub.db, s.db);
            Step(Ok(Some(s.result.value)), s.db)
          else
            var s := Kernel.MakeDirectory(db, dtime, dtime, Without(items, i), Some(rootId));
            Step(Ok(Some(s.result.value)), s.db)
  }

  /** The draft's `deleteFile` is the kernel's. */
  lemma {:induction false} DeleteFileMatchesKernel(db: Tables, rootId: FileId, path: Path, dtime: int)
    requires Wellformed(db)
    decreases |path|
    ensures DeleteFile(db, rootId, path, dtime) == Kernel.DeleteFile(db, rootId, path, dtime)
  {
    if path != [] {
      if !IsDirectory(db, rootId) {
        NoRowsUnlessDirectory(db, rootId);
      } else {
        var items := GetDirectoryContentUnsafe(db, rootId);
        match FindIndexByName(items, path[0])
        case None =>
        case Some(i) => DeleteFileMatchesKernel(db, items[i].id, path[1..], dtime);
      }
    }
  }

  /** `updateFile(rootId, path, newFileId, mtime)`: relinks the node the
      caller made at the end of the path; an exhausted path returns that id
      as it is. Each directory on the way gets a new version written at
      `mtime` that keeps its old `mtime`. */
  function UpdateFile(db: Tables, rootId: FileId, path: Path, newFileId: FileId, mtime: int): (s: Step<FileId>)
    requires Wellformed(db)
    decreases |path|
    ensures Wellformed(s.db)
    ensures s.result.Err? ==> s.result.error == AssertionFailed && s.db == db
    ensures path == [] ==> s == Step(Ok(newFileId), db)
    ensures s.result.Ok? ==> Extends(db, s.db)
    ensures s.result.Ok? && path != [] ==>
              && IsDirectory(db, rootId)
              && |s.db.filesMetadata| == |db.filesMetadata| + |path|
              && DerivedDirectory(db, s.db, s.result.value, rootId, mtime, db.filesMetadata[rootId].mtime)
  {
    if path == [] then
      ExtendsReflexive(db);
      Step(Ok(newFileId), db)
    else
      match Kernel.GetFileMetadata(db, rootId)
      case Err(e) => Step(Err(e), db)
      case Ok(parentMetadata) =>
        var items := GetDirectoryContentUnsafe(db, rootId);
        match FindIndexByName(items, path[0])
        case None => Step(Err(AssertionFailed), db)
        case Some(i) =>
          var sub := UpdateFile(db, items[i].id, path[1..], newFileId, mtime);
          if sub.result.Err? then sub
          else
            RowsHaveStoredParent(db, rootId);
            var content := Relinked(items, i, sub.result.value);
            NewDirectoryVersion(db, sub.db, rootId, mtime, parentMetadata.mtime, content);
            Kernel.MakeDirectory(sub.db, mtime, parentMetadata.mtime, content, Some(rootId))
  }

  /** One level of a successful `updateFile` on a non-empty path. */
  lemma UpdateFileLevel(db: Tables, rootId: FileId, path: Path, newFileId: FileId, mtime: int)
    requires Wellformed(db)
    requires path != [] && UpdateFile(db, rootId, path, newFileId, mtime).result.Ok?
    ensures var s := UpdateFile(db, rootId, path, newFileId, mtime);
            var items := GetDirectoryContentUnsafe(db, rootId);
            && FindIndexByName(items, path[0]).Some?
            && var i := FindIndexByName(items, path[0]).value;
               var sub := UpdateFile(db, items[i].id, path[1..], newFileId, mtime);
               && sub.result.Ok?
               && Wellformed(sub.db)
               && Extends(sub.db, s.db)
               && GetDirectoryContentUnsafe(s.db, s.result.value) == Relinked(items, i, sub.result.value)
  {
    var items := GetDirectoryContentUnsafe(db, rootId);
    var i := FindIndexByName(items, path[0]).value;
    var sub := UpdateFile(db, items[i].id, path[1..], newFileId, mtime);
    NewDirectoryVersion(db, sub.db, rootId, mtime, db.filesMetadata[rootId].mtime,
                        Relinked(items, i, sub.result.value));
  }

  /** The draft's `updateFile` succeeds on a non-empty path exactly when
      the path resolves, whether or not the node it reaches is stored. */
  lemma {:induction false} UpdateFileSucceeds(db: Tables, rootId: FileId, path: Path, newFileId: FileId, mtime: int)
    requires Wellformed(db) && path != []
    ensures UpdateFile(db, rootId, path, newFileId, mtime).result.Ok? <==> RetrieveFileId(db, rootId, path).Ok?
    decreases |path|
  {
    var items := GetDirectoryContentUnsafe(db, rootId);
    RetrieveStep(db, rootId, path);
    if rootId !in db.filesMetadata {
      NoRowsUnlessDirectory(db, rootId);
    } else {
      match FindIndexByName(items, path[0])
      case None =>
      case Some(i) =>
        if path[1..] != [] {
          UpdateFileSucceeds(db, items[i].id, path[1..], newFileId, mtime);
        }
    }
  }

  /** Round trip of the draft's `updateFile`: under the new root the path
      resolves to exactly the id the caller passed. */
  lemma {:induction false} UpdateFileRoundTrip(db: Tables, rootId: FileId, path: Path, newFileId: FileId, mtime: int)
    requires Wellformed(db) && NamesUnique(db)
    requires UpdateFile(db, rootId, path, newFileId, mtime).result.Ok?
    ensures var s := UpdateFile(db, rootId, path, newFileId, mtime);
            RetrieveFileId(s.db, s.result.value, path) == Ok(newFileId)
    decreases |path|
  {
    if path != [] {
      var s := UpdateFile(db, rootId, path, newFileId, mtime);
      var r := s.result.value;
      var items := GetDirectoryContentUnsafe(db, rootId);
      UpdateFileLevel(db, rootId, path, newFileId, mtime);
      var i := FindIndexByName(items, path[0]).value;
      var sub := UpdateFile(db, items[i].id, path[1..], newFileId, mtime);
      var c := sub.result.value;
      UpdateFileRoundTrip(db, items[i].id, path[1..], newFileId, mtime);
      assert NamesDistinct(items);
      FindByNameRelinkedSelf(items, i, c);
      RetrieveStep(s.db, r, path);
      RetrieveStable(sub.db, s.db, c, path[1..]);
    }
  }

  /** Every directory on the path gets a new version derived from the old
      one, written at `mtime`, keeping its old `mtime`, whose entries are
      the old ones with only the traversed entry relinked. */
  lemma {:induction false} UpdateFileAncestor(db: Tables, rootId: FileId, path: Path, newFileId: FileId,
                                              mtime: int, k: nat)
    requires Wellformed(db) && NamesUnique(db)
    requires UpdateFile(db, rootId, path, newFileId, mtime).result.Ok?
    requires k < |path|
    ensures var s := UpdateFile(db, rootId, path, newFileId, mtime);
            RebuiltAncestor(db, s.db, rootId, s.result.value, path, k, mtime)
    decreases k
  {
    var s := UpdateFile(db, rootId, path, newFileId, mtime);
    var r := s.result.value;
    var items := GetDirectoryContentUnsafe(db, rootId);
    UpdateFileLevel(db, rootId, path, newFileId, mtime);
    var i := FindIndexByName(items, path[0]).value;
    var sub := UpdateFile(db, items[i].id, path[1..], newFileId, mtime);
    var c := sub.result.value;
    assert FindByName(GetDirectoryContentUnsafe(s.db, r), path[0]) == Some(Item(c, items[i].name, items[i].btime)) by {
      FindByNameRelinkedSelf(items, i, c);
    }
    assert NamesDistinct(items);
    if k == 0 {
      PathPrefix(path, 1);
      assert RetrieveFileId(s.db, r, path[..1]) == Ok(c) by {
        RetrieveStep(s.db, r, path[..1]);
      }
      assert path[..0] == [];
    } else {
      UpdateFileAncestor(db, items[i].id, path[1..], newFileId, mtime, k - 1);
      OldPathStep(db, rootId, i, path, k);
      NewPathStep(sub.db, s.db, r, items, i, c, path, k);
      NewPathStep(sub.db, s.db, r, items, i, c, path, k + 1);
      RebuiltAncestorLift(db, sub.db, s.db, rootId, r, items[i].id, c, path, k, mtime);
    }
  }

  /** The draft's `updateFile` agrees with the kernel's: writing the new
      version of the node a path resolves to first, as a regular file
      derived from it at `time`, and then relinking that leaf along the
      path gives the kernel's result and tables. */
  lemma {:induction false} UpdateFileMatchesKernel(db: Tables, rootId: FileId, path: Path, bytes: Bytes,
                                                   time: int, target: FileId)
    requires Wellformed(db)
    requires RetrieveFileId(db, rootId, path) == Ok(target) && target in db.filesMetadata
    decreases |path|
    ensures var leaf := Kernel.MakeRegularFile(db, time, time, bytes, Some(target));
            Kernel.UpdateFile(db, rootId, path, bytes, time) == UpdateFile(leaf.db, rootId, path, leaf.result.value, time)
  {
    if path != [] {
      var leaf := Kernel.MakeRegularFile(db, time, time, bytes, Some(target));
      var items := GetDirectoryContentUnsafe(db, rootId);
      RetrieveStep(db, rootId, path);
      if !IsDirectory(db, rootId) {
        NoRowsUnlessDirectory(db, rootId);
      }
      ChildrenStable(db, leaf.db, rootId);
      var i := FindIndexByName(items, path[0]).value;
      UpdateFileMatchesKernel(db, items[i].id, path[1..], bytes, time, target);
    }
  }
}
