/** The older kernel (`FunctionalFileSystemKernel`): the same copy-on-write
    engine over the same three tables as the controller, except that every
    check is a bare `assert(row)` or `assert(cond)`, so every failure is
    `AssertionFailed` and never one of the `ExternalError` kinds. Each
    operation is written out here as the kernel writes it, and then proved
    to be the controller's operation with its error replaced, so that
    everything proved about the controller holds for the kernel too. */
module Kernel {
  import opened Types
  import opened Store
  import Engine
  import Deletion
  import Updating

  /** A result with its error, if any, replaced by a failed `assert`. */
  function Asserted<T>(r: Result<T>): (a: Result<T>)
    ensures a.Ok? <==> r.Ok?
    ensures r.Ok? ==> a == r
    ensures a.Err? ==> a.error == AssertionFailed
  {
    if r.Ok? then r else Err(AssertionFailed)
  }

  function AssertedStep<T>(s: Step<T>): Step<T> {
    Step(Asserted(s.result), s.db)
  }

  // ---------------------------------------------------------------------
  // Getters

  /** `getFileMetadata`: the metadata row; a failed `assert` when none. */
  function GetFileMetadata(db: Tables, id: FileId): (r: Result<FileMetadata>)
    ensures r.Ok? <==> id in db.filesMetadata
    ensures r.Ok? ==> r.value == db.filesMetadata[id]
    ensures r.Err? ==> r.error == AssertionFailed
  {
    Asserted(Store.GetFileMetadata(db, id))
  }

  /** `getDirectoryContentItemByName`: the first row of `parentId` named
      `childName`; a failed `assert` when none. */
  function GetDirectoryContentItemByName(db: Tables, parentId: FileId, childName: string): (r: Result<DirectoryContentItem>)
    ensures r.Ok? ==> r.value.name == childName && Edge(parentId, r.value) in db.directoriesContents
    ensures r.Err? <==> forall it :: Edge(parentId, it) in db.directoriesContents ==> it.name != childName
    ensures r.Err? ==> r.error == AssertionFailed
  {
    Asserted(Store.GetDirectoryContentItemByName(db, parentId, childName))
  }

  /** `getDirectory`: the metadata and rows of a stored node of type 'd';
      a failed `assert` when the node is missing or of the other type. */
  function GetDirectory(db: Tables, id: FileId): (r: Result<Directory>)
    ensures r.Ok? <==> Engine.IsDirectory(db, id)
    ensures r.Ok? ==> r.value == Directory(db.filesMetadata[id], GetDirectoryContentUnsafe(db, id))
    ensures r.Err? ==> r.error == AssertionFailed
  {
    var metadata :- GetFileMetadata(db, id);
    if metadata.fileType != DirectoryType then Err(AssertionFailed)
    else Ok(Directory(metadata, GetDirectoryContentUnsafe(db, id)))
  }

  /** `getRegularFileContent`: the stored bytes; a failed `assert` when none. */
  function GetRegularFileContent(db: Tables, id: FileId): (r: Result<Bytes>)
    ensures r.Ok? <==> id in db.regularFilesContents
    ensures r.Ok? ==> r.value == db.regularFilesContents[id]
    ensures r.Err? ==> r.error == AssertionFailed
  {
    Asserted(Store.GetRegularFileContent(db, id))
  }

  // ---------------------------------------------------------------------
  // Make primitives

  /** `makeRegularFile`: the same rows as the controller's primitive; the
      lookup of `modifiedFromId` fails with an `assert` instead. */
  function MakeRegularFile(db: Tables, rmtime: int, mtime: int, content: Bytes,
                           modifiedFromId: Option<FileId>): (s: Step<FileId>)
    requires Wellformed(db)
    ensures Wellformed(s.db)
    ensures s.result.Err? <==> modifiedFromId.Some? && modifiedFromId.value !in db.filesMetadata
    ensures s.result.Err? ==> s.result.error == AssertionFailed && s.db == db
    ensures s.result.Ok? ==> s == Store.MakeRegularFile(db, rmtime, mtime, content, modifiedFromId)
  {
    AssertedStep(Store.MakeRegularFile(db, rmtime, mtime, content, modifiedFromId))
  }

  /** `makeDirectory`: the same rows as the controller's primitive; the
      lookup of `modifiedFromId` fails with an `assert` instead. */
  function MakeDirectory(db: Tables, rmtime: int, mtime: int, content: DirectoryContent,
                         modifiedFromId: Option<FileId>): (s: Step<FileId>)
    requires Wellformed(db)
    ensures Wellformed(s.db)
    ensures s.result.Err? <==> modifiedFromId.Some? && modifiedFromId.value !in db.filesMetadata
    ensures s.result.Err? ==> s.result.error == AssertionFailed && s.db == db
    ensures s.result.Ok? ==> s == Store.MakeDirectory(db, rmtime, mtime, content, modifiedFromId)
    ensures s.result.Ok? ==>
              s.db.filesMetadata[s.result.value].firstVersionId ==
                match modifiedFromId
                case Some(previous) => db.filesMetadata[previous].firstVersionId
                case None => s.result.value
  {
    AssertedStep(Store.MakeDirectory(db, rmtime, mtime, content, modifiedFromId))
  }

  // ---------------------------------------------------------------------
  // Path operations

  /** `retrieveFileId`: one named row per segment. */
  function RetrieveFileId(db: Tables, rootId: FileId, path: Engine.Path): (r: Result<FileId>)
    decreases |path|
    ensures path == [] ==> r == Ok(rootId)
    ensures r.Err? ==> r.error == AssertionFailed
  {
    if path == [] then Ok(rootId)
    else
      var child :- GetDirectoryContentItemByName(db, rootId, path[0]);
      RetrieveFileId(db, child.id, path[1..])
  }

  /** `createFileFromId`: links `newFileId` under `name` at the end of
      `dirPath`, writing a new version of each directory on the way back up. */
  function CreateFileFromId(db: Tables, rootId: FileId, dirPath: Engine.Path, name: string,
                            newFileId: FileId, creationTime: int): (s: Step<FileId>)
    requires Wellformed(db)
    decreases |dirPath|
    ensures Wellformed(s.db)
    ensures s.result.Err? ==> s.result.error == AssertionFailed && s.db == db
    ensures s.result.Ok? ==> Extends(db, s.db)
  {
    match GetDirectory(db, rootId)
    case Err(e) => Step(Err(e), db)
    case Ok(parent) =>
      if dirPath == [] then
        if Engine.FindByName(parent.content, name).Some? then Step(Err(AssertionFailed), db)
        else MakeDirectory(db, creationTime, creationTime,
                           parent.content + [Item(newFileId, name, creationTime)], Some(rootId))
      else
        match FindIndexByName(parent.content, dirPath[0])
        case None => Step(Err(AssertionFailed), db)
        case Some(i) =>
          var sub := CreateFileFromId(db, parent.content[i].id, dirPath[1..], name, newFileId, creationTime);
          if sub.result.Err? then sub
          else
            var s := MakeDirectory(sub.db, creationTime, parent.metadata.mtime,
                                   Engine.Relinked(parent.content, i, sub.result.value), Some(rootId));
            ExtendsTransitive(db, sub.db, s.db);
            s
  }

  /** `createFile`: writes the new node, then links it. */
  function CreateFile(db: Tables, rootId: FileId, dirPath: Engine.Path, name: string,
                      content: FileContent, creationTime: int): (s: Step<FileId>)
    requires Wellformed(db)
    ensures Wellformed(s.db)
    ensures s.result.Err? ==> s.result.error == AssertionFailed
  {
    var leaf := if IsRegularFileContent(content) then MakeRegularFile(db, creationTime, creationTime, content.bytes, None)
                else MakeDirectory(db, creationTime, creationTime, content.items, None);
    CreateFileFromId(leaf.db, rootId, dirPath, name, leaf.result.value, creationTime)
  }

  /** `deleteFile`: `null` for an exhausted path; otherwise the new root,
      with the entry the path names left out of its parent. */
  function DeleteFile(db: Tables, rootId: FileId, path: Engine.Path, deletionTime: int): (s: Step<Option<FileId>>)
    requires Wellformed(db)
    decreases |path|
    ensures Wellformed(s.db)
    ensures s.result.Err? ==> s.result.error == AssertionFailed && s.db == db
    ensures s.result.Ok? ==> Extends(db, s.db)
  {
    if path == [] then
      ExtendsReflexive(db);
      Step(Ok(None), db)
    else
      match GetDirectory(db, rootId)
      case Err(e) => Step(Err(e), db)
      case Ok(parent) =>
        match FindIndexByName(parent.content, path[0])
        case None => Step(Err(AssertionFailed), db)
        case Some(i) =>
          var sub := DeleteFile(db, parent.content[i].id, path[1..], deletionTime);
          if sub.result.Err? then sub
          else if sub.result.value.Some? then
            var s := MakeDirectory(sub.db, deletionTime, parent.metadata.mtime,
                                   Engine.Relinked(parent.content, i, sub.result.value.value), Some(rootId));
            ExtendsTransitive(db, sub.db, s.db);
            Step(Ok(Some(s.result.value)), s.db)
          else
            var s := MakeDirectory(db, deletionTime, deletionTime, Engine.Without(parent.content, i), Some(rootId));
            Step(Ok(Some(s.result.value)), s.db)
  }

  /** `updateFile`: a new version of the regular file at the end of the
      path, and of each directory above it. */
  function UpdateFile(db: Tables, rootId: FileId, path: Engine.Path, newContent: Bytes, updatingTime: int): (s: Step<FileId>)
    requires Wellformed(db)
    decreases |path|
    ensures Wellformed(s.db)
    ensures s.result.Err? ==> s.result.error == AssertionFailed && s.db == db
    ensures s.result.Ok? ==> Extends(db, s.db)
  {
    if path == [] then MakeRegularFile(db, updatingTime, updatingTime, newContent, Some(rootId))
    else
      match GetFileMetadata(db, rootId)
      case Err(e) => Step(Err(e), db)
      case Ok(parentMetadata) =>
        var items := GetDirectoryContentUnsafe(db, rootId);
        match FindIndexByName(items, path[0])
        case None => Step(Err(AssertionFailed), db)
        case Some(i) =>
          var sub := UpdateFile(db, items[i].id, path[1..], newContent, updatingTime);
          if sub.result.Err? then sub
          else
            var s := MakeDirectory(sub.db, updatingTime, parentMetadata.mtime,
                                   Engine.Relinked(items, i, sub.result.value), Some(rootId));
            ExtendsTransitive(db, sub.db, s.db);
            s
  }

  // ---------------------------------------------------------------------
  // The kernel is the controller with every error an assertion

  /** The kernel resolves a path exactly as the controller does; where the
      controller reports `FileNotFound`, the kernel's `assert` fails. */
  lemma {:induction false} RetrieveFileIdMatches(db: Tables, rootId: FileId, path: Engine.Path)
    decreases |path|
    ensures RetrieveFileId(db, rootId, path) == Asserted(Engine.RetrieveFileId(db, rootId, path))
  {
    if path != [] {
      match Store.GetDirectoryContentItemByName(db, rootId, path[0])
      case Err(_) =>
      case Ok(child) => RetrieveFileIdMatches(db, child.id, path[1..]);
    }
  }

  /** The kernel's `createFileFromId` writes the same rows and returns the
      same root as the controller's, and fails exactly when it does. */
  lemma {:induction false} CreateFileFromIdMatches(db: Tables, rootId: FileId, dirPath: Engine.Path, name: string,
                                                   newFileId: FileId, creationTime: int)
    requires Wellformed(db)
    decreases |dirPath|
    ensures CreateFileFromId(db, rootId, dirPath, name, newFileId, creationTime) ==
              AssertedStep(Engine.CreateFileFromId(db, rootId, dirPath, name, newFileId, creationTime))
  {
    if Engine.IsDirectory(db, rootId) && dirPath != [] {
      var items := GetDirectoryContentUnsafe(db, rootId);
      match FindIndexByName(items, dirPath[0])
      case None =>
      case Some(i) => CreateFileFromIdMatches(db, items[i].id, dirPath[1..], name, newFileId, creationTime);
    }
  }

  /** The kernel's `createFile` is the controller's, up to the error kind. */
  lemma CreateFileMatches(db: Tables, rootId: FileId, dirPath: Engine.Path, name: string,
                          content: FileContent, creationTime: int)
    requires Wellformed(db)
    ensures CreateFile(db, rootId, dirPath, name, content, creationTime) ==
              AssertedStep(Engine.CreateFile(db, rootId, dirPath, name, content, creationTime))
  {
    var leaf := Engine.MakeLeaf(db, content, creationTime);
    CreateFileFromIdMatches(leaf.db, rootId, dirPath, name, leaf.result.value, creationTime);
  }

  /** The kernel's `deleteFile` is the controller's, up to the error kind. */
  lemma {:induction false} DeleteFileMatches(db: Tables, rootId: FileId, path: Engine.Path, deletionTime: int)
    requires Wellformed(db)
    decreases |path|
    ensures DeleteFile(db, rootId, path, deletionTime) ==
              AssertedStep(Deletion.DeleteFile(db, rootId, path, deletionTime))
  {
    if path != [] && Engine.IsDirectory(db, rootId) {
      var items := GetDirectoryContentUnsafe(db, rootId);
      match FindIndexByName(items, path[0])
      case None =>
      case Some(i) => DeleteFileMatches(db, items[i].id, path[1..], deletionTime);
    }
  }

  /** The kernel's `updateFile` is the controller's, up to the error kind. */
  lemma {:induction false} UpdateFileMatches(db: Tables, rootId: FileId, path: Engine.Path,
                                             newContent: Bytes, updatingTime: int)
    requires Wellformed(db)
    decreases |path|
    ensures UpdateFile(db, rootId, path, newContent, updatingTime) ==
              AssertedStep(Updating.UpdateFile(db, rootId, path, newContent, updatingTime))
  {
    if path != [] && rootId in db.filesMetadata {
      var items := GetDirectoryContentUnsafe(db, rootId);
      match FindIndexByName(items, path[0])
      case None =>
      case Some(i) => UpdateFileMatches(db, items[i].id, path[1..], newContent, updatingTime);
    }
  }
}
