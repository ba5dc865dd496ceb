/** `FfsController`, the class that extends the node store with the path
    operations. The controller's methods run against a store object, read
    its tables through the getters and write only through its two make
    primitives. Each method is proved to leave the store, and to return,
    exactly what the matching function of `Engine`, `Deletion` or
    `Updating` computes from the tables before the call, so every property
    proved of those functions holds for the running methods. */
module Controller {
  import opened Types
  import opened Store
  import opened Engine
  import Deletion
  import Updating
  import opened Model

  /** `retrieveFileId`: reads the tables and changes nothing. */
  method RetrieveFileId(fs: FfsModel, rootId: FileId, path: Path) returns (r: Result<FileId>)
    decreases |path|
    ensures r == Engine.RetrieveFileId(fs.Db(), rootId, path)
  {
    if path == [] {
      return Ok(rootId);
    }
    var child :- GetDirectoryContentItemByName(fs.Db(), rootId, path[0]);
    r := RetrieveFileId(fs, child.id, path[1..]);
  }

  /** `createFileFromId`, with its effect on the store. */
  method CreateFileFromId(fs: FfsModel, rootId: FileId, dirPath: Path, name: string,
                          newFileId: FileId, creationTime: int) returns (r: Result<FileId>)
    requires fs.Valid()
    modifies fs
    decreases |dirPath|
    ensures fs.Valid()
    ensures Step(r, fs.Db()) == Engine.CreateFileFromId(old(fs.Db()), rootId, dirPath, name, newFileId, creationTime)
  {
    var parent :- GetDirectory(fs.Db(), rootId);
    if dirPath == [] {
      if FindByName(parent.content, name).Some? {
        return Err(AssertionFailed);
      }
      r := fs.MakeDirectory(creationTime, creationTime, parent.content + [Item(newFileId, name, creationTime)],
                            Some(rootId));
    } else {
      var found := FindIndexByName(parent.content, dirPath[0]);
      if found.None? {
        return Err(AssertionFailed);
      }
      var i := found.value;
      ghost var before := fs.Db();
      var childId :- CreateFileFromId(fs, parent.content[i].id, dirPath[1..], name, newFileId, creationTime);
      assert rootId in fs.filesMetadata by {
        assert Extends(before, fs.Db());
      }
      r := fs.MakeDirectory(creationTime, parent.metadata.mtime, Relinked(parent.content, i, childId), Some(rootId));
    }
  }

  /** `createFile`: the new node is written first and stays when the link
      fails. */
  method CreateFile(fs: FfsModel, rootId: FileId, dirPath: Path, name: string,
                    content: FileContent, creationTime: int) returns (r: Result<FileId>)
    requires fs.Valid()
    modifies fs
    ensures fs.Valid()
    ensures Step(r, fs.Db()) == Engine.CreateFile(old(fs.Db()), rootId, dirPath, name, content, creationTime)
  {
    var leaf: Result<FileId>;
    if IsRegularFileContent(content) {
      leaf := fs.MakeRegularFile(creationTime, creationTime, content.bytes, None);
    } else {
      leaf := fs.MakeDirectory(creationTime, creationTime, content.items, None);
    }
    r := CreateFileFromId(fs, rootId, dirPath, name, leaf.value, creationTime);
  }

  /** `deleteFile`, with its effect on the store. */
  method DeleteFile(fs: FfsModel, rootId: FileId, path: Path, deletionTime: int) returns (r: Result<Option<FileId>>)
    requires fs.Valid()
    modifies fs
    decreases |path|
    ensures fs.Valid()
    ensures Step(r, fs.Db()) == Deletion.DeleteFile(old(fs.Db()), rootId, path, deletionTime)
  {
    if path == [] {
      return Ok(None);
    }
    var parent :- GetDirectory(fs.Db(), rootId);
    var found := FindIndexByName(parent.content, path[0]);
    if found.None? {
      return Err(AssertionFailed);
    }
    var i := found.value;
    ghost var before := fs.Db();
    var newChildId :- DeleteFile(fs, parent.content[i].id, path[1..], deletionTime);
    var newParentId: Result<FileId>;
    if newChildId.Some? {
      assert rootId in fs.filesMetadata by {
        assert Extends(before, fs.Db());
      }
      newParentId := fs.MakeDirectory(deletionTime, parent.metadata.mtime,
                                      Relinked(parent.content, i, newChildId.value), Some(rootId));
    } else {
      newParentId := fs.MakeDirectory(deletionTime, deletionTime, Without(parent.content, i), Some(rootId));
    }
    r := Ok(Some(newParentId.value));
  }

  /** `updateFile`, with its effect on the store. */
  method UpdateFile(fs: FfsModel, rootId: FileId, path: Path, newContent: Bytes, updatingTime: int)
    returns (r: Result<FileId>)
    requires fs.Valid()
    modifies fs
    decreases |path|
    ensures fs.Valid()
    ensures Step(r, fs.Db()) == Updating.UpdateFile(old(fs.Db()), rootId, path, newContent, updatingTime)
  {
    if path == [] {
      r := fs.MakeRegularFile(updatingTime, updatingTime, newContent, Some(rootId));
      return;
    }
    var parentMetadata :- GetFileMetadata(fs.Db(), rootId);
    var items := GetDirectoryContentUnsafe(fs.Db(), rootId);
    var found := FindIndexByName(items, path[0]);
    if found.None? {
      return Err(AssertionFailed);
    }
    var i := found.value;
    ghost var before := fs.Db();
    var newChildId :- UpdateFile(fs, items[i].id, path[1..], newContent, updatingTime);
    assert rootId in fs.filesMetadata by {
      assert Extends(before, fs.Db());
    }
    r := fs.MakeDirectory(updatingTime, parentMetadata.mtime, Relinked(items, i, newChildId), Some(rootId));
  }
}
