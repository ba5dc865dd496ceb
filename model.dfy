/** The node store as an object: the three tables are fields that the two
    make primitives append to. Each method is proved to have exactly the
    effect of the matching pure function in `Store`. */
module Model {
  import opened Types
  import opened Store

  class FfsModel {
    var filesMetadata: map<FileId, FileMetadata>
    var regularFilesContents: map<FileId, Bytes>
    var directoriesContents: seq<Edge>

    /** The current contents of the three tables. */
    function Db(): Tables
      reads this
    {
      Tables(filesMetadata, regularFilesContents, directoriesContents)
    }

    ghost predicate Valid()
      reads this
    {
      Wellformed(Db())
    }

    /** A store over empty tables. */
    constructor ()
      ensures Valid() && Db() == Store.Empty
    {
      filesMetadata := map[];
      regularFilesContents := map[];
      directoriesContents := [];
    }

    /** `makeUniqueFileId`: one more than the number of metadata rows. */
    method MakeUniqueFileId() returns (id: FileId)
      ensures id == NextFileId(Db())
      ensures Valid() ==> id !in filesMetadata
    {
      id := |filesMetadata| + 1;
    }

    /** `makeRegularFile`: fails, writing nothing, when `modifiedFromId` is
      not stored; otherwise inserts the metadata and content rows of a new
      regular file. */
    method MakeRegularFile(rmtime: int, mtime: int, content: Bytes, modifiedFromId: Option<FileId>)
      returns (r: Result<FileId>)
      requires Valid()
      modifies this
      ensures Valid()
      ensures Step(r, Db()) == Store.MakeRegularFile(old(Db()), rmtime, mtime, content, modifiedFromId)
    {
      ghost var expected := Store.MakeRegularFile(Db(), rmtime, mtime, content, modifiedFromId);
      var id := MakeUniqueFileId();
      var metadata :- NewMetadata(Db(), id, RegularType, rmtime, mtime, modifiedFromId);
      filesMetadata := filesMetadata[id := metadata];
      regularFilesContents := regularFilesContents[id := content];
      assert Db() == expected.db;
      r := Ok(id);
    }

    /** `makeDirectory`: fails, writing nothing, when `modifiedFromId` is
      not stored; otherwise inserts the metadata row of a new directory and
      then one directory row per item. */
    method MakeDirectory(rmtime: int, mtime: int, content: DirectoryContent, modifiedFromId: Option<FileId>)
      returns (r: Result<FileId>)
      requires Valid()
      modifies this
      ensures Valid()
      ensures Step(r, Db()) == Store.MakeDirectory(old(Db()), rmtime, mtime, content, modifiedFromId)
    {
      ghost var expected := Store.MakeDirectory(Db(), rmtime, mtime, content, modifiedFromId);
      var id := MakeUniqueFileId();
      var metadata :- NewMetadata(Db(), id, DirectoryType, rmtime, mtime, modifiedFromId);
      assert expected.db == Tables(filesMetadata[id := metadata], regularFilesContents,
                                   directoriesContents + EdgesOf(id, content));
      filesMetadata := filesMetadata[id := metadata];
      var i := 0;
      while i < |content|
        invariant 0 <= i <= |content|
        invariant filesMetadata == old(filesMetadata)[id := metadata]
        invariant regularFilesContents == old(regularFilesContents)
        invariant directoriesContents == old(directoriesContents) + EdgesOf(id, content[..i])
      {
        assert EdgesOf(id, content[..i + 1]) == EdgesOf(id, content[..i]) + [Edge(id, content[i])];
        directoriesContents := directoriesContents + [Edge(id, content[i])];
        i := i + 1;
      }
      assert content[..i] == content;
      assert Db() == expected.db;
      r := Ok(id);
    }
  }
}
