/** `updateFile` of the controller: writes new bytes at a path as a new
    version of the regular file there, rebuilding every directory on the
    path as a new version of the old one. */
module Updating {
  import opened Types
  import opened Store
  import opened Engine

  /** `updateFile`: at the end of the path, a new regular file derived from
      the node there, with the update time as `rmtime` and `mtime`
      (`FileNotFound` when that node is not stored); above it, each
      directory must be stored (`FileNotFound` otherwise) and hold the next
      segment (a failed `assert` otherwise), and gets a new version written
      at the update time, keeping its old `mtime`, with the traversed entry
      relinked. Nothing is written unless the whole path checks out. */
  function UpdateFile(db: Tables, rootId: FileId, path: Path, newContent: Bytes, updatingTime: int): (s: Step<FileId>)
    requires Wellformed(db)
    decreases |path|
    ensures Wellformed(s.db)
    ensures s.result.Err? ==> s.db == db
    ensures s.result.Ok? ==>
              && Extends(db, s.db)
              && |s.db.filesMetadata| == |db.filesMetadata| + |path| + 1
              && rootId in db.filesMetadata
              && s.result.value !in db.filesMetadata
              && s.result.value in s.db.filesMetadata
    ensures s.result.Ok? && path != [] ==> IsDirectory(db, rootId)
    ensures s.result.Ok? && path != [] && rootId in db.filesMetadata ==>
              DerivedDirectory(db, s.db, s.result.value, rootId, updatingTime, db.filesMetadata[rootId].mtime)
  {
    if path == [] then MakeRegularFile(db, updatingTime, updatingTime, newContent, Some(rootId))
    else
      match GetFileMetadata(db, rootId)
      case Err(e) => Step(Err(e), db)
      case Ok(parentMetadata) =>
        var items := GetDirectoryContentUnsafe(db, rootId);
        match FindIndexByName(items, path[0])
        case None => Step(Err(AssertionFailed), db)
        case Some(i) =>
          var sub := UpdateFile(db, items[i].id, path[1..], newContent, updatingTime);
          if sub.result.Err? then sub
          else
            RowsHaveStoredParent(db, rootId);
            var content := Relinked(items, i, sub.result.value);
            NewDirectoryVersion(db, sub.db, rootId, updatingTime, parentMetadata.mtime, content);
            MakeDirectory(sub.db, updatingTime, parentMetadata.mtime, content, Some(rootId))
  }

  /** `leaf` is a regular file written by the call holding `bytes`, derived
      from the stored node `previous`, which it records as its previous version,
      keeps its first version, and carries `time` as `rmtime` and `mtime`. */
  ghost predicate UpdatedLeaf(before: Tables, after: Tables, leaf: FileId, previous: FileId, bytes: Bytes, time: int) {
    && previous in before.filesMetadata
    && leaf !in before.filesMetadata
    && GetFileMetadata(after, leaf) ==
         Ok(FileMetadata(leaf, RegularType, time, time, Some(previous), before.filesMetadata[previous].firstVersionId))
    && GetRegularFileContent(after, leaf) == Ok(bytes)
  }

  /** Later appends leave a written leaf as it is. */
  lemma UpdatedLeafStable(before: Tables, mid: Tables, after: Tables, leaf: FileId, previous: FileId, bytes: Bytes, time: int)
    requires Extends(mid, after)
    requires UpdatedLeaf(before, mid, leaf, previous, bytes, time)
    ensures UpdatedLeaf(before, after, leaf, previous, bytes, time)
  {
  }

  /** One level of a successful `updateFile` on a non-empty path: the root
      is a stored directory holding the first segment, the call below
      succeeded, and the new version holds the old entries with the
      traversed one relinked to the child's new version. */
  lemma UpdateFileLevel(db: Tables, rootId: FileId, path: Path, newContent: Bytes, updatingTime: int)
    requires Wellformed(db)
    requires path != [] && UpdateFile(db, rootId, path, newContent, updatingTime).result.Ok?
    ensures IsDirectory(db, rootId)
    ensures var s := UpdateFile(db, rootId, path, newContent, updatingTime);
            var items := GetDirectoryContentUnsafe(db, rootId);
            && FindIndexByName(items, path[0]).Some?
            && var i := FindIndexByName(items, path[0]).value;
               var sub := UpdateFile(db, items[i].id, path[1..], newContent, updatingTime);
               && sub.result.Ok?
               && Extends(sub.db, s.db)
               && s.result.value !in sub.db.filesMetadata
               && GetDirectoryContentUnsafe(s.db, s.result.value) == Relinked(items, i, sub.result.value)
               && s.db.directoriesContents ==
                    sub.db.directoriesContents + EdgesOf(s.result.value, Relinked(items, i, sub.result.value))
  {
    var items := GetDirectoryContentUnsafe(db, rootId);
    var i := FindIndexByName(items, path[0]).value;
    var sub := UpdateFile(db, items[i].id, path[1..], newContent, updatingTime);
    NewDirectoryVersion(db, sub.db, rootId, updatingTime, db.filesMetadata[rootId].mtime,
                        Relinked(items, i, sub.result.value));
  }

  /** `updateFile` succeeds exactly when the path resolves to a stored
      node. */
  lemma {:induction false} UpdateFileSucceeds(db: Tables, rootId: FileId, path: Path, newContent: Bytes, updatingTime: int)
    requires Wellformed(db)
    ensures UpdateFile(db, rootId, path, newContent, updatingTime).result.Ok? <==>
              RetrieveFileId(db, rootId, path).Ok? && RetrieveFileId(db, rootId, path).value in db.filesMetadata
    decreases |path|
  {
    if path != [] {
      var items := GetDirectoryContentUnsafe(db, rootId);
      RetrieveStep(db, rootId, path);
      if rootId !in db.filesMetadata {
        NoRowsUnlessDirectory(db, rootId);
      } else {
        match FindIndexByName(items, path[0])
        case None =>
        case Some(i) =>
          UpdateFileSucceeds(db, items[i].id, path[1..], newContent, updatingTime);
          var sub := UpdateFile(db, items[i].id, path[1..], newContent, updatingTime);
          if sub.result.Ok? {
            RowsHaveStoredParent(db, rootId);
            NewDirectoryVersion(db, sub.db, rootId, updatingTime, db.filesMetadata[rootId].mtime,
                                Relinked(items, i, sub.result.value));
          }
      }
    }
  }

  /** Round trip of `updateFile`: under the new root the path resolves to a
      new regular file holding the new bytes, derived from the node the
      path resolved to under the old root, and stamped with the update
      time. */
  lemma {:induction false} UpdateFileRoundTrip(db: Tables, rootId: FileId, path: Path, newContent: Bytes, updatingTime: int)
    requires Wellformed(db) && NamesUnique(db)
    requires UpdateFile(db, rootId, path, newContent, updatingTime).result.Ok?
    ensures var s := UpdateFile(db, rootId, path, newContent, updatingTime);
            var prior := RetrieveFileId(db, rootId, path);
            var leaf := RetrieveFileId(s.db, s.result.value, path);
            prior.Ok? && leaf.Ok? && UpdatedLeaf(db, s.db, leaf.value, prior.value, newContent, updatingTime)
    decreases |path|
  {
    var s := UpdateFile(db, rootId, path, newContent, updatingTime);
    var r := s.result.value;
    if path == [] {
      MakeRegularFileRoundTrip(db, updatingTime, updatingTime, newContent, Some(rootId));
    } else {
      var items := GetDirectoryContentUnsafe(db, rootId);
      UpdateFileLevel(db, rootId, path, newContent, updatingTime);
      var i := FindIndexByName(items, path[0]).value;
      var sub := UpdateFile(db, items[i].id, path[1..], newContent, updatingTime);
      var c := sub.result.value;
      UpdateFileRoundTrip(db, items[i].id, path[1..], newContent, updatingTime);
      var prior := RetrieveFileId(db, items[i].id, path[1..]).value;
      var leaf := RetrieveFileId(sub.db, c, path[1..]).value;
      UpdatedLeafStable(db, sub.db, s.db, leaf, prior, newContent, updatingTime);
      assert RetrieveFileId(db, rootId, path) == Ok(prior) by {
        RetrieveStep(db, rootId, path);
      }
      assert RetrieveFileId(s.db, r, path) == Ok(leaf) by {
        assert NamesDistinct(items);
        FindByNameRelinkedSelf(items, i, c);
        RetrieveStep(s.db, r, path);
        RetrieveStable(sub.db, s.db, c, path[1..]);
      }
    }
  }

  /** Every directory on the path gets a new version derived from the old
      one, written at the update time, keeping its old `mtime`, whose
      entries are the old ones with only the traversed entry relinked. */
  lemma {:induction false} UpdateFileAncestor(db: Tables, rootId: FileId, path: Path, newContent: Bytes,
                                              updatingTime: int, k: nat)
    requires Wellformed(db) && NamesUnique(db)
    requires UpdateFile(db, rootId, path, newContent, updatingTime).result.Ok?
    requires k < |path|
    ensures var s := UpdateFile(db, rootId, path, newContent, updatingTime);
            RebuiltAncestor(db, s.db, rootId, s.result.value, path, k, updatingTime)
    decreases k
  {
    var s := UpdateFile(db, rootId, path, newContent, updatingTime);
    var r := s.result.value;
    var items := GetDirectoryContentUnsafe(db, rootId);
    UpdateFileLevel(db, rootId, path, newContent, updatingTime);
    var i := FindIndexByName(items, path[0]).value;
    var sub := UpdateFile(db, items[i].id, path[1..], newContent, updatingTime);
    var c := sub.result.value;
    assert FindByName(GetDirectoryContentUnsafe(s.db, r), path[0]) == Some(Item(c, items[i].name, items[i].btime)) by {
      FindByNameRelinkedSelf(items, i, c);
    }
    assert NamesDistinct(items);
    if k == 0 {
      PathPrefix(path, 1);
      assert RetrieveFileId(s.db, r, path[..1]) == Ok(c) by {
        RetrieveStep(s.db, r, path[..1]);
      }
      assert path[..0] == [];
    } else {
      UpdateFileAncestor(db, items[i].id, path[1..], newContent, updatingTime, k - 1);
      OldPathStep(db, rootId, i, path, k);
      NewPathStep(sub.db, s.db, r, items, i, c, path, k);
      NewPathStep(sub.db, s.db, r, items, i, c, path, k + 1);
      RebuiltAncestorLift(db, sub.db, s.db, rootId, r, items[i].id, c, path, k, updatingTime);
    }
  }

  /** `updateFile` never puts two entries with the same name in one
      directory. */
  lemma {:induction false} UpdateFileKeepsNames(db: Tables, rootId: FileId, path: Path, newContent: Bytes, updatingTime: int)
    requires Wellformed(db) && NamesUnique(db)
    requires UpdateFile(db, rootId, path, newContent, updatingTime).result.Ok?
    ensures NamesUnique(UpdateFile(db, rootId, path, newContent, updatingTime).db)
    decreases |path|
  {
    if path != [] {
      var s := UpdateFile(db, rootId, path, newContent, updatingTime);
      var items := GetDirectoryContentUnsafe(db, rootId);
      assert NamesDistinct(items);
      UpdateFileLevel(db, rootId, path, newContent, updatingTime);
      var i := FindIndexByName(items, path[0]).value;
      UpdateFileKeepsNames(db, items[i].id, path[1..], newContent, updatingTime);
      var sub := UpdateFile(db, items[i].id, path[1..], newContent, updatingTime);
      DistinctRelinked(items, i, sub.result.value);
      AppendKeepsNames(sub.db, s.db, s.result.value, Relinked(items, i, sub.result.value));
    }
  }

  /** `updateFile` keeps every entry pointing at a stored node. */
  lemma {:induction false} UpdateFileKeepsClosed(db: Tables, rootId: FileId, path: Path, newContent: Bytes, updatingTime: int)
    requires Wellformed(db) && Closed(db)
    requires UpdateFile(db, rootId, path, newContent, updatingTime).result.Ok?
    ensures Closed(UpdateFile(db, rootId, path, newContent, updatingTime).db)
    decreases |path|
  {
    if path != [] {
      var s := UpdateFile(db, rootId, path, newContent, updatingTime);
      var items := GetDirectoryContentUnsafe(db, rootId);
      UpdateFileLevel(db, rootId, path, newContent, updatingTime);
      var i := FindIndexByName(items, path[0]).value;
      var sub := UpdateFile(db, items[i].id, path[1..], newContent, updatingTime);
      assert forall it :: it in items ==> it.id in sub.db.filesMetadata by {
        assert forall it :: it in items ==> Edge(rootId, it) in db.directoriesContents;
      }
      UpdateFileKeepsClosed(db, items[i].id, path[1..], newContent, updatingTime);
      AppendKeepsClosed(sub.db, s.db, s.result.value, Relinked(items, i, sub.result.value));
    }
  }

  /** Structural sharing of `updateFile`: every path that parts ways with
      the updated one resolves under the new root exactly as under the old
      root. */
  lemma {:induction false} UpdateFileSharing(db: Tables, rootId: FileId, path: Path, newContent: Bytes,
                                             updatingTime: int, q: Path)
    requires Wellformed(db) && NamesUnique(db) && Closed(db)
    requires UpdateFile(db, rootId, path, newContent, updatingTime).result.Ok?
    requires Diverges(q, path)
    ensures var s := UpdateFile(db, rootId, path, newContent, updatingTime);
            RetrieveFileId(s.db, s.result.value, q) == RetrieveFileId(db, rootId, q)
    decreases |path|
  {
    var s := UpdateFile(db, rootId, path, newContent, updatingTime);
    var r := s.result.value;
    var items := GetDirectoryContentUnsafe(db, rootId);
    UpdateFileLevel(db, rootId, path, newContent, updatingTime);
    var i := FindIndexByName(items, path[0]).value;
    var sub := UpdateFile(db, items[i].id, path[1..], newContent, updatingTime);
    var c := sub.result.value;
    LookupIsFind(s.db, r, q[0]);
    LookupIsFind(db, rootId, q[0]);
    if q[0] == path[0] {
      assert FindByName(GetDirectoryContentUnsafe(s.db, r), q[0]) == Some(Item(c, items[i].name, items[i].btime)) by {
        FindByNameRelinkedSelf(items, i, c);
      }
      assert RetrieveFileId(s.db, c, q[1..]) == RetrieveFileId(db, items[i].id, q[1..]) by {
        UpdateFileSharing(db, items[i].id, path[1..], newContent, updatingTime, q[1..]);
        UpdateFileKeepsClosed(db, items[i].id, path[1..], newContent, updatingTime);
        RetrieveImmutable(sub.db, s.db, c, q[1..]);
      }
    } else {
      assert FindByName(GetDirectoryContentUnsafe(s.db, r), q[0]) == FindByName(items, q[0]) by {
        FindByNameRelinkedOther(items, i, c, q[0]);
      }
      match FindByName(items, q[0])
      case None =>
      case Some(it) =>
        assert it in items;
        RetrieveImmutable(db, s.db, it.id, q[1..]);
    }
  }
}
