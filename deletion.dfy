/** `deleteFile` of the controller: removes the entry a path names by
    rebuilding every directory on the path as a new version without it. */
module Deletion {
  import opened Types
  import opened Store
  import opened Engine

  /** `deleteFile`: `null` for an exhausted path; otherwise the id of the new
      version of `rootId`. The directory holding the last segment loses
      that entry and is stamped with the deletion time as both `rmtime` and
      `mtime`; every directory above it relinks the traversed entry and
      keeps its old `mtime`. Each directory on the way must be stored with
      type 'd' (`FileNotFound` otherwise) and must hold the next segment (a
      failed `assert` otherwise); nothing is written unless the whole path
      checks out. */
  function DeleteFile(db: Tables, rootId: FileId, path: Path, deletionTime: int): (s: Step<Option<FileId>>)
    requires Wellformed(db)
    decreases |path|
    ensures Wellformed(s.db)
    ensures s.result.Err? ==> s.db == db
    ensures path == [] ==> s == Step(Ok(None), db)
    ensures path != [] && s.result.Ok? ==>
              && s.result.value.Some?
              && Extends(db, s.db)
              && |s.db.filesMetadata| == |db.filesMetadata| + |path|
              && IsDirectory(db, rootId)
    ensures path != [] && s.result.Ok? && s.result.value.Some? && IsDirectory(db, rootId) ==>
              DerivedDirectory(db, s.db, s.result.value.value, rootId, deletionTime,
                               if |path| == 1 then deletionTime else db.filesMetadata[rootId].mtime)
  {
    if path == [] then Step(Ok(None), db)
    else
      match GetDirectory(db, rootId)
      case Err(e) => Step(Err(e), db)
      case Ok(parent) =>
        match FindIndexByName(parent.content, path[0])
        case None => Step(Err(AssertionFailed), db)
        case Some(i) =>
          var sub := DeleteFile(db, parent.content[i].id, path[1..], deletionTime);
          if sub.result.Err? then sub
          else if sub.result.value.Some? then
            var content := Relinked(parent.content, i, sub.result.value.value);
            var mtime := parent.metadata.mtime;
            NewDirectoryVersion(db, sub.db, rootId, deletionTime, mtime, content);
            var s := MakeDirectory(sub.db, deletionTime, mtime, content, Some(rootId));
            Step(Ok(Some(s.result.value)), s.db)
          else
            var content := Without(parent.content, i);
            ExtendsReflexive(db);
            NewDirectoryVersion(db, db, rootId, deletionTime, deletionTime, content);
            var s := MakeDirectory(db, deletionTime, deletionTime, content, Some(rootId));
            Step(Ok(Some(s.result.value)), s.db)
  }

  // ---------------------------------------------------------------------
  // find after without

  /** Leaving out one entry does not change what any other name finds. */
  lemma FindByNameWithoutOther(items: DirectoryContent, i: nat, name: string)
    requires i < |items| && name != items[i].name
    ensures FindByName(Without(items, i), name) == FindByName(items, name)
  {
    assert items == items[..i] + ([items[i]] + items[i + 1..]);
    FindByNameAppend(items[..i], [items[i]] + items[i + 1..], name);
    FindByNameCons(items[i], items[i + 1..], name);
    FindByNameAppend(items[..i], items[i + 1..], name);
  }

  /** In a list without repeated names, the name of the entry left out
      finds nothing afterwards. */
  lemma FindByNameWithoutSelf(items: DirectoryContent, i: nat)
    requires i < |items| && NamesDistinct(items)
    ensures FindByName(Without(items, i), items[i].name).None?
  {
    var rest := Without(items, i);
    forall k | 0 <= k < |rest| ensures rest[k].name != items[i].name {
      if k < i {
        assert rest[k] == items[k];
      } else {
        assert rest[k] == items[k + 1];
      }
    }
  }

  /** Leaving out an entry keeps the names of a list distinct. */
  lemma DistinctWithout(items: DirectoryContent, i: nat)
    requires i < |items| && NamesDistinct(items)
    ensures NamesDistinct(Without(items, i))
  {
    var rest := Without(items, i);
    forall a, b | 0 <= a < b < |rest| ensures rest[a].name != rest[b].name {
      var ia := if a < i then a else a + 1;
      var ib := if b < i then b else b + 1;
      assert rest[a] == items[ia] && rest[b] == items[ib];
    }
  }

  /** Splitting a path into its directory part and its last segment, and
      the directory part of its tail. */
  lemma PathInit(path: Path)
    requires path != []
    ensures path[..|path| - 1] + [path[|path| - 1]] == path
    ensures |path| > 1 ==>
              && path[..|path| - 1][0] == path[0]
              && path[..|path| - 1][1..] == path[1..][..|path[1..]| - 1]
              && path[1..][|path[1..]| - 1] == path[|path| - 1]
  {
  }

  // ---------------------------------------------------------------------
  // Lemmas

  /** One level of a successful `deleteFile`: the root is a stored
      directory holding the first segment; the call below succeeded; at the
      last segment the new version holds the old entries without that one,
      above it the traversed entry relinked to the child's new version. */
  lemma DeleteFileLevel(db: Tables, rootId: FileId, path: Path, deletionTime: int)
    requires Wellformed(db)
    requires path != [] && DeleteFile(db, rootId, path, deletionTime).result.Ok?
    ensures IsDirectory(db, rootId)
    ensures var s := DeleteFile(db, rootId, path, deletionTime);
            var items := GetDirectoryContentUnsafe(db, rootId);
            && FindIndexByName(items, path[0]).Some?
            && var i := FindIndexByName(items, path[0]).value;
               var sub := DeleteFile(db, items[i].id, path[1..], deletionTime);
               && sub.result.Ok?
               && Extends(sub.db, s.db)
               && s.result.value.value !in sub.db.filesMetadata
               && (path[1..] == [] ==>
                     && sub == Step(Ok(None), db)
                     && GetDirectoryContentUnsafe(s.db, s.result.value.value) == Without(items, i)
                     && s.db.directoriesContents ==
                          db.directoriesContents + EdgesOf(s.result.value.value, Without(items, i)))
               && (path[1..] != [] ==>
                     && sub.result.value.Some?
                     && GetDirectoryContentUnsafe(s.db, s.result.value.value) ==
                          Relinked(items, i, sub.result.value.value)
                     && s.db.directoriesContents ==
                          sub.db.directoriesContents + EdgesOf(s.result.value.value, Relinked(items, i, sub.result.value.value)))
  {
    var items := GetDirectoryContentUnsafe(db, rootId);
    var i := FindIndexByName(items, path[0]).value;
    var sub := DeleteFile(db, items[i].id, path[1..], deletionTime);
    if path[1..] == [] {
      ExtendsReflexive(db);
      NewDirectoryVersion(db, db, rootId, deletionTime, deletionTime, Without(items, i));
    } else {
      NewDirectoryVersion(db, sub.db, rootId, deletionTime, db.filesMetadata[rootId].mtime,
                          Relinked(items, i, sub.result.value.value));
    }
  }

  /** `deleteFile` on a non-empty path succeeds exactly when the path
      resolves: every directory it passes then holds the next segment. */
  lemma {:induction false} DeleteFileSucceeds(db: Tables, rootId: FileId, path: Path, deletionTime: int)
    requires Wellformed(db) && path != []
    ensures DeleteFile(db, rootId, path, deletionTime).result.Ok? <==> RetrieveFileId(db, rootId, path).Ok?
    decreases |path|
  {
    var items := GetDirectoryContentUnsafe(db, rootId);
    RetrieveStep(db, rootId, path);
    if !IsDirectory(db, rootId) {
      NoRowsUnlessDirectory(db, rootId);
    } else {
      match FindIndexByName(items, path[0])
      case None =>
      case Some(i) =>
        var sub := DeleteFile(db, items[i].id, path[1..], deletionTime);
        if path[1..] == [] {
          ExtendsReflexive(db);
          NewDirectoryVersion(db, db, rootId, deletionTime, deletionTime, Without(items, i));
        } else {
          DeleteFileSucceeds(db, items[i].id, path[1..], deletionTime);
          if sub.result.Ok? {
            NewDirectoryVersion(db, sub.db, rootId, deletionTime, db.filesMetadata[rootId].mtime,
                                Relinked(items, i, sub.result.value.value));
          }
        }
    }
  }

  /** `d2` is a version of the stored directory `d` written at `time`, with
      `time` as its `mtime` too, whose entries are those of `d` without the
      first one named `name`, the others in their order. */
  ghost predicate LostEntry(before: Tables, after: Tables, d: FileId, d2: FileId, name: string, time: int) {
    var items := GetDirectoryContentUnsafe(before, d);
    && FindIndexByName(items, name).Some?
    && DerivedDirectory(before, after, d2, d, time, time)
    && GetDirectoryContentUnsafe(after, d2) == Without(items, FindIndexByName(items, name).value)
  }

  /** Later appends leave a written version as it is. */
  lemma LostEntryStable(before: Tables, mid: Tables, after: Tables, d: FileId, d2: FileId, name: string, time: int)
    requires Wellformed(mid) && Extends(mid, after)
    requires LostEntry(before, mid, d, d2, name, time)
    ensures LostEntry(before, after, d, d2, name, time)
  {
    ChildrenStable(mid, after, d2);
  }

  /** The directory that directly loses the entry: its new version is
      derived from the old one, stamped with the deletion time as both
      `rmtime` and `mtime`, and holds the old entries without the one named
      by the last segment, the others in their order. */
  lemma {:induction false} DeleteFileTarget(db: Tables, rootId: FileId, path: Path, deletionTime: int)
    requires Wellformed(db) && NamesUnique(db)
    requires path != [] && DeleteFile(db, rootId, path, deletionTime).result.Ok?
    ensures var s := DeleteFile(db, rootId, path, deletionTime);
            var dirPath := path[..|path| - 1];
            var d := RetrieveFileId(db, rootId, dirPath);
            var d2 := RetrieveFileId(s.db, s.result.value.value, dirPath);
            d.Ok? && d2.Ok? && LostEntry(db, s.db, d.value, d2.value, path[|path| - 1], deletionTime)
    decreases |path|
  {
    var s := DeleteFile(db, rootId, path, deletionTime);
    var r := s.result.value.value;
    var items := GetDirectoryContentUnsafe(db, rootId);
    if |path| == 1 {
      DeleteFileLevel(db, rootId, path, deletionTime);
      assert path[..0] == [];
    } else {
      DeleteFileLevel(db, rootId, path, deletionTime);
      var i := FindIndexByName(items, path[0]).value;
      var sub := DeleteFile(db, items[i].id, path[1..], deletionTime);
      var c := sub.result.value.value;
      var dirPath := path[..|path| - 1];
      PathInit(path);
      DeleteFileTarget(db, items[i].id, path[1..], deletionTime);
      var d := RetrieveFileId(db, items[i].id, dirPath[1..]).value;
      var d2 := RetrieveFileId(sub.db, c, dirPath[1..]).value;
      LostEntryStable(db, sub.db, s.db, d, d2, path[|path| - 1], deletionTime);
      assert RetrieveFileId(db, rootId, dirPath) == Ok(d) by {
        RetrieveStep(db, rootId, dirPath);
      }
      assert RetrieveFileId(s.db, r, dirPath) == Ok(d2) by {
        FindByNameRelinkedSelf(items, i, c);
        RetrieveStep(s.db, r, dirPath);
        RetrieveStable(sub.db, s.db, c, dirPath[1..]);
      }
    }
  }

  /** After a successful `deleteFile` the deleted path no longer resolves
      under the new root. */
  lemma DeleteFileRemoved(db: Tables, rootId: FileId, path: Path, deletionTime: int)
    requires Wellformed(db) && NamesUnique(db)
    requires path != [] && DeleteFile(db, rootId, path, deletionTime).result.Ok?
    ensures var s := DeleteFile(db, rootId, path, deletionTime);
            RetrieveFileId(s.db, s.result.value.value, path) == Err(FileNotFound)
  {
    var s := DeleteFile(db, rootId, path, deletionTime);
    var r := s.result.value.value;
    var dirPath := path[..|path| - 1];
    var last := path[|path| - 1];
    DeleteFileTarget(db, rootId, path, deletionTime);
    var d := RetrieveFileId(db, rootId, dirPath).value;
    var d2 := RetrieveFileId(s.db, r, dirPath).value;
    assert RetrieveFileId(s.db, d2, [last]) == Err(FileNotFound) by {
      var items := GetDirectoryContentUnsafe(db, d);
      var i := FindIndexByName(items, last).value;
      assert NamesDistinct(items);
      FindByNameWithoutSelf(items, i);
      RetrieveStep(s.db, d2, [last]);
    }
    PathInit(path);
    RetrieveAppend(s.db, r, dirPath, [last]);
  }

  /** Every directory above the one that loses the entry gets a new version
      derived from the old one, written at the deletion time, keeping its
      old `mtime`, whose entries are the old ones with only the traversed
      entry relinked. */
  lemma {:induction false} DeleteFileAncestor(db: Tables, rootId: FileId, path: Path, deletionTime: int, k: nat)
    requires Wellformed(db) && NamesUnique(db)
    requires path != [] && DeleteFile(db, rootId, path, deletionTime).result.Ok?
    requires k < |path| - 1
    ensures var s := DeleteFile(db, rootId, path, deletionTime);
            RebuiltAncestor(db, s.db, rootId, s.result.value.value, path, k, deletionTime)
    decreases k
  {
    var s := DeleteFile(db, rootId, path, deletionTime);
    var r := s.result.value.value;
    var items := GetDirectoryContentUnsafe(db, rootId);
    DeleteFileLevel(db, rootId, path, deletionTime);
    var i := FindIndexByName(items, path[0]).value;
    var sub := DeleteFile(db, items[i].id, path[1..], deletionTime);
    var c := sub.result.value.value;
    assert FindByName(GetDirectoryContentUnsafe(s.db, r), path[0]) == Some(Item(c, items[i].name, items[i].btime)) by {
      FindByNameRelinkedSelf(items, i, c);
    }
    assert NamesDistinct(items);
    if k == 0 {
      PathPrefix(path, 1);
      assert RetrieveFileId(s.db, r, path[..1]) == Ok(c) by {
        RetrieveStep(s.db, r, path[..1]);
      }
      assert path[..0] == [];
    } else {
      DeleteFileAncestor(db, items[i].id, path[1..], deletionTime, k - 1);
      OldPathStep(db, rootId, i, path, k);
      NewPathStep(sub.db, s.db, r, items, i, c, path, k);
      NewPathStep(sub.db, s.db, r, items, i, c, path, k + 1);
      RebuiltAncestorLift(db, sub.db, s.db, rootId, r, items[i].id, c, path, k, deletionTime);
    }
  }

  /** `deleteFile` never puts two entries with the same name in one
      directory. */
  lemma {:induction false} DeleteFileKeepsNames(db: Tables, rootId: FileId, path: Path, deletionTime: int)
    requires Wellformed(db) && NamesUnique(db)
    requires DeleteFile(db, rootId, path, deletionTime).result.Ok?
    ensures NamesUnique(DeleteFile(db, rootId, path, deletionTime).db)
    decreases |path|
  {
    if path != [] {
      var s := DeleteFile(db, rootId, path, deletionTime);
      var items := GetDirectoryContentUnsafe(db, rootId);
      assert NamesDistinct(items);
      DeleteFileLevel(db, rootId, path, deletionTime);
      var i := FindIndexByName(items, path[0]).value;
      if path[1..] == [] {
        DistinctWithout(items, i);
        AppendKeepsNames(db, s.db, s.result.value.value, Without(items, i));
      } else {
        DeleteFileKeepsNames(db, items[i].id, path[1..], deletionTime);
        var sub := DeleteFile(db, items[i].id, path[1..], deletionTime);
        DistinctRelinked(items, i, sub.result.value.value);
        AppendKeepsNames(sub.db, s.db, s.result.value.value, Relinked(items, i, sub.result.value.value));
      }
    }
  }

  /** The entries of a directory point at nodes that stay stored. */
  lemma EntriesStored(db: Tables, later: Tables, id: FileId)
    requires Closed(db) && Extends(db, later)
    ensures forall it :: it in GetDirectoryContentUnsafe(db, id) ==> it.id in later.filesMetadata
  {
    assert forall it :: it in GetDirectoryContentUnsafe(db, id) ==> Edge(id, it) in db.directoriesContents;
  }

  lemma WithoutSubset(items: DirectoryContent, i: nat)
    requires i < |items|
    ensures forall it :: it in Without(items, i) ==> it in items
  {
  }

  /** `deleteFile` keeps every entry pointing at a stored node. */
  lemma {:induction false} DeleteFileKeepsClosed(db: Tables, rootId: FileId, path: Path, deletionTime: int)
    requires Wellformed(db) && Closed(db)
    requires DeleteFile(db, rootId, path, deletionTime).result.Ok?
    ensures Closed(DeleteFile(db, rootId, path, deletionTime).db)
    decreases |path|
  {
    if path != [] {
      var s := DeleteFile(db, rootId, path, deletionTime);
      var items := GetDirectoryContentUnsafe(db, rootId);
      DeleteFileLevel(db, rootId, path, deletionTime);
      var i := FindIndexByName(items, path[0]).value;
      var sub := DeleteFile(db, items[i].id, path[1..], deletionTime);
      var r := s.result.value.value;
      if path[1..] == [] {
        ExtendsReflexive(db);
        EntriesStored(db, db, rootId);
        WithoutSubset(items, i);
        AppendKeepsClosed(db, s.db, r, Without(items, i));
      } else {
        var c := sub.result.value.value;
        DeleteFileKeepsClosed(db, items[i].id, path[1..], deletionTime);
        EntriesStored(db, sub.db, rootId);
        assert c in sub.db.filesMetadata;
        AppendKeepsClosed(sub.db, s.db, r, Relinked(items, i, c));
      }
    }
  }

  /** Structural sharing of `deleteFile`: every path that parts ways with
      the deleted one resolves under the new root exactly as under the old
      root. */
  lemma {:induction false} DeleteFileSharing(db: Tables, rootId: FileId, path: Path, deletionTime: int, q: Path)
    requires Wellformed(db) && NamesUnique(db) && Closed(db)
    requires DeleteFile(db, rootId, path, deletionTime).result.Ok?
    requires Diverges(q, path)
    ensures var s := DeleteFile(db, rootId, path, deletionTime);
            RetrieveFileId(s.db, s.result.value.value, q) == RetrieveFileId(db, rootId, q)
    decreases |path|
  {
    var s := DeleteFile(db, rootId, path, deletionTime);
    var r := s.result.value.value;
    var items := GetDirectoryContentUnsafe(db, rootId);
    DeleteFileLevel(db, rootId, path, deletionTime);
    var i := FindIndexByName(items, path[0]).value;
    var sub := DeleteFile(db, items[i].id, path[1..], deletionTime);
    LookupIsFind(s.db, r, q[0]);
    LookupIsFind(db, rootId, q[0]);
    if q[0] == path[0] {
      var c := sub.result.value.value;
      assert FindByName(GetDirectoryContentUnsafe(s.db, r), q[0]) == Some(Item(c, items[i].name, items[i].btime)) by {
        FindByNameRelinkedSelf(items, i, c);
      }
      assert RetrieveFileId(s.db, c, q[1..]) == RetrieveFileId(db, items[i].id, q[1..]) by {
        DeleteFileSharing(db, items[i].id, path[1..], deletionTime, q[1..]);
        DeleteFileKeepsClosed(db, items[i].id, path[1..], deletionTime);
        RetrieveImmutable(sub.db, s.db, c, q[1..]);
      }
    } else {
      assert FindByName(GetDirectoryContentUnsafe(s.db, r), q[0]) == FindByName(items, q[0]) by {
        if path[1..] == [] {
          FindByNameWithoutOther(items, i, q[0]);
        } else {
          FindByNameRelinkedOther(items, i, sub.result.value.value, q[0]);
        }
      }
      match FindByName(items, q[0])
      case None =>
      case Some(it) =>
        assert it in items;
        RetrieveImmutable(db, s.db, it.id, q[1..]);
    }
  }
}
