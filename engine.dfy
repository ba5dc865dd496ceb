/** The path engine of the controller: resolving a path from a root, and
    the copy-on-write create, delete and update operations. Each operation
    rebuilds every directory on the path as a new version derived from the
    old one and returns the id of the new root; nothing stored is ever
    changed. Each is a function from the tables before the call to its
    result and the tables after it. */
module Engine {
  import opened Types
  import opened Store

  /** A path iterator, as the sequence of the segments it will yield. */
  type Path = seq<string>

  /** `parentContent.find(child => child.name === name)`: the first item
      with that name. */
  function FindByName(items: DirectoryContent, name: string): (r: Option<DirectoryContentItem>)
    ensures r.Some? <==> exists k :: 0 <= k < |items| && items[k].name == name
    ensures r.Some? ==> r.value in items && r.value.name == name
  {
    match FindIndexByName(items, name)
    case Some(k) => Some(items[k])
    case None => None
  }

  /** lodash `without(item)` applied to the item `find` returned at index
      `i`: the same entries in the same order, that one left out. */
  function Without(items: DirectoryContent, i: nat): (rest: DirectoryContent)
    requires i < |items|
    ensures |rest| == |items| - 1
  {
    items[..i] + items[i + 1..]
  }

  /** The rebuilt list of a parent: the traversed entry at `i` is removed and
      re-pushed at the end under the same name and creation time, pointing
      at the child's new version. */
  function Relinked(items: DirectoryContent, i: nat, newChildId: FileId): (r: DirectoryContent)
    requires i < |items|
    ensures |r| == |items|
    ensures forall it :: it in r ==> it in items || it == Item(newChildId, items[i].name, items[i].btime)
  {
    Without(items, i) + [Item(newChildId, items[i].name, items[i].btime)]
  }

  /** A stored node of type 'd'. */
  ghost predicate IsDirectory(db: Tables, id: FileId) {
    id in db.filesMetadata && db.filesMetadata[id].fileType == DirectoryType
  }

  /** Every directory entry points at a stored node. */
  ghost predicate Closed(db: Tables) {
    forall e :: e in db.directoriesContents ==> e.item.id in db.filesMetadata
  }

  /** No directory holds two entries with the same name. */
  ghost predicate NamesUnique(db: Tables) {
    forall id :: NamesDistinct(Rows(db.directoriesContents, id))
  }

  /** `newId` is a version written by the call, derived from the stored
      directory `oldId`: it records `oldId` as its previous version, keeps
      its first version, and carries the given times. */
  ghost predicate DerivedDirectory(before: Tables, after: Tables, newId: FileId, oldId: FileId, rmtime: int, mtime: int) {
    && oldId in before.filesMetadata
    && newId !in before.filesMetadata
    && newId in after.filesMetadata
    && after.filesMetadata[newId] ==
         FileMetadata(newId, DirectoryType, rmtime, mtime, Some(oldId), before.filesMetadata[oldId].firstVersionId)
  }

  /** `q` and `p` part ways: after a common prefix they name different
      entries at the same depth. */
  predicate Diverges(q: Path, p: Path) {
    q != [] && p != [] && (q[0] != p[0] || Diverges(q[1..], p[1..]))
  }


  /** Splitting the first segment off a path extended by one name. */
  lemma PathSnoc(dirPath: Path, name: string)
    ensures dirPath == [] ==> dirPath + [name] == [name]
    ensures dirPath != [] ==> (dirPath + [name])[0] == dirPath[0] && (dirPath + [name])[1..] == dirPath[1..] + [name]
  {
  }


  /** Splitting the first segment off a prefix of a path. */
  lemma PathPrefix(path: Path, k: nat)
    requires 0 < k <= |path|
    ensures path[..k] != [] && path[..k][0] == path[0] && path[..k][1..] == path[1..][..k - 1]
  {
  }


  /** The directory that `path[..k]` reaches under the old root, and its
      counterpart under the new root: the new one is a version of the old
      one written at `time` that keeps the old `mtime`, and its entries are
      the old ones with the entry named `path[k]` relinked to what
      `path[..k + 1]` reaches under the new root. */
  ghost predicate RebuiltAncestor(before: Tables, after: Tables, oldRoot: FileId, newRoot: FileId,
                                  path: Path, k: nat, time: int)
    requires k < |path|
  {
    var a := RetrieveFileId(before, oldRoot, path[..k]);
    var a2 := RetrieveFileId(after, newRoot, path[..k]);
    var c := RetrieveFileId(after, newRoot, path[..k + 1]);
    && a.Ok? && a2.Ok? && c.Ok?
    && IsDirectory(before, a.value)
    && var items := GetDirectoryContentUnsafe(before, a.value);
       && FindIndexByName(items, path[k]).Some?
       && DerivedDirectory(before, after, a2.value, a.value, time, before.filesMetadata[a.value].mtime)
       && GetDirectoryContentUnsafe(after, a2.value) == Relinked(items, FindIndexByName(items, path[k]).value, c.value)
  }


  // ---------------------------------------------------------------------
  // find, without and push

  lemma FindByNameCons(x: DirectoryContentItem, rest: DirectoryContent, name: string)
    ensures FindByName([x] + rest, name) == if x.name == name then Some(x) else FindByName(rest, name)
  {
    assert ([x] + rest)[1..] == rest;
  }

  /** `find` on a concatenation looks in the second part only when the first
      part has no match. */
  lemma {:induction false} FindByNameAppend(a: DirectoryContent, b: DirectoryContent, name: string)
    ensures FindByName(a + b, name) == if FindByName(a, name).Some? then FindByName(a, name) else FindByName(b, name)
  {
    if a == [] {
      assert a + b == b;
    } else {
      assert a + b == [a[0]] + (a[1..] + b);
      assert a == [a[0]] + a[1..];
      FindByNameCons(a[0], a[1..] + b, name);
      FindByNameCons(a[0], a[1..], name);
      FindByNameAppend(a[1..], b, name);
    }
  }

  /** Relinking the traversed entry does not change which entry any other
      name finds: the siblings keep their order. */
  lemma FindByNameRelinkedOther(items: DirectoryContent, i: nat, newChildId: FileId, name: string)
    requires i < |items| && name != items[i].name
    ensures FindByName(Relinked(items, i, newChildId), name) == FindByName(items, name)
  {
    var moved := Item(newChildId, items[i].name, items[i].btime);
    assert items == items[..i] + ([items[i]] + items[i + 1..]);
    FindByNameAppend(items[..i], [items[i]] + items[i + 1..], name);
    FindByNameCons(items[i], items[i + 1..], name);
    FindByNameAppend(items[..i], items[i + 1..], name);
    FindByNameAppend(Without(items, i), [moved], name);
    FindByNameCons(moved, [], name);
    assert FindByName([], name) == None;
  }

  /** In a list without repeated names, the relinked entry is what its name
      finds afterwards. */
  lemma FindByNameRelinkedSelf(items: DirectoryContent, i: nat, newChildId: FileId)
    requires i < |items| && NamesDistinct(items)
    ensures FindByName(Relinked(items, i, newChildId), items[i].name) == Some(Item(newChildId, items[i].name, items[i].btime))
  {
    var name := items[i].name;
    var moved := Item(newChildId, name, items[i].btime);
    var rest := Without(items, i);
    assert forall k :: 0 <= k < |rest| ==> rest[k].name != name by {
      forall k | 0 <= k < |rest| ensures rest[k].name != name {
        if k < i {
          assert rest[k] == items[k];
        } else {
          assert rest[k] == items[k + 1];
        }
      }
    }
    FindByNameAppend(rest, [moved], name);
    FindByNameCons(moved, [], name);
  }

  /** Pushing an entry under a name nobody has makes it what that name finds. */
  lemma FindByNamePushed(items: DirectoryContent, item: DirectoryContentItem)
    requires FindByName(items, item.name).None?
    ensures FindByName(items + [item], item.name) == Some(item)
  {
    FindByNameAppend(items, [item], item.name);
    FindByNameCons(item, [], item.name);
  }

  /** `getDirectoryContentItemByName` is `find` over the rows of the parent. */
  lemma LookupIsFind(db: Tables, parentId: FileId, name: string)
    ensures GetDirectoryContentItemByName(db, parentId, name) ==
              match FindByName(GetDirectoryContentUnsafe(db, parentId), name)
              case Some(item) => Ok(item)
              case None => Err(FileNotFound)
  {
  }

  // ---------------------------------------------------------------------
  // retrieveFileId

  /** `retrieveFileId`: the root itself for an exhausted path, otherwise the
      id found by descending one named entry per segment; `FileNotFound` at
      the first segment that names no entry. */
  function RetrieveFileId(db: Tables, rootId: FileId, path: Path): (r: Result<FileId>)
    decreases |path|
    ensures path == [] ==> r == Ok(rootId)
    ensures r.Err? ==> r.error == FileNotFound && path != []
    ensures r.Ok? && path != [] ==>
              exists e :: e in db.directoriesContents && e.item.id == r.value && e.item.name == path[|path| - 1]
  {
    if path == [] then Ok(rootId)
    else
      var child :- GetDirectoryContentItemByName(db, rootId, path[0]);
      var r := RetrieveFileId(db, child.id, path[1..]);
      if r.Ok? && path[1..] == [] then
        assert Edge(rootId, child) in db.directoriesContents;
        r
      else
        r
  }

  /** One step of `retrieveFileId`, through `find` on the parent's rows. */
  lemma RetrieveStep(db: Tables, parentId: FileId, path: Path)
    requires path != []
    ensures RetrieveFileId(db, parentId, path) ==
              match FindByName(GetDirectoryContentUnsafe(db, parentId), path[0])
              case Some(child) => RetrieveFileId(db, child.id, path[1..])
              case None => Err(FileNotFound)
  {
    LookupIsFind(db, parentId, path[0]);
  }

  /** Resolving `p + q` resolves `p` and then `q` from where `p` ended. */
  lemma {:induction false} RetrieveAppend(db: Tables, rootId: FileId, p: Path, q: Path)
    ensures RetrieveFileId(db, rootId, p + q) ==
              match RetrieveFileId(db, rootId, p)
              case Ok(id) => RetrieveFileId(db, id, q)
              case Err(e) => Err(e)
    decreases |p|
  {
    if p == [] {
      assert p + q == q;
    } else {
      assert (p + q)[0] == p[0] && (p + q)[1..] == p[1..] + q;
      match GetDirectoryContentItemByName(db, rootId, p[0])
      case Err(_) =>
      case Ok(child) =>
        RetrieveAppend(db, child.id, p[1..], q);
    }
  }

  /** Once a path resolves, it resolves to the same id in every later state
      of the store: the rows under a stored directory never change. */
  lemma {:induction false} RetrieveStable(before: Tables, after: Tables, rootId: FileId, path: Path)
    requires Wellformed(before) && Extends(before, after)
    requires RetrieveFileId(before, rootId, path).Ok?
    ensures RetrieveFileId(after, rootId, path) == RetrieveFileId(before, rootId, path)
    decreases |path|
  {
    if path != [] {
      var child := GetDirectoryContentItemByName(before, rootId, path[0]).value;
      assert child in GetDirectoryContentUnsafe(before, rootId);
      ChildrenStable(before, after, rootId);
      RetrieveStable(before, after, child.id, path[1..]);
    }
  }

  /** Old roots are immutable: in a store whose entries all point at stored
      nodes, every path under a stored root resolves, or fails, exactly as it
      did, whatever was appended since. */
  lemma {:induction false} RetrieveImmutable(before: Tables, after: Tables, rootId: FileId, path: Path)
    requires Wellformed(before) && Closed(before) && Extends(before, after)
    requires rootId in before.filesMetadata
    ensures RetrieveFileId(after, rootId, path) == RetrieveFileId(before, rootId, path)
    decreases |path|
  {
    if path != [] {
      ChildrenStable(before, after, rootId);
      match GetDirectoryContentItemByName(before, rootId, path[0])
      case Err(_) =>
      case Ok(child) =>
        RetrieveImmutable(before, after, child.id, path[1..]);
    }
  }

  // ---------------------------------------------------------------------
  // createFileFromId

  /** Writing a new version of the stored directory `oldId` into any later
      state `mid` of the store always succeeds, appends one node derived from
      `oldId`, and stores exactly the given items under it. */
  lemma NewDirectoryVersion(db: Tables, mid: Tables, oldId: FileId, rmtime: int, mtime: int, content: DirectoryContent)
    requires Wellformed(db) && Wellformed(mid) && Extends(db, mid) && oldId in db.filesMetadata
    ensures var s := MakeDirectory(mid, rmtime, mtime, content, Some(oldId));
            && s.result.Ok?
            && Extends(mid, s.db) && Extends(db, s.db)
            && |s.db.filesMetadata| == |mid.filesMetadata| + 1
            && DerivedDirectory(db, s.db, s.result.value, oldId, rmtime, mtime)
            && GetDirectoryContentUnsafe(s.db, s.result.value) == content
            && s.result.value !in mid.filesMetadata
            && s.db.directoriesContents == mid.directoriesContents + EdgesOf(s.result.value, content)
  {
    var s := MakeDirectory(mid, rmtime, mtime, content, Some(oldId));
    MakeDirectoryRoundTrip(mid, rmtime, mtime, content, Some(oldId));
    ExtendsTransitive(db, mid, s.db);
  }


  /** Pushing a free name keeps the names of a list distinct. */
  lemma DistinctPushed(items: DirectoryContent, item: DirectoryContentItem)
    requires NamesDistinct(items) && FindByName(items, item.name).None?
    ensures NamesDistinct(items + [item])
  {
    var r := items + [item];
    forall i, j | 0 <= i < j < |r| ensures r[i].name != r[j].name {
      if j == |items| {
        assert r[i] == items[i];
      } else {
        assert r[i] == items[i] && r[j] == items[j];
      }
    }
  }

  /** Relinking an entry keeps the names of a list distinct. */
  lemma DistinctRelinked(items: DirectoryContent, i: nat, newChildId: FileId)
    requires i < |items| && NamesDistinct(items)
    ensures NamesDistinct(Relinked(items, i, newChildId))
  {
    var r := Relinked(items, i, newChildId);
    var rest := Without(items, i);
    // position of r[k] in items
    forall a, b | 0 <= a < b < |r| ensures r[a].name != r[b].name {
      var ia := if a < i then a else a + 1;
      assert r[a].name == items[ia].name;
      if b == |r| - 1 {
        assert r[b].name == items[i].name;
        assert ia != i;
      } else {
        var ib := if b < i then b else b + 1;
        assert r[b].name == items[ib].name;
        assert ia < ib;
      }
    }
  }

  /** Appending the rows of a new directory whose items have distinct names
      keeps every directory free of repeated names. */
  lemma AppendKeepsNames(mid: Tables, after: Tables, id: FileId, content: DirectoryContent)
    requires Wellformed(mid) && NamesUnique(mid) && NamesDistinct(content)
    requires id !in mid.filesMetadata
    requires after.directoriesContents == mid.directoriesContents + EdgesOf(id, content)
    ensures NamesUnique(after)
  {
    var added := EdgesOf(id, content);
    forall x ensures NamesDistinct(Rows(after.directoriesContents, x)) {
      RowsAppend(mid.directoriesContents, added, x);
      if x == id {
        assert forall e :: e in mid.directoriesContents ==> e.parentId != id;
        RowsAbsent(mid.directoriesContents, id);
        RowsOfEdges(id, content);
        assert Rows(after.directoriesContents, x) == content;
      } else {
        RowsAbsent(added, x);
        assert Rows(after.directoriesContents, x) == Rows(mid.directoriesContents, x);
      }
    }
  }

  /** Appending the rows of a new directory whose items point at stored
      nodes keeps every entry pointing at a stored node. */
  lemma AppendKeepsClosed(mid: Tables, after: Tables, id: FileId, content: DirectoryContent)
    requires Closed(mid) && forall it :: it in content ==> it.id in mid.filesMetadata
    requires Extends(mid, after)
    requires after.directoriesContents == mid.directoriesContents + EdgesOf(id, content)
    ensures Closed(after)
  {
    var added := EdgesOf(id, content);
    forall e | e in after.directoriesContents ensures e.item.id in after.filesMetadata {
      if e !in mid.directoriesContents {
        var k :| 0 <= k < |after.directoriesContents| && after.directoriesContents[k] == e;
        assert k >= |mid.directoriesContents|;
        assert e == added[k - |mid.directoriesContents|];
        assert e.item in content;
      }
    }
  }

  /** `createFileFromId`: links the node `newFileId` under `name` in the
      directory that `dirPath` leads to, rebuilding every directory on the
      way as a new version of the old one, and returns the new root. At the
      target the name must be free; each directory on the way must be
      stored with type 'd' (`FileNotFound` otherwise) and must hold the next
      segment (a failed `assert` otherwise). Nothing is written unless the
      whole path checks out, since every write happens on the way back up. */
  function CreateFileFromId(db: Tables, rootId: FileId, dirPath: Path, name: string,
                            newFileId: FileId, creationTime: int): (s: Step<FileId>)
    requires Wellformed(db)
    decreases |dirPath|
    ensures Wellformed(s.db)
    ensures s.result.Err? ==> s.db == db
    ensures s.result.Ok? ==> Extends(db, s.db) && |s.db.filesMetadata| == |db.filesMetadata| + |dirPath| + 1
    ensures s.result.Ok? ==> IsDirectory(db, rootId)
    ensures s.result.Ok? && IsDirectory(db, rootId) ==>
              DerivedDirectory(db, s.db, s.result.value, rootId, creationTime,
                               if dirPath == [] then creationTime else db.filesMetadata[rootId].mtime)
  {
    match GetDirectory(db, rootId)
    case Err(e) => Step(Err(e), db)
    case Ok(parent) =>
      if dirPath == [] then
        if FindByName(parent.content, name).Some? then Step(Err(AssertionFailed), db)
        else
          var content := parent.content + [Item(newFileId, name, creationTime)];
          ExtendsReflexive(db);
          NewDirectoryVersion(db, db, rootId, creationTime, creationTime, content);
          var s := MakeDirectory(db, creationTime, creationTime, content, Some(rootId));
          assert DerivedDirectory(db, s.db, s.result.value, rootId, creationTime, creationTime);
          s
      else
        match FindIndexByName(parent.content, dirPath[0])
        case None => Step(Err(AssertionFailed), db)
        case Some(i) =>
          var sub := CreateFileFromId(db, parent.content[i].id, dirPath[1..], name, newFileId, creationTime);
          if sub.result.Err? then sub
          else
            var content := Relinked(parent.content, i, sub.result.value);
            var mtime := db.filesMetadata[rootId].mtime;
            NewDirectoryVersion(db, sub.db, rootId, creationTime, mtime, content);
            var s := MakeDirectory(sub.db, creationTime, mtime, content, Some(rootId));
            assert DerivedDirectory(db, s.db, s.result.value, rootId, creationTime, mtime);
            s
  }

  /** A stored node without directory type has no entries. */
  lemma NoRowsUnlessDirectory(db: Tables, id: FileId)
    requires Wellformed(db) && !IsDirectory(db, id)
    ensures GetDirectoryContentUnsafe(db, id) == []
  {
    if GetDirectoryContentUnsafe(db, id) != [] {
      RowsHaveStoredParent(db, id);
    }
  }

  /** `dirPath` leads to a stored directory. */
  ghost predicate ResolvesToDirectory(db: Tables, rootId: FileId, dirPath: Path) {
    RetrieveFileId(db, rootId, dirPath).Ok? && IsDirectory(db, RetrieveFileId(db, rootId, dirPath).value)
  }

  /** The directory `dirPath` leads to exists and has no entry `name`. */
  ghost predicate NameFreeAt(db: Tables, rootId: FileId, dirPath: Path, name: string) {
    match RetrieveFileId(db, rootId, dirPath)
    case Ok(d) => IsDirectory(db, d) && FindByName(GetDirectoryContentUnsafe(db, d), name).None?
    case Err(_) => false
  }

  /** `createFileFromId` succeeds exactly when the path resolves to a
      directory in which the name is free; when the path resolves to a
      directory that already has the name, the failure is the bare
      `assert`, not `ErrorFileAlreadyExists`. */
  lemma {:induction false} CreateFileFromIdSucceeds(db: Tables, rootId: FileId, dirPath: Path, name: string,
                                                    newFileId: FileId, creationTime: int)
    requires Wellformed(db)
    ensures var s := CreateFileFromId(db, rootId, dirPath, name, newFileId, creationTime);
            s.result.Ok? <==> NameFreeAt(db, rootId, dirPath, name)
    decreases |dirPath|
  {
    var s := CreateFileFromId(db, rootId, dirPath, name, newFileId, creationTime);
    if !IsDirectory(db, rootId) {
      NoRowsUnlessDirectory(db, rootId);
    } else if dirPath == [] {
      var content := GetDirectoryContentUnsafe(db, rootId) + [Item(newFileId, name, creationTime)];
      ExtendsReflexive(db);
      NewDirectoryVersion(db, db, rootId, creationTime, creationTime, content);
    } else {
      var items := GetDirectoryContentUnsafe(db, rootId);
      match FindIndexByName(items, dirPath[0])
      case None =>
      case Some(i) =>
        CreateFileFromIdSucceeds(db, items[i].id, dirPath[1..], name, newFileId, creationTime);
        var sub := CreateFileFromId(db, items[i].id, dirPath[1..], name, newFileId, creationTime);
        if sub.result.Ok? {
          NewDirectoryVersion(db, sub.db, rootId, creationTime, db.filesMetadata[rootId].mtime,
                              Relinked(items, i, sub.result.value));
        }
    }
  }

  /** An existing name at the target is reported by the bare `assert`, not
      as `ErrorFileAlreadyExists`, and nothing is written. */
  lemma {:induction false} CreateFileFromIdConflict(db: Tables, rootId: FileId, dirPath: Path, name: string,
                                                    newFileId: FileId, creationTime: int)
    requires Wellformed(db) && ResolvesToDirectory(db, rootId, dirPath)
    requires FindByName(GetDirectoryContentUnsafe(db, RetrieveFileId(db, rootId, dirPath).value), name).Some?
    ensures CreateFileFromId(db, rootId, dirPath, name, newFileId, creationTime) == Step(Err(AssertionFailed), db)
    decreases |dirPath|
  {
    if dirPath != [] {
      var items := GetDirectoryContentUnsafe(db, rootId);
      var child := GetDirectoryContentItemByName(db, rootId, dirPath[0]).value;
      assert child in items;
      RowsHaveStoredParent(db, rootId);
      var i := FindIndexByName(items, dirPath[0]).value;
      CreateFileFromIdConflict(db, items[i].id, dirPath[1..], name, newFileId, creationTime);
    }
  }

  /** One level of a successful `createFileFromId`: the root is a stored
      directory; at the target the name was free and the new version holds
      the old entries followed by the new one; above it the segment was
      found, the call below succeeded, and the new version holds the old
      entries with the traversed one relinked to the child's new version. */
  lemma CreateFileFromIdLevel(db: Tables, rootId: FileId, dirPath: Path, name: string,
                              newFileId: FileId, creationTime: int)
    requires Wellformed(db)
    requires CreateFileFromId(db, rootId, dirPath, name, newFileId, creationTime).result.Ok?
    ensures IsDirectory(db, rootId)
    ensures var s := CreateFileFromId(db, rootId, dirPath, name, newFileId, creationTime);
            var items := GetDirectoryContentUnsafe(db, rootId);
            dirPath == [] ==>
              && FindByName(items, name).None?
              && GetDirectoryContentUnsafe(s.db, s.result.value) == items + [Item(newFileId, name, creationTime)]
              && s.result.value !in db.filesMetadata
              && s.db.directoriesContents ==
                   db.directoriesContents + EdgesOf(s.result.value, items + [Item(newFileId, name, creationTime)])
    ensures var s := CreateFileFromId(db, rootId, dirPath, name, newFileId, creationTime);
            var items := GetDirectoryContentUnsafe(db, rootId);
            dirPath != [] ==>
              && FindIndexByName(items, dirPath[0]).Some?
              && var i := FindIndexByName(items, dirPath[0]).value;
                 var sub := CreateFileFromId(db, items[i].id, dirPath[1..], name, newFileId, creationTime);
                 && sub.result.Ok?
                 && Extends(sub.db, s.db)
                 && GetDirectoryContentUnsafe(s.db, s.result.value) == Relinked(items, i, sub.result.value)
                 && s.result.value !in sub.db.filesMetadata
                 && s.db.directoriesContents ==
                      sub.db.directoriesContents + EdgesOf(s.result.value, Relinked(items, i, sub.result.value))
  {
    var items := GetDirectoryContentUnsafe(db, rootId);
    if dirPath == [] {
      ExtendsReflexive(db);
      NewDirectoryVersion(db, db, rootId, creationTime, creationTime, items + [Item(newFileId, name, creationTime)]);
    } else {
      var i := FindIndexByName(items, dirPath[0]).value;
      var sub := CreateFileFromId(db, items[i].id, dirPath[1..], name, newFileId, creationTime);
      NewDirectoryVersion(db, sub.db, rootId, creationTime, db.filesMetadata[rootId].mtime,
                          Relinked(items, i, sub.result.value));
    }
  }


  /** `createFileFromId` never puts two entries with the same name in one
      directory. */
  lemma {:induction false} CreateFileFromIdKeepsNames(db: Tables, rootId: FileId, dirPath: Path, name: string,
                                                      newFileId: FileId, creationTime: int)
    requires Wellformed(db) && NamesUnique(db)
    requires CreateFileFromId(db, rootId, dirPath, name, newFileId, creationTime).result.Ok?
    ensures NamesUnique(CreateFileFromId(db, rootId, dirPath, name, newFileId, creationTime).db)
    decreases |dirPath|
  {
    var s := CreateFileFromId(db, rootId, dirPath, name, newFileId, creationTime);
    var items := GetDirectoryContentUnsafe(db, rootId);
    assert NamesDistinct(items);
    CreateFileFromIdLevel(db, rootId, dirPath, name, newFileId, creationTime);
    if dirPath == [] {
      var item := Item(newFileId, name, creationTime);
      DistinctPushed(items, item);
      AppendKeepsNames(db, s.db, s.result.value, items + [item]);
    } else {
      var i := FindIndexByName(items, dirPath[0]).value;
      CreateFileFromIdKeepsNames(db, items[i].id, dirPath[1..], name, newFileId, creationTime);
      var sub := CreateFileFromId(db, items[i].id, dirPath[1..], name, newFileId, creationTime);
      DistinctRelinked(items, i, sub.result.value);
      AppendKeepsNames(sub.db, s.db, s.result.value, Relinked(items, i, sub.result.value));
    }
  }

  /** Linking an id that the call leaves unstored creates a dangling
      entry: `createFileFromId` does not check that the id it links is
      stored. */
  lemma CreateFileFromIdDangles(db: Tables, rootId: FileId, dirPath: Path, name: string,
                                newFileId: FileId, creationTime: int)
    requires Wellformed(db) && NamesUnique(db)
    requires CreateFileFromId(db, rootId, dirPath, name, newFileId, creationTime).result.Ok?
    requires newFileId !in CreateFileFromId(db, rootId, dirPath, name, newFileId, creationTime).db.filesMetadata
    ensures !Closed(CreateFileFromId(db, rootId, dirPath, name, newFileId, creationTime).db)
  {
    CreateFileFromIdRoundTrip(db, rootId, dirPath, name, newFileId, creationTime);
  }

  /** When the linked node is stored, `createFileFromId` keeps every entry
      pointing at a stored node. */
  lemma {:induction false} CreateFileFromIdKeepsClosed(db: Tables, rootId: FileId, dirPath: Path, name: string,
                                                       newFileId: FileId, creationTime: int)
    requires Wellformed(db) && Closed(db) && newFileId in db.filesMetadata
    requires CreateFileFromId(db, rootId, dirPath, name, newFileId, creationTime).result.Ok?
    ensures Closed(CreateFileFromId(db, rootId, dirPath, name, newFileId, creationTime).db)
    decreases |dirPath|
  {
    var s := CreateFileFromId(db, rootId, dirPath, name, newFileId, creationTime);
    var items := GetDirectoryContentUnsafe(db, rootId);
    assert forall it :: it in items ==> it.id in db.filesMetadata;
    CreateFileFromIdLevel(db, rootId, dirPath, name, newFileId, creationTime);
    if dirPath == [] {
      AppendKeepsClosed(db, s.db, s.result.value, items + [Item(newFileId, name, creationTime)]);
    } else {
      var i := FindIndexByName(items, dirPath[0]).value;
      CreateFileFromIdKeepsClosed(db, items[i].id, dirPath[1..], name, newFileId, creationTime);
      var sub := CreateFileFromId(db, items[i].id, dirPath[1..], name, newFileId, creationTime);
      AppendKeepsClosed(sub.db, s.db, s.result.value, Relinked(items, i, sub.result.value));
    }
  }

  /** Round trip of `createFileFromId`: under the new root, the directory
      path followed by the new name resolves to the linked node. */
  lemma {:induction false} CreateFileFromIdRoundTrip(db: Tables, rootId: FileId, dirPath: Path, name: string,
                                                     newFileId: FileId, creationTime: int)
    requires Wellformed(db) && NamesUnique(db)
    requires CreateFileFromId(db, rootId, dirPath, name, newFileId, creationTime).result.Ok?
    ensures var s := CreateFileFromId(db, rootId, dirPath, name, newFileId, creationTime);
            RetrieveFileId(s.db, s.result.value, dirPath + [name]) == Ok(newFileId)
    decreases |dirPath|
  {
    var s := CreateFileFromId(db, rootId, dirPath, name, newFileId, creationTime);
    var r := s.result.value;
    var items := GetDirectoryContentUnsafe(db, rootId);
    var p := dirPath + [name];
    CreateFileFromIdLevel(db, rootId, dirPath, name, newFileId, creationTime);
    PathSnoc(dirPath, name);
    if dirPath == [] {
      var item := Item(newFileId, name, creationTime);
      assert GetDirectoryContentItemByName(s.db, r, name) == Ok(item) by {
        FindByNamePushed(items, item);
        LookupIsFind(s.db, r, name);
      }
    } else {
      var i := FindIndexByName(items, dirPath[0]).value;
      var sub := CreateFileFromId(db, items[i].id, dirPath[1..], name, newFileId, creationTime);
      var c := sub.result.value;
      assert GetDirectoryContentItemByName(s.db, r, dirPath[0]) == Ok(Item(c, items[i].name, items[i].btime)) by {
        FindByNameRelinkedSelf(items, i, c);
        LookupIsFind(s.db, r, dirPath[0]);
      }
      assert RetrieveFileId(s.db, c, dirPath[1..] + [name]) == Ok(newFileId) by {
        CreateFileFromIdRoundTrip(db, items[i].id, dirPath[1..], name, newFileId, creationTime);
        RetrieveStable(sub.db, s.db, c, dirPath[1..] + [name]);
      }
    }
  }

  /** Structural sharing of `createFileFromId`: every path that parts ways
      with the created one resolves under the new root exactly as under the
      old root, since the rebuilt directories keep all their other entries. */
  lemma {:induction false} CreateFileFromIdSharing(db: Tables, rootId: FileId, dirPath: Path, name: string,
                                                   newFileId: FileId, creationTime: int, q: Path)
    requires Wellformed(db) && NamesUnique(db) && Closed(db) && newFileId in db.filesMetadata
    requires CreateFileFromId(db, rootId, dirPath, name, newFileId, creationTime).result.Ok?
    requires Diverges(q, dirPath + [name])
    ensures var s := CreateFileFromId(db, rootId, dirPath, name, newFileId, creationTime);
            RetrieveFileId(s.db, s.result.value, q) == RetrieveFileId(db, rootId, q)
    decreases |dirPath|
  {
    var s := CreateFileFromId(db, rootId, dirPath, name, newFileId, creationTime);
    var r := s.result.value;
    var items := GetDirectoryContentUnsafe(db, rootId);
    CreateFileFromIdLevel(db, rootId, dirPath, name, newFileId, creationTime);
    PathSnoc(dirPath, name);
    LookupIsFind(s.db, r, q[0]);
    LookupIsFind(db, rootId, q[0]);
    if dirPath != [] && q[0] == dirPath[0] {
      var i := FindIndexByName(items, dirPath[0]).value;
      var sub := CreateFileFromId(db, items[i].id, dirPath[1..], name, newFileId, creationTime);
      var c := sub.result.value;
      assert FindByName(GetDirectoryContentUnsafe(s.db, r), q[0]) == Some(Item(c, items[i].name, items[i].btime)) by {
        FindByNameRelinkedSelf(items, i, c);
      }
      assert RetrieveFileId(s.db, c, q[1..]) == RetrieveFileId(db, items[i].id, q[1..]) by {
        CreateFileFromIdSharing(db, items[i].id, dirPath[1..], name, newFileId, creationTime, q[1..]);
        CreateFileFromIdKeepsClosed(db, items[i].id, dirPath[1..], name, newFileId, creationTime);
        RetrieveImmutable(sub.db, s.db, c, q[1..]);
      }
    } else {
      assert FindByName(GetDirectoryContentUnsafe(s.db, r), q[0]) == FindByName(items, q[0]) by {
        if dirPath == [] {
          var item := Item(newFileId, name, creationTime);
          FindByNameAppend(items, [item], q[0]);
          FindByNameCons(item, [], q[0]);
        } else {
          var i := FindIndexByName(items, dirPath[0]).value;
          var sub := CreateFileFromId(db, items[i].id, dirPath[1..], name, newFileId, creationTime);
          FindByNameRelinkedOther(items, i, sub.result.value, q[0]);
        }
      }
      match FindByName(items, q[0])
      case None =>
      case Some(it) =>
        assert it in items;
        RetrieveImmutable(db, s.db, it.id, q[1..]);
    }
  }

  /** Under an old directory, a path that starts with the entry at `i`
      continues from that entry's node. */
  lemma OldPathStep(db: Tables, parentId: FileId, i: nat, path: Path, k: nat)
    requires 0 < k <= |path|
    requires FindIndexByName(GetDirectoryContentUnsafe(db, parentId), path[0]) == Some(i)
    ensures RetrieveFileId(db, parentId, path[..k]) ==
              RetrieveFileId(db, GetDirectoryContentUnsafe(db, parentId)[i].id, path[1..][..k - 1])
  {
    PathPrefix(path, k);
    RetrieveStep(db, parentId, path[..k]);
  }

  /** Under a rebuilt directory, a path that starts with the relinked entry
      continues from the child's new version, which later appends leave
      alone. */
  lemma NewPathStep(mid: Tables, after: Tables, newParentId: FileId, items: DirectoryContent, i: nat,
                    newChildId: FileId, path: Path, k: nat)
    requires Wellformed(mid) && Extends(mid, after)
    requires i < |items| && NamesDistinct(items)
    requires GetDirectoryContentUnsafe(after, newParentId) == Relinked(items, i, newChildId)
    requires 0 < k <= |path| && path[0] == items[i].name
    requires RetrieveFileId(mid, newChildId, path[1..][..k - 1]).Ok?
    ensures RetrieveFileId(after, newParentId, path[..k]) == RetrieveFileId(mid, newChildId, path[1..][..k - 1])
  {
    PathPrefix(path, k);
    FindByNameRelinkedSelf(items, i, newChildId);
    RetrieveStep(after, newParentId, path[..k]);
    RetrieveStable(mid, after, newChildId, path[1..][..k - 1]);
  }


  /** A rebuilt ancestor one level down, seen from one level up: the
      directories it relates are reached from the parents through the same
      entry, and later appends change neither. */
  lemma RebuiltAncestorLift(before: Tables, mid: Tables, after: Tables, oldRoot: FileId, newRoot: FileId,
                            oldChild: FileId, newChild: FileId, path: Path, k: nat, time: int)
    requires Wellformed(mid) && Extends(mid, after)
    requires 0 < k < |path|
    requires RebuiltAncestor(before, mid, oldChild, newChild, path[1..], k - 1, time)
    requires RetrieveFileId(before, oldRoot, path[..k]) == RetrieveFileId(before, oldChild, path[1..][..k - 1])
    requires RetrieveFileId(after, newRoot, path[..k]) == RetrieveFileId(mid, newChild, path[1..][..k - 1])
    requires RetrieveFileId(after, newRoot, path[..k + 1]) == RetrieveFileId(mid, newChild, path[1..][..k])
    ensures RebuiltAncestor(before, after, oldRoot, newRoot, path, k, time)
  {
    var a2 := RetrieveFileId(mid, newChild, path[1..][..k - 1]).value;
    assert path[1..][k - 1] == path[k];
    assert path[1..][..k - 1 + 1] == path[1..][..k];
    ChildrenStable(mid, after, a2);
  }


  /** The directory that directly gains the entry: the new version of the
      target holds its old entries followed by the new one, and is stamped
      with the creation time as both `rmtime` and `mtime`. */
  lemma {:induction false} CreateFileFromIdTarget(db: Tables, rootId: FileId, dirPath: Path, name: string,
                                                  newFileId: FileId, creationTime: int)
    requires Wellformed(db) && NamesUnique(db)
    requires CreateFileFromId(db, rootId, dirPath, name, newFileId, creationTime).result.Ok?
    ensures var s := CreateFileFromId(db, rootId, dirPath, name, newFileId, creationTime);
            var d := RetrieveFileId(db, rootId, dirPath);
            var d2 := RetrieveFileId(s.db, s.result.value, dirPath);
            && d.Ok? && d2.Ok?
            && DerivedDirectory(db, s.db, d2.value, d.value, creationTime, creationTime)
            && GetDirectoryContentUnsafe(s.db, d2.value) ==
                 GetDirectoryContentUnsafe(db, d.value) + [Item(newFileId, name, creationTime)]
    decreases |dirPath|
  {
    var s := CreateFileFromId(db, rootId, dirPath, name, newFileId, creationTime);
    var r := s.result.value;
    var items := GetDirectoryContentUnsafe(db, rootId);
    CreateFileFromIdLevel(db, rootId, dirPath, name, newFileId, creationTime);
    if dirPath != [] {
      var i := FindIndexByName(items, dirPath[0]).value;
      var sub := CreateFileFromId(db, items[i].id, dirPath[1..], name, newFileId, creationTime);
      var c := sub.result.value;
      CreateFileFromIdTarget(db, items[i].id, dirPath[1..], name, newFileId, creationTime);
      var d2 := RetrieveFileId(sub.db, c, dirPath[1..]).value;
      assert RetrieveFileId(db, rootId, dirPath) == RetrieveFileId(db, items[i].id, dirPath[1..]) by {
        RetrieveStep(db, rootId, dirPath);
      }
      assert RetrieveFileId(s.db, r, dirPath) == Ok(d2) by {
        FindByNameRelinkedSelf(items, i, c);
        RetrieveStep(s.db, r, dirPath);
        RetrieveStable(sub.db, s.db, c, dirPath[1..]);
      }
      ChildrenStable(sub.db, s.db, d2);
    }
  }

  /** Every directory above the target gets a new version derived from the
      old one, written at the creation time, keeping its old `mtime`, whose
      entries are the old ones with only the traversed entry relinked. */
  lemma {:induction false} CreateFileFromIdAncestor(db: Tables, rootId: FileId, dirPath: Path, name: string,
                                                    newFileId: FileId, creationTime: int, k: nat)
    requires Wellformed(db) && NamesUnique(db)
    requires CreateFileFromId(db, rootId, dirPath, name, newFileId, creationTime).result.Ok?
    requires k < |dirPath|
    ensures var s := CreateFileFromId(db, rootId, dirPath, name, newFileId, creationTime);
            RebuiltAncestor(db, s.db, rootId, s.result.value, dirPath, k, creationTime)
    decreases k
  {
    var s := CreateFileFromId(db, rootId, dirPath, name, newFileId, creationTime);
    var r := s.result.value;
    var items := GetDirectoryContentUnsafe(db, rootId);
    CreateFileFromIdLevel(db, rootId, dirPath, name, newFileId, creationTime);
    var i := FindIndexByName(items, dirPath[0]).value;
    var sub := CreateFileFromId(db, items[i].id, dirPath[1..], name, newFileId, creationTime);
    var c := sub.result.value;
    assert FindByName(GetDirectoryContentUnsafe(s.db, r), dirPath[0]) == Some(Item(c, items[i].name, items[i].btime)) by {
      FindByNameRelinkedSelf(items, i, c);
    }
    assert NamesDistinct(items);
    if k == 0 {
      PathPrefix(dirPath, 1);
      assert RetrieveFileId(s.db, r, dirPath[..1]) == Ok(c) by {
        RetrieveStep(s.db, r, dirPath[..1]);
      }
      assert dirPath[..0] == [];
    } else {
      CreateFileFromIdAncestor(db, items[i].id, dirPath[1..], name, newFileId, creationTime, k - 1);
      OldPathStep(db, rootId, i, dirPath, k);
      NewPathStep(sub.db, s.db, r, items, i, c, dirPath, k);
      NewPathStep(sub.db, s.db, r, items, i, c, dirPath, k + 1);
      RebuiltAncestorLift(db, sub.db, s.db, rootId, r, items[i].id, c, dirPath, k, creationTime);
    }
  }

  // ---------------------------------------------------------------------
  // createFile

  /** The node `createFile` writes before linking it: a brand-new regular
      file for bytes, a brand-new directory for an item list, with no
      previous version and both times equal to the creation time. */
  function MakeLeaf(db: Tables, content: FileContent, creationTime: int): (s: Step<FileId>)
    requires Wellformed(db)
    ensures s.result == Ok(NextFileId(db))
    ensures Wellformed(s.db) && Extends(db, s.db) && |s.db.filesMetadata| == |db.filesMetadata| + 1
    ensures s.db.filesMetadata.Keys == db.filesMetadata.Keys + {s.result.value}
    ensures s.db.filesMetadata[s.result.value] ==
              FileMetadata(s.result.value, if IsRegularFileContent(content) then RegularType else DirectoryType,
                           creationTime, creationTime, None, s.result.value)
  {
    if IsRegularFileContent(content) then
      var s := MakeRegularFile(db, creationTime, creationTime, content.bytes, None);
      KeysAfterInsert(db.filesMetadata, s.db.filesMetadata, s.result.value);
      s
    else
      var s := MakeDirectory(db, creationTime, creationTime, content.items, None);
      KeysAfterInsert(db.filesMetadata, s.db.filesMetadata, s.result.value);
      s
  }

  lemma KeysAfterInsert(before: map<FileId, FileMetadata>, after: map<FileId, FileMetadata>, id: FileId)
    requires id in after && after == before[id := after[id]]
    ensures after.Keys == before.Keys + {id}
  {
  }

  /** `createFile`: writes the new node, then links it under `name` in the
      directory `dirPath` leads to. The node is written first and outside
      the link, so it stays in the store when the link fails. */
  function CreateFile(db: Tables, rootId: FileId, dirPath: Path, name: string,
                      content: FileContent, creationTime: int): (s: Step<FileId>)
    requires Wellformed(db)
    ensures Wellformed(s.db) && Extends(db, s.db)
    ensures s.result.Ok? ==> |s.db.filesMetadata| == |db.filesMetadata| + |dirPath| + 2
    ensures s.result.Err? ==> s.db == MakeLeaf(db, content, creationTime).db
  {
    var leaf := MakeLeaf(db, content, creationTime);
    var s := CreateFileFromId(leaf.db, rootId, dirPath, name, leaf.result.value, creationTime);
    if s.result.Ok? then
      ExtendsTransitive(db, leaf.db, s.db);
      s
    else
      s
  }

  /** The new node reads back whether or not the link succeeds: it is a
      new lineage of its own, stamped with the creation time, and holds
      exactly the given bytes or items. */
  lemma CreateFileLeaf(db: Tables, rootId: FileId, dirPath: Path, name: string,
                       content: FileContent, creationTime: int)
    requires Wellformed(db)
    ensures var s := CreateFile(db, rootId, dirPath, name, content, creationTime);
            var id := NextFileId(db);
            && id !in db.filesMetadata
            && GetFileMetadata(s.db, id) ==
                 Ok(FileMetadata(id, if IsRegularFileContent(content) then RegularType else DirectoryType,
                                 creationTime, creationTime, None, id))
            && (IsRegularFileContent(content) ==> GetRegularFileContent(s.db, id) == Ok(content.bytes))
            && (!IsRegularFileContent(content) ==> GetDirectoryContentUnsafe(s.db, id) == content.items)
  {
    var leaf := MakeLeaf(db, content, creationTime);
    var s := CreateFile(db, rootId, dirPath, name, content, creationTime);
    var id := leaf.result.value;
    if IsRegularFileContent(content) {
      MakeRegularFileRoundTrip(db, creationTime, creationTime, content.bytes, None);
    } else {
      MakeDirectoryRoundTrip(db, creationTime, creationTime, content.items, None);
    }
    if s.result.Ok? {
      ChildrenStable(leaf.db, s.db, id);
    }
  }

  /** Writing the new node keeps entries pointing at stored nodes when the
      given items do. */
  lemma MakeLeafKeepsClosed(db: Tables, content: FileContent, creationTime: int)
    requires Wellformed(db) && Closed(db)
    requires content.DirectoryItems? ==> forall it :: it in content.items ==> it.id in db.filesMetadata
    ensures Closed(MakeLeaf(db, content, creationTime).db)
  {
    if content.DirectoryItems? {
      var leaf := MakeLeaf(db, content, creationTime);
      AppendKeepsClosed(db, leaf.db, leaf.result.value, content.items);
    }
  }

  /** Writing the new node keeps names distinct when the given items have
      distinct names. */
  lemma MakeLeafKeepsNames(db: Tables, content: FileContent, creationTime: int)
    requires Wellformed(db) && NamesUnique(db)
    requires content.DirectoryItems? ==> NamesDistinct(content.items)
    ensures NamesUnique(MakeLeaf(db, content, creationTime).db)
  {
    if content.DirectoryItems? {
      var leaf := MakeLeaf(db, content, creationTime);
      AppendKeepsNames(db, leaf.db, leaf.result.value, content.items);
    }
  }

  /** A root that is not stored resolves no path to a directory. */
  lemma NameFreeAtUnstored(db: Tables, rootId: FileId, dirPath: Path, name: string)
    requires Wellformed(db) && rootId !in db.filesMetadata
    ensures !NameFreeAt(db, rootId, dirPath, name)
  {
    if dirPath != [] {
      NoRowsUnlessDirectory(db, rootId);
      RetrieveStep(db, rootId, dirPath);
    }
  }

  /** In a store whose entries point at stored nodes, appending nodes does
      not change whether a name is free under a stored root. */
  lemma NameFreeAtStable(before: Tables, after: Tables, rootId: FileId, dirPath: Path, name: string)
    requires Wellformed(before) && Closed(before) && Extends(before, after)
    requires rootId in before.filesMetadata
    ensures NameFreeAt(after, rootId, dirPath, name) == NameFreeAt(before, rootId, dirPath, name)
  {
    RetrieveImmutable(before, after, rootId, dirPath);
    var d := RetrieveFileId(before, rootId, dirPath);
    if d.Ok? {
      assert d.value in before.filesMetadata by {
        if dirPath != [] {
          var e :| e in before.directoriesContents && e.item.id == d.value && e.item.name == dirPath[|dirPath| - 1];
        }
      }
      ChildrenStable(before, after, d.value);
    }
  }

  /** `createFile` succeeds exactly when, once the new node is stored, the
      directory path leads to a directory in which the name is free. This
      holds for every root, including the id the new node itself takes. */
  lemma CreateFileSucceedsAfterLeaf(db: Tables, rootId: FileId, dirPath: Path, name: string,
                                    content: FileContent, creationTime: int)
    requires Wellformed(db)
    ensures CreateFile(db, rootId, dirPath, name, content, creationTime).result.Ok? <==>
              NameFreeAt(MakeLeaf(db, content, creationTime).db, rootId, dirPath, name)
  {
    var leaf := MakeLeaf(db, content, creationTime);
    CreateFileFromIdSucceeds(leaf.db, rootId, dirPath, name, leaf.result.value, creationTime);
  }

  /** In tables whose entries all point at stored nodes, and for a root
      other than the id the new node takes, the new node changes nothing:
      `createFile` succeeds exactly when the directory path leads to a
      directory in which the name is free before the call. */
  lemma CreateFileSucceeds(db: Tables, rootId: FileId, dirPath: Path, name: string,
                           content: FileContent, creationTime: int)
    requires Wellformed(db) && Closed(db) && rootId != NextFileId(db)
    ensures CreateFile(db, rootId, dirPath, name, content, creationTime).result.Ok? <==>
              NameFreeAt(db, rootId, dirPath, name)
  {
    var leaf := MakeLeaf(db, content, creationTime);
    CreateFileSucceedsAfterLeaf(db, rootId, dirPath, name, content, creationTime);
    if rootId in db.filesMetadata {
      NameFreeAtStable(db, leaf.db, rootId, dirPath, name);
    } else {
      NameFreeAtUnstored(db, rootId, dirPath, name);
      NameFreeAtUnstored(leaf.db, rootId, dirPath, name);
    }
  }

  /** Round trip of `createFile`: under the new root, the directory path
      followed by the new name resolves to the new node. */
  lemma CreateFileRoundTrip(db: Tables, rootId: FileId, dirPath: Path, name: string,
                            content: FileContent, creationTime: int)
    requires Wellformed(db) && NamesUnique(db)
    requires content.DirectoryItems? ==> NamesDistinct(content.items)
    requires CreateFile(db, rootId, dirPath, name, content, creationTime).result.Ok?
    ensures var s := CreateFile(db, rootId, dirPath, name, content, creationTime);
            RetrieveFileId(s.db, s.result.value, dirPath + [name]) == Ok(NextFileId(db))
  {
    var leaf := MakeLeaf(db, content, creationTime);
    MakeLeafKeepsNames(db, content, creationTime);
    CreateFileFromIdRoundTrip(leaf.db, rootId, dirPath, name, leaf.result.value, creationTime);
  }

  /** `createFile` keeps entries pointing at stored nodes and names
      distinct, given new items that do the same. */
  lemma CreateFileKeeps(db: Tables, rootId: FileId, dirPath: Path, name: string,
                        content: FileContent, creationTime: int)
    requires Wellformed(db) && Closed(db) && NamesUnique(db)
    requires content.DirectoryItems? ==>
               NamesDistinct(content.items) && forall it :: it in content.items ==> it.id in db.filesMetadata
    ensures var s := CreateFile(db, rootId, dirPath, name, content, creationTime);
            Closed(s.db) && NamesUnique(s.db)
  {
    var leaf := MakeLeaf(db, content, creationTime);
    MakeLeafKeepsClosed(db, content, creationTime);
    MakeLeafKeepsNames(db, content, creationTime);
    if CreateFileFromId(leaf.db, rootId, dirPath, name, leaf.result.value, creationTime).result.Ok? {
      CreateFileFromIdKeepsClosed(leaf.db, rootId, dirPath, name, leaf.result.value, creationTime);
      CreateFileFromIdKeepsNames(leaf.db, rootId, dirPath, name, leaf.result.value, creationTime);
    }
  }

  /** Structural sharing of `createFile`, for any root: every path that
      parts ways with the created one resolves under the new root as it
      does under the old root once the new node is stored. Entries must
      point at stored nodes: a dangling entry whose id the call allocates
      would resolve to the new node. */
  lemma CreateFileSharingAfterLeaf(db: Tables, rootId: FileId, dirPath: Path, name: string,
                                   content: FileContent, creationTime: int, q: Path)
    requires Wellformed(db) && Closed(db) && NamesUnique(db)
    requires content.DirectoryItems? ==>
               NamesDistinct(content.items) && forall it :: it in content.items ==> it.id in db.filesMetadata
    requires CreateFile(db, rootId, dirPath, name, content, creationTime).result.Ok?
    requires Diverges(q, dirPath + [name])
    ensures var s := CreateFile(db, rootId, dirPath, name, content, creationTime);
            RetrieveFileId(s.db, s.result.value, q) == RetrieveFileId(MakeLeaf(db, content, creationTime).db, rootId, q)
  {
    var leaf := MakeLeaf(db, content, creationTime);
    MakeLeafKeepsClosed(db, content, creationTime);
    MakeLeafKeepsNames(db, content, creationTime);
    CreateFileFromIdSharing(leaf.db, rootId, dirPath, name, leaf.result.value, creationTime, q);
  }

  /** Structural sharing of `createFile` for a root other than the new
      node: every path that parts ways with the created one resolves under
      the new root as under the old one, before the call. */
  lemma CreateFileSharing(db: Tables, rootId: FileId, dirPath: Path, name: string,
                          content: FileContent, creationTime: int, q: Path)
    requires Wellformed(db) && Closed(db) && NamesUnique(db)
    requires content.DirectoryItems? ==>
               NamesDistinct(content.items) && forall it :: it in content.items ==> it.id in db.filesMetadata
    requires CreateFile(db, rootId, dirPath, name, content, creationTime).result.Ok?
    requires Diverges(q, dirPath + [name]) && rootId != NextFileId(db)
    ensures var s := CreateFile(db, rootId, dirPath, name, content, creationTime);
            RetrieveFileId(s.db, s.result.value, q) == RetrieveFileId(db, rootId, q)
  {
    var leaf := MakeLeaf(db, content, creationTime);
    assert rootId in db.filesMetadata by {
      CreateFileFromIdLevel(leaf.db, rootId, dirPath, name, leaf.result.value, creationTime);
    }
    assert RetrieveFileId(leaf.db, rootId, q) == RetrieveFileId(db, rootId, q) by {
      RetrieveImmutable(db, leaf.db, rootId, q);
    }
    CreateFileSharingAfterLeaf(db, rootId, dirPath, name, content, creationTime, q);
  }
}
