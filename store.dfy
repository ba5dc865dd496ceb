/** The three tables of the node store as one value, the read queries over
    them, and the effect of the two "make" primitives as pure functions.
    Tables are only ever appended to: `Extends` states that relation and the
    lemmas below show what survives it. */
module Store {
  import opened Types

  /** One row of `directories_contents`: an item stored under a parent. */
  datatype Edge = Edge(parentId: FileId, item: DirectoryContentItem)

  /** The database: metadata rows keyed by id, regular-file contents keyed
      by id, and the directory rows in insertion order. */
  datatype Tables = Tables(
    filesMetadata: map<FileId, FileMetadata>,
    regularFilesContents: map<FileId, Bytes>,
    directoriesContents: seq<Edge>)

  /** A value together with the database after computing it. */
  datatype Step<T> = Step(result: Result<T>, db: Tables)

  /** A directory as `getDirectory` returns it: its metadata and its items. */
  datatype Directory = Directory(metadata: FileMetadata, content: DirectoryContent)

  const Empty := Tables(map[], map[], [])

  /** The lineage rule for one stored node: a new node is its own first
      version; a derived node is younger than, and shares the first version
      of, the node it was derived from. */
  ghost predicate LineageOk(m: map<FileId, FileMetadata>, id: FileId)
    requires id in m
  {
    && m[id].id == id
    && match m[id].previousVersionId
       case None => m[id].firstVersionId == id
       case Some(p) => p < id && p in m && m[p].firstVersionId == m[id].firstVersionId
  }

  /** Stored ids are exactly 1..count. */
  ghost predicate IdsDense(m: map<FileId, FileMetadata>) {
    forall id :: id in m <==> 1 <= id <= |m|
  }

  /** Every stored node satisfies the lineage rule. The trigger keeps the
      solver from following previous versions one after another. */
  ghost predicate LineageConsistent(m: map<FileId, FileMetadata>) {
    forall id {:trigger LineageOk(m, id)} :: id in m ==> LineageOk(m, id)
  }

  /** A content row exists exactly for the stored regular files. */
  ghost predicate ContentsTyped(m: map<FileId, FileMetadata>, contents: map<FileId, Bytes>) {
    forall id :: id in contents <==> id in m && m[id].fileType == RegularType
  }

  /** Every directory row hangs under a stored directory. */
  ghost predicate EdgesTyped(m: map<FileId, FileMetadata>, edges: seq<Edge>) {
    forall e :: e in edges ==> e.parentId in m && m[e.parentId].fileType == DirectoryType
  }

  /** What the append-only store keeps true. */
  ghost predicate Wellformed(db: Tables) {
    && IdsDense(db.filesMetadata)
    && LineageConsistent(db.filesMetadata)
    && ContentsTyped(db.filesMetadata, db.regularFilesContents)
    && EdgesTyped(db.filesMetadata, db.directoriesContents)
  }

  /** `after` is `before` with rows appended: every stored metadata and
      content row is unchanged, the directory rows are a prefix, and the
      appended directory rows hang under new parents only. */
  ghost predicate Extends(before: Tables, after: Tables) {
    && (forall id :: id in before.filesMetadata ==>
          id in after.filesMetadata && after.filesMetadata[id] == before.filesMetadata[id])
    && (forall id :: id in before.regularFilesContents ==>
          id in after.regularFilesContents && after.regularFilesContents[id] == before.regularFilesContents[id])
    && |before.directoriesContents| <= |after.directoriesContents|
    && after.directoriesContents[..|before.directoriesContents|] == before.directoriesContents
    && (forall i :: |before.directoriesContents| <= i < |after.directoriesContents| ==>
          after.directoriesContents[i].parentId !in before.filesMetadata)
  }

  // ---------------------------------------------------------------------
  // Read queries

  /** `SELECT ... FROM directories_contents WHERE parent_id = ?`: the items
      stored under `parentId`, in row order. */
  function Rows(edges: seq<Edge>, parentId: FileId): (items: DirectoryContent)
    ensures forall it :: it in items <==> Edge(parentId, it) in edges
    ensures |items| <= |edges|
  {
    if edges == [] then []
    else
      (if edges[0].parentId == parentId then [edges[0].item] else [])
      + Rows(edges[1..], parentId)
  }

  /** `getDirectoryContentUnsafe`: the items of a node, without checking
      that it is a directory. */
  function GetDirectoryContentUnsafe(db: Tables, id: FileId): (items: DirectoryContent)
    ensures forall it :: it in items <==> Edge(id, it) in db.directoriesContents
  {
    Rows(db.directoriesContents, id)
  }

  /** `getFileMetadata`: the metadata row, or `FileNotFound`. */
  function GetFileMetadata(db: Tables, id: FileId): (r: Result<FileMetadata>)
    ensures r.Ok? <==> id in db.filesMetadata
    ensures r.Ok? ==> r.value == db.filesMetadata[id]
    ensures r.Err? ==> r.error == FileNotFound
  {
    if id in db.filesMetadata then Ok(db.filesMetadata[id]) else Err(FileNotFound)
  }

  /** The index of the first item named `name` (`Array.prototype.find`). */
  function FindIndexByName(items: DirectoryContent, name: string): (r: Option<nat>)
    ensures r.Some? ==> r.value < |items| && items[r.value].name == name
    ensures r.Some? ==> forall j :: 0 <= j < r.value ==> items[j].name != name
    ensures r.None? ==> forall j :: 0 <= j < |items| ==> items[j].name != name
  {
    if items == [] then None
    else if items[0].name == name then Some(0)
    else match FindIndexByName(items[1..], name)
      case None => None
      case Some(k) => Some(k + 1)
  }

  /** `getDirectoryContentItemByName`: the first item of `parentId` named
      `childName`, or `FileNotFound`. */
  function GetDirectoryContentItemByName(db: Tables, parentId: FileId, childName: string): (r: Result<DirectoryContentItem>)
    ensures r.Ok? ==> r.value.name == childName && Edge(parentId, r.value) in db.directoriesContents
    ensures r.Err? <==> forall it :: Edge(parentId, it) in db.directoriesContents ==> it.name != childName
    ensures r.Err? ==> r.error == FileNotFound
  {
    var items := GetDirectoryContentUnsafe(db, parentId);
    match FindIndexByName(items, childName)
    case None =>
      assert forall it :: it in items ==> it.name != childName by {
        forall it | it in items ensures it.name != childName {
          var k :| 0 <= k < |items| && items[k] == it;
        }
      }
      Err(FileNotFound)
    case Some(i) => Ok(items[i])
  }

  /** `getDirectory`: fails with `FileNotFound` unless `id` is a stored
      directory; otherwise its metadata and exactly the items stored under it. */
  function GetDirectory(db: Tables, id: FileId): (r: Result<Directory>)
    ensures r.Ok? <==> id in db.filesMetadata && db.filesMetadata[id].fileType == DirectoryType
    ensures r.Ok? ==> r.value.metadata == db.filesMetadata[id]
    ensures r.Ok? ==> r.value.content == GetDirectoryContentUnsafe(db, id)
    ensures r.Err? ==> r.error == FileNotFound
  {
    var metadata :- GetFileMetadata(db, id);
    if metadata.fileType != DirectoryType then Err(FileNotFound)
    else Ok(Directory(metadata, GetDirectoryContentUnsafe(db, id)))
  }

  /** `getRegularFileContent`: the stored bytes, or `FileNotFound`. */
  function GetRegularFileContent(db: Tables, id: FileId): (r: Result<Bytes>)
    ensures r.Ok? <==> id in db.regularFilesContents
    ensures r.Ok? ==> r.value == db.regularFilesContents[id]
    ensures r.Err? ==> r.error == FileNotFound
  {
    if id in db.regularFilesContents then Ok(db.regularFilesContents[id]) else Err(FileNotFound)
  }

  /** Which write time a listing query selects for each child: the model
      layer's query reads `rmtime`, the kernel's and the drafts' read
      `mtime`. */
  datatype TimeColumn = RmtimeColumn | MtimeColumn

  function TimeOf(metadata: FileMetadata, column: TimeColumn): int {
    match column
    case RmtimeColumn => metadata.rmtime
    case MtimeColumn => metadata.mtime
  }

  /** One line of a directory listing: the entry's name and creation time
      joined with the child's type and the selected write time. */
  datatype DirectoryContentItemView = ItemView(name: string, fileType: FileType, btime: int, time: int)

  /** The join of a directory's items with the metadata table: items whose
      child has no metadata row drop out, as in an inner join. */
  function JoinMetadata(items: DirectoryContent, m: map<FileId, FileMetadata>, column: TimeColumn)
    : (view: seq<DirectoryContentItemView>)
    ensures |view| <= |items|
    ensures (forall it :: it in items ==> it.id in m) ==>
              |view| == |items| &&
              forall k :: 0 <= k < |items| ==>
                view[k] == ItemView(items[k].name, m[items[k].id].fileType, items[k].btime,
                                    TimeOf(m[items[k].id], column))
  {
    if items == [] then []
    else
      var rest := JoinMetadata(items[1..], m, column);
      if items[0].id in m then
        var it := items[0];
        [ItemView(it.name, m[it.id].fileType, it.btime, TimeOf(m[it.id], column))] + rest
      else rest
  }

  /** `getDirectoryViewUnsafe`: the listing of a node's items. */
  function GetDirectoryViewUnsafe(db: Tables, id: FileId, column: TimeColumn): seq<DirectoryContentItemView> {
    JoinMetadata(GetDirectoryContentUnsafe(db, id), db.filesMetadata, column)
  }

  /** What a read of a path returns: the bytes of a regular file, or the
      listing of a directory. */
  datatype FileView = RegularView(bytes: Bytes) | DirectoryView(listing: seq<DirectoryContentItemView>)

  // ---------------------------------------------------------------------
  // Make primitives (the rows they insert)

  /** `makeUniqueFileId`: the number of stored nodes plus one, which is a
      fresh id as long as the stored ids are exactly 1..count. */
  function NextFileId(db: Tables): (id: FileId)
    ensures id >= 1
    ensures Wellformed(db) ==> id !in db.filesMetadata
  {
    |db.filesMetadata| + 1
  }

  /** The metadata row a make primitive writes for `id`. A node derived from
      `modifiedFromId` records it as its previous version and inherits its
      first version; reading that node fails when it is not stored. */
  function NewMetadata(db: Tables, id: FileId, fileType: FileType, rmtime: int, mtime: int,
                       modifiedFromId: Option<FileId>): (r: Result<FileMetadata>)
    ensures r.Err? <==> modifiedFromId.Some? && modifiedFromId.value !in db.filesMetadata
    ensures r.Err? ==> r.error == FileNotFound
    ensures r.Ok? ==> r.value.id == id && r.value.fileType == fileType
    ensures r.Ok? ==> r.value.rmtime == rmtime && r.value.mtime == mtime
    ensures r.Ok? ==> r.value.previousVersionId == modifiedFromId
    ensures r.Ok? && modifiedFromId.None? ==> r.value.firstVersionId == id
    ensures r.Ok? && modifiedFromId.Some? ==>
              r.value.firstVersionId == db.filesMetadata[modifiedFromId.value].firstVersionId
  {
    match modifiedFromId
    case None => Ok(FileMetadata(id, fileType, rmtime, mtime, None, id))
    case Some(p) =>
      var from :- GetFileMetadata(db, p);
      Ok(FileMetadata(id, fileType, rmtime, mtime, Some(p), from.firstVersionId))
  }

  /** The directory rows `makeDirectory` inserts: one per item, in order. */
  function EdgesOf(parentId: FileId, items: DirectoryContent): (edges: seq<Edge>)
    ensures |edges| == |items|
    ensures forall k :: 0 <= k < |items| ==> edges[k] == Edge(parentId, items[k])
  {
    seq(|items|, k requires 0 <= k < |items| => Edge(parentId, items[k]))
  }

  /** Inserting the row `NewMetadata` builds under the next id keeps the ids
      dense and the lineage consistent. */
  lemma InsertMetadata(db: Tables, fileType: FileType, rmtime: int, mtime: int,
                       modifiedFromId: Option<FileId>, metadata: FileMetadata)
    requires Wellformed(db)
    requires NewMetadata(db, NextFileId(db), fileType, rmtime, mtime, modifiedFromId) == Ok(metadata)
    ensures var m := db.filesMetadata[NextFileId(db) := metadata];
            IdsDense(m) && LineageConsistent(m) && |m| == |db.filesMetadata| + 1
  {
    var id := NextFileId(db);
    var m := db.filesMetadata[id := metadata];
    assert |m| == |db.filesMetadata| + 1;
    forall i | i in m ensures LineageOk(m, i) {
      if i != id {
        assert LineageOk(db.filesMetadata, i);
      }
    }
  }

  /** `makeRegularFile`: allocate an id and insert one metadata row and one
      content row. */
  function MakeRegularFile(db: Tables, rmtime: int, mtime: int, content: Bytes,
                           modifiedFromId: Option<FileId>): (s: Step<FileId>)
    requires Wellformed(db)
    ensures Wellformed(s.db)
    ensures s.result.Err? <==> modifiedFromId.Some? && modifiedFromId.value !in db.filesMetadata
    ensures s.result.Err? ==> s.result.error == FileNotFound && s.db == db
    ensures s.result.Ok? ==> s.result.value == |db.filesMetadata| + 1 && s.result.value !in db.filesMetadata
    ensures s.result.Ok? ==> Extends(db, s.db) && |s.db.filesMetadata| == |db.filesMetadata| + 1
    ensures s.result.Ok? ==>
              s.db.filesMetadata == db.filesMetadata[s.result.value := s.db.filesMetadata[s.result.value]] &&
              s.db.regularFilesContents == db.regularFilesContents[s.result.value := content] &&
              s.db.directoriesContents == db.directoriesContents
    ensures s.result.Ok? ==> NewMetadata(db, s.result.value, RegularType, rmtime, mtime, modifiedFromId)
                             == Ok(s.db.filesMetadata[s.result.value])
  {
    var id := NextFileId(db);
    match NewMetadata(db, id, RegularType, rmtime, mtime, modifiedFromId)
    case Err(e) => Step(Err(e), db)
    case Ok(metadata) =>
      InsertMetadata(db, RegularType, rmtime, mtime, modifiedFromId, metadata);
      var after := Tables(db.filesMetadata[id := metadata],
                          db.regularFilesContents[id := content],
                          db.directoriesContents);
      assert after.directoriesContents[..|db.directoriesContents|] == db.directoriesContents;
      Step(Ok(id), after)
  }

  /** `makeDirectory`: allocate an id, insert one metadata row and one
      directory row per item under the new id. */
  function MakeDirectory(db: Tables, rmtime: int, mtime: int, content: DirectoryContent,
                         modifiedFromId: Option<FileId>): (s: Step<FileId>)
    requires Wellformed(db)
    ensures Wellformed(s.db)
    ensures s.result.Err? <==> modifiedFromId.Some? && modifiedFromId.value !in db.filesMetadata
    ensures s.result.Err? ==> s.result.error == FileNotFound && s.db == db
    ensures s.result.Ok? ==> s.result.value == |db.filesMetadata| + 1 && s.result.value !in db.filesMetadata
    ensures s.result.Ok? ==> Extends(db, s.db) && |s.db.filesMetadata| == |db.filesMetadata| + 1
    ensures s.result.Ok? ==>
              s.db.filesMetadata == db.filesMetadata[s.result.value := s.db.filesMetadata[s.result.value]] &&
              s.db.regularFilesContents == db.regularFilesContents &&
              s.db.directoriesContents == db.directoriesContents + EdgesOf(s.result.value, content)
    ensures s.result.Ok? ==> NewMetadata(db, s.result.value, DirectoryType, rmtime, mtime, modifiedFromId)
                             == Ok(s.db.filesMetadata[s.result.value])
  {
    var id := NextFileId(db);
    match NewMetadata(db, id, DirectoryType, rmtime, mtime, modifiedFromId)
    case Err(e) => Step(Err(e), db)
    case Ok(metadata) =>
      InsertMetadata(db, DirectoryType, rmtime, mtime, modifiedFromId, metadata);
      var after := Tables(db.filesMetadata[id := metadata],
                          db.regularFilesContents,
                          db.directoriesContents + EdgesOf(id, content));
      assert after.directoriesContents[..|db.directoriesContents|] == db.directoriesContents;
      Step(Ok(id), after)
  }

  // ---------------------------------------------------------------------
  // Lemmas about rows and the append-only store

  lemma {:induction false} RowsAppend(a: seq<Edge>, b: seq<Edge>, parentId: FileId)
    ensures Rows(a + b, parentId) == Rows(a, parentId) + Rows(b, parentId)
  {
    if a == [] {
      assert a + b == b;
    } else {
      assert (a + b)[1..] == a[1..] + b;
      RowsAppend(a[1..], b, parentId);
    }
  }

  lemma {:induction false} RowsAbsent(edges: seq<Edge>, parentId: FileId)
    requires forall e :: e in edges ==> e.parentId != parentId
    ensures Rows(edges, parentId) == []
  {
    if edges != [] {
      RowsAbsent(edges[1..], parentId);
    }
  }

  /** A node with directory rows is a stored directory. */
  lemma RowsHaveStoredParent(db: Tables, id: FileId)
    requires Wellformed(db) && Rows(db.directoriesContents, id) != []
    ensures id in db.filesMetadata && db.filesMetadata[id].fileType == DirectoryType
  {
    var items := Rows(db.directoriesContents, id);
    assert Edge(id, items[0]) in db.directoriesContents;
  }

  lemma {:induction false} RowsOfEdges(parentId: FileId, items: DirectoryContent)
    ensures Rows(EdgesOf(parentId, items), parentId) == items
  {
    if items != [] {
      assert EdgesOf(parentId, items)[1..] == EdgesOf(parentId, items[1..]);
      RowsOfEdges(parentId, items[1..]);
    }
  }

  /** Directory rows of a node that was stored before an append are exactly
      what they were: the appended rows hang under new parents. */
  lemma ChildrenStable(before: Tables, after: Tables, id: FileId)
    requires Wellformed(before) && Extends(before, after)
    requires id in before.filesMetadata || Rows(before.directoriesContents, id) != []
    ensures GetDirectoryContentUnsafe(after, id) == GetDirectoryContentUnsafe(before, id)
  {
    var old_ := before.directoriesContents;
    var added := after.directoriesContents[|old_|..];
    assert after.directoriesContents == old_ + added;
    if id !in before.filesMetadata {
      RowsHaveStoredParent(before, id);
    }
    forall e | e in added ensures e.parentId != id {
      var k :| 0 <= k < |added| && added[k] == e;
      assert after.directoriesContents[|old_| + k] == e;
    }
    RowsAbsent(added, id);
    RowsAppend(old_, added, id);
  }

  lemma ExtendsTransitive(a: Tables, b: Tables, c: Tables)
    requires Extends(a, b) && Extends(b, c)
    ensures Extends(a, c)
  {
    var ea, eb, ec := a.directoriesContents, b.directoriesContents, c.directoriesContents;
    assert ec[..|ea|] == ec[..|eb|][..|ea|];
    forall i | |ea| <= i < |ec| ensures ec[i].parentId !in a.filesMetadata {
      if i < |eb| {
        assert ec[i] == ec[..|eb|][i];
      }
    }
  }

  lemma ExtendsReflexive(db: Tables)
    ensures Extends(db, db)
  {
    assert db.directoriesContents[..|db.directoriesContents|] == db.directoriesContents;
  }

  /** Round trip of `makeRegularFile`: the new id reads back as a regular
      file with exactly the given bytes. */
  lemma MakeRegularFileRoundTrip(db: Tables, rmtime: int, mtime: int, content: Bytes, modifiedFromId: Option<FileId>)
    requires Wellformed(db)
    requires MakeRegularFile(db, rmtime, mtime, content, modifiedFromId).result.Ok?
    ensures var s := MakeRegularFile(db, rmtime, mtime, content, modifiedFromId);
            GetRegularFileContent(s.db, s.result.value) == Ok(content) &&
            GetFileMetadata(s.db, s.result.value).Ok? &&
            GetFileMetadata(s.db, s.result.value).value.fileType == RegularType &&
            GetDirectoryContentUnsafe(s.db, s.result.value) == []
  {
    var s := MakeRegularFile(db, rmtime, mtime, content, modifiedFromId);
    var id := s.result.value;
    assert forall e :: e in db.directoriesContents ==> e.parentId != id;
    RowsAbsent(db.directoriesContents, id);
  }

  /** Round trip of `makeDirectory`: the new id reads back as a directory
      whose items are exactly the given ones, in order, with their ids,
      names and creation times unchanged. */
  lemma MakeDirectoryRoundTrip(db: Tables, rmtime: int, mtime: int, content: DirectoryContent, modifiedFromId: Option<FileId>)
    requires Wellformed(db)
    requires MakeDirectory(db, rmtime, mtime, content, modifiedFromId).result.Ok?
    ensures var s := MakeDirectory(db, rmtime, mtime, content, modifiedFromId);
            GetDirectory(s.db, s.result.value) == Ok(Directory(s.db.filesMetadata[s.result.value], content)) &&
            GetRegularFileContent(s.db, s.result.value).Err?
  {
    var s := MakeDirectory(db, rmtime, mtime, content, modifiedFromId);
    var id := s.result.value;
    var edges := db.directoriesContents;
    assert forall e :: e in edges ==> e.parentId != id;
    RowsAbsent(edges, id);
    RowsOfEdges(id, content);
    RowsAppend(edges, EdgesOf(id, content), id);
    assert GetDirectoryContentUnsafe(s.db, id) == content;
    assert s.db.filesMetadata[id].fileType == DirectoryType;
  }
}
