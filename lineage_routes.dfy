/** The compiled file router, whose `validateBranch` also checks lineage:
    the request's root must belong to the same lineage as its branch (the
    same first version) before its staleness is looked at. Its handlers
    build the leaf themselves and link it with the draft engine's
    `createFile` and `updateFile`; they open no transaction and never
    advance the branch. Each handler is a function from the tables before
    the request to its reply and the tables after it. */
module LineageRoutes {
  import opened Types
  import opened Store
  import opened Engine
  import Kernel
  import Draft
  import Deletion
  import View
  import opened Branches
  import FileRoutes

  /** What the branch registry reports for a branch: the first version of
      its lineage and its latest root. */
  datatype BranchVersions = BranchVersions(firstVersionId: FileId, latestVersionId: FileId)

  /** What a handler answers: a bare status, the new root in the
      `ROOT-FILE-ID` header, or the file view of a read. */
  datatype Reply = Status(code: int) | NewRoot(rootFileId: FileId) | Body(view: FileView)

  datatype Transition = Transition(reply: Reply, db: Tables)

  /** `validateBranch`: fails unless the branch is known, the root is
      stored and both have the same first version; then answers whether
      the root is the branch's latest. */
  function ValidateBranch(db: Tables, branches: map<BranchId, BranchVersions>, branchId: BranchId, rootId: FileId)
    : (r: Result<bool>)
    ensures r.Ok? <==>
              && branchId in branches && rootId in db.filesMetadata
              && db.filesMetadata[rootId].firstVersionId == branches[branchId].firstVersionId
    ensures r.Ok? ==> (r.value <==> rootId == branches[branchId].latestVersionId)
  {
    if branchId !in branches then Err(AssertionFailed)
    else
      var versions := branches[branchId];
      var rootMetadata :- Kernel.GetFileMetadata(db, rootId);
      if versions.firstVersionId != rootMetadata.firstVersionId then Err(AssertionFailed)
      else Ok(versions.latestVersionId == rootId)
  }

  /** A write proceeds only when the time header is there and the branch
      check returns true. */
  predicate Admitted(db: Tables, branches: map<BranchId, BranchVersions>, req: FileRoutes.Request) {
    req.time.Some? && ValidateBranch(db, branches, req.branch, req.root) == Ok(true)
  }

  /** `GET`: only a failed lineage check refuses the read (400); a root of
      the branch's lineage that is not its latest is still read. The node
      the path names is shown as its bytes when it has any, else as its
      listing; a path that does not resolve is 404. */
  function Get(db: Tables, branches: map<BranchId, BranchVersions>, req: FileRoutes.Request): (reply: Reply)
    ensures req.time.None? || ValidateBranch(db, branches, req.branch, req.root).Err? ==> reply == Status(400)
  {
    if req.time.None? then Status(400)
    else if ValidateBranch(db, branches, req.branch, req.root).Err? then Status(400)
    else
      match Kernel.RetrieveFileId(db, req.root, req.path)
      case Err(_) => Status(404)
      case Ok(fileId) =>
        match Kernel.GetRegularFileContent(db, fileId)
        case Ok(bytes) => Body(RegularView(bytes))
        case Err(_) => Body(DirectoryView(GetDirectoryViewUnsafe(db, fileId, MtimeColumn)))
  }

  /** Once the lineage check passes, stale or not, a read shows exactly the
      view's file view with each child's `mtime` in the listing, as the
      compiled engine's listing query selects, and 404 where the view
      reports the file missing. */
  lemma GetMatchesView(db: Tables, branches: map<BranchId, BranchVersions>, req: FileRoutes.Request)
    requires Wellformed(db)
    requires req.time.Some? && ValidateBranch(db, branches, req.branch, req.root).Ok?
    ensures Get(db, branches, req) ==
              match View.FileViewAt(db, req.root, req.path, MtimeColumn)
              case Ok(v) => Body(v)
              case Err(_) => Status(404)
  {
    Kernel.RetrieveFileIdMatches(db, req.root, req.path);
  }

  /** `PATCH`: builds the leaf (a regular file for a markdown body, an
      empty directory otherwise), then links it under the last segment of
      the path. With no transaction, a failed link leaves the leaf stored. */
  function Patch(db: Tables, branches: map<BranchId, BranchVersions>, req: FileRoutes.Request): (t: Transition)
    requires Wellformed(db) && req.path != []
    ensures Wellformed(t.db) && Extends(db, t.db)
    ensures !Admitted(db, branches, req) ==> t == Transition(Status(400), db)
    ensures Admitted(db, branches, req) && t.reply.NewRoot? ==>
              |t.db.filesMetadata| == |db.filesMetadata| + |req.path| + 1
    ensures Admitted(db, branches, req) && !t.reply.NewRoot? ==>
              t.reply == Status(409) && |t.db.filesMetadata| == |db.filesMetadata| + 1
  {
    if !Admitted(db, branches, req) then
      ExtendsReflexive(db);
      Transition(Status(400), db)
    else
      var time := req.time.value;
      var leaf := MakeLeaf(db, FileRoutes.PatchContent(req), time);
      var s := Draft.CreateFile(leaf.db, req.root, req.path[..|req.path| - 1], leaf.result.value,
                                req.path[|req.path| - 1], time);
      Draft.CreateFileMatchesKernel(leaf.db, req.root, req.path[..|req.path| - 1], leaf.result.value,
                                    req.path[|req.path| - 1], time);
      Kernel.CreateFileFromIdMatches(leaf.db, req.root, req.path[..|req.path| - 1], req.path[|req.path| - 1],
                                     leaf.result.value, time);
      if s.result.Err? then Transition(Status(409), leaf.db)
      else
        ExtendsTransitive(db, leaf.db, s.db);
        Transition(NewRoot(s.result.value), s.db)
  }

  /** In a store whose entries all point at stored nodes, `PATCH` links
      the leaf exactly when the directory part of the path resolves to a
      directory without the new name. */
  lemma PatchSucceeds(db: Tables, branches: map<BranchId, BranchVersions>, req: FileRoutes.Request)
    requires Wellformed(db) && Closed(db) && req.path != [] && Admitted(db, branches, req)
    ensures Patch(db, branches, req).reply.NewRoot? <==>
              NameFreeAt(db, req.root, req.path[..|req.path| - 1], req.path[|req.path| - 1])
  {
    var dirPath, name := req.path[..|req.path| - 1], req.path[|req.path| - 1];
    var leaf := MakeLeaf(db, FileRoutes.PatchContent(req), req.time.value);
    var s := Draft.CreateFile(leaf.db, req.root, dirPath, leaf.result.value, name, req.time.value);
    assert Patch(db, branches, req).reply.NewRoot? <==> s.result.Ok?;
    Draft.CreateFileMatchesKernel(leaf.db, req.root, dirPath, leaf.result.value, name, req.time.value);
    Kernel.CreateFileFromIdMatches(leaf.db, req.root, dirPath, name, leaf.result.value, req.time.value);
    CreateFileFromIdSucceeds(leaf.db, req.root, dirPath, name, leaf.result.value, req.time.value);
    NameFreeAtStable(db, leaf.db, req.root, dirPath, name);
  }

  /** `PUT`: builds a new leaf the same way, then relinks it at the path;
      a failed relink answers 404 and leaves the leaf stored. */
  function Put(db: Tables, branches: map<BranchId, BranchVersions>, req: FileRoutes.Request): (t: Transition)
    requires Wellformed(db) && req.path != []
    ensures Wellformed(t.db) && Extends(db, t.db)
    ensures !Admitted(db, branches, req) ==> t == Transition(Status(400), db)
    ensures Admitted(db, branches, req) && t.reply.NewRoot? ==>
              |t.db.filesMetadata| == |db.filesMetadata| + |req.path| + 1
    ensures Admitted(db, branches, req) && !t.reply.NewRoot? ==>
              t.reply == Status(404) && |t.db.filesMetadata| == |db.filesMetadata| + 1
  {
    if !Admitted(db, branches, req) then
      ExtendsReflexive(db);
      Transition(Status(400), db)
    else
      var time := req.time.value;
      var leaf := MakeLeaf(db, FileRoutes.PatchContent(req), time);
      var s := Draft.UpdateFile(leaf.db, req.root, req.path, leaf.result.value, time);
      if s.result.Err? then Transition(Status(404), leaf.db)
      else
        ExtendsTransitive(db, leaf.db, s.db);
        Transition(NewRoot(s.result.value), s.db)
  }

  /** In a store whose entries all point at stored nodes, `PUT` relinks
      the leaf exactly where the path resolves. */
  lemma PutSucceeds(db: Tables, branches: map<BranchId, BranchVersions>, req: FileRoutes.Request)
    requires Wellformed(db) && Closed(db) && req.path != [] && Admitted(db, branches, req)
    ensures Put(db, branches, req).reply.NewRoot? <==> RetrieveFileId(db, req.root, req.path).Ok?
  {
    var leaf := MakeLeaf(db, FileRoutes.PatchContent(req), req.time.value);
    var s := Draft.UpdateFile(leaf.db, req.root, req.path, leaf.result.value, req.time.value);
    assert Put(db, branches, req).reply.NewRoot? <==> s.result.Ok?;
    Draft.UpdateFileSucceeds(leaf.db, req.root, req.path, leaf.result.value, req.time.value);
    RetrieveImmutable(db, leaf.db, req.root, req.path);
  }

  /** `DELETE`: removes the entry at the path; a failure answers 404 and
      writes nothing. */
  function Delete(db: Tables, branches: map<BranchId, BranchVersions>, req: FileRoutes.Request): (t: Transition)
    requires Wellformed(db) && req.path != []
    ensures Wellformed(t.db) && Extends(db, t.db)
    ensures !Admitted(db, branches, req) ==> t == Transition(Status(400), db)
    ensures Admitted(db, branches, req) && t.reply.NewRoot? ==>
              |t.db.filesMetadata| == |db.filesMetadata| + |req.path|
    ensures Admitted(db, branches, req) && !t.reply.NewRoot? ==> t == Transition(Status(404), db)
  {
    if !Admitted(db, branches, req) then
      ExtendsReflexive(db);
      Transition(Status(400), db)
    else
      var s := Draft.DeleteFile(db, req.root, req.path, req.time.value);
      Draft.DeleteFileMatchesKernel(db, req.root, req.path, req.time.value);
      Kernel.DeleteFileMatches(db, req.root, req.path, req.time.value);
      if s.result.Err? then
        ExtendsReflexive(db);
        Transition(Status(404), db)
      else Transition(NewRoot(s.result.value.value), s.db)
  }

  /** `DELETE` removes the entry exactly where the path resolves. */
  lemma DeleteSucceeds(db: Tables, branches: map<BranchId, BranchVersions>, req: FileRoutes.Request)
    requires Wellformed(db) && req.path != [] && Admitted(db, branches, req)
    ensures Delete(db, branches, req).reply.NewRoot? <==> RetrieveFileId(db, req.root, req.path).Ok?
  {
    Draft.DeleteFileMatchesKernel(db, req.root, req.path, req.time.value);
    Kernel.DeleteFileMatches(db, req.root, req.path, req.time.value);
    Deletion.DeleteFileSucceeds(db, req.root, req.path, req.time.value);
  }
}
