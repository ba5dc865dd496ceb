/** The file router: reads the path parameter and the `Time` header,
    checks that the request's root is its branch's latest version, runs
    one write of the view, and advances the branch to the root the write
    returns. The `ffs` package's calls are mapped onto the view:
    `getFileView` is `retrieveFileView`, `makeRegularFileByContent` and
    `makeEmptyDirectory` are `createFile` with bytes or with no items,
    `modifyRegularFileContent` is `updateFile` and `removeFile` is
    `deleteFile`. */
module FileRoutes {
  import opened Types
  import opened Store
  import opened Engine
  import Deletion
  import Updating
  import opened View
  import opened Branches

  // ---------------------------------------------------------------------
  // Path splitting

  /** JavaScript's `s.split('/')`: the pieces between slashes, at least one. */
  function Split(s: string): (parts: seq<string>)
    decreases |s|
    ensures |parts| >= 1
    ensures forall k :: 0 <= k < |parts| ==> '/' !in parts[k]
  {
    if s == [] then [""]
    else
      var rest := Split(s[1..]);
      if s[0] == '/' then [""] + rest
      else
        assert '/' !in [s[0]] + rest[0];
        [[s[0]] + rest[0]] + rest[1..]
  }

  /** `parts.join('/')`. */
  function Join(parts: seq<string>): string
    requires |parts| >= 1
    decreases |parts|
  {
    if |parts| == 1 then parts[0] else parts[0] + "/" + Join(parts[1..])
  }

  lemma JoinCons(c: char, parts: seq<string>)
    requires |parts| >= 1
    ensures Join([[c] + parts[0]] + parts[1..]) == [c] + Join(parts)
  {
    var q := [[c] + parts[0]] + parts[1..];
    if |parts| > 1 {
      assert q[1..] == parts[1..];
    }
  }

  /** Joining the pieces gives back the string. */
  lemma {:induction false} JoinSplit(s: string)
    decreases |s|
    ensures Join(Split(s)) == s
  {
    if s != [] {
      JoinSplit(s[1..]);
      var rest := Split(s[1..]);
      if s[0] == '/' {
        assert ([""] + rest)[1..] == rest;
        assert s == "/" + s[1..];
      } else {
        JoinCons(s[0], rest);
        assert s == [s[0]] + s[1..];
      }
    }
  }

  /** Splitting a string that starts with a slash-free piece `a`. */
  lemma {:induction false} SplitPrefix(a: string, t: string)
    requires '/' !in a
    decreases |a|
    ensures Split(a + t) == [a + Split(t)[0]] + Split(t)[1..]
  {
    if a != [] {
      assert (a + t)[1..] == a[1..] + t;
      assert (a + t)[0] == a[0];
      SplitPrefix(a[1..], t);
      assert [a[0]] + (a[1..] + Split(t)[0]) == a + Split(t)[0];
    } else {
      assert a + t == t && a + Split(t)[0] == Split(t)[0];
    }
  }

  /** Splitting slash-free pieces joined by slashes gives back the pieces. */
  lemma {:induction false} SplitJoin(parts: seq<string>)
    requires |parts| >= 1
    requires forall k :: 0 <= k < |parts| ==> '/' !in parts[k]
    decreases |parts|
    ensures Split(Join(parts)) == parts
  {
    if |parts| == 1 {
      SplitPrefix(parts[0], "");
      assert parts[0] + "" == parts[0];
    } else {
      var j := Join(parts[1..]);
      SplitJoin(parts[1..]);
      SplitPrefix(parts[0], "/" + j);
      assert parts[0] + "/" + j == parts[0] + ("/" + j);
      assert ("/" + j)[1..] == j;
      assert Split("/" + j) == [""] + parts[1..];
      assert parts[0] + "" == parts[0];
      assert parts == [parts[0]] + parts[1..];
    }
  }

  /** The route's path parameter as segments: an absent or empty parameter
      is the empty path; otherwise the pieces between slashes, which join
      back to the parameter. */
  function SplitPath(param: string): (path: Path)
    ensures path == [] <==> param == ""
    ensures param != "" ==> Join(path) == param
    ensures forall k :: 0 <= k < |path| ==> '/' !in path[k]
  {
    if param == "" then []
    else
      JoinSplit(param);
      Split(param)
  }

  // ---------------------------------------------------------------------
  // Requests and responses

  /** A request after the catch-all handler: the `Branch-Id` and
      `Root-File-Id` headers, the `Time` header when it is present and an
      integer, the split path, the body, and whether it is `text/markdown`. */
  datatype Request = Request(branch: BranchId, root: FileId, time: Option<int>, path: Path, body: Bytes,
                             isMarkdown: bool)

  /** What a handler answers: a status, the root reported in
      `Root-File-Id`, and the body of a read; or an exception that no
      handler catches. */
  datatype Outcome = Respond(status: int, rootFileId: Option<FileId>, body: Option<FileView>) | Uncaught

  /** The status for an engine error: 404 for a missing file, 409 for an
      existing one; anything that is not an `ExternalError` escapes. */
  function ErrorOutcome(e: Error): (o: Outcome)
    ensures o.Uncaught? <==> !IsExternalError(e)
    ensures o.Respond? ==> o.rootFileId.None? && o.body.None?
    ensures o.Respond? ==> (o.status == 404 <==> e.FileNotFound?) && (o.status == 409 <==> e.FileAlreadyExists?)
  {
    match e
    case FileNotFound => Respond(404, None, None)
    case FileAlreadyExists => Respond(409, None, None)
    case _ => Uncaught
  }

  /** `validateBranch`: `None` when the root the request names is its
      branch's latest version, 409 when it is another one; the registry's
      `assert` on an unknown branch escapes. */
  function BranchCheck(branches: map<BranchId, Branch>, branchId: BranchId, rootId: FileId): (r: Option<Outcome>)
    ensures r.None? <==> Latest(branches, branchId) == Ok(rootId)
    ensures branchId !in branches ==> r == Some(Uncaught)
    ensures branchId in branches && r.Some? ==> r == Some(Respond(409, None, None))
  {
    match Latest(branches, branchId)
    case Err(_) => Some(Uncaught)
    case Ok(latest) => if latest == rootId then None else Some(Respond(409, None, None))
  }

  /** What a write handler leaves once its checks pass and the engine has
      run: on success the engine's rows, the branch advanced to exactly
      the engine's new root, and that root reported with 200; on failure
      the status of the error, the tables as they were and the branch
      unchanged. */
  ghost predicate Settled(engineResult: Result<FileId>, engineDb: Tables, dbBefore: Tables,
                          branchesBefore: map<BranchId, Branch>, branchId: BranchId,
                          out: Outcome, dbAfter: Tables, branchesAfter: map<BranchId, Branch>)
  {
    match engineResult
    case Ok(newRoot) =>
      && out == Respond(200, Some(newRoot), None)
      && dbAfter == engineDb
      && branchesAfter == WithLatest(branchesBefore, branchId, newRoot)
    case Err(e) =>
      && out == ErrorOutcome(e)
      && dbAfter == dbBefore
      && branchesAfter == branchesBefore
  }

  /** The content `PATCH` creates: the body as a regular file when it is
      markdown, an empty directory otherwise. */
  function PatchContent(req: Request): (content: FileContent)
    ensures IsRegularFileContent(content) <==> req.isMarkdown
    ensures content.RegularContent? ==> content.bytes == req.body
    ensures content.DirectoryItems? ==> content.items == []
  {
    if req.isMarkdown then RegularContent(req.body) else DirectoryItems([])
  }

  class FileRouter {
    const view: FfsView
    const users: Users

    constructor (view: FfsView, users: Users)
      ensures this.view == view && this.users == users
    {
      this.view := view;
      this.users := users;
    }

    ghost predicate Valid()
      reads view.kernel
    {
      view.Valid()
    }

    /** `validateBranch`: reads the registry and changes nothing. */
    method ValidateBranch(branchId: BranchId, rootId: FileId) returns (r: Option<Outcome>)
      ensures r == BranchCheck(users.branches, branchId, rootId)
    {
      var latest := users.GetLatestVersion(branchId);
      if latest.Err? {
        return Some(Uncaught);
      }
      if latest.value != rootId {
        return Some(Respond(409, None, None));
      }
      r := None;
    }

    /** `GET`: a stale root is refused like a write; otherwise the file
      view at the path, 404 when the path does not resolve. */
    method Get(req: Request) returns (out: Outcome)
      ensures var check := BranchCheck(users.branches, req.branch, req.root);
              out == if check.Some? then check.value
                     else match FileViewAt(view.kernel.Db(), req.root, req.path, RmtimeColumn)
                          case Ok(v) => Respond(200, None, Some(v))
                          case Err(e) => ErrorOutcome(e)
      ensures out.Respond? && out.status == 200 ==>
                users.branches[req.branch].latestVersionId == req.root &&
                RetrieveFileId(view.kernel.Db(), req.root, req.path).Ok?
    {
      var check := ValidateBranch(req.branch, req.root);
      if check.Some? {
        return check.value;
      }
      var fileView := view.RetrieveFileView(req.root, req.path);
      if fileView.Err? {
        return ErrorOutcome(fileView.error);
      }
      out := Respond(200, None, Some(fileView.value));
    }

    /** `PATCH`: creates the last segment of the path in the directory the
      other segments name. Nothing is written unless the time header is
      there and the branch check passes. */
    method Patch(req: Request) returns (out: Outcome)
      requires Valid() && req.path != []
      modifies view.kernel, users
      ensures Valid()
      ensures req.time.None? ==>
                out == Respond(400, None, None) && view.kernel.Db() == old(view.kernel.Db()) && unchanged(users)
      ensures req.time.Some? && old(BranchCheck(users.branches, req.branch, req.root)).Some? ==>
                && out == old(BranchCheck(users.branches, req.branch, req.root)).value
                && view.kernel.Db() == old(view.kernel.Db()) && unchanged(users)
      ensures req.time.Some? && old(BranchCheck(users.branches, req.branch, req.root)).None? ==>
                var s := Engine.CreateFile(old(view.kernel.Db()), req.root, req.path[..|req.path| - 1],
                                           req.path[|req.path| - 1], PatchContent(req), req.time.value);
                Settled(s.result, s.db, old(view.kernel.Db()), old(users.branches), req.branch,
                        out, view.kernel.Db(), users.branches)
    {
      if req.time.None? {
        return Respond(400, None, None);
      }
      var check := ValidateBranch(req.branch, req.root);
      if check.Some? {
        return check.value;
      }
      var dirPath := req.path[..|req.path| - 1];
      var fileName := req.path[|req.path| - 1];
      var newRoot := view.CreateFile(req.root, dirPath, fileName, PatchContent(req), req.time.value);
      if newRoot.Err? {
        return ErrorOutcome(newRoot.error);
      }
      users.SetLatestVersion(req.branch, newRoot.value);
      out := Respond(200, Some(newRoot.value), None);
    }

    /** `PUT`: replaces the bytes of the file at the path. A body that is
      not markdown is refused with 406 before anything is written. */
    method Put(req: Request) returns (out: Outcome)
      requires Valid() && req.path != []
      modifies view.kernel, users
      ensures Valid()
      ensures req.time.None? ==>
                out == Respond(400, None, None) && view.kernel.Db() == old(view.kernel.Db()) && unchanged(users)
      ensures req.time.Some? && old(BranchCheck(users.branches, req.branch, req.root)).Some? ==>
                && out == old(BranchCheck(users.branches, req.branch, req.root)).value
                && view.kernel.Db() == old(view.kernel.Db()) && unchanged(users)
      ensures req.time.Some? && old(BranchCheck(users.branches, req.branch, req.root)).None? && !req.isMarkdown ==>
                out == Respond(406, None, None) && view.kernel.Db() == old(view.kernel.Db()) && unchanged(users)
      ensures req.time.Some? && old(BranchCheck(users.branches, req.branch, req.root)).None? && req.isMarkdown ==>
                var s := Updating.UpdateFile(old(view.kernel.Db()), req.root, req.path, req.body, req.time.value);
                Settled(s.result, s.db, old(view.kernel.Db()), old(users.branches), req.branch,
                        out, view.kernel.Db(), users.branches)
    {
      if req.time.None? {
        return Respond(400, None, None);
      }
      var check := ValidateBranch(req.branch, req.root);
      if check.Some? {
        return check.value;
      }
      if !req.isMarkdown {
        return Respond(406, None, None);
      }
      var newRoot := view.UpdateFile(req.root, req.path, req.body, req.time.value);
      if newRoot.Err? {
        return ErrorOutcome(newRoot.error);
      }
      users.SetLatestVersion(req.branch, newRoot.value);
      out := Respond(200, Some(newRoot.value), None);
    }

    /** `DELETE`: removes the file at the path; the route has at least one
      segment, so a successful removal always yields a new root. */
    method Delete(req: Request) returns (out: Outcome)
      requires Valid() && req.path != []
      modifies view.kernel, users
      ensures Valid()
      ensures req.time.None? ==>
                out == Respond(400, None, None) && view.kernel.Db() == old(view.kernel.Db()) && unchanged(users)
      ensures req.time.Some? && old(BranchCheck(users.branches, req.branch, req.root)).Some? ==>
                && out == old(BranchCheck(users.branches, req.branch, req.root)).value
                && view.kernel.Db() == old(view.kernel.Db()) && unchanged(users)
      ensures req.time.Some? && old(BranchCheck(users.branches, req.branch, req.root)).None? ==>
                var s := Deletion.DeleteFile(old(view.kernel.Db()), req.root, req.path, req.time.value);
                && (s.result.Ok? ==> s.result.value.Some?)
                && Settled(if s.result.Ok? then Ok(s.result.value.value) else Err(s.result.error), s.db,
                           old(view.kernel.Db()), old(users.branches), req.branch,
                           out, view.kernel.Db(), users.branches)
    {
      if req.time.None? {
        return Respond(400, None, None);
      }
      var check := ValidateBranch(req.branch, req.root);
      if check.Some? {
        return check.value;
      }
      var newRoot := view.DeleteFile(req.root, req.path, req.time.value);
      if newRoot.Err? {
        return ErrorOutcome(newRoot.error);
      }
      users.SetLatestVersion(req.branch, newRoot.value.value);
      out := Respond(200, Some(newRoot.value.value), None);
    }
  }
}
