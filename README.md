# Functional file system engine

A model of the copy-on-write file system engine behind a versioned
markdown-notes server. Every file and directory is an immutable node in
three append-only tables:

- `files_metadata`: one row per node, with its type, times, previous
  version and first version;
- `regular_files_contents`: the bytes of regular files;
- `directories_contents`: one row per directory entry.

A write never changes a row. Creating, updating or deleting a file at a
path builds a new leaf. It then builds one new directory version for each
ancestor on the path, up to a new root, and returns that root. Every
subtree that the path does not touch is shared between the old root and
the new one.

Branches record their latest root. The HTTP routers check the root a
client sends against its branch and advance the branch after a write.

The model is split like the program:

| Dafny module | what it models |
|---|---|
| `Types` | the ids, file types, metadata, directory items and error kinds |
| `Store` | the three tables as a value (`Tables`), the getters and the `make*` primitives of `src/ffs/model.ts`, and well-formedness: ids dense from 1, lineage consistent, contents typed by their node's type |
| `Model` | the class that owns the tables; `makeUniqueFileId`, `makeRegularFile` and `makeDirectory` update its fields |
| `Engine`, `Deletion`, `Updating` | the path operations of `src/ffs/controller.ts` as functions from tables to a result and new tables, with the lemmas about them |
| `Controller` | the same operations as the methods the controller runs against the `Model` object, proved equal to those functions |
| `View` | `src/ffs/view.ts`: the file view of a path, and every write in a transaction that is rolled back on failure |
| `Kernel` | `src/ffs/kernel.ts`, the merged model and controller, which fails a bare `assert` wherever the controller raises a file-system error |
| `Draft` | the engine of `src/ffs/ffs.ts`, with its `makeDirectory` corrected (see Findings) and proved equal to the kernel: retrieve against the view's file view, create and delete directly, and update once the caller has written the new leaf |
| `FirstDraft` | `src/ffs.ts`, the first engine, with a single time column and reads of missing rows |
| `Branches` | `src/users.ts`: branches, subscriptions, and reading and setting a branch's latest root |
| `FileRoutes` | `src/routes/files.ts`: path splitting, the branch check, and the four handlers over the view and the branch registry |
| `LineageRoutes` | `build/routes.js`: the compiled router, whose branch check also compares lineages and whose handlers never advance the branch |

Time is an input to every write, as the routes' `time` header supplies it.
The next file id is computed from the table size, as `makeUniqueFileId`
does. SQLite, the HTTP server and the request parsing are not modelled.

The main results:

- **Success conditions.** Each path operation succeeds exactly when its
  path resolves (`*Succeeds` lemmas):
  - create: the directory part of the path resolves to a directory that
    does not yet hold the name;
  - update and delete: the path itself resolves.
- **Rejected writes.** A failed delete, update or link (`createFileFromId`)
  leaves the tables unchanged, and so does every write inside the view's
  transaction. A failed `createFile` of the controller or the kernel, and a
  failed PATCH or PUT of build/routes.js, keeps the leaf it stored first
  and writes nothing else.
- **Append-only.** A write that succeeds only appends (`Extends`). It adds
  one node per path segment, plus the leaf.
- **Round trips.** Reading the path under the new root finds what was
  written (`*RoundTrip`). After a delete, the path no longer resolves
  (`Deletion.DeleteFileRemoved`).
- **Rebuilt ancestors.** Each rebuilt ancestor is a new version of the old
  one, with the expected times (`*Ancestor`, `*Target`).
- **Sharing.** Every path that diverges from the written one resolves
  under the new root exactly as under the old root (`*Sharing`).
- **Invariants kept.** Directory names stay unique (`*KeepsNames`). Every
  entry keeps pointing at a stored node (`*KeepsClosed`).
- **Engines agree.** The kernel is proved equal to the controller engine,
  up to the kind of error each raises. The draft engine, with its
  `makeDirectory` corrected (see Findings), is proved equal to the kernel:
  - retrieve, against the view's file view;
  - create and delete, directly;
  - update, once the caller has stored the new version of the resolved
    node, as the kernel does at the end of the path. The first
  draft writes different times, so it is not proved equal to any of them.
  It has its own success conditions, round trips and removal lemma, stated
  in the same terms as the controller's.
- **Listing times.** A directory listing shows `rmtime` in the model layer
  and the view, and `mtime` in the kernel, the draft engine and the
  compiled model. Whichever column is shown, a read succeeds or fails
  alike and lists the same names, types and creation times
  (`View.FileViewColumns`).

## Model

| member | source | states |
|---|---|---|
| Store.GetFileMetadata | src/ffs/model.ts:79-104 | the metadata row of an id; `ErrorFileNotFound` exactly when there is none |
| Store.GetDirectoryContentItemByName | src/ffs/model.ts:106-126 | finds an entry of that name under the parent; fails with file-not-found exactly when no entry has the name |
| Store.GetDirectoryContentUnsafe | src/ffs/model.ts:136-154 | the listing holds exactly the directory's entry rows, for any id |
| Store.GetDirectory | src/ffs/model.ts:156-163 | succeeds exactly for a stored directory, returning its metadata and listing; file-not-found otherwise |
| Store.GetRegularFileContent | src/ffs/model.ts:165-174 | the stored bytes; file-not-found exactly when there are none |
| Store.JoinMetadata | src/ffs/model.ts:205-221 | when every entry's node is stored, one view line per entry, in order, with its name, type, btime and the selected time column of the node (rmtime here, mtime in src/ffs/kernel.ts:205-221) |
| Store.NextFileId | src/ffs/model.ts:128-134 | the id is positive, and fresh whenever the stored ids are exactly 1..count |
| Store.NewMetadata | src/ffs/model.ts:18-45 | fails exactly when the previous version is missing; otherwise carries the times, links the previous version and inherits its first version (a new lineage when there is none) |
| Store.MakeRegularFile | src/ffs/model.ts:18-45 | a missing previous version fails with file-not-found and writes nothing; otherwise inserts a fresh id with its bytes, touches no entry row and keeps the tables well-formed |
| Store.MakeDirectory | src/ffs/model.ts:47-77 | as above, but appends one entry row per item of the new directory, in order |
| Store.MakeRegularFileRoundTrip | src/ffs/model.ts:18-45 | the new file reads back with its bytes, regular type and no entries |
| Store.MakeDirectoryRoundTrip | src/ffs/model.ts:47-77 | the new directory reads back with its metadata and exactly the given listing, and no bytes |
| Store.ChildrenStable | src/ffs/model.ts:136-154 | appending rows never changes the listing of a node already stored |
| Model.FfsModel.constructor | src/ffs/model.ts:16 | starts with empty, well-formed tables |
| Model.FfsModel.MakeUniqueFileId | src/ffs/model.ts:128-134 | returns the count plus one, which is not a stored id |
| Model.FfsModel.MakeRegularFile | src/ffs/model.ts:18-45 | the fields become what `Store.MakeRegularFile` gives, keeping them well-formed |
| Model.FfsModel.MakeDirectory | src/ffs/model.ts:47-77 | the fields become what `Store.MakeDirectory` gives, keeping them well-formed |
| Engine.RetrieveFileId | src/ffs/controller.ts:13-26 | the empty path is the root; a failure is file-not-found on a non-empty path; a success is the id of an entry named by the last segment |
| Engine.RetrieveAppend | src/ffs/controller.ts:13-26 | resolving `p + q` is resolving `p`, then `q` from there |
| Engine.RetrieveStable | src/ffs/controller.ts:13-26 | a path that resolves keeps resolving to the same node after any append-only write |
| Engine.RetrieveImmutable | src/ffs/controller.ts:13-26 | from a stored root, in tables whose entries all point at stored nodes, no append-only write changes how any path resolves |
| Engine.CreateFileFromId | src/ffs/controller.ts:28-78 | a failure writes nothing; a success appends one directory per level of the path, and the new root is a version of the old one, with the creation time as rmtime, and the creation time as mtime only when the parent is the root |
| Engine.CreateFileFromIdSucceeds | src/ffs/controller.ts:28-78 | succeeds if and only if the directory path resolves to a directory without an entry of that name |
| Engine.CreateFileFromIdConflict | src/ffs/controller.ts:37-39 | a name that is already taken fails the bare `assert` and writes nothing |
| Engine.CreateFileFromIdRoundTrip | src/ffs/controller.ts:28-78 | under the new root, the directory path plus the name resolves to the linked id |
| Engine.CreateFileFromIdTarget | src/ffs/controller.ts:34-48 | the new parent is a version of the old parent, stamped with the creation time, listing the old entries plus the new item at the end |
| Engine.CreateFileFromIdAncestor | src/ffs/controller.ts:49-77 | every rebuilt ancestor is a version of the one it replaces, with rmtime set to the creation time and the old mtime kept |
| Engine.CreateFileFromIdSharing | src/ffs/controller.ts:28-78 | every path that diverges from the created one resolves under the new root as under the old root |
| Engine.CreateFileFromIdKeepsNames | src/ffs/controller.ts:28-78 | directory names stay unique |
| Engine.CreateFileFromIdKeepsClosed | src/ffs/controller.ts:28-78 | linking a stored id keeps every entry pointing at a stored node |
| Engine.CreateFileFromIdDangles | src/ffs/controller.ts:28-78 | the id is linked unchecked: a successful call that leaves the linked id unstored leaves a dangling entry |
| Engine.MakeLeaf | src/ffs/controller.ts:80-91 | stores a new node of the content's type with both times at the creation time, as the first version of its own lineage |
| Engine.CreateFile | src/ffs/controller.ts:80-91 | always appends the leaf; a success also appends one directory per path level plus the new root |
| Engine.CreateFileLeaf | src/ffs/controller.ts:80-91 | the leaf is stored with its metadata, and with its bytes or its listing |
| Engine.CreateFileSucceedsAfterLeaf | src/ffs/controller.ts:80-91 | for any root and well-formed tables, succeeds if and only if, once the leaf is stored, the directory path resolves to a directory without the name |
| Engine.CreateFileSucceeds | src/ffs/controller.ts:80-91 | for tables without dangling entries and a root other than the new leaf, succeeds if and only if the directory path resolves, before the call, to a directory without the name |
| Engine.CreateFileRoundTrip | src/ffs/controller.ts:80-91 | the new path resolves to the new leaf under the new root |
| Engine.CreateFileKeeps | src/ffs/controller.ts:80-91 | unique names and stored entry targets are both preserved |
| Engine.CreateFileSharingAfterLeaf | src/ffs/controller.ts:80-91 | for any root of tables without dangling entries, every path that diverges from the created one resolves under the new root as under the old root once the leaf is stored |
| Engine.CreateFileSharing | src/ffs/controller.ts:80-91 | for a root other than the new leaf, every path that diverges from the created one resolves as before the call |
| Deletion.DeleteFile | src/ffs/controller.ts:93-136 | the empty path returns no root and writes nothing; a failure writes nothing; a success appends one directory per segment, and the new root is a version of the old root, stamped with the deletion time and with mtime changed only at the parent |
| Deletion.DeleteFileSucceeds | src/ffs/controller.ts:93-136 | a non-empty path deletes if and only if it resolves |
| Deletion.DeleteFileTarget | src/ffs/controller.ts:125-134 | the new parent is a version of the old parent that lacks exactly the removed name |
| Deletion.DeleteFileRemoved | src/ffs/controller.ts:93-136 | the deleted path no longer resolves under the new root |
| Deletion.DeleteFileAncestor | src/ffs/controller.ts:109-124 | every rebuilt ancestor above the parent is a version of the old one, with rmtime set to the deletion time |
| Deletion.DeleteFileSharing | src/ffs/controller.ts:93-136 | every path that diverges from the deleted one resolves as before |
| Deletion.DeleteFileKeepsNames | src/ffs/controller.ts:93-136 | directory names stay unique |
| Deletion.DeleteFileKeepsClosed | src/ffs/controller.ts:93-136 | every entry still points at a stored node |
| Updating.UpdateFile | src/ffs/controller.ts:138-176 | a failure writes nothing; a success appends the new leaf and one directory per segment, the result is fresh, and the new root is a version of the old root |
| Updating.UpdateFileSucceeds | src/ffs/controller.ts:138-176 | succeeds if and only if the path resolves to a stored node |
| Updating.UpdateFileRoundTrip | src/ffs/controller.ts:138-176 | the path resolves under the new root to a regular file that is a new version of the old node, holding the new bytes and stamped with the update time |
| Updating.UpdateFileAncestor | src/ffs/controller.ts:150-175 | every rebuilt ancestor is a version of the one it replaces, with rmtime set to the update time |
| Updating.UpdateFileSharing | src/ffs/controller.ts:138-176 | every path that diverges from the updated one resolves as before |
| Updating.UpdateFileKeepsNames | src/ffs/controller.ts:138-176 | directory names stay unique |
| Updating.UpdateFileKeepsClosed | src/ffs/controller.ts:138-176 | every entry still points at a stored node |
| Controller.RetrieveFileId | src/ffs/controller.ts:13-26 | the recursive method returns what `Engine.RetrieveFileId` specifies |
| Controller.CreateFileFromId | src/ffs/controller.ts:28-78 | the result and the model's new tables are those of `Engine.CreateFileFromId` |
| Controller.CreateFile | src/ffs/controller.ts:80-91 | the result and the new tables are those of `Engine.CreateFile` |
| Controller.DeleteFile | src/ffs/controller.ts:93-136 | the result and the new tables are those of `Deletion.DeleteFile` |
| Controller.UpdateFile | src/ffs/controller.ts:138-176 | the result and the new tables are those of `Updating.UpdateFile` |
| View.FileViewAt | src/ffs/view.ts:38-51 | fails, with file-not-found, exactly when the path does not resolve |
| View.FileViewOfRegularFile | src/ffs/view.ts:38-51 | a regular file is shown as its stored bytes |
| View.FileViewOfDirectory | src/ffs/view.ts:38-51 | a directory is shown as one line per entry, in order, with each child's name, type, btime and the selected time column |
| View.JoinColumns | src/ffs/model.ts:205-221 | joining the same entries with either time column gives listings of the same length with the same names, types and btimes |
| View.FileViewColumns | src/ffs/kernel.ts:205-221 | whichever time column a listing selects, a read succeeds or fails alike, shows the same bytes for a regular file and the same names, types and btimes for a directory |
| View.FileViewOfUnstoredRoot | src/ffs/view.ts:38-51 | an unstored root reads as an empty listing |
| View.FfsView.constructor | src/ffs/view.ts:16-18 | wraps the given model |
| View.FfsView.StartTransaction | src/ffs/view.ts:20-24 | takes a snapshot of the current tables |
| View.FfsView.RollbackTransaction | src/ffs/view.ts:32-36 | restores the snapshot |
| View.FfsView.RetrieveFileView | src/ffs/view.ts:38-51 | returns `FileViewAt` of the current tables, listing rmtime, and writes nothing |
| View.FfsView.CreateFileFromId | src/ffs/view.ts:53-70 | returns the engine's result; the tables advance on success and are rolled back on failure |
| View.FfsView.CreateFile | src/ffs/view.ts:72-89 | the same transaction discipline around `Engine.CreateFile`, so a failed create leaves no leaf |
| View.FfsView.DeleteFile | src/ffs/view.ts:91-104 | the same around `Deletion.DeleteFile` |
| View.FfsView.UpdateFile | src/ffs/view.ts:106-120 | the same around `Updating.UpdateFile` |
| View.FfsView.GetFileMetadata | src/ffs/view.ts:122-124 | the row of a stored id; file-not-found exactly when there is none |
| Kernel.GetFileMetadata | src/ffs/kernel.ts:18-43 | the row of a stored id; a failed `assert` exactly when there is none |
| Kernel.GetDirectoryContentItemByName | src/ffs/kernel.ts:45-65 | an entry with the name; a failed `assert` exactly when there is none |
| Kernel.GetDirectory | src/ffs/kernel.ts:156-163 | succeeds exactly for a stored directory |
| Kernel.GetRegularFileContent | src/ffs/kernel.ts:165-174 | the stored bytes; a failed `assert` exactly when there are none |
| Kernel.MakeRegularFile | src/ffs/kernel.ts:75-102 | same as the model's insert, except that a missing previous version fails the `assert` |
| Kernel.MakeDirectory | src/ffs/kernel.ts:104-134 | same as the model's insert, except that a missing previous version fails the `assert`; the new node's first version is its previous version's, or itself when there is none |
| Kernel.RetrieveFileId | src/ffs/kernel.ts:227-240 | the empty path is the root; every failure is the `assert` |
| Kernel.RetrieveFileIdMatches | src/ffs/kernel.ts:227-240 | equals the controller's resolution, with the error turned into the `assert` |
| Kernel.CreateFileFromId | src/ffs/kernel.ts:242-292 | a failure is the `assert` and writes nothing; a success only appends |
| Kernel.CreateFileFromIdMatches | src/ffs/kernel.ts:242-292 | equals the controller's operation, result and tables, with only the error kind changed |
| Kernel.CreateFile | src/ffs/kernel.ts:294-305 | every failure is the `assert` |
| Kernel.CreateFileMatches | src/ffs/kernel.ts:294-305 | equals the controller's `createFile`, with only the error kind changed |
| Kernel.DeleteFile | src/ffs/kernel.ts:307-350 | a failure is the `assert` and writes nothing; a success only appends |
| Kernel.DeleteFileMatches | src/ffs/kernel.ts:307-350 | equals the controller's `deleteFile`, with only the error kind changed |
| Kernel.UpdateFile | src/ffs/kernel.ts:352-390 | a failure is the `assert` and writes nothing; a success only appends |
| Kernel.UpdateFileMatches | src/ffs/kernel.ts:352-390 | equals the controller's `updateFile`, with only the error kind changed |
| Draft.FirstVersionIdOf | src/ffs/ffs.ts:75-84 | the lineage column of the id's own row; an undefined row exactly when the id is not stored |
| Draft.MakeDirectoryAsWritten | src/ffs/ffs.ts:118-152 | a failure writes nothing; a success is only possible when the freshly allocated id already has a row |
| Draft.MakeDirectoryAsWrittenFails | src/ffs/ffs.ts:124-125 | on every well-formed store the as-written `makeDirectory` fails with an undefined row and writes nothing |
| Draft.RetrieveFile | src/ffs/ffs.ts:246-264 | fails only on a non-empty path, with the `assert`; listings show mtime, as src/ffs/ffs.ts:224-240 selects |
| Draft.RetrieveFileMatchesView | src/ffs/ffs.ts:224-264 | equals the view's file view with the mtime column, with the error turned into the `assert` |
| Draft.CreateFile | src/ffs/ffs.ts:266-324 | a failure is the `assert` and writes nothing; a success only appends |
| Draft.CreateFileMatchesKernel | src/ffs/ffs.ts:266-324 | equals the kernel's `createFileFromId` with the same id, name and time |
| Draft.DeleteFile | src/ffs/ffs.ts:326-371 | a failure is the `assert` and writes nothing; a success only appends |
| Draft.DeleteFileMatchesKernel | src/ffs/ffs.ts:326-371 | equals the kernel's `deleteFile` |
| Draft.UpdateFile | src/ffs/ffs.ts:373-406 | the empty path returns the new id and writes nothing; otherwise a success appends one directory per segment, and the new root is a version of the old one, with rmtime set to the update time and the old mtime kept |
| Draft.UpdateFileSucceeds | src/ffs/ffs.ts:373-406 | a non-empty path relinks if and only if it resolves |
| Draft.UpdateFileRoundTrip | src/ffs/ffs.ts:373-406 | the path resolves to the relinked id under the new root |
| Draft.UpdateFileAncestor | src/ffs/ffs.ts:373-406 | every rebuilt ancestor is a version of the one it replaces |
| Draft.UpdateFileMatchesKernel | src/ffs/ffs.ts:373-406 | for a path that resolves to a stored node, writing that node's new version first and then relinking it gives exactly the kernel's `updateFile` result and tables |
| FirstDraft.GetFileMetadata | src/ffs.ts:60-85 | the row of a stored id; an undefined row, not an error, when it is missing |
| FirstDraft.GetRegularFileContent | src/ffs.ts:207-215 | the stored bytes; an undefined row when they are missing |
| FirstDraft.GetChildIdByName | src/ffs.ts:87-100 | the id of an entry with the name; the `assert` exactly when there is none |
| FirstDraft.MakeDirectory | src/ffs.ts:152-184 | writes the single time into both columns; a missing previous version reads an undefined row and writes nothing; the new node's first version is its previous version's, or itself |
| FirstDraft.MakeDirectoryAsWritten | src/ffs.ts:157-158 | on every well-formed store it fails with an undefined row and writes nothing |
| FirstDraft.RetrieveFile | src/ffs.ts:236-253 | never raises a file-not-found or already-exists error |
| FirstDraft.RetrieveFileMatchesView | src/ffs.ts:217-253 | an unresolved path is the `assert`; a resolved, stored node is the view's file view with the single time column; an unstored one is an undefined row |
| FirstDraft.CreateFile | src/ffs.ts:255-311 | a failure is internal and writes nothing; a success appends one directory per level, and the new root carries the creation time only when the parent is the root, otherwise the old time |
| FirstDraft.CreateFileSucceeds | src/ffs.ts:255-311 | succeeds if and only if the directory path resolves to a directory without the name |
| FirstDraft.CreateFileRoundTrip | src/ffs.ts:255-311 | the directory path and the name resolve under the new root to the id passed |
| FirstDraft.DeleteFile | src/ffs.ts:313-356 | the empty path writes nothing; a success appends one directory per segment, and only the parent takes the deletion time |
| FirstDraft.DeleteFileSucceeds | src/ffs.ts:313-356 | a non-empty path deletes if and only if it resolves |
| FirstDraft.DeleteFileParent | src/ffs.ts:313-356 | under the new root the directory path resolves to a stored directory that lacks the deleted name |
| FirstDraft.DeleteFileRemoved | src/ffs.ts:313-356 | the deleted path no longer resolves under the new root |
| FirstDraft.UpdateFile | src/ffs.ts:358-390 | the empty path returns the new id; a success appends one directory per segment, each keeping the time of the one it replaces |
| FirstDraft.UpdateFileSucceeds | src/ffs.ts:358-390 | a non-empty path relinks if and only if it resolves |
| FirstDraft.UpdateFileRoundTrip | src/ffs.ts:358-390 | the path resolves to the relinked id under the new root |
| Branches.Latest | src/users.ts:29-40 | the branch's latest root exactly when the branch exists; otherwise the `assert` on the missing row |
| Branches.WithLatest | src/users.ts:42-48 | only the named branch's latest root changes, and it reads back as the given id; an unknown branch changes nothing |
| Branches.SubscriptionsOf | src/users.ts:13-27 | every line is a subscription of the user to an existing branch, carrying that branch's current name and root; every such subscription appears |
| Branches.SubscriptionsView | src/users.ts:13-27 | an unknown user has no lines; otherwise the lines of `SubscriptionsOf` |
| Branches.Users.constructor | src/users.ts:11 | holds the given tables |
| Branches.Users.GetSubscriptionsView | src/users.ts:13-27 | returns `SubscriptionsView` and changes nothing |
| Branches.Users.GetLatestVersion | src/users.ts:29-40 | returns `Latest` and changes nothing |
| Branches.Users.SetLatestVersion | src/users.ts:42-48 | the branches become `WithLatest`; users and subscriptions are unchanged |
| FileRoutes.Split | src/routes/files.ts:49-51 | JavaScript's `split('/')`: at least one part, and no part contains a slash |
| FileRoutes.JoinSplit | src/routes/files.ts:49-51 | joining the parts with slashes gives back the string |
| FileRoutes.SplitJoin | src/routes/files.ts:49-51 | splitting a join of slash-free parts gives back the parts |
| FileRoutes.SplitPath | src/routes/files.ts:49-51 | an absent path parameter is the empty path; any other parameter splits into slash-free segments that join back to it |
| FileRoutes.ErrorOutcome | src/routes/files.ts:73-78 | file-not-found gives 404, already-exists gives 409, and any other error is rethrown |
| FileRoutes.BranchCheck | src/routes/files.ts:167-170 | passes exactly when the root is the branch's latest; an unknown branch is rethrown; a stale root is 409 |
| FileRoutes.PatchContent | src/routes/files.ts:90-101 | a markdown body becomes a regular file of those bytes; anything else becomes an empty directory |
| FileRoutes.FileRouter.constructor | src/routes/files.ts:29-33 | holds the given view and branch registry |
| FileRoutes.FileRouter.ValidateBranch | src/routes/files.ts:167-170 | returns `BranchCheck` |
| FileRoutes.FileRouter.Get | src/routes/files.ts:60-80 | the branch check's refusal, or else the file view with 200, or the mapped error; a 200 means the root was the latest and the path resolved |
| FileRoutes.FileRouter.Patch | src/routes/files.ts:82-114 | a missing time is 400 and a refused branch check is its status, both with nothing changed; otherwise a created file answers 200 with the new root and advances the branch, and an error answers its status with the tables and branch untouched |
| FileRoutes.FileRouter.Put | src/routes/files.ts:116-140 | as `Patch`, with 406 for a non-markdown body before any write, around `Updating.UpdateFile` |
| FileRoutes.FileRouter.Delete | src/routes/files.ts:142-164 | as `Patch`, around `Deletion.DeleteFile` |
| LineageRoutes.ValidateBranch | build/routes.js:129-134 | passes if and only if the branch is known, the root is stored and both have the same first version; then answers whether the root is the latest |
| LineageRoutes.Get | build/routes.js:46-70 | a missing time or a failed lineage check is 400 |
| LineageRoutes.GetMatchesView | build/routes.js:46-70 | once the lineage check passes, stale root or not, the reply is the file view with the mtime column that build/ffs/model.js:139-150 selects, with 404 where the path does not resolve |
| LineageRoutes.Patch | build/routes.js:71-91 | nothing is written unless the request is admitted; a success appends the leaf and one directory per level; a failure answers 409 and leaves the leaf stored |
| LineageRoutes.PatchSucceeds | build/routes.js:71-91 | an admitted request creates if and only if the directory path resolves to a directory without the name |
| LineageRoutes.Put | build/routes.js:92-110 | nothing is written unless the request is admitted; a failure answers 404 and leaves the new leaf stored |
| LineageRoutes.PutSucceeds | build/routes.js:92-110 | an admitted request relinks if and only if the path resolves |
| LineageRoutes.Delete | build/routes.js:111-127 | nothing is written unless the request is admitted; a failure answers 404 and writes nothing |
| LineageRoutes.DeleteSucceeds | build/routes.js:111-127 | an admitted request deletes if and only if the path resolves |

## Left out

- SQLite itself: each table is a map or a sequence of rows, and each
  statement is the change it makes. Statement-level defects in the SQL text
  are not modelled, and each query is read as its evident intent:
  - the trailing commas in the select lists at src/ffs/kernel.ts:33,
    src/ffs/ffs.ts:32 and src/ffs.ts:67;
  - the nonexistent `subdirectories` table at src/ffs/model.ts:217,
    src/ffs/kernel.ts:217, src/ffs/ffs.ts:236 and src/ffs.ts:224;
  - in the first draft's listing (src/ffs.ts:219-226), the missing comma
    between `files_metadata.mtime AS mtime` and `ctime`, and the join
    `id = ? AND parent_id = id`, which filters on the child's side instead
    of `parent_id = ? AND child_id = id`;
  - the unconditioned join of `files_metadata` and `regular_files_contents`
    at src/ffs/model.ts:185.
- `setLatestVersion` in src/ffs.ts:51-58 filters on a `branch_id` column,
  which `branches` does not have. The model uses the `id` filter of
  src/users.ts:42-48, through `Branches.WithLatest`. `getLatestVersion` in
  src/ffs.ts:37-49 is modelled by `Branches.Latest`.
- The drafts' `makeRegularFile` (src/ffs/ffs.ts:85-116, src/ffs.ts:121-150)
  is not modelled. It reads its lineage from the id it has just allocated,
  as their `makeDirectory` does (see Findings), so as written it fails on
  every store. The first draft's version also has a single `mtime`
  column. The as-written form is modelled for `makeDirectory` only. The
  routes of build/routes.js build their leaf through `Engine.MakeLeaf`.
- `getDirectoryContentDetails` in src/ffs.ts:217-234 is modelled by the
  listing join of `Store.JoinMetadata`, with the single time column in
  the place of `mtime`.
- `getRegularFile` and `getRegularFileView` (src/ffs/model.ts:176-203,
  223-226) are not used by any modelled operation.
- `getUserProfile` (src/ffs.ts:17-35) is a user lookup outside the file
  engine.
- `getFirstAndLatestVersion` is not part of this model. Its result is the
  `BranchVersions` parameter of `LineageRoutes.ValidateBranch`.
- File ids have two JavaScript types in the source. The engines declare
  them `bigint` and read them with `safeIntegers(true)`. src/users.ts:29-39
  reads `latest_version_id` without it, so it returns a `number`. The
  model has one unbounded integer type for ids, so the two kinds of id
  compare as integers. Times are integers, and no overflow or precision
  loss is modelled.
- FileRoutes.BranchCheck: compares the branch's latest root and the
  request's root as integers. As written, src/routes/files.ts:169
  compares the `number` of src/users.ts:29-39 with the `BigInt` of
  src/routes/files.ts:43 using `===`, which is never true. Every request
  on a known branch would then answer 409. `FileRoutes.FileRouter.ValidateBranch`
  and the handlers inherit the integer comparison.
- LineageRoutes.ValidateBranch: the model assumes the request got past
  the header checks of build/routes.js:29-40. As written,
  build/routes.js:33-34 asserts `Number.isInteger` of a `BigInt`, which
  is always false, so the catch at build/routes.js:42-44 answers 400
  to every request before any handler runs. The `LineageRoutes`
  handlers model the requests that the evident intent admits.
- Concurrency is not modelled. Two writers can both allocate the same
  count-plus-one id, or interleave inside a transaction; every operation
  here runs alone.
- HTTP glue is not modelled: header parsing, `parseInt` and `BigInt`, the
  raw-body reader, and Koa's default status when a handler only sets a
  header. The `all` handler of build/routes.js also lacks the guard on an
  empty path parameter. A request arrives already parsed, as
  `FileRoutes.Request`.
- The `ffs` package that src/routes/files.ts calls is a separate package.
  Its calls (`getFileView`, `makeRegularFileByContent`,
  `makeEmptyDirectory`, `modifyRegularFileContent`, `removeFile`) are
  modelled by the `FfsView` operations of src/ffs/view.ts that they name.
- The creation time is stored under `btime` in directory entries and
  under `ctime` in some parameter names. Both are the same creation time
  here.
- Engine.CreateFileFromIdConflict: a name that is already taken fails the
  plain `assert` as `AssertionFailed`, as the code does, and not the
  `ErrorFileAlreadyExists` the exception module defines; no modelled path
  raises that error, so a 409 from `FileRoutes.ErrorOutcome` is never
  produced by the engine.
- `commitTransaction` (src/ffs/view.ts:26-30) has no effect on the tables
  here: a committed write is the state after the operation.
- FirstDraft.MakeDirectory: src/ffs.ts has a single `time` column. It is
  written into both `rmtime` and `mtime`, so the draft shares the store.
- Engine.CreateFileSucceeds: stated for tables without dangling entries
  (`Closed`) and a root other than the id the leaf takes. Otherwise the
  stored leaf can itself be the root or an entry's target.
  `Engine.CreateFileSucceedsAfterLeaf` states the condition for every root,
  in the tables with the leaf stored.
- Engine.CreateFileSharing: stated for a root other than the id the leaf
  takes; `Engine.CreateFileSharingAfterLeaf` drops that condition. Both
  need tables without dangling entries (`Closed`). A dangling entry whose
  id the write allocates would resolve to the new node, and the property
  would not hold.
- Engine.CreateFileFromIdSharing: stated for tables without dangling
  entries (`Closed`) and a linked id that is already stored, for the same
  reason. An unstored linked id is itself a dangling entry once linked,
  and the next allocation would fill it.
- Closed tables stay closed under every write that links only stored ids:
  the `createFile`, `deleteFile` and `updateFile` of the controller and the
  kernel, and so every route handler (`Engine.CreateFileKeeps`,
  `Deletion.DeleteFileKeepsClosed`, `Updating.UpdateFileKeepsClosed`, and
  `Engine.CreateFileFromIdKeepsClosed` for a stored id). The public
  `createFileFromId` (src/ffs/view.ts:53-70), the draft's `createFile` and
  `updateFile`, and the first draft's `createFile` and `updateFile` accept
  any id. Linking an id that is not stored leaves a dangling entry
  (`Engine.CreateFileFromIdDangles`), and none of the lemmas that need
  `Closed` then apply.
- LineageRoutes.PatchSucceeds: stated for tables whose entries all point at
  stored nodes (`Closed`), which every route handler preserves (see the
  line above).
- LineageRoutes.PutSucceeds: stated for tables whose entries all point at
  stored nodes (`Closed`), for the same reason.

## Findings

| source | as written | input that shows it | evidently intended | confidence | as-written member | corrected member |
|---|---|---|---|---|---|---|
| src/ffs/ffs.ts:124-125 | `makeDirectory` takes the new row's `first_version_id` from `getFirstVersionId(id)`, where `id` is the id it has just allocated; that row does not exist yet, so `row.firstVersionId` reads a field of `undefined` (the same line appears in `makeRegularFile` at line 92) | any call on any store, for example the empty store: id 1 has no row | take the first version of `modifiedFromId`, or `id` itself when there is none, as src/ffs/kernel.ts:120-122 does | high, not executed | Draft.MakeDirectoryAsWrittenFails | Kernel.MakeDirectory |
| src/ffs.ts:157-158 | the same read of the freshly allocated id's row in the first draft's `makeDirectory` (and in `makeRegularFile` at line 127) | any call on any store | the first version of `derivedFromId`, or the new id | high, not executed | FirstDraft.MakeDirectoryAsWritten | FirstDraft.MakeDirectory |
