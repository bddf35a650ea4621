# Chunked file storage: upload server and catalogue scan

This project models the storage back end of a small file manager in Dafny.
It has two programs.

**The upload server** (`server.js`) keeps files in a directory tree under
an upload directory:

- `POST /upload` stores one chunk of a file as the entry `<file>.part<index>`, creating any missing directories on the way.
- `POST /merge` appends chunks `0 .. totalChunks-1` to the file in index order, unlinking each one, and stops at the first missing chunk.
- `GET /files` lists every regular file, by path relative to the upload directory.
- `GET /download/<path>` checks that something exists at the path.
- `DELETE /delete/<path>` removes a file, or a directory with everything beneath it.

The model is module `Storage`. The tree is a `map` from paths (sequences of
name segments) to nodes, either a directory or a file with its bytes. A
`Server` class holds the tree, and each handler is a method that updates
it. A method is specified against a function of the old tree
(`UploadState`, `MergeResult`/`MergeFinal`, `Removed`), and lemmas state
what those functions guarantee:

- upload failures;
- last write wins;
- uploads of different chunks commute;
- uploads in any order followed by a merge give the chunks joined in index order;
- where a merge stops and what it consumes;
- the shape of the tree after a delete.

**The scan script** (`scanupdate.js`) walks the upload tree and makes sure
the database has a Folder record for every directory and a File record for
every other entry. Records are found by full path. Missing ones are
created, with the MIME type `getMimeType` derives from the file name.

The model has two modules:

- Module `Mime` models `getMimeType` as pure functions.
- Module `Scanner` models the two collections as an `Index` class with a fresh-id counter. `ScanFolder` is a recursive method whose loop is proved against the function `ScanEntries`; each pass of the loop is the method `ScanItem`. Lemmas about that function state:
  - which records a scan adds;
  - that it never changes an existing one;
  - that a second scan changes nothing;
  - how the new records are filled in and linked;
  - that the catalogue stays consistent.

Module `Common` holds paths, bytes, `Option` and the decimal rendering of
chunk indices.

The directory listing, the file contents and the database are parameters
or fields of the model:

- `ScanFolder` is given the listing that `readdirSync`/`statSync` would return, as a tree of `Entry` values.
- The server's disk is the `fs` field of `Server`.

## Model

| member | source | states |
|---|---|---|
| Common.NatToStringInjective | server.js:39 | distinct chunk indices render as distinct decimal strings |
| Storage.PartPathInjective | server.js:39 | distinct chunk indices of a file name distinct `.part` entries |
| Storage.PartPath | server.js:39 | a chunk entry sits in the file's own directory and is never the file itself |
| Storage.EnsureDir | server.js:37 | `ensureDirSync` adds exactly the missing directories on the way down and keeps every existing entry |
| Storage.UploadState | server.js:31-44 | the handler fails, leaving the tree unchanged, exactly when a regular file lies on the way down or the chunk entry is a directory; otherwise the chunk entry holds exactly the sent bytes and its directory exists; every other entry keeps its contents, and new entries are only the directories above the file |
| Storage.Server.Upload | server.js:31-44 | reports success exactly when the handler does not throw, and leaves the tree that `UploadState` describes, still a well-formed tree |
| Storage.UploadOntoDirectory | server.js:37-39 | when the chunk entry is already a directory, the directories on the way down all exist, and the write fails |
| Storage.UploadSettles | server.js:37 | after a successful upload every directory above the file exists, so the next `ensureDirSync` changes nothing |
| Storage.UploadLastWriteWins | server.js:39 | re-sending a chunk index replaces its bytes: two uploads of the same index equal the last one alone |
| Storage.UploadKeepsOtherOutcome | server.js:39 | uploading chunk i does not change chunk j's entry, nor whether uploading chunk j fails |
| Storage.UploadsCommute | server.js:31-44 | uploads of two different chunks of one file give the same tree in either order |
| Storage.UploadKeepsReady | server.js:31-44 | from a tree where uploads of a file can succeed, every upload succeeds and keeps that so |
| Storage.UploadAllParts | server.js:31-44 | after any series of uploads, each chunk entry holds the bytes of the last upload of its index, and chunks never sent are untouched |
| Storage.LastWrite | server.js:39 | the last upload of an index is one of the uploads of that index, and exists exactly when one was sent |
| Storage.LastWriteIsLast | server.js:39 | the bytes found for an index are those of an upload of that index after which no upload of the same index follows |
| Storage.Gap | server.js:53-57 | the merge loop stops at the first index below the declared count whose chunk is not a regular file, or at the count |
| Storage.StopsAt | server.js:53-57 | that stopping index is the only one with those properties |
| Storage.MergeExit | server.js:53-60 | when the loop leaves at index i, every chunk before i being a regular file and chunk i (if declared) not, i is the stopping index and the tree built so far is the merge's final, well-formed tree |
| Storage.ConsumedShape | server.js:52-60 | after consuming chunks 0 .. n-1 the file holds them joined in order, they are gone, and every other entry is unchanged |
| Storage.MergeFinalWellFormed | server.js:47-66 | whatever the outcome, a merge leaves a well-formed tree |
| Storage.Server.Merge | server.js:47-66 | the reply (complete, 400 missing chunk i, or 500 at chunk i) and the new tree are `MergeResult` and `MergeFinal` of the old tree |
| Storage.MergeSucceeds | server.js:47-66 | the merge completes exactly when every declared chunk is a regular file; with an openable destination, the file then holds the chunks joined in index order, all declared chunks are gone, and nothing else changes |
| Storage.MergeStops | server.js:53-60 | a merge that stops at chunk g has appended and unlinked chunks before g and left chunks from g on untouched; the reply is "missing" when g is absent and a read error when it is a directory |
| Storage.MergeUnopenable | server.js:52-60 | when the destination cannot be opened, the chunks before the gap are still unlinked and the destination is left as it was, so their bytes are lost |
| Storage.MergeTwiceMissesChunkZero | server.js:53-59 | merging again after a complete merge of at least one chunk reports chunk 0 missing |
| Storage.AssembledIsJoined | server.js:58 | the merged bytes are the chunk entries' bytes joined in index order |
| Storage.UploadsThenMerge | server.js:31-66 | chunks uploaded in any order, each possibly re-sent, then merged, leave the file holding the last bytes sent for each index joined in index order |
| Storage.Server.Walk | server.js:71-82 | `getAllFiles` appends exactly the regular files beneath the directory, each once, after what the list already held |
| Storage.Server.ListFiles | server.js:69-87 | the listing fails exactly when the upload directory is missing; otherwise it holds every regular file (in-flight chunk entries included) and no directory, each once |
| Storage.Server.Download | server.js:90-94 | "not found" exactly when nothing exists at the path, otherwise the entry that is streamed |
| Storage.Removed | server.js:107-112 | a delete keeps only entries of the old tree, unchanged |
| Storage.DeleteRemoves | server.js:107-112 | deleting a directory removes it and all beneath it, deleting a file removes only it, and the result is again a well-formed tree |
| Storage.Server.Delete | server.js:104-120 | "not found" exactly when nothing exists at the path; otherwise the tree becomes `Removed` of the old one |
| Storage.Server.constructor | server.js:13 | start-up makes sure the upload directory exists and keeps everything it already held |
| Mime.Lower | scanupdate.js:72 | lower-casing keeps the length and maps each character by itself |
| Mime.LastDot | scanupdate.js:72 | the index found is a dot with no dot after it, or there is no dot at all |
| Mime.ExtNameIsExtension | scanupdate.js:72 | the extension is empty exactly for `..` and for names with no dot after their first character; otherwise it is the suffix from the last dot, which is not the first character, with no other dot in it |
| Mime.ExtNameLower | scanupdate.js:72 | taking the extension and lower-casing commute |
| Mime.MimeTypeInTable | scanupdate.js:71-85 | the type is one of the table's types or `application/octet-stream` |
| Mime.MimeTypeIgnoresCase | scanupdate.js:71-85 | names that differ only in letter case get the same type |
| Mime.KnownExtension | scanupdate.js:71-85 | a non-empty stem followed by one of the nine extensions, in any case, gets that extension's type |
| Mime.UnknownExtension | scanupdate.js:71-85 | a name that ends, after a non-empty stem, in none of the nine extensions in any case gets `application/octet-stream`; with `KnownExtension`, the table decides the type exactly for the names that do |
| Mime.NoExtension | scanupdate.js:71-85 | a name with no dot after its first character (`README`, `.txt`) gets `application/octet-stream` |
| Scanner.AddFolderConsistent | scanupdate.js:42-47 | creating a folder record at a path that has none keeps the catalogue consistent |
| Scanner.AddFileConsistent | scanupdate.js:57-64 | creating a file record at a path that has none keeps the catalogue consistent |
| Scanner.Index.FindFolder | scanupdate.js:39 | finds a folder record exactly when one exists at the path, and it is that path's record |
| Scanner.Index.FindFile | scanupdate.js:54 | finds a file record exactly when one exists at the path, and it is that path's record |
| Scanner.Index.CreateFolder | scanupdate.js:42-47 | adds the record under a fresh id not used by any folder and changes nothing else |
| Scanner.Index.CreateFile | scanupdate.js:57-64 | adds the record under the next id with `isPublic` false and changes nothing else |
| Scanner.DirPaths | scanupdate.js:37-51 | every directory found by the walk lies beneath the directory scanned |
| Scanner.FilePaths | scanupdate.js:52-65 | every non-directory found by the walk lies beneath the directory scanned |
| Scanner.ScanFolder | scanupdate.js:30-68 | the records after the scan are `ScanEntries` of the records before, and the catalogue stays consistent |
| Scanner.ScanItem | scanupdate.js:33-66 | one pass of the loop changes the records as `ScanEntry` describes for that entry, and the catalogue stays consistent |
| Scanner.ScanUploadsFolder | scanupdate.js:22-27 | scans the upload root with no parent folder; the root itself gets no record |
| Scanner.ScanEntriesKeys | scanupdate.js:30-68 | after a scan, the folder records are those before plus every directory on disk, and the file records are those before plus every other entry; no existing record changes |
| Scanner.ScanEntriesConsistent | scanupdate.js:30-68 | a scan keeps every record under its own path, every id below the counter, and folder ids distinct |
| Scanner.ScanTwice | scanupdate.js:39-41 | scanning an unchanged tree again creates and changes nothing, whatever parent id it starts from |
| Scanner.ScanEntriesCreates | scanupdate.js:37-65 | each new folder record is named after its directory, has no owner, and has as parent the record of the directory holding it (the starting parent at the top); each new file record has its name, its size on disk, the type `getMimeType` gives its name, no owner, is private, and belongs to the holding directory's record |
| Scanner.ScanKeepsLinks | scanupdate.js:42-62 | starting from the root or from an existing folder, a scan leaves every `parentFolder` and `folder` reference naming an existing folder record |
| Scanner.CheckedScanNeedsKnownFolders | scanupdate.js:42-47 | with the Folder schema's validation, the scan completes, and then as `ScanEntries`, exactly when every directory on disk already has a record; otherwise it is rejected |
| Scanner.NewFolderAbortsScan | models/Folder.js:6 | an empty database and one subdirectory are enough for the scan to be rejected |

## Findings

| source | as written | input that shows it | evidently intended | confidence | as-written member | corrected member |
|---|---|---|---|---|---|---|
| scanupdate.js:42-47 | every new folder is created with `owner: null`, while models/Folder.js:6 makes `owner` required, so the create fails validation and the scan aborts at the first directory that has no record | an empty database and an upload directory holding one subdirectory `photos` | folders the scan discovers are created without an owner, as the comment on line 46 says | high; not executed | Scanner.CheckedScanNeedsKnownFolders | Scanner.ScanEntriesCreates |

The rest of the model (`ScanEntries`, `Index.CreateFolder`, `ScanFolder`)
creates folders without an owner, as intended. The schema's validation
appears only in `CheckedEntries`.

## Left out

- HTTP plumbing is not modelled: routing, request parsing, CORS, the health checks and the response bodies. Each handler returns only which reply it sends.
- Multer's in-memory buffer is not modelled, and neither is a request without a `chunk` file, which throws and gets a 500.
- Form fields arrive as strings; `chunkIndex` and `totalChunks` are modelled as natural numbers. An index such as `01` names a different entry than `1`, and a non-numeric `totalChunks` makes the merge loop run zero times; neither is modelled.
- `Storage.Server.Upload` and `Storage.Server.Merge` require a non-empty file name. An empty name makes the target the upload directory itself.
- Path normalisation is not modelled: `path.join` resolving `..` and `.`, and doubled separators. A path is a sequence of plain segments, so requests that escape the upload directory are not modelled.
- `Storage.Server.Merge` does not model the process-level effect of an unopenable destination. The write stream's error has no listener and arrives after the reply; the model records only that nothing is written. It also does not model the write stream being flushed after the reply.
- `Storage.Server.Download` stops at the existence check. Streaming, and the read error for a directory, are left out.
- `Storage.Server.Delete` treats every entry as a file or a directory. Symbolic links (`lstatSync` against `statSync`) are not modelled.
- `Storage.Server.ListFiles` states membership and absence of duplicates, not order. `readdirSync` order is not modelled, so `Walk` picks the entries in any order.
- Disk failures other than those named are not modelled (permissions, a full disk, races between requests), and neither are their 500 replies.
- Concurrency between requests is not modelled; each handler runs to completion on its own.
- The database connection and its closing at the end of the scan are not modelled.
- `Scanner.Index.FindFolder` and `Scanner.Index.FindFile` assume at most one record per path. The collections are keyed by path, whereas MongoDB would allow duplicates, and `findOne` would return any one of them.
- Creation time stamps and the User collection are not modelled.
- `Mime.Lower` lower-cases ASCII letters only. Non-ASCII case mapping is not modelled; no non-ASCII character lower-cases to a character of the nine extensions.
- `Mime.ExtName` models `path.extname` for a single directory-entry name only; such a name never holds a separator.
- Symbolic links in the scanned tree are not modelled. An `Entry` is a directory or a non-directory with a size, as `statSync` reports it after following links.
