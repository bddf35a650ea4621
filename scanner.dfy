/** The scan script: walks the uploads tree and makes sure every directory
    has a Folder record and every other entry a File record, keyed by full
    path, creating the missing ones and leaving existing ones untouched. */
module Scanner {
  import opened Common
  import Mime

  /** A record's `_id`. */
  type Id = nat

  /** A User record's `_id`, the type of the `owner` references. */
  type UserId = nat

  /** One directory entry as `readdirSync` and `statSync` report it: a
      directory with its own listing, or anything else with its size. */
  datatype Entry =
    | DirEntry(name: Name, entries: seq<Entry>)
    | FileEntry(name: Name, size: nat)

  /** A Folder document; `None` stands for `null`. */
  datatype FolderRecord = FolderRecord(
    id: Id, name: string, owner: Option<UserId>, parentFolder: Option<Id>, path: Path)

  /** A File document; `None` stands for `null` or an absent field. */
  datatype FileRecord = FileRecord(
    id: Id, filename: string, size: nat, owner: Option<UserId>, folder: Option<Id>,
    path: Path, mimeType: Option<string>, isPublic: bool)

  /** The two collections, each looked up by `path`, and the next fresh id. */
  datatype Catalog = Catalog(
    folders: map<Path, FolderRecord>, files: map<Path, FileRecord>, nextId: Id)

  /** Every record sits under its own path, every id was handed out before
      `nextId`, and no two folders share an id. */
  ghost predicate Consistent(c: Catalog)
  {
    && (forall p :: p in c.folders ==> c.folders[p].path == p && c.folders[p].id < c.nextId)
    && (forall p :: p in c.files ==> c.files[p].path == p && c.files[p].id < c.nextId)
    && (forall p, q :: p in c.folders && q in c.folders && c.folders[p].id == c.folders[q].id ==> p == q)
  }

  ghost function FolderIds(c: Catalog): set<Id>
  {
    set p | p in c.folders :: c.folders[p].id
  }

  /** Every `parentFolder` and every `folder` reference names a folder. */
  ghost predicate LinksResolve(c: Catalog)
  {
    && (forall p :: p in c.folders && c.folders[p].parentFolder.Some? ==>
          c.folders[p].parentFolder.value in FolderIds(c))
    && (forall p :: p in c.files && c.files[p].folder.Some? ==>
          c.files[p].folder.value in FolderIds(c))
  }

  /** `Folder.create`: a new record under the next fresh id. */
  function AddFolder(c: Catalog, name: Name, p: Path, parent: Option<Id>, owner: Option<UserId>): Catalog
  {
    c.(folders := c.folders[p := FolderRecord(c.nextId, name, owner, parent, p)],
       nextId := c.nextId + 1)
  }

  /** `File.create`: a new record under the next fresh id; `isPublic`
      takes its schema default. */
  function AddFile(c: Catalog, name: Name, size: nat, p: Path, folder: Option<Id>,
                   owner: Option<UserId>, mimeType: Option<string>): Catalog
  {
    c.(files := c.files[p := FileRecord(c.nextId, name, size, owner, folder, p, mimeType, false)],
       nextId := c.nextId + 1)
  }

  lemma AddFolderConsistent(c: Catalog, name: Name, p: Path, parent: Option<Id>, owner: Option<UserId>)
    requires Consistent(c) && p !in c.folders
    ensures Consistent(AddFolder(c, name, p, parent, owner))
  {
  }

  lemma AddFileConsistent(c: Catalog, name: Name, size: nat, p: Path, folder: Option<Id>,
                          owner: Option<UserId>, mimeType: Option<string>)
    requires Consistent(c) && p !in c.files
    ensures Consistent(AddFile(c, name, size, p, folder, owner, mimeType))
  {
  }

  // ---------------------------------------------------------------------
  // What one scan does to the catalog

  /** `scanFolder`'s work on the entries of the directory `dir` (whose own
      folder id is `parent`), one entry after the other. */
  function ScanEntries(c: Catalog, dir: Path, parent: Option<Id>, es: seq<Entry>): Catalog
    decreases es
  {
    if es == [] then c
    else ScanEntry(ScanEntries(c, dir, parent, es[..|es| - 1]), dir, parent, es[|es| - 1])
  }

  /** One loop iteration: a directory gets a folder record if it has none
      and is then scanned with that record's id as parent; any other entry
      gets a file record if it has none. */
  function ScanEntry(c: Catalog, dir: Path, parent: Option<Id>, e: Entry): Catalog
    decreases e
  {
    var p := dir + [e.name];
    match e
    case DirEntry(name, children) =>
      var c1 := if p in c.folders then c else AddFolder(c, name, p, parent, None);
      ScanEntries(c1, p, Some(c1.folders[p].id), children)
    case FileEntry(name, size) =>
      if p in c.files then c
      else AddFile(c, name, size, p, parent, None, Some(Mime.MimeType(name)))
  }

  /** The full paths of the directories in a listing, at any depth. */
  function DirPaths(dir: Path, es: seq<Entry>): (s: set<Path>)
    ensures forall p :: p in s ==> Beneath(p, dir)
    decreases es
  {
    if es == [] then {} else DirPaths(dir, es[..|es| - 1]) + EntryDirPaths(dir, es[|es| - 1])
  }

  function EntryDirPaths(dir: Path, e: Entry): (s: set<Path>)
    ensures forall p :: p in s ==> Beneath(p, dir)
    decreases e
  {
    match e
    case DirEntry(n, cs) =>
      var p := dir + [n];
      assert forall q :: Beneath(q, p) ==> q[..|dir|] == q[..|p|][..|dir|];
      {p} + DirPaths(p, cs)
    case FileEntry(_, _) => {}
  }

  /** The full paths of the non-directories in a listing, at any depth. */
  function FilePaths(dir: Path, es: seq<Entry>): (s: set<Path>)
    ensures forall p :: p in s ==> Beneath(p, dir)
    decreases es
  {
    if es == [] then {} else FilePaths(dir, es[..|es| - 1]) + EntryFilePaths(dir, es[|es| - 1])
  }

  function EntryFilePaths(dir: Path, e: Entry): (s: set<Path>)
    ensures forall p :: p in s ==> Beneath(p, dir)
    decreases e
  {
    match e
    case DirEntry(n, cs) =>
      var p := dir + [n];
      assert forall q :: Beneath(q, p) ==> q[..|dir|] == q[..|p|][..|dir|];
      FilePaths(p, cs)
    case FileEntry(n, _) => {dir + [n]}
  }

  /** The non-directories of a listing with the sizes `statSync` reports. */
  function FileSizes(dir: Path, es: seq<Entry>): set<(Path, nat)>
    decreases es
  {
    if es == [] then {} else FileSizes(dir, es[..|es| - 1]) + EntryFileSizes(dir, es[|es| - 1])
  }

  function EntryFileSizes(dir: Path, e: Entry): set<(Path, nat)>
    decreases e
  {
    match e
    case DirEntry(n, cs) => FileSizes(dir + [n], cs)
    case FileEntry(n, size) => {(dir + [n], size)}
  }

  // ---------------------------------------------------------------------
  // Which records a scan adds, and that it keeps the others

  /** A scan adds exactly the records of the directories and files on disk
      that had none, and changes no existing record. */
  lemma {:induction false} ScanEntriesKeys(c: Catalog, dir: Path, parent: Option<Id>, es: seq<Entry>)
    ensures var r := ScanEntries(c, dir, parent, es);
      && r.folders.Keys == c.folders.Keys + DirPaths(dir, es)
      && r.files.Keys == c.files.Keys + FilePaths(dir, es)
      && (forall p :: p in c.folders ==> r.folders[p] == c.folders[p])
      && (forall p :: p in c.files ==> r.files[p] == c.files[p])
      && c.nextId <= r.nextId
    decreases es
  {
    if es != [] {
      var init := es[..|es| - 1];
      ScanEntriesKeys(c, dir, parent, init);
      ScanEntryKeys(ScanEntries(c, dir, parent, init), dir, parent, es[|es| - 1]);
    }
  }

  lemma {:induction false} ScanEntryKeys(c: Catalog, dir: Path, parent: Option<Id>, e: Entry)
    ensures var r := ScanEntry(c, dir, parent, e);
      && r.folders.Keys == c.folders.Keys + EntryDirPaths(dir, e)
      && r.files.Keys == c.files.Keys + EntryFilePaths(dir, e)
      && (forall p :: p in c.folders ==> r.folders[p] == c.folders[p])
      && (forall p :: p in c.files ==> r.files[p] == c.files[p])
      && c.nextId <= r.nextId
    decreases e
  {
    match e
    case DirEntry(name, children) =>
      ScanDirKeys(c, dir, parent, name, children);
    case FileEntry(_, _) =>
  }

  /** The directory case of `ScanEntryKeys`: its folder record, if new, and
      what the scan of its listing adds. */
  lemma {:induction false} ScanDirKeys(c: Catalog, dir: Path, parent: Option<Id>, name: Name, children: seq<Entry>)
    ensures var p := dir + [name];
      var c1 := if p in c.folders then c else AddFolder(c, name, p, parent, None);
      var r := ScanEntries(c1, p, Some(c1.folders[p].id), children);
      && r.folders.Keys == c.folders.Keys + ({p} + DirPaths(p, children))
      && r.files.Keys == c.files.Keys + FilePaths(p, children)
      && (forall q :: q in c.folders ==> r.folders[q] == c.folders[q])
      && (forall q :: q in c.files ==> r.files[q] == c.files[q])
      && c.nextId <= r.nextId
    decreases DirEntry(name, children), 0
  {
    var p := dir + [name];
    var c1 := if p in c.folders then c else AddFolder(c, name, p, parent, None);
    ScanEntriesKeys(c1, p, Some(c1.folders[p].id), children);
  }

  /** A scan keeps the catalog consistent. */
  lemma {:induction false} ScanEntriesConsistent(c: Catalog, dir: Path, parent: Option<Id>, es: seq<Entry>)
    requires Consistent(c)
    ensures Consistent(ScanEntries(c, dir, parent, es))
    decreases es
  {
    if es != [] {
      var init := es[..|es| - 1];
      ScanEntriesConsistent(c, dir, parent, init);
      ScanEntryConsistent(ScanEntries(c, dir, parent, init), dir, parent, es[|es| - 1]);
    }
  }

  lemma {:induction false} ScanEntryConsistent(c: Catalog, dir: Path, parent: Option<Id>, e: Entry)
    requires Consistent(c)
    ensures Consistent(ScanEntry(c, dir, parent, e))
    decreases e
  {
    var p := dir + [e.name];
    match e
    case DirEntry(name, children) =>
      if p !in c.folders {
        AddFolderConsistent(c, name, p, parent, None);
      }
      var c1 := if p in c.folders then c else AddFolder(c, name, p, parent, None);
      ScanEntriesConsistent(c1, p, Some(c1.folders[p].id), children);
    case FileEntry(name, size) =>
      if p !in c.files {
        AddFileConsistent(c, name, size, p, parent, None, Some(Mime.MimeType(name)));
      }
  }

  // ---------------------------------------------------------------------
  // Rescanning changes nothing

  lemma {:induction false} ScanEntriesNoop(c: Catalog, dir: Path, parent: Option<Id>, es: seq<Entry>)
    requires DirPaths(dir, es) <= c.folders.Keys && FilePaths(dir, es) <= c.files.Keys
    ensures ScanEntries(c, dir, parent, es) == c
    decreases es
  {
    if es != [] {
      ScanEntriesNoop(c, dir, parent, es[..|es| - 1]);
      ScanEntryNoop(c, dir, parent, es[|es| - 1]);
    }
  }

  lemma {:induction false} ScanEntryNoop(c: Catalog, dir: Path, parent: Option<Id>, e: Entry)
    requires EntryDirPaths(dir, e) <= c.folders.Keys && EntryFilePaths(dir, e) <= c.files.Keys
    ensures ScanEntry(c, dir, parent, e) == c
    decreases e
  {
    match e
    case DirEntry(name, children) =>
      var p := dir + [name];
      assert p in EntryDirPaths(dir, e);
      ScanEntriesNoop(c, p, Some(c.folders[p].id), children);
    case FileEntry(name, _) =>
      assert dir + [name] in EntryFilePaths(dir, e);
  }

  /** Scanning an unchanged tree a second time creates nothing and changes
      nothing, whatever parent id the second scan starts from. */
  lemma ScanTwice(c: Catalog, dir: Path, parent: Option<Id>, parent': Option<Id>, es: seq<Entry>)
    ensures var r := ScanEntries(c, dir, parent, es);
      ScanEntries(r, dir, parent', es) == r
  {
    ScanEntriesKeys(c, dir, parent, es);
    ScanEntriesNoop(ScanEntries(c, dir, parent, es), dir, parent', es);
  }

  // ---------------------------------------------------------------------
  // The records a scan creates

  /** The folder record at `p` is what the scan of `dir` (with folder id
      `parent`) creates there: named after the last segment, ownerless,
      and child of `parent` or of the folder record of the directory that
      holds it. */
  ghost predicate FolderCreated(c: Catalog, dir: Path, parent: Option<Id>, p: Path)
    requires p in c.folders
  {
    var r := c.folders[p];
    && Beneath(p, dir)
    && r.path == p && r.name == p[|p| - 1] && r.owner == None
    && (if |p| == |dir| + 1 then r.parentFolder == parent
        else Parent(p) in c.folders && r.parentFolder == Some(c.folders[Parent(p)].id))
  }

  /** The file record at `p` is what the scan of `dir` creates there: named
      after the last segment, with the size on disk, the type `getMimeType`
      gives its name, ownerless, private, and in `parent` or in the folder
      record of the directory that holds it. */
  ghost predicate FileCreated(c: Catalog, dir: Path, parent: Option<Id>, sizes: set<(Path, nat)>, p: Path)
    requires p in c.files
  {
    var r := c.files[p];
    && Beneath(p, dir)
    && r.path == p && r.filename == p[|p| - 1] && r.owner == None && !r.isPublic
    && (p, r.size) in sizes
    && r.mimeType == Some(Mime.MimeType(r.filename))
    && (if |p| == |dir| + 1 then r.folder == parent
        else Parent(p) in c.folders && r.folder == Some(c.folders[Parent(p)].id))
  }

  /** The records `r` holds beyond those of `c` are all as the scan of
      `dir` creates them. */
  ghost predicate CreatedBy(c: Catalog, r: Catalog, dir: Path, parent: Option<Id>, sizes: set<(Path, nat)>)
  {
    && (forall p :: p in r.folders && p !in c.folders ==> FolderCreated(r, dir, parent, p))
    && (forall p :: p in r.files && p !in c.files ==> FileCreated(r, dir, parent, sizes, p))
  }

  /** `r` keeps every record of `c` unchanged. */
  ghost predicate Keeps(c: Catalog, r: Catalog)
  {
    && (forall p :: p in c.folders ==> p in r.folders && r.folders[p] == c.folders[p])
    && (forall p :: p in c.files ==> p in r.files && r.files[p] == c.files[p])
  }

  /** Records created by a scan stay valid as later steps add records. */
  lemma CreatedKept(c: Catalog, m: Catalog, r: Catalog, dir: Path, parent: Option<Id>,
                    sizes: set<(Path, nat)>, sizes': set<(Path, nat)>)
    requires CreatedBy(c, m, dir, parent, sizes) && Keeps(m, r) && sizes <= sizes'
    ensures forall p :: p in m.folders && p !in c.folders ==> FolderCreated(r, dir, parent, p)
    ensures forall p :: p in m.files && p !in c.files ==> FileCreated(r, dir, parent, sizes', p)
  {
    forall p | p in m.folders && p !in c.folders
      ensures FolderCreated(r, dir, parent, p)
    {
      assert FolderCreated(m, dir, parent, p);
    }
    forall p | p in m.files && p !in c.files
      ensures FileCreated(r, dir, parent, sizes', p)
    {
      assert FileCreated(m, dir, parent, sizes, p);
    }
  }

  /** What the scan of a subdirectory `dir + [n]` creates is what the scan
      of `dir` creates, once the subdirectory has its folder record. */
  lemma CreatedLifted(c: Catalog, r: Catalog, dir: Path, n: Name, parent: Option<Id>,
                      sizes: set<(Path, nat)>, sizes': set<(Path, nat)>)
    requires dir + [n] in r.folders && sizes <= sizes'
    requires CreatedBy(c, r, dir + [n], Some(r.folders[dir + [n]].id), sizes)
    ensures forall p :: p in r.folders && p !in c.folders ==>
      Beneath(p, dir + [n]) ==> FolderCreated(r, dir, parent, p)
    ensures forall p :: p in r.files && p !in c.files ==> FileCreated(r, dir, parent, sizes', p)
  {
    var d := dir + [n];
    forall p | p in r.folders && p !in c.folders && Beneath(p, d)
      ensures FolderCreated(r, dir, parent, p)
    {
      assert FolderCreated(r, d, Some(r.folders[d].id), p);
      assert p[..|dir|] == p[..|d|][..|dir|];
      if |p| == |d| + 1 {
        assert Parent(p) == d;
      }
    }
    forall p | p in r.files && p !in c.files
      ensures FileCreated(r, dir, parent, sizes', p)
    {
      assert FileCreated(r, d, Some(r.folders[d].id), sizes, p);
      assert p[..|dir|] == p[..|d|][..|dir|];
      if |p| == |d| + 1 {
        assert Parent(p) == d;
      }
    }
  }

  /** Every record a scan creates is as the scan promises: folder records
      for directories, file records for the rest, each linked to the record
      of the directory that holds it (or to the starting `parent`). */
  lemma {:induction false} ScanEntriesCreates(c: Catalog, dir: Path, parent: Option<Id>, es: seq<Entry>)
    ensures CreatedBy(c, ScanEntries(c, dir, parent, es), dir, parent, FileSizes(dir, es))
    decreases es
  {
    if es != [] {
      var init := es[..|es| - 1];
      var m := ScanEntries(c, dir, parent, init);
      var r := ScanEntry(m, dir, parent, es[|es| - 1]);
      ScanEntriesCreates(c, dir, parent, init);
      ScanEntryCreates(m, dir, parent, es[|es| - 1]);
      ScanEntryKeys(m, dir, parent, es[|es| - 1]);
      CreatedKept(c, m, r, dir, parent, FileSizes(dir, init), FileSizes(dir, es));
      CreatedKept(m, r, r, dir, parent, EntryFileSizes(dir, es[|es| - 1]), FileSizes(dir, es));
    }
  }

  lemma {:induction false} ScanEntryCreates(c: Catalog, dir: Path, parent: Option<Id>, e: Entry)
    ensures CreatedBy(c, ScanEntry(c, dir, parent, e), dir, parent, EntryFileSizes(dir, e))
    decreases e
  {
    match e
    case DirEntry(name, children) =>
      ScanDirCreates(c, dir, parent, name, children);
    case FileEntry(name, size) =>
      var p := dir + [name];
      if p !in c.files {
        assert (p, size) in EntryFileSizes(dir, e);
      }
  }

  /** The directory case of `ScanEntryCreates`. */
  lemma {:induction false} ScanDirCreates(c: Catalog, dir: Path, parent: Option<Id>, name: Name, children: seq<Entry>)
    ensures var p := dir + [name];
      var c1 := if p in c.folders then c else AddFolder(c, name, p, parent, None);
      CreatedBy(c, ScanEntries(c1, p, Some(c1.folders[p].id), children), dir, parent, FileSizes(p, children))
    decreases DirEntry(name, children), 0
  {
    var p := dir + [name];
    var c1 := if p in c.folders then c else AddFolder(c, name, p, parent, None);
    var r := ScanEntries(c1, p, Some(c1.folders[p].id), children);
    ScanEntriesCreates(c1, p, Some(c1.folders[p].id), children);
    ScanEntriesKeys(c1, p, Some(c1.folders[p].id), children);
    assert r.folders[p] == c1.folders[p];
    CreatedLifted(c1, r, dir, name, parent, FileSizes(p, children), FileSizes(p, children));
    if p !in c.folders {
      assert FolderCreated(c1, dir, parent, p);
      assert FolderCreated(r, dir, parent, p);
    }
    forall q | q in r.folders && q !in c.folders
      ensures FolderCreated(r, dir, parent, q)
    {
      if q != p {
        assert q in DirPaths(p, children);
      }
    }
  }

  /** A scan that starts from the root (no parent) or from an existing
      folder leaves no dangling `parentFolder` or `folder` reference. */
  lemma ScanKeepsLinks(c: Catalog, dir: Path, parent: Option<Id>, es: seq<Entry>)
    requires LinksResolve(c)
    requires parent.Some? ==> parent.value in FolderIds(c)
    ensures LinksResolve(ScanEntries(c, dir, parent, es))
  {
    var r := ScanEntries(c, dir, parent, es);
    ScanEntriesKeys(c, dir, parent, es);
    ScanEntriesCreates(c, dir, parent, es);
    assert FolderIds(c) <= FolderIds(r) by {
      forall i | i in FolderIds(c) ensures i in FolderIds(r) {
        var p :| p in c.folders && c.folders[p].id == i;
        assert r.folders[p].id == i;
      }
    }
    forall p | p in r.folders && r.folders[p].parentFolder.Some?
      ensures r.folders[p].parentFolder.value in FolderIds(r)
    {
      if p !in c.folders {
        assert FolderCreated(r, dir, parent, p);
        if |p| != |dir| + 1 {
          assert r.folders[Parent(p)].id in FolderIds(r);
        }
      }
    }
    forall p | p in r.files && r.files[p].folder.Some?
      ensures r.files[p].folder.value in FolderIds(r)
    {
      if p !in c.files {
        assert FileCreated(r, dir, parent, FileSizes(dir, es), p);
        if |p| != |dir| + 1 {
          assert r.files[p].folder == Some(r.folders[Parent(p)].id);
          assert r.folders[Parent(p)].id in FolderIds(r);
        }
      }
    }
  }

  // ---------------------------------------------------------------------
  // The scan as written, with the Folder schema's validation

  /** The Folder schema's validation: `owner` is required. */
  predicate FolderSchemaAccepts(r: FolderRecord)
  {
    r.owner.Some?
  }

  datatype Outcome = Done(catalog: Catalog) | Rejected(catalog: Catalog, at: Path)

  /** The scan as written, where every folder it creates carries `owner`
      (the script passes `null`): a `Folder.create` that fails the schema's
      validation aborts the whole scan, and the records created before it
      stay. */
  function CheckedEntries(c: Catalog, dir: Path, parent: Option<Id>, owner: Option<UserId>,
                          es: seq<Entry>): Outcome
    decreases es
  {
    if es == [] then Done(c)
    else match CheckedEntries(c, dir, parent, owner, es[..|es| - 1])
      case Rejected(m, at) => Rejected(m, at)
      case Done(m) => CheckedEntry(m, dir, parent, owner, es[|es| - 1])
  }

  function CheckedEntry(c: Catalog, dir: Path, parent: Option<Id>, owner: Option<UserId>,
                        e: Entry): Outcome
    decreases e
  {
    var p := dir + [e.name];
    match e
    case DirEntry(name, children) =>
      if p in c.folders then CheckedEntries(c, p, Some(c.folders[p].id), owner, children)
      else if FolderSchemaAccepts(FolderRecord(c.nextId, name, owner, parent, p)) then
        var c1 := AddFolder(c, name, p, parent, owner);
        CheckedEntries(c1, p, Some(c1.folders[p].id), owner, children)
      else Rejected(c, p)
    case FileEntry(name, size) =>
      Done(ScanEntry(c, dir, parent, e))
  }

  /** As written, the scan completes only when every directory on disk
      already has a folder record; the first one that has none aborts it. */
  lemma {:induction false} CheckedScanNeedsKnownFolders(c: Catalog, dir: Path, parent: Option<Id>, es: seq<Entry>)
    ensures DirPaths(dir, es) <= c.folders.Keys ==>
      CheckedEntries(c, dir, parent, None, es) == Done(ScanEntries(c, dir, parent, es))
    ensures !(DirPaths(dir, es) <= c.folders.Keys) ==> CheckedEntries(c, dir, parent, None, es).Rejected?
    decreases es
  {
    if es != [] {
      var init := es[..|es| - 1];
      var last := es[|es| - 1];
      CheckedScanNeedsKnownFolders(c, dir, parent, init);
      if DirPaths(dir, init) <= c.folders.Keys {
        var m := ScanEntries(c, dir, parent, init);
        ScanEntriesKeys(c, dir, parent, init);
        assert m.folders.Keys == c.folders.Keys;
        CheckedEntryNeedsKnownFolders(m, dir, parent, last);
      }
    }
  }

  lemma {:induction false} CheckedEntryNeedsKnownFolders(c: Catalog, dir: Path, parent: Option<Id>, e: Entry)
    ensures EntryDirPaths(dir, e) <= c.folders.Keys ==>
      CheckedEntry(c, dir, parent, None, e) == Done(ScanEntry(c, dir, parent, e))
    ensures !(EntryDirPaths(dir, e) <= c.folders.Keys) ==> CheckedEntry(c, dir, parent, None, e).Rejected?
    decreases e
  {
    match e
    case DirEntry(name, children) =>
      var p := dir + [name];
      assert p in EntryDirPaths(dir, e);
      if p in c.folders {
        CheckedScanNeedsKnownFolders(c, p, Some(c.folders[p].id), children);
      }
    case FileEntry(_, _) =>
  }

  /** The smallest tree that shows it: an empty catalog and one directory. */
  lemma NewFolderAbortsScan(root: Path)
    ensures CheckedEntries(Catalog(map[], map[], 0), root, None, None, [DirEntry("photos", [])]).Rejected?
  {
    var es := [DirEntry("photos", [])];
    assert root + ["photos"] in EntryDirPaths(root, es[0]);
    assert DirPaths(root, es) == DirPaths(root, es[..0]) + EntryDirPaths(root, es[0]);
    CheckedScanNeedsKnownFolders(Catalog(map[], map[], 0), root, None, es);
  }

  // ---------------------------------------------------------------------
  // The database, as the scan script sees it

  /** The Folder and File collections. */
  class Index {
    var folders: map<Path, FolderRecord>
    var files: map<Path, FileRecord>
    var nextId: Id

    function State(): Catalog
      reads this
    {
      Catalog(folders, files, nextId)
    }

    ghost predicate Valid()
      reads this
    {
      Consistent(State())
    }

    constructor (initial: Catalog)
      requires Consistent(initial)
      ensures Valid() && State() == initial
    {
      folders := initial.folders;
      files := initial.files;
      nextId := initial.nextId;
    }

    /** `Folder.findOne({ path: p })`. */
    method FindFolder(p: Path) returns (r: Option<FolderRecord>)
      requires Valid()
      ensures r.Some? <==> p in folders
      ensures r.Some? ==> r.value == folders[p] && r.value.path == p
    {
      if p in folders {
        r := Some(folders[p]);
      } else {
        r := None;
      }
    }

    /** `File.findOne({ path: p })`. */
    method FindFile(p: Path) returns (r: Option<FileRecord>)
      requires Valid()
      ensures r.Some? <==> p in files
      ensures r.Some? ==> r.value == files[p] && r.value.path == p
    {
      if p in files {
        r := Some(files[p]);
      } else {
        r := None;
      }
    }

    /** `Folder.create(...)` for a path that has no record yet. */
    method CreateFolder(name: Name, p: Path, parent: Option<Id>, owner: Option<UserId>)
      returns (rec: FolderRecord)
      requires Valid() && p !in folders
      modifies this
      ensures Valid()
      ensures State() == AddFolder(old(State()), name, p, parent, owner)
      ensures rec == folders[p] && rec.id !in old(FolderIds(State()))
    {
      AddFolderConsistent(State(), name, p, parent, owner);
      rec := FolderRecord(nextId, name, owner, parent, p);
      folders := folders[p := rec];
      nextId := nextId + 1;
    }

    /** `File.create(...)` for a path that has no record yet. */
    method CreateFile(name: Name, size: nat, p: Path, folder: Option<Id>,
                      owner: Option<UserId>, mimeType: Option<string>)
      returns (rec: FileRecord)
      requires Valid() && p !in files
      modifies this
      ensures Valid()
      ensures State() == AddFile(old(State()), name, size, p, folder, owner, mimeType)
      ensures rec == files[p]
    {
      AddFileConsistent(State(), name, size, p, folder, owner, mimeType);
      rec := FileRecord(nextId, name, size, owner, folder, p, mimeType, false);
      files := files[p := rec];
      nextId := nextId + 1;
    }
  }

  /** The scan of the first `i + 1` entries is the scan of the first `i`
      followed by entry `i`. */
  lemma ScanEntriesSnoc(c: Catalog, dir: Path, parent: Option<Id>, es: seq<Entry>, i: nat)
    requires i < |es|
    ensures ScanEntries(c, dir, parent, es[..i + 1]) == ScanEntry(ScanEntries(c, dir, parent, es[..i]), dir, parent, es[i])
  {
    assert es[..i + 1][..i] == es[..i];
  }

  /** `scanFolder(folderPath, parentFolderId)`, given the listing of
      `folderPath` that the directory reads would return. */
  method ScanFolder(db: Index, folderPath: Path, parentFolderId: Option<Id>, items: seq<Entry>)
    requires db.Valid()
    modifies db
    ensures db.Valid()
    ensures db.State() == ScanEntries(old(db.State()), folderPath, parentFolderId, items)
    decreases items, 1
  {
    var i := 0;
    while i < |items|
      invariant i <= |items|
      invariant db.Valid()
      invariant db.State() == ScanEntries(old(db.State()), folderPath, parentFolderId, items[..i])
    {
      ScanEntriesSnoc(old(db.State()), folderPath, parentFolderId, items, i);
      ScanItem(db, folderPath, parentFolderId, items[i]);
      i := i + 1;
    }
    assert items[..|items|] == items;
  }

  /** One pass of `scanFolder`'s loop: a directory gets its folder record
      looked up or created and is then scanned under that record's id; any
      other entry gets a file record unless it has one. */
  method ScanItem(db: Index, folderPath: Path, parentFolderId: Option<Id>, item: Entry)
    requires db.Valid()
    modifies db
    ensures db.Valid()
    ensures db.State() == ScanEntry(old(db.State()), folderPath, parentFolderId, item)
    decreases item, 0
  {
    var itemPath := folderPath + [item.name];
    match item {
      case DirEntry(name, children) =>
        var folder := db.FindFolder(itemPath);
        var folderId: Id;
        if folder.None? {
          var created := db.CreateFolder(name, itemPath, parentFolderId, None);
          folderId := created.id;
        } else {
          folderId := folder.value.id;
        }
        ScanFolder(db, itemPath, Some(folderId), children);
      case FileEntry(name, size) =>
        var file := db.FindFile(itemPath);
        if file.None? {
          var _ := db.CreateFile(name, size, itemPath, parentFolderId, None, Some(Mime.MimeType(name)));
        }
    }
  }

  /** `scanUploadsFolder`: scans the uploads root, which itself gets no
      folder record, with no parent. */
  method ScanUploadsFolder(db: Index, root: Path, listing: seq<Entry>)
    requires db.Valid()
    modifies db
    ensures db.Valid()
    ensures db.State() == ScanEntries(old(db.State()), root, None, listing)
    ensures root in db.folders <==> root in old(db.folders)
  {
    ScanEntriesKeys(db.State(), root, None, listing);
    ScanFolder(db, root, None, listing);
  }
}
