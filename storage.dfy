/** The upload server's request handlers (chunk upload, merge, listing,
    download and delete) as operations on the tree stored beneath the upload
    directory. The tree is a map from paths to nodes; the path `[]` is the
    upload directory itself, so a path is also its name relative to that
    directory. */
module Storage {
  import opened Common

  datatype Node = Dir | File(data: seq<Byte>)

  type FileSystem = map<Path, Node>

  /** The shape every real directory tree has: each entry other than the
      upload directory sits in a directory that exists, and the upload
      directory, when present, is a directory. */
  ghost predicate WellFormed(fs: FileSystem)
  {
    && ([] in fs ==> fs[[]] == Dir)
    && forall d, n :: d + [n] in fs ==> d in fs && fs[d] == Dir
  }

  /** Every directory above an entry exists and is a directory. */
  lemma {:induction false} AncestorIsDir(fs: FileSystem, p: Path, j: nat)
    requires WellFormed(fs) && p in fs && j < |p|
    ensures p[..j] in fs && fs[p[..j]] == Dir
    decreases |p|
  {
    var q := Parent(p);
    if j < |q| {
      AncestorIsDir(fs, q, j);
      assert q[..j] == p[..j];
    }
  }

  // ---------------------------------------------------------------------
  // POST /upload
  // ---------------------------------------------------------------------

  /** `<filename>.part<k>`: the entry that holds chunk `k` of `f`. */
  function PartPath(f: Path, k: nat): (p: Path)
    requires |f| > 0
    ensures |p| == |f| && Parent(p) == Parent(f) && p != f
  {
    var last := f[|f| - 1] + ".part" + NatToString(k);
    assert |last| > |f[|f| - 1]|;
    Parent(f) + [last]
  }

  /** Different chunk indices of one file name never share an entry. */
  lemma PartPathInjective(f: Path, i: nat, j: nat)
    requires |f| > 0 && PartPath(f, i) == PartPath(f, j)
    ensures i == j
  {
    var stem := f[|f| - 1] + ".part";
    assert PartPath(f, i)[|f| - 1] == stem + NatToString(i);
    assert PartPath(f, j)[|f| - 1] == stem + NatToString(j);
    assert (stem + NatToString(i))[|stem|..] == NatToString(i);
    assert (stem + NatToString(j))[|stem|..] == NatToString(j);
    NatToStringInjective(i, j);
  }

  /** Some directory that `ensureDirSync(dirname(f))` needs is a regular
      file, so that call throws before creating anything. */
  predicate AncestorIsFile(fs: FileSystem, f: Path)
  {
    exists j | 0 <= j < |f| :: f[..j] in fs && fs[f[..j]].File?
  }

  function Prefixes(d: Path): set<Path>
  {
    set j | 0 <= j <= |d| :: d[..j]
  }

  /** `ensureDirSync(d)`: creates `d` and every missing directory above it. */
  function EnsureDir(fs: FileSystem, d: Path): (r: FileSystem)
    ensures forall p :: p in r <==> p in fs || p in Prefixes(d)
    ensures forall p :: p in fs ==> r[p] == fs[p]
    ensures forall p :: p in r && p !in fs ==> r[p] == Dir
  {
    fs + map p | p in Prefixes(d) && p !in fs :: Dir
  }

  lemma EnsureDirNoop(fs: FileSystem, d: Path)
    requires forall j :: 0 <= j <= |d| ==> d[..j] in fs
    ensures EnsureDir(fs, d) == fs
  {
    var r := EnsureDir(fs, d);
    forall p | p in Prefixes(d) ensures p in fs {
      var j :| 0 <= j <= |d| && p == d[..j];
    }
    assert r.Keys == fs.Keys;
  }

  /** The upload handler throws: either `ensureDirSync` meets a regular file
      on the way down, or `writeFile` targets an existing directory. */
  predicate UploadFails(fs: FileSystem, f: Path, k: nat)
    requires |f| > 0
  {
    AncestorIsFile(fs, f) || (PartPath(f, k) in fs && fs[PartPath(f, k)] == Dir)
  }

  /** The tree after `POST /upload` of bytes `data` as chunk `k` of `f`. */
  function UploadState(fs: FileSystem, f: Path, k: nat, data: seq<Byte>): (r: FileSystem)
    requires WellFormed(fs) && |f| > 0
    ensures WellFormed(r)
    ensures UploadFails(fs, f, k) ==> r == fs
    ensures !UploadFails(fs, f, k) ==>
      && PartPath(f, k) in r && r[PartPath(f, k)] == File(data)
      && Parent(f) in r && r[Parent(f)] == Dir
    ensures forall p :: p in fs && p != PartPath(f, k) ==> p in r && r[p] == fs[p]
    ensures forall p :: p in r && p !in fs && p != PartPath(f, k) ==> r[p] == Dir && Beneath(f, p)
  {
    if UploadFails(fs, f, k) then fs
    else
      UploadKeepsWellFormed(fs, f, k, data);
      EnsureDir(fs, Parent(f))[PartPath(f, k) := File(data)]
  }

  lemma UploadKeepsWellFormed(fs: FileSystem, f: Path, k: nat, data: seq<Byte>)
    requires WellFormed(fs) && |f| > 0 && !UploadFails(fs, f, k)
    ensures WellFormed(EnsureDir(fs, Parent(f))[PartPath(f, k) := File(data)])
    ensures Parent(f) in EnsureDir(fs, Parent(f)) && EnsureDir(fs, Parent(f))[Parent(f)] == Dir
  {
    var d := Parent(f);
    var e := EnsureDir(fs, d);
    var part := PartPath(f, k);
    var r := e[part := File(data)];
    // every directory above `f` is a directory in `e`
    forall j | 0 <= j <= |d|
      ensures d[..j] in e && e[d[..j]] == Dir
    {
      assert d[..j] in Prefixes(d);
      assert d[..j] == f[..j];
    }
    assert d[..|d|] == d;
    assert d[..0] == [];
    forall p | p in r && p != []
      ensures Parent(p) in r && r[Parent(p)] == Dir
    {
      if p == part {
        assert Parent(p) == d[..|d|];
      } else if p in fs {
        assert Parent(p) in e && e[Parent(p)] == Dir;
        assert part in fs ==> fs[part] != Dir;
      } else {
        var j :| 0 <= j <= |d| && p == d[..j];
        assert Parent(p) == d[..j - 1];
      }
    }
  }

  /** When `writeFile` hits a directory, `ensureDirSync` had nothing to
      create, so the failed upload leaves the tree as it was. */
  lemma UploadOntoDirectory(fs: FileSystem, f: Path, k: nat)
    requires WellFormed(fs) && |f| > 0 && !AncestorIsFile(fs, f)
    requires PartPath(f, k) in EnsureDir(fs, Parent(f)) && EnsureDir(fs, Parent(f))[PartPath(f, k)] == Dir
    ensures EnsureDir(fs, Parent(f)) == fs && UploadFails(fs, f, k)
  {
    var part := PartPath(f, k);
    var d := Parent(f);
    assert part in fs;
    forall j | 0 <= j <= |d| ensures d[..j] in fs {
      AncestorIsDir(fs, part, j);
      assert part[..j] == d[..j];
    }
    EnsureDirNoop(fs, d);
  }

  /** After a successful upload every directory above `f` exists. */
  lemma UploadSettles(fs: FileSystem, f: Path, k: nat, data: seq<Byte>)
    requires WellFormed(fs) && |f| > 0 && !UploadFails(fs, f, k)
    ensures var s := UploadState(fs, f, k, data);
      && (forall j :: 0 <= j < |f| ==> f[..j] in s && s[f[..j]] == Dir)
      && !AncestorIsFile(s, f)
      && EnsureDir(s, Parent(f)) == s
  {
    var s := UploadState(fs, f, k, data);
    forall j | 0 <= j < |f| ensures f[..j] in s && s[f[..j]] == Dir {
      AncestorIsDir(s, PartPath(f, k), j);
      assert PartPath(f, k)[..j] == f[..j];
    }
    forall j | 0 <= j <= |Parent(f)| ensures Parent(f)[..j] in s {
      assert Parent(f)[..j] == f[..j];
    }
    EnsureDirNoop(s, Parent(f));
  }

  /** Re-sending chunk `k` replaces its bytes: only the last write counts. */
  lemma UploadLastWriteWins(fs: FileSystem, f: Path, k: nat, a: seq<Byte>, b: seq<Byte>)
    requires WellFormed(fs) && |f| > 0
    ensures UploadState(UploadState(fs, f, k, a), f, k, b) == UploadState(fs, f, k, b)
  {
    if !UploadFails(fs, f, k) {
      UploadSettles(fs, f, k, a);
      var part := PartPath(f, k);
      var e := EnsureDir(fs, Parent(f));
      var s := UploadState(fs, f, k, a);
      assert s == e[part := File(a)];
      assert !UploadFails(s, f, k);
      assert UploadState(s, f, k, b) == s[part := File(b)];
      assert s[part := File(b)] == e[part := File(b)];
    }
  }

  /** An upload of chunk `i` does not change whether an upload of another
      chunk `j` of the same file fails. */
  lemma UploadKeepsOtherOutcome(fs: FileSystem, f: Path, i: nat, j: nat, data: seq<Byte>)
    requires WellFormed(fs) && |f| > 0 && i != j
    ensures var s := UploadState(fs, f, i, data);
      && UploadFails(s, f, j) == UploadFails(fs, f, j)
      && (PartPath(f, j) in s <==> PartPath(f, j) in fs)
      && (PartPath(f, j) in fs ==> s[PartPath(f, j)] == fs[PartPath(f, j)])
  {
    var s := UploadState(fs, f, i, data);
    var pj := PartPath(f, j);
    if PartPath(f, i) == pj {
      PartPathInjective(f, i, j);
    }
    if !UploadFails(fs, f, i) {
      UploadSettles(fs, f, i, data);
    }
  }

  lemma PartPathsDiffer(f: Path, i: nat, j: nat)
    requires |f| > 0 && i != j
    ensures PartPath(f, i) != PartPath(f, j)
  {
    if PartPath(f, i) == PartPath(f, j) {
      PartPathInjective(f, i, j);
    }
  }

  /** Uploads of different chunks commute: the arrival order of chunks does
      not matter. */
  lemma UploadsCommute(fs: FileSystem, f: Path, i: nat, j: nat, a: seq<Byte>, b: seq<Byte>)
    requires WellFormed(fs) && |f| > 0 && i != j
    ensures UploadState(UploadState(fs, f, i, a), f, j, b)
         == UploadState(UploadState(fs, f, j, b), f, i, a)
  {
    if UploadFails(fs, f, i) {
      UploadKeepsOtherOutcome(fs, f, j, i, b);
    } else if UploadFails(fs, f, j) {
      UploadKeepsOtherOutcome(fs, f, i, j, a);
    } else {
      BothUploadsCommute(fs, f, i, j, a, b);
    }
  }

  lemma BothUploadsCommute(fs: FileSystem, f: Path, i: nat, j: nat, a: seq<Byte>, b: seq<Byte>)
    requires WellFormed(fs) && |f| > 0 && i != j
    requires !UploadFails(fs, f, i) && !UploadFails(fs, f, j)
    ensures UploadState(UploadState(fs, f, i, a), f, j, b)
         == UploadState(UploadState(fs, f, j, b), f, i, a)
  {
    PartPathsDiffer(f, i, j);
    UploadPair(fs, f, i, j, a, b);
    UploadPair(fs, f, j, i, b, a);
    UpdatesCommute(EnsureDir(fs, Parent(f)), PartPath(f, i), File(a), PartPath(f, j), File(b));
  }

  lemma UpdatesCommute(m: FileSystem, p: Path, x: Node, q: Path, y: Node)
    requires p != q
    ensures m[p := x][q := y] == m[q := y][p := x]
  {
  }

  /** Two successful uploads of different chunks: both entries are written
      into the tree with the missing directories created once. */
  lemma UploadPair(fs: FileSystem, f: Path, i: nat, j: nat, a: seq<Byte>, b: seq<Byte>)
    requires WellFormed(fs) && |f| > 0 && i != j
    requires !UploadFails(fs, f, i) && !UploadFails(fs, f, j)
    ensures UploadState(UploadState(fs, f, i, a), f, j, b)
         == EnsureDir(fs, Parent(f))[PartPath(f, i) := File(a)][PartPath(f, j) := File(b)]
  {
    var si := UploadState(fs, f, i, a);
    UploadKeepsOtherOutcome(fs, f, i, j, a);
    UploadSettles(fs, f, i, a);
    assert UploadState(si, f, j, b) == si[PartPath(f, j) := File(b)];
  }

  /** One chunk upload request: chunk `index` carrying `data`. */
  datatype Chunk = Chunk(index: nat, data: seq<Byte>)

  /** The tree after a series of upload requests for `f`, in arrival order. */
  function UploadAll(fs: FileSystem, f: Path, chunks: seq<Chunk>): (r: FileSystem)
    requires WellFormed(fs) && |f| > 0
    ensures WellFormed(r)
    decreases |chunks|
  {
    if chunks == [] then fs
    else UploadAll(UploadState(fs, f, chunks[0].index, chunks[0].data), f, chunks[1..])
  }

  /** The bytes of the last request in `chunks` for index `k`, if any. */
  function LastWrite(chunks: seq<Chunk>, k: nat): (r: Option<seq<Byte>>)
    ensures r.Some? <==> exists c :: c in chunks && c.index == k
    ensures r.Some? ==> Chunk(k, r.value) in chunks
  {
    if chunks == [] then None
    else
      match LastWrite(chunks[1..], k)
      case Some(d) => Some(d)
      case None => if chunks[0].index == k then Some(chunks[0].data) else None
  }

  /** The bytes `LastWrite` picks come from the last upload of index `k`:
      no later upload has that index. */
  lemma {:induction false} LastWriteIsLast(chunks: seq<Chunk>, k: nat)
    ensures LastWrite(chunks, k).Some? ==>
      exists i :: 0 <= i < |chunks| && chunks[i] == Chunk(k, LastWrite(chunks, k).value)
        && (forall j :: i < j < |chunks| ==> chunks[j].index != k)
    decreases |chunks|
  {
    if chunks != [] {
      var rest := chunks[1..];
      LastWriteIsLast(rest, k);
      match LastWrite(rest, k)
      case Some(d) =>
        var i :| 0 <= i < |rest| && rest[i] == Chunk(k, d)
          && (forall j :: i < j < |rest| ==> rest[j].index != k);
        assert chunks[i + 1] == Chunk(k, d);
        assert forall j :: i + 1 < j < |chunks| ==> chunks[j] == rest[j - 1];
      case None =>
        if chunks[0].index == k {
          assert forall j :: 0 < j < |chunks| ==> chunks[j] in rest;
        }
    }
  }

  /** Uploads of `f` can succeed: no directory above it is a file, no chunk
      entry is a directory, and `f` itself is not a directory. */
  ghost predicate Ready(fs: FileSystem, f: Path)
    requires |f| > 0
  {
    && WellFormed(fs)
    && !AncestorIsFile(fs, f)
    && (forall i :: PartPath(f, i) in fs ==> fs[PartPath(f, i)].File?)
    && (f in fs ==> fs[f].File?)
  }

  lemma UploadKeepsReady(fs: FileSystem, f: Path, k: nat, data: seq<Byte>)
    requires |f| > 0 && Ready(fs, f)
    ensures !UploadFails(fs, f, k) && Ready(UploadState(fs, f, k, data), f)
  {
    var s := UploadState(fs, f, k, data);
    UploadSettles(fs, f, k, data);
    forall i | PartPath(f, i) in s ensures s[PartPath(f, i)].File? {
      if i != k {
        UploadKeepsOtherOutcome(fs, f, k, i, data);
      }
    }
  }

  /** After any series of uploads from a ready tree, each chunk entry holds
      the bytes of the last upload for its index, and chunks never uploaded
      are as they were. */
  lemma {:induction false} UploadAllParts(fs: FileSystem, f: Path, chunks: seq<Chunk>, k: nat)
    requires |f| > 0 && Ready(fs, f)
    ensures var r := UploadAll(fs, f, chunks);
      && Ready(r, f)
      && (chunks != [] ==> Parent(f) in r && r[Parent(f)] == Dir)
      && (LastWrite(chunks, k).Some? ==>
            PartPath(f, k) in r && r[PartPath(f, k)] == File(LastWrite(chunks, k).value))
      && (LastWrite(chunks, k).None? ==>
            && (PartPath(f, k) in r <==> PartPath(f, k) in fs)
            && (PartPath(f, k) in fs ==> r[PartPath(f, k)] == fs[PartPath(f, k)]))
    decreases |chunks|
  {
    if chunks != [] {
      var c := chunks[0];
      var s := UploadState(fs, f, c.index, c.data);
      UploadKeepsReady(fs, f, c.index, c.data);
      UploadAllParts(s, f, chunks[1..], k);
      if c.index != k {
        UploadKeepsOtherOutcome(fs, f, c.index, k, c.data);
      }
    }
  }

  // ---------------------------------------------------------------------
  // POST /merge
  // ---------------------------------------------------------------------

  datatype MergeOutcome =
    | Merged                   // "File merge complete"
    | MissingChunk(index: nat) // 400 "Missing chunk <index>"
    | ReadFailed(index: nat)   // 500: the chunk entry is a directory

  /** `createWriteStream(f)` can open `f`: its directory exists and `f` is
      not itself a directory. The stream opens asynchronously, so whether
      it can does not change what the loop does. */
  predicate CanOpen(fs: FileSystem, f: Path)
    requires |f| > 0
  {
    Parent(f) in fs && fs[Parent(f)] == Dir && !(f in fs && fs[f] == Dir)
  }

  predicate PartIsFile(fs: FileSystem, f: Path, i: nat)
    requires |f| > 0
  {
    PartPath(f, i) in fs && fs[PartPath(f, i)].File?
  }

  /** The index at which the merge loop stops: the first chunk in `[0, n)`
      that is not a regular file, or `n` when there is none. */
  function Gap(fs: FileSystem, f: Path, n: nat): (g: nat)
    requires |f| > 0
    ensures g <= n
    ensures forall i :: 0 <= i < g ==> PartIsFile(fs, f, i)
    ensures g < n ==> !PartIsFile(fs, f, g)
  {
    if n == 0 then 0
    else
      var g := Gap(fs, f, n - 1);
      if g < n - 1 || !PartIsFile(fs, f, n - 1) then g else n
  }

  /** `Gap` is the only index with its three properties. */
  lemma StopsAt(fs: FileSystem, f: Path, n: nat, i: nat)
    requires |f| > 0 && i <= n
    requires forall j :: 0 <= j < i ==> PartIsFile(fs, f, j)
    requires i < n ==> !PartIsFile(fs, f, i)
    ensures Gap(fs, f, n) == i
  {
  }

  /** Chunks `0 .. n-1` of `f` concatenated in index order. */
  function Assembled(fs: FileSystem, f: Path, n: nat): seq<Byte>
    requires |f| > 0 && forall i :: 0 <= i < n ==> PartIsFile(fs, f, i)
  {
    if n == 0 then []
    else
      assert PartIsFile(fs, f, n - 1);
      Assembled(fs, f, n - 1) + fs[PartPath(f, n - 1)].data
  }

  function PartKeys(f: Path, n: nat): set<Path>
    requires |f| > 0
  {
    set i | 0 <= i < n :: PartPath(f, i)
  }

  lemma PartInKeys(f: Path, n: nat, j: nat)
    requires |f| > 0
    ensures PartPath(f, j) in PartKeys(f, n) <==> j < n
    ensures f !in PartKeys(f, n)
  {
    if PartPath(f, j) in PartKeys(f, n) {
      var i :| 0 <= i < n && PartPath(f, i) == PartPath(f, j);
      PartPathInjective(f, i, j);
    }
  }

  /** The tree once chunks `0 .. n-1` have been appended to `f` and unlinked. */
  function Consumed(fs: FileSystem, f: Path, n: nat): FileSystem
    requires |f| > 0 && forall i :: 0 <= i < n ==> PartIsFile(fs, f, i)
  {
    (fs - PartKeys(f, n))[f := File(Assembled(fs, f, n))]
  }

  /** What `Consumed` keeps and removes. */
  lemma ConsumedShape(fs: FileSystem, f: Path, n: nat)
    requires |f| > 0 && forall i :: 0 <= i < n ==> PartIsFile(fs, f, i)
    ensures var c := Consumed(fs, f, n);
      && f in c && c[f] == File(Assembled(fs, f, n))
      && (forall j :: PartPath(f, j) in c <==> n <= j && PartPath(f, j) in fs)
      && (forall j :: n <= j && PartPath(f, j) in fs ==> c[PartPath(f, j)] == fs[PartPath(f, j)])
      && (forall q :: q != f && q !in PartKeys(f, n) ==> (q in c <==> q in fs))
      && (forall q :: q != f && q in c ==> q in fs && c[q] == fs[q])
      && (forall q :: q in PartKeys(f, n) ==> q in fs && fs[q].File?)
  {
    forall j: nat ensures PartPath(f, j) in PartKeys(f, n) <==> j < n {
      PartInKeys(f, n, j);
    }
    forall q | q in PartKeys(f, n) ensures q in fs && fs[q].File? {
      var i :| 0 <= i < n && q == PartPath(f, i);
      assert PartIsFile(fs, f, i);
    }
  }

  lemma ConsumeStep(fs: FileSystem, f: Path, i: nat)
    requires |f| > 0 && forall j :: 0 <= j <= i ==> PartIsFile(fs, f, j)
    ensures var c := Consumed(fs, f, i);
      && PartIsFile(fs, f, i)
      && PartPath(f, i) in c && c[PartPath(f, i)] == fs[PartPath(f, i)] && f in c && c[f].File?
      && c[f := File(c[f].data + c[PartPath(f, i)].data)] - {PartPath(f, i)} == Consumed(fs, f, i + 1)
  {
    PartInKeys(f, i, i);
    var part := PartPath(f, i);
    var rest := fs - PartKeys(f, i);
    var whole := File(Assembled(fs, f, i + 1));
    assert PartIsFile(fs, f, i);
    assert part in rest && rest[part] == fs[part];
    assert PartKeys(f, i + 1) == PartKeys(f, i) + {part};
    assert Consumed(fs, f, i)[f := whole] == rest[f := whole];
    assert rest[f := whole] - {part} == (rest - {part})[f := whole];
    assert rest - {part} == fs - PartKeys(f, i + 1);
  }

  lemma ConsumedWellFormed(fs: FileSystem, f: Path, n: nat)
    requires WellFormed(fs) && |f| > 0 && CanOpen(fs, f)
    requires forall i :: 0 <= i < n ==> PartIsFile(fs, f, i)
    ensures WellFormed(Consumed(fs, f, n))
  {
    var c := Consumed(fs, f, n);
    ConsumedShape(fs, f, n);
    forall d, name | d + [name] in c
      ensures d in c && c[d] == Dir
    {
      if d + [name] == f {
        assert d == Parent(f);
      } else {
        assert d + [name] in fs;
      }
    }
  }

  /** The tree once chunks `0 .. n-1` have been read and unlinked while the
      stream never opened: nothing was written. */
  function Drained(fs: FileSystem, f: Path, n: nat): FileSystem
    requires |f| > 0
  {
    fs - PartKeys(f, n)
  }

  lemma DrainStep(fs: FileSystem, f: Path, i: nat)
    requires |f| > 0
    ensures var d := Drained(fs, f, i);
      && (PartPath(f, i) in d <==> PartPath(f, i) in fs)
      && (PartPath(f, i) in fs ==> d[PartPath(f, i)] == fs[PartPath(f, i)])
      && d - {PartPath(f, i)} == Drained(fs, f, i + 1)
  {
    PartInKeys(f, i, i);
    assert PartKeys(f, i + 1) == PartKeys(f, i) + {PartPath(f, i)};
  }

  lemma DrainedWellFormed(fs: FileSystem, f: Path, n: nat)
    requires WellFormed(fs) && |f| > 0
    requires forall i :: 0 <= i < n ==> PartIsFile(fs, f, i)
    ensures WellFormed(Drained(fs, f, n))
  {
    ConsumedShape(fs, f, n);
  }

  /** The tree once the merge loop has handled chunks `0 .. i-1`, with the
      destination `open` or not. */
  function Merging(fs: FileSystem, f: Path, i: nat, open: bool): FileSystem
    requires |f| > 0 && forall j :: 0 <= j < i ==> PartIsFile(fs, f, j)
  {
    if open then Consumed(fs, f, i) else Drained(fs, f, i)
  }

  /** One turn of the merge loop: chunk `i` is still as it was, and when it
      is a regular file, appending it (if open) and unlinking it gives the
      state after `i + 1` chunks. */
  lemma MergeStep(fs: FileSystem, f: Path, i: nat, open: bool)
    requires |f| > 0 && forall j :: 0 <= j < i ==> PartIsFile(fs, f, j)
    ensures var cur := Merging(fs, f, i, open);
      var part := PartPath(f, i);
      && (part in cur <==> part in fs)
      && (part in fs ==> cur[part] == fs[part])
      && (open ==> f in cur && cur[f].File?)
      && (PartIsFile(fs, f, i) ==>
            Merging(fs, f, i + 1, open)
            == (if open then cur[f := File(cur[f].data + cur[part].data)] else cur) - {part})
  {
    if open {
      ConsumedShape(fs, f, i);
      if PartIsFile(fs, f, i) {
        ConsumeStep(fs, f, i);
      }
    } else {
      DrainStep(fs, f, i);
    }
  }

  /** When the merge loop leaves at index `i` (past the last declared chunk,
      or at one that is not a regular file), the tree it has built is the
      merge's final tree, and that tree is well formed. */
  lemma MergeExit(fs: FileSystem, f: Path, n: nat, i: nat)
    requires WellFormed(fs) && |f| > 0 && i <= n
    requires forall j :: 0 <= j < i ==> PartIsFile(fs, f, j)
    requires i < n ==> !PartIsFile(fs, f, i)
    ensures Gap(fs, f, n) == i
    ensures MergeFinal(fs, f, n) == Merging(fs, f, i, CanOpen(fs, f))
    ensures WellFormed(MergeFinal(fs, f, n))
  {
    StopsAt(fs, f, n, i);
    MergeFinalWellFormed(fs, f, n);
  }

  /** The outcome of `POST /merge` for `f` with `n` declared chunks. */
  function MergeResult(fs: FileSystem, f: Path, n: nat): MergeOutcome
    requires |f| > 0
  {
    var g := Gap(fs, f, n);
    if g == n then Merged
    else if PartPath(f, g) !in fs then MissingChunk(g)
    else ReadFailed(g)
  }

  /** The tree after `POST /merge` for `f` with `n` declared chunks: the
      chunks before the gap are read and unlinked, and they land in `f`
      when the stream could open it. */
  function MergeFinal(fs: FileSystem, f: Path, n: nat): FileSystem
    requires |f| > 0
  {
    Merging(fs, f, Gap(fs, f, n), CanOpen(fs, f))
  }

  lemma MergeFinalWellFormed(fs: FileSystem, f: Path, n: nat)
    requires WellFormed(fs) && |f| > 0
    ensures WellFormed(MergeFinal(fs, f, n))
  {
    var g := Gap(fs, f, n);
    if CanOpen(fs, f) {
      ConsumedWellFormed(fs, f, g);
    } else {
      DrainedWellFormed(fs, f, g);
    }
  }

  /** A merge succeeds exactly when every chunk `0 .. n-1` is present; it
      then leaves `f` holding the chunks in index order, removes every
      chunk entry `0 .. n-1`, and changes nothing else. */
  lemma {:induction false} MergeSucceeds(fs: FileSystem, f: Path, n: nat)
    requires |f| > 0
    ensures MergeResult(fs, f, n) == Merged <==> forall i :: 0 <= i < n ==> PartIsFile(fs, f, i)
    ensures MergeResult(fs, f, n) == Merged && CanOpen(fs, f) ==>
      var r := MergeFinal(fs, f, n);
      && f in r && r[f] == File(Assembled(fs, f, n))
      && (forall i :: 0 <= i < n ==> PartPath(f, i) !in r)
      && (forall q :: q in fs && q != f && q !in PartKeys(f, n) ==> q in r && r[q] == fs[q])
      && (forall q :: q in r ==> q == f || q in fs)
  {
    if forall i :: 0 <= i < n ==> PartIsFile(fs, f, i) {
      assert Gap(fs, f, n) == n;
      ConsumedShape(fs, f, n);
    }
  }

  /** When the destination cannot be opened (it is a directory, or its
      directory is missing) the reply is the same as otherwise, and the
      chunks before the gap are still unlinked, but nothing is written:
      their bytes are lost. */
  lemma MergeUnopenable(fs: FileSystem, f: Path, n: nat)
    requires |f| > 0 && !CanOpen(fs, f)
    ensures var g := Gap(fs, f, n);
      var r := MergeFinal(fs, f, n);
      && (forall i :: 0 <= i < g ==> PartIsFile(fs, f, i) && PartPath(f, i) !in r)
      && (f in r <==> f in fs) && (f in fs ==> r[f] == fs[f])
      && (forall q :: q in fs && q !in PartKeys(f, g) ==> q in r && r[q] == fs[q])
      && (forall q :: q in r ==> q in fs)
  {
    var g := Gap(fs, f, n);
    forall i | 0 <= i < g ensures PartPath(f, i) in PartKeys(f, g) {
      PartInKeys(f, g, i);
    }
    PartInKeys(f, g, 0);
  }

  /** A merge that stops at chunk `g` (absent, or not a regular file) has
      appended and unlinked chunks `0 .. g-1`, and chunks from `g` on are
      untouched. */
  lemma MergeStops(fs: FileSystem, f: Path, n: nat)
    requires |f| > 0 && CanOpen(fs, f)
    requires MergeResult(fs, f, n) != Merged
    ensures var g := Gap(fs, f, n);
      var r := MergeFinal(fs, f, n);
      && g < n
      && MergeResult(fs, f, n) == (if PartPath(f, g) in fs then ReadFailed(g) else MissingChunk(g))
      && (forall i :: 0 <= i < g ==> PartIsFile(fs, f, i) && PartPath(f, i) !in r)
      && f in r && r[f] == File(Assembled(fs, f, g))
      && (forall j :: g <= j ==> (PartPath(f, j) in r <==> PartPath(f, j) in fs))
      && (forall j :: g <= j && PartPath(f, j) in fs ==> r[PartPath(f, j)] == fs[PartPath(f, j)])
  {
    ConsumedShape(fs, f, Gap(fs, f, n));
  }

  /** Merging again after a successful merge of at least one chunk reports
      chunk 0 missing: every chunk was consumed. */
  lemma MergeTwiceMissesChunkZero(fs: FileSystem, f: Path, n: nat)
    requires |f| > 0 && n >= 1
    requires MergeResult(fs, f, n) == Merged
    ensures MergeResult(MergeFinal(fs, f, n), f, n) == MissingChunk(0)
  {
    MergeSucceeds(fs, f, n);
    assert Gap(fs, f, n) == n;
    var r := MergeFinal(fs, f, n);
    ConsumedShape(fs, f, n);
    PartInKeys(f, n, 0);
    assert !PartIsFile(r, f, 0);
    assert Gap(r, f, n) == 0;
  }

  /** Chunks `0 .. n-1` from the last upload of each index, joined in index
      order. */
  function Joined(chunks: seq<Chunk>, n: nat): seq<Byte>
    requires forall i :: 0 <= i < n ==> LastWrite(chunks, i).Some?
  {
    if n == 0 then [] else Joined(chunks, n - 1) + LastWrite(chunks, n - 1).value
  }

  /** Chunks uploaded in any order, each possibly re-sent, merge into the
      last bytes sent for each index, joined in index order. */
  lemma {:induction false} UploadsThenMerge(fs: FileSystem, f: Path, chunks: seq<Chunk>, n: nat)
    requires |f| > 0 && Ready(fs, f) && n >= 1
    requires forall i :: 0 <= i < n ==> LastWrite(chunks, i).Some?
    ensures var s := UploadAll(fs, f, chunks);
      && MergeResult(s, f, n) == Merged
      && f in MergeFinal(s, f, n) && MergeFinal(s, f, n)[f] == File(Joined(chunks, n))
  {
    var s := UploadAll(fs, f, chunks);
    assert chunks != [] by {
      assert LastWrite(chunks, 0).Some?;
    }
    forall i | 0 <= i < n
      ensures PartIsFile(s, f, i) && s[PartPath(f, i)] == File(LastWrite(chunks, i).value)
    {
      UploadAllParts(fs, f, chunks, i);
    }
    UploadAllParts(fs, f, chunks, 0);
    MergeSucceeds(s, f, n);
    AssembledIsJoined(s, f, chunks, n);
  }

  lemma {:induction false} AssembledIsJoined(s: FileSystem, f: Path, chunks: seq<Chunk>, n: nat)
    requires |f| > 0
    requires forall i :: 0 <= i < n ==> LastWrite(chunks, i).Some?
    requires forall i :: 0 <= i < n ==>
      PartIsFile(s, f, i) && s[PartPath(f, i)] == File(LastWrite(chunks, i).value)
    ensures Assembled(s, f, n) == Joined(chunks, n)
  {
    if n > 0 {
      AssembledIsJoined(s, f, chunks, n - 1);
      var last := LastWrite(chunks, n - 1).value;
      assert s[PartPath(f, n - 1)] == File(last);
      assert Assembled(s, f, n) == Assembled(s, f, n - 1) + last;
    }
  }

  // ---------------------------------------------------------------------
  // DELETE /delete/<path>
  // ---------------------------------------------------------------------

  /** The tree after removing the entry at `p`: `removeSync` for a
      directory (the whole subtree), `unlinkSync` for a file. */
  function Removed(fs: FileSystem, p: Path): (r: FileSystem)
    requires p in fs
    ensures forall q :: q in r ==> q in fs && r[q] == fs[q]
  {
    if fs[p] == Dir then map q | q in fs && q != p && !Beneath(q, p) :: fs[q]
    else fs - {p}
  }

  /** Deleting a directory removes it and everything beneath it; deleting a
      file removes that one entry; all other entries stay, and the result
      is again a tree. */
  lemma DeleteRemoves(fs: FileSystem, p: Path)
    requires WellFormed(fs) && p in fs
    ensures var r := Removed(fs, p);
      && WellFormed(r)
      && p !in r
      && (fs[p] == Dir ==> forall q :: q in fs ==> (q in r <==> q != p && !Beneath(q, p)))
      && (fs[p].File? ==> forall q :: q in fs ==> (q in r <==> q != p))
  {
    var r := Removed(fs, p);
    forall q | q in r && q != []
      ensures Parent(q) in r && r[Parent(q)] == Dir
    {
      var d := Parent(q);
    }
  }

  // ---------------------------------------------------------------------
  // GET /files
  // ---------------------------------------------------------------------

  /** The entries `readdirSync(dir)` returns, as full paths. */
  function Children(fs: FileSystem, dir: Path): set<Path>
  {
    set q | q in fs && |q| == |dir| + 1 && q[..|dir|] == dir
  }

  /** The regular files strictly beneath `dir`. */
  ghost function FilesBeneath(fs: FileSystem, dir: Path): set<Path>
  {
    set q | q in fs && fs[q].File? && Beneath(q, dir)
  }

  /** The entry of `dir` on the way down to an entry beneath `dir`. */
  lemma ChildOnPath(fs: FileSystem, dir: Path, q: Path)
    requires WellFormed(fs) && q in fs && Beneath(q, dir)
    ensures q[..|dir| + 1] in Children(fs, dir)
  {
    if |q| > |dir| + 1 {
      AncestorIsDir(fs, q, |dir| + 1);
    } else {
      assert q[..|dir| + 1] == q;
    }
    assert q[..|dir| + 1][..|dir|] == dir;
  }

  ghost function MaxLength(s: set<Path>): (m: nat)
    ensures forall p :: p in s ==> |p| <= m
    decreases s
  {
    if s == {} then 0
    else
      var p :| p in s;
      var m := MaxLength(s - {p});
      if |p| > m then |p| else m
  }

  // ---------------------------------------------------------------------
  // The server's state
  // ---------------------------------------------------------------------

  class Server {
    /** Everything beneath the upload directory. */
    var fs: FileSystem

    ghost predicate Valid()
      reads this
    {
      WellFormed(fs)
    }

    /** `fs.ensureDirSync(UPLOAD_DIR)` at start-up, over whatever the upload
        directory already holds. */
    constructor (initial: FileSystem)
      requires WellFormed(initial)
      ensures Valid() && fs == EnsureDir(initial, [])
      ensures [] in fs && fs[[]] == Dir && forall p :: p in initial ==> p in fs && fs[p] == initial[p]
    {
      var r := EnsureDir(initial, []);
      forall d: Path, n: Name | d + [n] in r ensures d in r && r[d] == Dir {
        assert |d + [n]| == |d| + 1;
      }
      ghost var root: Path := [];
      assert root[..0] in Prefixes(root);
      fs := r;
    }

    /** `POST /upload`: stores `chunk` as `<filename>.part<chunkIndex>`. */
    method Upload(filename: Path, chunkIndex: nat, chunk: seq<Byte>) returns (ok: bool)
      requires Valid() && |filename| > 0
      modifies this
      ensures Valid()
      ensures ok == !UploadFails(old(fs), filename, chunkIndex)
      ensures fs == UploadState(old(fs), filename, chunkIndex, chunk)
    {
      if exists j | 0 <= j < |filename| :: filename[..j] in fs && fs[filename[..j]].File? {
        return false;
      }
      ghost var before := fs;
      fs := EnsureDir(fs, Parent(filename));
      var part := PartPath(filename, chunkIndex);
      if part in fs && fs[part] == Dir {
        UploadOntoDirectory(before, filename, chunkIndex);
        return false;
      }
      UploadKeepsWellFormed(before, filename, chunkIndex, chunk);
      fs := fs[part := File(chunk)];
      ok := true;
    }

    /** `POST /merge`: appends chunks `0 .. totalChunks-1` of `filename` to
        it in index order, unlinking each one, and stops at the first
        missing chunk. */
    method Merge(filename: Path, totalChunks: nat) returns (r: MergeOutcome)
      requires Valid() && |filename| > 0
      modifies this
      ensures Valid()
      ensures r == MergeResult(old(fs), filename, totalChunks)
      ensures fs == MergeFinal(old(fs), filename, totalChunks)
    {
      ghost var fs0 := fs;
      var open := CanOpen(fs, filename);
      if open {
        // createWriteStream truncates (or creates) the destination
        fs := fs[filename := File([])];
      }
      assert PartKeys(filename, 0) == {};
      var i := 0;
      while i < totalChunks
        invariant i <= totalChunks
        invariant forall j :: 0 <= j < i ==> PartIsFile(fs0, filename, j)
        invariant fs == Merging(fs0, filename, i, open)
      {
        var part := PartPath(filename, i);
        MergeStep(fs0, filename, i, open);
        assert part in fs <==> part in fs0;
        if part !in fs {
          MergeExit(fs0, filename, totalChunks, i);
          return MissingChunk(i);
        }
        assert fs[part] == fs0[part];
        if fs[part] == Dir {
          MergeExit(fs0, filename, totalChunks, i);
          return ReadFailed(i);
        }
        if open {
          fs := fs[filename := File(fs[filename].data + fs[part].data)];
        }
        fs := fs - {part};
        i := i + 1;
      }
      MergeExit(fs0, filename, totalChunks, i);
      return Merged;
    }

    /** `getAllFiles(dir, acc)`: appends to `acc` every regular file beneath
        `dir`, walking its entries in the order the directory yields them
        and descending into each subdirectory as it is met. */
    method Walk(dir: Path, acc: seq<Path>, ghost bound: nat) returns (out: seq<Path>)
      requires Valid() && dir in fs && fs[dir] == Dir
      requires forall q :: q in fs ==> |q| <= bound
      ensures |out| >= |acc| && out[..|acc|] == acc
      ensures forall q :: q in out[|acc|..] <==> q in FilesBeneath(fs, dir)
      ensures Distinct(out[|acc|..])
      decreases bound - |dir|
    {
      out := acc;
      var pending := Children(fs, dir);
      forall q | q in FilesBeneath(fs, dir) ensures q[..|dir| + 1] in pending {
        ChildOnPath(fs, dir, q);
      }
      while pending != {}
        invariant pending <= Children(fs, dir)
        invariant |out| >= |acc| && out[..|acc|] == acc
        invariant forall q :: q in out[|acc|..] <==>
          q in FilesBeneath(fs, dir) && q[..|dir| + 1] !in pending
        invariant Distinct(out[|acc|..])
        decreases pending
      {
        var child :| child in pending;
        ghost var before := out;
        forall q | q in FilesBeneath(fs, dir) && q[..|dir| + 1] == child && q != child
          ensures Beneath(q, child) && fs[child] == Dir
        {
          AncestorIsDir(fs, q, |dir| + 1);
        }
        if fs[child] == Dir {
          out := Walk(child, out, bound);
          ghost var block := out[|before|..];
          assert out[|acc|..] == before[|acc|..] + block;
          forall q ensures q in block <==> q in FilesBeneath(fs, dir) && q[..|dir| + 1] == child {
            if q in FilesBeneath(fs, dir) && q[..|dir| + 1] == child {
              assert q != child;
              assert q[..|child|] == child;
            }
            if q in block {
              assert q[..|dir|] == q[..|child|][..|dir|];
            }
          }
          forall x | x in before[|acc|..] ensures x !in block {
            assert x[..|dir| + 1] != child;
          }
          DistinctAppend(before[|acc|..], block);
        } else {
          out := out + [child];
          assert out[|acc|..] == before[|acc|..] + [child];
          assert child[..|dir| + 1] == child;
          assert child in FilesBeneath(fs, dir);
          forall x | x in before[|acc|..] ensures x !in [child] {
            assert x[..|dir| + 1] != child;
          }
          DistinctAppend(before[|acc|..], [child]);
        }
        pending := pending - {child};
      }
    }

    /** `GET /files`: every regular file under the upload directory, by its
        path relative to that directory, with directories left out and
        in-flight chunk entries included. */
    method ListFiles() returns (r: Option<seq<Path>>)
      requires Valid()
      ensures r.None? <==> [] !in fs
      ensures r.Some? ==> Distinct(r.value)
      ensures r.Some? ==> forall q :: q in r.value <==> q in fs && fs[q].File?
    {
      if [] !in fs {
        return None;
      }
      ghost var bound := MaxLength(fs.Keys);
      var files := Walk([], [], bound);
      assert files[0..] == files;
      return Some(files);
    }

    /** `GET /download/<path>`: 404 when nothing exists at `p`; otherwise
        the entry there is what gets streamed. */
    method Download(p: Path) returns (r: Option<Node>)
      ensures r.None? <==> p !in fs
      ensures r.Some? ==> r.value == fs[p]
    {
      if p !in fs {
        return None;
      }
      return Some(fs[p]);
    }

    /** `DELETE /delete/<path>`: 404 when nothing exists at `p`; otherwise
        removes the entry, with its whole subtree when it is a directory. */
    method Delete(p: Path) returns (found: bool)
      requires Valid()
      modifies this
      ensures Valid()
      ensures found == (p in old(fs))
      ensures fs == if found then Removed(old(fs), p) else old(fs)
    {
      if p !in fs {
        return false;
      }
      DeleteRemoves(fs, p);
      fs := Removed(fs, p);
      return true;
    }
  }
}
