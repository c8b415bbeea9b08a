/** Installing a binary from the first download candidate that works
    (crates/omne-artifact-install-primitives/src/binary_artifact.rs, artifact_download.rs).

    A downloader is what it writes for a candidate and whether it then reports success; the digest
    and the search for a binary inside an archive are functions of the bytes. */
module CandidateInstall {
  import opened Wrappers
  import opened Filesystem
  import opened HeapUpdates
  import opened Disks
  import opened StagedNames
  import opened AtomicFile

  const BINARY_MODE: nat := 0x1ED

  datatype FailureKind = DownloadFailure | InstallFailure

  datatype Download = Download(chunks: seq<seq<Byte>>, failure: Option<FailureKind>)

  datatype CandidateFailure = CandidateFailure(candidate: nat, kind: FailureKind)

  datatype InstallError = InstallError(kind: FailureKind, failures: seq<CandidateFailure>)

  /** What is fixed for one install: the digest to match, and how a binary is found in an archive
      (`None` for a direct download). */
  datatype Request = Request(
    assetName: Name,
    hash: seq<Byte> -> seq<Byte>,
    expected: Option<seq<Byte>>,
    extract: Option<seq<Byte> -> Option<seq<Byte>>>)

  function Concat(chunks: seq<seq<Byte>>): seq<Byte> {
    if chunks == [] then [] else Concat(chunks[..|chunks|-1]) + chunks[|chunks|-1]
  }

  function Payload(q: Request, bytes: seq<Byte>): Option<seq<Byte>> {
    match q.extract
    case None => Some(bytes)
    case Some(find) => find(bytes)
  }

  predicate Verified(q: Request, bytes: seq<Byte>) {
    q.expected.Some? ==> q.hash(bytes) == q.expected.value
  }

  /** The candidate's download is complete, has the expected digest, and yields a non-empty binary. */
  predicate Passes(q: Request, c: Download) {
    && c.failure == None
    && Verified(q, Concat(c.chunks))
    && Payload(q, Concat(c.chunks)).Some?
    && Payload(q, Concat(c.chunks)).value != []
  }

  function Binary(q: Request, c: Download): Node
    requires Passes(q, c)
  {
    File(Payload(q, Concat(c.chunks)).value, BINARY_MODE)
  }

  function BinaryOptions(): WriteOptions {
    WriteOptions(true, true, true, Some(BINARY_MODE))
  }

  function ArchiveOptions(): WriteOptions {
    WriteOptions(true, false, false, None)
  }

  /** `aggregate_failure_kind`. */
  function AggregateKind(failures: seq<CandidateFailure>): FailureKind {
    if exists j :: 0 <= j < |failures| && failures[j].kind == InstallFailure then InstallFailure else DownloadFailure
  }

  // ---------------------------------------------------------------- what a run may leave behind

  /** Everything that existed, apart from the destination's entry, is still there unchanged. */
  ghost predicate Preserved(h0: Heap, h: Heap, p: Ino, dest: Name) {
    && IsDir(h0, p) && IsDir(h, p)
    && (forall i :: i in h0 ==> i in h && (i != p ==> h[i] == h0[i]))
    && (forall n :: n != dest && Lookup(h0, p, n).Some? ==> Lookup(h, p, n) == Lookup(h0, p, n))
  }

  ghost predicate DestinationIs(h: Heap, p: Ino, dest: Name, node: Node) {
    Lookup(h, p, dest).Some? && Lookup(h, p, dest).value in h && h[Lookup(h, p, dest).value] == node
  }

  ghost predicate Tidy(h0: Heap, h: Heap, p: Ino, dest: Name) {
    forall n :: n != dest ==> Lookup(h, p, n) == Lookup(h0, p, n)
  }

  /** Where a candidate that fails does so: in its download, or later. */
  function FailureOf(c: Download): FailureKind {
    if c.failure.Some? then c.failure.value else InstallFailure
  }

  datatype Attempt = StageFailed | Failed(kind: FailureKind) | Installed

  /** One attempt: the destination is as before or holds the candidate's binary. */
  ghost predicate AttemptDone(h0: Heap, h: Heap, p: Ino, dest: Name, q: Request, c: Download, a: Attempt) {
    && Preserved(h0, h, p, dest)
    && (Lookup(h, p, dest) == Lookup(h0, p, dest) || (Passes(q, c) && DestinationIs(h, p, dest, Binary(q, c))))
    && (a.Installed? ==> Passes(q, c) && DestinationIs(h, p, dest, Binary(q, c)))
  }

  // ---------------------------------------------------------------- one candidate

  /** `download_candidate_to_writer_with_options`. */
  method DownloadTo(f: StagedAtomicFile, c: Download) returns (failed: Option<FailureKind>)
    requires f.Valid() && f.staged && f.disk.heap[f.ino] == File([], DEFAULT_FILE_MODE)
    modifies f.disk
    ensures f.Valid() && f.disk.clock >= old(f.disk.clock)
    ensures Frame(old(f.disk.heap), f.disk.heap, f.parent, f.ino)
    ensures f.disk.heap[f.parent] == old(f.disk.heap)[f.parent]
    ensures failed == None ==> c.failure == None && f.disk.heap[f.ino] == File(Concat(c.chunks), DEFAULT_FILE_MODE)
    ensures old(f.disk.Quiet()) ==> failed == c.failure
  {
    var k := 0;
    assert c.chunks[..0] == [];
    while k < |c.chunks|
      invariant 0 <= k <= |c.chunks|
      invariant f.Valid() && f.staged && f.disk.clock >= old(f.disk.clock)
      invariant Frame(old(f.disk.heap), f.disk.heap, f.parent, f.ino)
      invariant f.disk.heap[f.parent] == old(f.disk.heap)[f.parent]
      invariant f.disk.heap[f.ino] == File(Concat(c.chunks[..k]), DEFAULT_FILE_MODE)
    {
      assert c.chunks[..k+1][..k] == c.chunks[..k];
      var written := f.Write(c.chunks[k]);
      if written.Err? {
        return Some(DownloadFailure);
      }
      k := k + 1;
    }
    assert c.chunks[..k] == c.chunks;
    failed := c.failure;
  }

  /** `verify_downloaded_candidate`: rewind and hash what the file holds, if a digest is expected. */
  method Verify(f: StagedAtomicFile, q: Request) returns (ok: bool)
    requires f.Valid()
    modifies f.disk
    ensures f.Valid() && f.disk.Watched()
    ensures ok ==> Verified(q, f.disk.heap[f.ino].bytes)
    ensures old(f.disk.Quiet()) ==> ok == Verified(q, f.disk.heap[f.ino].bytes)
  {
    if q.expected == None {
      return true;
    }
    var seeked := f.disk.Sync();
    if seeked.Err? {
      return false;
    }
    var read := f.disk.Metadata(f.ino);
    ok := read.Ok? && q.hash(read.value.bytes) == q.expected.value;
  }

  /** Generated names are neither taken in `p` nor the destination's own. */
  ghost predicate Fresh(h: Heap, p: Ino, names: NameSource, fileName: Name, dest: Name)
    reads names
  {
    FreshFrom(h, p, names, fileName, dest, names.sequence)
  }

  ghost predicate FreshFrom(h: Heap, p: Ino, names: NameSource, fileName: Name, dest: Name, from: nat) {
    forall k: nat :: k >= from ==>
      && names.NameAt(StagedPrefix(fileName), ".tmp", k) != dest
      && Lookup(h, p, names.NameAt(StagedPrefix(fileName), ".tmp", k)) == None
  }

  /** `h` is `h0` with one staged file of our own under a name that was free. */
  ghost predicate StagedOnly(h0: Heap, h: Heap, f: StagedAtomicFile)
    reads f
  {
    && Closed(h0) && IsDir(h0, f.parent) && IsDir(h, f.parent) && f.ino !in h0 && f.stagedLeaf != f.dest
    && Lookup(h0, f.parent, f.stagedLeaf) == None
    && (forall i :: i in h0 ==> i in h && (i != f.parent ==> h[i] == h0[i]))
    && (forall n :: n != f.stagedLeaf ==> Lookup(h, f.parent, n) == Lookup(h0, f.parent, n))
  }

  lemma DropRestores(h0: Heap, h1: Heap, h: Heap, f: StagedAtomicFile)
    requires StagedOnly(h0, h1, f) && (h == h1 || h == Detach(h1, f.parent, f.stagedLeaf))
    ensures Preserved(h0, h, f.parent, f.dest) && Lookup(h, f.parent, f.dest) == Lookup(h0, f.parent, f.dest)
    ensures Lookup(h, f.parent, f.stagedLeaf) == None ==> Tidy(h0, h, f.parent, f.dest)
  {
  }

  lemma CommitPreserves(h0: Heap, h1: Heap, h: Heap, f: StagedAtomicFile)
    requires StagedOnly(h0, h1, f) && Frame(h1, h, f.parent, f.ino)
    requires OtherNames(h1, h, f.parent, {f.stagedLeaf, f.dest})
    ensures Preserved(h0, h, f.parent, f.dest)
    ensures Lookup(h, f.parent, f.stagedLeaf) == None ==> Tidy(h0, h, f.parent, f.dest)
  {
  }

  /** Give up on a staged file: drop it. */
  method Abandon(f: StagedAtomicFile, ghost h0: Heap)
    requires f.Valid() && f.staged && StagedOnly(h0, f.disk.heap, f)
    modifies f, f.disk
    ensures f.disk.Valid() && f.disk.clock >= old(f.disk.clock)
    ensures Preserved(h0, f.disk.heap, f.parent, f.dest)
    ensures Lookup(f.disk.heap, f.parent, f.dest) == Lookup(h0, f.parent, f.dest)
    ensures old(f.disk.Quiet()) ==> Tidy(h0, f.disk.heap, f.parent, f.dest)
  {
    ghost var h1 := f.disk.heap;
    f.Drop();
    DropRestores(h0, h1, f.disk.heap, f);
  }

  /** Commit the binary that the staged file holds. */
  method CommitBinary(f: StagedAtomicFile, ghost h0: Heap) returns (ok: bool)
    requires f.Valid() && f.staged && StagedOnly(h0, f.disk.heap, f) && f.options == BinaryOptions()
    modifies f, f.disk
    ensures f.disk.Valid() && f.disk.clock >= old(f.disk.clock)
    ensures Preserved(h0, f.disk.heap, f.parent, f.dest)
    ensures Lookup(f.disk.heap, f.parent, f.dest) == Lookup(h0, f.parent, f.dest)
            || Committable(f, old(f.disk.heap)[f.ino].bytes)
    ensures ok ==> Committable(f, old(f.disk.heap)[f.ino].bytes)
    ensures old(f.disk.Quiet()) ==>
              && Tidy(h0, f.disk.heap, f.parent, f.dest)
              && (ok <==> old(f.disk.heap)[f.ino].bytes != [] && DestReplaceable(h0, f.parent, f.dest))
              && (!ok ==> Lookup(f.disk.heap, f.parent, f.dest) == Lookup(h0, f.parent, f.dest))
  {
    ghost var h1 := f.disk.heap;
    var committed := f.Commit();
    CommitPreserves(h0, h1, f.disk.heap, f);
    ok := committed.Ok?;
  }

  ghost predicate Committable(f: StagedAtomicFile, bytes: seq<Byte>)
    reads f, f.disk
  {
    bytes != [] && DestinationIs(f.disk.heap, f.parent, f.dest, File(bytes, BINARY_MODE))
  }

  /** The body of the loop in `download_binary_to_destination`. */
  method TryDirect(disk: Disk, names: NameSource, p: Ino, dest: Name, q: Request, c: Download) returns (a: Attempt)
    requires disk.Valid() && IsDir(disk.heap, p) && q.extract == None && NotGenerated(names, q.assetName, dest)
    modifies disk, names
    ensures disk.Valid() && disk.clock >= old(disk.clock) && names.sequence >= old(names.sequence)
    ensures AttemptDone(old(disk.heap), disk.heap, p, dest, q, c, a)
    ensures old(disk.Quiet() && Fresh(disk.heap, p, names, q.assetName, dest)) ==>
              && Tidy(old(disk.heap), disk.heap, p, dest) && a != StageFailed
              && (a.Failed? ==> a.kind == FailureOf(c))
              && (a.Installed? <==> Passes(q, c) && DestReplaceable(old(disk.heap), p, dest))
              && (!a.Installed? ==> Lookup(disk.heap, p, dest) == Lookup(old(disk.heap), p, dest))
  {
    var stage := StageFile(disk, names, p, dest, q.assetName, BinaryOptions());
    if stage.Err? {
      return StageFailed;
    }
    a := FillDirect(stage.value, q, c, old(disk.heap));
  }

  method FillDirect(f: StagedAtomicFile, q: Request, c: Download, ghost h0: Heap) returns (a: Attempt)
    requires f.Valid() && f.staged && f.disk.heap[f.ino] == File([], DEFAULT_FILE_MODE) && q.extract == None
    requires StagedOnly(h0, f.disk.heap, f) && f.options == BinaryOptions()
    modifies f, f.disk
    ensures f.disk.Valid() && f.disk.clock >= old(f.disk.clock) && a != StageFailed
    ensures AttemptDone(h0, f.disk.heap, f.parent, f.dest, q, c, a)
    ensures old(f.disk.Quiet()) ==>
              && Tidy(h0, f.disk.heap, f.parent, f.dest)
              && (a.Failed? ==> a.kind == FailureOf(c))
              && (a.Installed? <==> Passes(q, c) && DestReplaceable(h0, f.parent, f.dest))
              && (!a.Installed? ==> Lookup(f.disk.heap, f.parent, f.dest) == Lookup(h0, f.parent, f.dest))
  {
    var failed := DownloadTo(f, c);
    if failed.Some? {
      Abandon(f, h0);
      return Failed(failed.value);
    }
    var verified := Verify(f, q);
    if !verified {
      Abandon(f, h0);
      return Failed(InstallFailure);
    }
    var ok := CommitBinary(f, h0);
    a := if ok then Installed else Failed(InstallFailure);
  }

  /** `install_binary_from_archive_reader_without_lock`: the binary found in `bytes` goes through a
      second staged file. */
  method InstallFound(disk: Disk, names: NameSource, p: Ino, dest: Name, q: Request, bytes: seq<Byte>)
    returns (ok: bool)
    requires disk.Valid() && IsDir(disk.heap, p)
    modifies disk, names
    ensures disk.Valid() && disk.clock >= old(disk.clock) && names.sequence >= old(names.sequence)
    ensures Preserved(old(disk.heap), disk.heap, p, dest)
    ensures Lookup(disk.heap, p, dest) == Lookup(old(disk.heap), p, dest) || FoundAt(q, bytes, disk.heap, p, dest)
    ensures ok ==> FoundAt(q, bytes, disk.heap, p, dest)
    ensures old(disk.Quiet() && Fresh(disk.heap, p, names, dest, dest)) ==>
              && Tidy(old(disk.heap), disk.heap, p, dest)
              && (ok <==> Payload(q, bytes).Some? && Payload(q, bytes).value != []
                          && DestReplaceable(old(disk.heap), p, dest))
              && (!ok ==> Lookup(disk.heap, p, dest) == Lookup(old(disk.heap), p, dest))
  {
    OwnNameNotGenerated(names, dest);
    var stage := StageFile(disk, names, p, dest, dest, BinaryOptions());
    if stage.Err? {
      return false;
    }
    ok := FillFound(stage.value, Payload(q, bytes), old(disk.heap));
  }

  ghost predicate FoundAt(q: Request, bytes: seq<Byte>, h: Heap, p: Ino, dest: Name) {
    && Payload(q, bytes).Some? && Payload(q, bytes).value != []
    && DestinationIs(h, p, dest, File(Payload(q, bytes).value, BINARY_MODE))
  }

  method FillFound(f: StagedAtomicFile, found: Option<seq<Byte>>, ghost h0: Heap) returns (ok: bool)
    requires f.Valid() && f.staged && f.disk.heap[f.ino] == File([], DEFAULT_FILE_MODE)
    requires StagedOnly(h0, f.disk.heap, f) && f.options == BinaryOptions()
    modifies f, f.disk
    ensures f.disk.Valid() && f.disk.clock >= old(f.disk.clock)
    ensures Preserved(h0, f.disk.heap, f.parent, f.dest)
    ensures Lookup(f.disk.heap, f.parent, f.dest) == Lookup(h0, f.parent, f.dest)
            || (found.Some? && Committable(f, found.value))
    ensures ok ==> found.Some? && Committable(f, found.value)
    ensures old(f.disk.Quiet()) ==>
              && Tidy(h0, f.disk.heap, f.parent, f.dest)
              && (ok <==> found.Some? && found.value != [] && DestReplaceable(h0, f.parent, f.dest))
              && (!ok ==> Lookup(f.disk.heap, f.parent, f.dest) == Lookup(h0, f.parent, f.dest))
  {
    if found == None {
      Abandon(f, h0);
      return false;
    }
    var written := f.Write(found.value);
    if written.Err? {
      Abandon(f, h0);
      return false;
    }
    ok := CommitBinary(f, h0);
  }

  /** The body of the loop in `download_and_install_binary_from_archive`. */
  method TryArchive(disk: Disk, names: NameSource, p: Ino, dest: Name, q: Request, c: Download) returns (a: Attempt)
    requires disk.Valid() && IsDir(disk.heap, p) && NotGenerated(names, q.assetName, dest)
    modifies disk, names
    ensures disk.Valid() && disk.clock >= old(disk.clock) && names.sequence >= old(names.sequence)
    ensures AttemptDone(old(disk.heap), disk.heap, p, dest, q, c, a)
    ensures old(disk.Quiet() && Fresh(disk.heap, p, names, q.assetName, dest) && Fresh(disk.heap, p, names, dest, dest)) ==>
              && Tidy(old(disk.heap), disk.heap, p, dest) && a != StageFailed
              && (a.Failed? ==> a.kind == FailureOf(c))
              && (a.Installed? <==> Passes(q, c) && DestReplaceable(old(disk.heap), p, dest))
              && (!a.Installed? ==> Lookup(disk.heap, p, dest) == Lookup(old(disk.heap), p, dest))
  {
    var stage := StageFile(disk, names, p, dest, q.assetName, ArchiveOptions());
    if stage.Err? {
      return StageFailed;
    }
    var f := stage.value;
    StagedKeepsFresh(old(disk.heap), disk.heap, names, f);
    a := FillArchive(disk, names, f, q, c, old(disk.heap));
  }

  /** A name made for one staged file is not one that will be made for the next. */
  lemma StagedKeepsFresh(h0: Heap, h: Heap, names: NameSource, f: StagedAtomicFile)
    requires StagedOnly(h0, h, f)
    requires exists k: nat, fileName :: k < names.sequence && f.stagedLeaf == names.NameAt(StagedPrefix(fileName), ".tmp", k)
    ensures forall k, prefix :: k >= names.sequence ==>
              Lookup(h, f.parent, names.NameAt(prefix, ".tmp", k)) == Lookup(h0, f.parent, names.NameAt(prefix, ".tmp", k))
  {
    var j: nat, fileName :| j < names.sequence && f.stagedLeaf == names.NameAt(StagedPrefix(fileName), ".tmp", j);
    forall k, prefix | k >= names.sequence
      ensures names.NameAt(prefix, ".tmp", k) != f.stagedLeaf
    {
      GeneratedNamesDiffer(prefix, names.pid, names.nanos(k), k, StagedPrefix(fileName), names.pid, names.nanos(j), j, ".tmp");
    }
  }

  method FillArchive(disk: Disk, names: NameSource, f: StagedAtomicFile, q: Request, c: Download, ghost h0: Heap)
    returns (a: Attempt)
    requires f.Valid() && f.staged && f.disk == disk && disk.heap[f.ino] == File([], DEFAULT_FILE_MODE)
    requires StagedOnly(h0, disk.heap, f)
    modifies f, disk, names
    ensures disk.Valid() && disk.clock >= old(disk.clock) && names.sequence >= old(names.sequence) && a != StageFailed
    ensures AttemptDone(h0, disk.heap, f.parent, f.dest, q, c, a)
    ensures old(disk.Quiet() && Fresh(disk.heap, f.parent, names, f.dest, f.dest)) ==>
              && Tidy(h0, disk.heap, f.parent, f.dest)
              && (a.Failed? ==> a.kind == FailureOf(c))
              && (a.Installed? <==> Passes(q, c) && DestReplaceable(h0, f.parent, f.dest))
              && (!a.Installed? ==> Lookup(f.disk.heap, f.parent, f.dest) == Lookup(h0, f.parent, f.dest))
  {
    var failed := DownloadTo(f, c);
    if failed.Some? {
      Abandon(f, h0);
      return Failed(failed.value);
    }
    var verified := Verify(f, q);
    if !verified {
      Abandon(f, h0);
      return Failed(InstallFailure);
    }
    var seeked := disk.Sync();
    if seeked.Err? {
      Abandon(f, h0);
      return Failed(InstallFailure);
    }
    a := InstallStagedArchive(disk, names, f, q, c, h0);
  }

  method InstallStagedArchive(disk: Disk, names: NameSource, f: StagedAtomicFile, q: Request, c: Download,
      ghost h0: Heap)
    returns (a: Attempt)
    requires f.Valid() && f.staged && f.disk == disk && StagedOnly(h0, disk.heap, f)
    requires disk.heap[f.ino].bytes == Concat(c.chunks) && c.failure == None && Verified(q, Concat(c.chunks))
    modifies f, disk, names
    ensures disk.Valid() && disk.clock >= old(disk.clock) && names.sequence >= old(names.sequence) && a != StageFailed
    ensures AttemptDone(h0, disk.heap, f.parent, f.dest, q, c, a)
    ensures old(disk.Quiet() && Fresh(disk.heap, f.parent, names, f.dest, f.dest)) ==>
              && Tidy(h0, disk.heap, f.parent, f.dest)
              && (a.Failed? ==> a.kind == FailureOf(c))
              && (a.Installed? <==> Passes(q, c) && DestReplaceable(h0, f.parent, f.dest))
              && (!a.Installed? ==> Lookup(f.disk.heap, f.parent, f.dest) == Lookup(h0, f.parent, f.dest))
  {
    ghost var h1 := disk.heap;
    var ok := InstallFound(disk, names, f.parent, f.dest, q, disk.heap[f.ino].bytes);
    ghost var h2 := disk.heap;
    f.Drop();
    FoundAfterDrop(h0, h1, h2, disk.heap, f);
    a := if ok then Installed else Failed(InstallFailure);
  }

  lemma FoundAfterDrop(h0: Heap, h1: Heap, h2: Heap, h: Heap, f: StagedAtomicFile)
    requires StagedOnly(h0, h1, f) && Preserved(h1, h2, f.parent, f.dest)
    requires h == h2 || h == Detach(h2, f.parent, f.stagedLeaf)
    ensures Preserved(h0, h, f.parent, f.dest)
    ensures Lookup(h, f.parent, f.dest) == Lookup(h2, f.parent, f.dest)
    ensures forall node :: DestinationIs(h2, f.parent, f.dest, node) && !node.Dir? ==>
              DestinationIs(h, f.parent, f.dest, node)
    ensures Tidy(h1, h2, f.parent, f.dest) && Lookup(h, f.parent, f.stagedLeaf) == None ==>
              Tidy(h0, h, f.parent, f.dest)
  {
  }

  /** One candidate, by either of the two ways. */
  method TryCandidate(disk: Disk, names: NameSource, p: Ino, dest: Name, q: Request, c: Download) returns (a: Attempt)
    requires disk.Valid() && IsDir(disk.heap, p) && NotGenerated(names, q.assetName, dest)
    modifies disk, names
    ensures disk.Valid() && disk.clock >= old(disk.clock) && names.sequence >= old(names.sequence)
    ensures AttemptDone(old(disk.heap), disk.heap, p, dest, q, c, a)
    ensures old(disk.Quiet() && Fresh(disk.heap, p, names, q.assetName, dest) && Fresh(disk.heap, p, names, dest, dest)) ==>
              && Tidy(old(disk.heap), disk.heap, p, dest) && a != StageFailed
              && (a.Failed? ==> a.kind == FailureOf(c))
              && (a.Installed? <==> Passes(q, c) && DestReplaceable(old(disk.heap), p, dest))
              && (!a.Installed? ==> Lookup(disk.heap, p, dest) == Lookup(old(disk.heap), p, dest))
  {
    if q.extract == None {
      a := TryDirect(disk, names, p, dest, q, c);
    } else {
      a := TryArchive(disk, names, p, dest, q, c);
    }
  }

  // ---------------------------------------------------------------- the candidate loop

  /** What the destination may be after any number of attempts. */
  ghost predicate Reached(h0: Heap, h: Heap, p: Ino, dest: Name, q: Request, candidates: seq<Download>) {
    && Preserved(h0, h, p, dest)
    && (Lookup(h, p, dest) == Lookup(h0, p, dest) || exists j :: Holding(h, p, dest, q, candidates, j))
  }

  ghost predicate Holding(h: Heap, p: Ino, dest: Name, q: Request, candidates: seq<Download>, j: int) {
    0 <= j < |candidates| && Passes(q, candidates[j]) && DestinationIs(h, p, dest, Binary(q, candidates[j]))
  }

  lemma ReachedStep(h0: Heap, h1: Heap, h: Heap, p: Ino, dest: Name, q: Request, cs: seq<Download>, k: nat, a: Attempt)
    requires Wf(h0) && Wf(h1) && k < |cs|
    requires Reached(h0, h1, p, dest, q, cs) && AttemptDone(h1, h, p, dest, q, cs[k], a)
    ensures Reached(h0, h, p, dest, q, cs)
    ensures a.Installed? ==> Holding(h, p, dest, q, cs, k)
  {
    if Lookup(h, p, dest) == Lookup(h1, p, dest) && Lookup(h1, p, dest) != Lookup(h0, p, dest) {
      var j :| Holding(h1, p, dest, q, cs, j);
      assert Lookup(h1, p, dest).value != p;
      assert Holding(h, p, dest, q, cs, j);
    } else if Lookup(h, p, dest) != Lookup(h1, p, dest) {
      assert Holding(h, p, dest, q, cs, k);
    }
  }

  /** One failure per candidate, in candidate order. */
  predicate OneEach(failures: seq<CandidateFailure>, n: nat) {
    |failures| == n && forall j :: 0 <= j < n ==> failures[j].candidate == j
  }

  /** Each failure is of the kind that its candidate's download tells. */
  predicate AsExpected(failures: seq<CandidateFailure>, candidates: seq<Download>) {
    forall j :: 0 <= j < |failures| && j < |candidates| ==> failures[j].kind == FailureOf(candidates[j])
  }

  ghost predicate NoneInstallable(q: Request, cs: seq<Download>, n: nat, h0: Heap, p: Ino, dest: Name)
    requires n <= |cs|
  {
    forall j :: 0 <= j < n ==> !(Passes(q, cs[j]) && DestReplaceable(h0, p, dest))
  }

  /** What happened: one attempt after the other, each with what it may have done to the disk. */
  ghost predicate Chronicle(heaps: seq<Heap>, p: Ino, dest: Name, q: Request, cs: seq<Download>,
      attempts: seq<Attempt>) {
    && |attempts| <= |cs| && |heaps| == |attempts| + 1
    && (forall j :: 0 <= j < |heaps| ==> Wf(heaps[j]) && IsDir(heaps[j], p))
    && forall j :: 0 <= j < |attempts| ==> AttemptDone(heaps[j], heaps[j + 1], p, dest, q, cs[j], attempts[j])
  }

  lemma ChronicleStep(heaps: seq<Heap>, h: Heap, p: Ino, dest: Name, q: Request, cs: seq<Download>,
      attempts: seq<Attempt>, a: Attempt)
    requires Chronicle(heaps, p, dest, q, cs, attempts) && |attempts| < |cs| && Wf(h) && IsDir(h, p)
    requires AttemptDone(heaps[|attempts|], h, p, dest, q, cs[|attempts|], a)
    ensures Chronicle(heaps + [h], p, dest, q, cs, attempts + [a])
  {
    var hs, all := heaps + [h], attempts + [a];
    forall j | 0 <= j < |all|
      ensures AttemptDone(hs[j], hs[j + 1], p, dest, q, cs[j], all[j])
    {
      if j < |attempts| {
        assert hs[j] == heaps[j] && hs[j + 1] == heaps[j + 1] && all[j] == attempts[j];
      }
    }
  }

  /** The first `n` candidates failed, and these are their failures. */
  predicate FirstFailed(attempts: seq<Attempt>, n: nat, failures: seq<CandidateFailure>) {
    && n <= |attempts| && OneEach(failures, n)
    && forall j :: 0 <= j < n ==> attempts[j] == Failed(failures[j].kind)
  }

  /** Where the attempts have led. */
  lemma {:induction false} ChronicleReaches(heaps: seq<Heap>, p: Ino, dest: Name, q: Request, cs: seq<Download>,
      attempts: seq<Attempt>, n: nat)
    requires Chronicle(heaps, p, dest, q, cs, attempts) && n <= |attempts|
    ensures Reached(heaps[0], heaps[n], p, dest, q, cs)
    ensures n > 0 && attempts[n - 1].Installed? ==> Holding(heaps[n], p, dest, q, cs, n - 1)
    decreases n
  {
    if n > 0 {
      ChronicleReaches(heaps, p, dest, q, cs, attempts, n - 1);
      ReachedStep(heaps[0], heaps[n - 1], heaps[n], p, dest, q, cs, n - 1, attempts[n - 1]);
    }
  }

  predicate AllFailed(attempts: seq<Attempt>, n: nat) {
    n <= |attempts| && forall j :: 0 <= j < n ==> attempts[j].Failed?
  }

  /** How the last attempt decided the result. */
  ghost predicate Decided(r: Result<nat, InstallError>, attempts: seq<Attempt>, candidates: seq<Download>) {
    match r
    case Ok(k) => |attempts| == k + 1 && attempts[k].Installed? && AllFailed(attempts, k)
    case Err(e) =>
      || (attempts == [] && e.failures == [])
      || (|attempts| == |candidates| && FirstFailed(attempts, |candidates|, e.failures))
      || (e.failures == [] && attempts != [] && attempts[|attempts|-1].StageFailed? && AllFailed(attempts, |attempts| - 1))
  }

  /** `download_binary_to_destination` and `download_and_install_binary_from_archive`. `locked` is the
      outcome of taking the destination's advisory lock. */
  method InstallFirst(disk: Disk, names: NameSource, p: Ino, dest: Name, q: Request, candidates: seq<Download>,
      locked: bool)
    returns (r: Result<nat, InstallError>, ghost attempts: seq<Attempt>, ghost heaps: seq<Heap>)
    requires disk.Valid() && IsDir(disk.heap, p) && NotGenerated(names, q.assetName, dest)
    modifies disk, names
    ensures disk.Valid()
    ensures Chronicle(heaps, p, dest, q, candidates, attempts) && heaps[0] == old(disk.heap)
    ensures heaps[|attempts|] == disk.heap
    ensures Decided(r, attempts, candidates)
    ensures Reached(old(disk.heap), disk.heap, p, dest, q, candidates)
    ensures r.Ok? ==> Holding(disk.heap, p, dest, q, candidates, r.value)
    ensures r.Err? ==> (r.error.failures == [] && r.error.kind == InstallFailure)
                       || OneEach(r.error.failures, |candidates|)
    ensures r.Err? && r.error.failures != [] ==>
              (r.error.kind == InstallFailure
               <==> exists j :: 0 <= j < |candidates| && r.error.failures[j].kind == InstallFailure)
    ensures candidates == [] || !locked ==> r == Err(InstallError(InstallFailure, [])) && disk.heap == old(disk.heap)
    ensures old(disk.Quiet() && Fresh(disk.heap, p, names, q.assetName, dest) && Fresh(disk.heap, p, names, dest, dest))
            && candidates != [] && locked ==>
              && Tidy(old(disk.heap), disk.heap, p, dest)
              && (r.Ok? ==> NoneInstallable(q, candidates, r.value, old(disk.heap), p, dest))
              && (r.Err? ==> NoneInstallable(q, candidates, |candidates|, old(disk.heap), p, dest)
                             && OneEach(r.error.failures, |candidates|) && AsExpected(r.error.failures, candidates)
                             && Lookup(disk.heap, p, dest) == Lookup(old(disk.heap), p, dest))
  {
    ghost var h0 := disk.heap;
    if candidates == [] || !locked {
      return Err(InstallError(InstallFailure, [])), [], [h0];
    }
    r, attempts, heaps := InstallLoop(disk, names, p, dest, q, candidates);
    ChronicleReaches(heaps, p, dest, q, candidates, attempts, |attempts|);
  }

  /** Without faults, nothing has come of the first `n` candidates. */
  ghost predicate NothingYet(h0: Heap, h: Heap, p: Ino, dest: Name, q: Request, cs: seq<Download>, n: nat,
      failures: seq<CandidateFailure>) {
    && n <= |cs| && Preserved(h0, h, p, dest) && Tidy(h0, h, p, dest) && Lookup(h, p, dest) == Lookup(h0, p, dest)
    && NoneInstallable(q, cs, n, h0, p, dest) && AsExpected(failures, cs)
  }

  /** The loop over the candidates. */
  method InstallLoop(disk: Disk, names: NameSource, p: Ino, dest: Name, q: Request, candidates: seq<Download>)
    returns (r: Result<nat, InstallError>, ghost attempts: seq<Attempt>, ghost heaps: seq<Heap>)
    requires disk.Valid() && IsDir(disk.heap, p) && NotGenerated(names, q.assetName, dest) && candidates != []
    modifies disk, names
    ensures disk.Valid()
    ensures Chronicle(heaps, p, dest, q, candidates, attempts) && heaps[0] == old(disk.heap)
    ensures heaps[|attempts|] == disk.heap
    ensures Decided(r, attempts, candidates)
    ensures r.Err? ==>
              r.error.kind == if r.error.failures == [] then InstallFailure else AggregateKind(r.error.failures)
    ensures old(disk.Quiet() && Fresh(disk.heap, p, names, q.assetName, dest) && Fresh(disk.heap, p, names, dest, dest)) ==>
              match r
              case Ok(k) => k <= |candidates| && Tidy(old(disk.heap), disk.heap, p, dest)
                            && NoneInstallable(q, candidates, k, old(disk.heap), p, dest)
              case Err(e) => OneEach(e.failures, |candidates|)
                             && NothingYet(old(disk.heap), disk.heap, p, dest, q, candidates, |candidates|, e.failures)
  {
    ghost var h0 := disk.heap;
    ghost var calm := disk.Quiet() && Fresh(disk.heap, p, names, q.assetName, dest) && Fresh(disk.heap, p, names, dest, dest);
    attempts, heaps := [], [h0];
    var failures: seq<CandidateFailure> := [];
    var k := 0;
    var settled: Option<Attempt> := None;
    while k < |candidates| && settled == None
      invariant 0 <= k <= |candidates| && OneEach(failures, k)
      invariant disk.Valid() && disk.clock >= old(disk.clock) && names.sequence >= old(names.sequence)
      invariant Chronicle(heaps, p, dest, q, candidates, attempts) && heaps[0] == h0 && heaps[|attempts|] == disk.heap
      invariant settled == None ==> |attempts| == k && FirstFailed(attempts, k, failures)
      invariant settled.Some? ==> && |attempts| == k + 1 <= |candidates| && AllFailed(attempts, k)
                                  && attempts[k] == settled.value && !settled.value.Failed?
      invariant calm ==> Tidy(h0, disk.heap, p, dest) && NoneInstallable(q, candidates, k, h0, p, dest)
      invariant calm && settled == None ==> NothingYet(h0, disk.heap, p, dest, q, candidates, k, failures)
      invariant calm && settled.Some? ==> settled.value.Installed?
      decreases |candidates| - k, settled == None
    {
      ghost var h1 := disk.heap;
      var a := TryCandidate(disk, names, p, dest, q, candidates[k]);
      if calm {
        NothingYetStep(h0, h1, disk.heap, p, dest, q, candidates, k, failures, a);
      }
      ChronicleStep(heaps, disk.heap, p, dest, q, candidates, attempts, a);
      FailedStep(attempts, k, failures, a);
      attempts, heaps := attempts + [a], heaps + [disk.heap];
      if a.Failed? {
        failures := failures + [CandidateFailure(k, a.kind)];
        k := k + 1;
      } else {
        settled := Some(a);
      }
    }
    r := match settled
         case None => Err(InstallError(AggregateKind(failures), failures))
         case Some(a) => if a.Installed? then Ok(k) else Err(InstallError(InstallFailure, []));
  }

  lemma NothingYetStep(h0: Heap, h1: Heap, h: Heap, p: Ino, dest: Name, q: Request, cs: seq<Download>, n: nat,
      failures: seq<CandidateFailure>, a: Attempt)
    requires Wf(h0) && Wf(h1) && NothingYet(h0, h1, p, dest, q, cs, n, failures) && n < |cs| && |failures| == n
    requires AttemptDone(h1, h, p, dest, q, cs[n], a) && Tidy(h1, h, p, dest)
    requires a.Failed? ==> a.kind == FailureOf(cs[n])
    requires a.Installed? <==> Passes(q, cs[n]) && DestReplaceable(h1, p, dest)
    requires !a.Installed? ==> Lookup(h, p, dest) == Lookup(h1, p, dest)
    ensures Tidy(h0, h, p, dest)
    ensures a.Failed? ==> NothingYet(h0, h, p, dest, q, cs, n + 1, failures + [CandidateFailure(n, a.kind)])
  {
    assert DestReplaceable(h1, p, dest) <==> DestReplaceable(h0, p, dest);
  }

  lemma FailedStep(attempts: seq<Attempt>, k: nat, failures: seq<CandidateFailure>, a: Attempt)
    requires |attempts| == k && FirstFailed(attempts, k, failures)
    ensures AllFailed(attempts + [a], k)
    ensures a.Failed? ==> FirstFailed(attempts + [a], k + 1, failures + [CandidateFailure(k, a.kind)])
  {
  }
}
