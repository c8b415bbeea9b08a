/** Staged atomic file writes (crates/omne-fs-primitives/src/atomic_write.rs). */
module AtomicFile {
  import opened Wrappers
  import opened Filesystem
  import opened HeapUpdates
  import opened Disks
  import opened StagedNames

  const FILE_NAME_ATTEMPTS := 128

  datatype WriteOptions = WriteOptions(
    overwriteExisting: bool,
    requireNonEmpty: bool,
    requireExecutable: bool,
    unixMode: Option<nat>)

  datatype WriteError =
    | IoPath(op: string, kind: IoKind)
    | CommittedButUnsynced(op: string, kind: IoKind)
    | Validation(detail: string)

  predicate Committed(r: Result<(), WriteError>) {
    r.Ok? || r.error.CommittedButUnsynced?
  }

  /** `mode & 0o111 != 0`. */
  predicate Executable(mode: nat) {
    mode % 2 == 1 || mode / 8 % 2 == 1 || mode / 64 % 2 == 1
  }

  /** A file is executable exactly when the digit of some of owner, group and others is odd. */
  lemma ExecutableDigits(rest: nat, owner: nat, group: nat, others: nat)
    requires owner < 8 && group < 8 && others < 8
    ensures Executable(512 * rest + 64 * owner + 8 * group + others) <==>
            owner % 2 == 1 || group % 2 == 1 || others % 2 == 1
  {
    Shifted(64 * rest + 8 * owner + group, others);
    Shifted(8 * rest + owner, 8 * group + others);
    Even(256 * rest + 32 * owner + 4 * group, others);
    Even(32 * rest + 4 * owner, group);
    Even(4 * rest, owner);
  }

  lemma Shifted(q: nat, d: nat)
    ensures d < 8 ==> (8 * q + d) / 8 == q
    ensures d < 64 ==> (64 * q + d) / 64 == q
  {
  }

  lemma Even(n: nat, d: nat)
    ensures (2 * n + d) % 2 == d % 2
  {
  }

  /** What `validate_staged_file` lets through. */
  predicate Acceptable(node: Node, options: WriteOptions) {
    && node.File?
    && (options.requireNonEmpty ==> node.bytes != [])
    && (options.requireExecutable ==> Executable(node.mode))
  }

  function WithMode(node: Node, mode: Option<nat>): Node
    requires node.File?
  {
    match mode case None => node case Some(m) => node.(mode := m)
  }

  /** Only `p`, the staged inode and new inodes may differ from `h0`. */
  ghost predicate Frame(h0: Heap, h: Heap, p: Ino, i: Ino) {
    && IsDir(h, p) && (forall x :: x in h0 ==> x in h)
    && forall x :: x in h0 && x != p && x != i ==> h[x] == h0[x]
  }

  ghost predicate OtherNames(h0: Heap, h: Heap, p: Ino, names: set<Name>) {
    forall n :: n !in names ==> Lookup(h, p, n) == Lookup(h0, p, n)
  }

  class StagedAtomicFile {
    const disk: Disk
    const parent: Ino
    const stagedLeaf: Name
    const dest: Name
    const options: WriteOptions
    const ino: Ino
    var staged: bool

    /** The staged name still leads to the file this object made, and the file is its own. */
    ghost predicate Valid()
      reads this, disk
    {
      && disk.Valid() && IsDir(disk.heap, parent) && stagedLeaf != dest
      && ino in disk.heap && disk.heap[ino].File? && ino != parent
      && (staged ==> Lookup(disk.heap, parent, stagedLeaf) == Some(ino))
    }

    constructor (disk: Disk, parent: Ino, stagedLeaf: Name, dest: Name, options: WriteOptions, ino: Ino)
      requires disk.Valid() && IsDir(disk.heap, parent) && stagedLeaf != dest
      requires Lookup(disk.heap, parent, stagedLeaf) == Some(ino) && disk.heap[ino].File?
      ensures Valid() && staged && this.disk == disk && this.parent == parent && this.stagedLeaf == stagedLeaf
      ensures this.dest == dest && this.options == options && this.ino == ino
    {
      this.disk, this.parent, this.stagedLeaf, this.dest := disk, parent, stagedLeaf, dest;
      this.options, this.ino, this.staged := options, ino, true;
    }

    method Write(data: seq<Byte>) returns (r: Result<(), IoKind>)
      requires Valid() && staged
      modifies disk
      ensures Valid() && disk.Ticked()
      ensures Frame(old(disk.heap), disk.heap, parent, ino) && disk.heap[parent] == old(disk.heap)[parent]
      ensures r.Ok? ==> disk.heap[ino] == old(disk.heap)[ino].(bytes := old(disk.heap)[ino].bytes + data)
      ensures old(disk.Quiet()) ==> r.Ok?
    {
      r := disk.WriteAll(ino, data);
    }

    /** Lines 567-592: flush, permissions, sync, validate, and give up the handle. */
    method Seal() returns (r: Result<(), WriteError>)
      requires Valid() && staged
      modifies this, disk
      ensures Valid() && old(disk.history) <= disk.history && disk.clock >= old(disk.clock)
      ensures Frame(old(disk.heap), disk.heap, parent, ino) && disk.heap[parent] == old(disk.heap)[parent]
      ensures forall k :: |old(disk.history)| <= k < |disk.history| ==>
                disk.history[k] == old(disk.heap) || disk.history[k] == disk.heap
      ensures r.Ok? ==> && disk.heap[ino] == WithMode(old(disk.heap)[ino], options.unixMode)
                        && Acceptable(disk.heap[ino], options)
      ensures r.Ok? ==> !staged && Lookup(disk.heap, parent, stagedLeaf) == Some(ino)
      ensures r.Err? ==> r.error.IoPath? || r.error.Validation?
      ensures old(disk.Quiet()) ==>
                (r.Ok? <==> Acceptable(WithMode(old(disk.heap)[ino], options.unixMode), options))
    {
      var flushed := disk.Sync();
      if flushed.Err? {
        return Err(IoPath("flush", flushed.error));
      }
      if options.unixMode.Some? {
        var changed := disk.SetMode(ino, options.unixMode.value);
        if changed.Err? {
          return Err(IoPath("set_permissions", changed.error));
        }
      }
      var synced := disk.Sync();
      if synced.Err? {
        return Err(IoPath("sync", synced.error));
      }
      var meta := disk.Metadata(ino);
      if meta.Err? {
        return Err(IoPath("metadata", meta.error));
      }
      if !meta.value.File? {
        return Err(Validation("staged file is not a regular file"));
      }
      if options.requireNonEmpty && meta.value.bytes == [] {
        return Err(Validation("staged file is empty"));
      }
      if options.requireExecutable && !Executable(meta.value.mode) {
        return Err(Validation("staged file is not executable"));
      }
      staged := false;
      r := Ok(());
    }

    /** `commit_replace`. */
    method Publish() returns (r: Result<(), WriteError>)
      requires Valid() && Lookup(disk.heap, parent, stagedLeaf) == Some(ino)
      modifies disk
      ensures Valid() || staged
      ensures disk.Valid() && IsDir(disk.heap, parent) && ino in disk.heap && disk.heap[ino].File?
      ensures old(disk.history) <= disk.history && disk.clock >= old(disk.clock)
      ensures forall x :: x in old(disk.heap) && x != parent ==> x in disk.heap && disk.heap[x] == old(disk.heap)[x]
      ensures OtherNames(old(disk.heap), disk.heap, parent, {stagedLeaf, dest})
      ensures Committed(r) ==> Lookup(disk.heap, parent, dest) == Some(ino)
      ensures !Committed(r) ==> disk.heap == old(disk.heap)
      ensures !options.overwriteExisting && Lookup(old(disk.heap), parent, dest).Some? ==> !Committed(r)
      ensures Lookup(disk.heap, parent, stagedLeaf) == None || Lookup(disk.heap, parent, stagedLeaf) == Some(ino)
      ensures forall k :: |old(disk.history)| <= k < |disk.history| ==> disk.history[k] == disk.heap
      ensures old(disk.Quiet()) ==> r.Ok? || !Committed(r)
      ensures old(disk.Quiet()) ==>
                (r.Ok? <==> if options.overwriteExisting
                            then Move(old(disk.heap), parent, stagedLeaf, parent, dest).Ok?
                            else Lookup(old(disk.heap), parent, dest) == None)
    {
      var renamed;
      if options.overwriteExisting {
        renamed := disk.Rename(parent, stagedLeaf, parent, dest);
        if renamed.Err? {
          return Err(IoPath("rename", renamed.error));
        }
      } else {
        renamed := disk.RenameNoReplace(parent, stagedLeaf, parent, dest);
        if renamed.Err? {
          return Err(IoPath("rename_noclobber", renamed.error));
        }
      }
      var synced := disk.Sync();
      r := if synced.Ok? then Ok(()) else Err(CommittedButUnsynced("sync_parent", synced.error));
    }

    /** `commit`, up to and including the drop of the consumed object. */
    method Commit() returns (r: Result<(), WriteError>)
      requires Valid() && staged
      modifies this, disk
      ensures disk.Valid() && old(disk.history) <= disk.history && disk.clock >= old(disk.clock)
      ensures Frame(old(disk.heap), disk.heap, parent, ino)
      ensures OtherNames(old(disk.heap), disk.heap, parent, {stagedLeaf, dest})
      ensures Committed(r) ==>
                && Lookup(disk.heap, parent, dest) == Some(ino)
                && disk.heap[ino] == WithMode(old(disk.heap)[ino], options.unixMode)
                && Acceptable(disk.heap[ino], options)
      ensures !Committed(r) ==> Lookup(disk.heap, parent, dest) == Lookup(old(disk.heap), parent, dest)
      ensures !options.overwriteExisting && Lookup(old(disk.heap), parent, dest).Some? ==> !Committed(r)
      ensures forall k :: |old(disk.history)| <= k < |disk.history| ==>
                Observable(old(disk.heap), disk.history[k], parent, dest, ino,
                           WithMode(old(disk.heap)[ino], options.unixMode), options)
      ensures old(disk.Quiet()) ==>
                Lookup(disk.heap, parent, stagedLeaf) == None && (r.Ok? || !Committed(r))
                && (r.Ok? <==> Acceptable(WithMode(old(disk.heap)[ino], options.unixMode), options)
                               && if options.overwriteExisting
                                  then DestReplaceable(old(disk.heap), parent, dest)
                                  else Lookup(old(disk.heap), parent, dest) == None)
    {
      ghost var h0, sealed := disk.heap, WithMode(disk.heap[ino], options.unixMode);
      r := SealAndPublish();
      DropObservable(h0, disk.heap, parent, stagedLeaf, dest, ino, sealed, options);
      Drop();
    }

    method SealAndPublish() returns (r: Result<(), WriteError>)
      requires Valid() && staged
      modifies this, disk
      ensures disk.Valid() && old(disk.history) <= disk.history && disk.clock >= old(disk.clock)
      ensures Frame(old(disk.heap), disk.heap, parent, ino) && IsDir(disk.heap, parent) && ino in disk.heap
      ensures !IsDir(disk.heap, ino)
      ensures OtherNames(old(disk.heap), disk.heap, parent, {stagedLeaf, dest})
      ensures Lookup(disk.heap, parent, stagedLeaf) == None || Lookup(disk.heap, parent, stagedLeaf) == Some(ino)
      ensures Committed(r) ==>
                && Lookup(disk.heap, parent, dest) == Some(ino)
                && disk.heap[ino] == WithMode(old(disk.heap)[ino], options.unixMode)
                && Acceptable(disk.heap[ino], options)
      ensures !Committed(r) ==> Lookup(disk.heap, parent, dest) == Lookup(old(disk.heap), parent, dest)
      ensures !options.overwriteExisting && Lookup(old(disk.heap), parent, dest).Some? ==> !Committed(r)
      ensures forall k :: |old(disk.history)| <= k < |disk.history| ==>
                Observable(old(disk.heap), disk.history[k], parent, dest, ino,
                           WithMode(old(disk.heap)[ino], options.unixMode), options)
      ensures old(disk.Quiet()) ==>
                (r.Ok? || !Committed(r))
                && (r.Ok? <==> Acceptable(WithMode(old(disk.heap)[ino], options.unixMode), options)
                               && if options.overwriteExisting
                                  then DestReplaceable(old(disk.heap), parent, dest)
                                  else Lookup(old(disk.heap), parent, dest) == None)
    {
      r := Seal();
      if r.Ok? {
        r := Publish();
      }
    }

    /** `Drop`: only ever the staged name is removed, never the destination's. */
    method Drop()
      requires disk.Valid() && IsDir(disk.heap, parent)
      requires Lookup(disk.heap, parent, stagedLeaf).Some? ==> Lookup(disk.heap, parent, stagedLeaf) == Some(ino)
      modifies this, disk
      ensures disk.Valid() && !staged && disk.Ticked()
      ensures disk.heap == old(disk.heap) || disk.heap == Detach(old(disk.heap), parent, stagedLeaf)
      ensures old(disk.Quiet()) && ino in old(disk.heap) && !IsDir(old(disk.heap), ino) ==>
                Lookup(disk.heap, parent, stagedLeaf) == None
    {
      staged := false;
      var _ := disk.RemoveFile(parent, stagedLeaf);
    }
  }

  /** A regular file can be renamed over anything but a directory. */
  predicate DestReplaceable(h: Heap, p: Ino, dest: Name) {
    match Lookup(h, p, dest)
    case None => true
    case Some(i) => !IsDir(h, i)
  }

  /** What any observer may find at the destination while a commit runs: what was there, or the
      whole accepted file. */
  ghost predicate Observable(h0: Heap, h: Heap, p: Ino, dest: Name, i: Ino, sealed: Node, options: WriteOptions) {
    || (Lookup(h, p, dest) == Lookup(h0, p, dest) && Frame(h0, h, p, i))
    || (Lookup(h, p, dest) == Some(i) && i in h && h[i] == sealed && Acceptable(sealed, options) && Frame(h0, h, p, i))
  }

  /** Dropping the staged name does not show at the destination. */
  lemma DropObservable(h0: Heap, h1: Heap, p: Ino, leaf: Name, dest: Name, i: Ino, sealed: Node, options: WriteOptions)
    requires IsDir(h1, p) && leaf != dest && i != p && Frame(h0, h1, p, i) && OtherNames(h0, h1, p, {leaf, dest})
    requires Lookup(h1, p, dest) == Lookup(h0, p, dest)
             || (Lookup(h1, p, dest) == Some(i) && i in h1 && h1[i] == sealed && Acceptable(sealed, options))
    ensures var h := Detach(h1, p, leaf);
            && Observable(h0, h1, p, dest, i, sealed, options) && Observable(h0, h, p, dest, i, sealed, options)
            && OtherNames(h0, h, p, {leaf, dest})
  {
  }

  function StagedPrefix(fileName: Name): string {
    "." + fileName + ".tmp-"
  }

  /** The destination is not itself a staged name this process is still going to generate. */
  ghost predicate NotGenerated(names: NameSource, fileName: Name, dest: Name)
    reads names
  {
    forall k :: k >= names.sequence ==> names.NameAt(StagedPrefix(fileName), ".tmp", k) != dest
  }

  /** Something has generated name `k` already. */
  predicate Taken(h: Heap, p: Ino, names: NameSource, fileName: Name, k: nat) {
    Lookup(h, p, names.NameAt(StagedPrefix(fileName), ".tmp", k)).Some?
  }

  ghost predicate AllTaken(h: Heap, p: Ino, names: NameSource, fileName: Name, from: nat, n: nat) {
    forall k :: from <= k < from + n ==> Taken(h, p, names, fileName, k)
  }

  lemma OneMoreTaken(h: Heap, p: Ino, names: NameSource, fileName: Name, from: nat, n: nat)
    requires AllTaken(h, p, names, fileName, from, n) && Taken(h, p, names, fileName, from + n)
    ensures AllTaken(h, p, names, fileName, from, n + 1)
  {
  }

  /** By default the staged name is made from the destination's own name, and then this holds. */
  lemma OwnNameNotGenerated(names: NameSource, dest: Name)
    ensures NotGenerated(names, dest, dest)
  {
    forall k ensures names.NameAt(StagedPrefix(dest), ".tmp", k) != dest {
      GeneratedNameIsNotDestination(dest, ".tmp-", names.pid, names.nanos(k), k, ".tmp");
    }
  }

  /** `create_staged_file_in_root`: an exclusive create, tried under up to 128 generated names. */
  method CreateStagedFile(disk: Disk, names: NameSource, parent: Ino, fileName: Name)
    returns (r: Result<(Name, Ino), IoKind>)
    requires disk.Valid() && IsDir(disk.heap, parent)
    modifies disk, names
    ensures names.sequence >= old(names.sequence)
    ensures disk.Valid() && old(disk.history) <= disk.history && disk.clock >= old(disk.clock)
    ensures r.Err? ==> disk.heap == old(disk.heap)
    ensures forall k :: |old(disk.history)| <= k < |disk.history| ==>
              disk.history[k] == old(disk.heap) || disk.history[k] == disk.heap
    ensures old(disk.Quiet()) ==>
              (r.Err? <==> AllTaken(old(disk.heap), parent, names, fileName, old(names.sequence), FILE_NAME_ATTEMPTS))
              && (r.Err? ==> r.error == AlreadyExists)
    ensures r.Ok? ==>
              && names.sequence > old(names.sequence)
              && Created(old(disk.heap), disk.heap, parent, names, fileName, names.sequence - 1, r.value)
  {
    ghost var h0 := disk.heap;
    var attempt := 0;
    r := Err(AlreadyExists);
    while attempt < FILE_NAME_ATTEMPTS && r == Err(AlreadyExists)
      invariant disk.Valid() && OnlyThese(old(disk.history), disk.history, h0, disk.heap) && disk.clock >= old(disk.clock)
      invariant 0 <= attempt <= FILE_NAME_ATTEMPTS && names.sequence == old(names.sequence) + attempt
      invariant r.Err? ==> disk.heap == h0
      invariant r.Ok? ==> attempt > 0 && Created(h0, disk.heap, parent, names, fileName, names.sequence - 1, r.value)
      invariant old(disk.Quiet()) ==> disk.Quiet()
      invariant old(disk.Quiet()) && r.Err? ==>
                  r.error == AlreadyExists && AllTaken(h0, parent, names, fileName, old(names.sequence), attempt)
    {
      r := CreateNext(disk, names, parent, fileName);
      if old(disk.Quiet()) && r.Err? {
        OneMoreTaken(h0, parent, names, fileName, old(names.sequence), attempt);
      }
      attempt := attempt + 1;
    }
    assert r.Ok? ==> !Taken(h0, parent, names, fileName, names.sequence - 1);
  }

  /** A new empty file under generated name `k`, which was free. */
  ghost predicate Created(h0: Heap, h: Heap, p: Ino, names: NameSource, fileName: Name, k: nat, made: (Name, Ino)) {
    && made.0 == names.NameAt(StagedPrefix(fileName), ".tmp", k) && !Taken(h0, p, names, fileName, k)
    && IsDir(h0, p) && made.1 !in h0 && h == Attach(h0[made.1 := File([], DEFAULT_FILE_MODE)], p, made.0, made.1)
  }

  method CreateNext(disk: Disk, names: NameSource, parent: Ino, fileName: Name) returns (r: Result<(Name, Ino), IoKind>)
    requires disk.Valid() && IsDir(disk.heap, parent)
    modifies disk, names
    ensures names.sequence == old(names.sequence) + 1 && disk.Valid() && disk.clock == old(disk.clock) + 1
    ensures disk.history == old(disk.history) + [disk.heap]
    ensures r.Err? ==> disk.heap == old(disk.heap)
    ensures r.Ok? ==>
              Created(old(disk.heap), disk.heap, parent, names, fileName, old(names.sequence), r.value)
    ensures old(disk.Quiet()) && r.Err? ==>
              r.error == AlreadyExists && Taken(old(disk.heap), parent, names, fileName, old(names.sequence))
  {
    var leaf := names.Next(StagedPrefix(fileName), ".tmp");
    var made := disk.Create(parent, leaf, File([], DEFAULT_FILE_MODE));
    r := match made case Ok(i) => Ok((leaf, i)) case Err(k) => Err(k);
  }

  /** Staging: without faults it fails only if all the names it tries are taken. */
  method StageFile(disk: Disk, names: NameSource, parent: Ino, dest: Name, fileName: Name, options: WriteOptions)
    returns (r: Result<StagedAtomicFile, IoKind>)
    requires disk.Valid() && IsDir(disk.heap, parent) && NotGenerated(names, fileName, dest)
    modifies disk, names
    ensures names.sequence >= old(names.sequence)
    ensures disk.Valid() && old(disk.history) <= disk.history && disk.clock >= old(disk.clock)
    ensures r.Err? ==> disk.heap == old(disk.heap)
    ensures forall k :: |old(disk.history)| <= k < |disk.history| ==>
              disk.history[k] == old(disk.heap) || disk.history[k] == disk.heap
    ensures old(disk.Quiet()) ==>
              (r.Err? <==> AllTaken(old(disk.heap), parent, names, fileName, old(names.sequence), FILE_NAME_ATTEMPTS))
              && (r.Err? ==> r.error == AlreadyExists)
    ensures old(disk.Quiet()) && !Taken(old(disk.heap), parent, names, fileName, old(names.sequence)) ==> r.Ok?
    ensures r.Ok? ==>
              var f := r.value;
              && fresh(f) && f.Valid() && f.staged && f.disk == disk && f.parent == parent && f.dest == dest
              && f.options == options
              && (exists k :: old(names.sequence) <= k < names.sequence
                              && f.stagedLeaf == names.NameAt(StagedPrefix(fileName), ".tmp", k))
              && f.ino !in old(disk.heap) && Lookup(old(disk.heap), parent, f.stagedLeaf) == None
              && disk.heap == Attach(old(disk.heap)[f.ino := File([], DEFAULT_FILE_MODE)], parent, f.stagedLeaf, f.ino)
  {
    var made := CreateStagedFile(disk, names, parent, fileName);
    match made {
      case Ok((leaf, i)) =>
        var f := new StagedAtomicFile(disk, parent, leaf, dest, options, i);
        r := Ok(f);
      case Err(k) =>
        r := Err(k);
    }
  }
}
