/** Staged directory replacement with backup and rollback
    (crates/omne-fs-primitives/src/atomic_write.rs). */
module AtomicDirectory {
  import opened Wrappers
  import opened Filesystem
  import opened HeapUpdates
  import opened Disks
  import opened StagedNames

  const STAGED_NAME_ATTEMPTS := 128
  const BACKUP_PREFIX := ".directory-backup-"
  const PREVIOUS: Name := "previous"

  datatype DirectoryError =
    | IoPath(op: string, kind: IoKind)
    | CommittedButUnsynced(op: string, kind: IoKind)
    | CommittedButCleanupFailed(op: string, kind: IoKind)
    | RollbackFailed(op: string, backup: Route, kind: IoKind, stagedCleanup: Option<IoKind>)
    | Validation(detail: string)

  predicate Committed(r: Result<(), DirectoryError>) {
    r.Ok? || r.error.CommittedButUnsynced? || r.error.CommittedButCleanupFailed?
  }

  // ---------------------------------------------------------------- what callers see

  /** The entry `n` of `d` is what it was in `h0`, down to every byte below it. */
  ghost predicate Kept(h0: Heap, h: Heap, d: Ino, n: Name) {
    && Lookup(h, d, n) == Lookup(h0, d, n)
    && (Lookup(h0, d, n).Some? ==> SameTree(h0, h, Lookup(h0, d, n).value))
  }

  /** The entry `n` of `d` is the tree that `h0` had at inode `i`. */
  ghost predicate Holds(h0: Heap, h: Heap, d: Ino, n: Name, i: Ino) {
    Lookup(h, d, n) == Some(i) && SameTree(h0, h, i)
  }

  /** The tree that `h0` had at inode `i` is found at `route` below `d`. */
  ghost predicate RecoverableAt(h0: Heap, h: Heap, d: Ino, route: Route, i: Ino) {
    Walk(h, d, route) == Some(i) && SameTree(h0, h, i)
  }

  /** A stop at `h` loses nothing: the destination is as before, or the new tree is installed, or
      the old tree is complete one level down under some other name of the same directory. */
  ghost predicate Safe(h0: Heap, h: Heap, p: Ino, dest: Name, staged: Ino) {
    || Kept(h0, h, p, dest)
    || Holds(h0, h, p, dest, staged)
    || (Lookup(h0, p, dest).Some?
        && exists b :: RecoverableAt(h0, h, p, [b, PREVIOUS], Lookup(h0, p, dest).value))
  }

  ghost predicate OthersKept(h0: Heap, h: Heap, p: Ino, stagedLeaf: Name, dest: Name) {
    forall n :: n != stagedLeaf && n != dest && Lookup(h0, p, n).Some? ==> Kept(h0, h, p, n)
  }

  // ---------------------------------------------------------------- frames

  /** What the whole commit may write to: the parent, new inodes, and the two trees themselves. */
  ghost predicate Touches(h0: Heap, h: Heap, p: Ino, s: set<Ino>) {
    forall x :: x in h0 && x != p && (x !in s || !h0[x].Dir?) ==> x in h && h[x] == h0[x]
  }

  lemma Untouched(h0: Heap, h: Heap, p: Ino, n: Name, s: set<Ino>)
    requires Wf(h0) && Lookup(h0, p, n).Some? && Touches(h0, h, p, s)
    requires forall x :: x in Subtree(h0, Lookup(h0, p, n).value) && x in s ==> !IsDir(h0, x)
    ensures SameTree(h0, h, Lookup(h0, p, n).value)
  {
    HolderNotBelow(h0, p, n);
  }

  /** The trees under two names do not get in each other's way. */
  lemma UntouchedSibling(h0: Heap, h: Heap, p: Ino, n: Name, m: Name)
    requires Wf(h0) && n != m && Lookup(h0, p, n).Some? && Lookup(h0, p, m).Some?
    requires Touches(h0, h, p, Subtree(h0, Lookup(h0, p, m).value))
    ensures SameTree(h0, h, Lookup(h0, p, n).value)
  {
    SiblingSubtreesApart(h0, p, n, m);
    Untouched(h0, h, p, n, Subtree(h0, Lookup(h0, p, m).value));
  }

  // ---------------------------------------------------------------- staging names

  /** No entry of `p` has a directory name this process is still going to generate. */
  ghost predicate NamesUnused(h: Heap, p: Ino, names: NameSource)
    reads names
  {
    forall prefix, k: nat :: k >= names.sequence ==> Lookup(h, p, names.NameAt(prefix, "", k)) == None
  }

  /** `create_directory_component`: an existing directory is accepted as if it had been made. */
  method CreateDirectoryComponent(disk: Disk, d: Ino, n: Name) returns (r: Result<(), IoKind>)
    requires disk.Valid() && IsDir(disk.heap, d)
    modifies disk
    ensures disk.Valid() && old(disk.history) <= disk.history && disk.nextIno >= old(disk.nextIno)
    ensures disk.clock > old(disk.clock)
    ensures forall k :: |old(disk.history)| <= k < |disk.history| ==> disk.history[k] == disk.heap
    ensures disk.heap == old(disk.heap) || Made(old(disk.heap), disk.heap, d, n)
    ensures r.Err? ==> disk.heap == old(disk.heap)
    ensures r.Ok? ==> Lookup(disk.heap, d, n).Some? && IsDir(disk.heap, Lookup(disk.heap, d, n).value)
    ensures old(disk.Quiet()) ==>
              (r.Ok? <==> Lookup(old(disk.heap), d, n) == None
                          || IsDir(old(disk.heap), Lookup(old(disk.heap), d, n).value))
              && (r.Err? ==> r.error == AlreadyExists)
  {
    var made := disk.Create(d, n, Dir(map[]));
    match made {
      case Ok(_) => r := Ok(());
      case Err(k) =>
        if k == AlreadyExists {
          var meta := disk.SymlinkMetadata(d, n);
          r := match meta
               case Ok(kind) => if kind == KDir then Ok(()) else Err(k)
               case Err(e) => Err(e);
        } else {
          r := Err(k);
        }
    }
  }

  /** `h` is `h0` with a new empty directory `n` in `d`. */
  ghost predicate Made(h0: Heap, h: Heap, d: Ino, n: Name) {
    && IsDir(h0, d) && Lookup(h0, d, n) == None
    && exists i :: i !in h0 && h == Attach(h0[i := Dir(map[])], d, n, i)
  }

  /** The directory is new, under a name that was free. */
  ghost predicate FreshlyMade(h0: Heap, h: Heap, p: Ino, leaf: Name, i: Ino) {
    IsDir(h0, p) && i !in h0 && Lookup(h0, p, leaf) == None && h == Attach(h0[i := Dir(map[])], p, leaf, i)
  }

  /** Something that is no directory has name `k`. */
  predicate Blocked(h: Heap, p: Ino, names: NameSource, prefix: string, k: nat) {
    var entry := Lookup(h, p, names.NameAt(prefix, "", k));
    entry.Some? && !IsDir(h, entry.value)
  }

  ghost predicate AllBlocked(h: Heap, p: Ino, names: NameSource, prefix: string, from: nat, n: nat) {
    forall k :: from <= k < from + n ==> Blocked(h, p, names, prefix, k)
  }

  lemma OneMoreBlocked(h: Heap, p: Ino, names: NameSource, prefix: string, from: nat, n: nat)
    requires AllBlocked(h, p, names, prefix, from, n)
    ensures Blocked(h, p, names, prefix, from + n) <==> AllBlocked(h, p, names, prefix, from, n + 1)
    ensures forall m: nat :: AllBlocked(h, p, names, prefix, from, m) && m > n ==> Blocked(h, p, names, prefix, from + n)
  {
  }

  /** `create_staged_directory_in_root`. What it returns is a new directory if and only if the generated
      name was free; a directory that has the name already is handed out as it is. */
  method CreateStagedDirectory(disk: Disk, names: NameSource, p: Ino, prefix: string)
    returns (r: Result<(Name, Ino), IoKind>)
    requires disk.Valid() && IsDir(disk.heap, p)
    modifies disk, names
    ensures disk.Valid() && old(disk.history) <= disk.history && names.sequence > old(names.sequence)
    ensures disk.clock > old(disk.clock)
    ensures forall k :: |old(disk.history)| <= k < |disk.history| ==>
              disk.history[k] == old(disk.heap) || disk.history[k] == disk.heap
    ensures disk.heap == old(disk.heap) || exists k: nat :: Made(old(disk.heap), disk.heap, p, names.NameAt(prefix, "", k))
    ensures r.Ok? ==>
              exists k: nat :: old(names.sequence) <= k < names.sequence && r.value.0 == names.NameAt(prefix, "", k)
    ensures r.Ok? && Lookup(old(disk.heap), p, r.value.0) == None ==>
              FreshlyMade(old(disk.heap), disk.heap, p, r.value.0, r.value.1)
    ensures r.Ok? && Lookup(old(disk.heap), p, r.value.0).Some? ==>
              disk.heap == old(disk.heap) && Lookup(disk.heap, p, r.value.0) == Some(r.value.1) && IsDir(disk.heap, r.value.1)
    ensures r.Ok? && old(NamesUnused(disk.heap, p, names)) ==>
              FreshlyMade(old(disk.heap), disk.heap, p, r.value.0, r.value.1)
    ensures old(disk.Quiet() && NamesUnused(disk.heap, p, names)) ==> r.Ok?
    ensures old(disk.Quiet()) && old(IsTaken(disk.heap, p, names, prefix)) ==>
              r.Ok? && r.value.0 == names.NameAt(prefix, "", old(names.sequence))
    ensures old(disk.Quiet()) ==>
              (r.Err? <==> AllBlocked(old(disk.heap), p, names, prefix, old(names.sequence), STAGED_NAME_ATTEMPTS))
  {
    ghost var h0, at := disk.heap, names.sequence;
    r, at := TryNames(disk, names, p, prefix);
    assert old(NamesUnused(disk.heap, p, names)) ==> Lookup(h0, p, names.NameAt(prefix, "", at)) == None;
    if old(disk.Quiet()) {
      assert !Blocked(h0, p, names, prefix, old(names.sequence)) ==> at == old(names.sequence);
    }
  }

  /** The attempts; `at` is the name of the last one. */
  method TryNames(disk: Disk, names: NameSource, p: Ino, prefix: string)
    returns (r: Result<(Name, Ino), IoKind>, ghost at: nat)
    requires disk.Valid() && IsDir(disk.heap, p)
    modifies disk, names
    ensures disk.Valid() && old(disk.history) <= disk.history && disk.clock > old(disk.clock)
    ensures old(names.sequence) <= at < names.sequence
    ensures forall k :: |old(disk.history)| <= k < |disk.history| ==>
              disk.history[k] == old(disk.heap) || disk.history[k] == disk.heap
    ensures Next(old(disk.heap), disk.heap, p, names.NameAt(prefix, "", at), r)
    ensures old(disk.Quiet()) ==>
              (r.Err? <==> AllBlocked(old(disk.heap), p, names, prefix, old(names.sequence), STAGED_NAME_ATTEMPTS))
              && AllBlocked(old(disk.heap), p, names, prefix, old(names.sequence), at - old(names.sequence))
  {
    ghost var h0, from := disk.heap, names.sequence;
    var attempt, again := 0, true;
    at := from;
    r := Err(AlreadyExists);
    while attempt < STAGED_NAME_ATTEMPTS && again
      invariant disk.Valid() && old(disk.history) <= disk.history && disk.clock >= old(disk.clock) + attempt
      invariant 0 <= attempt <= STAGED_NAME_ATTEMPTS && names.sequence == from + attempt
      invariant at == (if attempt == 0 then from else names.sequence - 1) && (attempt == 0 ==> again)
      invariant OnlyThese(old(disk.history), disk.history, h0, disk.heap)
      invariant again ==> disk.heap == h0
      invariant Next(h0, disk.heap, p, names.NameAt(prefix, "", at), r)
      invariant old(disk.Quiet()) ==> disk.Quiet()
      invariant old(disk.Quiet()) ==>
                  AllBlocked(h0, p, names, prefix, from, at - from)
                  && (attempt > 0 ==> (again <==> Blocked(h0, p, names, prefix, at)) && (again <==> r.Err?))
    {
      at := names.sequence;
      if old(disk.Quiet()) && attempt > 0 {
        OneMoreBlocked(h0, p, names, prefix, from, attempt - 1);
      }
      r, again := MakeNext(disk, names, p, prefix);
      attempt := attempt + 1;
    }
    if old(disk.Quiet()) {
      OneMoreBlocked(h0, p, names, prefix, from, attempt - 1);
    }
  }

  /** What one attempt under the name `leaf` leaves. */
  ghost predicate Next(h0: Heap, h: Heap, p: Ino, leaf: Name, r: Result<(Name, Ino), IoKind>) {
    && (h == h0 || Made(h0, h, p, leaf))
    && (r.Ok? ==> r.value.0 == leaf
                  && if Lookup(h0, p, leaf) == None then FreshlyMade(h0, h, p, leaf, r.value.1)
                     else h == h0 && Lookup(h, p, leaf) == Some(r.value.1) && IsDir(h, r.value.1))
  }

  /** One attempt, which is made again under the next name if something is in the way. */
  method MakeNext(disk: Disk, names: NameSource, p: Ino, prefix: string)
    returns (r: Result<(Name, Ino), IoKind>, again: bool)
    requires disk.Valid() && IsDir(disk.heap, p)
    modifies disk, names
    ensures names.sequence == old(names.sequence) + 1
    ensures disk.Valid() && old(disk.history) <= disk.history && disk.clock > old(disk.clock)
    ensures forall k :: |old(disk.history)| <= k < |disk.history| ==> disk.history[k] == disk.heap
    ensures again ==> r == Err(AlreadyExists) && disk.heap == old(disk.heap)
    ensures Next(old(disk.heap), disk.heap, p, names.NameAt(prefix, "", old(names.sequence)), r)
    ensures old(disk.Quiet()) ==>
              (again <==> Blocked(old(disk.heap), p, names, prefix, old(names.sequence))) && (again <==> r.Err?)
  {
    var leaf := names.Next(prefix, "");
    var made := CreateDirectoryComponent(disk, p, leaf);
    again := made == Err(AlreadyExists);
    match made {
      case Ok(_) =>
        var handle := disk.OpenDirNofollow(p, leaf);
        r := match handle case Ok(d) => Ok((leaf, d)) case Err(k) => Err(k);
      case Err(k) =>
        r := Err(k);
    }
  }

  /** A directory has the next generated name already. */
  predicate IsTaken(h: Heap, p: Ino, names: NameSource, prefix: string)
    reads names
  {
    var entry := Lookup(h, p, names.NameAt(prefix, "", names.sequence));
    entry.Some? && IsDir(h, entry.value)
  }

  // ---------------------------------------------------------------- clean-up

  /** `h` is `hc` after a removal of `leaf` in `p`, finished or not: only directories in `s` and the
      entry `leaf` itself can have changed. */
  ghost predicate Swept(hc: Heap, h: Heap, p: Ino, leaf: Name, s: set<Ino>) {
    && h.Keys == hc.Keys && IsDir(h, p)
    && (forall x :: x in hc && x != p && (x !in s || !hc[x].Dir?) ==> h[x] == hc[x])
    && (forall n :: n != leaf ==> Lookup(h, p, n) == Lookup(hc, p, n))
    && (Lookup(h, p, leaf) == None || Lookup(h, p, leaf) == Lookup(hc, p, leaf))
  }

  lemma RemovedIsSwept(hc: Heap, mid: Heap, h: Heap, p: Ino, leaf: Name, ok: bool)
    requires Wf(hc) && Lookup(hc, p, leaf).Some?
    requires Removed(hc, mid, h, Lookup(hc, p, leaf).value, {(p, leaf)}, ok)
    ensures Swept(hc, mid, p, leaf, Subtree(hc, Lookup(hc, p, leaf).value))
    ensures Swept(hc, h, p, leaf, Subtree(hc, Lookup(hc, p, leaf).value))
    ensures ok ==> Lookup(h, p, leaf) == None
  {
    HolderNotBelow(hc, p, leaf);
    assert mid[p] == hc[p];
    assert (p, leaf) in {(p, leaf)};
  }

  /** `remove_staged_directory`. */
  method RemoveStaged(disk: Disk, p: Ino, leaf: Name) returns (r: Result<(), IoKind>)
    requires disk.Valid() && IsDir(disk.heap, p) && Lookup(disk.heap, p, leaf).Some?
    requires IsDir(disk.heap, Lookup(disk.heap, p, leaf).value)
    modifies disk
    ensures disk.Valid() && old(disk.history) <= disk.history && disk.clock == old(disk.clock) + 1
    ensures Swept(old(disk.heap), disk.heap, p, leaf, Subtree(old(disk.heap), Lookup(old(disk.heap), p, leaf).value))
    ensures forall k :: |old(disk.history)| <= k < |disk.history| ==>
              Swept(old(disk.heap), disk.history[k], p, leaf,
                    Subtree(old(disk.heap), Lookup(old(disk.heap), p, leaf).value))
    ensures r.Ok? ==> Lookup(disk.heap, p, leaf) == None
    ensures r.Ok? <==> disk.faults(old(disk.clock)) == None
  {
    ghost var hc, n := disk.heap, |disk.history|;
    r := disk.RemoveDirAll(p, leaf);
    RemovalSweeps(hc, disk.history, n, p, leaf, r.Ok?);
  }

  /** `remove_backup_root`; `leaf` is the name the holder has, which the code does not use. */
  method RemoveBackup(disk: Disk, holder: Ino, ghost p: Ino, ghost leaf: Name) returns (r: Result<(), IoKind>)
    requires disk.Valid() && IsDir(disk.heap, p) && Lookup(disk.heap, p, leaf) == Some(holder)
    requires IsDir(disk.heap, holder)
    modifies disk
    ensures disk.Valid() && old(disk.history) <= disk.history && disk.clock == old(disk.clock) + 1
    ensures Swept(old(disk.heap), disk.heap, p, leaf, Subtree(old(disk.heap), holder))
    ensures forall k :: |old(disk.history)| <= k < |disk.history| ==>
              Swept(old(disk.heap), disk.history[k], p, leaf, Subtree(old(disk.heap), holder))
    ensures r.Ok? ==> Lookup(disk.heap, p, leaf) == None
    ensures r.Ok? <==> disk.faults(old(disk.clock)) == None
  {
    ghost var hc, n := disk.heap, |disk.history|;
    r := disk.RemoveOpenDirAll(holder, p, leaf);
    RemovalSweeps(hc, disk.history, n, p, leaf, r.Ok?);
  }

  /** Why the names must be free: if a directory has the next backup name, it is taken for the holder,
      and clearing the backup away clears away that directory with all that was in it. */
  method TakenBackupIsLost(disk: Disk, names: NameSource, p: Ino) returns (leaf: Name)
    requires disk.Valid() && IsDir(disk.heap, p) && disk.Quiet() && IsTaken(disk.heap, p, names, BACKUP_PREFIX)
    modifies disk, names
    ensures disk.Valid()
    ensures Lookup(old(disk.heap), p, leaf).Some? && IsDir(old(disk.heap), Lookup(old(disk.heap), p, leaf).value)
    ensures Lookup(disk.heap, p, leaf) == None
  {
    var holder := CreateStagedDirectory(disk, names, p, BACKUP_PREFIX);
    leaf := holder.value.0;
    var _ := RemoveBackup(disk, holder.value.1, p, leaf);
  }

  lemma RemovalSweeps(hc: Heap, history: seq<Heap>, n: nat, p: Ino, leaf: Name, ok: bool)
    requires Wf(hc) && Lookup(hc, p, leaf).Some? && |history| == n + 2
    requires Removed(hc, history[n], history[n + 1], Lookup(hc, p, leaf).value, {(p, leaf)}, ok)
    ensures forall k :: n <= k < |history| ==> Swept(hc, history[k], p, leaf, Subtree(hc, Lookup(hc, p, leaf).value))
    ensures ok ==> Lookup(history[n + 1], p, leaf) == None
  {
    RemovedIsSwept(hc, history[n], history[n + 1], p, leaf, ok);
    forall k | n <= k < |history|
      ensures Swept(hc, history[k], p, leaf, Subtree(hc, Lookup(hc, p, leaf).value))
    {
      assert k == n || k == n + 1;
    }
  }

  // ---------------------------------------------------------------- moving the old tree aside

  /** `h0` with the destination moved into a new holder directory. */
  function Aside(h0: Heap, p: Ino, dest: Name, backup: Name, holder: Ino): Heap
    requires Lookup(h0, p, dest).Some? && holder !in h0
  {
    var h1 := Attach(h0[holder := Dir(map[])], p, backup, holder);
    Attach(Detach(h1, p, dest), holder, PREVIOUS, Lookup(h0, p, dest).value)
  }

  lemma AsideFacts(h0: Heap, p: Ino, dest: Name, backup: Name, holder: Ino)
    requires Wf(h0) && Lookup(h0, p, dest).Some? && holder !in h0 && Lookup(h0, p, backup) == None
    ensures var h := Aside(h0, p, dest, backup, holder);
            && Touches(h0, h, p, {})
            && IsDir(h, p) && IsDir(h, holder)
            && Lookup(h, p, backup) == Some(holder)
            && Lookup(h, p, dest) == None
            && h[holder].entries == map[PREVIOUS := Lookup(h0, p, dest).value]
            && (forall n :: n != dest && n != backup ==> Lookup(h, p, n) == Lookup(h0, p, n))
  {
    assert p in h0;
  }

  /** Where `Touches` and the parent's own entries are known, an entry is known to be kept. */
  lemma KeptByFrame(h0: Heap, h: Heap, p: Ino, n: Name, m: Name)
    requires Wf(h0) && n != m && Lookup(h0, p, m).Some?
    requires Touches(h0, h, p, Subtree(h0, Lookup(h0, p, m).value))
    requires Lookup(h, p, n) == Lookup(h0, p, n)
    ensures Kept(h0, h, p, n)
  {
    if Lookup(h0, p, n).Some? {
      UntouchedSibling(h0, h, p, n, m);
    }
  }

  /** After giving up before the destination was renamed: nothing but the staged tree and a new
      holder can differ. */
  ghost predicate GivenUp(h0: Heap, h: Heap, p: Ino, stagedLeaf: Name, dest: Name) {
    && Lookup(h0, p, stagedLeaf).Some?
    && Touches(h0, h, p, Subtree(h0, Lookup(h0, p, stagedLeaf).value))
    && (forall n :: n != stagedLeaf && (Lookup(h0, p, n).Some? || n == dest) ==> Lookup(h, p, n) == Lookup(h0, p, n))
  }

  lemma GivenUpKeeps(h0: Heap, h: Heap, p: Ino, stagedLeaf: Name, dest: Name)
    requires Wf(h0) && stagedLeaf != dest && GivenUp(h0, h, p, stagedLeaf, dest)
    ensures Kept(h0, h, p, dest) && OthersKept(h0, h, p, stagedLeaf, dest)
  {
    forall n | n != stagedLeaf && (Lookup(h0, p, n).Some? || n == dest)
      ensures Kept(h0, h, p, n)
    {
      KeptByFrame(h0, h, p, n, stagedLeaf);
    }
  }

  lemma SweptGivesUp(h0: Heap, hc: Heap, h: Heap, p: Ino, stagedLeaf: Name, dest: Name, leaf: Name, s: set<Ino>)
    requires GivenUp(h0, hc, p, stagedLeaf, dest) && Swept(hc, h, p, leaf, s)
    requires leaf == stagedLeaf || (Lookup(h0, p, leaf) == None && leaf != dest)
    requires forall x :: x in s && x in h0 ==> x in Subtree(h0, Lookup(h0, p, stagedLeaf).value)
    ensures GivenUp(h0, h, p, stagedLeaf, dest)
  {
  }

  /** Clean up the staged tree when nothing has been moved yet. */
  method GiveUp(disk: Disk, p: Ino, stagedLeaf: Name, ghost dest: Name, ghost h0: Heap)
    requires disk.Valid() && IsDir(disk.heap, p) && Settled(h0, disk.heap, p, stagedLeaf, dest)
    modifies disk
    ensures disk.clock >= old(disk.clock)
    ensures disk.Valid() && old(disk.history) <= disk.history
    ensures GivenUp(h0, disk.heap, p, stagedLeaf, dest)
    ensures forall k :: |old(disk.history)| <= k < |disk.history| ==> GivenUp(h0, disk.history[k], p, stagedLeaf, dest)
    ensures IsDir(disk.heap, p)
    ensures old(disk.Quiet()) ==> Lookup(disk.heap, p, stagedLeaf) == None
    ensures forall x :: x in old(disk.heap) && x !in h0 ==> x in disk.heap && disk.heap[x] == old(disk.heap)[x]
    ensures forall n :: n != stagedLeaf ==> Lookup(disk.heap, p, n) == Lookup(old(disk.heap), p, n)
  {
    ghost var hc := disk.heap;
    ghost var s := Subtree(h0, Lookup(h0, p, stagedLeaf).value);
    var _ := RemoveStaged(disk, p, stagedLeaf);
    forall h: Heap | Swept(hc, h, p, stagedLeaf, s)
      ensures GivenUp(h0, h, p, stagedLeaf, dest)
    {
      SweptGivesUp(h0, hc, h, p, stagedLeaf, dest, stagedLeaf, s);
    }
  }

  /** The staged tree is in place and nothing has been moved yet. */
  ghost predicate Settled(h0: Heap, h: Heap, p: Ino, stagedLeaf: Name, dest: Name) {
    && GivenUp(h0, h, p, stagedLeaf, dest)
    && Lookup(h, p, stagedLeaf) == Lookup(h0, p, stagedLeaf)
    && IsDir(h, Lookup(h0, p, stagedLeaf).value)
    && Subtree(h, Lookup(h0, p, stagedLeaf).value) == Subtree(h0, Lookup(h0, p, stagedLeaf).value)
    && forall x :: x in Subtree(h0, Lookup(h0, p, stagedLeaf).value) ==> x in h0
  }

  /** Lines 809-846: look at the destination, make the holder and rename the old tree into it. */
  method MoveAside(disk: Disk, names: NameSource, p: Ino, stagedLeaf: Name, dest: Name)
    returns (r: Result<Option<(Name, Ino)>, DirectoryError>)
    requires disk.Valid() && IsDir(disk.heap, p) && stagedLeaf != dest
    requires Lookup(disk.heap, p, stagedLeaf).Some? && IsDir(disk.heap, Lookup(disk.heap, p, stagedLeaf).value)
    requires NamesUnused(disk.heap, p, names)
    modifies disk, names
    ensures IsDir(disk.heap, p)
    ensures old(disk.Quiet()) && r.Err? ==> Lookup(disk.heap, p, stagedLeaf) == None
    ensures disk.clock >= old(disk.clock) && (r.Err? && r.error.IoPath? ==> r.error.op != "rename_staged")
    ensures disk.Valid() && old(disk.history) <= disk.history
    ensures forall k :: |old(disk.history)| <= k < |disk.history| ==>
              GivenUp(old(disk.heap), disk.history[k], p, stagedLeaf, dest) || (r.Ok? && disk.history[k] == disk.heap)
    ensures r.Err? ==> GivenUp(old(disk.heap), disk.heap, p, stagedLeaf, dest)
    ensures r.Err? ==> r.error.IoPath? || r.error.Validation?
    ensures r.Ok? && r.value == None ==> disk.heap == old(disk.heap)
    ensures r.Ok? && r.value.Some? ==>
              IsAside(old(disk.heap), disk.heap, p, dest, r.value.value.0, r.value.value.1)
    ensures old(disk.Quiet()) ==> r.Ok? == Replaceable(old(disk.heap), p, dest) && (r.Err? ==> r.error.Validation?)
    ensures r.Ok? && Lookup(old(disk.heap), p, dest).Some? ==> r.value.Some?
  {
    ghost var h0 := disk.heap;
    assert GivenUp(h0, h0, p, stagedLeaf, dest);
    var meta := disk.SymlinkMetadata(p, dest);
    if meta == Err(NotFound) {
      r := Ok(None);
    } else if meta.Err? {
      GiveUp(disk, p, stagedLeaf, dest, h0);
      r := Err(IoPath("symlink_metadata", meta.error));
    } else if meta.value != KDir {
      GiveUp(disk, p, stagedLeaf, dest, h0);
      r := Err(Validation("directory destination must be an existing directory or absent"));
    } else {
      r := BackUp(disk, names, p, stagedLeaf, dest);
    }
  }

  method BackUp(disk: Disk, names: NameSource, p: Ino, stagedLeaf: Name, dest: Name)
    returns (r: Result<Option<(Name, Ino)>, DirectoryError>)
    requires disk.Valid() && IsDir(disk.heap, p) && stagedLeaf != dest
    requires Lookup(disk.heap, p, stagedLeaf).Some? && IsDir(disk.heap, Lookup(disk.heap, p, stagedLeaf).value)
    requires Lookup(disk.heap, p, dest).Some? && IsDir(disk.heap, Lookup(disk.heap, p, dest).value)
    requires NamesUnused(disk.heap, p, names)
    modifies disk, names
    ensures IsDir(disk.heap, p)
    ensures old(disk.Quiet()) && r.Err? ==> Lookup(disk.heap, p, stagedLeaf) == None
    ensures disk.clock >= old(disk.clock) && (r.Err? && r.error.IoPath? ==> r.error.op != "rename_staged")
    ensures disk.Valid() && old(disk.history) <= disk.history
    ensures forall k :: |old(disk.history)| <= k < |disk.history| ==>
              GivenUp(old(disk.heap), disk.history[k], p, stagedLeaf, dest) || (r.Ok? && disk.history[k] == disk.heap)
    ensures r.Err? ==> GivenUp(old(disk.heap), disk.heap, p, stagedLeaf, dest) && r.error.IoPath?
    ensures r.Ok? ==> r.value.Some?
                      && IsAside(old(disk.heap), disk.heap, p, dest, r.value.value.0, r.value.value.1)
    ensures old(disk.Quiet()) ==> r.Ok?
  {
    ghost var h0 := disk.heap;
    var made := CreateStagedDirectory(disk, names, p, BACKUP_PREFIX);
    MadeFacts(h0, disk.heap, p, stagedLeaf, dest);
    assert GivenUp(h0, h0, p, stagedLeaf, dest);
    if made.Err? {
      GiveUp(disk, p, stagedLeaf, dest, h0);
      r := Err(IoPath("create_backup_dir", made.error));
    } else {
      r := MoveIntoHolder(disk, p, stagedLeaf, dest, made.value.0, made.value.1, h0);
    }
  }

  /** The destination is absent or a real directory. */
  ghost predicate Replaceable(h: Heap, p: Ino, dest: Name) {
    Lookup(h, p, dest).Some? ==> IsDir(h, Lookup(h, p, dest).value)
  }

  ghost predicate IsAside(h0: Heap, h: Heap, p: Ino, dest: Name, backup: Name, holder: Ino) {
    && Lookup(h0, p, dest).Some? && IsDir(h0, Lookup(h0, p, dest).value)
    && holder !in h0 && Lookup(h0, p, backup) == None
    && h == Aside(h0, p, dest, backup, holder)
  }

  method MoveIntoHolder(disk: Disk, p: Ino, stagedLeaf: Name, dest: Name, backup: Name, holder: Ino, ghost h0: Heap)
    returns (r: Result<Option<(Name, Ino)>, DirectoryError>)
    requires disk.Valid() && Wf(h0) && IsDir(h0, p) && stagedLeaf != dest
    requires Lookup(h0, p, dest).Some? && IsDir(h0, Lookup(h0, p, dest).value)
    requires holder !in h0 && Lookup(h0, p, backup) == None
    requires disk.heap == Attach(h0[holder := Dir(map[])], p, backup, holder)
    requires Settled(h0, disk.heap, p, stagedLeaf, dest)
    modifies disk
    ensures IsDir(disk.heap, p)
    ensures old(disk.Quiet()) && r.Err? ==> Lookup(disk.heap, p, stagedLeaf) == None
    ensures disk.clock >= old(disk.clock) && (r.Err? && r.error.IoPath? ==> r.error.op != "rename_staged")
    ensures disk.Valid() && old(disk.history) <= disk.history
    ensures forall k :: |old(disk.history)| <= k < |disk.history| ==>
              GivenUp(h0, disk.history[k], p, stagedLeaf, dest) || (r.Ok? && disk.history[k] == disk.heap)
    ensures r.Err? ==> GivenUp(h0, disk.heap, p, stagedLeaf, dest) && r.error.IoPath?
    ensures r.Ok? ==> r.value == Some((backup, holder)) && IsAside(h0, disk.heap, p, dest, backup, holder)
    ensures old(disk.Quiet()) ==> r.Ok?
  {
    HolderOutside(h0, disk.heap, p, dest, holder);
    var moved := disk.Rename(p, dest, holder, PREVIOUS);
    if moved.Err? {
      AbandonHolder(disk, p, stagedLeaf, dest, backup, holder, h0);
      r := Err(IoPath("rename_existing", moved.error));
    } else {
      r := Ok(Some((backup, holder)));
    }
  }

  /** The old tree could not be moved: clean up the staged tree and the empty holder. */
  method AbandonHolder(disk: Disk, p: Ino, stagedLeaf: Name, ghost dest: Name, backup: Name, holder: Ino,
      ghost h0: Heap)
    requires disk.Valid() && Wf(h0) && IsDir(h0, p) && IsDir(disk.heap, p)
    requires Settled(h0, disk.heap, p, stagedLeaf, dest)
    requires holder !in h0 && Lookup(h0, p, backup) == None && backup != dest && backup != stagedLeaf
    requires Lookup(disk.heap, p, backup) == Some(holder) && holder in disk.heap && disk.heap[holder] == Dir(map[])
    modifies disk
    ensures disk.Valid() && old(disk.history) <= disk.history && disk.clock >= old(disk.clock) && IsDir(disk.heap, p)
    ensures GivenUp(h0, disk.heap, p, stagedLeaf, dest)
    ensures old(disk.Quiet()) ==> Lookup(disk.heap, p, stagedLeaf) == None
    ensures forall k :: |old(disk.history)| <= k < |disk.history| ==> GivenUp(h0, disk.history[k], p, stagedLeaf, dest)
  {
    GiveUp(disk, p, stagedLeaf, dest, h0);
    ghost var h2 := disk.heap;
    EmptySubtree(h2, holder);
    HolderSweptGivesUp(h0, h2, p, stagedLeaf, dest, backup, holder);
    var _ := RemoveBackup(disk, holder, p, backup);
  }

  lemma HolderSweptGivesUp(h0: Heap, hc: Heap, p: Ino, stagedLeaf: Name, dest: Name, backup: Name, holder: Ino)
    requires GivenUp(h0, hc, p, stagedLeaf, dest) && holder !in h0 && Lookup(h0, p, backup) == None && backup != dest
    ensures forall h: Heap :: Swept(hc, h, p, backup, {holder}) ==> GivenUp(h0, h, p, stagedLeaf, dest)
  {
    forall h: Heap | Swept(hc, h, p, backup, {holder})
      ensures GivenUp(h0, h, p, stagedLeaf, dest)
    {
      SweptGivesUp(h0, hc, h, p, stagedLeaf, dest, backup, {holder});
    }
  }

  lemma MadeFacts(h0: Heap, h1: Heap, p: Ino, stagedLeaf: Name, dest: Name)
    requires Wf(h0) && Lookup(h0, p, stagedLeaf).Some? && IsDir(h0, Lookup(h0, p, stagedLeaf).value)
    requires Lookup(h0, p, dest).Some?
    requires h1 == h0 || exists leaf :: Made(h0, h1, p, leaf)
    ensures Settled(h0, h1, p, stagedLeaf, dest)
  {
    var s := Lookup(h0, p, stagedLeaf).value;
    HolderNotBelow(h0, p, stagedLeaf);
    assert SameTree(h0, h1, s);
    SameTreeSubtree(h0, h1, s);
    SubtreeSelf(h0, s);
  }

  lemma HolderOutside(h0: Heap, h1: Heap, p: Ino, dest: Name, holder: Ino)
    requires Wf(h0) && Lookup(h0, p, dest).Some? && holder !in h0
    requires exists leaf :: Lookup(h0, p, leaf) == None && h1 == Attach(h0[holder := Dir(map[])], p, leaf, holder)
    ensures holder !in Subtree(h1, Lookup(h0, p, dest).value)
  {
    var d := Lookup(h0, p, dest).value;
    HolderNotBelow(h0, p, dest);
    assert SameTree(h0, h1, d);
    SameTreeSubtree(h0, h1, d);
  }

  lemma EmptySubtree(h: Heap, i: Ino)
    requires IsDir(h, i) && h[i].entries == map[]
    ensures Subtree(h, i) == {i}
  {
    SubtreeSelf(h, i);
    forall p | Walk(h, i, p).Some? ensures p == [] { }
  }

  // ---------------------------------------------------------------- installing, or rolling back

  /** The state between backup and installation: untouched, or with the old tree aside. */
  ghost predicate Ready(h0: Heap, h: Heap, p: Ino, dest: Name, backup: Option<(Name, Ino)>) {
    match backup
    case None => h == h0
    case Some((leaf, holder)) => IsAside(h0, h, p, dest, leaf, holder)
  }

  /** The promise each result makes about the final heap. */
  ghost predicate Outcome(h0: Heap, h: Heap, p: Ino, stagedLeaf: Name, dest: Name, r: Result<(), DirectoryError>)
    requires Lookup(h0, p, stagedLeaf).Some?
  {
    && OthersKept(h0, h, p, stagedLeaf, dest)
    && (Committed(r) ==> Holds(h0, h, p, dest, Lookup(h0, p, stagedLeaf).value))
    && (!Committed(r) && !r.error.RollbackFailed? ==> Kept(h0, h, p, dest))
    && (r.Err? && r.error.RollbackFailed? ==>
          Lookup(h0, p, dest).Some? && RecoverableAt(h0, h, p, r.error.backup, Lookup(h0, p, dest).value))
  }

  lemma AsideSettled(h0: Heap, h: Heap, p: Ino, stagedLeaf: Name, dest: Name, backup: Option<(Name, Ino)>)
    requires Wf(h0) && stagedLeaf != dest && Ready(h0, h, p, dest, backup)
    requires Lookup(h0, p, stagedLeaf).Some? && IsDir(h0, Lookup(h0, p, stagedLeaf).value)
    ensures IsDir(h, p) && Lookup(h, p, stagedLeaf) == Lookup(h0, p, stagedLeaf)
    ensures Touches(h0, h, p, {})
    ensures IsDir(h, Lookup(h0, p, stagedLeaf).value)
    ensures Subtree(h, Lookup(h0, p, stagedLeaf).value) == Subtree(h0, Lookup(h0, p, stagedLeaf).value)
    ensures forall n :: n != dest && Lookup(h0, p, n).Some? ==> Lookup(h, p, n) == Lookup(h0, p, n)
  {
    var s := Lookup(h0, p, stagedLeaf).value;
    if backup.Some? {
      AsideFacts(h0, p, dest, backup.value.0, backup.value.1);
    }
    Untouched(h0, h, p, stagedLeaf, {});
    SameTreeSubtree(h0, h, s);
    SubtreeSelf(h0, s);
  }

  /** While the old tree is aside and only the staged tree is being removed, it can be recovered. */
  lemma AsideSafe(h0: Heap, hc: Heap, h: Heap, p: Ino, stagedLeaf: Name, dest: Name, leaf: Name, holder: Ino)
    requires Wf(h0) && stagedLeaf != dest && IsAside(h0, hc, p, dest, leaf, holder)
    requires Lookup(h0, p, stagedLeaf).Some? && IsDir(h0, Lookup(h0, p, stagedLeaf).value)
    requires Swept(hc, h, p, stagedLeaf, Subtree(h0, Lookup(h0, p, stagedLeaf).value))
    ensures var d := Lookup(h0, p, dest).value;
            && RecoverableAt(h0, h, p, [leaf, PREVIOUS], d)
            && Lookup(h, holder, PREVIOUS) == Some(d) && h[holder].entries == map[PREVIOUS := d]
            && SameTree(h0, h, d) && d in h0 && p !in Subtree(h0, d) && holder !in Subtree(h0, d)
    ensures Touches(h0, h, p, Subtree(h0, Lookup(h0, p, stagedLeaf).value))
    ensures Lookup(h, p, dest) == None && Lookup(h, p, leaf) == Some(holder) && IsDir(h, p)
    ensures forall n :: n != dest && n != stagedLeaf && Lookup(h0, p, n).Some? ==> Lookup(h, p, n) == Lookup(h0, p, n)
  {
    var d := Lookup(h0, p, dest).value;
    AsideFacts(h0, p, dest, leaf, holder);
    assert forall x :: x in Subtree(h0, Lookup(h0, p, stagedLeaf).value) ==> x in h0;
    UntouchedSibling(h0, h, p, dest, stagedLeaf);
    HolderNotBelow(h0, p, dest);
    assert [leaf, PREVIOUS][1..] == [PREVIOUS] && [PREVIOUS][1..] == [];
    SubtreeSelf(h0, d);
    assert Walk(h, holder, [PREVIOUS]) == Some(d);
  }

  /** Lines 856-888: remove the staged tree, then try to put the old one back. */
  method RollBack(disk: Disk, p: Ino, stagedLeaf: Name, dest: Name, backup: Option<(Name, Ino)>, kind: IoKind,
      ghost h0: Heap)
    returns (e: DirectoryError)
    requires disk.Valid() && Wf(h0) && IsDir(h0, p) && stagedLeaf != dest
    requires Lookup(h0, p, stagedLeaf).Some? && IsDir(h0, Lookup(h0, p, stagedLeaf).value)
    requires Ready(h0, disk.heap, p, dest, backup)
    modifies disk
    ensures IsDir(disk.heap, p)
    ensures old(disk.Quiet()) ==> Lookup(disk.heap, p, stagedLeaf) == None
    ensures disk.Valid() && disk.clock >= old(disk.clock) && old(disk.history) <= disk.history
    ensures Outcome(h0, disk.heap, p, stagedLeaf, dest, Err(e)) && !Committed(Err(e))
    ensures forall k :: |old(disk.history)| <= k < |disk.history| ==>
              Safe(h0, disk.history[k], p, dest, Lookup(h0, p, stagedLeaf).value)
    ensures backup.Some? && !e.RollbackFailed? ==>
              Lookup(disk.heap, p, backup.value.0) == Some(backup.value.1)
              && disk.heap[backup.value.1] == Dir(map[])
    ensures e.RollbackFailed? ==> backup.Some? && e.backup == [backup.value.0, PREVIOUS]
    ensures disk.faults(old(disk.clock)) == None && !e.RollbackFailed? ==> e == IoPath("rename_staged", kind)
    ensures e.IoPath? ==> Lookup(disk.heap, p, stagedLeaf) == None
  {
    AsideSettled(h0, disk.heap, p, stagedLeaf, dest, backup);
    if backup == None {
      e := RollBackPlain(disk, p, stagedLeaf, dest, kind);
    } else {
      e := RollBackAside(disk, p, stagedLeaf, dest, backup.value.0, backup.value.1, kind, h0);
    }
  }

  method RollBackPlain(disk: Disk, p: Ino, stagedLeaf: Name, dest: Name, kind: IoKind) returns (e: DirectoryError)
    requires disk.Valid() && IsDir(disk.heap, p) && stagedLeaf != dest
    requires Lookup(disk.heap, p, stagedLeaf).Some? && IsDir(disk.heap, Lookup(disk.heap, p, stagedLeaf).value)
    modifies disk
    ensures IsDir(disk.heap, p)
    ensures old(disk.Quiet()) ==> Lookup(disk.heap, p, stagedLeaf) == None
    ensures disk.Valid() && disk.clock >= old(disk.clock) && old(disk.history) <= disk.history
    ensures Outcome(old(disk.heap), disk.heap, p, stagedLeaf, dest, Err(e)) && !Committed(Err(e)) && !e.RollbackFailed?
    ensures disk.faults(old(disk.clock)) == None ==> e == IoPath("rename_staged", kind)
    ensures e.IoPath? ==> Lookup(disk.heap, p, stagedLeaf) == None
    ensures forall k :: |old(disk.history)| <= k < |disk.history| ==>
              Safe(old(disk.heap), disk.history[k], p, dest, Lookup(old(disk.heap), p, stagedLeaf).value)
  {
    ghost var h0 := disk.heap;
    var cleanup := RemoveStaged(disk, p, stagedLeaf);
    forall h: Heap | Swept(h0, h, p, stagedLeaf, Subtree(h0, Lookup(h0, p, stagedLeaf).value))
      ensures Kept(h0, h, p, dest) && OthersKept(h0, h, p, stagedLeaf, dest)
    {
      SweptGivesUp(h0, h0, h, p, stagedLeaf, dest, stagedLeaf, Subtree(h0, Lookup(h0, p, stagedLeaf).value));
      GivenUpKeeps(h0, h, p, stagedLeaf, dest);
    }
    e := if cleanup.Ok? then IoPath("rename_staged", kind) else Validation("cleanup staged directory failed");
  }

  method RollBackAside(disk: Disk, p: Ino, stagedLeaf: Name, dest: Name, leaf: Name, holder: Ino, kind: IoKind,
      ghost h0: Heap)
    returns (e: DirectoryError)
    requires disk.Valid() && Wf(h0) && IsDir(h0, p) && stagedLeaf != dest
    requires Lookup(h0, p, stagedLeaf).Some? && IsDir(h0, Lookup(h0, p, stagedLeaf).value)
    requires IsAside(h0, disk.heap, p, dest, leaf, holder)
    requires IsDir(disk.heap, p) && Lookup(disk.heap, p, stagedLeaf) == Lookup(h0, p, stagedLeaf)
    requires IsDir(disk.heap, Lookup(h0, p, stagedLeaf).value)
    requires Subtree(disk.heap, Lookup(h0, p, stagedLeaf).value) == Subtree(h0, Lookup(h0, p, stagedLeaf).value)
    modifies disk
    ensures IsDir(disk.heap, p)
    ensures old(disk.Quiet()) ==> Lookup(disk.heap, p, stagedLeaf) == None
    ensures disk.Valid() && disk.clock >= old(disk.clock) && old(disk.history) <= disk.history
    ensures Outcome(h0, disk.heap, p, stagedLeaf, dest, Err(e)) && !Committed(Err(e))
    ensures forall k :: |old(disk.history)| <= k < |disk.history| ==>
              Safe(h0, disk.history[k], p, dest, Lookup(h0, p, stagedLeaf).value)
    ensures !e.RollbackFailed? ==> Lookup(disk.heap, p, leaf) == Some(holder) && disk.heap[holder] == Dir(map[])
    ensures disk.faults(old(disk.clock)) == None && !e.RollbackFailed? ==> e == IoPath("rename_staged", kind)
    ensures e.IoPath? ==> Lookup(disk.heap, p, stagedLeaf) == None
    ensures e.RollbackFailed? ==> e.backup == [leaf, PREVIOUS]
  {
    ghost var hc := disk.heap;
    ghost var d := Lookup(h0, p, dest).value;
    var cleanup := RemoveStaged(disk, p, stagedLeaf);
    SweptRecoverable(h0, hc, p, stagedLeaf, dest, leaf, holder);
    AsideSafe(h0, hc, disk.heap, p, stagedLeaf, dest, leaf, holder);
    var restored := RestoreOld(disk, p, stagedLeaf, dest, holder, h0);
    if restored.Ok? {
      e := if cleanup.Ok? then IoPath("rename_staged", kind) else Validation("cleanup staged directory failed");
    } else {
      e := RollbackFailed("restore_existing", [leaf, PREVIOUS], restored.error,
                          if cleanup.Ok? then None else Some(cleanup.error));
    }
  }

  /** The rename that puts the old tree back. */
  method RestoreOld(disk: Disk, p: Ino, ghost stagedLeaf: Name, dest: Name, holder: Ino, ghost h0: Heap)
    returns (r: Result<(), IoKind>)
    requires disk.Valid() && Wf(h0) && IsDir(disk.heap, p) && stagedLeaf != dest && holder !in h0
    requires Lookup(h0, p, stagedLeaf).Some? && Lookup(h0, p, dest).Some? && IsDir(h0, Lookup(h0, p, dest).value)
    requires SameTree(h0, disk.heap, Lookup(h0, p, dest).value) && IsDir(disk.heap, holder)
    requires disk.heap[holder].entries == map[PREVIOUS := Lookup(h0, p, dest).value]
    requires Lookup(disk.heap, p, dest) == None
    requires p !in Subtree(h0, Lookup(h0, p, dest).value) && Lookup(h0, p, dest).value in h0
    requires Touches(h0, disk.heap, p, Subtree(h0, Lookup(h0, p, stagedLeaf).value)) && p != holder
    requires forall n :: n != dest && n != stagedLeaf && Lookup(h0, p, n).Some? ==>
               Lookup(disk.heap, p, n) == Lookup(h0, p, n)
    modifies disk
    ensures disk.Valid() && disk.clock >= old(disk.clock) && disk.history == old(disk.history) + [disk.heap] && IsDir(disk.heap, p)
    ensures OthersKept(h0, disk.heap, p, stagedLeaf, dest)
    ensures r.Ok? ==> Kept(h0, disk.heap, p, dest) && holder in disk.heap && disk.heap[holder] == Dir(map[])
                      && forall n :: n != dest ==> Lookup(disk.heap, p, n) == Lookup(old(disk.heap), p, n)
    ensures r.Err? ==> disk.heap == old(disk.heap)
  {
    ghost var h1, d := disk.heap, Lookup(h0, p, dest).value;
    SameTreeSubtree(h0, h1, d);
    AsideOthers(h0, h1, p, stagedLeaf, dest);
    RestoredKeeps(h0, h1, p, stagedLeaf, dest, holder);
    r := disk.Rename(holder, PREVIOUS, p, dest);
    assert map[PREVIOUS := d] - {PREVIOUS} == map[];
  }

  lemma SweptRecoverable(h0: Heap, hc: Heap, p: Ino, stagedLeaf: Name, dest: Name, leaf: Name, holder: Ino)
    requires Wf(h0) && stagedLeaf != dest && IsAside(h0, hc, p, dest, leaf, holder)
    requires Lookup(h0, p, stagedLeaf).Some? && IsDir(h0, Lookup(h0, p, stagedLeaf).value)
    ensures forall h: Heap :: Swept(hc, h, p, stagedLeaf, Subtree(h0, Lookup(h0, p, stagedLeaf).value)) ==>
              RecoverableAt(h0, h, p, [leaf, PREVIOUS], Lookup(h0, p, dest).value)
  {
    forall h: Heap | Swept(hc, h, p, stagedLeaf, Subtree(h0, Lookup(h0, p, stagedLeaf).value))
      ensures RecoverableAt(h0, h, p, [leaf, PREVIOUS], Lookup(h0, p, dest).value)
    {
      AsideSafe(h0, hc, h, p, stagedLeaf, dest, leaf, holder);
    }
  }

  lemma AsideOthers(h0: Heap, h: Heap, p: Ino, stagedLeaf: Name, dest: Name)
    requires Wf(h0) && Lookup(h0, p, stagedLeaf).Some? && stagedLeaf != dest
    requires Touches(h0, h, p, Subtree(h0, Lookup(h0, p, stagedLeaf).value))
    requires forall n :: n != dest && n != stagedLeaf && Lookup(h0, p, n).Some? ==> Lookup(h, p, n) == Lookup(h0, p, n)
    ensures OthersKept(h0, h, p, stagedLeaf, dest)
  {
    forall n | n != dest && n != stagedLeaf && Lookup(h0, p, n).Some?
      ensures Kept(h0, h, p, n)
    {
      UntouchedSibling(h0, h, p, n, stagedLeaf);
    }
  }

  lemma RestoredKeeps(h0: Heap, h1: Heap, p: Ino, stagedLeaf: Name, dest: Name, holder: Ino)
    requires Wf(h0) && stagedLeaf != dest && IsDir(h1, p) && IsDir(h1, holder) && holder !in h0
    requires Lookup(h0, p, stagedLeaf).Some? && Lookup(h0, p, dest).Some?
    requires Touches(h0, h1, p, Subtree(h0, Lookup(h0, p, stagedLeaf).value))
    requires forall n :: n != dest && n != stagedLeaf && Lookup(h0, p, n).Some? ==> Lookup(h1, p, n) == Lookup(h0, p, n)
    ensures var h := Attach(Detach(h1, holder, PREVIOUS), p, dest, Lookup(h0, p, dest).value);
            Kept(h0, h, p, dest) && OthersKept(h0, h, p, stagedLeaf, dest)
  {
    var h := Attach(Detach(h1, holder, PREVIOUS), p, dest, Lookup(h0, p, dest).value);
    UntouchedSibling(h0, h, p, dest, stagedLeaf);
    AsideOthers(h0, h, p, stagedLeaf, dest);
  }

  // ---------------------------------------------------------------- the commit

  /** The staged tree is under the destination's name; `backup` says where the old one went. */
  lemma InstalledFacts(h0: Heap, hc: Heap, h: Heap, p: Ino, stagedLeaf: Name, dest: Name, backup: Option<(Name, Ino)>)
    requires Wf(h0) && stagedLeaf != dest && Ready(h0, hc, p, dest, backup)
    requires Lookup(h0, p, stagedLeaf).Some? && IsDir(h0, Lookup(h0, p, stagedLeaf).value)
    requires IsDir(hc, p) && Lookup(hc, p, stagedLeaf) == Lookup(h0, p, stagedLeaf)
    requires h == Attach(Detach(hc, p, stagedLeaf), p, dest, Lookup(h0, p, stagedLeaf).value)
    ensures Touches(h0, h, p, {}) && IsDir(h, p)
    ensures Holds(h0, h, p, dest, Lookup(h0, p, stagedLeaf).value)
    ensures OthersKept(h0, h, p, stagedLeaf, dest)
    ensures backup == None ==>
              h[p].entries == (h0[p].entries - {stagedLeaf})[dest := Lookup(h0, p, stagedLeaf).value]
    ensures backup.Some? ==>
              && Lookup(h, p, backup.value.0) == Some(backup.value.1) && IsDir(h, backup.value.1)
              && h[p].entries - {backup.value.0}
                 == (h0[p].entries - {stagedLeaf})[dest := Lookup(h0, p, stagedLeaf).value]
              && (forall x :: x in Subtree(h, backup.value.1) && x in h0 ==> x in Subtree(h0, Lookup(h0, p, dest).value))
  {
    if backup.Some? {
      var leaf, holder := backup.value.0, backup.value.1;
      var d := Lookup(h0, p, dest).value;
      AsideFacts(h0, p, dest, leaf, holder);
      Untouched(h0, h, p, dest, {});
      SameTreeSubtree(h0, h, d);
      OneChild(h, holder, PREVIOUS, d);
    }
    Untouched(h0, h, p, stagedLeaf, {});
    forall n | n != stagedLeaf && n != dest && Lookup(h0, p, n).Some?
      ensures Kept(h0, h, p, n)
    {
      Untouched(h0, h, p, n, {});
    }
  }

  lemma OneChild(h: Heap, i: Ino, n: Name, c: Ino)
    requires IsDir(h, i) && h[i].entries == map[n := c]
    ensures forall x :: x in Subtree(h, i) ==> x == i || x in Subtree(h, c)
  {
    forall x | x in Subtree(h, i) && x != i
      ensures x in Subtree(h, c)
    {
      var q :| Walk(h, i, q) == Some(x);
      assert Walk(h, c, q[1..]) == Some(x);
    }
  }

  /** The old tree's removal, finished or not, leaves the new tree and its neighbours alone. */
  lemma SweptBackup(h0: Heap, hc: Heap, h: Heap, p: Ino, stagedLeaf: Name, dest: Name, leaf: Name, holder: Ino)
    requires Wf(h0) && stagedLeaf != dest && leaf != dest
    requires Lookup(h0, p, stagedLeaf).Some? && Lookup(h0, p, dest).Some? && Lookup(h0, p, leaf) == None
    requires Touches(h0, hc, p, {}) && Holds(h0, hc, p, dest, Lookup(h0, p, stagedLeaf).value)
    requires OthersKept(h0, hc, p, stagedLeaf, dest)
    requires forall x :: x in Subtree(hc, holder) && x in h0 ==> x in Subtree(h0, Lookup(h0, p, dest).value)
    requires Swept(hc, h, p, leaf, Subtree(hc, holder))
    ensures Holds(h0, h, p, dest, Lookup(h0, p, stagedLeaf).value)
    ensures OthersKept(h0, h, p, stagedLeaf, dest)
  {
    UntouchedSibling(h0, h, p, stagedLeaf, dest);
    forall n | n != stagedLeaf && n != dest && Lookup(h0, p, n).Some?
      ensures Kept(h0, h, p, n)
    {
      UntouchedSibling(h0, h, p, n, dest);
    }
  }

  /** Lines 890-902: remove the backup, then sync the parent. */
  method FinishCommit(disk: Disk, p: Ino, stagedLeaf: Name, dest: Name, backup: Option<(Name, Ino)>, ghost h0: Heap,
      ghost hc: Heap)
    returns (r: Result<(), DirectoryError>)
    requires disk.Valid() && Wf(h0) && stagedLeaf != dest && Ready(h0, hc, p, dest, backup)
    requires Lookup(h0, p, stagedLeaf).Some? && IsDir(h0, Lookup(h0, p, stagedLeaf).value)
    requires IsDir(hc, p) && Lookup(hc, p, stagedLeaf) == Lookup(h0, p, stagedLeaf)
    requires disk.heap == Attach(Detach(hc, p, stagedLeaf), p, dest, Lookup(h0, p, stagedLeaf).value)
    modifies disk
    ensures disk.Valid() && disk.clock >= old(disk.clock) && old(disk.history) <= disk.history && Committed(r)
    ensures Outcome(h0, disk.heap, p, stagedLeaf, dest, r)
    ensures forall k :: |old(disk.history)| <= k < |disk.history| ==>
              Safe(h0, disk.history[k], p, dest, Lookup(h0, p, stagedLeaf).value)
    ensures IsDir(disk.heap, p)
    ensures r.Ok? || r.error.CommittedButUnsynced? ==>
              disk.heap[p].entries == (h0[p].entries - {stagedLeaf})[dest := Lookup(h0, p, stagedLeaf).value]
    ensures old(disk.Quiet()) ==> r.Ok?
  {
    InstalledFacts(h0, hc, disk.heap, p, stagedLeaf, dest, backup);
    ghost var h1 := disk.heap;
    if backup.Some? {
      var leaf, holder := backup.value.0, backup.value.1;
      var removed := RemoveBackup(disk, holder, p, leaf);
      forall h: Heap | Swept(h1, h, p, leaf, Subtree(h1, holder))
        ensures Holds(h0, h, p, dest, Lookup(h0, p, stagedLeaf).value) && OthersKept(h0, h, p, stagedLeaf, dest)
      {
        SweptBackup(h0, h1, h, p, stagedLeaf, dest, leaf, holder);
      }
      if removed.Err? {
        return Err(CommittedButCleanupFailed("remove_backup_dir", removed.error));
      }
      SweptEntries(h1, disk.heap, p, leaf, Subtree(h1, holder));
    }
    var synced := disk.Sync();
    r := if synced.Ok? then Ok(()) else Err(CommittedButUnsynced("sync_parent", synced.error));
  }

  lemma SweptEntries(hc: Heap, h: Heap, p: Ino, leaf: Name, s: set<Ino>)
    requires IsDir(hc, p) && Swept(hc, h, p, leaf, s) && Lookup(h, p, leaf) == None
    ensures h[p].entries == hc[p].entries - {leaf}
  {
    forall n
      ensures (n in h[p].entries <==> n in hc[p].entries - {leaf})
              && (n in h[p].entries ==> h[p].entries[n] == (hc[p].entries - {leaf})[n])
    {
      assert n != leaf ==> Lookup(h, p, n) == Lookup(hc, p, n);
    }
  }

  /** `commit_replace_directory`. For every failure schedule: the result tells what the destination
      holds, its neighbours are untouched, and no point of the run is unsafe to stop at. */
  method CommitReplaceDirectory(disk: Disk, names: NameSource, p: Ino, stagedLeaf: Name, dest: Name, overwrite: bool)
    returns (r: Result<(), DirectoryError>)
    requires disk.Valid() && IsDir(disk.heap, p) && stagedLeaf != dest
    requires Lookup(disk.heap, p, stagedLeaf).Some? && IsDir(disk.heap, Lookup(disk.heap, p, stagedLeaf).value)
    requires NamesUnused(disk.heap, p, names)
    modifies disk, names
    ensures IsDir(disk.heap, p)
    ensures old(disk.Quiet()) ==> Lookup(disk.heap, p, stagedLeaf) == None
    ensures disk.Valid() && disk.clock >= old(disk.clock) && old(disk.history) <= disk.history
    ensures Outcome(old(disk.heap), disk.heap, p, stagedLeaf, dest, r)
    ensures forall k :: |old(disk.history)| <= k < |disk.history| ==>
              Safe(old(disk.heap), disk.history[k], p, dest, Lookup(old(disk.heap), p, stagedLeaf).value)
    ensures r.Ok? || r.error.CommittedButUnsynced? ==>
              IsDir(disk.heap, p)
              && disk.heap[p].entries
                 == (old(disk.heap)[p].entries - {stagedLeaf})[dest := Lookup(old(disk.heap), p, stagedLeaf).value]
    ensures !overwrite && Lookup(old(disk.heap), p, dest).Some? ==> r.Err? && !Committed(r)
    ensures r.Err? && r.error.RollbackFailed? ==>
              exists b :: r.error.backup == [b, PREVIOUS] && Lookup(old(disk.heap), p, b) == None
    ensures r.Err? && r.error.IoPath? && r.error.op == "rename_staged" && overwrite
            && Lookup(old(disk.heap), p, dest).Some? ==>
              exists b, holder :: LeftHolder(old(disk.heap), disk.heap, p, b, holder)
    ensures old(disk.Quiet()) ==>
              (r.Ok? <==> if overwrite then Replaceable(old(disk.heap), p, dest)
                          else Lookup(old(disk.heap), p, dest) == None)
              && (r.Err? ==> if overwrite then r.error.Validation?
                             else r == Err(IoPath("rename_staged", AlreadyExists)))
    ensures r.Err? && r.error.IoPath? && r.error.op == "rename_staged" ==> Lookup(disk.heap, p, stagedLeaf) == None
  {
    ghost var h0 := disk.heap;
    var backup: Option<(Name, Ino)> := None;
    if overwrite {
      var moved := MoveAside(disk, names, p, stagedLeaf, dest);
      GivenUpSafe(h0, p, stagedLeaf, dest);
      if moved.Err? {
        GivenUpKeeps(h0, disk.heap, p, stagedLeaf, dest);
        return Err(moved.error);
      }
      backup := moved.value;
      ReadySafe(h0, disk.heap, p, stagedLeaf, dest, backup);
    }
    r := Install(disk, p, stagedLeaf, dest, overwrite, backup, h0);
  }

  /** A rollback that worked leaves its empty holder behind. */
  ghost predicate LeftHolder(h0: Heap, h: Heap, p: Ino, leaf: Name, holder: Ino) {
    && Lookup(h0, p, leaf) == None && holder !in h0
    && Lookup(h, p, leaf) == Some(holder) && holder in h && h[holder] == Dir(map[])
  }

  lemma GivenUpSafe(h0: Heap, p: Ino, stagedLeaf: Name, dest: Name)
    requires Wf(h0) && stagedLeaf != dest && Lookup(h0, p, stagedLeaf).Some?
    ensures forall h :: GivenUp(h0, h, p, stagedLeaf, dest) ==>
              Safe(h0, h, p, dest, Lookup(h0, p, stagedLeaf).value)
  {
    forall h | GivenUp(h0, h, p, stagedLeaf, dest)
      ensures Safe(h0, h, p, dest, Lookup(h0, p, stagedLeaf).value)
    {
      GivenUpKeeps(h0, h, p, stagedLeaf, dest);
    }
  }

  lemma ReadySafe(h0: Heap, h: Heap, p: Ino, stagedLeaf: Name, dest: Name, backup: Option<(Name, Ino)>)
    requires Wf(h0) && stagedLeaf != dest && Ready(h0, h, p, dest, backup)
    requires Lookup(h0, p, stagedLeaf).Some? && IsDir(h0, Lookup(h0, p, stagedLeaf).value)
    ensures Safe(h0, h, p, dest, Lookup(h0, p, stagedLeaf).value)
  {
    if backup.Some? {
      AsideSettled(h0, h, p, stagedLeaf, dest, backup);
      AsideSafe(h0, h, h, p, stagedLeaf, dest, backup.value.0, backup.value.1);
    } else if Lookup(h0, p, dest).Some? {
      assert SameTree(h0, h0, Lookup(h0, p, dest).value);
    }
  }

  /** Lines 848-902: the rename that makes the staged tree visible, and what follows it. */
  method Install(disk: Disk, p: Ino, stagedLeaf: Name, dest: Name, overwrite: bool, backup: Option<(Name, Ino)>,
      ghost h0: Heap)
    returns (r: Result<(), DirectoryError>)
    requires disk.Valid() && Wf(h0) && IsDir(h0, p) && stagedLeaf != dest
    requires Lookup(h0, p, stagedLeaf).Some? && IsDir(h0, Lookup(h0, p, stagedLeaf).value)
    requires Ready(h0, disk.heap, p, dest, backup) && (!overwrite ==> backup == None)
    modifies disk
    ensures IsDir(disk.heap, p)
    ensures old(disk.Quiet()) ==> Lookup(disk.heap, p, stagedLeaf) == None
    ensures disk.Valid() && disk.clock >= old(disk.clock) && old(disk.history) <= disk.history
    ensures Outcome(h0, disk.heap, p, stagedLeaf, dest, r)
    ensures forall k :: |old(disk.history)| <= k < |disk.history| ==>
              Safe(h0, disk.history[k], p, dest, Lookup(h0, p, stagedLeaf).value)
    ensures r.Ok? || r.error.CommittedButUnsynced? ==>
              IsDir(disk.heap, p)
              && disk.heap[p].entries == (h0[p].entries - {stagedLeaf})[dest := Lookup(h0, p, stagedLeaf).value]
    ensures !overwrite && Lookup(h0, p, dest).Some? ==> !Committed(r)
    ensures r.Err? && r.error.RollbackFailed? ==>
              backup.Some? && r.error.backup == [backup.value.0, PREVIOUS]
    ensures !Committed(r) && !r.error.RollbackFailed? && backup.Some? ==>
              LeftHolder(h0, disk.heap, p, backup.value.0, backup.value.1)
    ensures old(disk.Quiet()) && (Lookup(h0, p, dest) == None || backup.Some?) ==> r.Ok?
    ensures old(disk.Quiet()) && !overwrite && Lookup(h0, p, dest).Some? ==>
              r == Err(IoPath("rename_staged", AlreadyExists))
    ensures r.Err? && r.error.IoPath? ==> Lookup(disk.heap, p, stagedLeaf) == None
  {
    ghost var hc := disk.heap;
    AsideSettled(h0, hc, p, stagedLeaf, dest, backup);
    ReadySafe(h0, hc, p, stagedLeaf, dest, backup);
    var renamed := RenameStaged(disk, p, stagedLeaf, dest, overwrite, backup, h0);
    if renamed.Err? {
      var e := RollBack(disk, p, stagedLeaf, dest, backup, renamed.error, h0);
      r := Err(e);
    } else {
      InstalledSafe(h0, hc, disk.heap, p, stagedLeaf, dest, backup);
      r := FinishCommit(disk, p, stagedLeaf, dest, backup, h0, hc);
    }
  }

  lemma InstalledSafe(h0: Heap, hc: Heap, h: Heap, p: Ino, stagedLeaf: Name, dest: Name, backup: Option<(Name, Ino)>)
    requires Wf(h0) && stagedLeaf != dest && Ready(h0, hc, p, dest, backup)
    requires Lookup(h0, p, stagedLeaf).Some? && IsDir(h0, Lookup(h0, p, stagedLeaf).value)
    requires IsDir(hc, p) && Lookup(hc, p, stagedLeaf) == Lookup(h0, p, stagedLeaf)
    requires h == Attach(Detach(hc, p, stagedLeaf), p, dest, Lookup(h0, p, stagedLeaf).value)
    ensures Safe(h0, h, p, dest, Lookup(h0, p, stagedLeaf).value)
  {
    InstalledFacts(h0, hc, h, p, stagedLeaf, dest, backup);
  }

  method RenameStaged(disk: Disk, p: Ino, stagedLeaf: Name, dest: Name, overwrite: bool,
      ghost backup: Option<(Name, Ino)>, ghost h0: Heap)
    returns (r: Result<(), IoKind>)
    requires disk.Valid() && Wf(h0) && IsDir(h0, p) && stagedLeaf != dest
    requires Lookup(h0, p, stagedLeaf).Some? && IsDir(h0, Lookup(h0, p, stagedLeaf).value)
    requires Ready(h0, disk.heap, p, dest, backup) && (!overwrite ==> backup == None)
    modifies disk
    ensures disk.Valid() && disk.history == old(disk.history) + [disk.heap] && disk.clock == old(disk.clock) + 1
    ensures r.Ok? ==>
              disk.heap == Attach(Detach(old(disk.heap), p, stagedLeaf), p, dest, Lookup(h0, p, stagedLeaf).value)
    ensures r.Err? ==> disk.heap == old(disk.heap)
    ensures !overwrite && Lookup(h0, p, dest).Some? ==> r.Err?
    ensures old(disk.Quiet()) && !overwrite && Lookup(h0, p, dest).Some? ==> r == Err(AlreadyExists)
    ensures old(disk.Quiet()) && (Lookup(h0, p, dest) == None || backup.Some?) ==> r.Ok?
  {
    ghost var hc := disk.heap;
    AsideSettled(h0, hc, p, stagedLeaf, dest, backup);
    HolderNotBelow(hc, p, stagedLeaf);
    SameEntryTwice(hc, p, stagedLeaf, dest);
    if backup.Some? {
      AsideFacts(h0, p, dest, backup.value.0, backup.value.1);
    }
    if overwrite {
      r := disk.Rename(p, stagedLeaf, p, dest);
    } else {
      r := disk.RenameNoReplace(p, stagedLeaf, p, dest);
    }
  }

  /** A directory has one name, so renaming it is never the no-op of two names for one inode. */
  lemma SameEntryTwice(h: Heap, p: Ino, n: Name, m: Name)
    requires Wf(h) && n != m && Lookup(h, p, n).Some? && IsDir(h, Lookup(h, p, n).value)
    ensures Lookup(h, p, m) != Lookup(h, p, n)
  {
  }
}
