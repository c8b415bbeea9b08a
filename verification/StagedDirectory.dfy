/** The staged directory object: sync, commit, and the clean-up when it is dropped
    (crates/omne-fs-primitives/src/atomic_write.rs). */
module StagedDirectory {
  import opened Wrappers
  import opened Filesystem
  import opened HeapUpdates
  import opened Disks
  import opened StagedNames
  import opened AtomicDirectory

  // ---------------------------------------------------------------- dropping after a commit

  lemma SameTreeTrans(h0: Heap, h1: Heap, h2: Heap, i: Ino)
    requires Closed(h0) && SameTree(h0, h1, i) && SameTree(h1, h2, i)
    ensures SameTree(h0, h2, i)
  {
    SameTreeSubtree(h0, h1, i);
  }

  lemma SweptSibling(hc: Heap, h: Heap, p: Ino, leaf: Name, n: Name)
    requires Wf(hc) && n != leaf && Lookup(hc, p, n).Some? && Lookup(hc, p, leaf).Some?
    requires Swept(hc, h, p, leaf, Subtree(hc, Lookup(hc, p, leaf).value))
    ensures SameTree(hc, h, Lookup(hc, p, n).value)
  {
    SiblingSubtreesApart(hc, p, n, leaf);
    HolderNotBelow(hc, p, n);
  }

  lemma SweptKeeps(h0: Heap, hc: Heap, h: Heap, p: Ino, leaf: Name, n: Name, i: Ino)
    requires Wf(h0) && Wf(hc) && n != leaf && Lookup(hc, p, leaf).Some?
    requires Holds(h0, hc, p, n, i)
    requires Swept(hc, h, p, leaf, Subtree(hc, Lookup(hc, p, leaf).value))
    ensures Holds(h0, h, p, n, i)
  {
    SweptSibling(hc, h, p, leaf, n);
    SameTreeTrans(h0, hc, h, i);
  }

  lemma SweptRecoverable(h0: Heap, hc: Heap, h: Heap, p: Ino, leaf: Name, b: Name, d: Ino)
    requires Wf(h0) && Wf(hc) && b != leaf && Lookup(hc, p, leaf).Some?
    requires RecoverableAt(h0, hc, p, [b, PREVIOUS], d)
    requires Swept(hc, h, p, leaf, Subtree(hc, Lookup(hc, p, leaf).value))
    ensures RecoverableAt(h0, h, p, [b, PREVIOUS], d)
  {
    assert [b, PREVIOUS][1..] == [PREVIOUS] && [PREVIOUS][1..] == [];
    assert Lookup(hc, p, b).Some?;
    var k := Lookup(hc, p, b).value;
    SweptSibling(hc, h, p, leaf, b);
    SameWalk(hc, h, k, [PREVIOUS]);
    forall x | x in Subtree(hc, d)
      ensures x in Subtree(hc, k)
    {
      var q :| Walk(hc, d, q) == Some(x);
      WalkAppend(hc, k, [PREVIOUS], q);
    }
    assert SameTree(hc, h, d) by { WalkInHeap(hc, k, [PREVIOUS]); }
    SameTreeTrans(h0, hc, h, d);
    assert Lookup(h, p, b) == Some(k);
  }

  /** Whatever dropping the staged name removes, the commit's promise stands. */
  lemma DropKeepsOutcome(h0: Heap, hc: Heap, h: Heap, p: Ino, stagedLeaf: Name, dest: Name,
      r: Result<(), DirectoryError>)
    requires Wf(h0) && Wf(hc) && stagedLeaf != dest && Lookup(h0, p, stagedLeaf).Some?
    requires Outcome(h0, hc, p, stagedLeaf, dest, r) && Lookup(hc, p, stagedLeaf).Some?
    requires r.Err? && r.error.RollbackFailed? ==>
               exists b :: r.error.backup == [b, PREVIOUS] && Lookup(h0, p, b) == None
    requires Swept(hc, h, p, stagedLeaf, Subtree(hc, Lookup(hc, p, stagedLeaf).value))
    ensures Outcome(h0, h, p, stagedLeaf, dest, r)
  {
    forall n, i | n != stagedLeaf && Holds(h0, hc, p, n, i)
      ensures Holds(h0, h, p, n, i)
    {
      SweptKeeps(h0, hc, h, p, stagedLeaf, n, i);
    }
    forall n | n != stagedLeaf && n != dest && Lookup(h0, p, n).Some?
      ensures Kept(h0, h, p, n)
    {
      assert Kept(h0, hc, p, n);
      assert Holds(h0, hc, p, n, Lookup(h0, p, n).value);
    }
    if !Committed(r) && !r.error.RollbackFailed? && Lookup(h0, p, dest).Some? {
      assert Holds(h0, hc, p, dest, Lookup(h0, p, dest).value);
    }
    if r.Err? && r.error.RollbackFailed? {
      var b :| r.error.backup == [b, PREVIOUS] && Lookup(h0, p, b) == None;
      SweptRecoverable(h0, hc, h, p, stagedLeaf, b, Lookup(h0, p, dest).value);
    }
  }

  lemma OutcomeIsSafe(h0: Heap, h: Heap, p: Ino, stagedLeaf: Name, dest: Name, r: Result<(), DirectoryError>)
    requires Lookup(h0, p, stagedLeaf).Some? && Outcome(h0, h, p, stagedLeaf, dest, r)
    requires r.Err? && r.error.RollbackFailed? ==> exists b :: r.error.backup == [b, PREVIOUS]
    ensures Safe(h0, h, p, dest, Lookup(h0, p, stagedLeaf).value)
  {
  }

  // ---------------------------------------------------------------- syncing the tree

  ghost predicate Supported(h: Heap, i: Ino) {
    forall x :: x in Subtree(h, i) ==> !h[x].Special?
  }

  lemma ChildSubtree(h: Heap, d: Ino, n: Name)
    requires Wf(h) && Lookup(h, d, n).Some?
    ensures Subtree(h, Lookup(h, d, n).value) < Subtree(h, d)
  {
    var c := Lookup(h, d, n).value;
    forall x | x in Subtree(h, c)
      ensures x in Subtree(h, d)
    {
      var q :| Walk(h, c, q) == Some(x);
      assert ([n] + q)[1..] == q;
      assert Walk(h, d, [n] + q) == Some(x);
    }
    HolderNotBelow(h, d, n);
    SubtreeSelf(h, d);
  }

  lemma SupportedByChildren(h: Heap, d: Ino)
    requires IsDir(h, d) && forall n :: n in h[d].entries ==> Supported(h, h[d].entries[n])
    ensures Supported(h, d)
  {
    forall x | x in Subtree(h, d)
      ensures !h[x].Special?
    {
      var q :| Walk(h, d, q) == Some(x);
      if q != [] {
        var c := h[d].entries[q[0]];
        assert Walk(h, c, q[1..]) == Some(x);
        assert x in Subtree(h, c);
      }
    }
  }

  lemma LeafSupported(h: Heap, i: Ino)
    requires i in h && !h[i].Dir? && !h[i].Special?
    ensures Supported(h, i)
  {
    forall q | Walk(h, i, q).Some? ensures q == [] { }
  }

  /** `sync_directory_tree`: visits every entry below `d`; anything but directories, files and links
      is refused. */
  method SyncDirectoryTree(disk: Disk, d: Ino) returns (r: Result<(), DirectoryError>)
    requires disk.Valid() && IsDir(disk.heap, d)
    modifies disk
    ensures disk.Valid() && disk.Watched()
    ensures r.Ok? ==> Supported(disk.heap, d)
    ensures r.Err? ==> r.error.IoPath? || r.error.Validation?
    ensures old(disk.Quiet()) ==> (r.Ok? <==> Supported(disk.heap, d))
    decreases Subtree(disk.heap, d), 1
  {
    ghost var h := disk.heap;
    var listed := disk.Metadata(d);
    if listed.Err? {
      return Err(IoPath("read_dir", listed.error));
    }
    var entries := disk.heap[d].entries;
    var todo := entries.Keys;
    while todo != {}
      invariant disk.Valid() && disk.Watched()
      invariant todo <= entries.Keys
      invariant forall n :: n in entries && n !in todo ==> Supported(h, entries[n])
      decreases todo
    {
      var n :| n in todo;
      todo := todo - {n};
      r := SyncEntry(disk, d, n);
      if r.Err? {
        UnsupportedChild(h, d, n);
        return;
      }
    }
    SupportedByChildren(h, d);
    var synced := disk.Sync();
    r := if synced.Ok? then Ok(()) else Err(IoPath("sync", synced.error));
  }

  method SyncEntry(disk: Disk, d: Ino, n: Name) returns (r: Result<(), DirectoryError>)
    requires disk.Valid() && Lookup(disk.heap, d, n).Some?
    modifies disk
    ensures disk.Valid() && disk.Watched()
    ensures r.Ok? ==> Supported(disk.heap, Lookup(disk.heap, d, n).value)
    ensures r.Err? ==> r.error.IoPath? || r.error.Validation?
    ensures old(disk.Quiet()) ==> (r.Ok? <==> Supported(disk.heap, Lookup(disk.heap, d, n).value))
    decreases Subtree(disk.heap, d), 0
  {
    ghost var h := disk.heap;
    var i := Lookup(disk.heap, d, n).value;
    ChildSubtree(h, d, n);
    SubtreeSelf(h, i);
    var kind := disk.SymlinkMetadata(d, n);
    match kind {
      case Err(k) =>
        r := Err(IoPath("file_type", k));
      case Ok(KDir) =>
        var child := disk.OpenDirNofollow(d, n);
        if child.Err? {
          return Err(IoPath("open_dir", child.error));
        }
        r := SyncDirectoryTree(disk, child.value);
      case Ok(KFile) =>
        LeafSupported(h, i);
        var file := disk.OpenNofollow(d, n);
        if file.Err? {
          return Err(IoPath("open", file.error));
        }
        var synced := disk.Sync();
        r := if synced.Ok? then Ok(()) else Err(IoPath("sync", synced.error));
      case Ok(KSymlink) =>
        LeafSupported(h, i);
        r := Ok(());
      case Ok(KSpecial) =>
        r := Err(Validation("staged directory contains unsupported entry"));
    }
  }

  lemma UnsupportedChild(h: Heap, d: Ino, n: Name)
    requires Wf(h) && Lookup(h, d, n).Some?
    ensures Supported(h, d) ==> Supported(h, Lookup(h, d, n).value)
  {
    ChildSubtree(h, d, n);
  }

  // ---------------------------------------------------------------- the staged object

  class StagedAtomicDirectory {
    const disk: Disk
    const names: NameSource
    const parent: Ino
    const stagedLeaf: Name
    const dest: Name
    const overwrite: bool
    var stagedRoot: Option<Ino>

    ghost predicate Valid()
      reads this, disk
    {
      && disk.Valid() && IsDir(disk.heap, parent) && stagedLeaf != dest
      && (stagedRoot.Some? ==> Lookup(disk.heap, parent, stagedLeaf) == stagedRoot
                               && IsDir(disk.heap, stagedRoot.value))
    }

    constructor (disk: Disk, names: NameSource, parent: Ino, stagedLeaf: Name, dest: Name, overwrite: bool, root: Ino)
      requires disk.Valid() && stagedLeaf != dest
      requires Lookup(disk.heap, parent, stagedLeaf) == Some(root) && IsDir(disk.heap, root)
      ensures Valid() && stagedRoot == Some(root) && this.disk == disk && this.names == names && this.parent == parent
      ensures this.stagedLeaf == stagedLeaf && this.dest == dest && this.overwrite == overwrite
    {
      this.disk, this.names, this.parent := disk, names, parent;
      this.stagedLeaf, this.dest, this.overwrite := stagedLeaf, dest, overwrite;
      this.stagedRoot := Some(root);
    }

    /** `commit`, up to and including the drop of the consumed object. */
    method Commit() returns (r: Result<(), DirectoryError>)
      requires Valid() && NamesUnused(disk.heap, parent, names)
      modifies this, disk, names
      ensures Valid() && stagedRoot == None && old(disk.history) <= disk.history
      ensures old(stagedRoot) == None ==> r.Err? && r.error.Validation?
      ensures old(stagedRoot).Some? ==>
                && Outcome(old(disk.heap), disk.heap, parent, stagedLeaf, dest, r)
                && (Committed(r) ==> Supported(old(disk.heap), old(stagedRoot).value))
                && (r.Ok? ==> disk.heap[parent].entries
                              == (old(disk.heap)[parent].entries - {stagedLeaf})[dest := old(stagedRoot).value])
                && (forall k :: |old(disk.history)| <= k < |disk.history| ==>
                      Safe(old(disk.heap), disk.history[k], parent, dest, old(stagedRoot).value))
      ensures !overwrite && Lookup(old(disk.heap), parent, dest).Some? ==> r.Err? && !Committed(r)
      ensures old(disk.Quiet()) && old(stagedRoot).Some? ==> Lookup(disk.heap, parent, stagedLeaf) == None
      ensures old(disk.Quiet()) && old(stagedRoot).Some? ==>
                (r.Ok? <==> Supported(old(disk.heap), old(stagedRoot).value)
                            && Admits(old(disk.heap), parent, dest, overwrite))
    {
      r := CommitStaged();
      Drop(r, old(disk.heap));
    }

    method CommitStaged() returns (r: Result<(), DirectoryError>)
      requires Valid() && NamesUnused(disk.heap, parent, names)
      modifies this, disk, names
      ensures Valid() && stagedRoot == None && old(disk.history) <= disk.history
      ensures old(stagedRoot) == None ==> r.Err? && r.error.Validation? && disk.heap == old(disk.heap)
      ensures old(stagedRoot).Some? ==>
                && Outcome(old(disk.heap), disk.heap, parent, stagedLeaf, dest, r)
                && (Committed(r) ==> Supported(old(disk.heap), old(stagedRoot).value))
                && (r.Ok? ==> disk.heap[parent].entries
                              == (old(disk.heap)[parent].entries - {stagedLeaf})[dest := old(stagedRoot).value])
                && (forall k :: |old(disk.history)| <= k < |disk.history| ==>
                      Safe(old(disk.heap), disk.history[k], parent, dest, old(stagedRoot).value))
                && BackupNamed(old(disk.heap), parent, r)
      ensures !overwrite && Lookup(old(disk.heap), parent, dest).Some? ==> r.Err? && !Committed(r)
      ensures old(disk.Quiet()) && old(stagedRoot).Some? ==>
                Lookup(disk.heap, parent, stagedLeaf) == None || (r.Err? && disk.heap == old(disk.heap))
      ensures disk.clock >= old(disk.clock)
      ensures old(disk.Quiet()) && old(stagedRoot).Some? ==>
                (r.Ok? <==> Supported(old(disk.heap), old(stagedRoot).value)
                            && Admits(old(disk.heap), parent, dest, overwrite))
    {
      if stagedRoot == None {
        return Err(Validation("staged directory is no longer available"));
      }
      var root := stagedRoot.value;
      UnchangedOutcome(disk.heap, parent, stagedLeaf, dest, root);
      stagedRoot := None;
      var meta := disk.Metadata(root);
      if meta.Err? {
        return Err(IoPath("metadata", meta.error));
      }
      r := SyncDirectoryTree(disk, root);
      if r.Ok? {
        r := CommitReplaceDirectory(disk, names, parent, stagedLeaf, dest, overwrite);
      }
    }

    /** `Drop`: forget the handle and remove whatever still has the staged name. */
    method Drop(ghost r: Result<(), DirectoryError>, ghost h0: Heap)
      requires Valid() && Wf(h0)
      requires Lookup(h0, parent, stagedLeaf).Some? ==>
                 Outcome(h0, disk.heap, parent, stagedLeaf, dest, r) && BackupNamed(h0, parent, r)
      modifies this, disk
      ensures Valid() && stagedRoot == None && old(disk.history) <= disk.history
      ensures Lookup(h0, parent, stagedLeaf).Some? ==>
                && Outcome(h0, disk.heap, parent, stagedLeaf, dest, r)
                && (forall k :: |old(disk.history)| <= k < |disk.history| ==>
                      Safe(h0, disk.history[k], parent, dest, Lookup(h0, parent, stagedLeaf).value))
      ensures old(Lookup(disk.heap, parent, stagedLeaf)) == None ==> disk.heap == old(disk.heap)
      ensures old(disk.Quiet()) && (old(Lookup(disk.heap, parent, stagedLeaf).Some?) ==>
                !KeepsName(old(disk.heap), old(Lookup(disk.heap, parent, stagedLeaf).value))) ==>
                Lookup(disk.heap, parent, stagedLeaf) == None
    {
      stagedRoot := None;
      ghost var hc, from := disk.heap, |disk.history|;
      var gone := disk.RemoveDirAll(parent, stagedLeaf);
      if Lookup(hc, parent, stagedLeaf).Some? {
        RemovedIsSwept(hc, disk.history[from], disk.heap, parent, stagedLeaf, gone.Ok?);
      }
      if Lookup(h0, parent, stagedLeaf).Some? {
        OutcomeIsSafe(h0, hc, parent, stagedLeaf, dest, r);
        if Lookup(hc, parent, stagedLeaf).Some? {
          forall h: Heap | Swept(hc, h, parent, stagedLeaf, Subtree(hc, Lookup(hc, parent, stagedLeaf).value))
            ensures Outcome(h0, h, parent, stagedLeaf, dest, r)
            ensures Safe(h0, h, parent, dest, Lookup(h0, parent, stagedLeaf).value)
          {
            DropKeepsOutcome(h0, hc, h, parent, stagedLeaf, dest, r);
            OutcomeIsSafe(h0, h, parent, stagedLeaf, dest, r);
          }
        }
      }
    }
  }

  /** A new directory may go there: over a directory or nothing, or, without overwriting, over nothing. */
  ghost predicate Admits(h: Heap, p: Ino, dest: Name, overwrite: bool) {
    if overwrite then Lookup(h, p, dest).Some? ==> IsDir(h, Lookup(h, p, dest).value)
    else Lookup(h, p, dest) == None
  }

  ghost predicate BackupNamed(h0: Heap, p: Ino, r: Result<(), DirectoryError>) {
    r.Err? && r.error.RollbackFailed? ==>
      exists b :: r.error.backup == [b, PREVIOUS] && Lookup(h0, p, b) == None
  }

  lemma UnchangedOutcome(h: Heap, p: Ino, stagedLeaf: Name, dest: Name, root: Ino)
    requires Wf(h) && Lookup(h, p, stagedLeaf) == Some(root)
    ensures forall e: DirectoryError :: e.IoPath? || e.Validation? ==> Outcome(h, h, p, stagedLeaf, dest, Err(e))
    ensures Safe(h, h, p, dest, root)
  {
    assert forall n :: Lookup(h, p, n).Some? ==> SameTree(h, h, Lookup(h, p, n).value);
    assert Kept(h, h, p, dest);
  }
}
