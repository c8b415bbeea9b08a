/** Installing an archive tree: stage a directory, extract into it, commit it
    (crates/omne-artifact-install-primitives/src/archive_tree.rs). */
module TreeInstall {
  import opened Wrappers
  import opened Filesystem
  import opened Primitives
  import opened HeapUpdates
  import opened Disks
  import opened StagedNames
  import opened AtomicDirectory
  import opened StagedDirectory
  import opened TreeView
  import opened ArchiveLeaves
  import opened CaseCollision
  import opened Extractability
  import opened DeclaredTrees
  import opened TreeExtraction

  const STAGED_TREE_TAG := ".tmpdir-"

  function StagedTreePrefix(dest: Name): string {
    "." + dest + STAGED_TREE_TAG
  }

  // ---------------------------------------------------------------- frames

  /** Only the directory `root` and inodes that are new differ. */
  ghost predicate OnlyInside(h0: Heap, h: Heap, root: Ino) {
    forall x :: x in h0 && x != root ==> x in h && h[x] == h0[x]
  }

  lemma {:induction false} EmptyDirBelow(h: Heap, root: Ino, p: Route)
    requires IsDir(h, root) && h[root].entries == map[]
    ensures Walk(h, root, p) == if p == [] then Some(root) else None
  {
  }

  /** Extraction into a new directory touches nothing else. */
  lemma ExtractionInside(h1: Heap, h2: Heap, root: Ino)
    requires IsDir(h1, root) && h1[root].entries == map[] && Evolves(h1, h2, root)
    ensures OnlyInside(h1, h2, root) && Fresh(h1, root)
  {
    forall p
      ensures Walk(h1, root, p) == if p == [] then Some(root) else None
    {
      EmptyDirBelow(h1, root, p);
    }
  }

  /** Staging and extracting leave every other entry of the parent as it was. */
  lemma StagedKeeps(h0: Heap, h1: Heap, h2: Heap, p: Ino, leaf: Name, root: Ino)
    requires Wf(h0) && IsDir(h0, p) && root !in h0 && Lookup(h0, p, leaf) == None
    requires h1 == Attach(h0[root := Dir(map[])], p, leaf, root) && OnlyInside(h1, h2, root)
    ensures forall n :: n != leaf ==> Kept(h0, h2, p, n)
    ensures Lookup(h2, p, leaf) == Some(root) && IsDir(h2, p)
  {
    forall n | n != leaf
      ensures Kept(h0, h2, p, n)
    {
      if Lookup(h0, p, n).Some? {
        HolderNotBelow(h0, p, n);
      }
    }
  }

  lemma KeptTrans(h0: Heap, h1: Heap, h2: Heap, p: Ino, n: Name)
    requires Wf(h0) && Kept(h0, h1, p, n) && Kept(h1, h2, p, n)
    ensures Kept(h0, h2, p, n)
  {
    if Lookup(h0, p, n).Some? {
      SameTreeTrans(h0, h1, h2, Lookup(h0, p, n).value);
    }
  }

  /** A tree moved as a whole still shows what it showed. */
  lemma MovedComplete(h: Heap, h': Heap, root: Ino, entries: seq<Declared>, inos: map<Route, Ino>)
    requires Closed(h) && SameTree(h, h', root) && Complete(h, root, entries, inos)
    ensures Complete(h', root, entries, inos)
  {
    forall p
      ensures See(h', root, p) == See(h, root, p)
    {
      MovedSees(h, h', root, p);
    }
    SameViewComplete(h, h', root, entries, inos);
  }

  lemma MovedSees(h: Heap, h': Heap, root: Ino, p: Route)
    requires Closed(h) && SameTree(h, h', root)
    ensures See(h', root, p) == See(h, root, p)
  {
    SameWalk(h, h', root, p);
    if Walk(h, root, p).Some? {
      WalkInHeap(h, root, p);
      assert Walk(h, root, p).value in Subtree(h, root);
    }
  }

  lemma SameViewComplete(h: Heap, h': Heap, root: Ino, entries: seq<Declared>, inos: map<Route, Ino>)
    requires Complete(h, root, entries, inos) && forall p :: See(h', root, p) == See(h, root, p)
    ensures Complete(h', root, entries, inos)
  {
    forall k | 0 <= k < |entries|
      ensures ShownAt(h', root, entries[k], inos)
      ensures entries[k].content.HardLinkEntry? ==> Joined(h', root, entries[k])
    {
      assert ShownAt(h, root, entries[k], inos);
    }
    forall p | See(h', root, p) != Absent
      ensures p == [] || exists k :: 0 <= k < |entries| && IsPrefix(p, entries[k].path)
    {
      assert See(h, root, p) != Absent;
    }
  }

  lemma StillUnused(h0: Heap, h2: Heap, p: Ino, dest: Name, names: NameSource, k: nat, from: nat)
    requires from <= k < names.sequence
    requires forall prefix, j: nat :: j >= from ==> Lookup(h0, p, names.NameAt(prefix, "", j)) == None
    requires forall n :: n != names.NameAt(StagedTreePrefix(dest), "", k) ==> Lookup(h2, p, n) == Lookup(h0, p, n)
    ensures NamesUnused(h2, p, names)
  {
    forall prefix, j: nat | j >= names.sequence
      ensures Lookup(h2, p, names.NameAt(prefix, "", j)) == None
    {
      GeneratedNamesDiffer(prefix, names.pid, names.nanos(j), j, StagedTreePrefix(dest), names.pid, names.nanos(k), k, "");
    }
  }

  // ---------------------------------------------------------------- when nothing fails

  /** The staged tree's name ends in a digit, and the staged leaves' names do not. */
  lemma StagedTreeIsNoLeaf(dest: Name, names: NameSource, j: nat, leafNames: NameSource, purpose: string, k: nat)
    ensures names.NameAt(StagedTreePrefix(dest), "", j) != LeafAt(leafNames, purpose, k)
  {
    var tree, leaf := names.NameAt(StagedTreePrefix(dest), "", j), LeafAt(leafNames, purpose, k);
    assert tree[|tree|-1] == Hex(j)[|Hex(j)|-1];
    LastOfHex(j);
    assert leaf[|leaf|-1] == ".tmp"[3] == 'p';
  }

  lemma LastOfHex(n: nat)
    ensures Hex(n)[|Hex(n)|-1] == HexDigit(n % 16)
  {
  }

  /** Making the staged directory leaves the leaves' names free. */
  lemma StagedSerene(h0: Heap, h1: Heap, p: Ino, leaf: Name, root: Ino, dest: Name, names: NameSource, j: nat, leafNames: NameSource)
    requires Wf(h0) && IsDir(h0, p) && root !in h0 && leaf == names.NameAt(StagedTreePrefix(dest), "", j)
    requires h1 == Attach(h0[root := Dir(map[])], p, leaf, root) && Unclaimed(h0, leafNames)
    ensures Unclaimed(h1, leafNames)
  {
    forall d, purpose, k: nat | k >= leafNames.sequence
      ensures Lookup(h1, d, LeafAt(leafNames, purpose, k)) == None
    {
      StagedTreeIsNoLeaf(dest, names, j, leafNames, purpose, k);
      assert Lookup(h0, d, LeafAt(leafNames, purpose, k)) == None;
    }
  }

  /** What is declared contains no special files. */
  lemma CompleteIsSupported(h: Heap, root: Ino, entries: seq<Declared>, inos: map<Route, Ino>)
    requires IsDir(h, root) && Complete(h, root, entries, inos)
    ensures Supported(h, root)
  {
    forall x | x in Subtree(h, root)
      ensures !h[x].Special?
    {
      var q :| Walk(h, root, q) == Some(x);
      assert See(h, root, q) == Look(h, x);
      if q != [] {
        var k :| 0 <= k < |entries| && IsPrefix(q, entries[k].path);
        if q == entries[k].path {
          assert ShownAt(h, root, entries[k], inos);
        } else {
          assert IsProperPrefix(q, entries[k].path);
        }
      }
    }
  }

  /** The archive declares a tree that can be extracted within the limits. */
  ghost predicate Installable(archive: seq<ArchiveEntry>, limits: Limits, caseSensitive: bool) {
    AllDeclare(archive) && WithinLimits(archive, limits) && Extractable(Entries(archive), caseSensitive)
  }

  // ---------------------------------------------------------------- the installation

  /** What each way to end means for the destination. */
  ghost predicate Installed(h0: Heap, h: Heap, p: Ino, dest: Name, r: Result<(), DirectoryError>,
      entries: seq<Declared>, inos: map<Route, Ino>) {
    && (Committed(r) && PathsDistinct(entries) ==>
          Lookup(h, p, dest).Some? && Complete(h, Lookup(h, p, dest).value, entries, inos))
    && (!Committed(r) && !r.error.RollbackFailed? ==> Kept(h0, h, p, dest))
    && (r.Err? && r.error.RollbackFailed? ==>
          Lookup(h0, p, dest).Some? && RecoverableAt(h0, h, p, r.error.backup, Lookup(h0, p, dest).value))
    && (forall n :: n != dest && Lookup(h0, p, n).Some? ==> Kept(h0, h, p, n))
  }

  /** From the state with the extracted tree, `h2`, to the end of the commit, `h`. */
  lemma CommitInstalls(h0: Heap, h2: Heap, h: Heap, p: Ino, leaf: Name, dest: Name, r: Result<(), DirectoryError>,
      entries: seq<Declared>, inos: map<Route, Ino>)
    requires Wf(h0) && Wf(h2) && leaf != dest && Lookup(h0, p, leaf) == None && Lookup(h2, p, leaf).Some?
    requires forall n :: n != leaf ==> Kept(h0, h2, p, n)
    requires Outcome(h2, h, p, leaf, dest, r)
    requires Committed(r) && PathsDistinct(entries) ==> Complete(h2, Lookup(h2, p, leaf).value, entries, inos)
    ensures Installed(h0, h, p, dest, r, entries, inos)
  {
    var root := Lookup(h2, p, leaf).value;
    if Committed(r) && PathsDistinct(entries) {
      MovedComplete(h2, h, root, entries, inos);
    }
    if !Committed(r) && !r.error.RollbackFailed? {
      KeptTrans(h0, h2, h, p, dest);
    }
    if r.Err? && r.error.RollbackFailed? {
      SameTreeTrans(h0, h2, h, Lookup(h0, p, dest).value);
    }
    forall n | n != dest && Lookup(h0, p, n).Some?
      ensures Kept(h0, h, p, n)
    {
      assert Kept(h0, h2, p, n);
      KeptTrans(h0, h2, h, p, n);
    }
  }

  /** `install_archive_tree_from_reader_with_limits`, under its lock. The destination ends up as the
      complete tree the archive declares, or it is what it was before; if even the rollback failed,
      the old tree is whole at the reported place. */
  method InstallArchiveTree(disk: Disk, names: NameSource, leafNames: NameSource, p: Ino, dest: Name, overwrite: bool,
      caseSensitive: bool, archive: seq<ArchiveEntry>, limits: Limits)
    returns (r: Result<(), DirectoryError>, ghost entries: seq<Declared>, ghost inos: map<Route, Ino>)
    requires disk.Valid() && IsDir(disk.heap, p) && NamesUnused(disk.heap, p, names) && leafNames != names
    requires limits.maxBytes <= U64_MAX && limits.maxEntries <= U64_MAX
    requires forall k :: 0 <= k < |archive| ==> Decoded(archive[k])
    modifies disk, names, leafNames
    ensures disk.Valid()
    ensures Installed(old(disk.heap), disk.heap, p, dest, r, entries, inos)
    ensures Committed(r) ==> WithinLimits(archive, limits) && Declaration(archive, entries) && Sound(entries)
    ensures Committed(r) && DeclaresDistinct(archive) ==>
              Lookup(disk.heap, p, dest).Some? && AllAsArchived(disk.heap, Lookup(disk.heap, p, dest).value, archive)
    ensures Committed(r) && !caseSensitive ==> FoldInjective(Prefixes(PathsOf(entries)))
    ensures !overwrite && Lookup(old(disk.heap), p, dest).Some? ==> !Committed(r)
    ensures old(disk.Quiet()) && r.Ok? ==> forall n :: n != dest ==> Lookup(disk.heap, p, n) == Lookup(old(disk.heap), p, n)
    ensures old(Serene(disk, leafNames, archive)) && DeclaresDistinct(archive) ==>
              (r.Ok? <==> Installable(archive, limits, caseSensitive) && Admits(old(disk.heap), p, dest, overwrite))
  {
    ghost var h0, from := disk.heap, names.sequence;
    entries, inos := [], map[];
    var made := CreateStagedDirectory(disk, names, p, StagedTreePrefix(dest));
    if made.Err? {
      MadeKeeps(h0, disk.heap, p, dest, names);
      return Err(IoPath("create_tempdir", made.error)), entries, inos;
    }
    ghost var h1 := disk.heap;
    ghost var k: nat :| from <= k < names.sequence && made.value.0 == names.NameAt(StagedTreePrefix(dest), "", k);
    if old(Serene(disk, leafNames, archive)) {
      StagedSerene(h0, h1, p, made.value.0, made.value.1, dest, names, k, leafNames);
    }
    r, entries, inos := ExtractAndCommit(disk, names, leafNames, p, made.value.0, made.value.1, dest, overwrite,
                                         caseSensitive, archive, limits, h0, from, k);
    if Committed(r) && DeclaresDistinct(archive) {
      DeclarationIsEntries(archive, entries);
      CompleteIsAsArchived(disk.heap, Lookup(disk.heap, p, dest).value, archive, entries, inos);
    }
  }

  method ExtractAndCommit(disk: Disk, names: NameSource, leafNames: NameSource, p: Ino, leaf: Name, root: Ino,
      dest: Name, overwrite: bool,
      caseSensitive: bool, archive: seq<ArchiveEntry>, limits: Limits, ghost h0: Heap, ghost from: nat, ghost k: nat)
    returns (r: Result<(), DirectoryError>, ghost entries: seq<Declared>, ghost inos: map<Route, Ino>)
    requires disk.Valid() && Wf(h0) && IsDir(h0, p) && root !in h0 && Lookup(h0, p, leaf) == None && leafNames != names
    requires disk.heap == Attach(h0[root := Dir(map[])], p, leaf, root)
    requires from <= k < names.sequence && leaf == names.NameAt(StagedTreePrefix(dest), "", k)
    requires forall prefix, j: nat :: j >= from ==> Lookup(h0, p, names.NameAt(prefix, "", j)) == None
    requires limits.maxBytes <= U64_MAX && limits.maxEntries <= U64_MAX
    requires forall j :: 0 <= j < |archive| ==> Decoded(archive[j])
    modifies disk, names, leafNames
    ensures disk.Valid()
    ensures Installed(h0, disk.heap, p, dest, r, entries, inos)
    ensures Committed(r) ==> WithinLimits(archive, limits) && Declaration(archive, entries) && Sound(entries)
    ensures Committed(r) && !caseSensitive ==> FoldInjective(Prefixes(PathsOf(entries)))
    ensures !overwrite && Lookup(h0, p, dest).Some? ==> !Committed(r)
    ensures old(disk.Quiet()) && r.Ok? ==> forall n :: n != dest ==> Lookup(disk.heap, p, n) == Lookup(h0, p, n)
    ensures old(Serene(disk, leafNames, archive)) && DeclaresDistinct(archive) ==>
              (r.Ok? <==> Installable(archive, limits, caseSensitive) && Admits(h0, p, dest, overwrite))
  {
    GeneratedNameIsNotDestination(dest, STAGED_TREE_TAG, names.pid, names.nanos(k), k, "");
    ghost var h1 := disk.heap;
    var ok;
    ok, entries, inos := ExtractTree(disk, leafNames, root, caseSensitive, archive, limits);
    ghost var h2 := disk.heap;
    ExtractionInside(h1, h2, root);
    StagedKeeps(h0, h1, h2, p, leaf, root);
    StillUnused(h0, h2, p, dest, names, k, from);
    SameAdmits(h0, h2, p, leaf, dest, overwrite);
    if ok && DeclaresDistinct(archive) {
      DeclarationIsEntries(archive, entries);
      CompleteIsSupported(h2, root, entries, inos);
    }
    if !ok {
      entries, inos := [], map[];
    }
    r := CommitOrDrop(disk, names, p, leaf, root, dest, overwrite, ok);
    CommitInstalls(h0, h2, disk.heap, p, leaf, dest, r, entries, inos);
  }

  lemma SameAdmits(h0: Heap, h2: Heap, p: Ino, leaf: Name, dest: Name, overwrite: bool)
    requires Wf(h0) && leaf != dest && forall n :: n != leaf ==> Kept(h0, h2, p, n)
    ensures Admits(h2, p, dest, overwrite) <==> Admits(h0, p, dest, overwrite)
    ensures Lookup(h2, p, dest) == Lookup(h0, p, dest)
  {
    assert Kept(h0, h2, p, dest);
    if Lookup(h0, p, dest).Some? {
      SubtreeSelf(h0, Lookup(h0, p, dest).value);
    }
  }

  /** Extraction that failed leaves the staged object to its drop. */
  method CommitOrDrop(disk: Disk, names: NameSource, p: Ino, leaf: Name, root: Ino, dest: Name, overwrite: bool,
      ok: bool)
    returns (r: Result<(), DirectoryError>)
    requires disk.Valid() && IsDir(disk.heap, p) && leaf != dest && NamesUnused(disk.heap, p, names)
    requires Lookup(disk.heap, p, leaf) == Some(root) && IsDir(disk.heap, root)
    modifies disk, names
    ensures disk.Valid() && Outcome(old(disk.heap), disk.heap, p, leaf, dest, r)
    ensures Committed(r) ==> ok
    ensures !overwrite && Lookup(old(disk.heap), p, dest).Some? ==> !Committed(r)
    ensures r.Ok? ==> disk.heap[p].entries == (old(disk.heap)[p].entries - {leaf})[dest := root]
    ensures old(disk.Quiet()) ==>
              (r.Ok? <==> ok && Supported(old(disk.heap), root) && Admits(old(disk.heap), p, dest, overwrite))
  {
    ghost var h2 := disk.heap;
    var staged := new StagedAtomicDirectory(disk, names, p, leaf, dest, overwrite, root);
    if ok {
      r := staged.Commit();
    } else {
      r := Err(IoPath("extract", Other));
      UnchangedOutcome(h2, p, leaf, dest, root);
      staged.Drop(r, h2);
    }
  }

  lemma MadeKeeps(h0: Heap, h: Heap, p: Ino, dest: Name, names: NameSource)
    requires Wf(h0) && IsDir(h0, p)
    requires h == h0 || exists k: nat :: Made(h0, h, p, names.NameAt(StagedTreePrefix(dest), "", k))
    ensures forall n :: Lookup(h0, p, n).Some? || n == dest ==> Kept(h0, h, p, n)
  {
    if h != h0 {
      var k: nat :| Made(h0, h, p, names.NameAt(StagedTreePrefix(dest), "", k));
      GeneratedNameIsNotDestination(dest, STAGED_TREE_TAG, names.pid, names.nanos(k), k, "");
    }
    forall n | Lookup(h0, p, n).Some? || n == dest
      ensures Kept(h0, h, p, n)
    {
      if Lookup(h0, p, n).Some? {
        HolderNotBelow(h0, p, n);
      }
    }
  }
}
