/** Placing files, links and directories in an extraction root, each staged and then renamed
    (crates/omne-artifact-install-primitives/src/archive_tree.rs). */
module ArchiveEntries {
  import opened Wrappers
  import opened Filesystem
  import opened HeapUpdates
  import opened Disks
  import opened StagedNames
  import opened TreeView
  import opened ArchiveLeaves
  import LexicalPaths

  /** Everything looks as in `h0`, except that `path` shows `seen` and its parents are directories. */
  ghost predicate Placed(h0: Heap, h: Heap, root: Ino, path: Route, seen: Seen) {
    && path != []
    && (forall p :: See(h, root, p) == if p == path then seen
                                       else if p != [] && IsPrefix(p, path) then SeenDir
                                       else See(h0, root, p))
    && (forall p :: p != [] && IsProperPrefix(p, path) ==> See(h0, root, p) == Absent || See(h0, root, p) == SeenDir)
  }

  predicate Replaceable(s: Seen) {
    s.Absent? || s.SeenFile?
  }

  lemma PlacedAfterChain(h0: Heap, h1: Heap, h: Heap, root: Ino, q: Route, n: Name, i: Ino, node: Node)
    requires Extended(h0, h1, root, q)
    requires Wf(h1) && Closed(h) && PutAt(h1, h, root, q, n, i, node)
    ensures Placed(h0, h, root, q + [n], Look(h, i))
  {
    PutSee(h1, h, root, q, n, i, node);
    forall p | p != [] && IsProperPrefix(p, q + [n])
      ensures IsPrefix(p, q)
    {
      assert (q + [n])[..|p|] == q[..|p|];
    }
    forall p
      ensures See(h, root, p) == if p == q + [n] then Look(h, i)
                                 else if p != [] && IsPrefix(p, q + [n]) then SeenDir
                                 else See(h0, root, p)
    {
      if p != [] && IsPrefix(p, q + [n]) && p != q + [n] {
        assert |p| < |q + [n]|;
        assert IsProperPrefix(p, q + [n]);
      } else if p != q + [n] && p != [] && IsPrefix(p, q) {
        assert IsPrefix(p, q + [n]);
      }
    }
  }

  // ---------------------------------------------------------------- staged leaves

  /** `h` is `h1` with a new inode `i` under the staged name `s`. */
  ghost predicate IsStaged(h1: Heap, h: Heap, d: Ino, s: Name, i: Ino, node: Node) {
    && IsDir(h1, d) && i !in h1 && Lookup(h1, d, s) == None
    && h == Attach(h1[i := node], d, s, i)
  }

  /** The next generated name is not taken in `d`. */
  predicate FirstFree(h: Heap, d: Ino, names: NameSource, purpose: string)
    reads names
  {
    Lookup(h, d, LeafAt(names, purpose, names.sequence)) == None
  }

  /** Something in `d` has each of the `n` names generated from `from` on. */
  ghost predicate LeavesTaken(h: Heap, d: Ino, names: NameSource, purpose: string, from: nat, n: nat) {
    forall k: nat :: from <= k < from + n ==> Lookup(h, d, LeafAt(names, purpose, k)).Some?
  }

  lemma OneMoreLeaf(h: Heap, d: Ino, names: NameSource, purpose: string, from: nat, n: nat)
    requires LeavesTaken(h, d, names, purpose, from, n)
    ensures Lookup(h, d, LeafAt(names, purpose, from + n)).Some? <==> LeavesTaken(h, d, names, purpose, from, n + 1)
  {
  }

  /** `create_archive_staged_regular_file` and `create_archive_staged_symlink`. */
  method StageLeaf(disk: Disk, names: NameSource, d: Ino, node: Node, purpose: string)
    returns (r: Result<(Name, Ino), string>)
    requires disk.Valid() && IsDir(disk.heap, d) && !node.Dir?
    modifies disk, names
    ensures disk.Valid() && disk.clock >= old(disk.clock) && names.sequence >= old(names.sequence)
    ensures r.Err? ==> disk.heap == old(disk.heap)
    ensures r.Ok? ==> IsStaged(old(disk.heap), disk.heap, d, r.value.0, r.value.1, node)
    ensures old(disk.Quiet() && FirstFree(disk.heap, d, names, purpose)) ==> r.Ok?
    ensures old(disk.Quiet()) ==>
              (r.Err? <==> LeavesTaken(old(disk.heap), d, names, purpose, old(names.sequence), STAGED_LEAF_RETRY_LIMIT))
  {
    ghost var h1 := disk.heap;
    var attempt := 0;
    while attempt < STAGED_LEAF_RETRY_LIMIT
      invariant disk.Valid() && disk.heap == h1 && disk.clock >= old(disk.clock)
      invariant names.sequence == old(names.sequence) + attempt
      invariant attempt <= STAGED_LEAF_RETRY_LIMIT
      invariant old(disk.Quiet()) ==> LeavesTaken(h1, d, names, purpose, old(names.sequence), attempt)
    {
      attempt := attempt + 1;
      var leaf := names.Next(LeafPrefix(purpose), ".tmp");
      var made := disk.Create(d, leaf, node);
      match made {
        case Ok(i) =>
          assert Lookup(h1, d, LeafAt(names, purpose, old(names.sequence) + attempt - 1)) == None;
          return Ok((leaf, i));
        case Err(k) =>
          if k != AlreadyExists {
            return Err("failed to stage archive entry");
          }
      }
    }
    r := Err("failed to allocate archive staging leaf");
  }

  /** `ensure_replaceable_archive_output_leaf`: absent or a regular file. */
  method EnsureReplaceable(disk: Disk, d: Ino, leaf: Name) returns (ok: bool)
    requires disk.Valid()
    modifies disk
    ensures disk.Valid() && disk.Watched()
    ensures ok ==> LeafReplaceable(disk.heap, d, leaf)
    ensures old(disk.Quiet()) ==> ok == LeafReplaceable(disk.heap, d, leaf)
  {
    var meta := disk.SymlinkMetadata(d, leaf);
    ok := match meta
          case Ok(kind) => kind == KFile
          case Err(k) => k == NotFound;
  }

  predicate LeafReplaceable(h: Heap, d: Ino, leaf: Name) {
    match Lookup(h, d, leaf)
    case None => true
    case Some(i) => i in h && h[i].File?
  }

  lemma LeafSeen(h: Heap, root: Ino, q: Route, leaf: Name)
    requires Closed(h) && Walk(h, root, q).Some? && IsDir(h, Walk(h, root, q).value)
    ensures LeafReplaceable(h, Walk(h, root, q).value, leaf) <==> Replaceable(See(h, root, q + [leaf]))
    ensures Lookup(h, Walk(h, root, q).value, leaf) == Walk(h, root, q + [leaf])
  {
    WalkSnoc(h, root, q, leaf);
  }

  /** `PendingArchiveLeaf` dropped without being retained. */
  method DropLeaf(disk: Disk, ghost root: Ino, d: Ino, s: Name, ghost q: Route, ghost i: Ino, ghost node: Node,
      ghost h1: Heap)
    requires Rooted(disk, root) && Wf(h1) && Walk(h1, root, q) == Some(d)
    requires IsStaged(h1, disk.heap, d, s, i, node) && (node.File? || node.Symlink?)
    modifies disk
    ensures Rooted(disk, root) && disk.clock >= old(disk.clock)
    ensures Evolves(h1, disk.heap, root)
  {
    var removed := disk.RemoveFile(d, s);
    if removed.Ok? {
      assert disk.heap == h1[i := node] by {
        assert (h1[d].entries[s := i]) - {s} == h1[d].entries;
      }
      OrphanInvisible(h1, root, i, node);
    } else {
      StagedEvolves(h1, disk.heap, root, q, d, s, i, node);
    }
  }

  lemma StagedEvolves(h1: Heap, h: Heap, root: Ino, q: Route, d: Ino, s: Name, i: Ino, node: Node)
    requires Wf(h1) && Closed(h) && Walk(h1, root, q) == Some(d) && root in h1
    requires IsStaged(h1, h, d, s, i, node) && (node.File? || node.Symlink?)
    ensures Evolves(h1, h, root)
  {
    LeafSeen(h1, root, q, s);
    assert PutAt(h1, h, root, q, s, i, node);
    PutEvolves(h1, h, root, q, s, i, node);
  }

  /** `rename_archive_leaf`, then the staged leaf is retained, or dropped if the rename failed. */
  method CommitLeaf(disk: Disk, ghost root: Ino, d: Ino, s: Name, leaf: Name, ghost q: Route, ghost i: Ino,
      ghost node: Node, ghost h1: Heap)
    returns (ok: bool)
    requires Rooted(disk, root) && Wf(h1) && Walk(h1, root, q) == Some(d)
    requires IsStaged(h1, disk.heap, d, s, i, node) && (node.File? || node.Symlink?)
    requires LeafReplaceable(h1, d, leaf)
    modifies disk
    ensures Rooted(disk, root) && disk.clock >= old(disk.clock)
    ensures Evolves(h1, disk.heap, root)
    ensures ok ==> PutAt(h1, disk.heap, root, q, leaf, i, node)
    ensures old(disk.Quiet()) ==> ok
  {
    RenamedLeaf(h1, disk.heap, d, s, leaf, i, node);
    var renamed := disk.Rename(d, s, d, leaf);
    if renamed.Err? {
      DropLeaf(disk, root, d, s, q, i, node, h1);
      return false;
    }
    LeafSeen(h1, root, q, leaf);
    assert PutAt(h1, disk.heap, root, q, leaf, i, node);
    PutEvolves(h1, disk.heap, root, q, leaf, i, node);
    ok := true;
  }

  lemma RenamedLeaf(h1: Heap, h: Heap, d: Ino, s: Name, leaf: Name, i: Ino, node: Node)
    requires Closed(h1) && IsStaged(h1, h, d, s, i, node) && !node.Dir? && LeafReplaceable(h1, d, leaf)
    ensures Move(h, d, s, d, leaf) == Ok(Attach(h1[i := node], d, leaf, i))
  {
    assert ((h1[d].entries[s := i]) - {s})[leaf := i] == h1[d].entries[leaf := i];
    assert Attach(Detach(h, d, s), d, leaf, i) == Attach(h1[i := node], d, leaf, i);
    if s != leaf && Lookup(h1, d, leaf).Some? {
      assert Lookup(h, d, leaf) == Lookup(h1, d, leaf);
      assert Lookup(h1, d, leaf).value in h1;
    }
  }

  // ---------------------------------------------------------------- visits

  function Last(p: Route): Name
    requires p != []
  {
    p[|p|-1]
  }

  function ParentOf(p: Route): Route
    requires p != []
  {
    p[..|p|-1]
  }

  /** `visit_directory`. */
  method VisitDirectory(disk: Disk, root: Ino, path: Route) returns (ok: bool)
    requires Rooted(disk, root) && path != []
    modifies disk
    ensures Rooted(disk, root) && disk.clock >= old(disk.clock)
    ensures Evolves(old(disk.heap), disk.heap, root)
    ensures ok ==> Extended(old(disk.heap), disk.heap, root, path) && AddsOnly(old(disk.heap), disk.heap, path)
    ensures old(disk.Quiet()) ==> (ok <==> !Probe(old(disk.heap), root, path).Blocked?)
  {
    var made := TryOpenChain(disk, root, path, true);
    ok := made.Ok?;
  }

  /** No call fails, and no name that is going to be generated is in use or on the path. */
  ghost predicate Unhindered(disk: Disk, names: NameSource, path: Route)
    reads disk, names
  {
    disk.Quiet() && Unclaimed(disk.heap, names) && NamesApart(names, path)
  }

  /** A leaf can be put at the path: its parents are directories or missing, and it is itself missing or
      a regular file. */
  predicate Placeable(h: Heap, root: Ino, path: Route) {
    path != [] && !Probe(h, root, ParentOf(path)).Blocked? && Replaceable(See(h, root, path))
  }

  /** `write_archive_regular_file`; `content` is what the reader yields, `None` if reading fails. */
  method WriteRegularFile(disk: Disk, names: NameSource, root: Ino, path: Route, content: Option<seq<Byte>>,
      mode: Option<nat>)
    returns (ok: bool)
    requires Rooted(disk, root) && path != []
    modifies disk, names
    ensures Rooted(disk, root) && disk.clock >= old(disk.clock) && names.sequence >= old(names.sequence)
    ensures Evolves(old(disk.heap), disk.heap, root)
    ensures ok ==> content.Some? && exists ino ::
              && ino !in old(disk.heap)
              && Placed(old(disk.heap), disk.heap, root, path, SeenFile(ino, content.value, FileMode(mode)))
    ensures ok ==> Replaceable(See(old(disk.heap), root, path)) && AddsOnly(old(disk.heap), disk.heap, path)
    ensures old(Unhindered(disk, names, path)) ==> (ok <==> content.Some? && Placeable(old(disk.heap), root, path))
  {
    ghost var h0 := disk.heap;
    var parent := OpenParent(disk, names, root, path);
    if parent.Err? {
      return false;
    }
    ghost var h1 := disk.heap;
    ok := PlaceFile(disk, names, root, parent.value, Last(path), content, mode, ParentOf(path));
    EvolvesTrans(h0, h1, disk.heap, root);
    if ok {
      FilePlaced(h0, h1, disk.heap, root, path, parent.value, content.value, FileMode(mode));
    }
  }

  lemma FilePlaced(h0: Heap, h1: Heap, h: Heap, root: Ino, path: Route, d: Ino, bytes: seq<Byte>, mode: nat)
    requires ParentReady(h0, h1, root, path, d) && Wf(h1) && Closed(h)
    requires exists i :: i !in h1 && PutAt(h1, h, root, ParentOf(path), Last(path), i, File(bytes, mode))
    ensures exists ino :: ino !in h0 && Placed(h0, h, root, path, SeenFile(ino, bytes, mode))
    ensures AddsOnly(h0, h, path)
  {
    var i :| i !in h1 && PutAt(h1, h, root, ParentOf(path), Last(path), i, File(bytes, mode));
    PlacedInParent(h0, h1, h, root, path, d, i, File(bytes, mode));
  }

  /** What is put at a leaf is a file with the whole content, or nothing. */
  method PlaceFile(disk: Disk, names: NameSource, ghost root: Ino, d: Ino, leaf: Name, content: Option<seq<Byte>>,
      mode: Option<nat>, ghost q: Route)
    returns (ok: bool)
    requires Rooted(disk, root) && IsDir(disk.heap, d) && Walk(disk.heap, root, q) == Some(d)
    modifies disk, names
    ensures Rooted(disk, root) && disk.clock >= old(disk.clock) && names.sequence >= old(names.sequence)
    ensures Evolves(old(disk.heap), disk.heap, root)
    ensures ok ==> content.Some? && LeafReplaceable(old(disk.heap), d, leaf) && exists i ::
              i !in old(disk.heap) && PutAt(old(disk.heap), disk.heap, root, q, leaf, i, File(content.value, FileMode(mode)))
    ensures old(disk.Quiet() && Unclaimed(disk.heap, names)) ==>
              (ok <==> content.Some? && LeafReplaceable(old(disk.heap), d, leaf))
  {
    EvolvesRefl(disk.heap, root);
    ok := EnsureReplaceable(disk, d, leaf);
    if ok {
      ok := FillFile(disk, names, root, d, leaf, content, mode, q);
    }
  }

  function FileMode(mode: Option<nat>): nat {
    match mode case None => DEFAULT_FILE_MODE case Some(m) => m
  }

  /** The parents of `path` have been opened or made, and `d` is the last of them. */
  ghost predicate ParentReady(h0: Heap, h1: Heap, root: Ino, path: Route, d: Ino) {
    && path != [] && Walk(h1, root, ParentOf(path)) == Some(d) && IsDir(h1, d)
    && Extended(h0, h1, root, ParentOf(path)) && AddsOnly(h0, h1, ParentOf(path)) && Evolves(h0, h1, root)
  }

  /** Opens or makes the parents, which does not change what stands at the path. */
  method OpenParent(disk: Disk, ghost names: NameSource, root: Ino, path: Route) returns (r: Result<Ino, string>)
    requires Rooted(disk, root) && path != []
    modifies disk
    ensures Rooted(disk, root) && disk.clock >= old(disk.clock) && Evolves(old(disk.heap), disk.heap, root)
    ensures r.Ok? ==> && ParentReady(old(disk.heap), disk.heap, root, path, r.value)
                      && (LeafReplaceable(disk.heap, r.value, Last(path)) <==> Replaceable(See(old(disk.heap), root, path)))
    ensures old(disk.Quiet()) ==> (r.Ok? <==> !Probe(old(disk.heap), root, ParentOf(path)).Blocked?)
    ensures r.Ok? && old(Unhindered(disk, names, path)) ==> Unclaimed(disk.heap, names)
  {
    ghost var h0 := disk.heap;
    var q, leaf := ParentOf(path), Last(path);
    assert path == q + [leaf];
    var chain := TryOpenChain(disk, root, q, true);
    if chain.Err? {
      return Err(chain.error);
    }
    r := Ok(chain.value.value);
    LeafSeen(disk.heap, root, q, leaf);
    assert !IsPrefix(path, q);
    if old(Unhindered(disk, names, path)) {
      StillUnclaimed(h0, disk.heap, names, names.sequence, q, path);
    }
  }

  /** A new inode has been put at the path, over nothing or a file. */
  lemma PlacedInParent(h0: Heap, h1: Heap, h: Heap, root: Ino, path: Route, d: Ino, i: Ino, node: Node)
    requires ParentReady(h0, h1, root, path, d) && Wf(h1) && Closed(h) && i !in h1 && (node.File? || node.Symlink?)
    requires PutAt(h1, h, root, ParentOf(path), Last(path), i, node)
    ensures Placed(h0, h, root, path, Look(h, i)) && AddsOnly(h0, h, path) && i !in h0
    ensures h[i] == node
  {
    assert path == ParentOf(path) + [Last(path)];
    PlacedAfterChain(h0, h1, h, root, ParentOf(path), Last(path), i, node);
    PutAdds(h1, h, root, ParentOf(path), Last(path), i, node);
  }

  lemma PutAdds(h0: Heap, h: Heap, root: Ino, q: Route, n: Name, i: Ino, node: Node)
    requires PutAt(h0, h, root, q, n, i, node) && !node.Dir?
    ensures AddsOnly(h0, h, [n])
  {
  }

  method FillFile(disk: Disk, names: NameSource, ghost root: Ino, d: Ino, leaf: Name, content: Option<seq<Byte>>,
      mode: Option<nat>, ghost q: Route)
    returns (ok: bool)
    requires Rooted(disk, root) && IsDir(disk.heap, d) && Walk(disk.heap, root, q) == Some(d)
    requires LeafReplaceable(disk.heap, d, leaf)
    modifies disk, names
    ensures Rooted(disk, root) && disk.clock >= old(disk.clock) && names.sequence >= old(names.sequence)
    ensures Evolves(old(disk.heap), disk.heap, root)
    ensures ok ==> content.Some? && exists i ::
              i !in old(disk.heap) && PutAt(old(disk.heap), disk.heap, root, q, leaf, i, File(content.value, FileMode(mode)))
    ensures old(disk.Quiet() && FirstFree(disk.heap, d, names, "file")) && content.Some? ==> ok
  {
    ghost var h1 := disk.heap;
    EvolvesRefl(h1, root);
    var staged := StageLeaf(disk, names, d, File([], DEFAULT_FILE_MODE), "file");
    if staged.Err? {
      return false;
    }
    var s, i := staged.value.0, staged.value.1;
    var filled := FillStaged(disk, i, content, mode);
    assert IsStaged(h1, disk.heap, d, s, i, disk.heap[i]);
    if !filled {
      DropLeaf(disk, root, d, s, q, i, disk.heap[i], h1);
      return false;
    }
    ok := CommitLeaf(disk, root, d, s, leaf, q, i, disk.heap[i], h1);
  }

  /** Copies the content, sets the mode and flushes. */
  method FillStaged(disk: Disk, i: Ino, content: Option<seq<Byte>>, mode: Option<nat>) returns (ok: bool)
    requires disk.Valid() && i in disk.heap && disk.heap[i] == File([], DEFAULT_FILE_MODE)
    modifies disk
    ensures disk.Valid() && disk.clock >= old(disk.clock)
    ensures i in disk.heap && disk.heap[i].File? && disk.heap == old(disk.heap)[i := disk.heap[i]]
    ensures ok ==> content.Some? && disk.heap[i] == File(content.value, FileMode(mode))
    ensures old(disk.Quiet()) && content.Some? ==> ok
  {
    if content == None {
      return false;
    }
    var written := disk.WriteAll(i, content.value);
    if written.Err? {
      return false;
    }
    if mode.Some? {
      var changed := disk.SetMode(i, mode.value);
      if changed.Err? {
        return false;
      }
    }
    var flushed := disk.Sync();
    ok := flushed.Ok?;
  }

  // ---------------------------------------------------------------- link targets

  /** `sanitize_archive_path`: relative, without `..`, and not empty once `.` is dropped. */
  function Sanitize(path: RawPath): Option<Route> {
    if path.rooted then None
    else
      match Normals(path.parts)
      case None => None
      case Some(names) => if names == [] then None else Some(names)
  }

  function Normals(parts: seq<Part>): Option<Route> {
    if parts == [] then Some([])
    else
      match Normals(parts[..|parts|-1])
      case None => None
      case Some(names) =>
        match parts[|parts|-1]
        case Normal(n) => Some(names + [n])
        case Cur => Some(names)
        case Parent => None
  }

  /** What is sanitized leads where the path does, from wherever one starts; nothing is made of paths
      that start at a root, contain `..`, or lead nowhere. */
  lemma SanitizeLeads(path: RawPath, pos: Route)
    ensures Sanitize(path).Some? <==> !path.rooted && Parent !in path.parts && exists n :: Normal(n) in path.parts
    ensures Sanitize(path).Some? ==> LexicalPaths.Destination(pos, path) == pos + Sanitize(path).value
  {
    NormalsLead(path.parts, pos);
  }

  lemma {:induction false} NormalsLead(parts: seq<Part>, pos: Route)
    ensures Normals(parts).Some? <==> Parent !in parts
    ensures Normals(parts).Some? ==> LexicalPaths.MoveAll(pos, parts) == pos + Normals(parts).value
    ensures Normals(parts).Some? ==> (Normals(parts).value != [] <==> exists n :: Normal(n) in parts)
    decreases |parts|
  {
    if parts == [] {
      assert pos + [] == pos;
    } else {
      var init, last := parts[..|parts|-1], parts[|parts|-1];
      assert parts == init + [last];
      NormalsLead(init, pos);
      if Normals(init).Some? && last.Normal? {
        assert (pos + Normals(init).value) + [last.name] == pos + (Normals(init).value + [last.name]);
        assert Normal(last.name) in parts;
      }
    }
  }

  /** `sanitize_archive_path`. */
  method SanitizePath(path: RawPath) returns (r: Option<Route>)
    ensures r == Sanitize(path)
    ensures r.Some? <==> !path.rooted && Parent !in path.parts && exists n :: Normal(n) in path.parts
    ensures r.Some? ==> forall pos :: LexicalPaths.Destination(pos, path) == pos + r.value
  {
    forall pos
      ensures Sanitize(path).Some? ==> LexicalPaths.Destination(pos, path) == pos + Sanitize(path).value
    {
      SanitizeLeads(path, pos);
    }
    SanitizeLeads(path, []);
    if path.rooted {
      return None;
    }
    var sanitized: Route := [];
    var k := 0;
    assert path.parts[..0] == [];
    while k < |path.parts|
      invariant 0 <= k <= |path.parts| && Normals(path.parts[..k]) == Some(sanitized)
    {
      assert path.parts[..k+1][..k] == path.parts[..k];
      match path.parts[k] {
        case Normal(n) => sanitized := sanitized + [n];
        case Cur =>
        case Parent =>
          NormalsStop(path.parts, k + 1);
          return None;
      }
      k := k + 1;
    }
    assert path.parts[..k] == path.parts;
    r := if sanitized == [] then None else Some(sanitized);
  }

  lemma {:induction false} NormalsStop(parts: seq<Part>, k: nat)
    requires k <= |parts| && Normals(parts[..k]) == None
    ensures Normals(parts) == None
    decreases |parts| - k
  {
    if k < |parts| {
      assert parts[..k+1][..k] == parts[..k];
      NormalsStop(parts, k + 1);
    } else {
      assert parts[..k] == parts;
    }
  }

  /** How far below its start a relative path ends, counting each `..` as one up. */
  function Net(parts: seq<Part>): int {
    if parts == [] then 0
    else Net(parts[..|parts|-1])
         + match parts[|parts|-1] case Normal(_) => 1 case Cur => 0 case Parent => -1
  }

  /** The path never climbs above the extraction root, wherever it is cut off. */
  predicate StaysInside(base: Route, parts: seq<Part>) {
    forall k :: 0 <= k <= |parts| ==> |base| + Net(parts[..k]) >= 0
  }

  /** `validate_archive_link_target` accepts exactly the relative targets that stay inside,
      lexically, at every step. */
  method ValidateLinkTarget(parent: Route, target: RawPath) returns (ok: bool)
    ensures ok <==> !target.rooted && StaysInside(parent, target.parts)
  {
    if target.rooted {
      return false;
    }
    var resolved := parent;
    var k := 0;
    assert target.parts[..0] == [];
    while k < |target.parts|
      invariant 0 <= k <= |target.parts|
      invariant |resolved| == |parent| + Net(target.parts[..k])
      invariant forall j :: 0 <= j <= k ==> |parent| + Net(target.parts[..j]) >= 0
    {
      assert target.parts[..k+1][..k] == target.parts[..k];
      match target.parts[k] {
        case Normal(n) => resolved := resolved + [n];
        case Cur =>
        case Parent =>
          if resolved == [] {
            assert |parent| + Net(target.parts[..k+1]) < 0;
            return false;
          }
          resolved := resolved[..|resolved|-1];
      }
      k := k + 1;
    }
    ok := true;
  }

  // ---------------------------------------------------------------- links

  /** `create_tar_symlink`. */
  method CreateSymlink(disk: Disk, names: NameSource, root: Ino, path: Route, target: RawPath) returns (ok: bool)
    requires Rooted(disk, root) && path != []
    modifies disk, names
    ensures Rooted(disk, root) && disk.clock >= old(disk.clock) && names.sequence >= old(names.sequence)
    ensures Evolves(old(disk.heap), disk.heap, root)
    ensures ok ==> !target.rooted && StaysInside(ParentOf(path), target.parts)
    ensures ok ==> Placed(old(disk.heap), disk.heap, root, path, SeenLink(target))
    ensures ok ==> Replaceable(See(old(disk.heap), root, path)) && AddsOnly(old(disk.heap), disk.heap, path)
    ensures old(Unhindered(disk, names, path)) ==>
              (ok <==> !target.rooted && StaysInside(ParentOf(path), target.parts) && Placeable(old(disk.heap), root, path))
  {
    ghost var h0 := disk.heap;
    var parent := OpenParent(disk, names, root, path);
    if parent.Err? {
      return false;
    }
    ghost var h1 := disk.heap;
    ok := ValidateLinkTarget(ParentOf(path), target);
    if !ok {
      return;
    }
    ok := PlaceLink(disk, names, root, parent.value, Last(path), target, ParentOf(path));
    EvolvesTrans(h0, h1, disk.heap, root);
    if ok {
      LinkPlaced(h0, h1, disk.heap, root, path, parent.value, target);
    }
  }

  lemma LinkPlaced(h0: Heap, h1: Heap, h: Heap, root: Ino, path: Route, d: Ino, target: RawPath)
    requires ParentReady(h0, h1, root, path, d) && Wf(h1) && Closed(h)
    requires exists i :: i !in h1 && PutAt(h1, h, root, ParentOf(path), Last(path), i, Symlink(target))
    ensures Placed(h0, h, root, path, SeenLink(target)) && AddsOnly(h0, h, path)
  {
    var i :| i !in h1 && PutAt(h1, h, root, ParentOf(path), Last(path), i, Symlink(target));
    PlacedInParent(h0, h1, h, root, path, d, i, Symlink(target));
  }

  method PlaceLink(disk: Disk, names: NameSource, ghost root: Ino, d: Ino, leaf: Name, target: RawPath, ghost q: Route)
    returns (ok: bool)
    requires Rooted(disk, root) && IsDir(disk.heap, d) && Walk(disk.heap, root, q) == Some(d)
    modifies disk, names
    ensures Rooted(disk, root) && disk.clock >= old(disk.clock) && names.sequence >= old(names.sequence)
    ensures Evolves(old(disk.heap), disk.heap, root)
    ensures ok ==> LeafReplaceable(old(disk.heap), d, leaf) && exists i ::
              i !in old(disk.heap) && PutAt(old(disk.heap), disk.heap, root, q, leaf, i, Symlink(target))
    ensures old(disk.Quiet() && Unclaimed(disk.heap, names)) ==> (ok <==> LeafReplaceable(old(disk.heap), d, leaf))
  {
    ghost var h1 := disk.heap;
    EvolvesRefl(h1, root);
    ok := EnsureReplaceable(disk, d, leaf);
    if !ok {
      return;
    }
    var staged := StageLeaf(disk, names, d, Symlink(target), "symlink");
    if staged.Err? {
      return false;
    }
    ok := CommitLeaf(disk, root, d, staged.value.0, leaf, q, staged.value.1, Symlink(target), h1);
  }

  datatype PendingHardLink = PendingHardLink(output: Route, target: Route)

  /** `prepare_tar_hard_link`: only the parents are made now. */
  method PrepareHardLink(disk: Disk, root: Ino, path: Route, target: RawPath)
    returns (r: Result<PendingHardLink, string>)
    requires Rooted(disk, root) && path != []
    modifies disk
    ensures Rooted(disk, root) && disk.clock >= old(disk.clock)
    ensures Evolves(old(disk.heap), disk.heap, root)
    ensures r.Ok? ==> && Sanitize(target).Some? && r.value == PendingHardLink(path, Sanitize(target).value)
                      && Extended(old(disk.heap), disk.heap, root, ParentOf(path))
                      && AddsOnly(old(disk.heap), disk.heap, ParentOf(path))
    ensures old(disk.Quiet()) ==>
              (r.Ok? <==> Sanitize(target).Some? && !Probe(old(disk.heap), root, ParentOf(path)).Blocked?)
  {
    var chain := TryOpenChain(disk, root, ParentOf(path), true);
    if chain.Err? {
      return Err(chain.error);
    }
    var sanitized := SanitizePath(target);
    r := match sanitized
         case None => Err("unsafe archive link target")
         case Some(t) => Ok(PendingHardLink(path, t));
  }
}
