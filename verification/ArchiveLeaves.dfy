/** Directory chains and staged leaves inside an extraction root
    (crates/omne-artifact-install-primitives/src/archive_tree.rs). */
module ArchiveLeaves {
  import opened Wrappers
  import opened Filesystem
  import opened HeapUpdates
  import opened Disks
  import opened StagedNames
  import opened AtomicDirectory
  import opened TreeView

  const STAGED_LEAF_RETRY_LIMIT := 128

  predicate IsPrefix(p: Route, q: Route) {
    |p| <= |q| && q[..|p|] == p
  }

  predicate IsProperPrefix(p: Route, q: Route) {
    |p| < |q| && q[..|p|] == p
  }

  // ---------------------------------------------------------------- directory chains

  datatype Chain = Found(d: Ino) | Missing | Blocked

  /** Follow `dir` from `i` through real directories: all there, a component missing, or a component
      that is something else. */
  function Probe(h: Heap, i: Ino, dir: Route): Chain
    decreases |dir|
  {
    if dir == [] then Found(i)
    else
      match Lookup(h, i, dir[0])
      case None => Missing
      case Some(j) => if IsDir(h, j) then Probe(h, j, dir[1..]) else Blocked
  }

  lemma {:induction false} ProbeWalk(h: Heap, i: Ino, dir: Route)
    requires IsDir(h, i)
    ensures Probe(h, i, dir).Found? <==> Walk(h, i, dir).Some? && IsDir(h, Walk(h, i, dir).value)
    ensures Probe(h, i, dir).Found? ==> Walk(h, i, dir) == Some(Probe(h, i, dir).d)
    ensures Probe(h, i, dir).Missing? ==> Walk(h, i, dir) == None
    decreases |dir|
  {
    if dir != [] && Lookup(h, i, dir[0]).Some? {
      var j := Lookup(h, i, dir[0]).value;
      if IsDir(h, j) {
        ProbeWalk(h, j, dir[1..]);
      } else if |dir| > 1 {
        assert Lookup(h, j, dir[1..][0]) == None;
      }
    }
  }

  lemma {:induction false} ProbeSnoc(h: Heap, i: Ino, dir: Route, n: Name)
    requires IsDir(h, i)
    ensures Probe(h, i, dir + [n]) ==
            match Probe(h, i, dir)
            case Found(d) => (match Lookup(h, d, n)
                              case None => Missing
                              case Some(j) => if IsDir(h, j) then Found(j) else Blocked)
            case other => other
    decreases |dir|
  {
    if dir == [] {
      assert dir + [n] == [n];
      assert [n][1..] == [];
    } else {
      assert (dir + [n])[1..] == dir[1..] + [n];
      if Lookup(h, i, dir[0]).Some? && IsDir(h, Lookup(h, i, dir[0]).value) {
        ProbeSnoc(h, Lookup(h, i, dir[0]).value, dir[1..], n);
      }
    }
  }

  lemma {:induction false} ProbeStops(h: Heap, i: Ino, dir: Route, k: nat)
    requires k <= |dir| && IsDir(h, i) && !Probe(h, i, dir[..k]).Found?
    ensures Probe(h, i, dir) == Probe(h, i, dir[..k])
    decreases |dir| - k
  {
    if k < |dir| {
      assert dir[..k+1] == dir[..k] + [dir[k]];
      ProbeSnoc(h, i, dir[..k], dir[k]);
      ProbeStops(h, i, dir, k + 1);
    } else {
      assert dir[..k] == dir;
    }
  }

  /** Apart from new directories along `dir`, everything looks as it did; what stood along `dir` was
      nothing or a directory. */
  ghost predicate Extended(h0: Heap, h: Heap, root: Ino, dir: Route) {
    && (forall p :: See(h, root, p) == if p != [] && IsPrefix(p, dir) then SeenDir else See(h0, root, p))
    && (forall p :: p != [] && IsPrefix(p, dir) ==> See(h0, root, p) == Absent || See(h0, root, p) == SeenDir)
  }

  function LeafPrefix(purpose: string): string {
    ".archive-tree-" + purpose + "-"
  }

  /** The names that this process generates for staged leaves. */
  function LeafAt(names: NameSource, purpose: string, k: nat): Name {
    names.NameAt(LeafPrefix(purpose), ".tmp", k)
  }

  /** No entry anywhere has a name that this process is still going to generate. */
  ghost predicate Unclaimed(h: Heap, names: NameSource)
    reads names
  {
    UnclaimedFrom(h, names, names.sequence)
  }

  ghost predicate UnclaimedFrom(h: Heap, names: NameSource, from: nat) {
    forall d, purpose, k: nat :: k >= from ==> Lookup(h, d, LeafAt(names, purpose, k)) == None
  }

  /** The names that have come into use, anywhere, are on this path. */
  ghost predicate AddsOnly(h0: Heap, h: Heap, path: Route) {
    forall d, n :: Lookup(h, d, n).Some? && n !in path ==> Lookup(h0, d, n).Some?
  }

  /** None of the names on the path is one that is still going to be generated. */
  ghost predicate NamesApart(names: NameSource, path: Route)
    reads names
  {
    forall n, purpose, k: nat :: n in path && k >= names.sequence ==> LeafAt(names, purpose, k) != n
  }

  /** Taking such names into use leaves the names that will be generated free. */
  lemma StillUnclaimed(h0: Heap, h: Heap, names: NameSource, from: nat, used: Route, path: Route)
    requires UnclaimedFrom(h0, names, from) && from <= names.sequence && AddsOnly(h0, h, used)
    requires NamesApart(names, path)
    requires forall n :: n in used ==> n in path
    ensures Unclaimed(h, names)
  {
    forall d, purpose, k: nat | k >= names.sequence
      ensures Lookup(h, d, LeafAt(names, purpose, k)) == None
    {
      assert Lookup(h0, d, LeafAt(names, purpose, k)) == None;
    }
  }

  ghost predicate Rooted(disk: Disk, root: Ino)
    reads disk
  {
    disk.Valid() && IsDir(disk.heap, root)
  }

  /** One step of the walk: the component is opened, or made and opened. */
  method StepInto(disk: Disk, ghost root: Ino, d: Ino, n: Name, create: bool, ghost q: Route)
    returns (r: Result<Option<Ino>, string>)
    requires Rooted(disk, root) && IsDir(disk.heap, d) && Walk(disk.heap, root, q) == Some(d)
    modifies disk
    ensures Rooted(disk, root) && disk.clock >= old(disk.clock)
    ensures !create ==> disk.heap == old(disk.heap)
    ensures create ==> r != Ok(None)
    ensures Evolves(old(disk.heap), disk.heap, root) && AddsOnly(old(disk.heap), disk.heap, [n])
    ensures r.Ok? && r.value.Some? ==>
              && IsDir(disk.heap, r.value.value) && Walk(disk.heap, root, q + [n]) == r.value
              && Extended(old(disk.heap), disk.heap, root, q + [n])
    ensures old(disk.Quiet()) ==>
              match Lookup(old(disk.heap), d, n)
              case None => if create then r.Ok? && disk.heap[r.value.value] == Dir(map[]) else r == Ok(None)
              case Some(j) => if IsDir(old(disk.heap), j) then r == Ok(Some(j)) && disk.heap == old(disk.heap) else r.Err?
  {
    ghost var h0 := disk.heap;
    EvolvesRefl(h0, root);
    var first := disk.OpenDirNofollow(d, n);
    if first.Ok? {
      WalkSnoc(h0, root, q, n);
      ExtendedRefl(h0, root, q + [n]);
      return Ok(Some(first.value));
    }
    if first.error != NotFound {
      return Err("archive parent component must be a directory");
    }
    if !create {
      return Ok(None);
    }
    var made := MakeInside(disk, root, d, n, q);
    if !made {
      return Err("create directory component");
    }
    var second := disk.OpenDirNofollow(d, n);
    if second.Err? {
      return Err("open directory component");
    }
    r := Ok(Some(second.value));
  }

  /** `create_directory_component` inside the extraction root. */
  method MakeInside(disk: Disk, ghost root: Ino, d: Ino, n: Name, ghost q: Route) returns (ok: bool)
    requires Rooted(disk, root) && IsDir(disk.heap, d) && Walk(disk.heap, root, q) == Some(d)
    modifies disk
    ensures Rooted(disk, root) && disk.clock >= old(disk.clock)
    ensures Evolves(old(disk.heap), disk.heap, root) && AddsOnly(old(disk.heap), disk.heap, [n])
    ensures ok ==> && Lookup(disk.heap, d, n).Some? && IsDir(disk.heap, Lookup(disk.heap, d, n).value)
                   && Walk(disk.heap, root, q + [n]) == Lookup(disk.heap, d, n)
                   && Extended(old(disk.heap), disk.heap, root, q + [n])
    ensures ok && Lookup(old(disk.heap), d, n) == None ==> disk.heap[Lookup(disk.heap, d, n).value] == Dir(map[])
    ensures old(disk.Quiet()) && Lookup(old(disk.heap), d, n) == None ==> ok
  {
    ghost var h0 := disk.heap;
    EvolvesRefl(h0, root);
    WalkSnoc(h0, root, q, n);
    var made := CreateDirectoryComponent(disk, d, n);
    ok := made.Ok?;
    if disk.heap != h0 {
      ghost var i :| i !in h0 && disk.heap == Attach(h0[i := Dir(map[])], d, n, i);
      NewDirectory(h0, disk.heap, root, q, d, n, i);
    } else if ok {
      ExtendedRefl(h0, root, q + [n]);
    }
  }

  lemma NewDirectory(h0: Heap, h: Heap, root: Ino, q: Route, d: Ino, n: Name, i: Ino)
    requires Wf(h0) && Closed(h) && Walk(h0, root, q) == Some(d) && IsDir(h0, d) && Lookup(h0, d, n) == None
    requires i !in h0 && h == Attach(h0[i := Dir(map[])], d, n, i)
    ensures Evolves(h0, h, root) && AddsOnly(h0, h, [n]) && Extended(h0, h, root, q + [n])
    ensures Walk(h, root, q + [n]) == Some(i)
  {
    WalkSnoc(h0, root, q, n);
    assert PutAt(h0, h, root, q, n, i, Dir(map[]));
    PutWalk(h0, h, root, q, n, i, Dir(map[]), q + [n]);
    PutEvolves(h0, h, root, q, n, i, Dir(map[]));
    PutExtends(h0, h, root, q, n, i);
  }

  lemma PutExtends(h0: Heap, h: Heap, root: Ino, q: Route, n: Name, i: Ino)
    requires Wf(h0) && Closed(h) && PutAt(h0, h, root, q, n, i, Dir(map[])) && i !in h0
    ensures Extended(h0, h, root, q + [n])
  {
    PutSee(h0, h, root, q, n, i, Dir(map[]));
    WalkSnoc(h0, root, q, n);
    forall p | p != [] && IsPrefix(p, q + [n]) && p != q + [n]
      ensures See(h0, root, p) == SeenDir
    {
      var m := |p|;
      assert (q + [n])[..m] == q[..m];
      PrefixIsDir(h0, root, q, m);
    }
  }

  lemma {:induction false} PrefixIsDir(h: Heap, root: Ino, q: Route, m: nat)
    requires m <= |q| && Closed(h) && Walk(h, root, q).Some? && IsDir(h, Walk(h, root, q).value)
    ensures See(h, root, q[..m]) == SeenDir
    decreases |q|
  {
    if m == |q| {
      assert q[..m] == q;
    } else {
      WalkLast(h, root, q);
      assert q[..|q|-1][..m] == q[..m];
      PrefixIsDir(h, root, q[..|q|-1], m);
    }
  }

  lemma ExtendedRefl(h: Heap, root: Ino, dir: Route)
    requires Closed(h) && Walk(h, root, dir).Some? && IsDir(h, Walk(h, root, dir).value)
    ensures Extended(h, h, root, dir)
  {
    forall p | p != [] && IsPrefix(p, dir)
      ensures See(h, root, p) == SeenDir
    {
      PrefixIsDir(h, root, dir, |p|);
    }
  }

  lemma ExtendedTrans(h0: Heap, h1: Heap, h2: Heap, root: Ino, q: Route, n: Name)
    requires Extended(h0, h1, root, q) && Extended(h1, h2, root, q + [n])
    ensures Extended(h0, h2, root, q + [n])
  {
    forall p | p != [] && IsPrefix(p, q + [n])
      ensures See(h0, root, p) == Absent || See(h0, root, p) == SeenDir
    {
      if p != q + [n] {
        assert p == q[..|p|];
      } else {
        assert !IsPrefix(p, q);
      }
    }
    forall p
      ensures See(h2, root, p) == if p != [] && IsPrefix(p, q + [n]) then SeenDir else See(h0, root, p)
    {
      if p != [] && IsPrefix(p, q) {
        assert IsPrefix(p, q + [n]);
      }
    }
  }

  /** What a walk along the first `k` components may have done. */
  ghost predicate Grown(h0: Heap, h: Heap, root: Ino, dir: Route, k: nat)
    requires k <= |dir|
  {
    Evolves(h0, h, root) && AddsOnly(h0, h, dir) && Extended(h0, h, root, dir[..k])
  }

  lemma GrownStep(h0: Heap, h1: Heap, h2: Heap, root: Ino, dir: Route, k: nat)
    requires k < |dir| && Grown(h0, h1, root, dir, k) && Evolves(h1, h2, root) && AddsOnly(h1, h2, [dir[k]])
    ensures Evolves(h0, h2, root) && AddsOnly(h0, h2, dir)
    ensures Extended(h1, h2, root, dir[..k] + [dir[k]]) ==> Grown(h0, h2, root, dir, k + 1)
  {
    EvolvesTrans(h0, h1, h2, root);
    assert dir[..k+1] == dir[..k] + [dir[k]];
    if Extended(h1, h2, root, dir[..k] + [dir[k]]) {
      ExtendedTrans(h0, h1, h2, root, dir[..k], dir[k]);
    }
  }

  /** One turn of the loop below. */
  method ChainStep(disk: Disk, ghost root: Ino, dir: Route, k: nat, current: Ino, create: bool, ghost h0: Heap)
    returns (r: Result<Option<Ino>, string>)
    requires Rooted(disk, root) && IsDir(h0, root) && k < |dir| && IsDir(disk.heap, current)
    requires Walk(disk.heap, root, dir[..k]) == Some(current) && Grown(h0, disk.heap, root, dir, k)
    modifies disk
    ensures Rooted(disk, root) && disk.clock >= old(disk.clock)
    ensures !create ==> disk.heap == old(disk.heap)
    ensures create ==> r != Ok(None)
    ensures Reached(h0, disk.heap, root, dir, k + 1, r)
    ensures old(disk.Quiet() && OnCourse(h0, disk.heap, root, dir, k, current, create)) ==>
              SoFar(h0, disk.heap, root, dir, k + 1, r, create)
  {
    ghost var h1 := disk.heap;
    assert dir[..k + 1] == dir[..k] + [dir[k]];
    r := StepInto(disk, root, current, dir[k], create, dir[..k]);
    GrownStep(h0, h1, disk.heap, root, dir, k);
    CourseStep(h0, h1, root, dir, k, current, create);
  }

  /** The loop of `try_open_archive_directory_chain`, from the opened root on. */
  method FollowChain(disk: Disk, root: Ino, dir: Route, create: bool) returns (r: Result<Option<Ino>, string>)
    requires Rooted(disk, root)
    modifies disk
    ensures Rooted(disk, root) && disk.clock >= old(disk.clock)
    ensures !create ==> disk.heap == old(disk.heap)
    ensures create ==> r != Ok(None)
    ensures Evolves(old(disk.heap), disk.heap, root) && AddsOnly(old(disk.heap), disk.heap, dir)
    ensures r.Ok? && r.value.Some? ==>
              && Walk(disk.heap, root, dir[..|dir|]) == r.value && IsDir(disk.heap, r.value.value)
              && Grown(old(disk.heap), disk.heap, root, dir, |dir|)
    ensures old(disk.Quiet()) ==> SoFar(old(disk.heap), disk.heap, root, dir, |dir|, r, create)
  {
    ghost var h0 := disk.heap;
    var k := 0;
    r := Ok(Some(root));
    assert dir[..0] == [];
    EvolvesRefl(h0, root);
    ExtendedRefl(h0, root, []);
    while k < |dir| && r.Ok? && r.value.Some?
      invariant 0 <= k <= |dir| && Rooted(disk, root) && disk.clock >= old(disk.clock)
      invariant if create then r != Ok(None) else disk.heap == h0
      invariant Reached(h0, disk.heap, root, dir, k, r)
      invariant old(disk.Quiet()) ==> disk.Quiet() && SoFar(h0, disk.heap, root, dir, k, r, create)
    {
      r := ChainStep(disk, root, dir, k, r.value.value, create, h0);
      k := k + 1;
    }
  }

  /** Where the walk is after `k` components, if it has not ended. */
  ghost predicate Reached(h0: Heap, h: Heap, root: Ino, dir: Route, k: nat, r: Result<Option<Ino>, string>)
    requires k <= |dir|
  {
    && Evolves(h0, h, root) && AddsOnly(h0, h, dir)
    && (r.Ok? && r.value.Some? ==>
          IsDir(h, r.value.value) && Walk(h, root, dir[..k]) == r.value && Grown(h0, h, root, dir, k))
  }

  /** What a quiet walk has found after `k` components. */
  ghost predicate SoFar(h0: Heap, h: Heap, root: Ino, dir: Route, k: nat, r: Result<Option<Ino>, string>, create: bool)
    requires k <= |dir|
  {
    match r
    case Ok(Some(d)) => OnCourse(h0, h, root, dir, k, d, create)
    case Ok(None) => !create && Probe(h0, root, dir).Missing?
    case Err(_) => Probe(h0, root, dir).Blocked?
  }

  /** `try_open_archive_directory_chain`. */
  method TryOpenChain(disk: Disk, root: Ino, dir: Route, create: bool) returns (r: Result<Option<Ino>, string>)
    requires Rooted(disk, root)
    modifies disk
    ensures Rooted(disk, root) && disk.clock >= old(disk.clock)
    ensures !create ==> disk.heap == old(disk.heap)
    ensures create ==> r != Ok(None)
    ensures Evolves(old(disk.heap), disk.heap, root) && AddsOnly(old(disk.heap), disk.heap, dir)
    ensures r.Ok? && r.value.Some? ==>
              && Walk(disk.heap, root, dir) == r.value && IsDir(disk.heap, r.value.value)
              && Extended(old(disk.heap), disk.heap, root, dir)
    ensures old(disk.Quiet()) ==>
              match Probe(old(disk.heap), root, dir)
              case Found(d) => r == Ok(Some(d)) && disk.heap == old(disk.heap)
              case Missing => if create then r.Ok? else r == Ok(None)
              case Blocked => r.Err?
  {
    EvolvesRefl(disk.heap, root);
    assert dir[..|dir|] == dir;
    var opened' := disk.Metadata(root);
    if opened'.Err? {
      return Err("open archive root");
    }
    r := FollowChain(disk, root, dir, create);
  }

  /** Without faults: either everything so far was there, or from some component on everything is
      newly made. */
  ghost predicate OnCourse(h0: Heap, h: Heap, root: Ino, dir: Route, k: nat, current: Ino, create: bool)
    requires k <= |dir|
  {
    if Probe(h0, root, dir[..k]).Found? then h == h0 && Probe(h0, root, dir[..k]) == Found(current)
    else create && Probe(h0, root, dir).Missing? && current in h && h[current] == Dir(map[])
  }

  lemma CourseStep(h0: Heap, h: Heap, root: Ino, dir: Route, k: nat, current: Ino, create: bool)
    requires k < |dir| && IsDir(h0, root)
    ensures OnCourse(h0, h, root, dir, k, current, create) && Probe(h0, root, dir[..k]).Found? ==>
              match Lookup(h, current, dir[k])
              case None => Probe(h0, root, dir).Missing? && Probe(h0, root, dir[..k+1]).Missing?
              case Some(j) => if IsDir(h, j) then Probe(h0, root, dir[..k+1]) == Found(j)
                              else Probe(h0, root, dir).Blocked?
    ensures OnCourse(h0, h, root, dir, k, current, create) && !Probe(h0, root, dir[..k]).Found? ==>
              Lookup(h, current, dir[k]) == None && !Probe(h0, root, dir[..k+1]).Found?
  {
    assert dir[..k+1] == dir[..k] + [dir[k]];
    ProbeSnoc(h0, root, dir[..k], dir[k]);
    if !Probe(h0, root, dir[..k+1]).Found? {
      ProbeStops(h0, root, dir, k + 1);
    }
  }
}
