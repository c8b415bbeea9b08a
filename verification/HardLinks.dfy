/** Deferred hard links: created in rounds until none is left or a round gets nowhere
    (crates/omne-artifact-install-primitives/src/archive_tree.rs). */
module HardLinks {
  import opened Wrappers
  import opened Filesystem
  import opened HeapUpdates
  import opened Disks
  import opened StagedNames
  import opened TreeView
  import opened ArchiveLeaves
  import opened ArchiveEntries
  import opened CaseCollision

  // ---------------------------------------------------------------- what a target resolves to

  datatype Target = TFile(ino: Ino) | TMissing | TBad

  /** What opening `path` as a regular file without following links finds. */
  function Resolve(h: Heap, root: Ino, path: Route): Target
    requires path != []
  {
    match Probe(h, root, ParentOf(path))
    case Missing => TMissing
    case Blocked => TBad
    case Found(d) =>
      match Lookup(h, d, Last(path))
      case None => TMissing
      case Some(i) => if i in h && h[i].File? then TFile(i) else TBad
  }

  lemma ResolveSees(h: Heap, root: Ino, path: Route)
    requires Closed(h) && IsDir(h, root) && path != []
    ensures Resolve(h, root, path).TFile? <==> See(h, root, path).SeenFile?
    ensures Resolve(h, root, path).TFile? ==> Walk(h, root, path) == Some(Resolve(h, root, path).ino)
    ensures Resolve(h, root, path).TMissing? ==> See(h, root, path) == Absent
  {
    ProbeWalk(h, root, ParentOf(path));
    assert path == ParentOf(path) + [Last(path)];
    WalkSnoc(h, root, ParentOf(path), Last(path));
  }

  /** A directory other than `q` looks up what it did; `q` finds the new entry. */
  lemma PutLookup(h0: Heap, h: Heap, root: Ino, q: Route, n: Name, i: Ino, node: Node, dir: Route, leaf: Name)
    requires Wf(h0) && PutAt(h0, h, root, q, n, i, node) && !node.Dir?
    requires Walk(h0, root, dir).Some? && IsDir(h0, Walk(h0, root, dir).value)
    ensures var d := Walk(h0, root, dir).value;
            Lookup(h, d, leaf) == if dir == q && leaf == n then Some(i) else Lookup(h0, d, leaf)
    ensures i in h && h[i] == node
    ensures forall x :: x in h0 ==> x in h && (h[x].File? <==> h0[x].File?) && (IsDir(h, x) <==> IsDir(h0, x))
  {
    if Walk(h0, root, dir) == Walk(h0, root, q) {
      RouteUnique(h0, root, dir, q);
    }
  }

  lemma {:induction false} PutProbe(h0: Heap, h: Heap, root: Ino, q: Route, n: Name, i: Ino, node: Node, dir: Route)
    requires Wf(h0) && Closed(h) && IsDir(h0, root) && PutAt(h0, h, root, q, n, i, node) && !node.Dir?
    requires Lookup(h0, Walk(h0, root, q).value, n) == None
    ensures Probe(h, root, dir) == if IsPrefix(q + [n], dir) then Blocked else Probe(h0, root, dir)
    decreases |dir|
  {
    if dir != [] {
      var dir', m := dir[..|dir|-1], dir[|dir|-1];
      assert dir == dir' + [m];
      PutProbe(h0, h, root, q, n, i, node, dir');
      ProbeSnoc(h, root, dir', m);
      ProbeSnoc(h0, root, dir', m);
      PrefixSnoc(q, n, dir', m);
      ProbeWalk(h0, root, dir');
      if !IsPrefix(q + [n], dir') && Probe(h0, root, dir').Found? {
        PutLookup(h0, h, root, q, n, i, node, dir', m);
      }
    }
  }

  lemma PrefixSnoc(q: Route, n: Name, dir: Route, m: Name)
    ensures IsPrefix(q + [n], dir + [m]) <==> IsPrefix(q + [n], dir) || (dir == q && m == n)
  {
    if |q| < |dir| {
      assert (dir + [m])[..|q|+1] == dir[..|q|+1];
    } else if |q| == |dir| {
      assert (dir + [m])[|q|] == m && (q + [n])[|q|] == n;
      assert (dir + [m])[..|q|+1] == dir + [m];
      assert (dir + [m])[..|q|] == dir && (q + [n])[..|q|] == q;
    }
  }

  lemma PutResolve(h0: Heap, h: Heap, root: Ino, q: Route, n: Name, i: Ino, node: Node, path: Route)
    requires Wf(h0) && Closed(h) && IsDir(h0, root) && PutAt(h0, h, root, q, n, i, node) && node.File?
    requires Lookup(h0, Walk(h0, root, q).value, n) == None && path != []
    ensures Resolve(h, root, path) == if path == q + [n] then TFile(i)
                                      else if IsProperPrefix(q + [n], path) then TBad
                                      else Resolve(h0, root, path)
  {
    var dir, leaf := ParentOf(path), Last(path);
    assert path == dir + [leaf];
    PutProbe(h0, h, root, q, n, i, node, dir);
    assert IsPrefix(q + [n], dir) <==> IsProperPrefix(q + [n], path);
    ProbeWalk(h0, root, dir);
    ProbeWalk(h0, root, q);
    assert path == q + [n] <==> dir == q && leaf == n;
    if !IsPrefix(q + [n], dir) && Probe(h0, root, dir).Found? {
      PutLookup(h0, h, root, q, n, i, node, dir, leaf);
    }
  }

  // ---------------------------------------------------------------- one link

  /** `open_regular_file_at`. */
  method OpenRegularFileAt(disk: Disk, d: Ino, n: Name) returns (r: Result<Ino, IoKind>)
    requires disk.Valid()
    modifies disk
    ensures disk.Valid() && disk.Watched()
    ensures r.Ok? ==> Lookup(disk.heap, d, n) == Some(r.value) && r.value in disk.heap && disk.heap[r.value].File?
    ensures r == Err(NotFound) ==> Lookup(disk.heap, d, n) == None
    ensures old(disk.Quiet()) ==>
              match Lookup(disk.heap, d, n)
              case None => r == Err(NotFound)
              case Some(i) => if i in disk.heap && disk.heap[i].File? then r == Ok(i) else r == Err(InvalidInput)
  {
    var file := disk.OpenNofollow(d, n);
    if file.Err? {
      var meta := disk.SymlinkMetadata(d, n);
      return if meta.Ok? && meta.value != KFile then Err(InvalidInput) else Err(file.error);
    }
    var info := disk.Metadata(file.value);
    r := match info
         case Err(k) => Err(k)
         case Ok(node) => if node.File? then Ok(file.value) else Err(InvalidInput);
  }

  /** `create_archive_staged_hard_link`. */
  method StageHardLink(disk: Disk, names: NameSource, sd: Ino, sn: Name, d: Ino) returns (r: Result<Name, string>)
    requires disk.Valid() && IsDir(disk.heap, d)
    requires Lookup(disk.heap, sd, sn).Some? && disk.heap[Lookup(disk.heap, sd, sn).value].File?
    modifies disk, names
    ensures disk.Valid() && disk.clock >= old(disk.clock) && names.sequence >= old(names.sequence)
    ensures r.Err? ==> disk.heap == old(disk.heap)
    ensures r.Ok? ==> Lookup(old(disk.heap), d, r.value) == None
                      && disk.heap == Attach(old(disk.heap), d, r.value, Lookup(old(disk.heap), sd, sn).value)
    ensures r.Ok? ==> exists k: nat :: k < names.sequence && r.value == LeafAt(names, "hardlink", k)
    ensures old(disk.Quiet() && FirstFree(disk.heap, d, names, "hardlink")) ==> r.Ok?
    ensures old(disk.Quiet()) ==>
              (r.Err? <==>
                LeavesTaken(old(disk.heap), d, names, "hardlink", old(names.sequence), STAGED_LEAF_RETRY_LIMIT))
  {
    ghost var h1, from := disk.heap, names.sequence;
    var attempt := 0;
    var linked: Result<Name, IoKind> := Err(AlreadyExists);
    while attempt < STAGED_LEAF_RETRY_LIMIT && linked == Err(AlreadyExists)
      invariant disk.Valid() && disk.clock >= old(disk.clock) && (linked.Err? ==> disk.heap == h1)
      invariant 0 <= attempt <= STAGED_LEAF_RETRY_LIMIT && names.sequence == from + attempt
      invariant linked.Ok? ==>
                  attempt > 0 && LinkedAs(h1, disk.heap, sd, sn, d, names, names.sequence - 1, linked.value)
      invariant old(disk.Quiet()) ==> disk.Quiet()
      invariant old(disk.Quiet()) && linked.Err? ==>
                  linked.error == AlreadyExists && LeavesTaken(h1, d, names, "hardlink", from, attempt)
    {
      if old(disk.Quiet()) {
        OneMoreLeaf(h1, d, names, "hardlink", from, attempt);
      }
      linked := LinkNext(disk, names, sd, sn, d);
      attempt := attempt + 1;
    }
    if linked.Ok? {
      assert Lookup(h1, d, LeafAt(names, "hardlink", names.sequence - 1)) == None;
    }
    r := match linked
         case Ok(leaf) => Ok(leaf)
         case Err(k) => Err(if k == AlreadyExists then "failed to allocate archive staging leaf"
                            else "failed to stage archive entry");
  }

  /** The source has one more name, number `k`, which was free. */
  ghost predicate LinkedAs(h0: Heap, h: Heap, sd: Ino, sn: Name, d: Ino, names: NameSource, k: nat, leaf: Name) {
    && leaf == LeafAt(names, "hardlink", k) && IsDir(h0, d) && Lookup(h0, d, leaf) == None
    && Lookup(h0, sd, sn).Some? && h == Attach(h0, d, leaf, Lookup(h0, sd, sn).value)
  }

  method LinkNext(disk: Disk, names: NameSource, sd: Ino, sn: Name, d: Ino) returns (r: Result<Name, IoKind>)
    requires disk.Valid() && IsDir(disk.heap, d)
    requires Lookup(disk.heap, sd, sn).Some? && disk.heap[Lookup(disk.heap, sd, sn).value].File?
    modifies disk, names
    ensures disk.Valid() && disk.clock >= old(disk.clock) && names.sequence == old(names.sequence) + 1
    ensures r.Err? ==> disk.heap == old(disk.heap)
    ensures r.Ok? ==> LinkedAs(old(disk.heap), disk.heap, sd, sn, d, names, old(names.sequence), r.value)
    ensures old(disk.Quiet()) && r.Err? ==>
              r.error == AlreadyExists
              && Lookup(old(disk.heap), d, LeafAt(names, "hardlink", old(names.sequence))).Some?
  {
    var leaf := names.Next(LeafPrefix("hardlink"), ".tmp");
    var linked := disk.HardLink(sd, sn, d, leaf);
    r := match linked case Ok(_) => Ok(leaf) case Err(k) => Err(k);
  }

  datatype Verdict = Refused | Later | Ready(ino: Ino)

  /** What trying a link comes to when no call fails. */
  function Judge(h: Heap, root: Ino, p: PendingHardLink): Verdict
    requires p.output != [] && p.target != []
  {
    if !Probe(h, root, ParentOf(p.output)).Found? then Refused
    else
      match Resolve(h, root, p.target)
      case TBad => Refused
      case TMissing => Later
      case TFile(i) => if Resolve(h, root, p.output).TBad? then Refused else Ready(i)
  }

  /** The output now names the inode. */
  ghost predicate LinkMade(h0: Heap, h: Heap, root: Ino, output: Route, i: Ino) {
    output != [] && i in h0 && h0[i].File? && PutAt(h0, h, root, ParentOf(output), Last(output), i, h0[i])
  }

  /** The output named the inode already, and a staged leaf beside it has been left over. */
  ghost predicate StrayLeft(h0: Heap, h: Heap, root: Ino, output: Route, i: Ino, names: NameSource) {
    exists k: nat ::
      var s := LeafAt(names, "hardlink", k);
      && output != [] && i in h0 && h0[i].File? && PutAt(h0, h, root, ParentOf(output), s, i, h0[i])
      && See(h0, root, ParentOf(output) + [s]) == Absent
  }

  /** Something other than the output has come into view. */
  ghost predicate Strays(h0: Heap, h: Heap, root: Ino, output: Route) {
    exists p :: p != output && See(h0, root, p) == Absent && See(h, root, p) != Absent
  }

  /** That happens exactly when the output named the target's inode already: the rename of the staged
      leaf then does nothing, and the leaf is kept. */
  lemma StrayWhenSame(h0: Heap, h: Heap, root: Ino, p: PendingHardLink, names: NameSource)
    requires Wf(h0) && Closed(h) && IsDir(h0, root) && LinkDone(h0, h, root, p, names)
    ensures Strays(h0, h, root, p.output) <==> Resolve(h0, root, p.output) == Resolve(h0, root, p.target)
    ensures See(h, root, p.output) == See(h, root, p.target)
  {
    var i := Judge(h0, root, p).ino;
    ResolveSees(h0, root, p.output);
    ResolveSees(h0, root, p.target);
    assert p.output == ParentOf(p.output) + [Last(p.output)];
    if Resolve(h0, root, p.output) == TFile(i) {
      var k: nat :|
        var s := LeafAt(names, "hardlink", k);
        && PutAt(h0, h, root, ParentOf(p.output), s, i, h0[i]) && See(h0, root, ParentOf(p.output) + [s]) == Absent;
      var s := LeafAt(names, "hardlink", k);
      PutSee(h0, h, root, ParentOf(p.output), s, i, h0[i]);
      assert See(h, root, ParentOf(p.output) + [s]) == Look(h, i);
    } else {
      PutSee(h0, h, root, ParentOf(p.output), Last(p.output), i, h0[i]);
    }
  }

  /** The link could be made and was; if its output named the target's inode already, all that is
      new is a stray leaf. */
  ghost predicate LinkDone(h0: Heap, h: Heap, root: Ino, p: PendingHardLink, names: NameSource) {
    && p.output != [] && p.target != [] && Judge(h0, root, p).Ready?
    && var i := Judge(h0, root, p).ino;
       if Resolve(h0, root, p.output) == TFile(i) then StrayLeft(h0, h, root, p.output, i, names)
       else LinkMade(h0, h, root, p.output, i)
  }

  lemma LinkEvolves(h0: Heap, h: Heap, root: Ino, q: Route, n: Name, i: Ino)
    requires Wf(h0) && Closed(h) && i in h0 && h0[i].File? && PutAt(h0, h, root, q, n, i, h0[i])
    requires Replaceable(See(h0, root, q + [n]))
    ensures Evolves(h0, h, root)
  {
    PutEvolves(h0, h, root, q, n, i, h0[i]);
  }

  /** The leaf is staged; check it against the opened source, rename it, and keep it. */
  method CommitHardLink(disk: Disk, ghost names: NameSource, ghost root: Ino, d: Ino, s: Name, leaf: Name, source: Ino,
      ghost q: Route, ghost h0: Heap)
    returns (ok: bool)
    requires Rooted(disk, root) && Wf(h0) && Walk(h0, root, q) == Some(d) && IsDir(h0, d)
    requires source in h0 && h0[source].File? && Lookup(h0, d, s) == None && LeafReplaceable(h0, d, leaf)
    requires disk.heap == Attach(h0, d, s, source)
    requires exists k: nat :: s == LeafAt(names, "hardlink", k)
    modifies disk
    ensures Rooted(disk, root) && disk.clock >= old(disk.clock)
    ensures Evolves(h0, disk.heap, root)
    ensures ok ==> if Lookup(h0, d, leaf) == Some(source) then StrayLeft(h0, disk.heap, root, q + [leaf], source, names)
                   else LinkMade(h0, disk.heap, root, q + [leaf], source)
    ensures old(disk.Quiet()) ==> ok
  {
    StagedLinkEvolves(h0, disk.heap, root, q, d, s, source);
    var staged := OpenRegularFileAt(disk, d, s);
    if staged.Err? || staged.value != source {
      DropLink(disk, root, d, s, source, q, h0);
      return false;
    }
    RenamedLink(h0, disk.heap, d, s, leaf, source);
    var renamed := disk.Rename(d, s, d, leaf);
    if renamed.Err? {
      DropLink(disk, root, d, s, source, q, h0);
      return false;
    }
    LeafSeen(h0, root, q, leaf);
    LeafSeen(h0, root, q, s);
    assert ParentOf(q + [leaf]) == q && Last(q + [leaf]) == leaf;
    if Lookup(h0, d, leaf) != Some(source) {
      assert LinkMade(h0, disk.heap, root, q + [leaf], source);
      LinkEvolves(h0, disk.heap, root, q, leaf, source);
    }
    ok := true;
  }

  lemma RenamedLink(h0: Heap, h: Heap, d: Ino, s: Name, leaf: Name, i: Ino)
    requires Closed(h0) && IsDir(h0, d) && Lookup(h0, d, s) == None && i in h0 && h0[i].File?
    requires h == Attach(h0, d, s, i) && LeafReplaceable(h0, d, leaf)
    ensures Move(h, d, s, d, leaf) == Ok(if Lookup(h0, d, leaf) == Some(i) then h else Attach(h0, d, leaf, i))
  {
    assert ((h0[d].entries[s := i]) - {s})[leaf := i] == h0[d].entries[leaf := i];
    assert Attach(Detach(h, d, s), d, leaf, i) == Attach(h0, d, leaf, i);
  }

  lemma StagedLinkEvolves(h0: Heap, h: Heap, root: Ino, q: Route, d: Ino, s: Name, i: Ino)
    requires Wf(h0) && Closed(h) && Walk(h0, root, q) == Some(d) && IsDir(h0, d)
    requires i in h0 && h0[i].File? && Lookup(h0, d, s) == None && h == Attach(h0, d, s, i)
    ensures PutAt(h0, h, root, q, s, i, h0[i]) && Evolves(h0, h, root)
  {
    LeafSeen(h0, root, q, s);
    assert h0[i := h0[i]] == h0;
    LinkEvolves(h0, h, root, q, s, i);
  }

  method DropLink(disk: Disk, ghost root: Ino, d: Ino, s: Name, ghost i: Ino, ghost q: Route, ghost h0: Heap)
    requires Rooted(disk, root) && Wf(h0) && Walk(h0, root, q) == Some(d) && IsDir(h0, d)
    requires i in h0 && h0[i].File? && Lookup(h0, d, s) == None && disk.heap == Attach(h0, d, s, i)
    modifies disk
    ensures Rooted(disk, root) && disk.clock >= old(disk.clock) && Evolves(h0, disk.heap, root)
  {
    StagedLinkEvolves(h0, disk.heap, root, q, d, s, i);
    var removed := disk.RemoveFile(d, s);
    if removed.Ok? {
      assert disk.heap == h0 by {
        assert (h0[d].entries[s := i]) - {s} == h0[d].entries;
      }
      EvolvesRefl(h0, root);
    }
  }

  /** No recorded path differs from the target in letter case only. */
  ghost predicate CaseOk(recorded: set<Route>, target: Route) {
    forall p :: p in recorded && SameFold(p, target) ==> p == target
  }

  ghost function RecordedBy(tracker: Option<CaseCollisionTracker>): set<Route>
    reads if tracker.Some? then {tracker.value} else {}
  {
    if tracker.Some? then tracker.value.recorded else {}
  }

  /** `sanitize_archive_path` yields such paths only. */
  ghost predicate LinkReady(l: PendingHardLink) {
    l.output != [] && BytePath(l.target)
  }

  ghost predicate Trackable(tracker: Option<CaseCollisionTracker>)
    reads if tracker.Some? then {tracker.value} else {}
  {
    tracker.Some? ==> tracker.value.Valid()
  }

  ghost predicate LinksReady(links: seq<PendingHardLink>) {
    forall l :: l in links ==> LinkReady(l)
  }

  /** `try_create_tar_hard_link`. */
  method TryCreateHardLink(disk: Disk, names: NameSource, root: Ino, tracker: Option<CaseCollisionTracker>,
      p: PendingHardLink)
    returns (r: Result<bool, string>)
    requires Rooted(disk, root) && LinkReady(p) && Trackable(tracker)
    modifies disk, names
    ensures Rooted(disk, root) && disk.clock >= old(disk.clock) && names.sequence >= old(names.sequence)
    ensures Evolves(old(disk.heap), disk.heap, root)
    ensures r.Ok? && !r.value ==> disk.heap == old(disk.heap)
    ensures r.Ok? && r.value ==>
              CaseOk(RecordedBy(tracker), p.target) && LinkDone(old(disk.heap), disk.heap, root, p, names)
    ensures r.Ok? && r.value ==>
              (Strays(old(disk.heap), disk.heap, root, p.output)
               <==> Resolve(old(disk.heap), root, p.output) == Resolve(old(disk.heap), root, p.target))
    ensures old(disk.Quiet() && Unclaimed(disk.heap, names)) ==>
              match Judge(old(disk.heap), root, p)
              case Refused => r.Err?
              case Later => (r.Ok? && !r.value) || !CaseOk(RecordedBy(tracker), p.target)
              case Ready(_) => (r.Ok? && r.value) || !CaseOk(RecordedBy(tracker), p.target)
    ensures !CaseOk(RecordedBy(tracker), p.target) ==> r.Err?
  {
    ghost var h0 := disk.heap;
    EvolvesRefl(h0, root);
    if tracker.Some? {
      var exact := tracker.value.EnsureExactCaseMatch(p.target);
      if !exact {
        return Err("case collision");
      }
    }
    var parents := OpenParents(disk, root, p);
    if parents.Err? {
      return Err(parents.error);
    }
    if parents.value == None {
      return Ok(false);
    }
    r := LinkInto(disk, names, root, p, parents.value.value.0, parents.value.value.1);
    if r.Ok? && r.value {
      StrayWhenSame(h0, disk.heap, root, p, names);
    }
  }

  /** The directories of the output and of the target; `None` when that of the target is missing. */
  method OpenParents(disk: Disk, root: Ino, p: PendingHardLink) returns (r: Result<Option<(Ino, Ino)>, string>)
    requires Rooted(disk, root) && p.output != [] && p.target != []
    modifies disk
    ensures Rooted(disk, root) && disk.clock >= old(disk.clock) && disk.heap == old(disk.heap)
    ensures r.Ok? && r.value.Some? ==> && Probe(disk.heap, root, ParentOf(p.output)) == Found(r.value.value.0)
                                       && Probe(disk.heap, root, ParentOf(p.target)) == Found(r.value.value.1)
    ensures old(disk.Quiet()) ==>
              if !Probe(disk.heap, root, ParentOf(p.output)).Found? then r.Err?
              else
                match Probe(disk.heap, root, ParentOf(p.target))
                case Blocked => r.Err?
                case Missing => r == Ok(None)
                case Found(_) => r.Ok? && r.value.Some?
  {
    var outputs := TryOpenChain(disk, root, ParentOf(p.output), false);
    if outputs.Err? || outputs.value == None {
      return Err("archive parent does not exist");
    }
    var targets := TryOpenChain(disk, root, ParentOf(p.target), false);
    if targets.Err? {
      return Err(targets.error);
    }
    ProbeWalk(disk.heap, root, ParentOf(p.output));
    ProbeWalk(disk.heap, root, ParentOf(p.target));
    r := Ok(if targets.value.Some? then Some((outputs.value.value, targets.value.value)) else None);
  }

  /** With both parent directories open, the two leaves decide. */
  lemma JudgeAt(h: Heap, root: Ino, p: PendingHardLink, d: Ino, sd: Ino)
    requires p.output != [] && p.target != []
    requires Probe(h, root, ParentOf(p.output)) == Found(d) && Probe(h, root, ParentOf(p.target)) == Found(sd)
    ensures Judge(h, root, p) ==
            match Lookup(h, sd, Last(p.target))
            case None => Later
            case Some(i) => if i in h && h[i].File? && LeafReplaceable(h, d, Last(p.output)) then Ready(i) else Refused
  {
  }

  lemma OutputAt(h: Heap, root: Ino, output: Route, d: Ino, i: Ino)
    requires output != [] && Probe(h, root, ParentOf(output)) == Found(d) && i in h && h[i].File?
    ensures Resolve(h, root, output) == TFile(i) <==> Lookup(h, d, Last(output)) == Some(i)
  {
  }

  lemma LinkIsDone(h0: Heap, h: Heap, root: Ino, p: PendingHardLink, names: NameSource, d: Ino, sd: Ino, i: Ino)
    requires p.output != [] && p.target != [] && i in h0 && h0[i].File?
    requires Probe(h0, root, ParentOf(p.output)) == Found(d) && Probe(h0, root, ParentOf(p.target)) == Found(sd)
    requires Lookup(h0, sd, Last(p.target)) == Some(i) && LeafReplaceable(h0, d, Last(p.output))
    requires if Lookup(h0, d, Last(p.output)) == Some(i) then StrayLeft(h0, h, root, p.output, i, names)
             else LinkMade(h0, h, root, p.output, i)
    ensures LinkDone(h0, h, root, p, names)
  {
    JudgeAt(h0, root, p, d, sd);
    OutputAt(h0, root, p.output, d, i);
  }

  method LinkInto(disk: Disk, names: NameSource, root: Ino, p: PendingHardLink, d: Ino, sd: Ino)
    returns (r: Result<bool, string>)
    requires Rooted(disk, root) && p.output != [] && p.target != []
    requires Probe(disk.heap, root, ParentOf(p.output)) == Found(d)
    requires Probe(disk.heap, root, ParentOf(p.target)) == Found(sd)
    modifies disk, names
    ensures Rooted(disk, root) && disk.clock >= old(disk.clock) && names.sequence >= old(names.sequence)
    ensures Evolves(old(disk.heap), disk.heap, root)
    ensures r.Ok? && !r.value ==> disk.heap == old(disk.heap)
    ensures r.Ok? && r.value ==>
              LinkDone(old(disk.heap), disk.heap, root, p, names)
    ensures old(disk.Quiet() && Unclaimed(disk.heap, names)) ==>
              match Judge(old(disk.heap), root, p)
              case Refused => r.Err?
              case Later => r.Ok? && !r.value
              case Ready(_) => r.Ok? && r.value
  {
    ghost var h0 := disk.heap;
    EvolvesRefl(h0, root);
    ProbeWalk(h0, root, ParentOf(p.output));
    JudgeAt(h0, root, p, d, sd);
    assert p.output == ParentOf(p.output) + [Last(p.output)];
    var source := OpenRegularFileAt(disk, sd, Last(p.target));
    if source == Err(NotFound) {
      r := Ok(false);
    } else if source.Err? {
      r := Err("unsafe hard link target");
    } else {
      var leaf := Last(p.output);
      var free := EnsureReplaceable(disk, d, leaf);
      if !free {
        r := Err("unsafe archive output");
      } else {
        var staged := StageHardLink(disk, names, sd, Last(p.target), d);
        if staged.Err? {
          r := Err(staged.error);
        } else {
          var ok := CommitHardLink(disk, names, root, d, staged.value, leaf, source.value, ParentOf(p.output), h0);
          if ok {
            LinkIsDone(h0, disk.heap, root, p, names, d, sd, source.value);
          }
          r := if ok then Ok(true) else Err("failed to commit archive entry");
        }
      }
    }
  }

  // ---------------------------------------------------------------- chains of links

  /** Starting from `path` in the tree `h0`, at most `n` of the given links lead to the file `i`. */
  ghost predicate Leads(h0: Heap, root: Ino, links: set<PendingHardLink>, path: Route, i: Ino, n: nat)
    requires path != []
    decreases n
  {
    match Resolve(h0, root, path)
    case TFile(j) => i == j
    case TBad => false
    case TMissing => n > 0 && exists l :: l in links && l.output == path && l.target != []
                                          && Leads(h0, root, links, l.target, i, n - 1)
  }

  ghost predicate LeadsTo(h0: Heap, root: Ino, links: set<PendingHardLink>, path: Route, i: Ino)
    requires path != []
  {
    exists n :: Leads(h0, root, links, path, i, n)
  }

  ghost predicate Distinct(links: set<PendingHardLink>) {
    && (forall l :: l in links ==> l.output != [] && l.target != [])
    && (forall l, m :: l in links && m in links && l.output == m.output ==> l == m)
  }

  /** With one link per output, a chain ends at one file only. */
  lemma {:induction false} ChainsAgree(h0: Heap, root: Ino, links: set<PendingHardLink>, path: Route, i: Ino, n: nat,
      j: Ino, m: nat)
    requires path != [] && Distinct(links)
    requires Leads(h0, root, links, path, i, n) && Leads(h0, root, links, path, j, m)
    ensures i == j
    decreases n
  {
    if Resolve(h0, root, path).TMissing? {
      var l :| l in links && l.output == path && l.target != [] && Leads(h0, root, links, l.target, i, n - 1);
      var l' :| l' in links && l'.output == path && l'.target != [] && Leads(h0, root, links, l'.target, j, m - 1);
      assert l == l';
      ChainsAgree(h0, root, links, l.target, i, n - 1, j, m - 1);
    }
  }

  /** What is seen once every link has been made. Only the set of links matters, not their order. */
  ghost function Linked(h0: Heap, root: Ino, links: set<PendingHardLink>, p: Route): Seen
  {
    if exists l :: l in links && l.output == p && p != [] && EndsSomewhere(h0, root, links, p)
    then
      var i := ChainEnd(h0, root, links, p);
      if i in h0 then Look(h0, i) else Absent
    else See(h0, root, p)
  }

  ghost predicate EndsSomewhere(h0: Heap, root: Ino, links: set<PendingHardLink>, p: Route)
    requires p != []
  {
    exists i :: LeadsTo(h0, root, links, p, i)
  }

  ghost function ChainEnd(h0: Heap, root: Ino, links: set<PendingHardLink>, p: Route): Ino
    requires p != [] && EndsSomewhere(h0, root, links, p)
  {
    var i :| LeadsTo(h0, root, links, p, i); i
  }

  // ---------------------------------------------------------------- the rounds

  /** `done` records the links made so far; the tree is `h0` with exactly those outputs added. */
  ghost predicate Progress(h0: Heap, h: Heap, root: Ino, links: set<PendingHardLink>, done: map<Route, Ino>) {
    && AllSettled(h0, root, links, done)
    && Resolved(h0, h, root, done)
    && Shows(h0, h, root, done)
    && KeepsNodes(h0, h)
  }

  ghost predicate AllSettled(h0: Heap, root: Ino, links: set<PendingHardLink>, done: map<Route, Ino>) {
    forall o :: o in done ==> Settled(h0, root, links, o, done[o])
  }

  ghost predicate Resolved(h0: Heap, h: Heap, root: Ino, done: map<Route, Ino>) {
    forall p :: p != [] ==> Resolve(h, root, p) == if p in done then TFile(done[p])
                                                   else if Covered(done, p) then TBad
                                                   else Resolve(h0, root, p)
  }

  ghost predicate Shows(h0: Heap, h: Heap, root: Ino, done: map<Route, Ino>) {
    forall p :: See(h, root, p) == if p in done && done[p] in h0 then Look(h0, done[p]) else See(h0, root, p)
  }

  ghost predicate KeepsNodes(h0: Heap, h: Heap) {
    forall i :: i in h0 && !IsDir(h0, i) ==> i in h && h[i] == h0[i]
  }

  ghost predicate Settled(h0: Heap, root: Ino, links: set<PendingHardLink>, o: Route, i: Ino) {
    && o != [] && (exists l :: l in links && l.output == o)
    && Resolve(h0, root, o).TMissing? && LeadsTo(h0, root, links, o, i) && i in h0
  }

  ghost predicate Covered(done: map<Route, Ino>, p: Route) {
    exists o :: o in done && IsProperPrefix(o, p)
  }

  /** Making one more link whose output is still missing. */
  lemma ProgressStep(h0: Heap, h: Heap, h': Heap, root: Ino, links: set<PendingHardLink>, done: map<Route, Ino>,
      l: PendingHardLink, i: Ino)
    requires Wf(h0) && Wf(h) && Closed(h') && IsDir(h, root) && l in links && l.output !in done && l.target != []
    requires Progress(h0, h, root, links, done)
    requires l.output != [] && Resolve(h0, root, l.output).TMissing? && Resolve(h, root, l.output).TMissing?
    requires Resolve(h, root, l.target) == TFile(i) && LinkMade(h, h', root, l.output, i)
    ensures Progress(h0, h', root, links, done[l.output := i])
  {
    TargetLeads(h0, h, root, links, done, l, i);
    ResolvedStep(h0, h, h', root, links, done, l, i);
    ShowsStep(h0, h, h', root, links, done, l, i);
  }

  lemma ShowsStep(h0: Heap, h: Heap, h': Heap, root: Ino, links: set<PendingHardLink>, done: map<Route, Ino>,
      l: PendingHardLink, i: Ino)
    requires Wf(h0) && Wf(h) && Closed(h') && l.target != []
    requires Progress(h0, h, root, links, done)
    requires Resolve(h, root, l.target) == TFile(i) && LinkMade(h, h', root, l.output, i)
    ensures Shows(h0, h', root, done[l.output := i]) && KeepsNodes(h0, h')
  {
    InodeOfOld(h0, h, root, links, done, l.target, i);
    PutSee(h, h', root, ParentOf(l.output), Last(l.output), i, h[i]);
    assert l.output == ParentOf(l.output) + [Last(l.output)];
    assert h'[i] == h[i] == h0[i];
  }

  lemma ResolvedStep(h0: Heap, h: Heap, h': Heap, root: Ino, links: set<PendingHardLink>, done: map<Route, Ino>,
      l: PendingHardLink, i: Ino)
    requires Wf(h) && Closed(h') && IsDir(h, root)
    requires Progress(h0, h, root, links, done)
    requires l.output != [] && Resolve(h, root, l.output).TMissing? && LinkMade(h, h', root, l.output, i)
    ensures Resolved(h0, h', root, done[l.output := i])
  {
    forall p | p != []
      ensures Resolve(h', root, p) == if p in done[l.output := i] then TFile(done[l.output := i][p])
                                      else if Covered(done[l.output := i], p) then TBad
                                      else Resolve(h0, root, p)
    {
      ResolveStep(h0, h, h', root, links, done, l, i, p);
    }
  }

  lemma ResolveStep(h0: Heap, h: Heap, h': Heap, root: Ino, links: set<PendingHardLink>, done: map<Route, Ino>,
      l: PendingHardLink, i: Ino, p: Route)
    requires Wf(h) && Closed(h') && IsDir(h, root) && p != []
    requires Progress(h0, h, root, links, done)
    requires l.output != [] && Resolve(h, root, l.output).TMissing? && LinkMade(h, h', root, l.output, i)
    ensures Resolve(h', root, p) == if p in done[l.output := i] then TFile(done[l.output := i][p])
                                    else if Covered(done[l.output := i], p) then TBad
                                    else Resolve(h0, root, p)
  {
    var q, n := ParentOf(l.output), Last(l.output);
    assert l.output == q + [n];
    ProbeWalk(h, root, q);
    PutResolve(h, h', root, q, n, i, h[i], p);
    CoveredMore(done, l.output, i, p);
    if p != l.output && IsProperPrefix(l.output, p) {
      MissingBelow(h, root, l.output, p);
    }
  }

  /** Nothing can be found below a path that is missing. */
  lemma MissingBelow(h: Heap, root: Ino, o: Route, p: Route)
    requires IsDir(h, root) && o != [] && Resolve(h, root, o).TMissing? && IsProperPrefix(o, p)
    ensures Resolve(h, root, p).TMissing? && Probe(h, root, ParentOf(p)).Missing?
  {
    assert o == ParentOf(o) + [Last(o)];
    ProbeSnoc(h, root, ParentOf(o), Last(o));
    assert ParentOf(p)[..|o|] == o;
    ProbeStops(h, root, ParentOf(p), |o|);
  }

  lemma CoveredMore(done: map<Route, Ino>, o: Route, i: Ino, p: Route)
    ensures Covered(done[o := i], p) <==> Covered(done, p) || IsProperPrefix(o, p)
  {
    if IsProperPrefix(o, p) {
      assert o in done[o := i];
    }
  }

  lemma InodeOfOld(h0: Heap, h: Heap, root: Ino, links: set<PendingHardLink>, done: map<Route, Ino>, path: Route,
      i: Ino)
    requires Wf(h0) && path != [] && Progress(h0, h, root, links, done) && Resolve(h, root, path) == TFile(i)
    ensures i in h0 && h0[i].File? && i in h && h[i] == h0[i]
  {
    if path in done {
      LeadsFile(h0, root, links, path, i);
    }
  }

  lemma LeadsFile(h0: Heap, root: Ino, links: set<PendingHardLink>, path: Route, i: Ino)
    requires path != [] && LeadsTo(h0, root, links, path, i)
    ensures i in h0 && h0[i].File?
  {
    var n :| Leads(h0, root, links, path, i, n);
    LeadsFileIn(h0, root, links, path, i, n);
  }

  lemma {:induction false} LeadsFileIn(h0: Heap, root: Ino, links: set<PendingHardLink>, path: Route, i: Ino, n: nat)
    requires path != [] && Leads(h0, root, links, path, i, n)
    ensures i in h0 && h0[i].File?
    decreases n
  {
    if Resolve(h0, root, path).TMissing? {
      var l :| l in links && l.output == path && l.target != [] && Leads(h0, root, links, l.target, i, n - 1);
      LeadsFileIn(h0, root, links, l.target, i, n - 1);
    }
  }

  /** A link that can be made now was always going to lead to that file. */
  lemma TargetLeads(h0: Heap, h: Heap, root: Ino, links: set<PendingHardLink>, done: map<Route, Ino>,
      l: PendingHardLink, i: Ino)
    requires l in links && l.output != [] && l.target != [] && Progress(h0, h, root, links, done)
    requires Wf(h0) && Resolve(h, root, l.target) == TFile(i) && Resolve(h0, root, l.output).TMissing?
    ensures LeadsTo(h0, root, links, l.output, i) && LeadsTo(h0, root, links, l.target, i) && i in h0
  {
    if l.target !in done {
      assert Leads(h0, root, links, l.target, i, 0);
    }
    var n: nat :| Leads(h0, root, links, l.target, i, n);
    assert Leads(h0, root, links, l.output, i, n + 1);
    LeadsFile(h0, root, links, l.target, i);
  }

  // ---------------------------------------------------------------- the loop

  ghost function Links(links: seq<PendingHardLink>): set<PendingHardLink> {
    set k | 0 <= k < |links| :: links[k]
  }

  /** One link per output, and every output is still absent in a directory that exists. */
  ghost predicate Separate(h0: Heap, root: Ino, links: seq<PendingHardLink>) {
    && (forall k :: 0 <= k < |links| ==> Vacant(h0, root, links[k]))
    && OneEach(links)
  }

  ghost predicate Vacant(h0: Heap, root: Ino, l: PendingHardLink) {
    && l.output != [] && l.target != []
    && Probe(h0, root, ParentOf(l.output)).Found? && Resolve(h0, root, l.output).TMissing?
  }

  ghost predicate OneEach(links: seq<PendingHardLink>) {
    forall j, k :: 0 <= j < k < |links| ==> links[j].output != links[k].output
  }

  /** Every link is either made or still to do, and none is both. */
  ghost predicate Todo(links: set<PendingHardLink>, done: map<Route, Ino>, todo: seq<PendingHardLink>) {
    && OneEach(todo)
    && (forall k :: 0 <= k < |todo| ==> todo[k] in links && todo[k].output !in done)
    && (forall l :: l in links ==> l.output in done || l in todo)
  }

  ghost predicate AllVacant(h0: Heap, root: Ino, links: set<PendingHardLink>) {
    Distinct(links) && forall l :: l in links ==> Vacant(h0, root, l)
  }

  ghost predicate Midway(h0: Heap, h: Heap, root: Ino, links: set<PendingHardLink>, done: map<Route, Ino>,
      todo: seq<PendingHardLink>) {
    && Wf(h0) && IsDir(h0, root) && AllVacant(h0, root, links) && Evolves(h0, h, root)
    && Progress(h0, h, root, links, done) && Todo(links, done, todo)
  }

  ghost predicate CaseDone(recorded: set<Route>, links: set<PendingHardLink>, done: map<Route, Ino>) {
    forall l :: l in links && l.output in done ==> CaseOk(recorded, l.target)
  }

  /** Every link leads to a file, and none refers to a recorded path in other letter case. */
  ghost predicate Solvable(h0: Heap, root: Ino, recorded: set<Route>, links: set<PendingHardLink>) {
    forall l :: l in links ==> CaseOk(recorded, l.target) && l.target != [] && EndsSomewhere(h0, root, links, l.target)
  }

  lemma Begin(h0: Heap, root: Ino, links: seq<PendingHardLink>)
    requires Wf(h0) && IsDir(h0, root) && Separate(h0, root, links)
    ensures Midway(h0, h0, root, Links(links), map[], links)
  {
    EvolvesRefl(h0, root);
  }

  /** What a link still to do meets in the tree so far. */
  lemma Meets(h0: Heap, h: Heap, root: Ino, links: set<PendingHardLink>, done: map<Route, Ino>,
      todo: seq<PendingHardLink>, l: PendingHardLink)
    requires Midway(h0, h, root, links, done, todo) && Wf(h) && l in todo
    ensures Probe(h, root, ParentOf(l.output)).Found? && Resolve(h, root, l.output).TMissing?
    ensures Resolve(h, root, l.target).TBad? ==> !EndsSomewhere(h0, root, links, l.target)
  {
    assert Vacant(h0, root, l);
    ProbeWalk(h0, root, ParentOf(l.output));
    ProbeWalk(h, root, ParentOf(l.output));
    if Covered(done, l.output) {
      var o :| o in done && IsProperPrefix(o, l.output);
      MissingBelow(h0, root, o, l.output);
    }
    if Resolve(h, root, l.target).TBad? && Covered(done, l.target) {
      var o :| o in done && IsProperPrefix(o, l.target);
      MissingBelow(h0, root, o, l.target);
      NoOutput(h0, root, links, l.target);
    }
  }

  lemma NoOutput(h0: Heap, root: Ino, links: set<PendingHardLink>, p: Route)
    requires p != [] && Probe(h0, root, ParentOf(p)).Missing? && AllVacant(h0, root, links)
    ensures !EndsSomewhere(h0, root, links, p)
  {
    forall i, n: nat
      ensures !Leads(h0, root, links, p, i, n)
    {
    }
  }

  /** No target is there yet: then none of the links still to do leads anywhere. */
  lemma {:induction false} Stuck(h0: Heap, h: Heap, root: Ino, links: set<PendingHardLink>, done: map<Route, Ino>,
      todo: seq<PendingHardLink>, l: PendingHardLink, i: Ino, n: nat)
    requires Midway(h0, h, root, links, done, todo) && l in todo && l.target != []
    requires forall t :: t in todo && t.target != [] ==> Resolve(h, root, t.target).TMissing?
    ensures !Leads(h0, root, links, l.target, i, n)
    decreases n
  {
    if Leads(h0, root, links, l.target, i, n) {
      assert l.target !in done && !Covered(done, l.target);
      var t :| t in links && t.output == l.target && t.target != [] && Leads(h0, root, links, t.target, i, n - 1);
      Stuck(h0, h, root, links, done, todo, t, i, n - 1);
    }
  }

  lemma AllStuck(h0: Heap, h: Heap, root: Ino, links: set<PendingHardLink>, done: map<Route, Ino>,
      todo: seq<PendingHardLink>, l: PendingHardLink)
    requires Midway(h0, h, root, links, done, todo) && l in todo && l.target != []
    requires forall t :: t in todo && t.target != [] ==> Resolve(h, root, t.target).TMissing?
    ensures !EndsSomewhere(h0, root, links, l.target)
  {
    forall i, n: nat
      ensures !Leads(h0, root, links, l.target, i, n)
    {
      Stuck(h0, h, root, links, done, todo, l, i, n);
    }
  }

  /** The link at the head of the rest of the batch has been made. */
  lemma TodoStep(links: set<PendingHardLink>, done: map<Route, Ino>, kept: seq<PendingHardLink>,
      rest: seq<PendingHardLink>, i: Ino)
    requires rest != [] && Todo(links, done, kept + rest)
    ensures Todo(links, done[rest[0].output := i], kept + rest[1..])
  {
    var old', new' := kept + rest, kept + rest[1..];
    var at := |kept|;
    assert old'[at] == rest[0];
    forall k | 0 <= k < |new'|
      ensures new'[k] in links && new'[k].output !in done[rest[0].output := i]
    {
      assert new'[k] == old'[if k < at then k else k + 1];
    }
    forall j, k | 0 <= j < k < |new'|
      ensures new'[j].output != new'[k].output
    {
      assert new'[j] == old'[if j < at then j else j + 1] && new'[k] == old'[if k < at then k else k + 1];
    }
    forall l | l in links
      ensures l.output in done[rest[0].output := i] || l in new'
    {
      if l.output !in done && l != rest[0] {
        var k :| 0 <= k < |old'| && old'[k] == l;
        assert k < at ==> new'[k] == l;
        assert k > at ==> new'[k - 1] == l;
      }
    }
  }

  lemma Finished(h0: Heap, h: Heap, root: Ino, recorded: set<Route>, links: set<PendingHardLink>, done: map<Route, Ino>)
    requires Midway(h0, h, root, links, done, []) && CaseDone(recorded, links, done)
    ensures Solvable(h0, root, recorded, links)
    ensures forall p :: See(h, root, p) == Linked(h0, root, links, p)
  {
    forall l | l in links
      ensures l.target != [] && EndsSomewhere(h0, root, links, l.target)
    {
      assert Vacant(h0, root, l) && Settled(h0, root, links, l.output, done[l.output]);
      var n: nat :| Leads(h0, root, links, l.output, done[l.output], n);
      var m :| m in links && m.output == l.output && m.target != []
               && Leads(h0, root, links, m.target, done[l.output], n - 1);
      assert m == l && LeadsTo(h0, root, links, l.target, done[l.output]);
    }
    forall p
      ensures See(h, root, p) == Linked(h0, root, links, p)
    {
      if p in done {
        assert Settled(h0, root, links, p, done[p]);
        var e := ChainEnd(h0, root, links, p);
        var n: nat :| Leads(h0, root, links, p, done[p], n);
        var m: nat :| Leads(h0, root, links, p, e, m);
        ChainsAgree(h0, root, links, p, done[p], n, e, m);
      }
    }
  }

  /** Names still to be generated are not output names either. */
  ghost predicate Apart(names: NameSource, links: set<PendingHardLink>)
    reads names
  {
    forall l, purpose, k: nat :: l in links && l.output != [] && k >= names.sequence ==>
      LeafAt(names, purpose, k) != Last(l.output)
  }

  ghost predicate Calm(disk: Disk, names: NameSource, links: set<PendingHardLink>)
    reads disk, names
  {
    disk.Quiet() && Unclaimed(disk.heap, names) && Apart(names, links)
  }

  lemma MadeUnclaimed(h: Heap, h': Heap, root: Ino, l: PendingHardLink, i: Ino, names: NameSource,
      links: set<PendingHardLink>)
    requires LinkMade(h, h', root, l.output, i) && l in links
    requires Unclaimed(h, names) && Apart(names, links)
    ensures Unclaimed(h', names)
  {
    forall d, purpose, k: nat | k >= names.sequence
      ensures Lookup(h', d, LeafAt(names, purpose, k)) == None
    {
      assert Lookup(h, d, LeafAt(names, purpose, k)) == None;
    }
  }

  ghost predicate Waiting(h: Heap, root: Ino, links: seq<PendingHardLink>) {
    forall t :: t in links && t.target != [] ==> Resolve(h, root, t.target).TMissing?
  }

  /** What is known between two links of a round. */
  ghost predicate Going(h0: Heap, h: Heap, root: Ino, recorded: set<Route>, links: set<PendingHardLink>,
      done: map<Route, Ino>, todo: seq<PendingHardLink>) {
    Midway(h0, h, root, links, done, todo) && CaseDone(recorded, links, done)
  }

  lemma MadeStep(h0: Heap, h: Heap, h': Heap, root: Ino, recorded: set<Route>, links: set<PendingHardLink>,
      done: map<Route, Ino>,
      kept: seq<PendingHardLink>, rest: seq<PendingHardLink>, i: Ino, done': map<Route, Ino>)
    requires rest != [] && Going(h0, h, root, recorded, links, done, kept + rest) && done' == done[rest[0].output := i]
    requires Wf(h) && Closed(h') && IsDir(h, root) && Evolves(h, h', root)
    requires CaseOk(recorded, rest[0].target) && rest[0].target != [] && Resolve(h, root, rest[0].target) == TFile(i)
    requires LinkMade(h, h', root, rest[0].output, i)
    ensures Going(h0, h', root, recorded, links, done', kept + rest[1..])
  {
    var l := rest[0];
    assert (kept + rest)[|kept|] == l;
    Meets(h0, h, root, links, done, kept + rest, l);
    assert Vacant(h0, root, l);
    EvolvesTrans(h0, h, h', root);
    ProgressStep(h0, h, h', root, links, done, l, i);
    TodoStep(links, done, kept, rest, i);
  }

  /** The output is a directory by now, so the link can never be made. */
  ghost predicate Obstructed(h: Heap, root: Ino, l: PendingHardLink) {
    l.output != [] && See(h, root, l.output) == SeenDir
  }

  ghost predicate Stays(h: Heap, root: Ino, before: seq<PendingHardLink>, after: seq<PendingHardLink>) {
    forall l :: l in before && Obstructed(h, root, l) ==> l in after
  }

  lemma StaysTrans(h: Heap, h1: Heap, root: Ino, a: seq<PendingHardLink>, b: seq<PendingHardLink>,
      c: seq<PendingHardLink>)
    requires Stays(h, root, a, b) && Evolves(h, h1, root) && Stays(h1, root, b, c)
    ensures Stays(h, root, a, c)
  {
    forall l | l in a && Obstructed(h, root, l)
      ensures Obstructed(h1, root, l)
    {
      assert Walk(h1, root, l.output) == Walk(h, root, l.output);
    }
  }

  lemma StaysStep(h: Heap, root: Ino, kept: seq<PendingHardLink>, rest: seq<PendingHardLink>, made: bool)
    requires Closed(h) && IsDir(h, root) && rest != [] && rest[0].output != [] && rest[0].target != []
    requires made ==> Judge(h, root, rest[0]).Ready?
    ensures Stays(h, root, kept + rest, (if made then kept else kept + [rest[0]]) + rest[1..])
  {
    var p := rest[0].output;
    assert p == ParentOf(p) + [Last(p)];
    WalkSnoc(h, root, ParentOf(p), Last(p));
    ProbeWalk(h, root, ParentOf(p));
    assert made ==> !Obstructed(h, root, rest[0]);
    forall l | l in kept + rest
      ensures l in kept || l == rest[0] || l in rest[1..]
    {
      if l in rest {
        var k :| 0 <= k < |rest| && rest[k] == l;
        assert k > 0 ==> rest[1..][k - 1] == l;
      }
    }
  }

  /** One link of a round, the first of `rest`: it is made, or kept for the next round. */
  method Advance(disk: Disk, names: NameSource, root: Ino, tracker: Option<CaseCollisionTracker>,
      kept: seq<PendingHardLink>, rest: seq<PendingHardLink>,
      ghost h0: Heap, ghost recorded: set<Route>, ghost links: set<PendingHardLink>, ghost done: map<Route, Ino>,
      ghost fits: bool)
    returns (r: Result<bool, string>, kept': seq<PendingHardLink>, ghost done': map<Route, Ino>)
    requires Rooted(disk, root) && Trackable(tracker) && rest != [] && LinksReady(kept) && LinksReady(rest)
    requires recorded == RecordedBy(tracker)
    requires fits ==> Going(h0, disk.heap, root, recorded, links, done, kept + rest)
    modifies disk, names
    ensures Rooted(disk, root) && disk.clock >= old(disk.clock) && names.sequence >= old(names.sequence)
    ensures Evolves(old(disk.heap), disk.heap, root)
    ensures r == Ok(false) ==> disk.heap == old(disk.heap)
    ensures kept' == (if r == Ok(false) then kept + [rest[0]] else kept) && LinksReady(kept') && LinksReady(rest[1..])
    ensures r.Ok? ==> Stays(old(disk.heap), root, kept + rest, kept' + rest[1..])
    ensures fits && r.Ok? ==> Going(h0, disk.heap, root, recorded, links, done', kept' + rest[1..])
    ensures fits && old(Calm(disk, names, links)) ==>
              if r.Err? then !Solvable(h0, root, recorded, links) else Calm(disk, names, links)
    ensures fits && old(Calm(disk, names, links)) && r == Ok(false) && Waiting(disk.heap, root, kept) ==>
              Waiting(disk.heap, root, kept') || !Solvable(h0, root, recorded, links)
  {
    ghost var h := disk.heap;
    var l := rest[0];
    KeepFirst(kept, rest);
    r := TryCreateHardLink(disk, names, root, tracker, l);
    kept', done' := kept, done;
    if fits {
      Judged(h0, h, root, recorded, links, done, kept + rest, l);
    }
    if r.Err? {
      return;
    }
    StaysStep(h, root, kept, rest, r.value);
    if r.value {
      if fits {
        ghost var i := Judge(h, root, l).ino;
        done' := done[l.output := i];
        MadeStep(h0, h, disk.heap, root, recorded, links, done, kept, rest, i, done');
        if old(Calm(disk, names, links)) {
          MadeUnclaimed(h, disk.heap, root, l, i, names, links);
        }
      }
    } else {
      kept' := kept + [rest[0]];
      if fits {
        KeptStep(h0, h, root, recorded, links, done, kept, rest);
      }
    }
  }

  /** A link that cannot be made now or later has no file to lead to. */
  lemma Judged(h0: Heap, h: Heap, root: Ino, recorded: set<Route>, links: set<PendingHardLink>, done: map<Route, Ino>,
      todo: seq<PendingHardLink>, l: PendingHardLink)
    requires Going(h0, h, root, recorded, links, done, todo) && Wf(h) && l in todo && l.output != [] && l.target != []
    ensures !CaseOk(recorded, l.target) ==> !Solvable(h0, root, recorded, links)
    ensures l in links && Resolve(h, root, l.output).TMissing?
    ensures match Judge(h, root, l)
            case Refused => !Solvable(h0, root, recorded, links)
            case Later => Resolve(h, root, l.target).TMissing?
            case Ready(i) => Resolve(h, root, l.target) == TFile(i)
  {
    Meets(h0, h, root, links, done, todo, l);
  }

  lemma KeptStep(h0: Heap, h: Heap, root: Ino, recorded: set<Route>, links: set<PendingHardLink>, done: map<Route, Ino>,
      kept: seq<PendingHardLink>, rest: seq<PendingHardLink>)
    requires rest != [] && Going(h0, h, root, recorded, links, done, kept + rest)
    ensures Going(h0, h, root, recorded, links, done, (kept + [rest[0]]) + rest[1..])
    ensures Waiting(h, root, kept) && (rest[0].target != [] ==> Resolve(h, root, rest[0].target).TMissing?) ==>
              Waiting(h, root, kept + [rest[0]])
  {
    KeepFirst(kept, rest);
  }

  lemma KeepFirst(kept: seq<PendingHardLink>, rest: seq<PendingHardLink>)
    requires rest != []
    ensures kept + rest == (kept + [rest[0]]) + rest[1..]
    ensures rest[0] in kept + rest
    ensures LinksReady(rest) ==> LinkReady(rest[0]) && LinksReady(rest[1..])
    ensures LinksReady(kept) && LinksReady(rest) ==> LinksReady(kept + [rest[0]])
  {
    assert (kept + rest)[|kept|] == rest[0];
  }

  /** One round over the batch: `remaining` keeps what could not be made yet. */
  method Round(disk: Disk, names: NameSource, root: Ino, tracker: Option<CaseCollisionTracker>,
      batch: seq<PendingHardLink>,
      ghost h0: Heap, ghost recorded: set<Route>, ghost links: set<PendingHardLink>, ghost done: map<Route, Ino>,
      ghost fits: bool)
    returns (r: Result<bool, string>, remaining: seq<PendingHardLink>, ghost done': map<Route, Ino>)
    requires Rooted(disk, root) && LinksReady(batch) && Trackable(tracker) && recorded == RecordedBy(tracker)
    requires fits ==> Going(h0, disk.heap, root, recorded, links, done, batch)
    modifies disk, names
    ensures Rooted(disk, root) && disk.clock >= old(disk.clock) && names.sequence >= old(names.sequence)
    ensures Evolves(old(disk.heap), disk.heap, root)
    ensures r.Ok? ==> LinksReady(remaining) && |remaining| <= |batch| && (r.value <==> |remaining| < |batch|)
    ensures r == Ok(false) ==> disk.heap == old(disk.heap)
    ensures r.Ok? ==> Stays(old(disk.heap), root, batch, remaining)
    ensures fits && r.Ok? ==> Going(h0, disk.heap, root, recorded, links, done', remaining)
    ensures fits && old(Calm(disk, names, links)) ==>
              if r.Err? then !Solvable(h0, root, recorded, links) else Calm(disk, names, links)
    ensures fits && old(Calm(disk, names, links)) && r == Ok(false) ==>
              Waiting(disk.heap, root, remaining) || !Solvable(h0, root, recorded, links)
  {
    ghost var h := disk.heap;
    ghost var calm := fits && Calm(disk, names, links);
    EvolvesRefl(h, root);
    remaining := [];
    var progressed, rest := false, batch;
    done' := done;
    assert remaining + rest == batch;
    while rest != []
      invariant |remaining| + |rest| <= |batch| && (progressed <==> |remaining| + |rest| < |batch|)
      invariant Rooted(disk, root) && disk.clock >= old(disk.clock) && names.sequence >= old(names.sequence)
      invariant LinksReady(remaining) && LinksReady(rest)
      invariant Evolves(h, disk.heap, root) && (!progressed ==> disk.heap == h)
      invariant Stays(h, root, batch, remaining + rest)
      invariant fits ==> Going(h0, disk.heap, root, recorded, links, done', remaining + rest)
      invariant calm ==> Calm(disk, names, links)
      invariant calm && !progressed ==> Waiting(disk.heap, root, remaining) || !Solvable(h0, root, recorded, links)
      decreases |rest|
    {
      ghost var h1, todo := disk.heap, remaining + rest;
      var made;
      made, remaining, done' := Advance(disk, names, root, tracker, remaining, rest, h0, recorded, links, done', fits);
      EvolvesTrans(h, h1, disk.heap, root);
      if made.Err? {
        r := Err(made.error);
        return;
      }
      StaysTrans(h, h1, root, batch, todo, remaining + rest[1..]);
      progressed := progressed || made.value;
      rest := rest[1..];
    }
    assert remaining + rest == remaining;
    r := Ok(progressed);
  }

  /** `resolve_pending_tar_hard_links`. With one absent output per link, and no faults, it succeeds
      exactly when every link leads to a regular file; what it leaves depends only on which links
      there are, not on their order. */
  method ResolvePending(disk: Disk, names: NameSource, root: Ino, tracker: Option<CaseCollisionTracker>,
      links: seq<PendingHardLink>)
    returns (ok: bool)
    requires Rooted(disk, root) && LinksReady(links) && Trackable(tracker)
    modifies disk, names
    ensures Rooted(disk, root) && disk.clock >= old(disk.clock) && names.sequence >= old(names.sequence)
    ensures Evolves(old(disk.heap), disk.heap, root)
    ensures ok ==> forall l :: l in links ==> !Obstructed(old(disk.heap), root, l)
    ensures ok && Separate(old(disk.heap), root, links) ==>
              && Solvable(old(disk.heap), root, RecordedBy(tracker), Links(links))
              && forall p :: See(disk.heap, root, p) == Linked(old(disk.heap), root, Links(links), p)
    ensures Separate(old(disk.heap), root, links) && old(Calm(disk, names, Links(links))) ==>
              (ok <==> Solvable(old(disk.heap), root, RecordedBy(tracker), Links(links)))
  {
    ghost var h0, all, recorded := disk.heap, Links(links), RecordedBy(tracker);
    ghost var fits := Separate(h0, root, links);
    ghost var done: map<Route, Ino> := map[];
    EvolvesRefl(h0, root);
    if fits {
      Begin(h0, root, links);
    }
    var pending := links;
    ok := true;
    while pending != [] && ok
      invariant Rooted(disk, root) && disk.clock >= old(disk.clock) && names.sequence >= old(names.sequence)
      invariant Evolves(h0, disk.heap, root)
      invariant ok ==> LinksReady(pending) && Stays(h0, root, links, pending)
      invariant fits && ok ==> Going(h0, disk.heap, root, recorded, all, done, pending)
      invariant fits && old(Calm(disk, names, Links(links))) ==>
                  if ok then Calm(disk, names, all) else !Solvable(h0, root, recorded, all)
      decreases |pending|, ok
    {
      ghost var h1 := disk.heap;
      var progressed, remaining, done' := Round(disk, names, root, tracker, pending, h0, recorded, all, done, fits);
      EvolvesTrans(h0, h1, disk.heap, root);
      done := done';
      if progressed.Err? {
        ok := false;
      } else if remaining != [] && !progressed.value {
        if fits && Waiting(disk.heap, root, remaining) {
          AllStuck(h0, disk.heap, root, all, done, remaining, remaining[0]);
        }
        var stuck := remaining[0];
        assert LinkReady(stuck);
        var _ := TryOpenChain(disk, root, ParentOf(stuck.target), false);
        ok := false;
      } else {
        StaysTrans(h0, h1, root, links, pending, remaining);
        pending := remaining;
      }
    }
    if fits && ok {
      Finished(h0, disk.heap, root, recorded, all, done);
    }
  }

  /** Reordering the pending list changes neither when it can be resolved nor the result. */
  lemma PendingOrderDoesNotMatter(h0: Heap, root: Ino, recorded: set<Route>, links: seq<PendingHardLink>,
      other: seq<PendingHardLink>)
    requires multiset(links) == multiset(other) && Separate(h0, root, links)
    ensures Separate(h0, root, other)
    ensures Solvable(h0, root, recorded, Links(links)) <==> Solvable(h0, root, recorded, Links(other))
    ensures forall p :: Linked(h0, root, Links(links), p) == Linked(h0, root, Links(other), p)
  {
    forall l
      ensures l in Links(links) <==> l in Links(other)
    {
      assert l in links <==> l in multiset(links);
      assert l in other <==> l in multiset(other);
      assert l in Links(links) <==> l in links;
      assert l in Links(other) <==> l in other;
    }
    assert Links(links) == Links(other);
    forall j, k | 0 <= j < k < |other|
      ensures other[j].output != other[k].output
    {
      if other[j].output == other[k].output {
        assert other[j] in multiset(other) && other[k] in multiset(other);
        var a :| 0 <= a < |links| && links[a] == other[j];
        var b :| 0 <= b < |links| && links[b] == other[k];
        assert a == b;
        TwiceInMultiset(other, j, k);
        OnceInMultiset(links, a);
      }
    }
    forall k | 0 <= k < |other|
      ensures Vacant(h0, root, other[k])
    {
      assert other[k] in multiset(other);
      var a :| 0 <= a < |links| && links[a] == other[k];
    }
  }

  lemma TwiceInMultiset(s: seq<PendingHardLink>, j: nat, k: nat)
    requires j < k < |s| && s[j] == s[k]
    ensures multiset(s)[s[j]] >= 2
  {
    assert s == s[..j] + [s[j]] + s[j+1..k] + [s[k]] + s[k+1..];
  }

  lemma OnceInMultiset(s: seq<PendingHardLink>, k: nat)
    requires k < |s| && OneEach(s)
    ensures multiset(s)[s[k]] == 1
  {
    assert s == s[..k] + [s[k]] + s[k+1..];
    assert s[k] !in s[..k] && s[k] !in s[k+1..];
  }

  /** A link that is made a second time is accepted again, and leaves a stray leaf beside its output. */
  method RepeatedLinkLeavesStray(disk: Disk, names: NameSource, root: Ino, p: PendingHardLink)
    returns (r: Result<bool, string>)
    requires Rooted(disk, root) && LinkReady(p) && Calm(disk, names, {p})
    requires Judge(disk.heap, root, p).Ready? && Resolve(disk.heap, root, p.output).TMissing?
    modifies disk, names
    ensures Rooted(disk, root) && r == Ok(true)
    ensures Strays(old(disk.heap), disk.heap, root, p.output)
    ensures See(disk.heap, root, p.output) == See(disk.heap, root, p.target)
  {
    ghost var h0, i := disk.heap, Judge(disk.heap, root, p).ino;
    r := TryCreateHardLink(disk, names, root, None, p);
    ghost var h1 := disk.heap;
    MadeUnclaimed(h0, h1, root, p, i, names, {p});
    AgainReady(h0, h1, root, p, i);
    r := LinkAgain(disk, names, root, p, i);
    StrayStays(h0, h1, disk.heap, root, p);
  }

  method LinkAgain(disk: Disk, names: NameSource, root: Ino, p: PendingHardLink, ghost i: Ino)
    returns (r: Result<bool, string>)
    requires Rooted(disk, root) && LinkReady(p) && disk.Quiet() && Unclaimed(disk.heap, names)
    requires Judge(disk.heap, root, p) == Ready(i) && Resolve(disk.heap, root, p.output) == TFile(i)
    modifies disk, names
    ensures Rooted(disk, root) && r.Ok? && r.value && Evolves(old(disk.heap), disk.heap, root)
    ensures Strays(old(disk.heap), disk.heap, root, p.output)
    ensures See(disk.heap, root, p.output) == See(disk.heap, root, p.target)
  {
    ghost var h := disk.heap;
    r := TryCreateHardLink(disk, names, root, None, p);
    StrayWhenSame(h, disk.heap, root, p, names);
  }

  lemma AgainReady(h0: Heap, h1: Heap, root: Ino, p: PendingHardLink, i: Ino)
    requires Wf(h0) && Wf(h1) && IsDir(h0, root) && p.output != [] && p.target != []
    requires Judge(h0, root, p) == Ready(i) && Resolve(h0, root, p.output).TMissing?
    requires LinkMade(h0, h1, root, p.output, i)
    ensures Judge(h1, root, p) == Ready(i) && Resolve(h1, root, p.output) == TFile(i)
  {
    var q, n := ParentOf(p.output), Last(p.output);
    assert p.output == q + [n];
    ProbeWalk(h0, root, q);
    PutProbe(h0, h1, root, q, n, i, h0[i], q);
    PutResolve(h0, h1, root, q, n, i, h0[i], p.output);
    PutResolve(h0, h1, root, q, n, i, h0[i], p.target);
    if IsProperPrefix(p.output, p.target) {
      MissingBelow(h0, root, p.output, p.target);
    }
  }

  lemma StrayStays(h0: Heap, h1: Heap, h: Heap, root: Ino, p: PendingHardLink)
    requires Wf(h1) && Evolves(h0, h1, root) && Evolves(h1, h, root) && Strays(h1, h, root, p.output)
    requires IsDir(h1, root) && p.output != [] && p.target != []
    requires Resolve(h1, root, p.output) == Resolve(h1, root, p.target)
    ensures Strays(h0, h, root, p.output)
  {
    var s :| s != p.output && See(h1, root, s) == Absent && See(h, root, s) != Absent;
    assert See(h0, root, s) == Absent;
  }

  lemma LeavesAreLong(names: NameSource, purpose: string, k: nat)
    ensures |LeafAt(names, purpose, k)| > 1
  {
    assert |".tmp"| > 1;
  }

  /** The file `a` in an empty root, and the link `b` to it. */
  lemma ExampleIsReady(h: Heap, i: Ino)
    requires i != 0 && h == Attach(map[0 := Dir(map[])][i := File([], DEFAULT_FILE_MODE)], 0, "a", i)
    ensures Judge(h, 0, PendingHardLink(["b"], ["a"])).Ready? && Resolve(h, 0, ["b"]).TMissing?
  {
    assert ParentOf(["b"]) == [] && ParentOf(["a"]) == [];
  }

  /** It can happen to an archive that holds the file `a` and then the link `b` to it twice. */
  method StrayExample() returns (disk: Disk, r: Result<bool, string>)
    ensures disk.Valid() && r == Ok(true) && Strays(map[0 := Dir(map[])], disk.heap, 0, ["b"])
  {
    disk := new Disk(_ => None, _ => {}, _ => 0);
    ghost var h0 := disk.heap;
    var file := disk.Create(0, "a", File([], DEFAULT_FILE_MODE));
    ExampleIsReady(disk.heap, file.value);
    var names := new NameSource(1, k => k);
    var p := PendingHardLink(["b"], ["a"]);
    forall purpose, k: nat
      ensures LeafAt(names, purpose, k) != "a" && LeafAt(names, purpose, k) != "b"
    {
      LeavesAreLong(names, purpose, k);
    }
    r := RepeatedLinkLeavesStray(disk, names, 0, p);
  }
}
