/** The updates a system call makes to the heap, and why each of them keeps it well formed. */
module HeapUpdates {
  import opened Wrappers
  import opened Filesystem

  datatype IoKind =
    | NotFound
    | AlreadyExists
    | NotADirectory
    | IsADirectory
    | DirectoryNotEmpty
    | InvalidInput
    | Other

  function Attach(h: Heap, d: Ino, n: Name, i: Ino): Heap
    requires IsDir(h, d)
  {
    h[d := Dir(h[d].entries[n := i])]
  }

  function Detach(h: Heap, d: Ino, n: Name): Heap
    requires IsDir(h, d)
  {
    h[d := Dir(h[d].entries - {n})]
  }

  /** Remove the entries in `cut` from their directories. */
  function Trim(h: Heap, cut: set<(Ino, Name)>): Heap {
    map i | i in h ::
      if h[i].Dir? then Dir(map n | n in h[i].entries && (i, n) !in cut :: h[i].entries[n]) else h[i]
  }

  /** `rename(2)`: two names of one inode are left alone, an existing target is replaced only by
      its own kind, and a directory target must be empty. */
  function Move(h: Heap, d1: Ino, n1: Name, d2: Ino, n2: Name): Result<Heap, IoKind>
    requires IsDir(h, d1) && IsDir(h, d2)
  {
    match Lookup(h, d1, n1)
    case None => Err(NotFound)
    case Some(i) =>
      match Lookup(h, d2, n2)
      case None => Ok(Attach(Detach(h, d1, n1), d2, n2, i))
      case Some(j) =>
        if i == j then Ok(h)
        else if IsDir(h, i) && !IsDir(h, j) then Err(NotADirectory)
        else if !IsDir(h, i) && IsDir(h, j) then Err(IsADirectory)
        else if IsDir(h, j) && h[j].entries != map[] then Err(DirectoryNotEmpty)
        else Ok(Attach(Detach(h, d1, n1), d2, n2, i))
  }

  /** `renameat2(RENAME_NOREPLACE)`. */
  function MoveNoReplace(h: Heap, d1: Ino, n1: Name, d2: Ino, n2: Name): Result<Heap, IoKind>
    requires IsDir(h, d1) && IsDir(h, d2)
  {
    match Lookup(h, d1, n1)
    case None => Err(NotFound)
    case Some(i) =>
      if Lookup(h, d2, n2).Some? then Err(AlreadyExists) else Ok(Attach(Detach(h, d1, n1), d2, n2, i))
  }

  // ---------------------------------------------------------------- preservation

  /** Every step into a directory was already possible in `h0`. */
  ghost predicate NoNewDirSteps(h0: Heap, h: Heap) {
    && (forall i :: i in h0 ==> i in h && (IsDir(h, i) <==> IsDir(h0, i)))
    && (forall d, n :: Lookup(h, d, n).Some? && IsDir(h, Lookup(h, d, n).value)
                       ==> Lookup(h0, d, n) == Lookup(h, d, n))
  }

  lemma {:induction false} NoNewWalks(h0: Heap, h: Heap, i: Ino, p: Route)
    requires Closed(h0) && Closed(h) && NoNewDirSteps(h0, h) && Walk(h, i, p).Some?
    requires p != [] && IsDir(h, Walk(h, i, p).value)
    ensures Walk(h0, i, p) == Walk(h, i, p)
    decreases |p|
  {
    var j := Lookup(h, i, p[0]).value;
    if |p| == 1 {
      assert p[1..] == [];
      assert Lookup(h0, i, p[0]) == Lookup(h, i, p[0]);
      assert IsDir(h0, i);
    } else {
      assert IsDir(h, j);
      NoNewWalks(h0, h, j, p[1..]);
    }
  }

  lemma NoNewDirStepsWf(h0: Heap, h: Heap)
    requires Wf(h0) && Closed(h) && NoNewDirSteps(h0, h)
    ensures Wf(h)
  {
    forall d: Ino, p: Route | p != []
      ensures Walk(h, d, p) != Some(d)
    {
      if Walk(h, d, p) == Some(d) {
        NoNewWalks(h0, h, d, p);
      }
    }
    forall d, n, d', n' | Lookup(h, d, n).Some? && Lookup(h, d', n') == Lookup(h, d, n)
                          && IsDir(h, Lookup(h, d, n).value)
      ensures d == d' && n == n'
    {
      assert Lookup(h0, d, n) == Lookup(h, d, n) && Lookup(h0, d', n') == Lookup(h, d', n');
      WalkInHeap(h0, d, [n]);
    }
  }

  lemma NodeWf(h: Heap, i: Ino, node: Node)
    requires Wf(h) && i !in h
    requires node.Dir? ==> node.entries == map[]
    ensures Wf(h[i := node])
  {
    var h' := h[i := node];
    assert forall d, n :: Lookup(h', d, n) == Lookup(h, d, n);
    NoNewDirStepsWf(h, h');
  }

  lemma FileUpdateWf(h: Heap, i: Ino, node: Node)
    requires Wf(h) && i in h && !IsDir(h, i) && !node.Dir?
    ensures Wf(h[i := node])
  {
    var h' := h[i := node];
    assert forall d, n :: Lookup(h', d, n) == Lookup(h, d, n);
    NoNewDirStepsWf(h, h');
  }

  lemma DetachWf(h: Heap, d: Ino, n: Name)
    requires Wf(h) && IsDir(h, d)
    ensures Wf(Detach(h, d, n))
  {
    var h' := Detach(h, d, n);
    assert forall e, m :: Lookup(h', e, m) == if e == d && m == n then None else Lookup(h, e, m);
    NoNewDirStepsWf(h, h');
  }

  lemma TrimLookup(h: Heap, cut: set<(Ino, Name)>, d: Ino, n: Name)
    ensures Lookup(Trim(h, cut), d, n) == if (d, n) in cut then None else Lookup(h, d, n)
  {
  }

  lemma TrimWf(h: Heap, cut: set<(Ino, Name)>)
    requires Wf(h)
    ensures Wf(Trim(h, cut))
  {
    var h' := Trim(h, cut);
    forall d: Ino, n: Name
      ensures Lookup(h', d, n) == if (d, n) in cut then None else Lookup(h, d, n)
    {
      TrimLookup(h, cut, d, n);
    }
    NoNewDirStepsWf(h, h');
  }

  lemma AttachLookup(h: Heap, d: Ino, n: Name, i: Ino)
    requires IsDir(h, d)
    ensures forall e, m :: Lookup(Attach(h, d, n, i), e, m) ==
                           if e == d && m == n then Some(i) else Lookup(h, e, m)
    ensures forall x :: IsDir(Attach(h, d, n, i), x) <==> IsDir(h, x)
  {
  }

  lemma AttachFileWf(h: Heap, d: Ino, n: Name, i: Ino)
    requires Wf(h) && IsDir(h, d) && i in h && !IsDir(h, i)
    ensures Wf(Attach(h, d, n, i))
  {
    AttachLookup(h, d, n, i);
    NoNewDirStepsWf(h, Attach(h, d, n, i));
  }

  ghost predicate Orphan(h: Heap, i: Ino) {
    forall d, n :: Lookup(h, d, n) != Some(i)
  }

  /** A walk after attaching a directory either avoids the new entry, or arrives at the entry's
      holder by old steps and leaves from the attached directory by old steps. */
  lemma {:induction false} WalkSplit(h: Heap, d: Ino, n: Name, i: Ino, x: Ino, p: Route)
    returns (inside: bool, p1: Route, p2: Route)
    requires Closed(h) && IsDir(h, d) && IsDir(h, i)
    requires Walk(Attach(h, d, n, i), x, p).Some?
    ensures var y := Walk(Attach(h, d, n, i), x, p);
            if inside then Walk(h, x, p) == y else Walk(h, x, p1) == Some(d) && Walk(h, i, p2) == y
    decreases |p|
  {
    var h' := Attach(h, d, n, i);
    AttachLookup(h, d, n, i);
    if p == [] {
      inside, p1, p2 := true, [], [];
    } else {
      var z := Lookup(h', x, p[0]).value;
      inside, p1, p2 := WalkSplit(h, d, n, i, z, p[1..]);
      if x == d && p[0] == n {
        if inside { p2 := p[1..]; }
        inside, p1 := false, [];
      } else if !inside {
        var tail := p1;
        p1 := [p[0]] + tail;
        assert p1[1..] == tail;
      }
    }
  }

  lemma AttachDirWf(h: Heap, d: Ino, n: Name, i: Ino)
    requires Wf(h) && IsDir(h, d) && IsDir(h, i) && Orphan(h, i) && d !in Subtree(h, i)
    ensures Wf(Attach(h, d, n, i))
  {
    var h' := Attach(h, d, n, i);
    AttachLookup(h, d, n, i);
    forall x: Ino, p: Route | p != []
      ensures Walk(h', x, p) != Some(x)
    {
      if Walk(h', x, p) == Some(x) {
        var inside, p1, p2 := WalkSplit(h, d, n, i, x, p);
        WalkAppend(h, i, p2, p1);
      }
    }
  }

  lemma {:induction false} WalkWithin(h0: Heap, h: Heap, i: Ino, p: Route)
    requires forall d, n :: Lookup(h, d, n).Some? ==> Lookup(h0, d, n) == Lookup(h, d, n)
    requires forall x :: x in h <==> x in h0
    requires Walk(h, i, p).Some?
    ensures Walk(h0, i, p) == Walk(h, i, p)
    decreases |p|
  {
    if p != [] {
      WalkWithin(h0, h, Lookup(h, i, p[0]).value, p[1..]);
    }
  }

  lemma MoveOneWf(h: Heap, d1: Ino, n1: Name, d2: Ino, n2: Name, i: Ino)
    requires Wf(h) && IsDir(h, d1) && IsDir(h, d2) && Lookup(h, d1, n1) == Some(i)
    requires IsDir(h, i) ==> d2 !in Subtree(h, i)
    ensures Wf(Attach(Detach(h, d1, n1), d2, n2, i))
  {
    var m := Detach(h, d1, n1);
    DetachWf(h, d1, n1);
    assert forall e, k :: Lookup(m, e, k) == if e == d1 && k == n1 then None else Lookup(h, e, k);
    if IsDir(h, i) {
      forall p
        ensures Walk(m, i, p) != Some(d2)
      {
        if Walk(m, i, p) == Some(d2) {
          WalkWithin(h, m, i, p);
        }
      }
      AttachDirWf(m, d2, n2, i);
    } else {
      AttachFileWf(m, d2, n2, i);
    }
  }

  /** Renaming keeps the directories a forest, provided the target directory is not below the
      directory that is moved. */
  lemma MoveWf(h: Heap, d1: Ino, n1: Name, d2: Ino, n2: Name)
    requires Wf(h) && IsDir(h, d1) && IsDir(h, d2)
    requires Lookup(h, d1, n1).Some? && IsDir(h, Lookup(h, d1, n1).value)
             ==> d2 !in Subtree(h, Lookup(h, d1, n1).value)
    ensures Move(h, d1, n1, d2, n2).Ok? ==> Wf(Move(h, d1, n1, d2, n2).value)
    ensures MoveNoReplace(h, d1, n1, d2, n2).Ok? ==> Wf(MoveNoReplace(h, d1, n1, d2, n2).value)
  {
    if Lookup(h, d1, n1).Some? {
      MoveOneWf(h, d1, n1, d2, n2, Lookup(h, d1, n1).value);
    }
  }

  // ---------------------------------------------------------------- recursive removal

  function Spread(h: Heap, seen: set<Ino>): set<Ino> {
    seen + set d, n | d in seen && IsDir(h, d) && n in h[d].entries :: h[d].entries[n]
  }

  /** Everything reachable from `seen`, computed. */
  function Closure(h: Heap, seen: set<Ino>): (r: set<Ino>)
    requires Closed(h) && seen <= h.Keys
    ensures seen <= r <= h.Keys && Spread(h, r) == r
    decreases h.Keys - seen
  {
    var next := Spread(h, seen);
    assert forall d, n :: d in seen && IsDir(h, d) && n in h[d].entries ==> Lookup(h, d, n) == Some(h[d].entries[n]);
    if next == seen then seen else Closure(h, next)
  }

  lemma {:induction false} ClosureComplete(h: Heap, r: set<Ino>, i: Ino, p: Route)
    requires Spread(h, r) == r && i in r && Walk(h, i, p).Some?
    ensures Walk(h, i, p).value in r
    decreases |p|
  {
    if p != [] {
      assert Lookup(h, i, p[0]).value in Spread(h, r);
      ClosureComplete(h, r, Lookup(h, i, p[0]).value, p[1..]);
    }
  }

  lemma {:induction false} ClosureSound(h: Heap, seen: set<Ino>, i: Ino)
    requires Closed(h) && seen <= h.Keys && forall x :: x in seen ==> Reaches(h, i, x)
    ensures forall x :: x in Closure(h, seen) ==> Reaches(h, i, x)
    decreases h.Keys - seen
  {
    var next := Spread(h, seen);
    forall d, n | d in seen && IsDir(h, d) && n in h[d].entries
      ensures Reaches(h, i, h[d].entries[n])
    {
      var p :| Walk(h, i, p) == Some(d);
      WalkSnoc(h, i, p, n);
      assert Walk(h, i, p + [n]) == Some(h[d].entries[n]);
    }
    if next != seen {
      assert forall d, n :: d in seen && IsDir(h, d) && n in h[d].entries ==> Lookup(h, d, n) == Some(h[d].entries[n]);
      ClosureSound(h, next, i);
    }
  }

  lemma ClosureIsSubtree(h: Heap, i: Ino)
    requires Closed(h) && i in h
    ensures Closure(h, {i}) == Subtree(h, i)
  {
    SubtreeSelf(h, i);
    ClosureSound(h, {i}, i);
    forall x | x in Subtree(h, i)
      ensures x in Closure(h, {i})
    {
      var p :| Walk(h, i, p) == Some(x);
      ClosureComplete(h, Closure(h, {i}), i, p);
    }
  }

  /** Only directories in `s` differ, and only by entries they have lost. */
  ghost predicate Pruned(h0: Heap, h: Heap, s: set<Ino>) {
    && h.Keys == h0.Keys
    && (forall x :: x in h0 && x !in s ==> h[x] == h0[x])
    && (forall x :: x in h0 && !h0[x].Dir? ==> h[x] == h0[x])
    && (forall x :: x in h0 && h0[x].Dir? ==> h[x].Dir?)
    && (forall d, n :: Lookup(h, d, n).Some? ==> Lookup(h0, d, n) == Lookup(h, d, n))
  }

  lemma TrimPruned(h: Heap, cut: set<(Ino, Name)>, s: set<Ino>)
    requires forall e :: e in cut ==> e.0 in s
    ensures Pruned(h, Trim(h, cut), s)
  {
    var h' := Trim(h, cut);
    forall x | x in h && x !in s
      ensures h'[x] == h[x]
    {
      if h[x].Dir? {
        assert h'[x].entries == h[x].entries;
      }
    }
    forall d: Ino, n: Name
      ensures Lookup(h', d, n) == if (d, n) in cut then None else Lookup(h, d, n)
    {
      TrimLookup(h, cut, d, n);
    }
  }

  /** Empty every directory from `i` down and drop the entries in `names`. */
  function Clear(h: Heap, i: Ino, names: set<(Ino, Name)>): Heap
    requires Closed(h) && i in h
  {
    var below := Closure(h, {i});
    Trim(h, names + set x, m | x in below && x in h && h[x].Dir? && m in h[x].entries :: (x, m))
  }

  ghost predicate Cleared(h0: Heap, h: Heap, i: Ino, names: set<(Ino, Name)>) {
    && Pruned(h0, h, Subtree(h0, i) + set e | e in names :: e.0)
    && (forall d, n :: (d, n) in names ==> Lookup(h, d, n) == None)
    && (forall d, n :: (d, n) !in names && d !in Subtree(h0, i) ==> Lookup(h, d, n) == Lookup(h0, d, n))
  }

  /** What a recursive removal did: `mid` is the heap half way, `h` the heap at its end. */
  ghost predicate Removed(h0: Heap, mid: Heap, h: Heap, i: Ino, names: set<(Ino, Name)>, ok: bool) {
    && Pruned(h0, mid, Subtree(h0, i))
    && if ok then Cleared(h0, h, i, names) else Pruned(h0, h, Subtree(h0, i))
  }

  /** `remove_dir_all` refuses files and special files. */
  predicate KeepsName(h: Heap, i: Ino) {
    i in h && (h[i].File? || h[i].Special?)
  }

  lemma OnlyName(h: Heap, d: Ino, n: Name, i: Ino, names: set<(Ino, Name)>)
    requires OneParent(h) && Lookup(h, d, n) == Some(i) && IsDir(h, i)
    requires names == set e, m | e in h && h[e].Dir? && m in h[e].entries && h[e].entries[m] == i :: (e, m)
    ensures names == {(d, n)}
  {
    forall e, m | (e, m) in names
      ensures (e, m) == (d, n)
    {
      assert Lookup(h, e, m) == Some(i);
    }
  }

  lemma ClearWf(h: Heap, i: Ino, names: set<(Ino, Name)>)
    requires Wf(h) && i in h
    ensures Wf(Clear(h, i, names)) && Cleared(h, Clear(h, i, names), i, names)
  {
    ClosureIsSubtree(h, i);
    var below := Closure(h, {i});
    var gone := names + set x, m | x in below && x in h && h[x].Dir? && m in h[x].entries :: (x, m);
    TrimWf(h, gone);
    TrimPruned(h, gone, Subtree(h, i) + set e | e in names :: e.0);
    forall e: Ino, m: Name
      ensures Lookup(Trim(h, gone), e, m) == if (e, m) in gone then None else Lookup(h, e, m)
    {
      TrimLookup(h, gone, e, m);
    }
  }

  lemma DetachCleared(h: Heap, d: Ino, n: Name)
    requires Wf(h) && Lookup(h, d, n).Some? && !IsDir(h, Lookup(h, d, n).value)
    ensures Wf(Detach(h, d, n)) && Cleared(h, Detach(h, d, n), Lookup(h, d, n).value, {(d, n)})
  {
    DetachWf(h, d, n);
    var h' := Detach(h, d, n);
    assert forall e, m :: Lookup(h', e, m) == if e == d && m == n then None else Lookup(h, e, m);
    assert d in set e | e in {(d, n)} :: e.0 by { assert (d, n) in {(d, n)} && (d, n).0 == d; }
  }
}
