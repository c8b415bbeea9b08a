/** What can be seen below a directory without following links, and how extraction may change it. */
module TreeView {
  import opened Wrappers
  import opened Filesystem
  import opened HeapUpdates

  datatype Seen =
    | Absent
    | SeenDir
    | SeenFile(ino: Ino, bytes: seq<Byte>, mode: nat)
    | SeenLink(target: RawPath)
    | SeenSpecial

  function Look(h: Heap, i: Ino): Seen
    requires i in h
  {
    match h[i]
    case Dir(_) => SeenDir
    case File(bytes, mode) => SeenFile(i, bytes, mode)
    case Symlink(target) => SeenLink(target)
    case Special => SeenSpecial
  }

  /** What is found at the end of `p`, stepping through real directories only. */
  function See(h: Heap, root: Ino, p: Route): Seen {
    match Walk(h, root, p)
    case None => Absent
    case Some(i) => if i in h then Look(h, i) else Absent
  }

  // ---------------------------------------------------------------- one new entry

  /** `h` is `h0` with entry `n` of the directory at `q` naming `i`, a file, a link or a new empty
      directory. */
  ghost predicate PutAt(h0: Heap, h: Heap, root: Ino, q: Route, n: Name, i: Ino, node: Node) {
    && Walk(h0, root, q).Some? && IsDir(h0, Walk(h0, root, q).value)
    && var d := Walk(h0, root, q).value;
       && i != d
       && h == Attach(h0[i := node], d, n, i)
       && (i in h0 ==> h0[i] == node && !node.Dir?)
       && (node.Dir? ==> node.entries == map[] && Lookup(h0, d, n) == None)
       && (Lookup(h0, d, n).Some? ==> !IsDir(h0, Lookup(h0, d, n).value))
  }

  lemma {:induction false} PutWalk(h0: Heap, h: Heap, root: Ino, q: Route, n: Name, i: Ino, node: Node, p: Route)
    requires Wf(h0) && Closed(h) && PutAt(h0, h, root, q, n, i, node)
    ensures Walk(h, root, p) == if p == q + [n] then Some(i) else Walk(h0, root, p)
    decreases |p|
  {
    var d := Walk(h0, root, q).value;
    if p == [] {
      assert Walk(h0, root, []) == if root in h0 then Some(root) else None;
      RootInHeap(h0, root, q);
    } else {
      var p', m := p[..|p|-1], p[|p|-1];
      assert p == p' + [m];
      PutWalk(h0, h, root, q, n, i, node, p');
      WalkSnoc(h, root, p', m);
      WalkSnoc(h0, root, p', m);
      WalkSnoc(h0, root, q, n);
      if Walk(h0, root, p') == Some(d) {
        RouteUnique(h0, root, p', q);
        assert (q + [n])[|q|] == n;
      }
      assert p == q + [n] ==> p' == q && m == n;
      WalkInHeap(h0, root, p');
    }
  }

  lemma RootInHeap(h: Heap, root: Ino, q: Route)
    requires Walk(h, root, q).Some?
    ensures root in h
  {
  }

  lemma PutSee(h0: Heap, h: Heap, root: Ino, q: Route, n: Name, i: Ino, node: Node)
    requires Wf(h0) && Closed(h) && PutAt(h0, h, root, q, n, i, node)
    ensures forall p :: See(h, root, p) == if p == q + [n] then Look(h, i) else See(h0, root, p)
  {
    forall p
      ensures See(h, root, p) == if p == q + [n] then Look(h, i) else See(h0, root, p)
    {
      PutWalk(h0, h, root, q, n, i, node, p);
      WalkInHeap(h0, root, p);
    }
  }

  // ---------------------------------------------------------------- what a run may change

  /** From `h0` to `h`, a directory stays that directory, a link or special file stays itself, a
      regular file is still a regular file or has become a link; and of all inodes there were, only
      directories reached from the root through real directories differ. */
  ghost predicate Evolves(h0: Heap, h: Heap, root: Ino) {
    && (forall i :: i in h0 ==> i in h && (IsDir(h, i) <==> IsDir(h0, i)))
    && (forall i :: i in h0 && h[i] != h0[i] ==> IsDir(h0, i) && i in Subtree(h0, root))
    && (forall i :: i in h0 && IsDir(h0, i) && i in Subtree(h, root) ==> i in Subtree(h0, root))
    && (forall p :: Walk(h0, root, p).Some? ==> Walk(h, root, p).Some?)
    && (forall p :: Walk(h0, root, p).Some? && !See(h0, root, p).SeenFile? ==> Walk(h, root, p) == Walk(h0, root, p))
    && (forall p :: See(h0, root, p).SeenFile? ==> See(h, root, p).SeenFile? || See(h, root, p).SeenLink?)
  }

  lemma EvolvesRefl(h: Heap, root: Ino)
    ensures Evolves(h, h, root)
  {
  }

  lemma EvolvesTrans(h0: Heap, h1: Heap, h2: Heap, root: Ino)
    requires Evolves(h0, h1, root) && Evolves(h1, h2, root)
    ensures Evolves(h0, h2, root)
  {
    forall p | Walk(h0, root, p).Some? && !See(h0, root, p).SeenFile?
      ensures Walk(h2, root, p) == Walk(h0, root, p)
    {
      WalkInHeap(h0, root, p);
      var i := Walk(h0, root, p).value;
      assert Walk(h1, root, p) == Some(i);
      assert !h0[i].Dir? ==> h1[i] == h0[i];
      assert !See(h1, root, p).SeenFile?;
    }
    forall p | See(h0, root, p).SeenFile?
      ensures See(h2, root, p).SeenFile? || See(h2, root, p).SeenLink?
    {
      if See(h1, root, p).SeenLink? {
        WalkInHeap(h1, root, p);
        assert Walk(h2, root, p) == Walk(h1, root, p);
        var j := Walk(h1, root, p).value;
        assert h2[j] == h1[j];
      }
    }
    forall i | i in h0 && h2[i] != h0[i]
      ensures IsDir(h0, i) && i in Subtree(h0, root)
    {
      assert i in h1;
      if h1[i] == h0[i] {
        assert h2[i] != h1[i];
      }
    }
    forall i | i in h0 && IsDir(h0, i) && i in Subtree(h2, root)
      ensures i in Subtree(h0, root)
    {
      assert i in h1 && IsDir(h1, i);
      assert i in Subtree(h1, root);
    }
  }

  lemma PutEvolves(h0: Heap, h: Heap, root: Ino, q: Route, n: Name, i: Ino, node: Node)
    requires Wf(h0) && Closed(h) && PutAt(h0, h, root, q, n, i, node)
    requires See(h0, root, q + [n]) == Absent || (See(h0, root, q + [n]).SeenFile? && (node.File? || node.Symlink?))
    ensures Evolves(h0, h, root)
  {
    var d := Walk(h0, root, q).value;
    WalkInHeap(h0, root, q);
    assert d in Subtree(h0, root);
    forall p
      ensures Walk(h, root, p) == if p == q + [n] then Some(i) else Walk(h0, root, p)
    {
      PutWalk(h0, h, root, q, n, i, node, p);
    }
    forall p | Walk(h0, root, p).Some?
      ensures Walk(h, root, p).Some?
      ensures !See(h0, root, p).SeenFile? ==> Walk(h, root, p) == Walk(h0, root, p)
      ensures See(h0, root, p).SeenFile? ==> See(h, root, p).SeenFile? || See(h, root, p).SeenLink?
    {
      WalkInHeap(h0, root, p);
    }
    forall x | x in h0 && IsDir(h0, x) && x in Subtree(h, root)
      ensures x in Subtree(h0, root)
    {
      var p :| Walk(h, root, p) == Some(x);
      assert p != q + [n];
    }
  }

  /** A new inode that nothing names is invisible. */
  lemma OrphanInvisible(h0: Heap, root: Ino, i: Ino, node: Node)
    requires Wf(h0) && root in h0 && i !in h0 && (node.Dir? ==> node.entries == map[])
    ensures forall p :: See(h0[i := node], root, p) == See(h0, root, p)
    ensures forall p :: Walk(h0[i := node], root, p) == Walk(h0, root, p)
    ensures Evolves(h0, h0[i := node], root)
  {
    var h := h0[i := node];
    assert SameTree(h0, h, root);
    forall p
      ensures Walk(h, root, p) == Walk(h0, root, p) && See(h, root, p) == See(h0, root, p)
    {
      SameWalk(h0, h, root, p);
      WalkInHeap(h0, root, p);
    }
    SameTreeSubtree(h0, h, root);
  }
}
