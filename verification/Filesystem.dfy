/** An inode heap: directories map names to inodes, files hold bytes. Directory handles are inodes.

    Nothing here follows a symbolic link: `Walk` steps through real directories only, as the
    repository's no-follow component opens do. */
module Filesystem {
  import opened Wrappers

  type Name = string
  type Ino = nat
  newtype Byte = b: int | 0 <= b < 256

  datatype Part = Cur | Parent | Normal(name: Name)

  /** A path as `Path::components` yields it on Unix: an optional root, then parts. */
  datatype RawPath = RawPath(rooted: bool, parts: seq<Part>)

  datatype Node =
    | File(bytes: seq<Byte>, mode: nat)
    | Dir(entries: map<Name, Ino>)
    | Symlink(target: RawPath)
    | Special

  type Heap = map<Ino, Node>
  type Route = seq<Name>

  predicate IsDir(h: Heap, i: Ino) {
    i in h && h[i].Dir?
  }

  function Lookup(h: Heap, d: Ino, n: Name): Option<Ino> {
    if IsDir(h, d) && n in h[d].entries then Some(h[d].entries[n]) else None
  }

  function Walk(h: Heap, i: Ino, p: Route): Option<Ino>
    decreases |p|
  {
    if p == [] then (if i in h then Some(i) else None)
    else
      match Lookup(h, i, p[0])
      case None => None
      case Some(j) => Walk(h, j, p[1..])
  }

  ghost predicate Reaches(h: Heap, i: Ino, x: Ino) {
    exists p :: Walk(h, i, p) == Some(x)
  }

  ghost function Subtree(h: Heap, i: Ino): set<Ino> {
    set x | x in h && Reaches(h, i, x)
  }

  // ---------------------------------------------------------------- well-formed heaps

  ghost predicate Closed(h: Heap) {
    forall d, n :: Lookup(h, d, n).Some? ==> Lookup(h, d, n).value in h
  }

  /** A directory is named by at most one entry: directories cannot be hard linked. */
  ghost predicate OneParent(h: Heap) {
    forall d, n, d', n' ::
      Lookup(h, d, n).Some? && Lookup(h, d', n') == Lookup(h, d, n) && IsDir(h, Lookup(h, d, n).value)
      ==> d == d' && n == n'
  }

  ghost predicate Acyclic(h: Heap) {
    forall d: Ino, p: Route :: p != [] ==> Walk(h, d, p) != Some(d)
  }

  ghost predicate Wf(h: Heap) {
    Closed(h) && OneParent(h) && Acyclic(h)
  }

  // ---------------------------------------------------------------- walks

  lemma {:induction false} WalkAppend(h: Heap, i: Ino, p: Route, q: Route)
    ensures Walk(h, i, p + q) ==
            if Walk(h, i, p).Some? then Walk(h, Walk(h, i, p).value, q) else None
    decreases |p|
  {
    if p == [] {
      assert p + q == q;
    } else if Lookup(h, i, p[0]).Some? {
      assert (p + q)[1..] == p[1..] + q;
      WalkAppend(h, Lookup(h, i, p[0]).value, p[1..], q);
    }
  }

  lemma WalkSnoc(h: Heap, i: Ino, p: Route, n: Name)
    requires Closed(h)
    ensures Walk(h, i, p + [n]) ==
            if Walk(h, i, p).Some? then Lookup(h, Walk(h, i, p).value, n) else None
  {
    WalkAppend(h, i, p, [n]);
    if Walk(h, i, p).Some? {
      var d := Walk(h, i, p).value;
      assert [n][1..] == [];
      assert Walk(h, d, [n]) == Lookup(h, d, n);
    }
  }

  /** The last step of a walk that ends somewhere. */
  lemma WalkLast(h: Heap, i: Ino, p: Route)
    requires Closed(h) && p != [] && Walk(h, i, p).Some?
    ensures Walk(h, i, p[..|p|-1]).Some?
    ensures Lookup(h, Walk(h, i, p[..|p|-1]).value, p[|p|-1]) == Walk(h, i, p)
  {
    assert p == p[..|p|-1] + [p[|p|-1]];
    WalkSnoc(h, i, p[..|p|-1], p[|p|-1]);
  }

  /** A real directory is reached along one route only. */
  lemma {:induction false} RouteUnique(h: Heap, i: Ino, p: Route, q: Route)
    requires Wf(h) && Walk(h, i, p).Some? && Walk(h, i, p) == Walk(h, i, q)
    requires IsDir(h, Walk(h, i, p).value)
    ensures p == q
    decreases |p| + |q|
  {
    if p == [] || q == [] {
      // the other route cannot be a loop
    } else {
      WalkLast(h, i, p);
      WalkLast(h, i, q);
      var p', q' := p[..|p|-1], q[..|q|-1];
      var x, y := Walk(h, i, p').value, Walk(h, i, q').value;
      assert Lookup(h, x, p[|p|-1]) == Lookup(h, y, q[|q|-1]);
      RouteUnique(h, i, p', q');
      assert p == p' + [p[|p|-1]] && q == q' + [q[|q|-1]];
    }
  }

  /** The directory that holds an entry is not below that entry. */
  lemma HolderNotBelow(h: Heap, d: Ino, n: Name)
    requires Wf(h) && Lookup(h, d, n).Some?
    ensures d !in Subtree(h, Lookup(h, d, n).value)
  {
    var c := Lookup(h, d, n).value;
    forall p
      ensures Walk(h, c, p) != Some(d)
    {
      assert ([n] + p)[1..] == p;
      assert Walk(h, d, [n] + p) == Walk(h, c, p);
    }
  }

  /** Two entries of one directory have no directory in common below them. */
  lemma {:induction false} SiblingsApart(h: Heap, d: Ino, n: Name, m: Name, p: Route, q: Route, x: Ino)
    requires Wf(h) && n != m && Lookup(h, d, n).Some? && Lookup(h, d, m).Some?
    requires Walk(h, Lookup(h, d, n).value, p) == Some(x) == Walk(h, Lookup(h, d, m).value, q)
    ensures !IsDir(h, x)
  {
    assert ([n] + p)[1..] == p && ([m] + q)[1..] == q;
    assert ([n] + p)[0] == n && ([m] + q)[0] == m;
    if IsDir(h, x) {
      RouteUnique(h, d, [n] + p, [m] + q);
    }
  }

  lemma SiblingSubtreesApart(h: Heap, d: Ino, n: Name, m: Name)
    requires Wf(h) && n != m && Lookup(h, d, n).Some? && Lookup(h, d, m).Some?
    ensures forall x :: x in Subtree(h, Lookup(h, d, n).value) && x in Subtree(h, Lookup(h, d, m).value)
                        ==> !IsDir(h, x)
  {
    forall x | x in Subtree(h, Lookup(h, d, n).value) && x in Subtree(h, Lookup(h, d, m).value)
      ensures !IsDir(h, x)
    {
      var p :| Walk(h, Lookup(h, d, n).value, p) == Some(x);
      var q :| Walk(h, Lookup(h, d, m).value, q) == Some(x);
      SiblingsApart(h, d, n, m, p, q, x);
    }
  }

  // ---------------------------------------------------------------- unchanged trees

  /** Every inode below `i` in `h0`, `i` included, is the same in `h`. */
  ghost predicate SameTree(h0: Heap, h: Heap, i: Ino) {
    i in h0 && forall x :: x in Subtree(h0, i) ==> x in h && h[x] == h0[x]
  }

  lemma {:induction false} SameWalk(h0: Heap, h: Heap, i: Ino, p: Route)
    requires Closed(h0) && SameTree(h0, h, i)
    ensures Walk(h, i, p) == Walk(h0, i, p)
    decreases |p|
  {
    if p == [] {
      assert Walk(h0, i, []) == Some(i);
    } else {
      var p' := p[..|p|-1];
      assert p == p' + [p[|p|-1]];
      SameWalk(h0, h, i, p');
      WalkAppend(h, i, p', [p[|p|-1]]);
      WalkAppend(h0, i, p', [p[|p|-1]]);
      if Walk(h0, i, p').Some? {
        var d := Walk(h0, i, p').value;
        WalkInHeap(h0, i, p');
        assert d in Subtree(h0, i);
        assert Lookup(h, d, p[|p|-1]) == Lookup(h0, d, p[|p|-1]);
        assert [p[|p|-1]][1..] == [];
        if Lookup(h0, d, p[|p|-1]).Some? {
          WalkSnoc(h0, i, p', p[|p|-1]);
          assert Lookup(h0, d, p[|p|-1]).value in Subtree(h0, i);
        }
      }
    }
  }

  lemma {:induction false} WalkInHeap(h: Heap, i: Ino, p: Route)
    ensures Walk(h, i, p).Some? ==> Walk(h, i, p).value in h
    decreases |p|
  {
    if p != [] && Lookup(h, i, p[0]).Some? {
      WalkInHeap(h, Lookup(h, i, p[0]).value, p[1..]);
    }
  }

  /** What an observer finds along every route below `i` is what was there before. */
  lemma SameTreeSubtree(h0: Heap, h: Heap, i: Ino)
    requires Closed(h0) && SameTree(h0, h, i)
    ensures Subtree(h, i) == Subtree(h0, i)
  {
    forall x
      ensures x in Subtree(h, i) <==> x in Subtree(h0, i)
    {
      if x in Subtree(h, i) {
        var p :| Walk(h, i, p) == Some(x);
        SameWalk(h0, h, i, p);
        WalkInHeap(h0, i, p);
      }
      if x in Subtree(h0, i) {
        var p :| Walk(h0, i, p) == Some(x);
        SameWalk(h0, h, i, p);
      }
    }
  }

  lemma SubtreeSelf(h: Heap, i: Ino)
    requires i in h
    ensures i in Subtree(h, i)
  {
    assert Walk(h, i, []) == Some(i);
  }
}
