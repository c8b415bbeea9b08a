/** Comparing paths under a root, lexically (crates/omne-fs/src/path_utils.rs,
    crates/omne-fs/src/policy.rs). */
module PathBoundary {
  import opened Wrappers
  import opened Filesystem
  import opened ArchiveLeaves
  import opened LexicalPaths

  /** The components of a path, the root among them. */
  datatype Component = RootDir | Plain(part: Part)

  function Components(p: RawPath): (s: seq<Component>)
    ensures |s| == |p.parts| + if p.rooted then 1 else 0
  {
    (if p.rooted then [RootDir] else []) + seq(|p.parts|, i requires 0 <= i < |p.parts| => Plain(p.parts[i]))
  }

  predicate IsEmpty(p: RawPath) {
    !p.rooted && p.parts == []
  }

  /** `Path::starts_with`. */
  predicate StartsWith(p: RawPath, q: RawPath) {
    Components(q) <= Components(p)
  }

  /** `Path::strip_prefix`: what is left is relative unless nothing was stripped. */
  function StripPrefix(p: RawPath, q: RawPath): Option<RawPath> {
    if !StartsWith(p, q) then None
    else if IsEmpty(q) then Some(p)
    else
      StartsWithParts(p, q);
      Some(RawPath(false, p.parts[|q.parts|..]))
  }

  /** `Path::join`. */
  function Join(p: RawPath, q: RawPath): RawPath {
    if q.rooted then q else RawPath(p.rooted, p.parts + q.parts)
  }

  const DOT := RawPath(false, [Cur])

  // ---------------------------------------------------------------- the fast path

  predicate Untouched(parts: seq<Part>) {
    forall k :: 0 <= k < |parts| ==> parts[k].Normal?
  }

  predicate OnlyDots(p: RawPath) {
    !p.rooted && forall k :: 0 <= k < |p.parts| ==> p.parts[k] == Cur
  }

  /** `normalized_for_boundary`: most paths are passed on as they are, yet the result is always the
      normal form. */
  method NormalizedForBoundary(path: RawPath) returns (r: RawPath, borrowed: bool)
    ensures r == Normalize(path)
    ensures borrowed <==> OnlyDots(path) || Untouched(path.parts)
  {
    DotsNormalize(path);
    NamesNormalize(path);
    if IsEmpty(path) || path == DOT {
      return DOT, true;
    }
    var needsNormalization, onlyCurdir := false, !path.rooted;
    var k := 0;
    while k < |path.parts|
      invariant 0 <= k <= |path.parts|
      invariant needsNormalization <==> exists j :: 0 <= j < k && !path.parts[j].Normal?
      invariant onlyCurdir <==> !path.rooted && forall j :: 0 <= j < k ==> path.parts[j] == Cur
    {
      match path.parts[k] {
        case Cur => needsNormalization := true;
        case Parent => needsNormalization, onlyCurdir := true, false;
        case Normal(_) => onlyCurdir := false;
      }
      k := k + 1;
      if needsNormalization && !onlyCurdir {
        break;
      }
    }
    if onlyCurdir {
      return DOT, true;
    }
    if !needsNormalization {
      return path, true;
    }
    r := NormalizePathLexical(path);
    borrowed := false;
  }

  lemma {:induction false} DotsVanish(rooted: bool, parts: seq<Part>)
    requires forall k :: 0 <= k < |parts| ==> parts[k] == Cur
    ensures Segments(rooted, parts) == []
    decreases |parts|
  {
    if parts != [] {
      DotsVanish(rooted, parts[..|parts|-1]);
    }
  }

  lemma DotsNormalize(path: RawPath)
    ensures OnlyDots(path) ==> Normalize(path) == DOT
  {
    if OnlyDots(path) {
      DotsVanish(false, path.parts);
    }
  }

  lemma {:induction false} NamesPass(rooted: bool, parts: seq<Part>)
    requires Untouched(parts)
    ensures Segments(rooted, parts) == parts
    decreases |parts|
  {
    if parts != [] {
      NamesPass(rooted, parts[..|parts|-1]);
      assert parts[..|parts|-1] + [parts[|parts|-1]] == parts;
    }
  }

  lemma NamesNormalize(path: RawPath)
    ensures Untouched(path.parts) && !IsEmpty(path) ==> Normalize(path) == path
  {
    if Untouched(path.parts) {
      NamesPass(path.rooted, path.parts);
    }
  }

  // ---------------------------------------------------------------- prefixes

  /** `starts_with_case_insensitive`, on a system whose paths are case sensitive. */
  method StartsWithNormalized(path: RawPath, prefix: RawPath) returns (r: bool)
    ensures r == StartsWith(Normalize(path), Normalize(prefix))
  {
    var p, _ := NormalizedForBoundary(path);
    var q, _ := NormalizedForBoundary(prefix);
    r := StartsWith(p, q);
  }

  /** `strip_prefix_case_insensitive`. For every prefix but the empty one it finds something exactly
      when the path starts with it, and putting the two together again gives the same path. */
  method StripPrefixNormalized(path: RawPath, prefix: RawPath) returns (r: Option<RawPath>)
    ensures !IsEmpty(prefix) ==> (r.Some? <==> StartsWith(Normalize(path), Normalize(prefix)))
    ensures !IsEmpty(prefix) && r.Some? ==> Normalize(Join(prefix, r.value)) == Normalize(path)
    ensures r == Stripped(path, prefix)
    ensures IsEmpty(prefix) ==> r == Some(path)
  {
    if IsEmpty(prefix) {
      assert Components(prefix) == [];
      return StripPrefix(path, prefix);
    }
    var p, _ := NormalizedForBoundary(path);
    var q, _ := NormalizedForBoundary(prefix);
    r := StripPrefix(p, q);
    if r.Some? {
      Rejoin(path, prefix, r.value);
    }
  }

  /** `paths_equal_case_insensitive`: equal paths are those that lead to the same place from
      everywhere. */
  method PathsEqual(path: RawPath, other: RawPath) returns (r: bool)
    ensures r <==> SameWalks(path, other)
  {
    var p, _ := NormalizedForBoundary(path);
    var q, _ := NormalizedForBoundary(other);
    SegmentsAreLex(path.rooted, path.parts);
    SegmentsAreLex(other.rooted, other.parts);
    StartsWithParts(p, q);
    StartsWithParts(q, p);
    NormalizeCanonical(path, other);
    r := StartsWith(p, q) && StartsWith(q, p);
  }

  /** A prefix of components is a prefix of parts, from the same kind of start. */
  lemma StartsWithParts(p: RawPath, q: RawPath)
    requires !IsEmpty(q)
    ensures StartsWith(p, q) <==> p.rooted == q.rooted && q.parts <= p.parts
  {
    var a, b := Components(p), Components(q);
    var o := if q.rooted then 1 else 0;
    if StartsWith(p, q) {
      assert b[0] == a[0];
      assert p.rooted == q.rooted;
      forall k | 0 <= k < |q.parts|
        ensures k < |p.parts| && q.parts[k] == p.parts[k]
      {
        assert b[o + k] == a[o + k];
      }
    }
    if p.rooted == q.rooted && q.parts <= p.parts {
      forall k | 0 <= k < |b|
        ensures b[k] == a[k]
      {
        assert k >= o ==> q.parts[k - o] == p.parts[k - o];
      }
    }
  }

  lemma {:induction false} SegmentsAgain(rooted: bool, a: seq<Part>, b: seq<Part>)
    ensures Segments(rooted, Segments(rooted, a) + b) == Segments(rooted, a + b)
    decreases |b|
  {
    if b == [] {
      assert Segments(rooted, a) + b == Segments(rooted, a) && a + b == a;
      SegmentsAreLex(rooted, a);
      var l := Lex(a);
      var c := if rooted then 0 else l.climbs;
      LexOfForm(c, l.names);
      SegmentsAreLex(rooted, Segments(rooted, a));
    } else {
      var init, last := b[..|b|-1], b[|b|-1];
      SegmentsAgain(rooted, a, init);
      assert (a + b)[..|a + b|-1] == a + init;
      assert (Segments(rooted, a) + b)[..|Segments(rooted, a) + b|-1] == Segments(rooted, a) + init;
    }
  }

  lemma Rejoin(path: RawPath, prefix: RawPath, rest: RawPath)
    requires !IsEmpty(prefix) && StripPrefix(Normalize(path), Normalize(prefix)) == Some(rest)
    ensures Normalize(Join(prefix, rest)) == Normalize(path)
  {
    var p, q := Normalize(path), Normalize(prefix);
    StartsWithParts(p, q);
    assert p.parts == q.parts + rest.parts && p.rooted == q.rooted;
    SegmentsAgain(prefix.rooted, prefix.parts, rest.parts);
    NormalizeIdempotent(path);
    NormalAndRest(prefix, rest.parts);
  }

  /** Normalizing what stands before changes nothing. */
  lemma NormalAndRest(prefix: RawPath, rest: seq<Part>)
    ensures Segments(prefix.rooted, Normalize(prefix).parts + rest)
            == Segments(prefix.rooted, Segments(prefix.rooted, prefix.parts) + rest)
  {
    SegmentsAreLex(prefix.rooted, prefix.parts);
    if Segments(prefix.rooted, prefix.parts) == [] && !prefix.rooted {
      DotFirst(rest);
      assert [] + rest == rest;
    }
  }

  lemma DotFirst(parts: seq<Part>)
    ensures Segments(false, [Cur] + parts) == Segments(false, parts)
    decreases |parts|
  {
    if parts == [] {
      assert [Cur] + parts == [Cur] && [Cur][..0] == [];
    } else {
      assert ([Cur] + parts)[..|[Cur] + parts|-1] == [Cur] + parts[..|parts|-1];
      DotFirst(parts[..|parts|-1]);
    }
  }

  /** The empty prefix is compared as a lone dot, and only what stays where it is starts with that. */
  lemma StartsWithEmpty(path: RawPath)
    ensures StartsWith(Normalize(path), Normalize(RawPath(false, []))) <==> Normalize(path) == DOT
    ensures Normalize(path) == DOT <==> !path.rooted && Lex(path.parts) == Lexical(0, [])
  {
    var p := Normalize(path);
    DotsNormalize(RawPath(false, []));
    StartsWithParts(p, DOT);
    NormalParts(path);
    if path.rooted || Lex(path.parts) != Lexical(0, []) {
      var c := if path.rooted then 0 else Lex(path.parts).climbs;
      FormIndex(c, Lex(path.parts).names, 0);
      assert p.parts != [] ==> p.parts[0] != Cur;
    }
  }

  /** What `strip_prefix_case_insensitive` gives. */
  function Stripped(path: RawPath, prefix: RawPath): Option<RawPath> {
    if IsEmpty(prefix) then StripPrefix(path, prefix) else StripPrefix(Normalize(path), Normalize(prefix))
  }

  /** The two helpers agree on whether a prefix is there if and only if the prefix is not empty or the
      path leads nowhere else. */
  lemma StripAgreesWithStartsWith(path: RawPath, prefix: RawPath)
    ensures (Stripped(path, prefix).Some? <==> StartsWith(Normalize(path), Normalize(prefix)))
            <==> !IsEmpty(prefix) || Normalize(path) == DOT
  {
    if IsEmpty(prefix) {
      assert Components(prefix) == [];
      assert prefix == RawPath(false, []);
      StartsWithEmpty(path);
    }
  }

  // ---------------------------------------------------------------- the root boundary

  /** From every starting point, `p` leads to the place `root` leads to or below it. */
  ghost predicate Inside(p: RawPath, root: RawPath) {
    forall pos :: Destination(pos, root) <= Destination(pos, p)
  }

  datatype PathError = InvalidPath | OutsideRoot

  /** The path that a request asks for. */
  function Requested(root: RawPath, path: RawPath): RawPath {
    Join(root, path)
  }

  lemma {:induction false} MoveAllOn(pos: Route, a: seq<Part>, b: seq<Part>)
    ensures MoveAll(pos, a + b) == MoveAll(MoveAll(pos, a), b)
    decreases |b|
  {
    if b == [] {
      assert a + b == a;
    } else {
      MoveAllOn(pos, a, b[..|b|-1]);
      assert (a + b)[..|a + b|-1] == a + b[..|b|-1];
    }
  }

  /** An absolute request leads where it leads by itself; a relative one goes on from the root. */
  lemma RequestedLeads(pos: Route, root: RawPath, path: RawPath)
    ensures Destination(pos, Requested(root, path))
            == if path.rooted then Destination([], path) else MoveAll(Destination(pos, root), path.parts)
  {
    MoveAllOn(if root.rooted then [] else pos, root.parts, path.parts);
  }

  predicate Anchored(root: RawPath) {
    root.rooted || Lex(root.parts).names != []
  }

  /** `resolve_path_checked`. For a root that is absolute, as a valid policy's roots are, or that ends
      in a name, a request is accepted exactly when it is not empty, not forbidden for being absolute,
      and leads to the root or below it. */
  method ResolvePathChecked(root: RawPath, path: RawPath, allowAbsolute: bool) returns (r: Result<RawPath, PathError>)
    ensures r == Err(InvalidPath) <==> IsEmpty(path) || (path.rooted && !allowAbsolute)
    ensures r.Ok? ==> StartsWith(Normalize(Requested(root, path)), Normalize(root))
    ensures r == Err(OutsideRoot) ==> !StartsWith(Normalize(Requested(root, path)), Normalize(root))
    ensures Anchored(root) && r != Err(InvalidPath) ==> (r.Ok? <==> Inside(Requested(root, path), root))
    ensures r.Ok? ==> SameWalks(r.value, Requested(root, path))
    ensures r.Ok? ==> r.value == Normalize(r.value) || OnlyDots(r.value)
    ensures r.Ok? && path.rooted ==> SameWalks(r.value, path)
    ensures Anchored(root) && path.rooted && r != Err(InvalidPath) ==> (r.Ok? <==> Inside(path, root))
    ensures r.Ok? && !path.rooted ==>
              forall pos :: Destination(pos, r.value) == MoveAll(Destination(pos, root), path.parts)
  {
    if IsEmpty(path) || (path.rooted && !allowAbsolute) {
      return Err(InvalidPath);
    }
    var resolved := Requested(root, path);
    var normalizedResolved, borrowed := NormalizedForBoundary(resolved);
    var normalizedRoot, _ := NormalizedForBoundary(root);
    if Anchored(root) {
      BoundaryMeansInside(resolved, root);
    }
    if !StartsWith(normalizedResolved, normalizedRoot) {
      return Err(OutsideRoot);
    }
    r := Ok(if borrowed then resolved else normalizedResolved);
    NormalizeIdempotent(resolved);
    NamesNormalize(resolved);
    forall pos
      ensures Destination(pos, r.value) == Destination(pos, resolved)
      ensures !path.rooted ==> Destination(pos, r.value) == MoveAll(Destination(pos, root), path.parts)
    {
      NormalLeadsThere(pos, resolved);
      RequestedLeads(pos, root, path);
    }
  }

  lemma NormalParts(p: RawPath)
    ensures Normalize(p).rooted == p.rooted
    ensures !(!p.rooted && Lex(p.parts) == Lexical(0, [])) ==>
              Normalize(p).parts == Up(if p.rooted then 0 else Lex(p.parts).climbs) + Named(Lex(p.parts).names)
    ensures !p.rooted && Lex(p.parts) == Lexical(0, []) ==> Normalize(p) == DOT
  {
    SegmentsAreLex(p.rooted, p.parts);
  }

  lemma NamedPrefix(a: Route, b: Route)
    ensures Named(a) <= Named(b) <==> a <= b
  {
    if Named(a) <= Named(b) {
      forall k | 0 <= k < |a| ensures a[k] == b[k] {
        assert Named(a)[k] == Named(b)[k];
      }
    }
  }

  lemma FormIndex(k: nat, a: Route, i: nat)
    ensures i < k ==> (Up(k) + Named(a))[i] == Parent
    ensures k <= i < k + |a| ==> (Up(k) + Named(a))[i] == Normal(a[i - k])
  {
  }

  lemma FormPrefix(k: nat, a: Route, m: nat, b: Route)
    requires a != [] || k == m == 0
    ensures Up(k) + Named(a) <= Up(m) + Named(b) <==> k == m && a <= b
  {
    var s, t := Up(k) + Named(a), Up(m) + Named(b);
    NamedPrefix(a, b);
    if s <= t {
      assert forall i :: 0 <= i < |s| ==> s[i] == t[i];
      FormIndex(k, a, k);
      FormIndex(k, a, m);
      FormIndex(m, b, k);
      FormIndex(m, b, m);
      assert k == m;
      assert s[k..] == Named(a) && t[k..] == Named(b);
      assert s[k..] <= t[k..];
    }
    if k == m && a <= b {
      assert s <= t;
    }
  }

  lemma BoundaryMeansInside(p: RawPath, root: RawPath)
    requires Anchored(root) && (root.rooted ==> p.rooted)
    ensures StartsWith(Normalize(p), Normalize(root)) <==> Inside(p, root)
  {
    NormalParts(p);
    NormalParts(root);
    StartsWithParts(Normalize(p), Normalize(root));
    var a, b := Lex(root.parts), Lex(p.parts);
    if !p.rooted && b == Lexical(0, []) && !root.rooted {
      var n := Normalize(root).parts;
      assert n[|n|-1] == Normal(a.names[|a.names|-1]);
      assert !(n <= DOT.parts);
    } else if p.rooted == root.rooted {
      FormPrefix(if root.rooted then 0 else a.climbs, a.names, if p.rooted then 0 else b.climbs, b.names);
    }
    if StartsWith(Normalize(p), Normalize(root)) {
      StartMeansInside(p, root);
    } else {
      NotStartMeansOutside(p, root);
    }
  }

  lemma StartMeansInside(p: RawPath, root: RawPath)
    requires p.rooted == root.rooted && (p.rooted || Lex(p.parts).climbs == Lex(root.parts).climbs)
    requires Lex(root.parts).names <= Lex(p.parts).names
    ensures Inside(p, root)
  {
    forall pos ensures Destination(pos, root) <= Destination(pos, p) {
      DestinationIsLex(pos, p);
      DestinationIsLex(pos, root);
    }
  }

  lemma NotStartMeansOutside(p: RawPath, root: RawPath)
    requires Anchored(root) && (root.rooted ==> p.rooted)
    requires p.rooted == root.rooted ==>
               || (!p.rooted && Lex(p.parts).climbs != Lex(root.parts).climbs)
               || !(Lex(root.parts).names <= Lex(p.parts).names)
    ensures !Inside(p, root)
  {
    var a, b := Lex(root.parts), Lex(p.parts);
    if p.rooted != root.rooted {
      var pos := Repeat("x", a.climbs + |b.names|);
      DestinationIsLex(pos, p);
      DestinationIsLex(pos, root);
      assert |Destination(pos, root)| > |Destination(pos, p)|;
    } else if !p.rooted && a.climbs != b.climbs {
      ClimbsOutside(p, root);
    } else {
      DestinationIsLex([], p);
      DestinationIsLex([], root);
      assert [] + a.names == a.names && [] + b.names == b.names;
    }
  }

  lemma ClimbsOutside(p: RawPath, root: RawPath)
    requires !p.rooted && !root.rooted && Lex(root.parts).names != [] && Lex(p.parts).climbs != Lex(root.parts).climbs
    ensures !Inside(p, root)
  {
    var a, b := Lex(root.parts), Lex(p.parts);
    var n := if a.climbs > b.climbs then a.names[0] else if b.names != [] then b.names[0] else "";
    var pos := Repeat(n + "x", a.climbs + b.climbs + 1);
    DestinationIsLex(pos, p);
    DestinationIsLex(pos, root);
    var i := |pos| - if a.climbs > b.climbs then a.climbs else b.climbs;
    if a.climbs > b.climbs {
      assert Destination(pos, root)[i] == a.names[0];
      assert Destination(pos, p)[i] == n + "x";
    } else {
      assert Destination(pos, root)[i] == n + "x";
      assert b.names != [] ==> Destination(pos, p)[i] == n;
    }
  }

  /** For any other root the check is wrong about some request: above the start it accepts going up
      further, and at the start it refuses every name. */
  lemma UnanchoredRootMisjudges(root: RawPath) returns (path: RawPath)
    requires !Anchored(root)
    ensures !IsEmpty(path) && !path.rooted
    ensures StartsWith(Normalize(Requested(root, path)), Normalize(root)) <==> !Inside(Requested(root, path), root)
  {
    var c := Lex(root.parts).climbs;
    NormalParts(root);
    if c == 0 {
      path := RawPath(false, [Normal("a")]);
      LexSnoc(root.parts, Normal("a"));
      var p := Requested(root, path);
      NormalParts(p);
      StartsWithParts(Normalize(p), DOT);
      assert Normalize(p).parts[0] == Normal("a");
      StartMeansInside(p, root);
    } else {
      path := RawPath(false, [Parent]);
      LexSnoc(root.parts, Parent);
      var p := Requested(root, path);
      NormalParts(p);
      StartsWithParts(Normalize(p), Normalize(root));
      assert Up(c) + Named([]) <= Up(c + 1) + Named([]);
      var pos := Repeat("x", c + 1);
      DestinationIsLex(pos, p);
      DestinationIsLex(pos, root);
      assert |Destination(pos, root)| == 1 && |Destination(pos, p)| == 0;
    }
  }

  lemma LexSnoc(parts: seq<Part>, part: Part)
    ensures Lex(parts + [part]) ==
            match part
            case Cur => Lex(parts)
            case Parent => if Lex(parts).names == [] then Lexical(Lex(parts).climbs + 1, [])
                           else Lex(parts).(names := Lex(parts).names[..|Lex(parts).names|-1])
            case Normal(n) => Lex(parts).(names := Lex(parts).names + [n])
  {
    assert (parts + [part])[..|parts + [part]|-1] == parts;
  }
}
