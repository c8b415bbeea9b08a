/** Lexical path normalization, three times: the path policy's, the gateway's and the installer's
    (crates/omne-fs/src/path_utils.rs, crates/omne-execution-gateway/src/gateway.rs,
    crates/omne-artifact-install-primitives/src/archive_tree.rs). */
module LexicalPaths {
  import opened Wrappers
  import opened Filesystem
  import opened ArchiveLeaves

  // ---------------------------------------------------------------- what a path means

  /** One step from an absolute position; `..` stays at the root. */
  function Move(pos: Route, part: Part): Route {
    match part
    case Cur => pos
    case Parent => if pos == [] then [] else pos[..|pos|-1]
    case Normal(n) => pos + [n]
  }

  function MoveAll(pos: Route, parts: seq<Part>): Route {
    if parts == [] then pos else Move(MoveAll(pos, parts[..|parts|-1]), parts[|parts|-1])
  }

  /** Where a path leads from the directory `pos`, in a tree without links in which every name
      exists. */
  function Destination(pos: Route, path: RawPath): Route {
    MoveAll(if path.rooted then [] else pos, path.parts)
  }

  /** The two paths lead to the same place, wherever one starts. */
  ghost predicate SameWalks(p: RawPath, q: RawPath) {
    forall pos :: Destination(pos, p) == Destination(pos, q)
  }

  // ---------------------------------------------------------------- a form to compare with

  /** How often a path climbs out of where it started, and the names it is left with. */
  datatype Lexical = Lexical(climbs: nat, names: Route)

  function Lex(parts: seq<Part>): Lexical {
    if parts == [] then Lexical(0, [])
    else
      var l := Lex(parts[..|parts|-1]);
      match parts[|parts|-1]
      case Cur => l
      case Parent => if l.names == [] then Lexical(l.climbs + 1, []) else l.(names := l.names[..|l.names|-1])
      case Normal(n) => l.(names := l.names + [n])
  }

  function Up(k: nat): (s: seq<Part>)
    ensures |s| == k && forall i :: 0 <= i < k ==> s[i] == Parent
  {
    seq(k, _ => Parent)
  }

  function Named(names: Route): (s: seq<Part>)
    ensures |s| == |names| && forall i :: 0 <= i < |s| ==> s[i] == Normal(names[i])
  {
    seq(|names|, i requires 0 <= i < |names| => Normal(names[i]))
  }

  function Cut(pos: Route, k: nat): Route {
    if k >= |pos| then [] else pos[..|pos|-k]
  }

  lemma {:induction false} MoveAllIsLex(pos: Route, parts: seq<Part>)
    ensures MoveAll(pos, parts) == Cut(pos, Lex(parts).climbs) + Lex(parts).names
    decreases |parts|
  {
    if parts == [] {
      assert Cut(pos, 0) + [] == pos;
    } else {
      var init := parts[..|parts|-1];
      MoveAllIsLex(pos, init);
      var l := Lex(init);
      var before := Cut(pos, l.climbs) + l.names;
      match parts[|parts|-1]
      case Cur =>
      case Normal(n) => assert before + [n] == Cut(pos, l.climbs) + (l.names + [n]);
      case Parent =>
        if l.names != [] {
          assert before[..|before|-1] == Cut(pos, l.climbs) + l.names[..|l.names|-1];
        } else {
          assert before == Cut(pos, l.climbs);
          assert Move(before, Parent) == Cut(pos, l.climbs + 1);
          assert Cut(pos, l.climbs + 1) + [] == Cut(pos, l.climbs + 1);
        }
    }
  }

  // ---------------------------------------------------------------- the path policy's form

  /** One turn of the loop in `normalize_path_lexical_inner`. */
  function Push(rooted: bool, segments: seq<Part>, part: Part): seq<Part> {
    match part
    case Cur => segments
    case Parent =>
      if segments != [] && segments[|segments|-1].Normal? then segments[..|segments|-1]
      else if !rooted then segments + [Parent]
      else segments
    case Normal(_) => segments + [part]
  }

  function Segments(rooted: bool, parts: seq<Part>): seq<Part> {
    if parts == [] then [] else Push(rooted, Segments(rooted, parts[..|parts|-1]), parts[|parts|-1])
  }

  /** Only `..`s, then only names; no `..` when rooted. */
  lemma {:induction false} SegmentsAreLex(rooted: bool, parts: seq<Part>)
    ensures Segments(rooted, parts) == Up(if rooted then 0 else Lex(parts).climbs) + Named(Lex(parts).names)
    decreases |parts|
  {
    if parts != [] {
      var init := parts[..|parts|-1];
      SegmentsAreLex(rooted, init);
      var l := Lex(init);
      var ups := Up(if rooted then 0 else l.climbs);
      match parts[|parts|-1]
      case Cur =>
      case Normal(n) => assert (ups + Named(l.names)) + [Normal(n)] == ups + Named(l.names + [n]);
      case Parent =>
        if l.names != [] {
          assert (ups + Named(l.names))[..|ups| + |l.names| - 1] == ups + Named(l.names[..|l.names|-1]);
        } else {
          assert ups + Named(l.names) == ups;
          assert !rooted ==> ups + [Parent] == Up(l.climbs + 1) + Named([]);
        }
    }
  }

  /** `reconstruct_path`. */
  function Reconstruct(rooted: bool, segments: seq<Part>): RawPath {
    if segments == [] && !rooted then RawPath(false, [Cur]) else RawPath(rooted, segments)
  }

  function Normalize(path: RawPath): RawPath {
    Reconstruct(path.rooted, Segments(path.rooted, path.parts))
  }

  /** `normalize_path_lexical`. */
  method NormalizePathLexical(path: RawPath) returns (r: RawPath)
    ensures r == Normalize(path)
  {
    var segments: seq<Part> := [];
    var k := 0;
    assert path.parts[..0] == [];
    while k < |path.parts|
      invariant 0 <= k <= |path.parts| && segments == Segments(path.rooted, path.parts[..k])
    {
      assert path.parts[..k+1][..k] == path.parts[..k];
      match path.parts[k] {
        case Cur =>
        case Parent =>
          if segments != [] && segments[|segments|-1].Normal? {
            segments := segments[..|segments|-1];
          } else if !path.rooted {
            segments := segments + [Parent];
          }
        case Normal(n) => segments := segments + [Normal(n)];
      }
      k := k + 1;
    }
    assert path.parts[..k] == path.parts;
    r := Reconstruct(path.rooted, segments);
  }

  lemma LexOfForm(k: nat, names: Route)
    ensures Lex(Up(k) + Named(names)) == Lexical(k, names)
    decreases |names|, k
  {
    var parts := Up(k) + Named(names);
    if names != [] {
      var init := names[..|names|-1];
      assert parts[..|parts|-1] == Up(k) + Named(init);
      LexOfForm(k, init);
      assert init + [names[|names|-1]] == names;
    } else if k > 0 {
      assert parts[..|parts|-1] == Up(k - 1) + Named([]);
      LexOfForm(k - 1, []);
    }
  }

  lemma LexOfNormal(path: RawPath)
    ensures Normalize(path).rooted == path.rooted
    ensures Lex(Normalize(path).parts) == Lexical(if path.rooted then 0 else Lex(path.parts).climbs, Lex(path.parts).names)
  {
    SegmentsAreLex(path.rooted, path.parts);
    LexOfForm(if path.rooted then 0 else Lex(path.parts).climbs, Lex(path.parts).names);
    assert [Cur][..0] == [];
  }

  /** Normalizing again changes nothing. */
  lemma NormalizeIdempotent(path: RawPath)
    ensures Normalize(Normalize(path)) == Normalize(path)
  {
    LexOfNormal(path);
    var n := Normalize(path);
    SegmentsAreLex(path.rooted, path.parts);
    SegmentsAreLex(n.rooted, n.parts);
  }

  lemma DestinationIsLex(pos: Route, path: RawPath)
    ensures Destination(pos, path) ==
            (if path.rooted then [] else Cut(pos, Lex(path.parts).climbs)) + Lex(path.parts).names
  {
    MoveAllIsLex(if path.rooted then [] else pos, path.parts);
  }

  lemma NormalLeadsThere(pos: Route, path: RawPath)
    ensures Destination(pos, Normalize(path)) == Destination(pos, path)
  {
    DestinationIsLex(pos, path);
    DestinationIsLex(pos, Normalize(path));
    LexOfNormal(path);
  }

  function Repeat(n: Name, k: nat): (r: Route)
    ensures |r| == k && forall i :: 0 <= i < k ==> r[i] == n
  {
    seq(k, _ => n)
  }

  /** A path that starts from the root and one that does not can be told apart. */
  lemma RootedDiffers(p: RawPath, q: RawPath)
    requires p.rooted && !q.rooted
    ensures !SameWalks(p, q)
  {
    var pos := Repeat("x", Lex(q.parts).climbs + |Lex(p.parts).names| + 1);
    DestinationIsLex(pos, p);
    DestinationIsLex(pos, q);
  }

  /** A difference in climbs shows from far enough down, among names that do not occur. */
  lemma ClimbsDiffer(p: RawPath, q: RawPath)
    requires !p.rooted && !q.rooted && Lex(p.parts).climbs < Lex(q.parts).climbs
    ensures !SameWalks(p, q)
  {
    var a, b := Lex(p.parts), Lex(q.parts);
    var other: Name := if b.names == [] then "x" else b.names[0] + "x";
    var pos := Repeat(other, b.climbs + 1);
    DestinationIsLex(pos, p);
    DestinationIsLex(pos, q);
    assert Destination(pos, p)[1] == other;
    if b.names != [] {
      assert Destination(pos, q)[1] == b.names[0];
    }
  }

  lemma NamesDiffer(p: RawPath, q: RawPath)
    requires p.rooted == q.rooted && (p.rooted || Lex(p.parts).climbs == Lex(q.parts).climbs)
    requires Lex(p.parts).names != Lex(q.parts).names
    ensures !SameWalks(p, q)
  {
    DestinationIsLex([], p);
    DestinationIsLex([], q);
    assert Cut([], Lex(p.parts).climbs) == [];
    assert [] + Lex(p.parts).names == Lex(p.parts).names && [] + Lex(q.parts).names == Lex(q.parts).names;
  }

  /** Two paths normalize to the same path exactly when they lead to the same place from every
      starting point. */
  lemma NormalizeCanonical(p: RawPath, q: RawPath)
    ensures Normalize(p) == Normalize(q) <==> SameWalks(p, q)
  {
    if Normalize(p) == Normalize(q) {
      forall pos ensures Destination(pos, p) == Destination(pos, q) {
        NormalLeadsThere(pos, p);
        NormalLeadsThere(pos, q);
      }
    }
    if SameWalks(p, q) {
      if p.rooted != q.rooted {
        if p.rooted { RootedDiffers(p, q); } else { RootedDiffers(q, p); }
      }
      if !p.rooted && Lex(p.parts).climbs < Lex(q.parts).climbs { ClimbsDiffer(p, q); }
      if !p.rooted && Lex(q.parts).climbs < Lex(p.parts).climbs { ClimbsDiffer(q, p); }
      if Lex(p.parts).names != Lex(q.parts).names { NamesDiffer(p, q); }
      SegmentsAreLex(p.rooted, p.parts);
      SegmentsAreLex(q.rooted, q.parts);
    }
  }

  // ---------------------------------------------------------------- the gateway's form

  /** `PathBuf::pop`: the last part goes, whatever it is; the root itself stays. */
  function Pop(parts: seq<Part>): seq<Part> {
    if parts == [] then [] else parts[..|parts|-1]
  }

  predicate NamesOnly(parts: seq<Part>) {
    forall k :: 0 <= k < |parts| ==> parts[k].Normal?
  }

  /** `absolute_path_lexical`; `cwd` is the process's working directory. The result is what the path
      policy's normalization gives, for an absolute path and for one joined to `cwd`. */
  method AbsolutePathLexical(path: RawPath, cwd: RawPath) returns (r: RawPath)
    requires cwd.rooted && NamesOnly(cwd.parts)
    ensures r == Normalize(if path.rooted then path else RawPath(true, cwd.parts + path.parts))
  {
    var absolute := if path.rooted then [] else cwd.parts;
    ghost var from := absolute;
    var k := 0;
    NamesStay(absolute);
    assert from + path.parts[..0] == from;
    while k < |path.parts|
      invariant 0 <= k <= |path.parts| && absolute == Segments(true, from + path.parts[..k])
      invariant NamesOnly(absolute)
    {
      SegmentsNext(true, from, path.parts, k);
      match path.parts[k] {
        case Cur =>
        case Parent => absolute := Pop(absolute);
        case Normal(n) => absolute := absolute + [Normal(n)];
      }
      k := k + 1;
    }
    assert from + path.parts[..k] == from + path.parts;
    assert path.rooted ==> from + path.parts == path.parts;
    r := RawPath(true, absolute);
  }

  lemma SegmentsNext(rooted: bool, from: seq<Part>, parts: seq<Part>, k: nat)
    requires k < |parts|
    ensures Segments(rooted, from + parts[..k+1]) == Push(rooted, Segments(rooted, from + parts[..k]), parts[k])
  {
    var whole := from + parts[..k+1];
    assert whole[..|whole|-1] == from + parts[..k];
  }

  lemma {:induction false} NamesStay(parts: seq<Part>)
    requires NamesOnly(parts)
    ensures Segments(true, parts) == parts
    decreases |parts|
  {
    if parts != [] {
      NamesStay(parts[..|parts|-1]);
      assert parts[..|parts|-1] + [parts[|parts|-1]] == parts;
    }
  }

  // ---------------------------------------------------------------- the installer's form

  /** `lexically_normalize_path` pushes `..` when it cannot pop, and a later `..` pops that again. */
  function Toggled(parts: seq<Part>): seq<Part> {
    if parts == [] then []
    else
      var before := Toggled(parts[..|parts|-1]);
      match parts[|parts|-1]
      case Cur => before
      case Parent => if before == [] then [Parent] else Pop(before)
      case Normal(n) => before + [Normal(n)]
  }

  method LexicallyNormalizePath(path: RawPath) returns (r: RawPath)
    ensures r == RawPath(path.rooted, Toggled(path.parts))
  {
    var normalized: seq<Part> := [];
    var k := 0;
    assert path.parts[..0] == [];
    while k < |path.parts|
      invariant 0 <= k <= |path.parts| && normalized == Toggled(path.parts[..k])
    {
      assert path.parts[..k+1][..k] == path.parts[..k];
      match path.parts[k] {
        case Cur =>
        case Parent => normalized := if normalized == [] then [Parent] else Pop(normalized);
        case Normal(n) => normalized := normalized + [Normal(n)];
      }
      k := k + 1;
    }
    assert path.parts[..k] == path.parts;
    r := RawPath(path.rooted, normalized);
  }

  lemma {:induction false} ToggledIsLex(parts: seq<Part>)
    ensures Toggled(parts) == Up(Lex(parts).climbs % 2) + Named(Lex(parts).names)
    decreases |parts|
  {
    if parts != [] {
      var init := parts[..|parts|-1];
      ToggledIsLex(init);
      var l := Lex(init);
      var ups := Up(l.climbs % 2);
      match parts[|parts|-1]
      case Cur =>
      case Normal(n) => assert (ups + Named(l.names)) + [Normal(n)] == ups + Named(l.names + [n]);
      case Parent =>
        if l.names != [] {
          assert (ups + Named(l.names))[..|ups| + |l.names| - 1] == ups + Named(l.names[..|l.names|-1]);
        } else {
          assert ups + Named(l.names) == ups;
          assert Toggled(parts) == Up((l.climbs + 1) % 2) + Named([]);
        }
    }
  }

  /** The installer's form of an absolute path is the normal form exactly when the path climbs above
      the root an even number of times. */
  lemma InstallerAgreesAbsolute(path: RawPath)
    requires path.rooted
    ensures RawPath(true, Toggled(path.parts)) == Normalize(path) <==> Lex(path.parts).climbs % 2 == 0
  {
    ToggledIsLex(path.parts);
    SegmentsAreLex(true, path.parts);
    assert Up(0) + Named(Lex(path.parts).names) == Named(Lex(path.parts).names);
    if Lex(path.parts).climbs % 2 == 1 {
      assert |Toggled(path.parts)| == 1 + |Lex(path.parts).names|;
    }
  }

  /** For a relative path it is the normal form, with nothing in place of a lone dot, exactly when the
      path climbs at most once. */
  lemma InstallerAgreesRelative(path: RawPath)
    requires !path.rooted
    ensures Toggled(path.parts) == Segments(false, path.parts) <==> Lex(path.parts).climbs <= 1
  {
    ToggledIsLex(path.parts);
    SegmentsAreLex(false, path.parts);
    var l := Lex(path.parts);
    assert |Segments(false, path.parts)| == l.climbs + |l.names|;
    assert |Toggled(path.parts)| == l.climbs % 2 + |l.names|;
  }
}
