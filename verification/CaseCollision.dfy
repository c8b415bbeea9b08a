/** Detecting archive paths that a case-insensitive filesystem would fold together
    (crates/omne-artifact-install-primitives/src/archive_tree.rs). */
module CaseCollision {
  import opened Wrappers
  import opened Filesystem
  import opened Primitives

  /** On Unix a file name is a non-empty string of bytes without `/`. */
  predicate ByteName(n: Name) {
    n != [] && forall k :: 0 <= k < |n| ==> n[k] as int < 256 && n[k] != '/'
  }

  predicate BytePath(p: Route) {
    p != [] && forall k :: 0 <= k < |p| ==> ByteName(p[k])
  }

  // ---------------------------------------------------------------- folding and keys

  /** The paths differ at most in the case of ASCII letters, component by component. */
  predicate SameFold(p: Route, q: Route) {
    |p| == |q| && forall k :: 0 <= k < |p| ==> LowerAll(p[k]) == LowerAll(q[k])
  }

  lemma LowerStaysByte(c: char)
    requires c as int < 256
    ensures Lower(c) as int < 256
  {
    if 'A' <= c <= 'Z' {
      assert Lower(c) as int == c as int + 32;
    }
  }

  /** `append_case_folded_component`: two hex digits for every lowered byte. */
  function HexFold(n: Name): (s: string)
    requires forall k :: 0 <= k < |n| ==> n[k] as int < 256
    ensures |s| == 2 * |n| && '/' !in s
  {
    if n == [] then []
    else
      LowerStaysByte(n[0]);
      [HexDigit(Lower(n[0]) as int / 16), HexDigit(Lower(n[0]) as int % 16)] + HexFold(n[1..])
  }

  /** `case_collision_key`. */
  function Key(p: Route): string
    requires BytePath(p)
  {
    if |p| == 1 then HexFold(p[0]) else HexFold(p[0]) + "/" + Key(p[1..])
  }

  lemma {:induction false} HexFoldInjective(n: Name, m: Name)
    requires forall k :: 0 <= k < |n| ==> n[k] as int < 256
    requires forall k :: 0 <= k < |m| ==> m[k] as int < 256
    ensures HexFold(n) == HexFold(m) <==> LowerAll(n) == LowerAll(m)
    decreases |n|
  {
    if |n| == |m| && n != [] {
      var s, t := HexFold(n), HexFold(m);
      LowerStaysByte(n[0]);
      LowerStaysByte(m[0]);
      HexFoldInjective(n[1..], m[1..]);
      assert s[2..] == HexFold(n[1..]) && t[2..] == HexFold(m[1..]);
      assert s == [s[0], s[1]] + s[2..] && t == [t[0], t[1]] + t[2..];
      var a, b := Lower(n[0]) as int, Lower(m[0]) as int;
      if s == t {
        HexDigitInjective(a / 16, b / 16);
        HexDigitInjective(a % 16, b % 16);
        assert Lower(n[0]) == Lower(m[0]);
        forall k | 0 <= k < |n|
          ensures Lower(n[k]) == Lower(m[k])
        {
          if k > 0 {
            assert LowerAll(n[1..])[k-1] == LowerAll(m[1..])[k-1];
          }
        }
      }
      if LowerAll(n) == LowerAll(m) {
        assert LowerAll(n)[0] == LowerAll(m)[0];
        forall k | 0 <= k < |n| - 1
          ensures Lower(n[1..][k]) == Lower(m[1..][k])
        {
          assert LowerAll(n)[k+1] == LowerAll(m)[k+1];
        }
        assert LowerAll(n[1..]) == LowerAll(m[1..]);
      }
    }
  }

  /** The text before the first slash. */
  function Head(s: string): string {
    if s == "" || s[0] == '/' then "" else [s[0]] + Head(s[1..])
  }

  lemma {:induction false} HeadOf(a: string, x: string)
    requires '/' !in a && (x == "" || x[0] == '/')
    ensures Head(a + x) == a
  {
    if a == "" {
      assert a + x == x;
    } else {
      assert (a + x)[1..] == a[1..] + x;
      HeadOf(a[1..], x);
    }
  }

  lemma FirstSlash(a: string, x: string, b: string, y: string)
    requires '/' !in a && '/' !in b
    requires (x == "" || x[0] == '/') && (y == "" || y[0] == '/')
    requires a + x == b + y
    ensures a == b && x == y
  {
    HeadOf(a, x);
    HeadOf(b, y);
    assert x == (a + x)[|a|..] && y == (b + y)[|b|..];
  }

  function Rest(p: Route): string
    requires BytePath(p)
  {
    if |p| == 1 then "" else "/" + Key(p[1..])
  }

  lemma SameFoldSplit(p: Route, q: Route)
    requires p != [] && q != []
    ensures SameFold(p, q) <==> LowerAll(p[0]) == LowerAll(q[0]) && SameFold(p[1..], q[1..])
  {
    if LowerAll(p[0]) == LowerAll(q[0]) && SameFold(p[1..], q[1..]) {
      forall k | 0 <= k < |p| ensures LowerAll(p[k]) == LowerAll(q[k]) {
        if k > 0 {
          assert p[k] == p[1..][k-1] && q[k] == q[1..][k-1];
        }
      }
    }
  }

  lemma KeySplit(p: Route, q: Route)
    requires BytePath(p) && BytePath(q)
    ensures Key(p) == Key(q) <==> HexFold(p[0]) == HexFold(q[0]) && Rest(p) == Rest(q)
  {
    var x, y := Rest(p), Rest(q);
    assert Key(p) == HexFold(p[0]) + x && Key(q) == HexFold(q[0]) + y;
    if Key(p) == Key(q) {
      FirstSlash(HexFold(p[0]), x, HexFold(q[0]), y);
    }
  }

  /** Equal keys mean componentwise equality up to case, and conversely: hex joined by slashes can be
      decoded in one way only. */
  lemma {:induction false} KeysAgree(p: Route, q: Route)
    requires BytePath(p) && BytePath(q)
    ensures Key(p) == Key(q) <==> SameFold(p, q)
    decreases |p|
  {
    KeySplit(p, q);
    HexFoldInjective(p[0], q[0]);
    SameFoldSplit(p, q);
    RestsAgree(p, q);
    if |p| > 1 && |q| > 1 {
      KeysAgree(p[1..], q[1..]);
    }
  }

  /** So two paths have the same key exactly when they differ in ASCII letter case at most. */
  lemma KeysTellCaseOnly(p: Route, q: Route)
    requires BytePath(p) && BytePath(q)
    ensures Key(p) == Key(q) <==> |p| == |q| && forall k :: 0 <= k < |p| ==> SameUpToCase(p[k], q[k])
  {
    KeysAgree(p, q);
    forall k | 0 <= k < |p| && |p| == |q|
      ensures LowerAll(p[k]) == LowerAll(q[k]) <==> SameUpToCase(p[k], q[k])
    {
      LowerTellsCaseOnly(p[k], q[k]);
    }
  }

  lemma RestsAgree(p: Route, q: Route)
    requires BytePath(p) && BytePath(q)
    ensures |p| > 1 && |q| > 1 ==> (Rest(p) == Rest(q) <==> Key(p[1..]) == Key(q[1..]))
    ensures !(|p| > 1 && |q| > 1) ==> (Rest(p) == Rest(q) <==> p[1..] == q[1..])
  {
    if |p| > 1 && |q| > 1 {
      assert Rest(p)[1..] == Key(p[1..]) && Rest(q)[1..] == Key(q[1..]);
    } else {
      assert |p| == 1 ==> Rest(p) == "";
      assert |q| == 1 ==> Rest(q) == "";
    }
  }

  // ---------------------------------------------------------------- the tracker

  /** All non-empty prefixes of the given paths. */
  ghost function Prefixes(paths: seq<Route>): set<Route> {
    set i, k | 0 <= i < |paths| && 0 < k <= |paths[i]| :: paths[i][..k]
  }

  /** No two of the paths would be folded together. */
  ghost predicate FoldInjective(s: set<Route>) {
    forall p, q :: p in s && q in s && SameFold(p, q) ==> p == q
  }

  lemma {:induction false} HexFoldSnoc(n: Name, k: nat)
    requires k < |n| && forall i :: 0 <= i < |n| ==> n[i] as int < 256
    ensures Lower(n[k]) as int < 256
    ensures HexFold(n[..k+1]) == HexFold(n[..k]) + [HexDigit(Lower(n[k]) as int / 16), HexDigit(Lower(n[k]) as int % 16)]
    decreases k
  {
    LowerStaysByte(n[k]);
    if k == 0 {
      assert n[..1] == [n[0]] && n[..1][1..] == [] && n[..0] == [];
    } else {
      var m := n[1..];
      HexFoldSnoc(m, k - 1);
      assert n[..k+1][1..] == m[..k] && n[..k][1..] == m[..k-1];
    }
  }

  /** `append_case_folded_component`. */
  method AppendFolded(buffer: string, component: Name) returns (r: string)
    requires forall i :: 0 <= i < |component| ==> component[i] as int < 256
    ensures r == buffer + HexFold(component)
  {
    r := buffer;
    var k := 0;
    assert component[..0] == [];
    while k < |component|
      invariant 0 <= k <= |component| && r == buffer + HexFold(component[..k])
    {
      HexFoldSnoc(component, k);
      var lowered := Lower(component[k]) as int;
      r := r + [HexDigit(lowered / 16)] + [HexDigit(lowered % 16)];
      k := k + 1;
    }
    assert component[..k] == component;
  }

  lemma Slashes(a: string, b: string, c: string)
    ensures a + "/" + (b + "/" + c) == a + "/" + b + "/" + c
  {
  }

  lemma {:induction false} KeySnoc(p: Route, k: nat)
    requires 0 < k < |p| && BytePath(p)
    ensures BytePath(p[..k]) && BytePath(p[..k+1]) && Key(p[..k+1]) == Key(p[..k]) + "/" + HexFold(p[k])
    decreases k
  {
    var q := p[1..];
    if k == 1 {
      assert p[..2][1..] == [p[1]] && p[..1] == [p[0]] && p[..2][0] == p[0];
      assert Key([p[1]]) == HexFold(p[1]);
    } else {
      KeySnoc(q, k - 1);
      var longer, shorter := p[..k+1], p[..k];
      assert longer[1..] == q[..k] && shorter[1..] == q[..k-1] && longer[0] == shorter[0] == p[0] && q[k-1] == p[k];
      Slashes(HexFold(p[0]), Key(q[..k-1]), HexFold(p[k]));
      assert Key(longer) == HexFold(p[0]) + "/" + Key(q[..k]);
    }
  }

  /** `case_collision_key`. */
  method CaseCollisionKey(path: Route) returns (key: string)
    requires BytePath(path)
    ensures key == Key(path)
  {
    key := AppendFolded("", path[0]);
    assert path[..1] == [path[0]];
    var k := 1;
    while k < |path|
      invariant 1 <= k <= |path| && BytePath(path[..k]) && key == Key(path[..k])
    {
      KeySnoc(path, k);
      key := AppendFolded(key + "/", path[k]);
      k := k + 1;
    }
    assert path[..k] == path;
  }

  class CaseCollisionTracker {
    var firstPaths: map<string, Route>
    ghost var recorded: set<Route>

    /** One path per key, exactly the recorded ones. */
    ghost predicate Valid()
      reads this
    {
      && (forall p :: p in recorded ==> BytePath(p) && Key(p) in firstPaths && firstPaths[Key(p)] == p)
      && (forall k :: k in firstPaths ==> firstPaths[k] in recorded && Key(firstPaths[k]) == k)
    }

    constructor ()
      ensures Valid() && recorded == {}
    {
      firstPaths, recorded := map[], {};
    }

    lemma ValidIsInjective()
      requires Valid()
      ensures FoldInjective(recorded)
    {
      forall p, q | p in recorded && q in recorded && SameFold(p, q)
        ensures p == q
      {
        KeysAgree(p, q);
      }
    }

    /** `record_exact_path`. */
    method RecordExactPath(candidate: Route) returns (ok: bool)
      requires Valid() && BytePath(candidate)
      modifies this
      ensures Valid() && recorded == if ok then old(recorded) + {candidate} else old(recorded)
      ensures ok <==> FoldInjective(old(recorded) + {candidate})
    {
      var key := CaseCollisionKey(candidate);
      ValidIsInjective();
      forall p | p in recorded ensures Key(p) == key <==> SameFold(p, candidate) { KeysAgree(p, candidate); }
      forall p | p in recorded ensures Key(p) == key <==> SameFold(candidate, p) { KeysAgree(candidate, p); }
      if key in firstPaths {
        ok := firstPaths[key] == candidate;
        assert ok ==> recorded + {candidate} == recorded;
        assert firstPaths[key] in recorded + {candidate} && candidate in recorded + {candidate};
      } else {
        firstPaths := firstPaths[key := candidate];
        recorded := recorded + {candidate};
        ok := true;
      }
    }

    /** `record_path_chain`: every prefix of the path, shortest first. */
    method RecordPathChain(path: Route) returns (ok: bool)
      requires Valid() && BytePath(path)
      modifies this
      ensures Valid() && old(recorded) <= recorded <= old(recorded) + Prefixes([path])
      ensures ok ==> recorded == old(recorded) + Prefixes([path])
      ensures ok <==> FoldInjective(old(recorded) + Prefixes([path]))
      ensures PrefixClosed(old(recorded)) ==> PrefixClosed(recorded)
    {
      ghost var before := recorded;
      var k := 0;
      ok := true;
      AllHeads(path);
      while k < |path|
        invariant 0 <= k <= |path| && Valid() && ok
        invariant recorded == before + Heads(path, k)
      {
        HeadsSnoc(path, k);
        ok := RecordExactPath(path[..k + 1]);
        if !ok {
          HeadsClosed(before, path, k);
          return;
        }
        k := k + 1;
      }
      HeadsClosed(before, path, k);
      ValidIsInjective();
    }

    /** `ensure_exact_case_match`. */
    method EnsureExactCaseMatch(referenced: Route) returns (ok: bool)
      requires Valid() && BytePath(referenced)
      ensures ok <==> forall p :: p in recorded && SameFold(p, referenced) ==> p == referenced
    {
      forall p | p in recorded ensures Key(p) == Key(referenced) <==> SameFold(p, referenced) {
        KeysAgree(p, referenced);
      }
      var key := CaseCollisionKey(referenced);
      ok := key in firstPaths ==> firstPaths[key] == referenced;
    }
  }

  ghost predicate PrefixClosed(s: set<Route>) {
    forall p, k :: p in s && 0 < k <= |p| ==> p[..k] in s
  }

  ghost function Heads(path: Route, k: nat): set<Route>
    requires k <= |path|
  {
    set j | 0 < j <= k :: path[..j]
  }

  lemma HeadsSnoc(path: Route, k: nat)
    requires k < |path|
    ensures Heads(path, k + 1) == Heads(path, k) + {path[..k + 1]}
    ensures Heads(path, k + 1) <= Heads(path, |path|)
  {
    assert path[..k + 1] in Heads(path, k + 1);
  }

  lemma AllHeads(path: Route)
    ensures Heads(path, |path|) == Prefixes([path])
  {
    forall x | x in Heads(path, |path|) ensures x in Prefixes([path]) {
      var j :| 0 < j <= |path| && x == path[..j];
      PrefixIsListed(path, j);
    }
    forall x | x in Prefixes([path]) ensures x in Heads(path, |path|) {
      var i, j :| 0 <= i < |[path]| && 0 < j <= |[path][i]| && x == [path][i][..j];
    }
  }

  lemma HeadsClosed(s: set<Route>, path: Route, k: nat)
    requires k <= |path|
    ensures PrefixClosed(s) ==> PrefixClosed(s + Heads(path, k))
  {
    forall p, i | p in Heads(path, k) && 0 < i <= |p| ensures p[..i] in Heads(path, k) {
      assert p[..i] == path[..i];
    }
  }

  lemma PrefixIsListed(path: Route, k: nat)
    requires 0 < k <= |path|
    ensures path[..k] in Prefixes([path])
  {
    assert [path][0] == path;
  }

  lemma PrefixesSnoc(paths: seq<Route>, p: Route)
    ensures Prefixes(paths + [p]) == Prefixes(paths) + Prefixes([p])
  {
    var all := paths + [p];
    forall x | x in Prefixes(paths) ensures x in Prefixes(all) {
      var i, k :| 0 <= i < |paths| && 0 < k <= |paths[i]| && x == paths[i][..k];
      assert all[i] == paths[i];
    }
    forall x | x in Prefixes([p]) ensures x in Prefixes(all) {
      var i, k :| 0 <= i < |[p]| && 0 < k <= |[p][i]| && x == [p][i][..k];
      assert all[|paths|] == p;
    }
    forall x | x in Prefixes(all) ensures x in Prefixes(paths) + Prefixes([p]) {
      var i, k :| 0 <= i < |all| && 0 < k <= |all[i]| && x == all[i][..k];
      if i == |paths| {
        PrefixIsListed(p, k);
      } else {
        assert all[i] == paths[i];
      }
    }
  }

  /** A whole archive: every entry path in turn, stopping at the first collision. The run succeeds
      exactly when no two prefixes of any entries fold together. */
  method RecordAll(tracker: CaseCollisionTracker, paths: seq<Route>) returns (ok: bool)
    requires tracker.Valid() && tracker.recorded == {}
    requires forall i :: 0 <= i < |paths| ==> BytePath(paths[i])
    modifies tracker
    ensures tracker.Valid() && PrefixClosed(tracker.recorded)
    ensures ok <==> FoldInjective(Prefixes(paths))
    ensures ok ==> tracker.recorded == Prefixes(paths)
  {
    var i := 0;
    ok := true;
    assert Prefixes(paths[..0]) == {};
    while i < |paths|
      invariant 0 <= i <= |paths| && tracker.Valid() && ok
      invariant tracker.recorded == Prefixes(paths[..i]) && PrefixClosed(tracker.recorded)
    {
      PrefixesSnoc(paths[..i], paths[i]);
      assert paths[..i+1] == paths[..i] + [paths[i]];
      PrefixesSplit(paths, i + 1);
      ok := tracker.RecordPathChain(paths[i]);
      if !ok {
        return;
      }
      i := i + 1;
    }
    assert paths[..i] == paths;
    tracker.ValidIsInjective();
  }

  lemma PrefixesSplit(paths: seq<Route>, k: nat)
    requires k <= |paths|
    ensures Prefixes(paths[..k]) <= Prefixes(paths)
    ensures FoldInjective(Prefixes(paths)) ==> FoldInjective(Prefixes(paths[..k]))
  {
    forall x | x in Prefixes(paths[..k]) ensures x in Prefixes(paths) {
      var i, j :| 0 <= i < k && 0 < j <= |paths[..k][i]| && x == paths[..k][i][..j];
      assert paths[i] == paths[..k][i];
    }
  }

  /** Whether an archive is accepted does not depend on the order of its entries. */
  lemma OrderDoesNotMatter(paths: seq<Route>, other: seq<Route>)
    requires multiset(paths) == multiset(other)
    ensures Prefixes(paths) == Prefixes(other)
    ensures FoldInjective(Prefixes(paths)) <==> FoldInjective(Prefixes(other))
  {
    SamePrefixes(paths, other);
    SamePrefixes(other, paths);
  }

  lemma SamePrefixes(paths: seq<Route>, other: seq<Route>)
    requires multiset(paths) == multiset(other)
    ensures Prefixes(paths) <= Prefixes(other)
  {
    forall x | x in Prefixes(paths) ensures x in Prefixes(other) {
      var i, k :| 0 <= i < |paths| && 0 < k <= |paths[i]| && x == paths[i][..k];
      assert paths[i] in multiset(paths);
      assert paths[i] in other;
      var j :| 0 <= j < |other| && other[j] == paths[i];
    }
  }
}
