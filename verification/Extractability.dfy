/** Which archives can be extracted into an empty root when no call fails
    (crates/omne-artifact-install-primitives/src/archive_tree.rs). */
module Extractability {
  import opened Wrappers
  import opened Filesystem
  import opened HeapUpdates
  import opened TreeView
  import opened ArchiveLeaves
  import opened ArchiveEntries
  import opened CaseCollision
  import opened HardLinks
  import opened DeclaredTrees

  // ---------------------------------------------------------------- the condition

  /** Only directories have entries below them. */
  ghost predicate NothingBelowLeaves(entries: seq<Declared>) {
    forall j, k :: 0 <= j < |entries| && 0 <= k < |entries| && IsProperPrefix(entries[j].path, entries[k].path)
                   ==> entries[j].content.DirEntry?
  }

  /** Following at most `n` hard links from `path` leads to a file of the archive. */
  ghost predicate Sourced(entries: seq<Declared>, path: Route, n: nat)
    decreases n
  {
    exists k :: 0 <= k < |entries| && entries[k].path == path &&
                match entries[k].content
                case FileEntry(_, _) => true
                case HardLinkEntry(source) => n > 0 && Sourced(entries, source, n - 1)
                case _ => false
  }

  ghost predicate EndsAtFile(entries: seq<Declared>, path: Route) {
    exists n: nat :: Sourced(entries, path, n)
  }

  /** Every hard link comes, over hard links perhaps, from a file of the archive. */
  ghost predicate LinksEnd(entries: seq<Declared>) {
    forall k :: 0 <= k < |entries| && entries[k].content.HardLinkEntry? ==> EndsAtFile(entries, entries[k].content.source)
  }

  /** Where letter case is tracked: no two paths fold together, and no hard link names its source in
      another letter case. */
  ghost predicate CaseClean(entries: seq<Declared>) {
    && FoldInjective(Prefixes(PathsOf(entries)))
    && forall k :: 0 <= k < |entries| && entries[k].content.HardLinkEntry? ==>
         CaseOk(Prefixes(PathsOf(entries)), entries[k].content.source)
  }

  ghost predicate AllContained(entries: seq<Declared>) {
    forall k :: 0 <= k < |entries| ==> Contained(entries[k])
  }

  ghost predicate Extractable(entries: seq<Declared>, caseSensitive: bool) {
    && NothingBelowLeaves(entries) && AllContained(entries) && LinksEnd(entries)
    && (!caseSensitive ==> CaseClean(entries))
  }

  // ---------------------------------------------------------------- visits

  /** Nothing stands in the way of the entry. */
  ghost predicate Enterable(h: Heap, root: Ino, e: Declared) {
    e.path != [] &&
    match e.content
    case DirEntry => !Probe(h, root, e.path).Blocked?
    case FileEntry(_, _) => Placeable(h, root, e.path)
    case LinkEntry(_) => Contained(e) && Placeable(h, root, e.path)
    case HardLinkEntry(_) => !Probe(h, root, ParentOf(e.path)).Blocked?
  }

  /** A blocked walk has met something that is not a directory. */
  lemma {:induction false} BlockedAt(h: Heap, root: Ino, dir: Route) returns (p: Route)
    requires Closed(h) && IsDir(h, root) && Probe(h, root, dir).Blocked?
    ensures p != [] && IsPrefix(p, dir) && See(h, root, p) != Absent && See(h, root, p) != SeenDir
    decreases |dir|
  {
    var init, last := dir[..|dir|-1], dir[|dir|-1];
    assert dir == init + [last];
    ProbeSnoc(h, root, init, last);
    if Probe(h, root, init).Blocked? {
      p := BlockedAt(h, root, init);
      assert dir[..|p|] == init[..|p|];
    } else {
      p := dir;
      ProbeWalk(h, root, init);
      WalkSnoc(h, root, init, last);
      SeenIsWalked(h, root, dir);
    }
  }

  /** What is there and is no directory is an entry of its own. */
  lemma LeafIsEntry(h: Heap, root: Ino, entries: seq<Declared>, inos: map<Route, Ino>, p: Route) returns (k: nat)
    requires Partial(h, root, entries, inos) && p != [] && See(h, root, p) != Absent && See(h, root, p) != SeenDir
    ensures k < |entries| && entries[k].path == p && !entries[k].content.DirEntry? && !entries[k].content.HardLinkEntry?
  {
    assert Accounted(entries, p);
    k :| 0 <= k < |entries| && Explains(entries[k], p);
    assert ShownAt(h, root, entries[k], inos);
  }

  lemma NotBlocked(h: Heap, root: Ino, entries: seq<Declared>, inos: map<Route, Ino>, all: seq<Declared>, dir: Route)
    requires Closed(h) && IsDir(h, root) && Partial(h, root, entries, inos)
    requires |entries| < |all| && entries == all[..|entries|] && NothingBelowLeaves(all)
    requires dir == all[|entries|].path || (all[|entries|].path != [] && dir == ParentOf(all[|entries|].path))
    requires forall k :: 0 <= k < |entries| ==> entries[k].path != all[|entries|].path
    ensures !Probe(h, root, dir).Blocked?
  {
    if Probe(h, root, dir).Blocked? {
      var e := all[|entries|];
      var p := BlockedAt(h, root, dir);
      assert IsPrefix(p, e.path) by {
        assert e.path[..|p|] == dir[..|p|];
      }
      var k := LeafIsEntry(h, root, entries, inos, p);
    }
  }

  /** The next entry of an extractable archive can be entered. */
  lemma NextEnterable(h: Heap, root: Ino, entries: seq<Declared>, inos: map<Route, Ino>, all: seq<Declared>)
    requires Closed(h) && IsDir(h, root) && Partial(h, root, entries, inos)
    requires |entries| < |all| && entries == all[..|entries|] && PathsDistinct(all)
    requires NothingBelowLeaves(all) && AllContained(all) && all[|entries|].path != []
    ensures Enterable(h, root, all[|entries|])
  {
    var e := all[|entries|];
    forall k | 0 <= k < |entries|
      ensures entries[k].path != e.path
    {
      assert entries[k] == all[k];
    }
    NotBlocked(h, root, entries, inos, all, e.path);
    NotBlocked(h, root, entries, inos, all, ParentOf(e.path));
  }

  // ---------------------------------------------------------------- the hard links

  lemma SeenFileIsEntry(h: Heap, root: Ino, entries: seq<Declared>, inos: map<Route, Ino>, p: Route)
    requires Closed(h) && IsDir(h, root) && Partial(h, root, entries, inos) && p != []
    ensures Resolve(h, root, p).TFile?
            <==> exists k :: 0 <= k < |entries| && entries[k].path == p && entries[k].content.FileEntry?
  {
    ResolveSees(h, root, p);
    if Resolve(h, root, p).TFile? {
      var k := LeafIsEntry(h, root, entries, inos, p);
      assert ShownAt(h, root, entries[k], inos);
    }
    forall k | 0 <= k < |entries| && entries[k].path == p && entries[k].content.FileEntry?
      ensures See(h, root, p).SeenFile?
    {
      assert ShownAt(h, root, entries[k], inos);
    }
  }

  /** Chains of pending links and chains of hard link entries are the same. */
  lemma {:induction false} LeadsIsSourced(h: Heap, root: Ino, entries: seq<Declared>, inos: map<Route, Ino>, p: Route,
      i: Ino, n: nat)
    requires Closed(h) && IsDir(h, root) && Partial(h, root, entries, inos) && Sound(entries) && p != []
    requires Leads(h, root, Links(HardLinksOf(entries)), p, i, n)
    ensures Sourced(entries, p, n)
    decreases n
  {
    SeenFileIsEntry(h, root, entries, inos, p);
    if Resolve(h, root, p).TFile? {
      var k :| 0 <= k < |entries| && entries[k].path == p && entries[k].content.FileEntry?;
    } else {
      var links := Links(HardLinksOf(entries));
      var l :| l in links && l.output == p && l.target != [] && Leads(h, root, links, l.target, i, n - 1);
      LeadsIsSourced(h, root, entries, inos, l.target, i, n - 1);
      var k := IsLink(entries, l);
      assert entries[k].path == p;
    }
  }

  lemma {:induction false} SourcedLeads(h: Heap, root: Ino, entries: seq<Declared>, inos: map<Route, Ino>, p: Route,
      n: nat)
    returns (i: Ino)
    requires Closed(h) && IsDir(h, root) && Partial(h, root, entries, inos) && Sound(entries) && p != []
    requires Separate(h, root, HardLinksOf(entries)) && Sourced(entries, p, n)
    ensures Leads(h, root, Links(HardLinksOf(entries)), p, i, n)
    decreases n
  {
    SeenFileIsEntry(h, root, entries, inos, p);
    var k :| 0 <= k < |entries| && entries[k].path == p &&
             match entries[k].content
             case FileEntry(_, _) => true
             case HardLinkEntry(source) => n > 0 && Sourced(entries, source, n - 1)
             case _ => false;
    if entries[k].content.FileEntry? {
      i := Resolve(h, root, p).ino;
    } else {
      var l := PendingHardLink(p, entries[k].content.source);
      HardLinksListed(entries, l);
      assert l in Links(HardLinksOf(entries)) && Vacant(h, root, l);
      i := SourcedLeads(h, root, entries, inos, l.target, n - 1);
    }
  }

  lemma EndsSame(h: Heap, root: Ino, entries: seq<Declared>, inos: map<Route, Ino>, p: Route)
    requires Closed(h) && IsDir(h, root) && Partial(h, root, entries, inos) && Sound(entries) && p != []
    requires Separate(h, root, HardLinksOf(entries))
    ensures EndsSomewhere(h, root, Links(HardLinksOf(entries)), p) <==> EndsAtFile(entries, p)
  {
    if EndsSomewhere(h, root, Links(HardLinksOf(entries)), p) {
      var i :| LeadsTo(h, root, Links(HardLinksOf(entries)), p, i);
      var n: nat :| Leads(h, root, Links(HardLinksOf(entries)), p, i, n);
      LeadsIsSourced(h, root, entries, inos, p, i, n);
    }
    if EndsAtFile(entries, p) {
      var n: nat :| Sourced(entries, p, n);
      var i := SourcedLeads(h, root, entries, inos, p, n);
      assert LeadsTo(h, root, Links(HardLinksOf(entries)), p, i);
    }
  }

  ghost predicate SourcesCaseOk(recorded: set<Route>, entries: seq<Declared>) {
    forall k :: 0 <= k < |entries| && entries[k].content.HardLinkEntry? ==> CaseOk(recorded, entries[k].content.source)
  }

  /** The pending links can be resolved exactly when those of the archive end at files of it. */
  lemma SolvableSame(h: Heap, root: Ino, entries: seq<Declared>, inos: map<Route, Ino>, recorded: set<Route>)
    requires Closed(h) && IsDir(h, root) && Partial(h, root, entries, inos) && Sound(entries)
    requires Separate(h, root, HardLinksOf(entries))
    ensures Solvable(h, root, recorded, Links(HardLinksOf(entries)))
            <==> LinksEnd(entries) && SourcesCaseOk(recorded, entries)
  {
    var links := Links(HardLinksOf(entries));
    forall k | 0 <= k < |entries| && entries[k].content.HardLinkEntry?
      ensures PendingHardLink(entries[k].path, entries[k].content.source) in links
      ensures EndsSomewhere(h, root, links, entries[k].content.source)
              <==> EndsAtFile(entries, entries[k].content.source)
    {
      HardLinksListed(entries, PendingHardLink(entries[k].path, entries[k].content.source));
      EndsSame(h, root, entries, inos, entries[k].content.source);
    }
    if LinksEnd(entries) && SourcesCaseOk(recorded, entries) {
      forall l | l in links
        ensures CaseOk(recorded, l.target) && l.target != [] && EndsSomewhere(h, root, links, l.target)
      {
        var k := IsLink(entries, l);
      }
    }
  }

  /** No directory has taken the place of a pending link. */
  lemma NoneObstructed(h: Heap, root: Ino, entries: seq<Declared>, inos: map<Route, Ino>)
    requires Partial(h, root, entries, inos) && PathsDistinct(entries) && Sound(entries) && NothingBelowLeaves(entries)
    ensures forall l :: l in HardLinksOf(entries) ==> !Obstructed(h, root, l)
  {
    forall l | l in HardLinksOf(entries)
      ensures !Obstructed(h, root, l)
    {
      HardLinksListed(entries, l);
      var k :| 0 <= k < |entries| && entries[k] == Declared(l.output, HardLinkEntry(l.target));
    }
  }

  /** And an archive of which everything is shown has nothing below its leaves. */
  lemma ShownNothingBelow(h: Heap, root: Ino, entries: seq<Declared>, inos: map<Route, Ino>)
    requires Partial(h, root, entries, inos) && Sound(entries)
    requires forall l :: l in HardLinksOf(entries) ==> !Obstructed(h, root, l)
    ensures NothingBelowLeaves(entries)
  {
    forall j, k | 0 <= j < |entries| && 0 <= k < |entries| && IsProperPrefix(entries[j].path, entries[k].path)
      ensures entries[j].content.DirEntry?
    {
      assert See(h, root, entries[j].path) == SeenDir && ShownAt(h, root, entries[j], inos);
      if entries[j].content.HardLinkEntry? {
        HardLinksListed(entries, PendingHardLink(entries[j].path, entries[j].content.source));
      }
    }
  }

  /** What was extracted from an archive before its hard links were made says whether it was
      extractable. */
  lemma ExtractableWhen(h: Heap, root: Ino, entries: seq<Declared>, inos: map<Route, Ino>, recorded: set<Route>,
      caseSensitive: bool)
    requires Closed(h) && IsDir(h, root) && Partial(h, root, entries, inos) && Sound(entries) && PathsDistinct(entries)
    requires recorded == if caseSensitive then {} else Prefixes(PathsOf(entries))
    requires forall l :: l in HardLinksOf(entries) ==> !Obstructed(h, root, l)
    requires FoldInjective(recorded)
    ensures Separate(h, root, HardLinksOf(entries))
    ensures Extractable(entries, caseSensitive) <==> Solvable(h, root, recorded, Links(HardLinksOf(entries)))
  {
    PendingSeparate(h, root, entries, inos);
    ShownNothingBelow(h, root, entries, inos);
    SolvableSame(h, root, entries, inos, recorded);
    assert AllContained(entries);
  }
}
