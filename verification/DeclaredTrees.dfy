/** The tree that an archive declares, entry by entry, and how visits build it
    (crates/omne-artifact-install-primitives/src/archive_tree.rs). */
module DeclaredTrees {
  import opened Wrappers
  import opened Filesystem
  import opened HeapUpdates
  import opened TreeView
  import opened ArchiveLeaves
  import opened ArchiveEntries
  import opened CaseCollision
  import opened HardLinks

  // ---------------------------------------------------------------- what an archive declares

  datatype Content =
    | DirEntry
    | FileEntry(bytes: seq<Byte>, mode: nat)
    | LinkEntry(target: RawPath)
    | HardLinkEntry(source: Route)

  datatype Declared = Declared(path: Route, content: Content)

  /** The paths of the entries are pairwise distinct. */
  ghost predicate PathsDistinct(entries: seq<Declared>) {
    forall j, k :: 0 <= j < k < |entries| ==> entries[j].path != entries[k].path
  }

  ghost predicate Fresh(h: Heap, root: Ino) {
    forall p :: p != [] ==> See(h, root, p) == Absent
  }

  /** The entry is there as declared; `inos` says which inode each file got. */
  ghost predicate ShownAt(h: Heap, root: Ino, e: Declared, inos: map<Route, Ino>) {
    match e.content
    case DirEntry => See(h, root, e.path) == SeenDir
    case FileEntry(bytes, mode) => e.path in inos && See(h, root, e.path) == SeenFile(inos[e.path], bytes, mode)
    case LinkEntry(target) => See(h, root, e.path) == SeenLink(target)
    case HardLinkEntry(_) => true
  }

  ghost predicate AllShown(h: Heap, root: Ino, entries: seq<Declared>, inos: map<Route, Ino>) {
    forall k :: 0 <= k < |entries| ==> ShownAt(h, root, entries[k], inos)
  }

  ghost predicate ParentsShown(h: Heap, root: Ino, entries: seq<Declared>) {
    forall k, p :: 0 <= k < |entries| && p != [] && IsProperPrefix(p, entries[k].path) ==> See(h, root, p) == SeenDir
  }

  ghost predicate Accounted(entries: seq<Declared>, p: Route) {
    p == [] || exists k :: 0 <= k < |entries| && Explains(entries[k], p)
  }

  ghost predicate Explains(e: Declared, p: Route) {
    IsProperPrefix(p, e.path) || (p == e.path && !e.content.HardLinkEntry?)
  }

  ghost predicate NothingElse(h: Heap, root: Ino, entries: seq<Declared>) {
    forall p :: See(h, root, p) != Absent ==> Accounted(entries, p)
  }

  ghost predicate AllIn(h: Heap, inos: map<Route, Ino>) {
    forall p :: p in inos ==> inos[p] in h
  }

  /** Every file entry has an inode of its own. */
  ghost predicate OwnInodes(inos: map<Route, Ino>) {
    forall p, q :: p in inos && q in inos && p != q ==> inos[p] != inos[q]
  }

  /** The tree after some visits, hard links still pending. */
  ghost predicate Partial(h: Heap, root: Ino, entries: seq<Declared>, inos: map<Route, Ino>) {
    && AllShown(h, root, entries, inos) && ParentsShown(h, root, entries)
    && NothingElse(h, root, entries) && AllIn(h, inos) && OwnInodes(inos)
  }

  /** The tree is exactly what the archive declares: every entry, the directories above them, and
      nothing else; hard links share the inode of their source. */
  ghost predicate Complete(h: Heap, root: Ino, entries: seq<Declared>, inos: map<Route, Ino>) {
    && AllShown(h, root, entries, inos) && ParentsShown(h, root, entries) && OwnInodes(inos)
    && (forall k :: 0 <= k < |entries| && entries[k].content.HardLinkEntry? ==> Joined(h, root, entries[k]))
    && (forall p :: See(h, root, p) != Absent ==> p == [] || exists k :: 0 <= k < |entries| && IsPrefix(p, entries[k].path))
  }

  ghost predicate Joined(h: Heap, root: Ino, e: Declared)
    requires e.content.HardLinkEntry?
  {
    See(h, root, e.path).SeenFile? && See(h, root, e.path) == See(h, root, e.content.source)
  }

  function HardLinksOf(entries: seq<Declared>): seq<PendingHardLink> {
    if entries == [] then []
    else
      var e := entries[|entries|-1];
      HardLinksOf(entries[..|entries|-1])
      + if e.content.HardLinkEntry? then [PendingHardLink(e.path, e.content.source)] else []
  }

  /** A link's target stays inside the extraction root, lexically. */
  predicate Contained(e: Declared) {
    e.content.LinkEntry? && e.path != [] ==>
      !e.content.target.rooted && StaysInside(ParentOf(e.path), e.content.target.parts)
  }

  function PathsOf(entries: seq<Declared>): seq<Route> {
    seq(|entries|, k requires 0 <= k < |entries| => entries[k].path)
  }

  // ---------------------------------------------------------------- one visit

  /** What a successful visit did. */
  ghost predicate Visited(h0: Heap, h: Heap, root: Ino, e: Declared) {
    e.path != [] &&
    match e.content
    case DirEntry => Extended(h0, h, root, e.path)
    case FileEntry(bytes, mode) =>
      Replaceable(See(h0, root, e.path)) && exists ino :: ino !in h0 && Placed(h0, h, root, e.path, SeenFile(ino, bytes, mode))
    case LinkEntry(target) => Contained(e) && Replaceable(See(h0, root, e.path)) && Placed(h0, h, root, e.path, SeenLink(target))
    case HardLinkEntry(_) => Extended(h0, h, root, ParentOf(e.path))
  }

  ghost predicate IsNew(entries: seq<Declared>, e: Declared) {
    forall k :: 0 <= k < |entries| ==> entries[k].path != e.path
  }

  /** Only files were placed at paths a file can replace, and a new path has none. */
  lemma AbsentBefore(h: Heap, root: Ino, entries: seq<Declared>, inos: map<Route, Ino>, e: Declared)
    requires Partial(h, root, entries, inos) && IsNew(entries, e) && e.path != []
    requires Replaceable(See(h, root, e.path))
    ensures See(h, root, e.path) == Absent
  {
    assert See(h, root, e.path) != Absent ==> Accounted(entries, e.path);
  }

  /** The view after a visit: the new path, its parents, and the rest as before. */
  ghost predicate Stepped(h0: Heap, h: Heap, root: Ino, path: Route, seen: Seen) {
    && (forall p :: See(h, root, p) == if p == path && seen != Absent then seen
                                       else if p != [] && IsProperPrefix(p, path) then SeenDir
                                       else See(h0, root, p))
    && (forall p :: p != [] && IsProperPrefix(p, path) ==> See(h0, root, p) == Absent || See(h0, root, p) == SeenDir)
  }

  lemma PlacedSteps(h0: Heap, h: Heap, root: Ino, path: Route, seen: Seen)
    requires Placed(h0, h, root, path, seen) && seen != Absent
    ensures Stepped(h0, h, root, path, seen)
  {
  }

  lemma ExtendedSteps(h0: Heap, h: Heap, root: Ino, path: Route)
    requires path != []
    ensures Extended(h0, h, root, path) ==> Stepped(h0, h, root, path, SeenDir)
    ensures Extended(h0, h, root, ParentOf(path)) ==> Stepped(h0, h, root, path, Absent)
  {
    forall p
      ensures IsPrefix(p, path) <==> IsProperPrefix(p, path) || p == path
      ensures IsPrefix(p, ParentOf(path)) <==> IsProperPrefix(p, path)
    {
      if |p| < |path| {
        assert ParentOf(path)[..|p|] == path[..|p|];
      }
    }
  }

  /** One more entry. */
  lemma StepPartial(h0: Heap, h: Heap, root: Ino, entries: seq<Declared>, inos: map<Route, Ino>,
      inos': map<Route, Ino>, e: Declared, seen: Seen)
    requires Partial(h0, root, entries, inos) && IsNew(entries, e) && e.path != []
    requires Stepped(h0, h, root, e.path, seen)
    requires See(h0, root, e.path) == Absent || (e.content.DirEntry? && See(h0, root, e.path) == SeenDir) || seen == Absent
    requires seen != Absent <==> !e.content.HardLinkEntry?
    requires seen != Absent ==> ShownAt(h, root, e, inos')
    requires inos' == inos || (e.content.FileEntry? && exists i: Ino :: i !in h0 && inos' == inos[e.path := i])
    requires AllIn(h, inos') && OwnInodes(inos')
    ensures Partial(h, root, entries + [e], inos')
  {
    var all := entries + [e];
    forall k | 0 <= k < |all|
      ensures ShownAt(h, root, all[k], inos')
    {
      if k < |entries| {
        assert all[k] == entries[k] && ShownAt(h0, root, entries[k], inos);
        assert entries[k].path != e.path;
      }
    }
    forall k, p | 0 <= k < |all| && p != [] && IsProperPrefix(p, all[k].path)
      ensures See(h, root, p) == SeenDir
    {
      if k < |entries| {
        assert all[k] == entries[k] && See(h0, root, p) == SeenDir;
      }
    }
    forall p | See(h, root, p) != Absent
      ensures Accounted(all, p)
    {
      assert all[|entries|] == e;
      if See(h0, root, p) != Absent && p != [] {
        var k :| 0 <= k < |entries| && Explains(entries[k], p);
        assert all[k] == entries[k];
      } else if p != [] {
        assert Explains(all[|entries|], p);
      }
    }
  }

  lemma VisitPartial(h0: Heap, h: Heap, root: Ino, entries: seq<Declared>, inos: map<Route, Ino>, e: Declared)
    returns (inos': map<Route, Ino>)
    requires Partial(h0, root, entries, inos) && IsNew(entries, e) && Visited(h0, h, root, e) && Evolves(h0, h, root)
    ensures Partial(h, root, entries + [e], inos')
  {
    ExtendedSteps(h0, h, root, e.path);
    inos' := inos;
    match e.content
    case DirEntry =>
      StepDir(h0, h, root, entries, inos, e);
    case FileEntry(bytes, mode) =>
      var i :| i !in h0 && Placed(h0, h, root, e.path, SeenFile(i, bytes, mode));
      inos' := inos[e.path := i];
      PlacedSteps(h0, h, root, e.path, SeenFile(i, bytes, mode));
      AbsentBefore(h0, root, entries, inos, e);
      SeenInHeap(h, root, e.path);
      StepPartial(h0, h, root, entries, inos, inos', e, SeenFile(i, bytes, mode));
    case LinkEntry(target) =>
      PlacedSteps(h0, h, root, e.path, SeenLink(target));
      AbsentBefore(h0, root, entries, inos, e);
      StepPartial(h0, h, root, entries, inos, inos, e, SeenLink(target));
    case HardLinkEntry(_) =>
      StepPartial(h0, h, root, entries, inos, inos, e, Absent);
  }

  lemma SeenInHeap(h: Heap, root: Ino, p: Route)
    ensures See(h, root, p).SeenFile? ==> See(h, root, p).ino in h
  {
  }

  lemma StepDir(h0: Heap, h: Heap, root: Ino, entries: seq<Declared>, inos: map<Route, Ino>, e: Declared)
    requires Partial(h0, root, entries, inos) && IsNew(entries, e) && e.path != [] && e.content.DirEntry?
    requires Extended(h0, h, root, e.path) && Evolves(h0, h, root)
    ensures Partial(h, root, entries + [e], inos)
  {
    ExtendedSteps(h0, h, root, e.path);
    StepPartial(h0, h, root, entries, inos, inos, e, SeenDir);
  }

  // ---------------------------------------------------------------- after the walk

  lemma {:induction false} HardLinksListed(entries: seq<Declared>, l: PendingHardLink)
    ensures l in HardLinksOf(entries) <==>
            exists k :: 0 <= k < |entries| && entries[k] == Declared(l.output, HardLinkEntry(l.target))
    decreases |entries|
  {
    if entries != [] {
      var init, last := entries[..|entries|-1], entries[|entries|-1];
      HardLinksListed(init, l);
      if l in HardLinksOf(init) {
        var k :| 0 <= k < |init| && init[k] == Declared(l.output, HardLinkEntry(l.target));
        assert entries[k] == init[k];
      }
      forall k | 0 <= k < |entries| && entries[k] == Declared(l.output, HardLinkEntry(l.target))
        ensures l in HardLinksOf(entries)
      {
        if k < |init| {
          assert init[k] == entries[k];
        }
      }
    }
  }

  lemma {:induction false} HardLinksOneEach(entries: seq<Declared>)
    requires PathsDistinct(entries)
    ensures OneEach(HardLinksOf(entries))
    decreases |entries|
  {
    if entries != [] {
      var init, last := entries[..|entries|-1], entries[|entries|-1];
      HardLinksOneEach(init);
      var links := HardLinksOf(init);
      forall j | 0 <= j < |links|
        ensures links[j].output != last.path
      {
        HardLinksListed(init, links[j]);
      }
    }
  }

  lemma SeenIsWalked(h: Heap, root: Ino, p: Route)
    ensures See(h, root, p) == Absent <==> Walk(h, root, p) == None
  {
    WalkInHeap(h, root, p);
  }

  /** Where no directory has taken an output's place, every pending link is still to be made from
      scratch. */
  lemma PendingVacant(h: Heap, root: Ino, entries: seq<Declared>, inos: map<Route, Ino>, k: nat)
    requires Closed(h) && IsDir(h, root) && Partial(h, root, entries, inos) && PathsDistinct(entries)
    requires k < |entries| && entries[k].content.HardLinkEntry? && entries[k].content.source != []
    requires entries[k].path != []
    requires See(h, root, entries[k].path) != SeenDir
    ensures Vacant(h, root, PendingHardLink(entries[k].path, entries[k].content.source))
    ensures See(h, root, entries[k].path) == Absent
  {
    StillAbsent(h, root, entries, inos, k);
    var path := entries[k].path;
    assert IsProperPrefix(ParentOf(path), path);
    assert Walk(h, root, []) == Some(root);
    assert See(h, root, ParentOf(path)) == SeenDir;
    MissingHere(h, root, path);
  }

  lemma StillAbsent(h: Heap, root: Ino, entries: seq<Declared>, inos: map<Route, Ino>, k: nat)
    requires Partial(h, root, entries, inos) && PathsDistinct(entries)
    requires k < |entries| && entries[k].content.HardLinkEntry? && entries[k].path != []
    requires See(h, root, entries[k].path) != SeenDir
    ensures See(h, root, entries[k].path) == Absent
  {
    forall j | 0 <= j < |entries| && j != k
      ensures entries[j].path != entries[k].path
    {
    }
    assert See(h, root, entries[k].path) != Absent ==> Accounted(entries, entries[k].path);
  }

  lemma MissingHere(h: Heap, root: Ino, path: Route)
    requires Closed(h) && IsDir(h, root) && path != []
    requires See(h, root, ParentOf(path)) == SeenDir && See(h, root, path) == Absent
    ensures Probe(h, root, ParentOf(path)).Found? && Resolve(h, root, path).TMissing?
  {
    assert path == ParentOf(path) + [Last(path)];
    ProbeWalk(h, root, ParentOf(path));
    SeenIsWalked(h, root, path);
    WalkSnoc(h, root, ParentOf(path), Last(path));
  }

  ghost predicate Sound(entries: seq<Declared>) {
    forall k :: 0 <= k < |entries| ==>
      entries[k].path != [] && Contained(entries[k]) && (entries[k].content.HardLinkEntry? ==> entries[k].content.source != [])
  }

  lemma PendingSeparate(h: Heap, root: Ino, entries: seq<Declared>, inos: map<Route, Ino>)
    requires Closed(h) && IsDir(h, root) && Partial(h, root, entries, inos) && PathsDistinct(entries) && Sound(entries)
    requires forall l :: l in HardLinksOf(entries) ==> !Obstructed(h, root, l)
    ensures Separate(h, root, HardLinksOf(entries))
  {
    var links := HardLinksOf(entries);
    HardLinksOneEach(entries);
    forall j | 0 <= j < |links|
      ensures Vacant(h, root, links[j])
    {
      HardLinksListed(entries, links[j]);
      var k :| 0 <= k < |entries| && entries[k] == Declared(links[j].output, HardLinkEntry(links[j].target));
      assert links[j] in links;
      PendingVacant(h, root, entries, inos, k);
    }
  }

  /** Making the links gives each output the view of its target. */
  lemma LinkedJoins(h0: Heap, root: Ino, links: set<PendingHardLink>, l: PendingHardLink)
    requires Closed(h0) && IsDir(h0, root) && Distinct(links) && l in links
    requires Resolve(h0, root, l.output).TMissing? && EndsSomewhere(h0, root, links, l.target)
    ensures Linked(h0, root, links, l.output).SeenFile?
    ensures Linked(h0, root, links, l.output) == Linked(h0, root, links, l.target)
  {
    var i :| LeadsTo(h0, root, links, l.target, i);
    var n: nat :| Leads(h0, root, links, l.target, i, n);
    assert Leads(h0, root, links, l.output, i, n + 1);
    assert LeadsTo(h0, root, links, l.output, i);
    var e := ChainEnd(h0, root, links, l.output);
    var m: nat :| Leads(h0, root, links, l.output, e, m);
    ChainsAgree(h0, root, links, l.output, i, n + 1, e, m);
    LeadsFile(h0, root, links, l.output, i);
    if exists t :: t in links && t.output == l.target {
      var e' := ChainEnd(h0, root, links, l.target);
      var m': nat :| Leads(h0, root, links, l.target, e', m');
      ChainsAgree(h0, root, links, l.target, i, n, e', m');
    } else {
      ResolveSees(h0, root, l.target);
      assert Resolve(h0, root, l.target) == TFile(i);
    }
  }

  lemma FinishComplete(h0: Heap, h: Heap, root: Ino, entries: seq<Declared>, inos: map<Route, Ino>)
    requires Closed(h0) && IsDir(h0, root) && Evolves(h0, h, root)
    requires Partial(h0, root, entries, inos) && PathsDistinct(entries) && Sound(entries)
    requires Separate(h0, root, HardLinksOf(entries))
    requires forall l :: l in Links(HardLinksOf(entries)) ==>
               l.target != [] && EndsSomewhere(h0, root, Links(HardLinksOf(entries)), l.target)
    requires forall p :: See(h, root, p) == Linked(h0, root, Links(HardLinksOf(entries)), p)
    ensures Complete(h, root, entries, inos)
  {
    var links := Links(HardLinksOf(entries));
    forall k | 0 <= k < |entries|
      ensures ShownAt(h, root, entries[k], inos)
      ensures entries[k].content.HardLinkEntry? ==> Joined(h, root, entries[k])
    {
      FinishEntry(h0, h, root, entries, inos, k);
    }
    forall k, p | 0 <= k < |entries| && p != [] && IsProperPrefix(p, entries[k].path)
      ensures See(h, root, p) == SeenDir
    {
      SameUnlessOutput(h0, h, root, entries, p);
    }
    forall p | See(h, root, p) != Absent
      ensures p == [] || exists k :: 0 <= k < |entries| && IsPrefix(p, entries[k].path)
    {
      FinishNothingElse(h0, h, root, entries, inos, p);
    }
  }

  lemma IsLink(entries: seq<Declared>, l: PendingHardLink) returns (k: nat)
    requires l in Links(HardLinksOf(entries))
    ensures k < |entries| && entries[k] == Declared(l.output, HardLinkEntry(l.target)) && l in HardLinksOf(entries)
  {
    HardLinksListed(entries, l);
    k :| 0 <= k < |entries| && entries[k] == Declared(l.output, HardLinkEntry(l.target));
  }

  /** A path that shows something keeps showing it. */
  lemma SameUnlessOutput(h0: Heap, h: Heap, root: Ino, entries: seq<Declared>, p: Route)
    requires Closed(h0) && IsDir(h0, root)
    requires Separate(h0, root, HardLinksOf(entries)) && See(h0, root, p) != Absent
    requires See(h, root, p) == Linked(h0, root, Links(HardLinksOf(entries)), p)
    ensures See(h, root, p) == See(h0, root, p)
  {
    if exists l :: l in Links(HardLinksOf(entries)) && l.output == p {
      var l :| l in Links(HardLinksOf(entries)) && l.output == p;
      assert Vacant(h0, root, l);
      ResolveSees(h0, root, p);
    }
  }

  lemma FinishEntry(h0: Heap, h: Heap, root: Ino, entries: seq<Declared>, inos: map<Route, Ino>, k: nat)
    requires Closed(h0) && IsDir(h0, root) && k < |entries|
    requires Partial(h0, root, entries, inos) && Separate(h0, root, HardLinksOf(entries))
    requires forall l :: l in Links(HardLinksOf(entries)) ==>
               l.target != [] && EndsSomewhere(h0, root, Links(HardLinksOf(entries)), l.target)
    requires forall p :: See(h, root, p) == Linked(h0, root, Links(HardLinksOf(entries)), p)
    ensures ShownAt(h, root, entries[k], inos)
    ensures entries[k].content.HardLinkEntry? ==> Joined(h, root, entries[k])
  {
    var e := entries[k];
    assert ShownAt(h0, root, e, inos);
    if e.content.HardLinkEntry? {
      var l := PendingHardLink(e.path, e.content.source);
      HardLinksListed(entries, l);
      assert l in Links(HardLinksOf(entries)) && Vacant(h0, root, l);
      LinkedJoins(h0, root, Links(HardLinksOf(entries)), l);
    } else {
      SameUnlessOutput(h0, h, root, entries, e.path);
    }
  }

  lemma FinishNothingElse(h0: Heap, h: Heap, root: Ino, entries: seq<Declared>, inos: map<Route, Ino>, p: Route)
    requires NothingElse(h0, root, entries)
    requires See(h, root, p) == Linked(h0, root, Links(HardLinksOf(entries)), p) && See(h, root, p) != Absent
    ensures p == [] || exists k :: 0 <= k < |entries| && IsPrefix(p, entries[k].path)
  {
    if exists l :: l in Links(HardLinksOf(entries)) && l.output == p {
      var l :| l in Links(HardLinksOf(entries)) && l.output == p;
      var k := IsLink(entries, l);
      assert IsPrefix(p, entries[k].path);
    } else if p != [] {
      assert Accounted(entries, p);
      var k :| 0 <= k < |entries| && Explains(entries[k], p);
      assert IsPrefix(p, entries[k].path);
    }
  }
}
