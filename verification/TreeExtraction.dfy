/** Extracting a whole archive: the tar walk with its budgets
    (crates/omne-archive-primitives/src/archive_tree.rs) drives the installer
    (crates/omne-artifact-install-primitives/src/archive_tree.rs). */
module TreeExtraction {
  import opened Wrappers
  import opened Filesystem
  import opened Primitives
  import opened HeapUpdates
  import opened Disks
  import opened StagedNames
  import opened TreeView
  import opened ArchiveLeaves
  import opened ArchiveEntries
  import opened CaseCollision
  import opened HardLinks
  import opened DeclaredTrees
  import opened Extractability

  // ---------------------------------------------------------------- the archive and its budgets

  datatype Payload =
    | DirPayload
    | FilePayload(size: nat, content: Option<seq<Byte>>, mode: Option<nat>)
    | SymlinkPayload(target: Option<RawPath>)
    | HardLinkPayload(target: Option<RawPath>)
    | OtherPayload

  /** One archive entry as the decoder yields it; `None` stands for what it could not read. */
  datatype ArchiveEntry = Unreadable | ArchiveEntry(path: RawPath, payload: Payload)

  predicate ByteParts(path: RawPath) {
    forall k :: 0 <= k < |path.parts| && path.parts[k].Normal? ==> ByteName(path.parts[k].name)
  }

  /** What the decoder and `Path::components` guarantee. */
  predicate Decoded(e: ArchiveEntry) {
    e.ArchiveEntry? ==>
      && ByteParts(e.path)
      && match e.payload
         case FilePayload(size, _, _) => size <= U64_MAX
         case HardLinkPayload(Some(target)) => ByteParts(target)
         case _ => true
  }

  /** The same permissions for owner, group and others, and nothing more. */
  predicate SamePermissions(r: nat, mode: nat) {
    r < 0x200 && r % 8 == mode % 8 && r / 8 % 8 == mode / 8 % 8 && r / 64 == mode / 64 % 8
  }

  /** `sanitize_unix_mode`: `mode & 0o777`. */
  function PermissionBits(mode: nat): (r: nat)
    ensures r < 512
  {
    mode % 512
  }

  lemma PermissionBitsKeep(mode: nat)
    ensures SamePermissions(PermissionBits(mode), mode)
  {
    var q, r := mode / 512, mode % 512;
    assert mode == 8 * (64 * q + r / 8) + r % 8;
    assert mode / 8 == 64 * q + r / 8;
    assert mode / 8 == 8 * (8 * q + r / 8 / 8) + r / 8 % 8;
    assert mode == 64 * (8 * q + r / 64) + r % 64;
    assert mode / 64 == 8 * q + r / 64;
  }

  function Declares(e: ArchiveEntry): Option<Declared> {
    if e.Unreadable? || Sanitize(e.path) == None then None
    else
      var path := Sanitize(e.path).value;
      match e.payload
      case DirPayload => Some(Declared(path, DirEntry))
      case FilePayload(_, Some(bytes), Some(mode)) => Some(Declared(path, FileEntry(bytes, PermissionBits(mode))))
      case SymlinkPayload(Some(target)) => Some(Declared(path, LinkEntry(target)))
      case HardLinkPayload(Some(target)) =>
        if Sanitize(target).Some? then Some(Declared(path, HardLinkEntry(Sanitize(target).value))) else None
      case _ => None
  }

  /** `entries` is what the archive declares, entry by entry. */
  predicate Declaration(archive: seq<ArchiveEntry>, entries: seq<Declared>) {
    |entries| == |archive| && forall k :: 0 <= k < |archive| ==> Declares(archive[k]) == Some(entries[k])
  }

  /** Every entry can be read and declares something. */
  predicate AllDeclare(archive: seq<ArchiveEntry>) {
    forall k :: 0 <= k < |archive| ==> Declares(archive[k]).Some?
  }

  function Entries(archive: seq<ArchiveEntry>): seq<Declared>
    requires AllDeclare(archive)
  {
    seq(|archive|, k requires 0 <= k < |archive| => Declares(archive[k]).value)
  }

  /** What the archive says about the entry is what there is to be seen. */
  ghost predicate AsArchived(h: Heap, root: Ino, e: ArchiveEntry) {
    e.ArchiveEntry? && Sanitize(e.path).Some? &&
    var seen := See(h, root, Sanitize(e.path).value);
    match e.payload
    case DirPayload => seen == SeenDir
    case FilePayload(_, Some(bytes), Some(mode)) => seen.SeenFile? && seen.bytes == bytes && SamePermissions(seen.mode, mode)
    case SymlinkPayload(Some(target)) => seen == SeenLink(target)
    case HardLinkPayload(Some(target)) =>
      Sanitize(target).Some? && seen.SeenFile? && seen == See(h, root, Sanitize(target).value)
    case _ => false
  }

  ghost predicate AllAsArchived(h: Heap, root: Ino, archive: seq<ArchiveEntry>) {
    forall k :: 0 <= k < |archive| ==> AsArchived(h, root, archive[k])
  }

  lemma CompleteIsAsArchived(h: Heap, root: Ino, archive: seq<ArchiveEntry>, entries: seq<Declared>, inos: map<Route, Ino>)
    requires Declaration(archive, entries) && Complete(h, root, entries, inos)
    ensures AllAsArchived(h, root, archive)
  {
    forall k | 0 <= k < |archive|
      ensures AsArchived(h, root, archive[k])
    {
      assert Declares(archive[k]) == Some(entries[k]) && ShownAt(h, root, entries[k], inos);
      if archive[k].payload.FilePayload? {
        PermissionBitsKeep(archive[k].payload.mode.value);
      }
    }
  }

  function SizeOf(e: ArchiveEntry): nat {
    if e.ArchiveEntry? && e.payload.FilePayload? then e.payload.size else 0
  }

  function TotalSize(archive: seq<ArchiveEntry>, k: nat): nat
    requires k <= |archive|
  {
    if k == 0 then 0 else TotalSize(archive, k - 1) + SizeOf(archive[k - 1])
  }

  datatype Limits = Limits(maxBytes: nat, maxEntries: nat)

  class ArchiveTreeBudget {
    const limits: Limits
    var extractedBytes: nat
    var entries: nat

    predicate Valid()
      reads this
    {
      limits.maxBytes <= U64_MAX && limits.maxEntries <= U64_MAX && extractedBytes <= U64_MAX && entries <= U64_MAX
    }

    constructor (limits: Limits)
      requires limits.maxBytes <= U64_MAX && limits.maxEntries <= U64_MAX
      ensures Valid() && this.limits == limits && extractedBytes == 0 && entries == 0
    {
      this.limits, extractedBytes, entries := limits, 0, 0;
    }

    /** `record_entry`: the count saturates at the largest 64-bit number. */
    method RecordEntry() returns (ok: bool)
      requires Valid()
      modifies this`entries
      ensures Valid() && entries == Saturate(old(entries) + 1)
      ensures ok <==> entries <= limits.maxEntries
    {
      entries := Saturate(entries + 1);
      ok := entries <= limits.maxEntries;
    }

    /** `reserve_bytes`: the sum is checked for overflow. */
    method ReserveBytes(bytes: nat) returns (ok: bool)
      requires Valid() && bytes <= U64_MAX
      modifies this`extractedBytes
      ensures Valid() && (ok <==> old(extractedBytes) + bytes <= limits.maxBytes)
      ensures ok ==> extractedBytes == old(extractedBytes) + bytes
    {
      if extractedBytes + bytes > U64_MAX {
        return false;
      }
      extractedBytes := extractedBytes + bytes;
      ok := extractedBytes <= limits.maxBytes;
    }
  }

  lemma {:induction false} NormalsAreNames(parts: seq<Part>)
    requires Normals(parts).Some?
    requires forall k :: 0 <= k < |parts| && parts[k].Normal? ==> ByteName(parts[k].name)
    ensures forall k :: 0 <= k < |Normals(parts).value| ==> ByteName(Normals(parts).value[k])
    decreases |parts|
  {
    if parts != [] {
      NormalsAreNames(parts[..|parts|-1]);
    }
  }

  // ---------------------------------------------------------------- the installer

  class ArchiveTreeInstaller {
    const disk: Disk
    const names: NameSource
    const root: Ino
    const tracker: Option<CaseCollisionTracker>
    var pending: seq<PendingHardLink>

    ghost function Footprint(): set<object> {
      {this, disk, names} + if tracker.Some? then {tracker.value} else {}
    }

    ghost predicate Valid()
      reads Footprint()
    {
      Rooted(disk, root) && Trackable(tracker) && LinksReady(pending)
    }

    /** Nothing runs backwards, whatever happens. */
    twostate predicate Onward()
      reads Footprint()
    {
      && disk.clock >= old(disk.clock) && names.sequence >= old(names.sequence)
      && Evolves(old(disk.heap), disk.heap, root)
    }

    twostate predicate Recorded(path: Route)
      reads Footprint()
    {
      tracker.Some? ==> RecordedBy(tracker) == old(RecordedBy(tracker)) + Prefixes([path])
    }

    /** The path folds together with none that has been recorded. */
    ghost predicate Recordable(path: Route)
      reads Footprint()
    {
      tracker.Some? ==> FoldInjective(RecordedBy(tracker) + Prefixes([path]))
    }

    /** Nothing stands in the way of the entry, no call fails, and the names to be generated are free. */
    ghost predicate Inviting(e: Declared)
      reads Footprint()
    {
      Recordable(e.path) && Unhindered(disk, names, e.path) && Enterable(disk.heap, root, e)
    }

    constructor (disk: Disk, names: NameSource, root: Ino, caseSensitive: bool)
      requires Rooted(disk, root)
      ensures Valid() && this.disk == disk && this.names == names && this.root == root && pending == []
      ensures tracker.Some? <==> !caseSensitive
      ensures tracker.Some? ==> fresh(tracker.value) && tracker.value.recorded == {}
    {
      var fresh' := new CaseCollisionTracker();
      this.disk, this.names, this.root, pending := disk, names, root, [];
      tracker := if caseSensitive then None else Some(fresh');
    }

    /** `record_case_collision`. */
    method Record(path: Route) returns (ok: bool)
      requires Valid() && BytePath(path)
      modifies if tracker.Some? then {tracker.value} else {}
      ensures Valid() && (ok ==> Recorded(path))
      ensures ok <==> tracker.None? || FoldInjective(old(RecordedBy(tracker)) + Prefixes([path]))
    {
      ok := true;
      if tracker.Some? {
        ok := tracker.value.RecordPathChain(path);
      }
    }

    method VisitDirectoryEntry(path: Route) returns (ok: bool)
      requires Valid() && BytePath(path)
      modifies Footprint()
      ensures Valid() && Onward() && pending == old(pending)
      ensures ok ==> Recorded(path) && Visited(old(disk.heap), disk.heap, root, Declared(path, DirEntry))
      ensures ok ==> AddsOnly(old(disk.heap), disk.heap, path)
      ensures old(Inviting(Declared(path, DirEntry))) ==> ok
    {
      EvolvesRefl(disk.heap, root);
      ok := Record(path);
      if ok {
        ok := VisitDirectory(disk, root, path);
      }
    }

    method VisitRegularFile(path: Route, content: Option<seq<Byte>>, mode: Option<nat>) returns (ok: bool)
      requires Valid() && BytePath(path)
      modifies Footprint()
      ensures Valid() && Onward() && pending == old(pending)
      ensures ok ==> Recorded(path) && content.Some?
                     && Visited(old(disk.heap), disk.heap, root, Declared(path, FileEntry(content.value, FileMode(mode))))
      ensures ok ==> AddsOnly(old(disk.heap), disk.heap, path)
      ensures content.Some? && old(Inviting(Declared(path, FileEntry(content.value, FileMode(mode))))) ==> ok
    {
      EvolvesRefl(disk.heap, root);
      ok := Record(path);
      if ok {
        ok := WriteRegularFile(disk, names, root, path, content, mode);
      }
    }

    method VisitSymlink(path: Route, target: RawPath) returns (ok: bool)
      requires Valid() && BytePath(path)
      modifies Footprint()
      ensures Valid() && Onward() && pending == old(pending)
      ensures ok ==> Recorded(path) && Visited(old(disk.heap), disk.heap, root, Declared(path, LinkEntry(target)))
      ensures ok ==> AddsOnly(old(disk.heap), disk.heap, path)
      ensures old(Inviting(Declared(path, LinkEntry(target)))) ==> ok
    {
      EvolvesRefl(disk.heap, root);
      ok := Record(path);
      if ok {
        ok := CreateSymlink(disk, names, root, path, target);
      }
    }

    method VisitHardLink(path: Route, target: RawPath) returns (ok: bool)
      requires Valid() && BytePath(path) && ByteParts(target)
      modifies Footprint()
      ensures Valid() && Onward()
      ensures ok ==> Recorded(path) && Sanitize(target).Some?
                     && Visited(old(disk.heap), disk.heap, root, Declared(path, HardLinkEntry(Sanitize(target).value)))
                     && pending == old(pending) + [PendingHardLink(path, Sanitize(target).value)]
      ensures ok ==> AddsOnly(old(disk.heap), disk.heap, path)
      ensures Sanitize(target).Some? && old(Inviting(Declared(path, HardLinkEntry(Sanitize(target).value)))) ==> ok
    {
      EvolvesRefl(disk.heap, root);
      ok := Record(path);
      if !ok {
        return;
      }
      var prepared := PrepareHardLink(disk, root, path, target);
      if prepared.Err? {
        return false;
      }
      NormalsAreNames(target.parts);
      assert LinkReady(prepared.value);
      pending := pending + [prepared.value];
    }

    method Finish() returns (ok: bool)
      requires Valid()
      modifies Footprint()
      ensures Valid() && Onward() && pending == []
      ensures ok ==> forall l :: l in old(pending) ==> !Obstructed(old(disk.heap), root, l)
      ensures ok && Separate(old(disk.heap), root, old(pending)) ==>
                && Solvable(old(disk.heap), root, old(RecordedBy(tracker)), Links(old(pending)))
                && forall p :: See(disk.heap, root, p) == Linked(old(disk.heap), root, Links(old(pending)), p)
      ensures RecordedBy(tracker) == old(RecordedBy(tracker))
      ensures Separate(old(disk.heap), root, old(pending)) && old(Calm(disk, names, Links(pending))) ==>
                (ok <==> Solvable(old(disk.heap), root, old(RecordedBy(tracker)), Links(old(pending))))
    {
      var links := pending;
      pending := [];
      ok := ResolvePending(disk, names, root, tracker, links);
    }
  }

  // ---------------------------------------------------------------- the walk

  /** The body of the loop in `walk_tar_tree`: the path, then the budgets, then the visit. */
  method WalkEntry(installer: ArchiveTreeInstaller, budget: ArchiveTreeBudget, e: ArchiveEntry) returns (ok: bool)
    requires installer.Valid() && budget.Valid() && Decoded(e)
    modifies installer.Footprint(), budget
    ensures installer.Valid() && budget.Valid() && installer.Onward()
    ensures ok ==> Charged(e, old(budget.entries), old(budget.extractedBytes), budget.entries, budget.extractedBytes, budget.limits)
    ensures ok ==> Declares(e).Some?
                   && Visited(old(installer.disk.heap), installer.disk.heap, installer.root, Declares(e).value)
                   && installer.Recorded(Declares(e).value.path)
                   && installer.pending == old(installer.pending) + HardLinksOf([Declares(e).value])
                   && AddsOnly(old(installer.disk.heap), installer.disk.heap, Declares(e).value.path)
    ensures Declares(e).Some? && Affordable(e, old(budget.entries), old(budget.extractedBytes), budget.limits) ==>
              old(installer.Inviting(Declares(e).value)) ==> ok
  {
    EvolvesRefl(installer.disk.heap, installer.root);
    if e.Unreadable? {
      return false;
    }
    var sanitized := SanitizePath(e.path);
    if sanitized == None {
      return false;
    }
    NormalsAreNames(e.path.parts);
    ok := ChargeEntry(budget, e);
    if ok {
      ok := VisitEntry(installer, e, sanitized.value);
    }
  }

  method ChargeEntry(budget: ArchiveTreeBudget, e: ArchiveEntry) returns (ok: bool)
    requires budget.Valid() && Decoded(e) && e.ArchiveEntry?
    modifies budget
    ensures budget.Valid()
    ensures ok ==> Charged(e, old(budget.entries), old(budget.extractedBytes), budget.entries, budget.extractedBytes, budget.limits)
    ensures Affordable(e, old(budget.entries), old(budget.extractedBytes), budget.limits) ==> ok
  {
    ok := budget.RecordEntry();
    if ok && e.payload.FilePayload? {
      ok := budget.ReserveBytes(e.payload.size);
    }
  }

  method VisitEntry(installer: ArchiveTreeInstaller, e: ArchiveEntry, path: Route) returns (ok: bool)
    requires installer.Valid() && Decoded(e) && e.ArchiveEntry? && Sanitize(e.path) == Some(path) && BytePath(path)
    modifies installer.Footprint()
    ensures installer.Valid() && installer.Onward()
    ensures ok ==> Declares(e).Some?
                   && Visited(old(installer.disk.heap), installer.disk.heap, installer.root, Declares(e).value)
                   && installer.Recorded(Declares(e).value.path)
                   && installer.pending == old(installer.pending) + HardLinksOf([Declares(e).value])
                   && AddsOnly(old(installer.disk.heap), installer.disk.heap, Declares(e).value.path)
    ensures Declares(e).Some? && old(installer.Inviting(Declares(e).value)) ==> ok
  {
    EvolvesRefl(installer.disk.heap, installer.root);
    match e.payload {
      case DirPayload =>
        ok := installer.VisitDirectoryEntry(path);
      case FilePayload(_, content, mode) =>
        if mode == None {
          return false;
        }
        ok := installer.VisitRegularFile(path, content, Some(PermissionBits(mode.value)));
      case SymlinkPayload(target) =>
        if target == None {
          return false;
        }
        ok := installer.VisitSymlink(path, target.value);
      case HardLinkPayload(target) =>
        if target == None {
          return false;
        }
        ok := installer.VisitHardLink(path, target.value);
      case OtherPayload =>
        ok := false;
    }
  }

  predicate Affordable(e: ArchiveEntry, entries: nat, bytes: nat, limits: Limits) {
    Saturate(entries + 1) <= limits.maxEntries && bytes + SizeOf(e) <= limits.maxBytes
  }

  /** The entry was counted, and its size too, within the limits. */
  ghost predicate Charged(e: ArchiveEntry, entries0: nat, bytes0: nat, entries: nat, bytes: nat, limits: Limits) {
    && entries == Saturate(entries0 + 1) && entries <= limits.maxEntries
    && bytes == bytes0 + SizeOf(e) && (bytes <= limits.maxBytes || bytes == bytes0)
  }

  /** The paths that a tracker has recorded, if there is one. */
  ghost function Memory(tracker: Option<CaseCollisionTracker>): Option<set<Route>>
    reads if tracker.Some? then {tracker.value} else {}
  {
    if tracker.Some? then Some(tracker.value.recorded) else None
  }

  /** What holds between two entries of a run. */
  ghost predicate Walked(h0: Heap, h: Heap, root: Ino, entries: seq<Declared>, inos: map<Route, Ino>,
      pending: seq<PendingHardLink>, memory: Option<set<Route>>) {
    && Evolves(h0, h, root) && Sound(entries) && pending == HardLinksOf(entries)
    && (memory.Some? ==> memory.value == Prefixes(PathsOf(entries)))
    && (Fresh(h0, root) && PathsDistinct(entries) ==> Partial(h, root, entries, inos))
  }

  lemma WalkedStep(h0: Heap, h1: Heap, h: Heap, root: Ino, entries: seq<Declared>, inos: map<Route, Ino>,
      pending: seq<PendingHardLink>,
      memory: Option<set<Route>>, memory': Option<set<Route>>, e: Declared)
    returns (inos': map<Route, Ino>)
    requires memory'.Some? ==> memory.Some? && memory'.value == memory.value + Prefixes([e.path])
    requires Walked(h0, h1, root, entries, inos, pending, memory) && Evolves(h1, h, root)
    requires Visited(h1, h, root, e) && (e.content.HardLinkEntry? ==> e.content.source != [])
    ensures Walked(h0, h, root, entries + [e], inos', pending + HardLinksOf([e]), memory')
  {
    var all := entries + [e];
    EvolvesTrans(h0, h1, h, root);
    PathsSnoc(entries, e);
    assert all[..|all|-1] == entries && all[|all|-1] == e;
    assert [e][..0] == [];
    inos' := inos;
    if Fresh(h0, root) && PathsDistinct(all) {
      forall j, k | 0 <= j < k < |entries|
        ensures entries[j].path != entries[k].path
      {
        assert all[j] == entries[j] && all[k] == entries[k];
      }
      forall k | 0 <= k < |entries|
        ensures entries[k].path != e.path
      {
        assert all[k] == entries[k] && all[|entries|] == e;
      }
      inos' := VisitPartial(h1, h, root, entries, inos, e);
    }
  }

  lemma PathsSnoc(entries: seq<Declared>, e: Declared)
    ensures Prefixes(PathsOf(entries + [e])) == Prefixes(PathsOf(entries)) + Prefixes([e.path])
  {
    assert PathsOf(entries + [e]) == PathsOf(entries) + [e.path];
    PrefixesSnoc(PathsOf(entries), e.path);
  }

  lemma NothingYet(h: Heap, root: Ino)
    requires IsDir(h, root)
    ensures Walked(h, h, root, [], map[], [], None) && Walked(h, h, root, [], map[], [], Some({}))
  {
    EvolvesRefl(h, root);
  }

  /** Nothing in the archive stands in the way of extracting it. */
  ghost predicate Promising(archive: seq<ArchiveEntry>, limits: Limits, caseSensitive: bool, h0: Heap, root: Ino) {
    && AllDeclare(archive) && PathsDistinct(Entries(archive)) && Fresh(h0, root)
    && WithinLimits(archive, limits) && Extractable(Entries(archive), caseSensitive)
  }

  /** No call fails, and the names to be generated are neither in use nor in the archive. */
  ghost predicate Serene(disk: Disk, names: NameSource, archive: seq<ArchiveEntry>)
    reads disk, names
  {
    && disk.Quiet() && Unclaimed(disk.heap, names)
    && forall k :: 0 <= k < |archive| && Declares(archive[k]).Some? ==> NamesApart(names, Declares(archive[k]).value.path)
  }

  /** The first `k` entries of the archive have been visited. */
  ghost predicate UpTo(archive: seq<ArchiveEntry>, k: nat, entries: seq<Declared>, counted: nat, bytes: nat,
      limits: Limits) {
    && k <= |archive| && |entries| == k && (forall j :: 0 <= j < k ==> Declares(archive[j]) == Some(entries[j]))
    && bytes == TotalSize(archive, k) <= limits.maxBytes
    && counted == Saturate(k) && (k > 0 ==> counted <= limits.maxEntries)
  }

  lemma UpToStart(archive: seq<ArchiveEntry>, limits: Limits)
    ensures UpTo(archive, 0, [], 0, 0, limits)
  {
  }

  lemma UpToEnd(archive: seq<ArchiveEntry>, k: nat, entries: seq<Declared>, counted: nat, bytes: nat, limits: Limits)
    requires k >= |archive| && UpTo(archive, k, entries, counted, bytes, limits) && limits.maxEntries <= U64_MAX
    ensures WithinLimits(archive, limits) && Declaration(archive, entries)
  {
  }

  lemma UpToNext(archive: seq<ArchiveEntry>, k: nat, entries: seq<Declared>, counted: nat, bytes: nat, counted': nat,
      bytes': nat, limits: Limits)
    requires k < |archive| && UpTo(archive, k, entries, counted, bytes, limits)
    requires Charged(archive[k], counted, bytes, counted', bytes', limits) && Declares(archive[k]).Some?
    ensures UpTo(archive, k + 1, entries + [Declares(archive[k]).value], counted', bytes', limits)
  {
  }

  /** `walk_tar_tree`. */
  method WalkTarTree(installer: ArchiveTreeInstaller, archive: seq<ArchiveEntry>, limits: Limits, ghost good: bool)
    returns (ok: bool, ghost entries: seq<Declared>, ghost inos: map<Route, Ino>)
    requires installer.Valid() && installer.pending == [] && RecordedBy(installer.tracker) == {}
    requires limits.maxBytes <= U64_MAX && limits.maxEntries <= U64_MAX
    requires forall k :: 0 <= k < |archive| ==> Decoded(archive[k])
    requires good ==> Promising(archive, limits, installer.tracker.None?, installer.disk.heap, installer.root)
                      && Serene(installer.disk, installer.names, archive)
    modifies installer.Footprint()
    ensures installer.Valid() && Evolves(old(installer.disk.heap), installer.disk.heap, installer.root)
    ensures installer.disk.clock >= old(installer.disk.clock)
    ensures ok ==> WithinLimits(archive, limits) && Declaration(archive, entries)
    ensures ok ==>
              Walked(old(installer.disk.heap), installer.disk.heap, installer.root, entries, inos, installer.pending,
                     Memory(installer.tracker))
    ensures good ==> ok && Serene(installer.disk, installer.names, archive)
  {
    ghost var h0 := installer.disk.heap;
    var budget := new ArchiveTreeBudget(limits);
    entries, inos := [], map[];
    NothingYet(h0, installer.root);
    UpToStart(archive, limits);
    var k := 0;
    while k < |archive|
      invariant installer.Valid() && budget.Valid()
      invariant UpTo(archive, k, entries, budget.entries, budget.extractedBytes, limits)
      invariant Walked(h0, installer.disk.heap, installer.root, entries, inos, installer.pending, Memory(installer.tracker))
      invariant good ==> Serene(installer.disk, installer.names, archive)
      invariant installer.disk.clock >= old(installer.disk.clock)
    {
      ok, entries, inos := WalkNext(installer, budget, archive, k, limits, h0, entries, inos, good);
      if !ok {
        return;
      }
      k := k + 1;
    }
    UpToEnd(archive, k, entries, budget.entries, budget.extractedBytes, limits);
    ok := true;
  }

  /** One turn of the loop, with the record of what has been visited. */
  method WalkNext(installer: ArchiveTreeInstaller, budget: ArchiveTreeBudget, archive: seq<ArchiveEntry>, k: nat,
      ghost limits: Limits, ghost h0: Heap, ghost entries: seq<Declared>, ghost inos: map<Route, Ino>, ghost good: bool)
    returns (ok: bool, ghost entries': seq<Declared>, ghost inos': map<Route, Ino>)
    requires installer.Valid() && budget.Valid() && budget.limits == limits && k < |archive| && Decoded(archive[k])
    requires UpTo(archive, k, entries, budget.entries, budget.extractedBytes, limits)
    requires Walked(h0, installer.disk.heap, installer.root, entries, inos, installer.pending, Memory(installer.tracker))
    requires good ==> Promising(archive, limits, installer.tracker.None?, h0, installer.root)
                      && Serene(installer.disk, installer.names, archive)
    modifies installer.Footprint(), budget
    ensures installer.Valid() && budget.Valid() && Evolves(h0, installer.disk.heap, installer.root)
    ensures installer.disk.clock >= old(installer.disk.clock)
    ensures ok ==> UpTo(archive, k + 1, entries', budget.entries, budget.extractedBytes, limits)
    ensures ok ==> Walked(h0, installer.disk.heap, installer.root, entries', inos', installer.pending, Memory(installer.tracker))
    ensures good ==> ok && Serene(installer.disk, installer.names, archive)
  {
    ghost var h1, pending, memory, from := installer.disk.heap, installer.pending, Memory(installer.tracker), installer.names.sequence;
    entries', inos' := entries, inos;
    ghost var counted, bytes := budget.entries, budget.extractedBytes;
    if good {
      NextInviting(installer, archive, k, limits, h0, entries, inos, counted, bytes);
    }
    ok := WalkEntry(installer, budget, archive[k]);
    EvolvesTrans(h0, h1, installer.disk.heap, installer.root);
    if ok {
      ghost var d := Declares(archive[k]).value;
      UpToNext(archive, k, entries, counted, bytes, budget.entries, budget.extractedBytes, limits);
      inos' := WalkedStep(h0, h1, installer.disk.heap, installer.root, entries, inos, pending, memory, Memory(installer.tracker), d);
      entries' := entries + [d];
      if good {
        StillUnclaimed(h1, installer.disk.heap, installer.names, from, d.path, d.path);
      }
    }
  }

  /** The next entry of a promising archive is affordable, and nothing stands in its way. */
  lemma NextInviting(installer: ArchiveTreeInstaller, archive: seq<ArchiveEntry>, k: nat, limits: Limits, h0: Heap,
      entries: seq<Declared>, inos: map<Route, Ino>, counted: nat, bytes: nat)
    requires installer.Valid() && k < |archive| && UpTo(archive, k, entries, counted, bytes, limits)
    requires limits.maxEntries <= U64_MAX
    requires Walked(h0, installer.disk.heap, installer.root, entries, inos, installer.pending, Memory(installer.tracker))
    requires Promising(archive, limits, installer.tracker.None?, h0, installer.root)
    requires Serene(installer.disk, installer.names, archive)
    ensures Declares(archive[k]).Some? && installer.Inviting(Declares(archive[k]).value)
    ensures Affordable(archive[k], counted, bytes, limits)
  {
    NextPossible(h0, installer.disk.heap, installer.root, archive, k, limits, installer.tracker.None?, entries, inos,
                 counted, bytes);
    if installer.tracker.Some? {
      assert entries == Entries(archive)[..k];
      NextRecordable(Entries(archive), k);
    }
  }

  lemma NextPossible(h0: Heap, h: Heap, root: Ino, archive: seq<ArchiveEntry>, k: nat, limits: Limits,
      caseSensitive: bool, entries: seq<Declared>, inos: map<Route, Ino>, counted: nat, bytes: nat)
    requires k < |archive| && UpTo(archive, k, entries, counted, bytes, limits) && limits.maxEntries <= U64_MAX
    requires Promising(archive, limits, caseSensitive, h0, root) && Closed(h) && IsDir(h, root) && Sound(entries)
    requires Fresh(h0, root) && PathsDistinct(entries) ==> Partial(h, root, entries, inos)
    ensures Declares(archive[k]).Some? && Enterable(h, root, Declares(archive[k]).value)
    ensures Affordable(archive[k], counted, bytes, limits)
  {
    var all := Entries(archive);
    assert entries == all[..k];
    PrefixDistinct(all, k);
    NextEnterable(h, root, entries, inos, all);
    NextAffordable(archive, k, limits);
  }

  lemma NextAffordable(archive: seq<ArchiveEntry>, k: nat, limits: Limits)
    requires k < |archive| && WithinLimits(archive, limits) && limits.maxEntries <= U64_MAX
    ensures Affordable(archive[k], Saturate(k), TotalSize(archive, k), limits)
  {
    SizesGrow(archive, k + 1, |archive|);
  }

  lemma PrefixDistinct(all: seq<Declared>, k: nat)
    requires PathsDistinct(all) && k <= |all|
    ensures PathsDistinct(all[..k])
  {
  }

  lemma NextRecordable(all: seq<Declared>, k: nat)
    requires k < |all| && FoldInjective(Prefixes(PathsOf(all)))
    ensures FoldInjective(Prefixes(PathsOf(all[..k])) + Prefixes([all[k].path]))
  {
    assert all[..k + 1] == all[..k] + [all[k]];
    PathsSnoc(all[..k], all[k]);
    assert PathsOf(all)[..k + 1] == PathsOf(all[..k + 1]);
    PrefixesSplit(PathsOf(all), k + 1);
  }

  lemma {:induction false} SizesGrow(archive: seq<ArchiveEntry>, k: nat, n: nat)
    requires k <= n <= |archive|
    ensures TotalSize(archive, k) <= TotalSize(archive, n)
    decreases n
  {
    if k < n {
      SizesGrow(archive, k, n - 1);
    }
  }

  predicate WithinLimits(archive: seq<ArchiveEntry>, limits: Limits) {
    TotalSize(archive, |archive|) <= limits.maxBytes && (limits.maxEntries < U64_MAX ==> |archive| <= limits.maxEntries)
  }

  lemma DeclarationIsEntries(archive: seq<ArchiveEntry>, entries: seq<Declared>)
    requires Declaration(archive, entries)
    ensures AllDeclare(archive) && entries == Entries(archive)
  {
  }

  /** The paths that the archive's entries declare are pairwise distinct. */
  ghost predicate DeclaresDistinct(archive: seq<ArchiveEntry>) {
    AllDeclare(archive) ==> PathsDistinct(Entries(archive))
  }

  /** `extract_archive_tree_into_root`. However it ends, the tree has only evolved. A run that succeeds,
      on pairwise distinct paths and from an empty root, has made exactly the tree that the archive
      declares; and when no call fails it succeeds exactly on the archives that are within the limits,
      where every entry declares something, only directories have entries below them, links stay
      inside, hard links come from files, and no paths fold together where that matters. */
  method ExtractTree(disk: Disk, names: NameSource, root: Ino, caseSensitive: bool, archive: seq<ArchiveEntry>,
      limits: Limits)
    returns (ok: bool, ghost entries: seq<Declared>, ghost inos: map<Route, Ino>)
    requires Rooted(disk, root) && limits.maxBytes <= U64_MAX && limits.maxEntries <= U64_MAX
    requires forall k :: 0 <= k < |archive| ==> Decoded(archive[k])
    modifies disk, names
    ensures Rooted(disk, root) && Evolves(old(disk.heap), disk.heap, root) && disk.clock >= old(disk.clock)
    ensures ok ==> WithinLimits(archive, limits) && Declaration(archive, entries) && Sound(entries)
    ensures ok && !caseSensitive ==> FoldInjective(Prefixes(PathsOf(entries)))
    ensures ok && Fresh(old(disk.heap), root) && PathsDistinct(entries) ==>
              Complete(disk.heap, root, entries, inos) && AllAsArchived(disk.heap, root, archive)
    ensures old(Serene(disk, names, archive)) && Fresh(old(disk.heap), root) && DeclaresDistinct(archive) ==>
              (ok <==> AllDeclare(archive) && WithinLimits(archive, limits) && Extractable(Entries(archive), caseSensitive))
  {
    ghost var h0 := disk.heap;
    var installer := new ArchiveTreeInstaller(disk, names, root, caseSensitive);
    ghost var good := Serene(disk, names, archive) && Promising(archive, limits, caseSensitive, h0, root);
    ok, entries, inos := WalkTarTree(installer, archive, limits, good);
    if ok {
      DeclarationIsEntries(archive, entries);
      ok := FinishTree(installer, caseSensitive, entries, inos, h0, archive);
      if ok && Fresh(h0, root) && PathsDistinct(entries) {
        CompleteIsAsArchived(disk.heap, root, archive, entries, inos);
      }
    }
  }

  /** The pending hard links of a walk that went through. */
  method FinishTree(installer: ArchiveTreeInstaller, ghost caseSensitive: bool, ghost entries: seq<Declared>,
      ghost inos: map<Route, Ino>,
      ghost h0: Heap, ghost archive: seq<ArchiveEntry>)
    returns (ok: bool)
    requires installer.Valid() && (installer.tracker.None? <==> caseSensitive) && Declaration(archive, entries)
    requires Walked(h0, installer.disk.heap, installer.root, entries, inos, installer.pending, Memory(installer.tracker))
    modifies installer.Footprint()
    ensures installer.Valid() && Evolves(h0, installer.disk.heap, installer.root)
    ensures installer.disk.clock >= old(installer.disk.clock)
    ensures ok && !caseSensitive ==> FoldInjective(Prefixes(PathsOf(entries)))
    ensures ok && Fresh(h0, installer.root) && PathsDistinct(entries) ==>
              Complete(installer.disk.heap, installer.root, entries, inos) && Extractable(entries, caseSensitive)
    ensures old(Serene(installer.disk, installer.names, archive)) ==>
              Fresh(h0, installer.root) && PathsDistinct(entries) && Extractable(entries, caseSensitive) ==> ok
  {
    ghost var h1, root, recorded := installer.disk.heap, installer.root, RecordedBy(installer.tracker);
    ghost var distinct := Fresh(h0, root) && PathsDistinct(entries);
    if installer.tracker.Some? {
      installer.tracker.value.ValidIsInjective();
    }
    if distinct && NothingBelowLeaves(entries) {
      NoneObstructed(h1, root, entries, inos);
    }
    if distinct && forall l :: l in HardLinksOf(entries) ==> !Obstructed(h1, root, l) {
      ExtractableWhen(h1, root, entries, inos, recorded, caseSensitive);
    }
    if Serene(installer.disk, installer.names, archive) {
      LinksApart(installer.names, archive, entries);
    }
    ok := installer.Finish();
    EvolvesTrans(h0, h1, installer.disk.heap, root);
    if ok && distinct {
      FinishComplete(h1, installer.disk.heap, root, entries, inos);
    }
  }

  lemma LinksApart(names: NameSource, archive: seq<ArchiveEntry>, entries: seq<Declared>)
    requires Declaration(archive, entries)
    requires forall k :: 0 <= k < |archive| && Declares(archive[k]).Some? ==>
               NamesApart(names, Declares(archive[k]).value.path)
    ensures Apart(names, Links(HardLinksOf(entries)))
  {
    forall l, purpose, k: nat | l in Links(HardLinksOf(entries)) && l.output != [] && k >= names.sequence
      ensures LeafAt(names, purpose, k) != Last(l.output)
    {
      var j := IsLink(entries, l);
      assert Declares(archive[j]) == Some(entries[j]);
      assert NamesApart(names, l.output) && Last(l.output) in l.output;
    }
  }
}
