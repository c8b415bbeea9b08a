/** Writers that stage and commit files to one destination, interleaved one system call at a time
    (crates/omne-fs-primitives/src/atomic_write.rs).

    An action names the writer that moves and how its call turns out, so a sequence of actions is an
    interleaving together with a failure schedule. */
module ConcurrentWriters {
  import opened Wrappers
  import opened Filesystem
  import opened HeapUpdates
  import opened Disks
  import opened StagedNames
  import opened AtomicFile

  datatype Phase =
    | Idle
    | Writing
    | Sealed
    | Committed
    | Failed
    | Dropped

  /** The use of a process's counter for one name. */
  datatype Ticket = Ticket(process: nat, number: nat)

  /** `staged` is the ticket of the writer's name and the inode it made; `written` is everything its
      successful writes were given. */
  datatype Writer = Writer(
    process: nat,
    phase: Phase,
    options: WriteOptions,
    staged: Option<(Ticket, Ino)>,
    written: seq<Byte>,
    published: bool)

  /** Every process has a counter of its own, which the writers in it share. */
  datatype World = World(heap: Heap, next: Ino, counters: map<nat, nat>, writers: seq<Writer>)

  function Counter(s: World, process: nat): nat {
    if process in s.counters then s.counters[process] else 0
  }

  /** Where the writers meet, and what their processes contribute to generated names: the process id,
      and the reading of the clock at each use of the counter. */
  datatype Setting = Setting(parent: Ino, dest: Name, pid: nat -> nat, nanos: Ticket -> nat)

  /** No two processes generate the same name: where they have the same id, one after the other, the
      clock has moved on. */
  ghost predicate TellsProcessesApart(e: Setting) {
    forall p, q, k: nat :: p != q ==> e.pid(p) != e.pid(q) || e.nanos(Ticket(p, k)) != e.nanos(Ticket(q, k))
  }

  datatype Action =
    | Stage(w: nat, ok: bool)
    | Write(w: nat, data: seq<Byte>, ok: bool)
    | Seal(w: nat, ok: bool)
    | Publish(w: nat, ok: bool)
    | Drop(w: nat, ok: bool)

  function LeafName(e: Setting, k: Ticket): Name {
    EntryName(StagedPrefix(e.dest), e.pid(k.process), e.nanos(k), k.number, ".tmp")
  }

  /** The file a writer means to install. */
  function Final(x: Writer): Node {
    WithMode(File(x.written, DEFAULT_FILE_MODE), x.options.unixMode)
  }

  function Put(s: World, w: nat, x: Writer): World
    requires w < |s.writers|
  {
    s.(writers := s.writers[w := x])
  }

  predicate CanMove(e: Setting, s: World, w: nat) {
    && w < |s.writers| && IsDir(s.heap, e.parent)
    && (s.writers[w].staged.Some? ==>
          s.writers[w].staged.value.1 in s.heap && s.heap[s.writers[w].staged.value.1].File?)
  }

  /** One step; an action whose writer is not in the phase it needs does nothing. */
  function Step(e: Setting, s: World, a: Action): World {
    if !CanMove(e, s, a.w) then s
    else
      var x := s.writers[a.w];
      match a
      case Stage(_, ok) => if x.phase.Idle? then StageStep(e, s, a.w, ok) else s
      case Write(_, data, ok) =>
        if x.phase.Writing? && x.staged.Some? then WriteStep(e, s, a.w, data, ok) else s
      case Seal(_, ok) => if x.phase.Writing? && x.staged.Some? then SealStep(e, s, a.w, ok) else s
      case Publish(_, ok) => if x.phase.Sealed? && x.staged.Some? then PublishStep(e, s, a.w, ok) else s
      case Drop(_, ok) => DropStep(e, s, a.w, ok)
  }

  function NextTicket(s: World, w: nat): Ticket
    requires w < |s.writers|
  {
    Ticket(s.writers[w].process, Counter(s, s.writers[w].process))
  }

  /** `open(O_CREAT | O_EXCL)` under the next generated name; a taken name is tried again. */
  function StageStep(e: Setting, s: World, w: nat, ok: bool): World
    requires CanMove(e, s, w)
  {
    var x := s.writers[w];
    var ticket := NextTicket(s, w);
    var leaf := LeafName(e, ticket);
    var t := s.(counters := s.counters[x.process := ticket.number + 1]);
    if !ok then Put(t, w, x.(phase := Dropped))
    else if Lookup(s.heap, e.parent, leaf).Some? || s.next in s.heap then t
    else
      var h := Attach(s.heap[s.next := File([], DEFAULT_FILE_MODE)], e.parent, leaf, s.next);
      Put(t.(heap := h, next := s.next + 1), w,
          x.(phase := Writing, staged := Some((ticket, s.next)), written := []))
  }

  /** A write that fails may have written the data it names before failing. */
  function WriteStep(e: Setting, s: World, w: nat, data: seq<Byte>, ok: bool): World
    requires CanMove(e, s, w) && s.writers[w].staged.Some?
  {
    var x := s.writers[w];
    var i := x.staged.value.1;
    var t := s.(heap := s.heap[i := s.heap[i].(bytes := s.heap[i].bytes + data)]);
    Put(t, w, if ok then x.(written := x.written + data) else x.(phase := Failed))
  }

  /** Flush, permissions, sync and validation; from here on the handle is gone. */
  function SealStep(e: Setting, s: World, w: nat, ok: bool): World
    requires CanMove(e, s, w) && s.writers[w].staged.Some?
  {
    var x := s.writers[w];
    var i := x.staged.value.1;
    var node := WithMode(s.heap[i], x.options.unixMode);
    Put(s.(heap := s.heap[i := node]), w,
        x.(phase := if ok && Acceptable(node, x.options) then Sealed else Failed))
  }

  function PublishStep(e: Setting, s: World, w: nat, ok: bool): World
    requires CanMove(e, s, w) && s.writers[w].staged.Some?
  {
    var x := s.writers[w];
    var leaf := LeafName(e, x.staged.value.0);
    var renamed := if x.options.overwriteExisting then Move(s.heap, e.parent, leaf, e.parent, e.dest)
                   else MoveNoReplace(s.heap, e.parent, leaf, e.parent, e.dest);
    if ok && renamed.Ok? then Put(s.(heap := renamed.value), w, x.(phase := Committed, published := true))
    else Put(s, w, x.(phase := Failed))
  }

  /** A writer may be dropped at any time; `remove_file` goes by the staged name. */
  function DropStep(e: Setting, s: World, w: nat, ok: bool): World
    requires CanMove(e, s, w)
  {
    var x := s.writers[w];
    var t := Put(s, w, x.(phase := Dropped));
    if x.staged == None || x.phase.Dropped? then t
    else
      var leaf := LeafName(e, x.staged.value.0);
      if ok && Lookup(s.heap, e.parent, leaf).Some? && !IsDir(s.heap, Lookup(s.heap, e.parent, leaf).value)
      then t.(heap := Detach(s.heap, e.parent, leaf))
      else t
  }

  function Run(e: Setting, s: World, actions: seq<Action>): World
    decreases |actions|
  {
    if actions == [] then s else Step(e, Run(e, s, actions[..|actions|-1]), actions[|actions|-1])
  }

  // ---------------------------------------------------------------- one writer undisturbed

  /** The destination lets a file be published. */
  predicate Open(h: Heap, e: Setting, options: WriteOptions) {
    if options.overwriteExisting then DestReplaceable(h, e.parent, e.dest) else Lookup(h, e.parent, e.dest) == None
  }

  lemma RunFour(e: Setting, s: World, a: Action, b: Action, c: Action, d: Action)
    ensures Run(e, s, [a, b, c, d]) == Step(e, Step(e, Step(e, Step(e, s, a), b), c), d)
  {
    assert [a, b, c, d][..3] == [a, b, c] && [a, b, c][..2] == [a, b] && [a, b][..1] == [a] && [a][..0] == [];
    assert Run(e, s, [a]) == Step(e, s, a);
    assert Run(e, s, [a, b]) == Step(e, Step(e, s, a), b);
  }

  /** Writer `w` has its file under its name, and nothing else is different from `h0`. */
  ghost predicate HasStaged(e: Setting, h0: Heap, s: World, w: nat, leaf: Name, i: Ino, node: Node) {
    && w < |s.writers| && IsDir(h0, e.parent) && i !in h0 && leaf != e.dest && Lookup(h0, e.parent, leaf) == None
    && s.heap == Attach(h0[i := node], e.parent, leaf, i)
    && s.writers[w].staged.Some? && s.writers[w].staged.value.1 == i && LeafName(e, s.writers[w].staged.value.0) == leaf
  }

  lemma Staging(e: Setting, s: World, w: nat)
    requires w < |s.writers| && s.writers[w].phase.Idle? && s.writers[w].staged == None
    requires IsDir(s.heap, e.parent) && s.next !in s.heap
    requires Lookup(s.heap, e.parent, LeafName(e, NextTicket(s, w))) == None
    ensures var t := Step(e, s, Stage(w, true));
            && HasStaged(e, s.heap, t, w, LeafName(e, NextTicket(s, w)), s.next, File([], DEFAULT_FILE_MODE))
            && t.writers[w].phase.Writing? && t.writers[w].options == s.writers[w].options && |t.writers| == |s.writers|
  {
    var ticket := NextTicket(s, w);
    GeneratedNameIsNotDestination(e.dest, ".tmp-", e.pid(ticket.process), e.nanos(ticket), ticket.number, ".tmp");
  }

  lemma WritingAndSealing(e: Setting, h0: Heap, s: World, w: nat, leaf: Name, i: Ino, data: seq<Byte>)
    requires HasStaged(e, h0, s, w, leaf, i, File([], DEFAULT_FILE_MODE)) && s.writers[w].phase.Writing?
    ensures var t := Step(e, Step(e, s, Write(w, data, true)), Seal(w, true));
            var node := WithMode(File(data, DEFAULT_FILE_MODE), s.writers[w].options.unixMode);
            && HasStaged(e, h0, t, w, leaf, i, node) && |t.writers| == |s.writers|
            && t.writers[w].options == s.writers[w].options
            && t.writers[w].phase == if Acceptable(node, s.writers[w].options) then Sealed else Failed
  {
    assert [] + data == data;
    var t1 := Step(e, s, Write(w, data, true));
    assert t1.heap[i] == File(data, DEFAULT_FILE_MODE) && t1.writers[w].phase.Writing?;
    assert t1.heap == Attach(h0[i := File(data, DEFAULT_FILE_MODE)], e.parent, leaf, i);
    var node := WithMode(File(data, DEFAULT_FILE_MODE), s.writers[w].options.unixMode);
    assert Step(e, t1, Seal(w, true)).heap == Attach(h0[i := node], e.parent, leaf, i);
  }

  lemma Publishing(e: Setting, h0: Heap, s: World, w: nat, leaf: Name, i: Ino, node: Node)
    requires HasStaged(e, h0, s, w, leaf, i, node) && s.writers[w].phase.Sealed? && node.File?
    requires Lookup(h0, e.parent, e.dest) != Some(i)
    ensures var t := Step(e, s, Publish(w, true));
            && |t.writers| == |s.writers|
            && (t.writers[w].phase.Committed? <==> Open(h0, e, s.writers[w].options))
            && (t.writers[w].phase.Committed? ==> t.heap == Attach(h0[i := node], e.parent, e.dest, i))
  {
    var entries := h0[e.parent].entries;
    assert entries[leaf := i] - {leaf} == entries;
    assert Lookup(s.heap, e.parent, e.dest) == Lookup(h0, e.parent, e.dest);
  }

  /** A writer whose four steps come one after the other and all work, under a name that is free,
      commits exactly when what it wrote is acceptable and the destination lets it; and then the only
      trace of it is the file at the destination. */
  lemma UndisturbedWriter(e: Setting, s: World, w: nat, data: seq<Byte>)
    requires w < |s.writers| && s.writers[w].phase.Idle? && s.writers[w].staged == None
    requires Closed(s.heap) && IsDir(s.heap, e.parent) && s.next !in s.heap
    requires Lookup(s.heap, e.parent, LeafName(e, NextTicket(s, w))) == None
    ensures var t := Run(e, s, [Stage(w, true), Write(w, data, true), Seal(w, true), Publish(w, true)]);
            var x := s.writers[w].options;
            var node := WithMode(File(data, DEFAULT_FILE_MODE), x.unixMode);
            && |t.writers| == |s.writers|
            && (t.writers[w].phase.Committed? <==> Acceptable(node, x) && Open(s.heap, e, x))
            && (t.writers[w].phase.Committed? ==>
                  t.heap == Attach(s.heap[s.next := node], e.parent, e.dest, s.next))
  {
    RunFour(e, s, Stage(w, true), Write(w, data, true), Seal(w, true), Publish(w, true));
    var leaf, i, x := LeafName(e, NextTicket(s, w)), s.next, s.writers[w].options;
    var node := WithMode(File(data, DEFAULT_FILE_MODE), x.unixMode);
    Staging(e, s, w);
    var s1 := Step(e, s, Stage(w, true));
    WritingAndSealing(e, s.heap, s1, w, leaf, i, data);
    var s3 := Step(e, Step(e, s1, Write(w, data, true)), Seal(w, true));
    if Acceptable(node, x) {
      Publishing(e, s.heap, s3, w, leaf, i, node);
    }
  }

  // ---------------------------------------------------------------- the invariant

  ghost predicate Initial(e: Setting, s: World) {
    && IsDir(s.heap, e.parent) && Wf(s.heap) && TellsProcessesApart(e)
    && (forall i :: i in s.heap ==> i < s.next)
    && (forall w :: 0 <= w < |s.writers| ==>
          s.writers[w].phase.Idle? && s.writers[w].staged == None && !s.writers[w].published)
  }

  /** What each writer may rely on, whatever the others do. */
  ghost predicate WriterInv(e: Setting, s0: World, s: World, x: Writer) {
    && (x.staged == None ==> (x.phase.Idle? || x.phase.Dropped?) && !x.published)
    && (x.staged.Some? ==>
          var (k, i) := x.staged.value;
          var entry := Lookup(s.heap, e.parent, LeafName(e, k));
          && !x.phase.Idle?
          && k.process == x.process && k.number < Counter(s, k.process) && s0.next <= i < s.next && i in s.heap && s.heap[i].File?
          && (entry == None || entry == Some(i))
          && (x.published <==> x.phase.Committed? || (x.phase.Dropped? && x.published))
          && (x.phase.Writing? || x.phase.Sealed? ==> entry == Some(i))
          && (x.published ==> entry == None)
          && (x.phase.Writing? ==> s.heap[i] == File(x.written, DEFAULT_FILE_MODE))
          && (x.phase.Sealed? || x.published ==> s.heap[i] == Final(x) && Acceptable(Final(x), x.options)))
  }

  ghost predicate Apart(s: World) {
    forall w, v :: 0 <= w < v < |s.writers| && s.writers[w].staged.Some? && s.writers[v].staged.Some? ==>
      && s.writers[w].staged.value.0 != s.writers[v].staged.value.0
      && s.writers[w].staged.value.1 != s.writers[v].staged.value.1
  }

  /** The destination is as at the start, or the complete accepted file of one writer. */
  ghost predicate Whole(e: Setting, s0: World, s: World) {
    || (Lookup(s.heap, e.parent, e.dest) == Lookup(s0.heap, e.parent, e.dest)
        && (Lookup(s.heap, e.parent, e.dest).Some? ==>
              var i := Lookup(s.heap, e.parent, e.dest).value;
              i in s.heap && i in s0.heap && s.heap[i] == s0.heap[i]))
    || exists w :: 0 <= w < |s.writers| && InstalledBy(e, s, w)
  }

  ghost predicate InstalledBy(e: Setting, s: World, w: nat)
    requires w < |s.writers|
  {
    var x := s.writers[w];
    && x.published && x.staged.Some?
    && Lookup(s.heap, e.parent, e.dest) == Some(x.staged.value.1)
    && x.staged.value.1 in s.heap && s.heap[x.staged.value.1] == Final(x) && Acceptable(Final(x), x.options)
  }

  ghost predicate Inv(e: Setting, s0: World, s: World) {
    && Initial(e, s0)
    && IsDir(s.heap, e.parent) && s0.next <= s.next
    && |s.writers| == |s0.writers|
    && (forall i :: i in s.heap ==> i < s.next)
    && (forall i :: i in s0.heap && i != e.parent ==> i in s.heap && s.heap[i] == s0.heap[i])
    && (forall w :: 0 <= w < |s.writers| ==> s.writers[w].options == s0.writers[w].options)
    && (forall w :: 0 <= w < |s.writers| ==> WriterInv(e, s0, s, s.writers[w]))
    && Apart(s)
    && DestinationKnown(e, s0, s)
  }

  /** Names are kept apart by their tickets if and only if the ids and clocks tell the processes apart. */
  lemma LeavesDifferExactly(e: Setting)
    ensures (forall k, k' :: k != k' ==> LeafName(e, k) != LeafName(e, k')) <==> TellsProcessesApart(e)
  {
    if TellsProcessesApart(e) {
      forall k, k' | k != k' ensures LeafName(e, k) != LeafName(e, k') {
        LeavesDiffer(e, k, k');
      }
    }
    if p, q, k: nat :| p != q && e.pid(p) == e.pid(q) && e.nanos(Ticket(p, k)) == e.nanos(Ticket(q, k)) {
      assert LeafName(e, Ticket(p, k)) == LeafName(e, Ticket(q, k));
    }
  }

  lemma LeavesDiffer(e: Setting, k: Ticket, k': Ticket)
    requires TellsProcessesApart(e)
    ensures k != k' ==> LeafName(e, k) != LeafName(e, k')
    ensures LeafName(e, k) != e.dest
  {
    if LeafName(e, k) == LeafName(e, k') {
      EntryNameInjective(StagedPrefix(e.dest), e.pid(k.process), e.nanos(k), k.number,
                         e.pid(k'.process), e.nanos(k'), k'.number, ".tmp");
      assert k == Ticket(k.process, k.number) && k' == Ticket(k'.process, k.number);
    }
    GeneratedNameIsNotDestination(e.dest, ".tmp-", e.pid(k.process), e.nanos(k), k.number, ".tmp");
  }

  /** A step of writer `w` touches its own inode, its own name and the destination's name only. */
  ghost predicate Framed(e: Setting, s: World, t: World, w: nat) {
    && |t.writers| == |s.writers| && w < |s.writers|
    && IsDir(t.heap, e.parent) && s.next <= t.next && (forall p :: Counter(s, p) <= Counter(t, p))
    && (forall i :: i in t.heap ==> i < t.next)
    && (forall v :: 0 <= v < |s.writers| && v != w ==> t.writers[v] == s.writers[v])
    && t.writers[w].options == s.writers[w].options && t.writers[w].process == s.writers[w].process
    && (forall i :: i in s.heap && i != e.parent && (t.writers[w].staged.Some? ==> i != t.writers[w].staged.value.1)
                    ==> i in t.heap && t.heap[i] == s.heap[i])
    && (forall n :: n != e.dest && (t.writers[w].staged.Some? ==> n != LeafName(e, t.writers[w].staged.value.0))
                    ==> Lookup(t.heap, e.parent, n) == Lookup(s.heap, e.parent, n))
  }

  ghost predicate DestinationKnown(e: Setting, s0: World, s: World) {
    || Lookup(s.heap, e.parent, e.dest) == Lookup(s0.heap, e.parent, e.dest)
    || exists w :: 0 <= w < |s.writers| && PublishedAtDestination(e, s, s.writers[w])
  }

  ghost predicate PublishedAtDestination(e: Setting, s: World, x: Writer) {
    x.published && x.staged.Some? && Lookup(s.heap, e.parent, e.dest) == Some(x.staged.value.1)
  }

  lemma OtherWriterKept(e: Setting, s0: World, s: World, t: World, w: nat, v: nat)
    requires Inv(e, s0, s) && Framed(e, s, t, w) && v < |s.writers| && v != w && Apart(t)
    ensures WriterInv(e, s0, t, t.writers[v])
  {
    var x := s.writers[v];
    assert WriterInv(e, s0, s, x);
    if x.staged.Some? {
      LeavesDiffer(e, x.staged.value.0, x.staged.value.0);
      if t.writers[w].staged.Some? {
        LeavesDiffer(e, x.staged.value.0, t.writers[w].staged.value.0);
        assert if v < w then t.writers[v].staged.value.0 != t.writers[w].staged.value.0
               else t.writers[w].staged.value.0 != t.writers[v].staged.value.0;
      }
      assert e.parent in s0.heap;
    }
  }

  lemma FrameKeepsInv(e: Setting, s0: World, s: World, t: World, w: nat)
    requires Inv(e, s0, s) && Framed(e, s, t, w) && Apart(t)
    requires WriterInv(e, s0, t, t.writers[w]) && DestinationKnown(e, s0, t)
    ensures Inv(e, s0, t)
  {
    forall v | 0 <= v < |t.writers|
      ensures WriterInv(e, s0, t, t.writers[v]) && t.writers[v].options == s0.writers[v].options
    {
      if v != w {
        OtherWriterKept(e, s0, s, t, w, v);
      }
    }
    forall i | i in s0.heap && i != e.parent
      ensures i in t.heap && t.heap[i] == s0.heap[i]
    {
      assert i < s0.next;
    }
  }

  /** The destination stays known when its name and the writers' publications stay. */
  lemma DestinationStaysKnown(e: Setting, s0: World, s: World, t: World, w: nat)
    requires Inv(e, s0, s) && Framed(e, s, t, w)
    requires Lookup(t.heap, e.parent, e.dest) == Lookup(s.heap, e.parent, e.dest)
    requires t.writers[w].published == s.writers[w].published
    requires s.writers[w].published ==> t.writers[w].staged == s.writers[w].staged
    ensures DestinationKnown(e, s0, t)
  {
    if Lookup(s.heap, e.parent, e.dest) != Lookup(s0.heap, e.parent, e.dest) {
      var v :| 0 <= v < |s.writers| && PublishedAtDestination(e, s, s.writers[v]);
      assert PublishedAtDestination(e, t, t.writers[v]);
    }
  }

  lemma StageFrames(e: Setting, s0: World, s: World, w: nat, ok: bool)
    requires Inv(e, s0, s) && CanMove(e, s, w) && s.writers[w].phase.Idle?
    ensures var t := StageStep(e, s, w, ok);
            Framed(e, s, t, w) && Lookup(t.heap, e.parent, e.dest) == Lookup(s.heap, e.parent, e.dest)
  {
    assert WriterInv(e, s0, s, s.writers[w]);
    LeavesDiffer(e, NextTicket(s, w), NextTicket(s, w));
  }

  lemma StageKeepsOwn(e: Setting, s0: World, s: World, w: nat, ok: bool)
    requires Inv(e, s0, s) && CanMove(e, s, w) && s.writers[w].phase.Idle?
    ensures WriterInv(e, s0, StageStep(e, s, w, ok), StageStep(e, s, w, ok).writers[w])
  {
    assert WriterInv(e, s0, s, s.writers[w]);
  }

  lemma StageKeepsApart(e: Setting, s0: World, s: World, w: nat, ok: bool)
    requires Inv(e, s0, s) && CanMove(e, s, w) && s.writers[w].phase.Idle?
    ensures Apart(StageStep(e, s, w, ok))
  {
    var ticket := NextTicket(s, w);
    assert WriterInv(e, s0, s, s.writers[w]);
    forall v | 0 <= v < |s.writers| && v != w && s.writers[v].staged.Some?
      ensures s.writers[v].staged.value.0 != ticket && s.writers[v].staged.value.1 < s.next
    {
      assert WriterInv(e, s0, s, s.writers[v]);
    }
  }

  lemma StageKeepsInv(e: Setting, s0: World, s: World, w: nat, ok: bool)
    requires Inv(e, s0, s) && CanMove(e, s, w) && s.writers[w].phase.Idle?
    ensures Inv(e, s0, StageStep(e, s, w, ok))
  {
    var t := StageStep(e, s, w, ok);
    StageFrames(e, s0, s, w, ok);
    StageKeepsOwn(e, s0, s, w, ok);
    StageKeepsApart(e, s0, s, w, ok);
    assert WriterInv(e, s0, s, s.writers[w]);
    DestinationStaysKnown(e, s0, s, t, w);
    FrameKeepsInv(e, s0, s, t, w);
  }

  lemma WriteKeepsInv(e: Setting, s0: World, s: World, w: nat, data: seq<Byte>, ok: bool)
    requires Inv(e, s0, s) && CanMove(e, s, w) && s.writers[w].phase.Writing? && s.writers[w].staged.Some?
    ensures Inv(e, s0, WriteStep(e, s, w, data, ok))
  {
    var t := WriteStep(e, s, w, data, ok);
    assert WriterInv(e, s0, s, s.writers[w]);
    DestinationStaysKnown(e, s0, s, t, w);
    FrameKeepsInv(e, s0, s, t, w);
  }

  lemma SealKeepsInv(e: Setting, s0: World, s: World, w: nat, ok: bool)
    requires Inv(e, s0, s) && CanMove(e, s, w) && s.writers[w].phase.Writing? && s.writers[w].staged.Some?
    ensures Inv(e, s0, SealStep(e, s, w, ok))
  {
    var t := SealStep(e, s, w, ok);
    assert WriterInv(e, s0, s, s.writers[w]);
    DestinationStaysKnown(e, s0, s, t, w);
    FrameKeepsInv(e, s0, s, t, w);
  }

  /** A staged file that is not published is not at the destination, so renaming it is no no-op. */
  lemma NotYetThere(e: Setting, s0: World, s: World, w: nat)
    requires Inv(e, s0, s) && w < |s.writers| && s.writers[w].staged.Some? && !s.writers[w].published
    ensures Lookup(s.heap, e.parent, e.dest) != Some(s.writers[w].staged.value.1)
  {
    assert WriterInv(e, s0, s, s.writers[w]);
    if Lookup(s.heap, e.parent, e.dest) == Lookup(s0.heap, e.parent, e.dest) {
      assert Lookup(s0.heap, e.parent, e.dest).Some? ==> Lookup(s0.heap, e.parent, e.dest).value in s0.heap;
    } else {
      var v :| 0 <= v < |s.writers| && PublishedAtDestination(e, s, s.writers[v]);
      assert v != w;
      assert if v < w then s.writers[v].staged.value.1 != s.writers[w].staged.value.1
             else s.writers[w].staged.value.1 != s.writers[v].staged.value.1;
    }
  }

  /** A successful publication moves the writer's name to the destination and does nothing else. */
  lemma PublishEffect(e: Setting, s0: World, s: World, w: nat)
    requires Inv(e, s0, s) && CanMove(e, s, w) && s.writers[w].phase.Sealed? && s.writers[w].staged.Some?
    ensures var t := PublishStep(e, s, w, true);
            var (k, i) := s.writers[w].staged.value;
            t.writers[w].published ==> t.heap == Attach(Detach(s.heap, e.parent, LeafName(e, k)), e.parent, e.dest, i)
    ensures var t := PublishStep(e, s, w, true);
            !t.writers[w].published ==> t.heap == s.heap
  {
    assert WriterInv(e, s0, s, s.writers[w]);
    NotYetThere(e, s0, s, w);
  }

  lemma PublishFrames(e: Setting, s0: World, s: World, w: nat, ok: bool)
    requires Inv(e, s0, s) && CanMove(e, s, w) && s.writers[w].phase.Sealed? && s.writers[w].staged.Some?
    ensures var t := PublishStep(e, s, w, ok);
            && Framed(e, s, t, w) && WriterInv(e, s0, t, t.writers[w])
            && (t.writers[w].published ==> PublishedAtDestination(e, t, t.writers[w]))
            && (!t.writers[w].published ==> t.heap == s.heap)
  {
    var (k, i) := s.writers[w].staged.value;
    assert WriterInv(e, s0, s, s.writers[w]);
    LeavesDiffer(e, k, k);
    PublishEffect(e, s0, s, w);
    AttachLookup(Detach(s.heap, e.parent, LeafName(e, k)), e.parent, e.dest, i);
  }

  lemma PublishKeepsInv(e: Setting, s0: World, s: World, w: nat, ok: bool)
    requires Inv(e, s0, s) && CanMove(e, s, w) && s.writers[w].phase.Sealed? && s.writers[w].staged.Some?
    ensures Inv(e, s0, PublishStep(e, s, w, ok))
  {
    var t := PublishStep(e, s, w, ok);
    PublishFrames(e, s0, s, w, ok);
    assert WriterInv(e, s0, s, s.writers[w]);
    if !t.writers[w].published {
      DestinationStaysKnown(e, s0, s, t, w);
    }
    FrameKeepsInv(e, s0, s, t, w);
  }

  lemma DropFrames(e: Setting, s0: World, s: World, w: nat, ok: bool)
    requires Inv(e, s0, s) && CanMove(e, s, w)
    ensures var t := DropStep(e, s, w, ok);
            && Framed(e, s, t, w) && WriterInv(e, s0, t, t.writers[w])
            && Lookup(t.heap, e.parent, e.dest) == Lookup(s.heap, e.parent, e.dest)
            && t.writers[w].staged == s.writers[w].staged && t.writers[w].published == s.writers[w].published
  {
    assert WriterInv(e, s0, s, s.writers[w]);
    if s.writers[w].staged.Some? {
      LeavesDiffer(e, s.writers[w].staged.value.0, s.writers[w].staged.value.0);
    }
  }

  lemma DropKeepsInv(e: Setting, s0: World, s: World, w: nat, ok: bool)
    requires Inv(e, s0, s) && CanMove(e, s, w)
    ensures Inv(e, s0, DropStep(e, s, w, ok))
    ensures Lookup(DropStep(e, s, w, ok).heap, e.parent, e.dest) == Lookup(s.heap, e.parent, e.dest)
  {
    var t := DropStep(e, s, w, ok);
    DropFrames(e, s0, s, w, ok);
    DestinationStaysKnown(e, s0, s, t, w);
    FrameKeepsInv(e, s0, s, t, w);
  }

  lemma StepKeepsInv(e: Setting, s0: World, s: World, a: Action)
    requires Inv(e, s0, s)
    ensures Inv(e, s0, Step(e, s, a))
  {
    if CanMove(e, s, a.w) {
      var x := s.writers[a.w];
      match a
      case Stage(_, ok) => if x.phase.Idle? { StageKeepsInv(e, s0, s, a.w, ok); }
      case Write(_, data, ok) => if x.phase.Writing? && x.staged.Some? { WriteKeepsInv(e, s0, s, a.w, data, ok); }
      case Seal(_, ok) => if x.phase.Writing? && x.staged.Some? { SealKeepsInv(e, s0, s, a.w, ok); }
      case Publish(_, ok) => if x.phase.Sealed? && x.staged.Some? { PublishKeepsInv(e, s0, s, a.w, ok); }
      case Drop(_, ok) => DropKeepsInv(e, s0, s, a.w, ok);
    }
  }

  lemma {:induction false} RunKeepsInv(e: Setting, s0: World, actions: seq<Action>)
    requires Initial(e, s0)
    ensures Inv(e, s0, Run(e, s0, actions))
    decreases |actions|
  {
    if actions != [] {
      RunKeepsInv(e, s0, actions[..|actions|-1]);
      StepKeepsInv(e, s0, Run(e, s0, actions[..|actions|-1]), actions[|actions|-1]);
    }
  }

  // ---------------------------------------------------------------- the theorems

  /** In every interleaving and under every failure schedule, whoever looks at the destination finds
      nothing, what was there at the start, or one writer's complete validated file. */
  lemma DestinationIsAlwaysWhole(e: Setting, s0: World, actions: seq<Action>)
    requires Initial(e, s0)
    ensures Whole(e, s0, Run(e, s0, actions))
  {
    RunKeepsInv(e, s0, actions);
    var s := Run(e, s0, actions);
    DestinationIsNotParent(e, s0);
    if Lookup(s.heap, e.parent, e.dest) != Lookup(s0.heap, e.parent, e.dest) {
      var w :| 0 <= w < |s.writers| && PublishedAtDestination(e, s, s.writers[w]);
      assert WriterInv(e, s0, s, s.writers[w]);
      assert InstalledBy(e, s, w);
    }
  }

  /** No drop, of a committed writer or any other, takes the destination away. */
  lemma DropsSpareTheDestination(e: Setting, s0: World, actions: seq<Action>, w: nat, ok: bool)
    requires Initial(e, s0)
    ensures var s := Run(e, s0, actions);
            Lookup(Step(e, s, Drop(w, ok)).heap, e.parent, e.dest) == Lookup(s.heap, e.parent, e.dest)
  {
    RunKeepsInv(e, s0, actions);
    var s := Run(e, s0, actions);
    if CanMove(e, s, w) {
      DropKeepsInv(e, s0, s, w, ok);
    }
  }

  predicate NoClobber(s: World) {
    forall w :: 0 <= w < |s.writers| ==> !s.writers[w].options.overwriteExisting
  }

  /** Without overwriting, a destination that exists is never touched again, neither name nor bytes. */
  lemma PresentDestinationIsFixed(e: Setting, s0: World, s: World, a: Action)
    requires Inv(e, s0, s) && NoClobber(s0) && Lookup(s.heap, e.parent, e.dest).Some?
    ensures var i := Lookup(s.heap, e.parent, e.dest).value;
            && Lookup(Step(e, s, a).heap, e.parent, e.dest) == Some(i)
            && i in s.heap && i in Step(e, s, a).heap && Step(e, s, a).heap[i] == s.heap[i]
    ensures forall w :: 0 <= w < |s.writers| && |Step(e, s, a).writers| == |s.writers| ==>
              Step(e, s, a).writers[w].published == s.writers[w].published
  {
    var i := Lookup(s.heap, e.parent, e.dest).value;
    PresentIsSettled(e, s0, s, i);
    if CanMove(e, s, a.w) {
      var x := s.writers[a.w];
      assert WriterInv(e, s0, s, x);
      if x.staged.Some? {
        LeavesDiffer(e, x.staged.value.0, x.staged.value.0);
      }
      LeavesDiffer(e, NextTicket(s, a.w), NextTicket(s, a.w));
      StepSpares(e, s, a, i);
    }
  }

  /** A step that does not overwrite spares an inode at the destination that is not the writer's to
      write to any more. */
  lemma StepSpares(e: Setting, s: World, a: Action, i: Ino)
    requires CanMove(e, s, a.w) && Lookup(s.heap, e.parent, e.dest) == Some(i) && i in s.heap && i != e.parent
    requires !s.writers[a.w].options.overwriteExisting && LeafName(e, NextTicket(s, a.w)) != e.dest
    requires s.writers[a.w].staged.Some? ==>
               var x := s.writers[a.w];
               LeafName(e, x.staged.value.0) != e.dest && (x.phase.Writing? ==> x.staged.value.1 != i)
    ensures var t := Step(e, s, a);
            && Lookup(t.heap, e.parent, e.dest) == Some(i) && i in t.heap && t.heap[i] == s.heap[i]
            && |t.writers| == |s.writers|
            && forall w :: 0 <= w < |s.writers| ==> t.writers[w].published == s.writers[w].published
  {
  }

  lemma DestinationIsNotParent(e: Setting, s0: World)
    requires Initial(e, s0)
    ensures Lookup(s0.heap, e.parent, e.dest) != Some(e.parent)
  {
    assert [e.dest][1..] == [];
    assert Walk(s0.heap, e.parent, [e.dest]) != Some(e.parent);
  }

  /** The inode at the destination belongs to nobody who could still write to it. */
  lemma PresentIsSettled(e: Setting, s0: World, s: World, i: Ino)
    requires Inv(e, s0, s) && Lookup(s.heap, e.parent, e.dest) == Some(i)
    ensures i in s.heap && i != e.parent
    ensures forall w :: 0 <= w < |s.writers| && s.writers[w].staged.Some? && s.writers[w].staged.value.1 == i ==>
              s.writers[w].published
  {
    DestinationIsNotParent(e, s0);
    if Lookup(s.heap, e.parent, e.dest) != Lookup(s0.heap, e.parent, e.dest) {
      var v :| 0 <= v < |s.writers| && PublishedAtDestination(e, s, s.writers[v]);
      assert WriterInv(e, s0, s, s.writers[v]);
    }
    forall w | 0 <= w < |s.writers| && s.writers[w].staged.Some? && !s.writers[w].published
      ensures s.writers[w].staged.value.1 != i
    {
      NotYetThere(e, s0, s, w);
    }
  }

  ghost predicate OnlyPublished(e: Setting, s: World) {
    forall w :: 0 <= w < |s.writers| && s.writers[w].published ==> PublishedAtDestination(e, s, s.writers[w])
  }

  lemma StepPublishesOnce(e: Setting, s0: World, s: World, a: Action)
    requires Inv(e, s0, s) && NoClobber(s0)
    requires OnlyPublished(e, s)
    ensures OnlyPublished(e, Step(e, s, a))
  {
    var t := Step(e, s, a);
    if Lookup(s.heap, e.parent, e.dest).Some? {
      PresentDestinationIsFixed(e, s0, s, a);
      forall w | 0 <= w < |t.writers| && t.writers[w].published
        ensures PublishedAtDestination(e, t, t.writers[w])
      {
        PublishedStays(e, s0, s, a, w);
      }
    } else if CanMove(e, s, a.w) {
      FirstPublication(e, s0, s, a);
    }
  }

  lemma PublishedStays(e: Setting, s0: World, s: World, a: Action, w: nat)
    requires Inv(e, s0, s) && w < |s.writers| && s.writers[w].published && PublishedAtDestination(e, s, s.writers[w])
    ensures w < |Step(e, s, a).writers| && Step(e, s, a).writers[w].staged == s.writers[w].staged
  {
    assert WriterInv(e, s0, s, s.writers[w]);
  }

  /** As long as there is no destination nobody has published, and one step publishes for one writer. */
  lemma FirstPublication(e: Setting, s0: World, s: World, a: Action)
    requires Inv(e, s0, s) && CanMove(e, s, a.w) && OnlyPublished(e, s) && Lookup(s.heap, e.parent, e.dest) == None
    ensures OnlyPublished(e, Step(e, s, a))
  {
    var x := s.writers[a.w];
    assert WriterInv(e, s0, s, x);
    if a.Publish? && x.phase.Sealed? && x.staged.Some? {
      PublishFrames(e, s0, s, a.w, a.ok);
    }
  }

  lemma {:induction false} RunPublishesOnce(e: Setting, s0: World, actions: seq<Action>)
    requires Initial(e, s0) && NoClobber(s0)
    ensures OnlyPublished(e, Run(e, s0, actions))
    decreases |actions|
  {
    if actions != [] {
      RunPublishesOnce(e, s0, actions[..|actions|-1]);
      RunKeepsInv(e, s0, actions[..|actions|-1]);
      StepPublishesOnce(e, s0, Run(e, s0, actions[..|actions|-1]), actions[|actions|-1]);
    }
  }

  /** Once the destination exists, the rest of the run leaves its name and its bytes alone. */
  lemma {:induction false} PresentDestinationSurvives(e: Setting, s0: World, before: seq<Action>, after: seq<Action>)
    requires Initial(e, s0) && NoClobber(s0) && Lookup(Run(e, s0, before).heap, e.parent, e.dest).Some?
    ensures var s, t := Run(e, s0, before), Run(e, s0, before + after);
            var i := Lookup(s.heap, e.parent, e.dest).value;
            && Lookup(t.heap, e.parent, e.dest) == Some(i) && i in s.heap && i in t.heap && t.heap[i] == s.heap[i]
    decreases |after|
  {
    var s := Run(e, s0, before);
    RunKeepsInv(e, s0, before);
    if after == [] {
      assert before + after == before;
      PresentIsSettled(e, s0, s, Lookup(s.heap, e.parent, e.dest).value);
    } else {
      var most, last := after[..|after|-1], after[|after|-1];
      assert (before + after)[..|before + after| - 1] == before + most;
      PresentDestinationSurvives(e, s0, before, most);
      RunKeepsInv(e, s0, before + most);
      PresentDestinationIsFixed(e, s0, Run(e, s0, before + most), last);
    }
  }

  /** When every writer refuses to overwrite, at most one of them ever commits, and none does if
      the destination existed at the start. */
  lemma AtMostOneCommits(e: Setting, s0: World, actions: seq<Action>, w: nat, v: nat)
    requires Initial(e, s0) && NoClobber(s0)
    requires w < |s0.writers| && v < |s0.writers|
    ensures var s := Run(e, s0, actions);
            && |s.writers| == |s0.writers|
            && (s.writers[w].published && s.writers[v].published ==> w == v)
            && (s.writers[w].published ==> Lookup(s0.heap, e.parent, e.dest) == None)
  {
    RunKeepsInv(e, s0, actions);
    RunPublishesOnce(e, s0, actions);
    var s := Run(e, s0, actions);
    if Lookup(s0.heap, e.parent, e.dest).Some? {
      assert [] + actions == actions;
      PresentDestinationSurvives(e, s0, [], actions);
    }
    forall v | v == w && s.writers[v].published
      ensures s.writers[v].staged.value.1 >= s0.next
    {
      assert WriterInv(e, s0, s, s.writers[v]);
    }
  }
}
