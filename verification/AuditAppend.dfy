/** Concurrent appends to the audit log: lock, seek to the end, write in pieces, flush, unlock
    (crates/omne-execution-gateway/src/audit_log.rs). */
module AuditAppend {
  import opened Wrappers
  import opened Filesystem

  const NEWLINE: Byte := 10

  /** One serialized record; JSON text has no raw line break. */
  type Line = seq<Byte>

  predicate IsLine(l: Line) {
    NEWLINE !in l
  }

  function Record(l: Line): (r: seq<Byte>)
    ensures |r| == |l| + 1
  {
    l + [NEWLINE]
  }

  // ---------------------------------------------------------------- reading a log back

  /** The complete lines of a file, and what follows the last line break. */
  function Lines(file: seq<Byte>): (seq<Line>, Line) {
    if file == [] then ([], [])
    else
      var (lines, rest) := Lines(file[..|file|-1]);
      if file[|file|-1] == NEWLINE then (lines + [rest], []) else (lines, rest + [file[|file|-1]])
  }

  lemma {:induction false} LinesText(file: seq<Byte>, text: seq<Byte>)
    requires NEWLINE !in text
    ensures Lines(file + text) == (Lines(file).0, Lines(file).1 + text)
    decreases |text|
  {
    if text == [] {
      assert file + text == file;
      assert Lines(file).1 + text == Lines(file).1;
    } else {
      var init, last := text[..|text|-1], text[|text|-1];
      assert (file + text)[..|file + text|-1] == file + init;
      LinesText(file, init);
      assert last in text;
      assert text == init + [last];
      assert Lines(file).1 + text == (Lines(file).1 + init) + [last];
    }
  }

  lemma LinesRecord(file: seq<Byte>, l: Line)
    requires IsLine(l)
    ensures Lines(file + Record(l)) == (Lines(file).0 + [Lines(file).1 + l], [])
  {
    assert (file + Record(l))[..|file + Record(l)|-1] == file + l;
    LinesText(file, l);
  }

  // ---------------------------------------------------------------- the file

  /** Write at a position, over what is there. */
  function WriteAt(file: seq<Byte>, pos: nat, data: seq<Byte>): seq<Byte>
    requires pos <= |file|
  {
    file[..pos] + data + if pos + |data| < |file| then file[pos + |data|..] else []
  }

  // ---------------------------------------------------------------- many writers

  datatype Phase =
    | Idle
    | Locked
    | Writing(pos: nat, rest: seq<Byte>)
    | Ending(ok: bool)
    | Stuck

  /** A writer and the index of the record it is writing or will write next. */
  datatype Writer = Writer(phase: Phase, next: nat)

  /** What was written under one hold of the lock. */
  datatype Chunk = Chunk(writer: nat, index: nat, written: seq<Byte>)

  datatype State = State(
    file: seq<Byte>,
    lock: Option<nat>,
    writers: seq<Writer>,
    log: seq<Chunk>,
    results: map<(nat, nat), bool>)

  type Jobs = seq<seq<Line>>

  datatype Action =
    | Lock(w: nat)
    | LockFails(w: nat)
    | Seek(w: nat)
    | SeekFails(w: nat)
    | Write(w: nat, count: nat)
    | WriteFails(w: nat)
    | Flush(w: nat)
    | FlushFails(w: nat)
    | Unlock(w: nat)
    | UnlockFails(w: nat)
    | Close(w: nat)
    | Crash(w: nat)

  predicate Enabled(jobs: Jobs, s: State, a: Action) {
    && |s.writers| == |jobs| && a.w < |jobs|
    && var phase, next := s.writers[a.w].phase, s.writers[a.w].next;
       next <= |jobs[a.w]| &&
       match a
       case Lock(_) => phase.Idle? && next < |jobs[a.w]| && s.lock == None
       case LockFails(_) => phase.Idle? && next < |jobs[a.w]|
       case Seek(_) => phase.Locked? && next < |jobs[a.w]|
       case SeekFails(_) => phase.Locked?
       case Write(_, count) => phase.Writing? && 0 < count <= |phase.rest| && phase.pos <= |s.file| && s.log != []
       case WriteFails(_) => phase.Writing? && phase.rest != []
       case Flush(_) => phase.Writing? && phase.rest == []
       case FlushFails(_) => phase.Writing? && phase.rest == []
       case Unlock(_) => phase.Ending?
       case UnlockFails(_) => phase.Ending?
       case Close(_) => phase.Stuck?
       case Crash(_) => true
  }

  function At(s: State, w: nat, phase: Phase): State
    requires w < |s.writers|
  {
    s.(writers := s.writers[w := s.writers[w].(phase := phase)])
  }

  /** `finish_locked_write`: the record counts as written only if both writing and unlocking worked. */
  function FinishLockedWrite(written: bool, unlocked: bool): bool {
    written && unlocked
  }

  /** The call returns; the writer moves on to its next record. */
  function Returned(s: State, w: nat, phase: Phase, ok: bool): State
    requires w < |s.writers|
  {
    s.(writers := s.writers[w := Writer(phase, s.writers[w].next + 1)],
       results := s.results[(w, s.writers[w].next) := ok])
  }

  function Release(s: State, w: nat): State {
    if s.lock == Some(w) then s.(lock := None) else s
  }

  function Apply(jobs: Jobs, s: State, a: Action): State
    requires Enabled(jobs, s, a)
  {
    var w := a.w;
    var phase, next := s.writers[w].phase, s.writers[w].next;
    match a
    case Lock(_) => At(s, w, Locked).(lock := Some(w))
    case LockFails(_) => Returned(s, w, Idle, false)
    case Seek(_) => At(s, w, Writing(|s.file|, Record(jobs[w][next]))).(log := s.log + [Chunk(w, next, [])])
    case SeekFails(_) => At(s, w, Ending(false))
    case Write(_, count) =>
      var last := s.log[|s.log|-1];
      At(s, w, Writing(phase.pos + count, phase.rest[count..]))
        .(file := WriteAt(s.file, phase.pos, phase.rest[..count]),
          log := s.log[|s.log|-1 := last.(written := last.written + phase.rest[..count])])
    case WriteFails(_) => At(s, w, Ending(false))
    case Flush(_) => At(s, w, Ending(true))
    case FlushFails(_) => At(s, w, Ending(false))
    case Unlock(_) => Release(Returned(s, w, Idle, FinishLockedWrite(phase.ok, true)), w)
    case UnlockFails(_) => Returned(s, w, Stuck, FinishLockedWrite(phase.ok, false))
    case Close(_) => Release(At(s, w, Idle), w)
    case Crash(_) => Release(s.(writers := s.writers[w := Writer(Idle, |jobs[w]|)]), w)
  }

  /** The state after a sequence of steps, if each could be taken. */
  function Run(jobs: Jobs, s: State, actions: seq<Action>): Option<State>
    decreases |actions|
  {
    if actions == [] then Some(s)
    else
      match Run(jobs, s, actions[..|actions|-1])
      case None => None
      case Some(m) =>
        if Enabled(jobs, m, actions[|actions|-1]) then Some(Apply(jobs, m, actions[|actions|-1])) else None
  }

  function Initial(jobs: Jobs, file: seq<Byte>): State {
    State(file, None, seq(|jobs|, _ => Writer(Idle, 0)), [], map[])
  }

  // ---------------------------------------------------------------- what every run keeps

  /** The text of the first `k` chunks. */
  function Flatten(log: seq<Chunk>, k: nat): seq<Byte>
    requires k <= |log|
  {
    if k == 0 then [] else Flatten(log, k - 1) + log[k - 1].written
  }

  ghost predicate IsPart(jobs: Jobs, c: Chunk) {
    c.writer < |jobs| && c.index < |jobs[c.writer]| && c.written <= Record(jobs[c.writer][c.index])
  }

  predicate Whole(jobs: Jobs, c: Chunk) {
    c.writer < |jobs| && c.index < |jobs[c.writer]| && c.written == Record(jobs[c.writer][c.index])
  }

  /** The writer is in the middle of a call that has put something into the log. */
  predicate Midway(s: State, w: nat)
    requires w < |s.writers|
  {
    s.writers[w].phase.Writing? || s.writers[w].phase.Ending?
  }

  /** The records of one writer among the first `k` chunks, by index, in order. */
  function Indices(log: seq<Chunk>, w: nat, k: nat): seq<nat>
    requires k <= |log|
  {
    if k == 0 then [] else Indices(log, w, k - 1) + if log[k - 1].writer == w then [log[k - 1].index] else []
  }

  ghost predicate Increasing(xs: seq<nat>, bound: nat) {
    && (forall j, k :: 0 <= j < k < |xs| ==> xs[j] < xs[k])
    && (forall k :: 0 <= k < |xs| ==> xs[k] < bound)
  }

  /** How many of its records the writer may have started. */
  function Started(s: State, w: nat): nat
    requires w < |s.writers|
  {
    s.writers[w].next + if Midway(s, w) then 1 else 0
  }

  /** The holder of the lock is the only one past `Idle`, its position is the end of the file, and
      what it has left to write completes the last chunk. */
  ghost predicate HolderOk(jobs: Jobs, s: State, w: nat)
    requires w < |s.writers| == |jobs|
  {
    && (!s.writers[w].phase.Idle? ==> s.lock == Some(w))
    && (!s.writers[w].phase.Idle? && !s.writers[w].phase.Stuck? ==> s.writers[w].next < |jobs[w]|)
    && (s.writers[w].phase.Writing? ==>
          && s.writers[w].phase.pos == |s.file| && s.log != []
          && var c := s.log[|s.log|-1];
             c.writer == w && c.index == s.writers[w].next < |jobs[w]|
             && c.written + s.writers[w].phase.rest == Record(jobs[w][c.index]))
    && (s.writers[w].phase == Ending(true) ==>
          && s.log != [] && s.log[|s.log|-1].writer == w && s.log[|s.log|-1].index == s.writers[w].next
          && Whole(jobs, s.log[|s.log|-1]))
  }

  ghost predicate Inv(jobs: Jobs, file: seq<Byte>, s: State) {
    && |s.writers| == |jobs|
    && s.file == file + Flatten(s.log, |s.log|)
    && (forall w :: 0 <= w < |jobs| ==> s.writers[w].next <= |jobs[w]| && HolderOk(jobs, s, w))
    && (forall k :: 0 <= k < |s.log| ==> IsPart(jobs, s.log[k]))
    && (forall w :: 0 <= w < |jobs| ==> Increasing(Indices(s.log, w, |s.log|), Started(s, w)))
    && (forall w, i: nat :: (w, i) in s.results && s.results[(w, i)] ==> w < |jobs| && Logged(jobs, s.log, w, i))
  }

  ghost predicate Logged(jobs: Jobs, log: seq<Chunk>, w: nat, i: nat) {
    exists k :: 0 <= k < |log| && log[k].writer == w && log[k].index == i && Whole(jobs, log[k])
  }

  lemma InitialInv(jobs: Jobs, file: seq<Byte>)
    ensures Inv(jobs, file, Initial(jobs, file))
  {
    assert file + [] == file;
  }

  lemma Assoc(a: seq<Byte>, b: seq<Byte>, c: seq<Byte>)
    ensures a + (b + c) == (a + b) + c
  {
  }

  lemma {:induction false} SameText(a: seq<Chunk>, b: seq<Chunk>, k: nat)
    requires k <= |a| && k <= |b| && forall j :: 0 <= j < k ==> a[j].written == b[j].written
    ensures Flatten(a, k) == Flatten(b, k)
    decreases k
  {
    if k > 0 {
      SameText(a, b, k - 1);
    }
  }

  lemma {:induction false} SameIndices(a: seq<Chunk>, b: seq<Chunk>, w: nat, k: nat)
    requires k <= |a| && k <= |b| && forall j :: 0 <= j < k ==> a[j].writer == b[j].writer && a[j].index == b[j].index
    ensures Indices(a, w, k) == Indices(b, w, k)
    decreases k
  {
    if k > 0 {
      SameIndices(a, b, w, k - 1);
    }
  }

  lemma TextGrows(log: seq<Chunk>, log': seq<Chunk>, n: nat, piece: seq<Byte>)
    requires n < |log| && n < |log'| && (forall j :: 0 <= j < n ==> log'[j].written == log[j].written)
    requires log'[n].written == log[n].written + piece
    ensures Flatten(log', n + 1) == Flatten(log, n + 1) + piece
  {
    SameText(log, log', n);
    Assoc(Flatten(log, n), log[n].written, piece);
  }

  lemma SeekKeepsWriter(jobs: Jobs, s: State, w: nat, v: nat)
    requires Enabled(jobs, s, Seek(w)) && v < |jobs| && HolderOk(jobs, s, v) && HolderOk(jobs, s, w)
    requires Increasing(Indices(s.log, v, |s.log|), Started(s, v))
    ensures var t := Apply(jobs, s, Seek(w));
            HolderOk(jobs, t, v) && Increasing(Indices(t.log, v, |t.log|), Started(t, v))
  {
    var t := Apply(jobs, s, Seek(w));
    SameIndices(s.log, t.log, v, |s.log|);
    assert [] + Record(jobs[w][s.writers[w].next]) == Record(jobs[w][s.writers[w].next]);
  }

  lemma SeekKeepsInv(jobs: Jobs, file: seq<Byte>, s: State, w: nat)
    requires Inv(jobs, file, s) && Enabled(jobs, s, Seek(w))
    ensures Inv(jobs, file, Apply(jobs, s, Seek(w)))
  {
    var t := Apply(jobs, s, Seek(w));
    var c := Chunk(w, s.writers[w].next, []);
    SameText(s.log, t.log, |s.log|);
    assert t.file == file + Flatten(t.log, |t.log|) by { assert Flatten(s.log, |s.log|) + [] == Flatten(s.log, |s.log|); }
    forall v | 0 <= v < |jobs|
      ensures t.writers[v].next <= |jobs[v]| && HolderOk(jobs, t, v)
      ensures Increasing(Indices(t.log, v, |t.log|), Started(t, v))
    {
      assert HolderOk(jobs, s, v) && HolderOk(jobs, s, w) && Increasing(Indices(s.log, v, |s.log|), Started(s, v));
      SeekKeepsWriter(jobs, s, w, v);
    }
    LoggedStays(jobs, s.log, t.log);
  }

  lemma LoggedStays(jobs: Jobs, log: seq<Chunk>, log': seq<Chunk>)
    requires forall k :: 0 <= k < |log| && Whole(jobs, log[k]) ==> k < |log'| && log'[k] == log[k]
    ensures forall w, i: nat :: Logged(jobs, log, w, i) ==> Logged(jobs, log', w, i)
  {
    forall w, i: nat | Logged(jobs, log, w, i)
      ensures Logged(jobs, log', w, i)
    {
      var k :| 0 <= k < |log| && log[k].writer == w && log[k].index == i && Whole(jobs, log[k]);
      assert log'[k] == log[k];
    }
  }

  lemma WriteKeepsWriter(jobs: Jobs, s: State, w: nat, count: nat, v: nat)
    requires Enabled(jobs, s, Write(w, count)) && v < |jobs| && HolderOk(jobs, s, v) && HolderOk(jobs, s, w)
    requires Increasing(Indices(s.log, v, |s.log|), Started(s, v))
    ensures var t := Apply(jobs, s, Write(w, count));
            HolderOk(jobs, t, v) && Increasing(Indices(t.log, v, |t.log|), Started(t, v))
  {
    var t := Apply(jobs, s, Write(w, count));
    var rest := s.writers[w].phase.rest;
    SameIndices(s.log, t.log, v, |s.log|);
    assert rest == rest[..count] + rest[count..];
    Assoc(s.log[|s.log|-1].written, rest[..count], rest[count..]);
  }

  lemma WriteKeepsInv(jobs: Jobs, file: seq<Byte>, s: State, w: nat, count: nat)
    requires Inv(jobs, file, s) && Enabled(jobs, s, Write(w, count))
    ensures Inv(jobs, file, Apply(jobs, s, Write(w, count)))
  {
    var t := Apply(jobs, s, Write(w, count));
    var rest := s.writers[w].phase.rest;
    var piece := rest[..count];
    var last := s.log[|s.log|-1];
    var c := t.log[|s.log|-1];
    assert HolderOk(jobs, s, w);
    TextGrows(s.log, t.log, |s.log| - 1, piece);
    Assoc(file, Flatten(s.log, |s.log|), piece);
    assert t.file == file + Flatten(t.log, |t.log|);
    assert rest == piece + rest[count..];
    assert c.written + rest[count..] == last.written + rest;
    assert IsPart(jobs, c);
    forall k | 0 <= k < |t.log|
      ensures IsPart(jobs, t.log[k])
    {
      assert k < |s.log| - 1 ==> t.log[k] == s.log[k];
    }
    forall v | 0 <= v < |jobs|
      ensures t.writers[v].next <= |jobs[v]| && HolderOk(jobs, t, v)
      ensures Increasing(Indices(t.log, v, |t.log|), Started(t, v))
    {
      assert HolderOk(jobs, s, v) && Increasing(Indices(s.log, v, |s.log|), Started(s, v));
      WriteKeepsWriter(jobs, s, w, count, v);
    }
    assert !Whole(jobs, last) by { assert |last.written| < |Record(jobs[w][last.index])|; }
    LoggedStays(jobs, s.log, t.log);
  }

  /** A step that writes nothing. */
  lemma QuietKeepsInv(jobs: Jobs, file: seq<Byte>, s: State, a: Action)
    requires Inv(jobs, file, s) && Enabled(jobs, s, a) && !a.Seek? && !a.Write?
    ensures Inv(jobs, file, Apply(jobs, s, a))
  {
    var t := Apply(jobs, s, a);
    assert HolderOk(jobs, s, a.w);
    forall v | 0 <= v < |jobs|
      ensures t.writers[v].next <= |jobs[v]| && HolderOk(jobs, t, v)
      ensures Increasing(Indices(t.log, v, |t.log|), Started(t, v))
    {
      assert Increasing(Indices(s.log, v, |s.log|), Started(s, v));
      QuietKeepsHolder(jobs, s, a, v);
    }
    QuietResults(jobs, s, a);
  }

  lemma QuietKeepsHolder(jobs: Jobs, s: State, a: Action, v: nat)
    requires Enabled(jobs, s, a) && !a.Seek? && !a.Write? && v < |jobs|
    requires HolderOk(jobs, s, a.w) && HolderOk(jobs, s, v) && s.writers[v].next <= |jobs[v]|
    requires Increasing(Indices(s.log, v, |s.log|), Started(s, v))
    requires forall k :: 0 <= k < |s.log| ==> IsPart(jobs, s.log[k])
    ensures var t := Apply(jobs, s, a);
            t.writers[v].next <= |jobs[v]| && HolderOk(jobs, t, v) && Increasing(Indices(t.log, v, |t.log|), Started(t, v))
  {
  }

  lemma QuietResults(jobs: Jobs, s: State, a: Action)
    requires Enabled(jobs, s, a) && HolderOk(jobs, s, a.w)
    requires forall w, i: nat :: (w, i) in s.results && s.results[(w, i)] ==> w < |jobs| && Logged(jobs, s.log, w, i)
    requires !a.Seek? && !a.Write?
    ensures var t := Apply(jobs, s, a);
            forall w, i: nat :: (w, i) in t.results && t.results[(w, i)] ==> w < |jobs| && Logged(jobs, t.log, w, i)
  {
    var t := Apply(jobs, s, a);
    forall v, i: nat | (v, i) in t.results && t.results[(v, i)]
      ensures v < |jobs| && Logged(jobs, t.log, v, i)
    {
      if (v, i) !in s.results || !s.results[(v, i)] {
        assert s.writers[a.w].phase == Ending(true);
        assert Logged(jobs, s.log, v, i);
      }
    }
  }

  lemma StepKeepsInv(jobs: Jobs, file: seq<Byte>, s: State, a: Action)
    requires Inv(jobs, file, s) && Enabled(jobs, s, a)
    ensures Inv(jobs, file, Apply(jobs, s, a))
  {
    match a
    case Seek(w) => SeekKeepsInv(jobs, file, s, w);
    case Write(w, count) => WriteKeepsInv(jobs, file, s, w, count);
    case _ => QuietKeepsInv(jobs, file, s, a);
  }

  lemma {:induction false} RunKeepsInv(jobs: Jobs, file: seq<Byte>, actions: seq<Action>, t: State)
    requires Run(jobs, Initial(jobs, file), actions) == Some(t)
    ensures Inv(jobs, file, t)
    decreases |actions|
  {
    InitialInv(jobs, file);
    if actions != [] {
      var init, last := actions[..|actions|-1], actions[|actions|-1];
      var m := Run(jobs, Initial(jobs, file), init).value;
      RunKeepsInv(jobs, file, init, m);
      StepKeepsInv(jobs, file, m, last);
    }
  }

  // ---------------------------------------------------------------- which records get into the file

  function LineOf(jobs: Jobs, c: Chunk): Line {
    if c.writer < |jobs| && c.index < |jobs[c.writer]| then jobs[c.writer][c.index] else []
  }

  /** The whole records in the log, in the order in which the lock was taken. */
  function Texts(jobs: Jobs, log: seq<Chunk>, k: nat): seq<Line>
    requires k <= |log|
  {
    if k == 0 then []
    else Texts(jobs, log, k - 1) + if Whole(jobs, log[k - 1]) then [LineOf(jobs, log[k - 1])] else []
  }

  /** Those of one writer. */
  function Projection(jobs: Jobs, log: seq<Chunk>, w: nat, k: nat): seq<Line>
    requires k <= |log|
  {
    if k == 0 then []
    else
      Projection(jobs, log, w, k - 1)
      + if log[k - 1].writer == w && Whole(jobs, log[k - 1]) then [LineOf(jobs, log[k - 1])] else []
  }

  /** How many of its records the writer has dealt with, for good or ill. */
  function Settled(s: State, w: nat): nat
    requires w < |s.writers|
  {
    var phase := s.writers[w].phase;
    s.writers[w].next + if phase.Ending? || (phase.Writing? && phase.rest == []) then 1 else 0
  }

  function From(m: nat, n: nat): (r: set<nat>)
    ensures forall i: nat :: i in r <==> m <= i < n
    decreases n - m
  {
    if m >= n then {} else {m} + From(m + 1, n)
  }

  /** The records that this step keeps out of the file: the lock, the seek or a write is refused, or
      the writer crashes before it is done. */
  function LostBy(jobs: Jobs, s: State, a: Action, w: nat): set<nat>
    requires Enabled(jobs, s, a)
  {
    if a.w != w then {}
    else if a.LockFails? || a.SeekFails? || a.WriteFails? then {s.writers[w].next}
    else if a.Crash? then From(Settled(s, w), |jobs[w]|)
    else {}
  }

  /** All records of a writer that were kept out of the file in a run. */
  function Lost(jobs: Jobs, s: State, actions: seq<Action>, w: nat): set<nat>
    decreases |actions|
  {
    if actions == [] then {}
    else
      var init, last := actions[..|actions|-1], actions[|actions|-1];
      match Run(jobs, s, init)
      case None => {}
      case Some(m) => Lost(jobs, s, init, w) + if Enabled(jobs, m, last) then LostBy(jobs, m, last, w) else {}
  }

  /** The first `n` lines without those that were lost. */
  function Kept(lines: seq<Line>, n: nat, lost: set<nat>): seq<Line>
    requires n <= |lines|
  {
    if n == 0 then [] else Kept(lines, n - 1, lost) + if n - 1 in lost then [] else [lines[n - 1]]
  }

  lemma {:induction false} KeptAgree(lines: seq<Line>, n: nat, a: set<nat>, b: set<nat>)
    requires n <= |lines| && forall i: nat :: i < n ==> (i in a <==> i in b)
    ensures Kept(lines, n, a) == Kept(lines, n, b)
    decreases n
  {
    if n > 0 {
      KeptAgree(lines, n - 1, a, b);
    }
  }

  lemma {:induction false} KeptNoMore(lines: seq<Line>, m: nat, n: nat, lost: set<nat>)
    requires m <= n <= |lines| && forall i: nat :: m <= i < n ==> i in lost
    ensures Kept(lines, n, lost) == Kept(lines, m, lost)
    decreases n
  {
    if m < n {
      KeptNoMore(lines, m, n - 1, lost);
    }
  }

  /** A writer's whole records in the log are those it has dealt with and not lost. */
  ghost predicate InStep(jobs: Jobs, s: State, w: nat, lost: set<nat>)
    requires w < |s.writers| == |jobs|
  {
    && Settled(s, w) <= |jobs[w]| && (forall i: nat :: i in lost ==> i < Settled(s, w))
    && Projection(jobs, s.log, w, |s.log|) == Kept(jobs[w], Settled(s, w), lost)
  }

  lemma {:induction false} SameProjection(jobs: Jobs, a: seq<Chunk>, b: seq<Chunk>, w: nat, k: nat)
    requires k <= |a| && k <= |b| && forall j :: 0 <= j < k ==> a[j] == b[j]
    ensures Projection(jobs, a, w, k) == Projection(jobs, b, w, k)
    ensures Texts(jobs, a, k) == Texts(jobs, b, k)
    decreases k
  {
    if k > 0 {
      SameProjection(jobs, a, b, w, k - 1);
    }
  }

  /** What a step adds to a writer's whole records: the one whose last piece it writes. */
  lemma ProjectionStep(jobs: Jobs, s: State, a: Action, w: nat)
    requires Enabled(jobs, s, a) && w < |jobs| && HolderOk(jobs, s, a.w)
    ensures var t := Apply(jobs, s, a);
            Projection(jobs, t.log, w, |t.log|)
            == Projection(jobs, s.log, w, |s.log|)
               + if a.Write? && a.w == w && a.count == |s.writers[w].phase.rest| then [jobs[w][s.writers[w].next]] else []
  {
    var t := Apply(jobs, s, a);
    match a
    case Seek(_) => SameProjection(jobs, s.log, t.log, w, |s.log|);
    case Write(_, count) =>
      SameProjection(jobs, s.log, t.log, w, |s.log| - 1);
      WriteCompletes(jobs, s, a);
    case _ => assert t.log == s.log;
  }

  lemma WriteCompletes(jobs: Jobs, s: State, a: Action)
    requires a.Write? && Enabled(jobs, s, a) && HolderOk(jobs, s, a.w)
    ensures var t := Apply(jobs, s, a);
            !Whole(jobs, s.log[|s.log|-1]) && t.log[|t.log|-1].writer == a.w
            && t.log[|t.log|-1].index == s.writers[a.w].next < |jobs[a.w]|
            && (Whole(jobs, t.log[|t.log|-1]) <==> a.count == |s.writers[a.w].phase.rest|)
  {
    var last, rest := s.log[|s.log|-1], s.writers[a.w].phase.rest;
    assert |last.written| + |rest| == |last.written + rest|;
    assert rest[..|rest|] == rest;
  }

  lemma InStepStep(jobs: Jobs, s: State, a: Action, w: nat, lost: set<nat>)
    requires Enabled(jobs, s, a) && w < |jobs| && HolderOk(jobs, s, a.w) && InStep(jobs, s, w, lost)
    ensures InStep(jobs, Apply(jobs, s, a), w, lost + LostBy(jobs, s, a, w))
  {
    var t := Apply(jobs, s, a);
    var lost' := lost + LostBy(jobs, s, a, w);
    ProjectionStep(jobs, s, a, w);
    KeptAgree(jobs[w], Settled(s, w), lost, lost');
    KeptGrows(jobs, s, a, w, lost');
  }

  lemma KeptGrows(jobs: Jobs, s: State, a: Action, w: nat, lost: set<nat>)
    requires Enabled(jobs, s, a) && w < |jobs| && HolderOk(jobs, s, a.w) && Settled(s, w) <= |jobs[w]|
    requires forall i: nat :: i >= Settled(s, w) ==> (i in lost <==> i in LostBy(jobs, s, a, w))
    ensures var t := Apply(jobs, s, a);
            && Settled(t, w) <= |jobs[w]| && (forall i: nat :: i >= Settled(t, w) ==> i !in lost)
            && Kept(jobs[w], Settled(t, w), lost)
               == Kept(jobs[w], Settled(s, w), lost)
                  + if a.Write? && a.w == w && a.count == |s.writers[w].phase.rest| then [jobs[w][s.writers[w].next]] else []
  {
    var t := Apply(jobs, s, a);
    if a.Crash? && a.w == w {
      KeptNoMore(jobs[w], Settled(s, w), |jobs[w]|, lost);
    }
  }

  // ---------------------------------------------------------------- fragments

  /** Some of a record, but not all of it. */
  predicate Fragment(jobs: Jobs, c: Chunk) {
    c.written != [] && !Whole(jobs, c)
  }

  /** The step leaves a record half written: a write fails or the writer crashes when some of the
      record is in the file and some is not. */
  predicate Abandons(jobs: Jobs, s: State, a: Action)
    requires Enabled(jobs, s, a)
  {
    var phase, next := s.writers[a.w].phase, s.writers[a.w].next;
    && (a.WriteFails? || a.Crash?) && phase.Writing?
    && next < |jobs[a.w]| && 0 < |phase.rest| < |Record(jobs[a.w][next])|
  }

  predicate Damaged(jobs: Jobs, s: State, actions: seq<Action>)
    decreases |actions|
  {
    actions != []
    && var init, last := actions[..|actions|-1], actions[|actions|-1];
       var m := Run(jobs, s, init);
       m.Some? && (Damaged(jobs, s, init) || (Enabled(jobs, m.value, last) && Abandons(jobs, m.value, last)))
  }

  /** The holder of the lock is writing. */
  predicate Busy(s: State) {
    s.lock.Some? && s.lock.value < |s.writers| && s.writers[s.lock.value].phase.Writing?
  }

  /** The chunks that nobody is going to add to. */
  function ClosedCount(s: State): nat {
    if Busy(s) && s.log != [] then |s.log| - 1 else |s.log|
  }

  ghost predicate HasFragment(jobs: Jobs, log: seq<Chunk>, k: nat)
    requires k <= |log|
  {
    exists j :: 0 <= j < k && Fragment(jobs, log[j])
  }

  lemma FragmentStep(jobs: Jobs, file: seq<Byte>, s: State, a: Action)
    requires Inv(jobs, file, s) && Enabled(jobs, s, a)
    ensures var t := Apply(jobs, s, a);
            HasFragment(jobs, t.log, ClosedCount(t)) <==> HasFragment(jobs, s.log, ClosedCount(s)) || Abandons(jobs, s, a)
  {
    var t := Apply(jobs, s, a);
    ClosedStep(jobs, file, s, a);
    assert forall j :: 0 <= j < ClosedCount(s) ==> t.log[j] == s.log[j];
    if ClosedCount(t) > ClosedCount(s) {
      assert Fragment(jobs, t.log[ClosedCount(s)]) <==> Abandons(jobs, s, a);
    }
  }

  /** Chunks are closed one at a time, and none is changed after that. */
  lemma ClosedStep(jobs: Jobs, file: seq<Byte>, s: State, a: Action)
    requires Inv(jobs, file, s) && Enabled(jobs, s, a)
    ensures var t := Apply(jobs, s, a);
            && ClosedCount(s) <= ClosedCount(t) <= ClosedCount(s) + 1 && ClosedCount(s) <= |t.log|
            && (forall j :: 0 <= j < ClosedCount(s) ==> t.log[j] == s.log[j])
            && (ClosedCount(t) == ClosedCount(s) ==> !Abandons(jobs, s, a))
            && (ClosedCount(t) == ClosedCount(s) + 1 ==> (Fragment(jobs, t.log[ClosedCount(s)]) <==> Abandons(jobs, s, a)))
  {
    assert HolderOk(jobs, s, a.w);
    if s.lock.Some? && s.lock.value < |jobs| {
      assert HolderOk(jobs, s, s.lock.value);
    }
    if s.writers[a.w].phase.Writing? {
      var c, rest := s.log[|s.log|-1], s.writers[a.w].phase.rest;
      assert |c.written| + |rest| == |Record(jobs[c.writer][c.index])|;
      assert rest == [] ==> c.written + rest == c.written;
    }
  }

  // ---------------------------------------------------------------- what every run has kept and lost

  lemma {:induction false} RunIsInStep(jobs: Jobs, file: seq<Byte>, actions: seq<Action>, t: State, w: nat)
    requires Run(jobs, Initial(jobs, file), actions) == Some(t) && w < |jobs|
    ensures Inv(jobs, file, t) && InStep(jobs, t, w, Lost(jobs, Initial(jobs, file), actions, w))
    decreases |actions|
  {
    RunKeepsInv(jobs, file, actions, t);
    if actions != [] {
      var init, last := actions[..|actions|-1], actions[|actions|-1];
      var m := Run(jobs, Initial(jobs, file), init).value;
      RunIsInStep(jobs, file, init, m, w);
      assert HolderOk(jobs, m, last.w);
      InStepStep(jobs, m, last, w, Lost(jobs, Initial(jobs, file), init, w));
    }
  }

  /** A closed chunk is a fragment exactly when some step has left a record half written. */
  lemma {:induction false} FragmentsComeFromDamage(jobs: Jobs, file: seq<Byte>, actions: seq<Action>, t: State)
    requires Run(jobs, Initial(jobs, file), actions) == Some(t)
    ensures HasFragment(jobs, t.log, ClosedCount(t)) <==> Damaged(jobs, Initial(jobs, file), actions)
    decreases |actions|
  {
    if actions != [] {
      var init, last := actions[..|actions|-1], actions[|actions|-1];
      var m := Run(jobs, Initial(jobs, file), init).value;
      FragmentsComeFromDamage(jobs, file, init, m);
      RunKeepsInv(jobs, file, init, m);
      FragmentStep(jobs, file, m, last);
    }
  }

  // ---------------------------------------------------------------- what a reader finds

  predicate AllLines(jobs: Jobs) {
    forall w, i :: 0 <= w < |jobs| && 0 <= i < |jobs[w]| ==> IsLine(jobs[w][i])
  }

  /** What stands after the last line break when `start` did so before the first of the chunks. */
  function OpenText(jobs: Jobs, start: Line, log: seq<Chunk>, k: nat): Line
    requires k <= |log|
  {
    if k == 0 then start
    else if Whole(jobs, log[k - 1]) then [] else OpenText(jobs, start, log, k - 1) + log[k - 1].written
  }

  /** The lines that the chunks make: every whole record ends one, which begins with whatever had been
      left open before it. */
  function Reading(jobs: Jobs, start: Line, log: seq<Chunk>, k: nat): seq<Line>
    requires k <= |log|
  {
    if k == 0 then []
    else
      Reading(jobs, start, log, k - 1)
      + if Whole(jobs, log[k - 1]) then [OpenText(jobs, start, log, k - 1) + LineOf(jobs, log[k - 1])] else []
  }

  lemma OneChunkMore(jobs: Jobs, file: seq<Byte>, c: Chunk, lines: seq<Line>, rest: Line)
    requires AllLines(jobs) && IsPart(jobs, c) && Lines(file) == (lines, rest)
    ensures Lines(file + c.written)
            == if Whole(jobs, c) then (lines + [rest + LineOf(jobs, c)], []) else (lines, rest + c.written)
  {
    if Whole(jobs, c) {
      LinesRecord(file, LineOf(jobs, c));
    } else {
      Beginning(c.written, LineOf(jobs, c));
      LinesText(file, c.written);
    }
  }

  lemma Beginning(part: seq<Byte>, l: Line)
    requires part <= Record(l) && part != Record(l)
    ensures part <= l
  {
  }

  /** How the file of any run reads. */
  lemma {:induction false} LogReads(jobs: Jobs, file: seq<Byte>, log: seq<Chunk>, k: nat)
    requires AllLines(jobs) && k <= |log| && forall j :: 0 <= j < k ==> IsPart(jobs, log[j])
    ensures Lines(file + Flatten(log, k))
            == (Lines(file).0 + Reading(jobs, Lines(file).1, log, k), OpenText(jobs, Lines(file).1, log, k))
    decreases k
  {
    var old', start := Lines(file).0, Lines(file).1;
    if k == 0 {
      assert file + [] == file && old' + [] == old';
    } else {
      LogReads(jobs, file, log, k - 1);
      Assoc(file, Flatten(log, k - 1), log[k - 1].written);
      var before, rest := Reading(jobs, start, log, k - 1), OpenText(jobs, start, log, k - 1);
      OneChunkMore(jobs, file + Flatten(log, k - 1), log[k - 1], old' + before, rest);
      var l := rest + LineOf(jobs, log[k - 1]);
      assert (old' + before) + [l] == old' + (before + [l]);
      assert before + [] == before;
    }
  }

  /** Every run: the file reads as its old lines and the records, each behind what was left open. */
  lemma EveryRunReads(jobs: Jobs, file: seq<Byte>, actions: seq<Action>, t: State)
    requires AllLines(jobs) && Run(jobs, Initial(jobs, file), actions) == Some(t)
    ensures var (lines, start) := Lines(file);
            Lines(t.file) == (lines + Reading(jobs, start, t.log, |t.log|), OpenText(jobs, start, t.log, |t.log|))
  {
    RunKeepsInv(jobs, file, actions, t);
    LogReads(jobs, file, t.log, |t.log|);
  }

  lemma {:induction false} ReadingGrows(jobs: Jobs, start: Line, log: seq<Chunk>, k: nat, n: nat)
    requires k <= n <= |log|
    ensures Reading(jobs, start, log, k) <= Reading(jobs, start, log, n)
    decreases n
  {
    if k < n {
      ReadingGrows(jobs, start, log, k, n - 1);
    }
  }

  /** Nothing is left open before chunk `k` exactly when all that came after the last whole record, or
      the old contents, is empty. */
  lemma {:induction false} NothingOpen(jobs: Jobs, start: Line, log: seq<Chunk>, k: nat)
    requires k <= |log|
    ensures OpenText(jobs, start, log, k) == []
            <==> || (exists j :: 0 <= j < k && Whole(jobs, log[j]) && forall i :: j < i < k ==> log[i].written == [])
                 || (start == [] && forall i :: 0 <= i < k ==> log[i].written == [])
    decreases k
  {
    if k > 0 {
      NothingOpen(jobs, start, log, k - 1);
    }
  }

  /** Every run: a record that was reported as written ends a line, and is that line if and only if
      nothing was left open when it was written. */
  lemma ReportedRecordReads(jobs: Jobs, file: seq<Byte>, actions: seq<Action>, t: State, w: nat, i: nat)
    returns (k: nat, n: nat)
    requires AllLines(jobs) && Run(jobs, Initial(jobs, file), actions) == Some(t)
    requires (w, i) in t.results && t.results[(w, i)]
    ensures k < |t.log| && t.log[k].writer == w < |jobs| && t.log[k].index == i < |jobs[w]| && Whole(jobs, t.log[k])
    ensures n == |Lines(file + Flatten(t.log, k)).0| < |Lines(t.file).0|
    ensures Lines(t.file).0[n] == Lines(file + Flatten(t.log, k)).1 + jobs[w][i]
    ensures Lines(t.file).0[n] == jobs[w][i] <==> Lines(file + Flatten(t.log, k)).1 == []
  {
    RunKeepsInv(jobs, file, actions, t);
    assert Logged(jobs, t.log, w, i);
    k :| 0 <= k < |t.log| && t.log[k].writer == w && t.log[k].index == i && Whole(jobs, t.log[k]);
    n := WholeChunkReads(jobs, file, t.log, k);
  }

  lemma WholeChunkReads(jobs: Jobs, file: seq<Byte>, log: seq<Chunk>, k: nat) returns (n: nat)
    requires AllLines(jobs) && forall j :: 0 <= j < |log| ==> IsPart(jobs, log[j])
    requires k < |log| && Whole(jobs, log[k])
    ensures var before, after := Lines(file + Flatten(log, k)), Lines(file + Flatten(log, |log|));
            && n == |before.0| < |after.0| && after.0[n] == before.1 + LineOf(jobs, log[k])
            && (after.0[n] == LineOf(jobs, log[k]) <==> before.1 == [])
  {
    var start, l := Lines(file).1, LineOf(jobs, log[k]);
    LogReads(jobs, file, log, k);
    LogReads(jobs, file, log, |log|);
    ReadingGrows(jobs, start, log, k + 1, |log|);
    var m := |Reading(jobs, start, log, k)|;
    n := |Lines(file).0| + m;
    assert Reading(jobs, start, log, |log|)[m] == Reading(jobs, start, log, k + 1)[m];
    assert |OpenText(jobs, start, log, k) + l| == |OpenText(jobs, start, log, k)| + |l|;
  }

  /** The number of bytes in the lines, with their line breaks. */
  function Size(lines: seq<Line>): nat {
    if lines == [] then 0 else Size(lines[..|lines|-1]) + |lines[|lines|-1]| + 1
  }

  lemma SizeOneMore(lines: seq<Line>, l: Line)
    ensures Size(lines + [l]) == Size(lines) + |l| + 1
  {
    assert (lines + [l])[..|lines|] == lines;
  }

  lemma {:induction false} SizeConcat(a: seq<Line>, b: seq<Line>)
    ensures Size(a + b) == Size(a) + Size(b)
    decreases |b|
  {
    if b == [] {
      assert a + b == a;
    } else {
      var init, last := b[..|b|-1], b[|b|-1];
      assert a + b == (a + init) + [last] && b == init + [last];
      SizeOneMore(a + init, last);
      SizeConcat(a, init);
    }
  }

  lemma {:induction false} LinesSize(file: seq<Byte>)
    ensures Size(Lines(file).0) + |Lines(file).1| == |file|
  {
    if file != [] {
      LinesSize(file[..|file|-1]);
      var (lines, rest) := Lines(file[..|file|-1]);
      SizeOneMore(lines, rest);
    }
  }

  /** The text of the log is as long as its whole records exactly when nothing in it is a fragment. */
  lemma {:induction false} TextsSize(jobs: Jobs, log: seq<Chunk>, k: nat)
    requires k <= |log|
    ensures |Flatten(log, k)| >= Size(Texts(jobs, log, k))
    ensures |Flatten(log, k)| == Size(Texts(jobs, log, k)) <==> !HasFragment(jobs, log, k)
    decreases k
  {
    if k > 0 {
      TextsSize(jobs, log, k - 1);
      var c := log[k - 1];
      if Whole(jobs, c) {
        SizeOneMore(Texts(jobs, log, k - 1), LineOf(jobs, c));
      } else {
        assert Texts(jobs, log, k) == Texts(jobs, log, k - 1);
      }
      assert HasFragment(jobs, log, k) <==> HasFragment(jobs, log, k - 1) || Fragment(jobs, c);
    }
  }

  lemma {:induction false} WholeLogReads(jobs: Jobs, log: seq<Chunk>, k: nat)
    requires k <= |log| && !HasFragment(jobs, log, k)
    ensures Reading(jobs, [], log, k) == Texts(jobs, log, k) && OpenText(jobs, [], log, k) == []
    decreases k
  {
    if k > 0 {
      assert !Fragment(jobs, log[k - 1]);
      WholeLogReads(jobs, log, k - 1);
      assert [] + LineOf(jobs, log[k - 1]) == LineOf(jobs, log[k - 1]);
    }
  }

  /** Every run: the file reads as its old lines and whole records, and nothing else, if and only if it
      ended in a line break to begin with and holds no fragment now. */
  lemma ReadsAsRecords(jobs: Jobs, file: seq<Byte>, actions: seq<Action>, t: State)
    requires AllLines(jobs) && Run(jobs, Initial(jobs, file), actions) == Some(t)
    ensures Lines(t.file) == (Lines(file).0 + Texts(jobs, t.log, |t.log|), [])
            <==> Lines(file).1 == [] && !HasFragment(jobs, t.log, |t.log|)
  {
    var (lines, start) := Lines(file);
    var n := |t.log|;
    RunKeepsInv(jobs, file, actions, t);
    EveryRunReads(jobs, file, actions, t);
    if start == [] && !HasFragment(jobs, t.log, n) {
      WholeLogReads(jobs, t.log, n);
    }
    LinesSize(file);
    LinesSize(t.file);
    TextsSize(jobs, t.log, n);
    SizeConcat(lines, Texts(jobs, t.log, n));
  }

  /** At every moment of a run in which no record was left half written, whatever else has failed, the
      file is whole records, then at most a beginning of one, and then its writer holds the lock. */
  lemma AtEveryMoment(jobs: Jobs, file: seq<Byte>, actions: seq<Action>, t: State)
    requires AllLines(jobs) && Lines(file).1 == []
    requires Run(jobs, Initial(jobs, file), actions) == Some(t) && !Damaged(jobs, Initial(jobs, file), actions)
    ensures !Busy(t) ==> Lines(t.file) == (Lines(file).0 + Texts(jobs, t.log, |t.log|), [])
    ensures Busy(t) ==>
              && Lines(t.file).0 == Lines(file).0 + Texts(jobs, t.log, |t.log|)
              && |t.writers| == |jobs| && t.writers[t.lock.value].next < |jobs[t.lock.value]|
              && Lines(t.file).1 <= jobs[t.lock.value][t.writers[t.lock.value].next]
  {
    FragmentsComeFromDamage(jobs, file, actions, t);
    RunKeepsInv(jobs, file, actions, t);
    EveryRunReads(jobs, file, actions, t);
    WholeLogReads(jobs, t.log, ClosedCount(t));
    if Busy(t) {
      assert HolderOk(jobs, t, t.lock.value);
      LastChunkReads(jobs, t.log);
    }
  }

  lemma LastChunkReads(jobs: Jobs, log: seq<Chunk>)
    requires log != [] && IsPart(jobs, log[|log|-1]) && !HasFragment(jobs, log, |log| - 1)
    ensures Reading(jobs, [], log, |log|) == Texts(jobs, log, |log|)
    ensures OpenText(jobs, [], log, |log|) <= LineOf(jobs, log[|log|-1])
  {
    var c := log[|log|-1];
    WholeLogReads(jobs, log, |log| - 1);
    assert [] + LineOf(jobs, c) == LineOf(jobs, c) && [] + c.written == c.written;
    if !Whole(jobs, c) {
      Beginning(c.written, LineOf(jobs, c));
    }
  }

  predicate AllDone(jobs: Jobs, s: State) {
    |s.writers| == |jobs| && forall w :: 0 <= w < |jobs| ==> s.writers[w] == Writer(Idle, |jobs[w]|)
  }

  /** When every writer has finished or crashed, the whole records in the file are an interleaving of
      those that were not lost: each exactly once, and those of one writer in their order. And if the
      file ended in a line break, they are what it reads as if and only if none was left half written. */
  lemma RecordsInterleave(jobs: Jobs, file: seq<Byte>, actions: seq<Action>, t: State)
    requires AllLines(jobs) && Run(jobs, Initial(jobs, file), actions) == Some(t) && AllDone(jobs, t)
    ensures forall w :: 0 <= w < |jobs| ==>
              Projection(jobs, t.log, w, |t.log|) == Kept(jobs[w], |jobs[w]|, Lost(jobs, Initial(jobs, file), actions, w))
    ensures forall k :: 0 <= k < |t.log| ==> t.log[k].writer < |jobs|
    ensures Lines(file).1 == [] ==>
              (Lines(t.file) == (Lines(file).0 + Texts(jobs, t.log, |t.log|), [])
               <==> !Damaged(jobs, Initial(jobs, file), actions))
  {
    forall w | 0 <= w < |jobs|
      ensures Projection(jobs, t.log, w, |t.log|) == Kept(jobs[w], |jobs[w]|, Lost(jobs, Initial(jobs, file), actions, w))
    {
      RunIsInStep(jobs, file, actions, t, w);
    }
    EveryRunAppends(jobs, file, actions, t);
    FragmentsComeFromDamage(jobs, file, actions, t);
    ReadsAsRecords(jobs, file, actions, t);
  }

  /** Whatever fails, what is in the file beyond its old contents is a sequence of beginnings of
      records, each record at most once, and a call that reported success has its record there in
      one piece. */
  lemma EveryRunAppends(jobs: Jobs, file: seq<Byte>, actions: seq<Action>, t: State)
    requires Run(jobs, Initial(jobs, file), actions) == Some(t)
    ensures t.file == file + Flatten(t.log, |t.log|)
    ensures forall k :: 0 <= k < |t.log| ==> IsPart(jobs, t.log[k])
    ensures forall w :: 0 <= w < |jobs| ==> Increasing(Indices(t.log, w, |t.log|), |jobs[w]|)
    ensures forall w, i: nat :: (w, i) in t.results && t.results[(w, i)] ==> Logged(jobs, t.log, w, i)
  {
    RunKeepsInv(jobs, file, actions, t);
    forall w | 0 <= w < |jobs|
      ensures Increasing(Indices(t.log, w, |t.log|), |jobs[w]|)
    {
      assert HolderOk(jobs, t, w) && Increasing(Indices(t.log, w, |t.log|), Started(t, w));
    }
  }

  lemma OneMore(jobs: Jobs, s: State, actions: seq<Action>, m: State, a: Action)
    returns (actions': seq<Action>, t: State)
    requires Run(jobs, s, actions) == Some(m) && Enabled(jobs, m, a)
    ensures actions' == actions + [a] && t == Apply(jobs, m, a) && Run(jobs, s, actions') == Some(t)
  {
    actions', t := actions + [a], Apply(jobs, m, a);
    assert actions'[..|actions'|-1] == actions;
  }

  /** The first write of `l` fails after `cut` bytes, and the lock is given back. */
  lemma AbandonedRecord(l: Line, l': Line, cut: nat) returns (actions: seq<Action>, t: State)
    requires 0 < cut <= |l|
    ensures t.file == l[..cut] && t.lock == None && t.writers == [Writer(Idle, 1)] && t.results == map[(0, 0) := false]
    ensures Run([[l, l']], Initial([[l, l']], []), actions) == Some(t)
  {
    var jobs := [[l, l']];
    var s := Initial(jobs, []);
    actions, t := OneMore(jobs, s, [], s, Lock(0));
    actions, t := OneMore(jobs, s, actions, t, Seek(0));
    assert t.writers == [Writer(Writing(0, Record(l)), 0)];
    actions, t := OneMore(jobs, s, actions, t, Write(0, cut));
    assert t.file == l[..cut] by { assert Record(l)[..cut] == l[..cut]; }
    assert t.writers == [Writer(Writing(cut, Record(l)[cut..]), 0)];
    actions, t := OneMore(jobs, s, actions, t, WriteFails(0));
    assert t.writers == [Writer(Ending(false), 0)];
    actions, t := OneMore(jobs, s, actions, t, Unlock(0));
    assert t.writers == [Writer(Idle, 1)];
  }

  /** It does happen: whatever the two records are, there is a run in which a write of the first fails,
      the second is reported as written, and yet it is no line of the file, because it follows the
      abandoned beginning of the first. */
  lemma FailedWriteSpoilsTheNextRecord(l: Line, l': Line, cut: nat) returns (actions: seq<Action>, t: State)
    requires 0 < cut <= |l| && IsLine(l) && IsLine(l')
    ensures Run([[l, l']], Initial([[l, l']], []), actions) == Some(t)
    ensures (0, 1) in t.results && t.results[(0, 1)]
    ensures Lines(t.file) == ([l[..cut] + l'], []) && l' !in Lines(t.file).0
  {
    var jobs := [[l, l']];
    var s := Initial(jobs, []);
    actions, t := AbandonedRecord(l, l', cut);
    actions, t := OneMore(jobs, s, actions, t, Lock(0));
    actions, t := OneMore(jobs, s, actions, t, Seek(0));
    assert t.writers == [Writer(Writing(cut, Record(l')), 1)];
    actions, t := OneMore(jobs, s, actions, t, Write(0, |Record(l')|));
    assert t.file == l[..cut] + Record(l') by { assert Record(l')[..|Record(l')|] == Record(l'); }
    assert t.writers == [Writer(Writing(cut + |Record(l')|, []), 1)] by { assert Record(l')[|Record(l')|..] == []; }
    actions, t := OneMore(jobs, s, actions, t, Flush(0));
    actions, t := OneMore(jobs, s, actions, t, Unlock(0));
    SpoiltLines(l[..cut], l');
  }

  lemma SpoiltLines(abandoned: Line, next: Line)
    requires IsLine(abandoned) && IsLine(next) && abandoned != []
    ensures Lines(abandoned + Record(next)) == ([abandoned + next], []) && next !in [abandoned + next]
  {
    LinesText([], abandoned);
    assert [] + abandoned == abandoned;
    var none: seq<Line> := [];
    assert Lines(abandoned) == (none, abandoned);
    LinesRecord(abandoned, next);
    assert none + [abandoned + next] == [abandoned + next];
    assert |abandoned + next| > |next|;
  }

  // ---------------------------------------------------------------- one call

  /** The shared log file, as one process that has it open sees it. `refuse` decides which calls
      fail, `taken` how much each write takes. */
  class AuditFile {
    var bytes: seq<Byte>
    var lock: Option<nat>
    var position: nat
    var clock: nat
    const refuse: nat -> bool
    const taken: nat -> nat

    constructor (bytes: seq<Byte>, refuse: nat -> bool, taken: nat -> nat)
      ensures this.bytes == bytes && lock == None && clock == 0
      ensures this.refuse == refuse && this.taken == taken
    {
      this.bytes, lock, position, clock := bytes, None, 0, 0;
      this.refuse, this.taken := refuse, taken;
    }

    /** `write_all`: writes until nothing is left or a write fails. */
    method WriteAll(data: seq<Byte>) returns (ok: bool)
      requires lock.Some? && position == |bytes|
      modifies this`bytes, this`position, this`clock
      ensures position == |bytes| && clock >= old(clock)
      ensures exists n: nat :: n <= |data| && bytes == old(bytes) + data[..n]
      ensures ok ==> bytes == old(bytes) + data
      ensures (forall t :: t >= old(clock) ==> !refuse(t)) ==> ok
    {
      var k := 0;
      assert data[..0] == [];
      while k < |data|
        invariant 0 <= k <= |data| && position == |bytes| && bytes == old(bytes) + data[..k]
        invariant clock >= old(clock)
      {
        clock := clock + 1;
        if refuse(clock - 1) {
          return false;
        }
        var n := if 0 < taken(clock - 1) <= |data| - k then taken(clock - 1) else |data| - k;
        assert data[..k + n] == data[..k] + data[k..k + n];
        bytes := WriteAt(bytes, position, data[k..k + n]);
        position := position + n;
        k := k + n;
      }
      assert data[..k] == data;
      ok := true;
    }

    /** `try_write_record` once the lock is granted. The text and the line break are written
        separately. */
    method TryWriteRecord(w: nat, line: Line) returns (ok: bool)
      requires lock == None
      modifies this
      ensures exists n: nat :: n <= |Record(line)| && bytes == old(bytes) + Record(line)[..n]
      ensures ok ==> bytes == old(bytes) + Record(line) && lock == None
      ensures lock == None || (lock == Some(w) && !ok)
      ensures old(forall t :: t >= clock ==> !refuse(t)) ==> ok
    {
      assert bytes == bytes + Record(line)[..0];
      clock := clock + 1;
      if refuse(clock - 1) {
        return false;
      }
      lock := Some(w);
      var written := WriteLocked(line);
      clock := clock + 1;
      var unlocked := !refuse(clock - 1);
      if unlocked {
        lock := None;
      }
      ok := FinishLockedWrite(written, unlocked);
    }

    /** Nothing is written without the lock. */
    method WriteLocked(line: Line) returns (ok: bool)
      requires lock.Some?
      modifies this`bytes, this`position, this`clock
      ensures clock >= old(clock)
      ensures exists n: nat :: n <= |Record(line)| && bytes == old(bytes) + Record(line)[..n]
      ensures ok ==> bytes == old(bytes) + Record(line)
      ensures old(forall t :: t >= clock ==> !refuse(t)) ==> ok
    {
      assert bytes == bytes + Record(line)[..0];
      clock := clock + 1;
      if refuse(clock - 1) {
        return false;
      }
      position := |bytes|;
      ghost var before := bytes;
      ok := WriteAll(line);
      if !ok {
        ghost var n: nat :| n <= |line| && bytes == before + line[..n];
        assert line[..n] == Record(line)[..n];
        return;
      }
      ghost var middle := bytes;
      ok := WriteAll([NEWLINE]);
      ghost var n: nat :| n <= 1 && bytes == middle + [NEWLINE][..n];
      assert bytes == before + Record(line)[..|line| + n];
      if !ok {
        return;
      }
      clock := clock + 1;
      ok := !refuse(clock - 1);
    }
  }
}
