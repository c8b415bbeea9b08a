/** Binding a program by inode and fingerprint while the file system may change at any moment
    (crates/omne-execution-gateway/src/gateway.rs). On Linux the program is held open and started through its
    descriptor, elsewhere it is started by its path. */
module ProgramBinding {
  import opened Wrappers
  import opened Filesystem

  type Path = string
  type Digest = nat

  const READ_SIZE: nat := 8192

  /** Everything that the outside world decides, as a function of time. Nothing relates one moment to
      the next: between any two calls anything may have been renamed, replaced or rewritten. Only an
      open file stays the inode it was opened on. */
  datatype Environment = Environment(
    canonical: (nat, Path) -> Option<Path>,
    names: (nat, Path) -> Option<Ino>,
    regular: (nat, Ino) -> bool,
    runnable: (nat, Path) -> bool,
    bytes: (nat, Ino) -> seq<Byte>,
    refuse: nat -> bool,
    digest: seq<Byte> -> Digest)

  const MAX_FILE_SIZE: nat := 0x7FFF_FFFF_FFFF_FFFF

  /** No file is larger than a file can be. */
  ghost predicate Bounded(env: Environment) {
    forall t, i :: |env.bytes(t, i)| <= MAX_FILE_SIZE
  }

  datatype BindError = ProgramPathInvalid | PathIdentityUnavailable | RequestPathChanged | Spawn

  /** A program path with what was found there; `executable` is the open descriptor, on Linux. */
  datatype BoundProgram = BoundProgram(path: Path, identity: Ino, fingerprint: Digest, executable: Option<Ino>)

  // ---------------------------------------------------------------- reading while the file changes

  /** `data` was read from inode `i` piece by piece, at moments from `from` on and before `to`: each
      piece is what the file held at that place at that moment, and at last nothing was left. */
  ghost predicate ReadBetween(env: Environment, i: Ino, data: seq<Byte>, from: nat, to: nat) {
    exists end: nat :: from <= end < to && |env.bytes(end, i)| <= |data| && PiecesFrom(env, i, data, |data|, from, end)
  }

  /** The first `n` bytes of `data` were read before `now`. */
  ghost predicate PiecesFrom(env: Environment, i: Ino, data: seq<Byte>, n: nat, from: nat, now: nat)
    decreases n
  {
    n <= |data| &&
    (n == 0
     || exists m: nat, t: nat ::
          m < n && from <= t < now && n <= |env.bytes(t, i)| && env.bytes(t, i)[m..n] == data[m..n]
          && PiecesFrom(env, i, data, m, from, t))
  }

  lemma {:induction false} PiecesMore(env: Environment, i: Ino, data: seq<Byte>, more: seq<Byte>, n: nat, from: nat,
      now: nat)
    requires PiecesFrom(env, i, data, n, from, now)
    ensures PiecesFrom(env, i, data + more, n, from, now)
    decreases n
  {
    if n > 0 {
      var m: nat, t: nat :| m < n && from <= t < now && n <= |env.bytes(t, i)| && env.bytes(t, i)[m..n] == data[m..n]
                            && PiecesFrom(env, i, data, m, from, t);
      PiecesMore(env, i, data, more, m, from, t);
      assert (data + more)[m..n] == data[m..n];
    }
  }

  /** A file that nobody writes to meanwhile is read as it is. */
  lemma StableRead(env: Environment, i: Ino, data: seq<Byte>, from: nat, to: nat, content: seq<Byte>)
    requires ReadBetween(env, i, data, from, to)
    requires forall t :: from <= t < to ==> env.bytes(t, i) == content
    ensures data == content
  {
    var end: nat :| from <= end < to && |env.bytes(end, i)| <= |data| && PiecesFrom(env, i, data, |data|, from, end);
    StablePieces(env, i, data, |data|, from, end, content);
    assert data[..|data|] == data && content[..|data|] == content;
  }

  lemma {:induction false} StablePieces(env: Environment, i: Ino, data: seq<Byte>, n: nat, from: nat, now: nat,
      content: seq<Byte>)
    requires PiecesFrom(env, i, data, n, from, now)
    requires forall t :: from <= t < now ==> env.bytes(t, i) == content
    ensures n <= |content| && data[..n] == content[..n]
    decreases n
  {
    if n > 0 {
      var m: nat, t: nat :| m < n && from <= t < now && n <= |env.bytes(t, i)| && env.bytes(t, i)[m..n] == data[m..n]
                            && PiecesFrom(env, i, data, m, from, t);
      StablePieces(env, i, data, m, from, t, content);
      assert data[..n] == data[..m] + data[m..n];
      assert content[..n] == content[..m] + content[m..n];
    }
  }

  // ---------------------------------------------------------------- a world that holds still

  /** The inode is never written to, and no call is refused. */
  ghost predicate Steady(env: Environment, i: Ino) {
    (forall t :: !env.refuse(t)) && forall t :: env.bytes(t, i) == env.bytes(0, i)
  }

  /** Until `last` the path is its own canonical form and names one inode, a steady program. */
  ghost predicate Calm(env: Environment, path: Path, last: nat) {
    && env.names(0, path).Some? && Steady(env, env.names(0, path).value)
    && (forall t :: env.canonical(t, path) == Some(path) && env.runnable(t, path))
    && (forall t :: env.regular(t, env.names(0, path).value))
    && (forall t: nat :: t < last ==> env.names(t, path) == env.names(0, path))
  }

  /** How many reads it takes to find the end of a file with `left` bytes to go. */
  function Turns(left: nat): (n: nat)
    ensures n > 0
  {
    if left <= READ_SIZE then if left == 0 then 1 else 2 else 1 + Turns(left - READ_SIZE)
  }

  /** How many reads it takes to fingerprint what the path names. */
  ghost function Cost(env: Environment, path: Path): nat {
    if env.names(0, path).Some? then Turns(|env.bytes(0, env.names(0, path).value)|) else 0
  }

  // ---------------------------------------------------------------- system calls

  class Kernel {
    const env: Environment
    var clock: nat

    constructor (env: Environment)
      ensures this.env == env && clock == 0
    {
      this.env, clock := env, 0;
    }

    method Canonicalize(path: Path) returns (r: Option<Path>)
      modifies this
      ensures clock == old(clock) + 1
      ensures r == if env.refuse(old(clock)) then None else env.canonical(old(clock), path)
    {
      clock := clock + 1;
      r := if env.refuse(clock - 1) then None else env.canonical(clock - 1, path);
    }

    /** `None` when the path leads nowhere. */
    method IsRegularFile(path: Path) returns (r: Option<bool>)
      modifies this
      ensures clock == old(clock) + 1
      ensures r.Some? ==> env.names(old(clock), path).Some? && r.value == env.regular(old(clock), env.names(old(clock), path).value)
      ensures r.None? ==> env.refuse(old(clock)) || env.names(old(clock), path).None?
    {
      clock := clock + 1;
      var i := env.names(clock - 1, path);
      r := if env.refuse(clock - 1) || i == None then None else Some(env.regular(clock - 1, i.value));
    }

    method IsSpawnable(path: Path) returns (r: bool)
      modifies this
      ensures clock == old(clock) + 1 && r == env.runnable(old(clock), path)
    {
      clock := clock + 1;
      r := env.runnable(clock - 1, path);
    }

    method Open(path: Path) returns (r: Option<Ino>)
      modifies this
      ensures clock == old(clock) + 1
      ensures r.Some? ==> env.names(old(clock), path) == r
      ensures r.None? ==> env.refuse(old(clock)) || env.names(old(clock), path).None?
    {
      clock := clock + 1;
      r := if env.refuse(clock - 1) then None else env.names(clock - 1, path);
    }

    /** Opening `/proc/self/fd/n` opens the inode that the descriptor is open on. */
    method Reopen(descriptor: Ino) returns (r: Option<Ino>)
      modifies this
      ensures clock == old(clock) + 1
      ensures r.Some? ==> r.value == descriptor
      ensures r.None? ==> env.refuse(old(clock))
    {
      clock := clock + 1;
      r := if env.refuse(clock - 1) then None else Some(descriptor);
    }

    /** `set_linux_fd_inheritable`. */
    method SetInheritable(descriptor: Ino) returns (ok: bool)
      modifies this
      ensures clock == old(clock) + 1 && (ok <==> !env.refuse(old(clock)))
    {
      clock := clock + 1;
      ok := !env.refuse(clock - 1);
    }

    /** The loop of `fingerprint_program_contents`. */
    method FingerprintOpen(i: Ino) returns (r: Result<Digest, BindError>, ghost data: seq<Byte>)
      requires Bounded(env)
      modifies this
      ensures clock > old(clock)
      ensures r.Ok? ==> r.value == env.digest(data) && ReadBetween(env, i, data, old(clock), clock)
      ensures r.Err? ==> r.error.ProgramPathInvalid?
      ensures Steady(env, i) ==>
                r == Ok(env.digest(env.bytes(0, i))) && clock == old(clock) + Turns(|env.bytes(0, i)|)
    {
      var read: seq<Byte> := [];
      while true
        invariant |read| <= MAX_FILE_SIZE && clock >= old(clock)
        invariant PiecesFrom(env, i, read, |read|, old(clock), clock)
        invariant Steady(env, i) ==>
                    |read| <= |env.bytes(0, i)| && clock + Turns(|env.bytes(0, i)| - |read|) == old(clock) + Turns(|env.bytes(0, i)|)
        decreases MAX_FILE_SIZE - |read|
      {
        clock := clock + 1;
        if env.refuse(clock - 1) {
          return Err(ProgramPathInvalid), [];
        }
        var content := env.bytes(clock - 1, i);
        if |content| <= |read| {
          break;
        }
        read := ReadPiece(env, i, read, content, old(clock), clock - 1);
      }
      data := read;
      r := Ok(env.digest(read));
      SteadyRead(env, i, data, old(clock), clock);
    }
  }

  /** One turn of the loop: the next piece of the contents at the moment `now`. */
  method ReadPiece(env: Environment, i: Ino, read: seq<Byte>, content: seq<Byte>, ghost from: nat, ghost now: nat)
    returns (r: seq<Byte>)
    requires PiecesFrom(env, i, read, |read|, from, now) && from <= now && content == env.bytes(now, i)
    requires |read| < |content|
    ensures |r| == (if |content| - |read| < READ_SIZE then |content| else |read| + READ_SIZE) && read <= r
    ensures PiecesFrom(env, i, r, |r|, from, now + 1)
  {
    var n := if |content| - |read| < READ_SIZE then |content| else |read| + READ_SIZE;
    ReadOn(env, i, read, n, from, now);
    r := read + content[|read|..n];
  }

  lemma SteadyRead(env: Environment, i: Ino, data: seq<Byte>, from: nat, to: nat)
    requires ReadBetween(env, i, data, from, to)
    ensures Steady(env, i) ==> data == env.bytes(0, i)
  {
    if Steady(env, i) {
      StableRead(env, i, data, from, to, env.bytes(0, i));
    }
  }

  lemma ReadOn(env: Environment, i: Ino, read: seq<Byte>, n: nat, from: nat, now: nat)
    requires PiecesFrom(env, i, read, |read|, from, now) && from <= now && |read| < n <= |env.bytes(now, i)|
    ensures PiecesFrom(env, i, read + env.bytes(now, i)[|read|..n], n, from, now + 1)
  {
    var data := read + env.bytes(now, i)[|read|..n];
    PiecesMore(env, i, read, env.bytes(now, i)[|read|..n], |read|, from, now);
    assert data[|read|..n] == env.bytes(now, i)[|read|..n];
  }

  // ---------------------------------------------------------------- binding

  /** At some moment in between, the path named the inode. */
  ghost predicate NamedBetween(env: Environment, path: Path, i: Ino, from: nat, to: nat) {
    exists t: nat :: from <= t < to && env.names(t, path) == Some(i)
  }

  /** Some reading of the inode in between had this digest. */
  ghost predicate DigestedBetween(env: Environment, i: Ino, fingerprint: Digest, from: nat, to: nat) {
    exists data: seq<Byte>, a: nat, b: nat ::
      from <= a <= b <= to && ReadBetween(env, i, data, a, b) && env.digest(data) == fingerprint
  }

  /** Some reading through the path in between had this digest. */
  ghost predicate PathDigestedBetween(env: Environment, path: Path, fingerprint: Digest, from: nat, to: nat) {
    exists i: Ino :: NamedBetween(env, path, i, from, to) && DigestedBetween(env, i, fingerprint, from, to)
  }

  /** What the checks have seen between two moments: the path led to the bound inode and read as the
      bound fingerprint, and so did the descriptor, if there is one. */
  ghost predicate Verified(env: Environment, p: BoundProgram, from: nat, to: nat) {
    && NamedBetween(env, p.path, p.identity, from, to)
    && PathDigestedBetween(env, p.path, p.fingerprint, from, to)
    && (p.executable.Some? ==>
          p.executable.value == p.identity && DigestedBetween(env, p.identity, p.fingerprint, from, to))
  }

  /** `fingerprint_program_contents` through a path. */
  method FingerprintPath(kernel: Kernel, path: Path) returns (r: Result<Digest, BindError>)
    requires Bounded(kernel.env)
    modifies kernel
    ensures kernel.clock >= old(kernel.clock)
    ensures r.Ok? ==> PathDigestedBetween(kernel.env, path, r.value, old(kernel.clock), kernel.clock)
    ensures forall last: nat :: old(kernel.clock) < last && Calm(kernel.env, path, last) ==>
              && r == Ok(kernel.env.digest(kernel.env.bytes(0, kernel.env.names(0, path).value)))
              && kernel.clock == old(kernel.clock) + 1 + Cost(kernel.env, path)
  {
    var file := kernel.Open(path);
    if file == None {
      return Err(ProgramPathInvalid);
    }
    ghost var a := kernel.clock;
    ghost var data;
    r, data := kernel.FingerprintOpen(file.value);
    if r.Ok? {
      assert NamedBetween(kernel.env, path, file.value, old(kernel.clock), kernel.clock);
      assert DigestedBetween(kernel.env, file.value, r.value, old(kernel.clock), kernel.clock);
    }
  }

  /** The same through `/proc/self/fd`. */
  method FingerprintDescriptor(kernel: Kernel, descriptor: Ino) returns (r: Result<Digest, BindError>)
    requires Bounded(kernel.env)
    modifies kernel
    ensures kernel.clock >= old(kernel.clock)
    ensures r.Ok? ==> DigestedBetween(kernel.env, descriptor, r.value, old(kernel.clock), kernel.clock)
    ensures Steady(kernel.env, descriptor) ==>
              && r == Ok(kernel.env.digest(kernel.env.bytes(0, descriptor)))
              && kernel.clock == old(kernel.clock) + 1 + Turns(|kernel.env.bytes(0, descriptor)|)
  {
    var file := kernel.Reopen(descriptor);
    if file == None {
      return Err(ProgramPathInvalid);
    }
    ghost var a := kernel.clock;
    ghost var data;
    r, data := kernel.FingerprintOpen(file.value);
  }

  lemma Widen(env: Environment, path: Path, i: Ino, fingerprint: Digest, from: nat, to: nat, from': nat, to': nat)
    requires from' <= from && to <= to'
    ensures NamedBetween(env, path, i, from, to) ==> NamedBetween(env, path, i, from', to')
    ensures DigestedBetween(env, i, fingerprint, from, to) ==> DigestedBetween(env, i, fingerprint, from', to')
  {
    if DigestedBetween(env, i, fingerprint, from, to) {
      var data: seq<Byte>, a: nat, b: nat :|
        from <= a <= b <= to && ReadBetween(env, i, data, a, b) && env.digest(data) == fingerprint;
      assert from' <= a <= b <= to' && ReadBetween(env, i, data, a, b);
    }
  }

  lemma WidenPath(env: Environment, path: Path, fingerprint: Digest, from: nat, to: nat, from': nat, to': nat)
    requires from' <= from && to <= to' && PathDigestedBetween(env, path, fingerprint, from, to)
    ensures PathDigestedBetween(env, path, fingerprint, from', to')
  {
    var i: Ino :| NamedBetween(env, path, i, from, to) && DigestedBetween(env, i, fingerprint, from, to);
    Widen(env, path, i, fingerprint, from, to, from', to');
  }

  /** `bind_linux_program_executable`. */
  method BindExecutable(kernel: Kernel, path: Path, identity: Ino, fingerprint: Digest)
    returns (r: Result<Ino, BindError>)
    requires Bounded(kernel.env)
    modifies kernel
    ensures kernel.clock >= old(kernel.clock)
    ensures r.Ok? ==>
              r.value == identity && DigestedBetween(kernel.env, identity, fingerprint, old(kernel.clock), kernel.clock)
    ensures forall last: nat ::
              && old(kernel.clock) < last && Calm(kernel.env, path, last) && kernel.env.names(0, path) == Some(identity)
              && fingerprint == kernel.env.digest(kernel.env.bytes(0, identity))
              ==> r == Ok(identity) && kernel.clock == old(kernel.clock) + 3 + Cost(kernel.env, path)
  {
    ghost var from := kernel.clock;
    var file := kernel.Open(path);
    if file == None {
      return Err(ProgramPathInvalid);
    }
    var bound := kernel.Reopen(file.value);
    if bound == None {
      return Err(PathIdentityUnavailable);
    }
    if bound.value != identity {
      return Err(RequestPathChanged);
    }
    ghost var a := kernel.clock;
    var current := FingerprintDescriptor(kernel, file.value);
    if current.Err? {
      return Err(current.error);
    }
    if current.value != fingerprint {
      return Err(RequestPathChanged);
    }
    Widen(kernel.env, path, identity, fingerprint, a, kernel.clock, from, kernel.clock);
    r := Ok(file.value);
  }

  /** `bind_absolute_program_path`. */
  method BindProgram(kernel: Kernel, requested: Path, linux: bool) returns (r: Result<BoundProgram, BindError>)
    requires Bounded(kernel.env)
    modifies kernel
    ensures kernel.clock >= old(kernel.clock)
    ensures r.Ok? ==>
              Verified(kernel.env, r.value, old(kernel.clock), kernel.clock) && r.value.executable.Some? == linux
    ensures forall last: nat ::
              old(kernel.clock) + 5 + Cost(kernel.env, requested) < last && Calm(kernel.env, requested, last) ==>
                && r.Ok? && CalmlyBound(kernel.env, requested, r.value, linux)
                && kernel.clock == old(kernel.clock) + BindCost(kernel.env, requested, linux)
  {
    ghost var from := kernel.clock;
    var canonical := kernel.Canonicalize(requested);
    if canonical == None {
      return Err(ProgramPathInvalid);
    }
    var path := canonical.value;
    var regular := kernel.IsRegularFile(path);
    if regular != Some(true) {
      return Err(ProgramPathInvalid);
    }
    var spawnable := kernel.IsSpawnable(path);
    if !spawnable {
      return Err(ProgramPathInvalid);
    }
    var identity := kernel.Open(path);
    if identity == None {
      return Err(PathIdentityUnavailable);
    }
    ghost var a := kernel.clock;
    assert NamedBetween(kernel.env, path, identity.value, from, a);
    var fingerprint := FingerprintPath(kernel, path);
    if fingerprint.Err? {
      return Err(fingerprint.error);
    }
    ghost var b := kernel.clock;
    var executable: Option<Ino> := None;
    if linux {
      var opened' := BindExecutable(kernel, path, identity.value, fingerprint.value);
      if opened'.Err? {
        return Err(opened'.error);
      }
      executable := Some(opened'.value);
    }
    Widen(kernel.env, path, identity.value, fingerprint.value, from, a, from, kernel.clock);
    Widen(kernel.env, path, identity.value, fingerprint.value, b, kernel.clock, from, kernel.clock);
    WidenPath(kernel.env, path, fingerprint.value, a, b, from, kernel.clock);
    r := Ok(BoundProgram(path, identity.value, fingerprint.value, executable));
  }

  /** What a calm world is bound to. */
  ghost predicate CalmlyBound(env: Environment, path: Path, p: BoundProgram, linux: bool) {
    && env.names(0, path).Some? && p.path == path && p.identity == env.names(0, path).value
    && p.fingerprint == env.digest(env.bytes(0, p.identity))
    && p.executable == if linux then Some(p.identity) else None
  }

  /** How many calls it takes to bind a program. */
  ghost function BindCost(env: Environment, path: Path, linux: bool): nat {
    5 + Cost(env, path) + if linux then 3 + Cost(env, path) else 0
  }

  /** How many it takes to check it again. */
  ghost function CheckCost(env: Environment, path: Path, linux: bool): nat {
    4 + Cost(env, path) + if linux then 3 + Cost(env, path) else 0
  }

  // ---------------------------------------------------------------- revalidation

  /** `revalidate_bound_program`, with `revalidate_linux_bound_program_executable` at its end. The path
      named the bound inode at the moment `seen`. */
  method RevalidateProgram(kernel: Kernel, program: BoundProgram) returns (r: Result<(), BindError>, ghost seen: nat)
    requires Bounded(kernel.env)
    modifies kernel
    ensures kernel.clock >= old(kernel.clock)
    ensures r.Ok? ==> Verified(kernel.env, program, old(kernel.clock), kernel.clock)
    ensures r.Ok? ==>
              old(kernel.clock) <= seen < kernel.clock && kernel.env.names(seen, program.path) == Some(program.identity)
    ensures forall last: nat, linux: bool ::
              && old(kernel.clock) + 3 < last && Calm(kernel.env, program.path, last)
              && CalmlyBound(kernel.env, program.path, program, linux)
              ==> r.Ok? && kernel.clock == old(kernel.clock) + CheckCost(kernel.env, program.path, linux)
  {
    ghost var from := kernel.clock;
    seen := from;
    var regular := kernel.IsRegularFile(program.path);
    if regular != Some(true) {
      return Err(RequestPathChanged), seen;
    }
    var spawnable := kernel.IsSpawnable(program.path);
    if !spawnable {
      return Err(RequestPathChanged), seen;
    }
    seen := kernel.clock;
    var identity := kernel.Open(program.path);
    if identity == None {
      return Err(PathIdentityUnavailable), seen;
    }
    if identity.value != program.identity {
      return Err(RequestPathChanged), seen;
    }
    ghost var a := kernel.clock;
    assert NamedBetween(kernel.env, program.path, program.identity, from, a);
    var fingerprint := FingerprintPath(kernel, program.path);
    if fingerprint.Err? {
      return Err(fingerprint.error), seen;
    }
    if fingerprint.value != program.fingerprint {
      return Err(RequestPathChanged), seen;
    }
    ghost var b := kernel.clock;
    r := Ok(());
    if program.executable.Some? {
      r := RevalidateExecutable(kernel, program, program.executable.value);
    }
    if r.Ok? {
      Widen(kernel.env, program.path, program.identity, program.fingerprint, from, a, from, kernel.clock);
      Widen(kernel.env, program.path, program.identity, program.fingerprint, b, kernel.clock, from, kernel.clock);
      WidenPath(kernel.env, program.path, program.fingerprint, a, b, from, kernel.clock);
    }
  }

  method RevalidateExecutable(kernel: Kernel, program: BoundProgram, executable: Ino) returns (r: Result<(), BindError>)
    requires Bounded(kernel.env)
    modifies kernel
    ensures kernel.clock >= old(kernel.clock)
    ensures r.Ok? ==> executable == program.identity
                      && DigestedBetween(kernel.env, executable, program.fingerprint, old(kernel.clock), kernel.clock)
    ensures Steady(kernel.env, executable) && executable == program.identity
            && program.fingerprint == kernel.env.digest(kernel.env.bytes(0, executable)) ==>
              r == Ok(()) && kernel.clock == old(kernel.clock) + 3 + Turns(|kernel.env.bytes(0, executable)|)
  {
    ghost var from := kernel.clock;
    var current := kernel.Reopen(executable);
    if current == None {
      return Err(PathIdentityUnavailable);
    }
    if current.value != program.identity {
      return Err(RequestPathChanged);
    }
    ghost var a := kernel.clock;
    var fingerprint := FingerprintDescriptor(kernel, executable);
    if fingerprint.Err? {
      return Err(fingerprint.error);
    }
    if fingerprint.value != program.fingerprint {
      return Err(RequestPathChanged);
    }
    var inheritable := kernel.SetInheritable(executable);
    if !inheritable {
      return Err(ProgramPathInvalid);
    }
    Widen(kernel.env, program.path, executable, program.fingerprint, a, kernel.clock, from, kernel.clock);
    r := Ok(());
  }

  // ---------------------------------------------------------------- execution

  /** On Linux the command is started through the descriptor; elsewhere through the path. The result
      is the inode that runs. */
  method Start(kernel: Kernel, program: BoundProgram) returns (r: Result<Ino, BindError>)
    modifies kernel
    ensures kernel.clock == old(kernel.clock) + 1
    ensures r.Ok? && program.executable.Some? ==> r.value == program.executable.value
    ensures r.Ok? && program.executable.None? ==> kernel.env.names(old(kernel.clock), program.path) == Some(r.value)
    ensures r.Err? ==> kernel.env.refuse(old(kernel.clock))
                       || (program.executable.None? && kernel.env.names(old(kernel.clock), program.path).None?)
  {
    var started;
    if program.executable.Some? {
      started := kernel.Reopen(program.executable.value);
    } else {
      started := kernel.Open(program.path);
    }
    r := match started case Some(i) => Ok(i) case None => Err(Spawn);
  }

  /** Bind, revalidate and start, with the world changing in between as it likes. What runs is the
      inode that the path named when it was bound, whose content had the bound fingerprint both then
      and at revalidation, if and only if it is started by descriptor or the path names that inode still
      when it is opened to be run. */
  method PrepareAndRun(kernel: Kernel, requested: Path, linux: bool)
    returns (r: Result<Ino, BindError>, ghost program: Option<BoundProgram>, ghost times: Times)
    requires Bounded(kernel.env)
    modifies kernel
    ensures old(kernel.clock) <= times.bound <= times.seen <= times.checked <= kernel.clock
    ensures program.Some? ==> && Verified(kernel.env, program.value, old(kernel.clock), times.bound)
                              && Verified(kernel.env, program.value, times.bound, times.checked)
                              && kernel.env.names(times.seen, program.value.path) == Some(program.value.identity)
                              && times.checked + 1 == kernel.clock
    ensures r.Ok? ==> program.Some?
    ensures r.Ok? ==> (r.value == program.value.identity
                       <==> linux || kernel.env.names(times.checked, program.value.path) == Some(program.value.identity))
    ensures r.Ok? && (forall t :: times.seen <= t < kernel.clock ==>
                        kernel.env.names(t, program.value.path) == kernel.env.names(times.seen, program.value.path))
            ==> r.value == program.value.identity
    ensures forall last: nat ::
              && Calm(kernel.env, requested, last)
              && last == old(kernel.clock) + BindCost(kernel.env, requested, linux)
                         + CheckCost(kernel.env, requested, linux) ==>
                && program.Some? && CalmlyBound(kernel.env, requested, program.value, linux) && times.checked == last
                && (linux ==> r == Ok(kernel.env.names(0, requested).value))
                && (!linux && kernel.env.names(last, requested).Some? ==>
                      r == Ok(kernel.env.names(last, requested).value))
  {
    program, times := None, Times(kernel.clock, kernel.clock, kernel.clock);
    var p := BindProgram(kernel, requested, linux);
    times := Times(kernel.clock, kernel.clock, kernel.clock);
    if p.Err? {
      return Err(p.error), None, times;
    }
    ghost var bound := kernel.clock;
    var valid;
    ghost var seen;
    valid, seen := RevalidateProgram(kernel, p.value);
    if valid.Err? {
      return Err(valid.error), None, Times(bound, bound, bound);
    }
    times := Times(bound, seen, kernel.clock);
    program := Some(p.value);
    r := Start(kernel, p.value);
  }

  /** When binding was done, when the path was last found to name the bound inode, and when all checks
      were done. */
  datatype Times = Times(bound: nat, seen: nat, checked: nat)

  /** If nobody writes to the executable or moves it while it is being checked, and the digest tells
      contents apart, then the content checked last is the content that was bound. */
  lemma UnchangedContent(env: Environment, p: BoundProgram, from: nat, to: nat, from': nat, to': nat,
      before: seq<Byte>, after: seq<Byte>)
    requires Verified(env, p, from, to) && Verified(env, p, from', to')
    requires p.executable == Some(p.identity)
    requires forall t :: from <= t < to ==> env.bytes(t, p.identity) == before
    requires forall t :: from' <= t < to' ==> env.bytes(t, p.identity) == after
    requires forall x, y :: env.digest(x) == env.digest(y) ==> x == y
    ensures before == after
  {
    var data := DigestOfContent(env, p.identity, p.fingerprint, from, to, before);
    var data' := DigestOfContent(env, p.identity, p.fingerprint, from', to', after);
  }

  lemma DigestOfContent(env: Environment, i: Ino, fingerprint: Digest, from: nat, to: nat, content: seq<Byte>)
    returns (data: seq<Byte>)
    requires DigestedBetween(env, i, fingerprint, from, to)
    requires forall t :: from <= t < to ==> env.bytes(t, i) == content
    ensures data == content && env.digest(data) == fingerprint
  {
    var d: seq<Byte>, a: nat, b: nat :| from <= a <= b <= to && ReadBetween(env, i, d, a, b) && env.digest(d) == fingerprint;
    StableRead(env, i, d, a, b, content);
    data := d;
  }

  /** It does happen where programs are started by path: whatever the program, a swap at the last
      moment is not noticed, and another inode runs than the one that was bound and checked. */
  method SwapIsNotNoticed(content: seq<Byte>, bound: Ino, other: Ino)
    returns (r: Result<Ino, BindError>, ghost program: Option<BoundProgram>)
    requires |content| <= MAX_FILE_SIZE
    ensures program.Some? && program.value.identity == bound && r == Ok(other)
  {
    var swap := 9 + 2 * Turns(|content|);
    var env := Environment((_, path) => Some(path), (t, _) => if t < swap then Some(bound) else Some(other),
                           (_, _) => true, (_, _) => true, (_, _) => content, _ => false, _ => 0);
    var kernel := new Kernel(env);
    assert Calm(env, "tool", swap) by {
      assert env.names(0, "tool") == Some(bound);
    }
    ghost var times;
    r, program, times := PrepareAndRun(kernel, "tool", false);
  }
}
