/** The life of a gated execution: preflight, audit sink, revalidation, spawn, wait or drop, and the
    record of it (crates/omne-execution-gateway/src/gateway.rs, error.rs, audit_log.rs). */
module GatewayLifecycle {
  import opened Wrappers

  type Path = string
  type Runtime = string

  datatype ExitStatus = ExitStatus(code: Option<int>, signal: Option<int>)
  datatype PathKind = ProgramKind | CwdKind | WorkspaceRootKind

  datatype ExecError =
    | IsolationNotSupported
    | WorkspaceRootInvalid
    | RelativeProgramPath
    | ProgramPathInvalid
    | ProgramLookupFailed
    | CwdOutsideWorkspace
    | CwdInvalid
    | MutationDeclarationRequired
    | PathIdentityUnavailable(kind: PathKind)
    | RequestPathChanged(kind: PathKind)
    | PolicyDefaultIsolationMismatch
    | Sandbox(detail: string)
    | PolicyDenied(detail: string)
    | AuditLogUnavailable(detail: string)
    | AuditLogPathInvalid
    | AuditLogWriteFailed(detail: string)
    | AuditLogWriteFailedAfterExecutionSuccess(detail: string, status: ExitStatus)
    | AuditLogWriteFailedAfterExecutionError(detail: string, executionError: ExecError)
    | Spawn(detail: string)
  {
    /** `ExecError::completed_status`. */
    function CompletedStatus(): Option<ExitStatus> {
      if AuditLogWriteFailedAfterExecutionSuccess? then Some(status) else None
    }

    /** `audit_error_already_reported`: the audit log itself is what failed. */
    predicate AuditReported() {
      AuditLogUnavailable? || AuditLogWriteFailed? || AuditLogWriteFailedAfterExecutionSuccess?
      || AuditLogWriteFailedAfterExecutionError?
    }
  }

  type ExecResult<T> = Result<T, ExecError>

  datatype Decision = Run | Deny
  datatype StdioMode = Null | Piped

  datatype ExecEvent = ExecEvent(
    decision: Decision,
    program: Path,
    cwd: Path,
    workspaceRoot: Path,
    stdin: StdioMode,
    stdout: StdioMode,
    stderr: StdioMode,
    reason: Option<string>,
    sandboxRuntime: Option<Runtime>)

  /** The two events tell of the same program in the same place; they may differ in how it went. */
  predicate AboutSame(e: ExecEvent, f: ExecEvent) {
    e == f.(decision := e.decision, reason := e.reason, sandboxRuntime := e.sandboxRuntime)
  }

  // ---------------------------------------------------------------- combining results

  /** `combine_result_with_audit_write`. */
  function CombineResult<T>(result: ExecResult<T>, audit: ExecResult<()>): ExecResult<T> {
    match (result, audit)
    case (Ok(_), Err(err)) => Err(err)
    case (Err(e), Err(AuditLogWriteFailed(detail))) => Err(AuditLogWriteFailedAfterExecutionError(detail, e))
    case (Err(_), Err(err)) => Err(err)
    case (_, Ok(_)) => result
  }

  /** `combine_exit_status_with_audit_write`. */
  function CombineExitStatus(result: ExecResult<ExitStatus>, audit: ExecResult<()>): ExecResult<ExitStatus> {
    match (result, audit)
    case (Ok(status), Err(AuditLogWriteFailed(detail))) => Err(AuditLogWriteFailedAfterExecutionSuccess(detail, status))
    case _ => CombineResult(result, audit)
  }

  function CompletedStatus(result: ExecResult<ExitStatus>): Option<ExitStatus> {
    match result case Ok(status) => Some(status) case Err(e) => e.CompletedStatus()
  }

  /** The error is this one, or says that an audit write failed after it. */
  predicate Conveys(r: ExecError, e: ExecError) {
    r == e || (r.AuditLogWriteFailedAfterExecutionError? && r.executionError == e)
  }

  /** A failed audit write hides neither a completed status nor a failure, as long as the writer
      reports its failures as `AuditLogWriteFailed`, which it does. */
  lemma CombinePreservesCompletion(result: ExecResult<ExitStatus>, audit: ExecResult<()>)
    requires audit.Err? ==> audit.error.AuditLogWriteFailed?
    requires result.Err? ==> !result.error.AuditReported()
    ensures CompletedStatus(CombineExitStatus(result, audit)) == CompletedStatus(result)
    ensures CombineExitStatus(result, audit).Ok? <==> result.Ok? && audit.Ok?
    ensures result.Err? ==> Conveys(CombineExitStatus(result, audit).error, result.error)
  {
  }

  // ---------------------------------------------------------------- the audit log

  datatype AuditRecord =
    | Prepare(event: ExecEvent, ok: bool)
    | Execution(event: ExecEvent, result: ExecResult<ExitStatus>)
    | ExecutionError(event: ExecEvent, error: ExecError)
    | Detached(event: ExecEvent)

  /** `AuditResult`: what a record says of how things went. */
  datatype AuditResult = AuditResult(status: string, error: bool, exitCode: Option<int>, success: Option<bool>, signal: Option<int>)

  function Classify(record: AuditRecord): AuditResult {
    match record
    case Prepare(_, ok) => AuditResult(if ok then "prepared" else "prepare_error", !ok, None, None, None)
    case Execution(_, Ok(status)) =>
      AuditResult("exited", status.signal.Some?, status.code, Some(status.code == Some(0)), status.signal)
    case Execution(_, Err(e)) => AuditResult(if e.Spawn? then "spawn_error" else "prepare_error", true, None, None, None)
    case ExecutionError(_, e) => AuditResult(if e.Spawn? then "spawn_error" else "execution_error", true, None, None, None)
    case Detached(_) => AuditResult("detached", true, None, None, None)
  }

  /** What a reader of the log can tell from it. */
  lemma ClassifyTells(record: AuditRecord)
    ensures var r := Classify(record);
            && (r.status == "prepared" <==> record.Prepare? && record.ok)
            && (r.status == "exited" <==> record.Execution? && record.result.Ok?)
            && (r.status == "detached" <==> record.Detached?)
            && (r.status == "spawn_error" <==>
                  || (record.Execution? && record.result.Err? && record.result.error.Spawn?)
                  || (record.ExecutionError? && record.error.Spawn?))
            && (r.success == Some(true) <==> record.Execution? && record.result.Ok? && record.result.value.code == Some(0))
            && (!r.error <==> r.status == "prepared" || (r.status == "exited" && record.result.value.signal == None))
  {
  }

  datatype Opening = Opened | PathMissing | Unusable

  const OPEN_ATTEMPTS: nat := 4

  /** The log at one path. `attempts` lists every record that was handed to an open sink, whether or
      not writing it then worked. */
  class AuditLogger {
    var attempts: seq<AuditRecord>
    var clock: nat
    const openings: nat -> Opening
    const refuseWrite: nat -> bool

    constructor (openings: nat -> Opening, refuseWrite: nat -> bool)
      ensures attempts == [] && clock == 0 && this.openings == openings && this.refuseWrite == refuseWrite
    {
      attempts, clock := [], 0;
      this.openings, this.refuseWrite := openings, refuseWrite;
    }

    /** From now on the log can be opened and every record is written. */
    ghost predicate Healthy()
      reads this
    {
      forall t: nat :: t >= clock ==> openings(t) == Opened && !refuseWrite(t)
    }

    /** From time `t` on, an attempt opens the log before the attempts run out, and until then the
        path is only missing. */
    ghost predicate Opens(t: nat) {
      exists k: nat :: k < OPEN_ATTEMPTS && OpensAfter(t, k)
    }

    ghost predicate OpensAfter(t: nat, k: nat) {
      openings(t + k) == Opened && MissingUntil(t, k)
    }

    ghost predicate MissingUntil(t: nat, k: nat) {
      forall j: nat :: j < k ==> MissingAt(t, j)
    }

    predicate MissingAt(t: nat, j: nat) {
      openings(t + j) == PathMissing
    }

    /** `try_open_sink`: a missing path is tried again, anything else ends the attempt. */
    method TryOpenSink() returns (ok: bool)
      modifies this`clock
      ensures ok <==> Opens(old(clock))
      ensures clock >= old(clock) && (old(Healthy()) ==> ok)
    {
      var attempt := 0;
      ok := false;
      assert Healthy() ==> OpensAfter(clock, 0);
      while attempt < OPEN_ATTEMPTS
        invariant 0 <= attempt <= OPEN_ATTEMPTS && clock == old(clock) + attempt
        invariant !ok && MissingUntil(old(clock), attempt)
      {
        clock := clock + 1;
        match openings(clock - 1) {
          case Opened =>
            assert OpensAfter(old(clock), attempt);
            return true;
          case PathMissing =>
            assert MissingAt(old(clock), attempt);
          case Unusable =>
            assert !MissingAt(old(clock), attempt);
            assert forall k: nat | OpensAfter(old(clock), k) :: !MissingAt(old(clock), k);
            return false;
        }
        attempt := attempt + 1;
      }
      assert forall k: nat | OpensAfter(old(clock), k) :: !MissingAt(old(clock), k);
    }

    /** `prepare_sink`. */
    method PrepareSink() returns (r: ExecResult<PreparedAuditSink>)
      modifies this`clock
      ensures r.Ok? <==> Opens(old(clock))
      ensures clock >= old(clock) && (old(Healthy()) ==> r.Ok?)
      ensures r.Ok? ==> r.value.log == this
      ensures r.Err? ==> r.error.AuditLogUnavailable?
    {
      var ok := TryOpenSink();
      r := if ok then Ok(PreparedAuditSink(this)) else Err(AuditLogUnavailable("open"));
    }

    /** `PreparedAuditSink::write_record`. */
    method WriteToSink(record: AuditRecord) returns (r: ExecResult<()>)
      modifies this
      ensures attempts == old(attempts) + [record] && clock == old(clock) + 1
      ensures r.Ok? <==> !refuseWrite(old(clock))
      ensures r.Err? ==> r.error.AuditLogWriteFailed?
    {
      clock := clock + 1;
      attempts := attempts + [record];
      r := if refuseWrite(clock - 1) then Err(AuditLogWriteFailed("write")) else Ok(());
    }

    /** `AuditLogger::write_record`: opens a sink for this one record. */
    method WriteRecord(record: AuditRecord) returns (r: ExecResult<()>)
      modifies this
      ensures attempts == old(attempts) + (if Opens(old(clock)) then [record] else [])
      ensures r.Err? ==> r.error.AuditLogWriteFailed?
      ensures !Opens(old(clock)) ==> r.Err?
      ensures clock >= old(clock) && (old(Healthy()) ==> r.Ok?)
    {
      var ok := TryOpenSink();
      if !ok {
        return Err(AuditLogWriteFailed("open"));
      }
      r := WriteToSink(record);
    }
  }

  datatype PreparedAuditSink = PreparedAuditSink(log: AuditLogger)

  // ---------------------------------------------------------------- the spawned child

  function Waited(answer: Result<ExitStatus, string>): ExecResult<ExitStatus> {
    match answer case Ok(s) => Ok(s) case Err(e) => Err(Spawn(e))
  }

  /** The operating system's answers about one process, in the order in which they are asked for. */
  class Child {
    var clock: nat
    const polls: nat -> Result<Option<ExitStatus>, string>
    const waits: nat -> Result<ExitStatus, string>
    const kills: nat -> Result<(), string>

    constructor (polls: nat -> Result<Option<ExitStatus>, string>, waits: nat -> Result<ExitStatus, string>,
        kills: nat -> Result<(), string>)
      ensures clock == 0 && this.polls == polls && this.waits == waits && this.kills == kills
    {
      clock, this.polls, this.waits, this.kills := 0, polls, waits, kills;
    }

    method TryWait() returns (r: ExecResult<Option<ExitStatus>>)
      modifies this
      ensures clock == old(clock) + 1
      ensures r == match polls(old(clock)) case Ok(s) => Ok(s) case Err(e) => Err(Spawn(e))
    {
      clock := clock + 1;
      r := match polls(clock - 1) case Ok(s) => Ok(s) case Err(e) => Err(Spawn(e));
    }

    method Wait() returns (r: ExecResult<ExitStatus>)
      modifies this
      ensures clock == old(clock) + 1
      ensures r == Waited(waits(old(clock)))
    {
      clock := clock + 1;
      r := Waited(waits(clock - 1));
    }

    method Kill() returns (r: ExecResult<()>)
      modifies this
      ensures clock == old(clock) + 1
      ensures r == match kills(old(clock)) case Ok(_) => Ok(()) case Err(e) => Err(Spawn(e))
    {
      clock := clock + 1;
      r := match kills(clock - 1) case Ok(_) => Ok(()) case Err(e) => Err(Spawn(e));
    }
  }

  /** A record that closes the account of a spawned child. */
  predicate Closes(record: AuditRecord, event: ExecEvent) {
    record.event == event && (record.Execution? || record.ExecutionError? || record.Detached?)
  }

  /** Either the sink is still held and the log untouched, or the sink is gone and exactly one closing
      record was attempted. */
  predicate Accounted(before: seq<AuditRecord>, after: seq<AuditRecord>, held: bool, event: ExecEvent) {
    if held then after == before
    else |after| == |before| + 1 && after[..|before|] == before && Closes(after[|before|], event)
  }

  class PreparedChild {
    const child: Child
    const sandboxRuntime: Option<Runtime>
    const event: ExecEvent
    var auditSink: Option<PreparedAuditSink>

    constructor (child: Child, sandboxRuntime: Option<Runtime>, event: ExecEvent, auditSink: Option<PreparedAuditSink>)
      ensures this.child == child && this.sandboxRuntime == sandboxRuntime && this.event == event
      ensures this.auditSink == auditSink
    {
      this.child, this.sandboxRuntime, this.event, this.auditSink := child, sandboxRuntime, event, auditSink;
    }

    ghost function Logs(): set<object>
      reads this
    {
      if auditSink.Some? then {auditSink.value.log} else {}
    }

    /** Nothing stands in the way of the closing record. */
    ghost predicate Unhindered()
      reads this, if auditSink.Some? then {auditSink.value.log} else {}
    {
      auditSink.Some? ==> auditSink.value.log.Healthy()
    }

    function EventWithRuntime(): (e: ExecEvent)
      ensures AboutSame(e, event) && e.decision == event.decision && e.reason == event.reason
      ensures e.sandboxRuntime == sandboxRuntime
    {
      event.(sandboxRuntime := sandboxRuntime)
    }

    /** `finalize_result`. */
    method FinalizeResult(result: ExecResult<ExitStatus>) returns (r: ExecResult<ExitStatus>)
      modifies this`auditSink, Logs()
      ensures auditSink == None
      ensures old(auditSink).Some? ==>
                old(auditSink).value.log.attempts == old(auditSink.value.log.attempts) + [Execution(EventWithRuntime(), result)]
      ensures result.Ok? ==> CompletedStatus(r) == Some(result.value)
      ensures old(Unhindered()) ==> r == result
    {
      var written: ExecResult<()> := Ok(());
      if auditSink.Some? {
        var sink := auditSink.value;
        auditSink := None;
        written := sink.log.WriteToSink(Execution(EventWithRuntime(), result));
      }
      r := CombineExitStatus(result, written);
    }

    /** `try_wait`: the sink is spent once a status is seen, and only then. */
    method TryWait() returns (r: ExecResult<Option<ExitStatus>>)
      modifies this`auditSink, child, Logs()
      ensures old(auditSink) == None ==> auditSink == None
      ensures old(auditSink).Some? ==> (auditSink == None || auditSink == old(auditSink))
      ensures old(auditSink).Some? ==>
                Accounted(old(auditSink.value.log.attempts), old(auditSink).value.log.attempts, auditSink.Some?,
                          EventWithRuntime())
      ensures old(auditSink).Some? ==>
                (auditSink == None <==> child.polls(old(child.clock)).Ok? && child.polls(old(child.clock)).value.Some?)
      ensures old(auditSink).Some? && auditSink == None ==>
                old(auditSink).value.log.attempts
                == old(auditSink.value.log.attempts)
                   + [Execution(EventWithRuntime(), Ok(child.polls(old(child.clock)).value.value))]
      ensures match child.polls(old(child.clock))
              case Err(e) => r == Err(Spawn(e))
              case Ok(None) => r == Ok(None)
              case Ok(Some(status)) =>
                if r.Ok? then r.value == Some(status) else r.error.CompletedStatus() == Some(status)
      ensures old(Unhindered()) ==> (r.Ok? <==> child.polls(old(child.clock)).Ok?)
    {
      var polled := child.TryWait();
      match polled {
        case Err(e) => r := Err(e);
        case Ok(None) => r := Ok(None);
        case Ok(Some(status)) =>
          var finalized := FinalizeResult(Ok(status));
          r := match finalized case Ok(s) => Ok(Some(s)) case Err(e) => Err(e);
      }
    }

    /** `kill` leaves the account open. */
    method Kill() returns (r: ExecResult<()>)
      modifies child
      ensures r.Ok? <==> child.kills(old(child.clock)).Ok?
    {
      r := child.Kill();
    }

    /** `Drop`: `finalize_on_drop`. The record says what a last poll finds: an exit, a process that is
        still there, or an error. */
    method Drop()
      modifies this`auditSink, child, Logs()
      ensures auditSink == None
      ensures old(auditSink).Some? ==>
                old(auditSink).value.log.attempts
                == old(auditSink.value.log.attempts)
                   + [match child.polls(old(child.clock))
                      case Ok(Some(status)) => Execution(EventWithRuntime(), Ok(status))
                      case Ok(None) => Detached(EventWithRuntime())
                      case Err(e) => ExecutionError(EventWithRuntime(), Spawn(e))]
      ensures old(auditSink).Some? ==>
                Accounted(old(auditSink.value.log.attempts), old(auditSink).value.log.attempts, false,
                          EventWithRuntime())
    {
      if auditSink == None {
        return;
      }
      var sink := auditSink.value;
      auditSink := None;
      var polled := child.TryWait();
      var record := match polled
                    case Ok(Some(status)) => Execution(EventWithRuntime(), Ok(status))
                    case Ok(None) => Detached(EventWithRuntime())
                    case Err(e) => ExecutionError(EventWithRuntime(), e);
      var _ := sink.log.WriteToSink(record);
    }

    /** `wait`, which consumes the object, so that it is dropped at the end. */
    method Wait() returns (event': ExecEvent, r: ExecResult<ExitStatus>)
      modifies this`auditSink, child, Logs()
      ensures auditSink == None && event' == EventWithRuntime()
      ensures old(auditSink).Some? ==>
                Accounted(old(auditSink.value.log.attempts), old(auditSink).value.log.attempts, false,
                          EventWithRuntime())
      ensures CompletedStatus(r) == match child.waits(old(child.clock)) case Ok(s) => Some(s) case Err(_) => None
      ensures child.waits(old(child.clock)).Err? ==> r == Err(Spawn(child.waits(old(child.clock)).error))
      ensures old(Unhindered()) ==> r == Waited(child.waits(old(child.clock)))
      ensures old(auditSink).Some? && child.waits(old(child.clock)).Ok? ==>
                old(auditSink).value.log.attempts
                == old(auditSink.value.log.attempts)
                   + [Execution(EventWithRuntime(), Ok(child.waits(old(child.clock)).value))]
    {
      event' := EventWithRuntime();
      var waited := child.Wait();
      match waited {
        case Ok(status) => r := FinalizeResult(Ok(status));
        case Err(e) => r := Err(e);
      }
      Drop();
    }
  }

  datatype Call = CallTryWait | CallKill
  datatype End = EndWait | EndDrop

  /** Whatever is called on a spawned child, and however it ends, one closing record is attempted
      for it, no more and no less. */
  method Lifetime(child: PreparedChild, log: AuditLogger, calls: seq<Call>, end: End)
    requires child.auditSink == Some(PreparedAuditSink(log))
    modifies child, child.child, log
    ensures child.auditSink == None
    ensures |log.attempts| == |old(log.attempts)| + 1 && log.attempts[..|old(log.attempts)|] == old(log.attempts)
    ensures Closes(log.attempts[|old(log.attempts)|], child.EventWithRuntime())
  {
    var k := 0;
    while k < |calls|
      invariant 0 <= k <= |calls|
      invariant child.auditSink == None || child.auditSink == Some(PreparedAuditSink(log))
      invariant Accounted(old(log.attempts), log.attempts, child.auditSink.Some?, child.EventWithRuntime())
    {
      match calls[k] {
        case CallTryWait => var _ := child.TryWait();
        case CallKill => var _ := child.Kill();
      }
      k := k + 1;
    }
    match end {
      case EndWait => var _, _ := child.Wait();
      case EndDrop => child.Drop();
    }
  }

  // ---------------------------------------------------------------- preflight

  type Isolation = nat

  datatype ExecRequest = ExecRequest(
    program: Path,
    cwd: Path,
    workspaceRoot: Path,
    requiredIsolation: Isolation,
    isolationFromPolicy: bool)

  datatype GatewayPolicy = GatewayPolicy(
    defaultIsolation: Isolation,
    allowIsolationNone: bool,
    enforceAllowlistedProgram: bool,
    auditPathAbsolute: Option<bool>)

  const ISOLATION_NONE: Isolation := 0

  datatype ResolvedPaths = ResolvedPaths(workspaceRoot: Path, cwd: Path)
  datatype Prepared = Prepared(event: ExecEvent, requiredIsolation: Isolation)
  datatype PreflightError = PreflightError(event: ExecEvent, error: ExecError)

  /** What the filesystem and the mutation policy answer during preflight. */
  datatype Surroundings = Surroundings(
    resolve: ExecResult<ResolvedPaths>,
    bind: ExecResult<Path>,
    authorize: Result<(), (string, ExecError)>)

  /** None of these answers is about the audit log. */
  predicate Unaudited<T>(r: ExecResult<T>) {
    r.Err? ==> !r.error.AuditReported()
  }

  predicate PlainSurroundings(s: Surroundings) {
    Unaudited(s.resolve) && Unaudited(s.bind) && (s.authorize.Err? ==> !s.authorize.error.1.AuditReported())
  }

  function PreflightEvent(request: ExecRequest): ExecEvent {
    ExecEvent(Run, request.program, request.cwd, request.workspaceRoot, Null, Null, Null, None, None)
  }

  function DenyPreflight(event: ExecEvent, reason: string, error: ExecError): PreflightError {
    PreflightError(event.(decision := Deny, reason := Some(reason)), error)
  }

  function BindReason(error: ExecError): string {
    if error.RelativeProgramPath? then "relative_program_path_forbidden" else "program_path_invalid"
  }

  function PathReason(error: ExecError): string {
    match error
    case WorkspaceRootInvalid => "workspace_root_invalid"
    case CwdInvalid => "cwd_invalid"
    case PathIdentityUnavailable(kind) => if kind.ProgramKind? then "cwd_outside_workspace" else "path_identity_unavailable"
    case RequestPathChanged(kind) => if kind.ProgramKind? then "cwd_outside_workspace" else "request_path_changed"
    case _ => "cwd_outside_workspace"
  }

  /** `prepare_request`. */
  function PrepareRequest(policy: GatewayPolicy, supported: Isolation, request: ExecRequest,
      s: Surroundings): Result<Prepared, PreflightError> {
    var event := PreflightEvent(request);
    if request.isolationFromPolicy && request.requiredIsolation != policy.defaultIsolation then
      Err(DenyPreflight(event, "policy_default_isolation_mismatch", PolicyDefaultIsolationMismatch))
    else if request.requiredIsolation == ISOLATION_NONE && !policy.allowIsolationNone then
      Err(DenyPreflight(event, "isolation_none_forbidden", PolicyDenied("isolation none")))
    else if request.requiredIsolation > supported then
      Err(DenyPreflight(event, "isolation_not_supported", IsolationNotSupported))
    else if policy.auditPathAbsolute == Some(false) then
      Err(DenyPreflight(event, "audit_log_path_invalid", AuditLogPathInvalid))
    else
      match s.resolve
      case Err(e) => Err(DenyPreflight(event, PathReason(e), e))
      case Ok(paths) =>
        match s.bind
        case Err(e) => Err(DenyPreflight(event, BindReason(e), e))
        case Ok(path) =>
          var bound := event.(cwd := paths.cwd, workspaceRoot := paths.workspaceRoot, program := path);
          if policy.enforceAllowlistedProgram && s.authorize.Err? then
            Err(DenyPreflight(bound, s.authorize.error.0, s.authorize.error.1))
          else Ok(Prepared(bound, request.requiredIsolation))
  }

  /** The isolation asked for is the policy's own where it is said to be, not none unless that is
      allowed, and one that the host supports. */
  predicate IsolationAllowed(policy: GatewayPolicy, supported: Isolation, request: ExecRequest) {
    && (request.isolationFromPolicy ==> request.requiredIsolation == policy.defaultIsolation)
    && (request.requiredIsolation == ISOLATION_NONE ==> policy.allowIsolationNone)
    && request.requiredIsolation <= supported
  }

  /** Everything about the request is in order. */
  predicate Permitted(policy: GatewayPolicy, supported: Isolation, request: ExecRequest, s: Surroundings) {
    && IsolationAllowed(policy, supported, request) && policy.auditPathAbsolute != Some(false)
    && s.resolve.Ok? && s.bind.Ok? && (policy.enforceAllowlistedProgram ==> s.authorize.Ok?)
  }

  /** Preflight lets a request run exactly when everything about it is in order, and otherwise denies it
      with the first thing that is not; the event says which, and what would run where. */
  lemma PreflightDecides(policy: GatewayPolicy, supported: Isolation, request: ExecRequest, s: Surroundings)
    requires PlainSurroundings(s)
    ensures var r := PrepareRequest(policy, supported, request, s);
            match r
            case Ok(p) => p.event.decision == Run && p.requiredIsolation == request.requiredIsolation
                          && p.event.program == s.bind.value && p.event.cwd == s.resolve.value.cwd
                          && p.event.workspaceRoot == s.resolve.value.workspaceRoot
            case Err(e) => e.event.decision == Deny && e.event.reason.Some? && !e.error.AuditReported()
    ensures PrepareRequest(policy, supported, request, s).Ok? <==> Permitted(policy, supported, request, s)
    ensures IsolationAllowed(policy, supported, request) && policy.auditPathAbsolute != Some(false) ==>
              match (s.resolve, s.bind, s.authorize)
              case (Err(e), _, _) => PrepareRequest(policy, supported, request, s).Err?
                                     && PrepareRequest(policy, supported, request, s).error.error == e
              case (Ok(_), Err(e), _) => PrepareRequest(policy, supported, request, s).Err?
                                         && PrepareRequest(policy, supported, request, s).error.error == e
              case (Ok(_), Ok(_), Err(refusal)) =>
                policy.enforceAllowlistedProgram ==>
                  PrepareRequest(policy, supported, request, s).Err?
                  && PrepareRequest(policy, supported, request, s).error.error == refusal.1
                  && PrepareRequest(policy, supported, request, s).error.event.reason == Some(refusal.0)
              case _ => true
  {
  }

  // ---------------------------------------------------------------- after preflight

  /** What happens between preflight and the spawned child: any step may fail. */
  datatype Launch = Launch(
    revalidate: ExecResult<()>,
    sandbox: ExecResult<()>,
    spawn: Result<(Child, Option<Runtime>), string>)

  predicate PlainLaunch(l: Launch) {
    Unaudited(l.revalidate) && Unaudited(l.sandbox)
  }

  function Launched(l: Launch): ExecResult<(Child, Option<Runtime>)> {
    match l.revalidate
    case Err(e) => Err(e)
    case Ok(_) =>
      match l.sandbox
      case Err(e) => Err(e)
      case Ok(_) =>
        match l.spawn
        case Err(e) => Err(Spawn(e))
        case Ok(c) => Ok(c)
  }

  /** All three steps to a process work. */
  predicate AllWork(l: Launch) {
    l.revalidate.Ok? && l.sandbox.Ok? && l.spawn.Ok?
  }

  /** What the first of them that fails has to say. */
  predicate FirstFailure(l: Launch, e: ExecError) {
    || (l.revalidate.Err? && e == l.revalidate.error)
    || (l.revalidate.Ok? && l.sandbox.Err? && e == l.sandbox.error)
    || (l.revalidate.Ok? && l.sandbox.Ok? && l.spawn.Err? && e == Spawn(l.spawn.error))
  }

  function PostPreflightReason(error: ExecError): string {
    match error
    case PathIdentityUnavailable(kind) => if kind.ProgramKind? then "program_path_invalid" else "path_identity_unavailable"
    case RequestPathChanged(kind) => if kind.ProgramKind? then "program_path_invalid" else "request_path_changed"
    case ProgramPathInvalid => "program_path_invalid"
    case CwdOutsideWorkspace => "cwd_outside_workspace"
    case Sandbox(_) => "sandbox_apply_failed"
    case Spawn(_) => "spawn_failed"
    case _ => "post_preflight_execution_failed"
  }

  /** `event_for_post_preflight_error`. */
  function DeniedEvent(event: ExecEvent, error: ExecError): (r: ExecEvent)
    ensures r.decision == Deny && r.reason.Some? && AboutSame(r, event) && r.sandboxRuntime == event.sandboxRuntime
  {
    event.(decision := Deny, reason := Some(PostPreflightReason(error)))
  }

  // ---------------------------------------------------------------- prepared commands

  class PreparedCommand {
    var prepared: Prepared
    var auditSink: Option<PreparedAuditSink>
    var stdin: StdioMode
    var stdout: StdioMode
    var stderr: StdioMode

    /** The event always tells the modes that will be used. */
    predicate Valid()
      reads this
    {
      prepared.event.stdin == stdin && prepared.event.stdout == stdout && prepared.event.stderr == stderr
    }

    ghost function Logs(): set<object>
      reads this
    {
      if auditSink.Some? then {auditSink.value.log} else {}
    }

    constructor (prepared: Prepared)
      requires prepared.event.stdin == prepared.event.stdout == prepared.event.stderr == Null
      ensures Valid() && this.prepared == prepared && auditSink == None
    {
      this.prepared, auditSink, stdin, stdout, stderr := prepared, None, Null, Null, Null;
    }

    method WithPipedStdin()
      requires Valid()
      modifies this`stdin, this`prepared
      ensures Valid() && stdin == Piped && prepared == old(prepared).(event := old(prepared).event.(stdin := Piped))
    {
      stdin := Piped;
      prepared := prepared.(event := prepared.event.(stdin := Piped));
    }

    method WithPipedStdout()
      requires Valid()
      modifies this`stdout, this`prepared
      ensures Valid() && stdout == Piped && prepared == old(prepared).(event := old(prepared).event.(stdout := Piped))
    {
      stdout := Piped;
      prepared := prepared.(event := prepared.event.(stdout := Piped));
    }

    method WithPipedStderr()
      requires Valid()
      modifies this`stderr, this`prepared
      ensures Valid() && stderr == Piped && prepared == old(prepared).(event := old(prepared).event.(stderr := Piped))
    {
      stderr := Piped;
      prepared := prepared.(event := prepared.event.(stderr := Piped));
    }

    /** `spawn`: a child takes the sink with it, to close the account later; a failure closes it
        here and now, with one record of the denial. */
    method Spawn(launch: Launch) returns (r: ExecResult<PreparedChild>)
      requires Valid() && PlainLaunch(launch)
      modifies this`auditSink, Logs()
      ensures r.Ok? <==> AllWork(launch)
      ensures r.Ok? ==> r.value.sandboxRuntime == launch.spawn.value.1 && auditSink == None
      ensures r.Err? && (old(auditSink) == None || !r.error.AuditReported()) ==> FirstFailure(launch, r.error)
      ensures r.Err? && old(auditSink).Some? ==> FirstFailure(launch, Launched(launch).error)
      ensures r.Ok? ==> && fresh(r.value) && r.value.child == launch.spawn.value.0
                        && r.value.auditSink == old(auditSink) && r.value.event == prepared.event
                        && (old(auditSink).Some? ==> old(auditSink).value.log.attempts == old(auditSink.value.log.attempts))
      ensures r.Err? && old(auditSink).Some? ==>
                old(auditSink).value.log.attempts
                == old(auditSink.value.log.attempts)
                   + [ExecutionError(DeniedEvent(prepared.event, Launched(launch).error), Launched(launch).error)]
      ensures r.Err? && (old(auditSink) == None || !r.error.AuditReported()) ==> r.error == Launched(launch).error
    {
      var event := prepared.event;
      var launched := Launched(launch);
      match launched {
        case Ok(pair) =>
          var child := new PreparedChild(pair.0, pair.1, event, auditSink);
          auditSink := None;
          r := Ok(child);
        case Err(e) =>
          var written: ExecResult<()> := Ok(());
          if auditSink.Some? {
            written := auditSink.value.log.WriteToSink(ExecutionError(DeniedEvent(event, e), e));
          }
          r := CombineResult(Err(e), written);
      }
    }
  }

  // ---------------------------------------------------------------- the gateway

  datatype ExecutionOutcome = ExecutionOutcome(event: ExecEvent, result: ExecResult<ExitStatus>)

  class ExecGateway {
    const supportedIsolation: Isolation
    const policy: GatewayPolicy
    const audit: Option<AuditLogger>

    constructor (supportedIsolation: Isolation, policy: GatewayPolicy, audit: Option<AuditLogger>)
      ensures this.supportedIsolation == supportedIsolation && this.policy == policy && this.audit == audit
    {
      this.supportedIsolation, this.policy, this.audit := supportedIsolation, policy, audit;
    }

    ghost function Logs(): set<object> {
      if audit.Some? then {audit.value} else {}
    }

    function Preflight(request: ExecRequest, s: Surroundings): Result<Prepared, PreflightError> {
      PrepareRequest(policy, supportedIsolation, request, s)
    }

    /** `prepare_audit_sink`. */
    method PrepareAuditSink(event: ExecEvent) returns (r: Result<Option<PreparedAuditSink>, PreflightError>)
      modifies if audit.Some? then {audit.value} else {}
      ensures audit.Some? ==> audit.value.attempts == old(audit.value.attempts)
      ensures r.Ok? <==> audit.None? || audit.value.Opens(old(audit.value.clock))
      ensures audit.Some? && old(audit.value.Healthy()) ==> audit.value.Healthy() && r.Ok?
      ensures r.Ok? ==> r.value == (if audit.Some? then Some(PreparedAuditSink(audit.value)) else None)
      ensures r.Err? ==> r.error.event.decision == Deny && r.error.error.AuditLogUnavailable?
      ensures r.Err? ==> AboutSame(r.error.event, event)
    {
      if audit == None {
        return Ok(None);
      }
      var sink := audit.value.PrepareSink();
      r := match sink
           case Ok(s) => Ok(Some(s))
           case Err(e) => Err(DenyPreflight(event, "audit_log_unavailable", e));
    }

    /** Everything between preflight and the terminal record. */
    method RunPrepared(prepared: Prepared, launch: Launch)
      returns (event: ExecEvent, result: ExecResult<ExitStatus>, ghost waited: bool)
      requires PlainLaunch(launch) && prepared.event.decision == Run
      modifies if launch.spawn.Ok? then {launch.spawn.value.0} else {}
      ensures result.Ok? <==> event.decision == Run
      ensures result.Err? ==> !result.error.AuditReported()
      ensures waited <==> AllWork(launch)
      ensures !waited ==> result.Err? && FirstFailure(launch, result.error) && event.reason.Some?
      ensures waited ==> result == Waited(launch.spawn.value.0.waits(old(launch.spawn.value.0.clock)))
      ensures result.Ok? ==> event == prepared.event.(sandboxRuntime := launch.spawn.value.1)
      ensures AboutSame(event, prepared.event)
    {
      var launched := Launched(launch);
      waited := launched.Ok?;
      match launched {
        case Err(e) =>
          event, result := DeniedEvent(prepared.event, e), Err(e);
        case Ok(pair) =>
          result := pair.0.Wait();
          event := match result
                   case Ok(_) => prepared.event.(sandboxRuntime := pair.1)
                   case Err(e) => DeniedEvent(prepared.event, e);
      }
    }

    /** `execute`. The event says `Run` exactly when there is a completed status; a program runs only
        if its record can be taken; and no more than one record is attempted, which carries the
        returned event. */
    method Execute(request: ExecRequest, s: Surroundings, launch: Launch)
      returns (outcome: ExecutionOutcome, ghost ran: bool)
      requires PlainSurroundings(s) && PlainLaunch(launch)
      modifies Logs(), if launch.spawn.Ok? then {launch.spawn.value.0} else {}
      ensures outcome.event.decision == Run <==> CompletedStatus(outcome.result).Some?
      ensures CompletedStatus(outcome.result).Some? ==> ran
      ensures ran <==> Permitted(policy, supportedIsolation, request, s) && AllWork(launch)
                       && (audit.Some? ==> audit.value.Opens(old(audit.value.clock)))
      ensures Permitted(policy, supportedIsolation, request, s) && !AllWork(launch)
              && (audit.Some? ==> audit.value.Opens(old(audit.value.clock))) ==>
                outcome.event.decision == Deny && outcome.event.reason.Some? && outcome.result.Err?
                && exists e :: FirstFailure(launch, e) && Conveys(outcome.result.error, e)
      ensures Preflight(request, s).Err? ==>
                outcome.result.Err? && Conveys(outcome.result.error, Preflight(request, s).error.error)
      ensures Preflight(request, s).Ok? && audit.Some? && !audit.value.Opens(old(audit.value.clock)) ==>
                outcome.result.Err? && outcome.result.error.AuditLogUnavailable? && outcome.event.decision == Deny
      ensures audit.Some? && audit.value.Opens(old(audit.value.clock)) ==>
                Recorded(old(audit.value.attempts), audit.value.attempts, outcome)
      ensures ran ==> CompletedStatus(outcome.result)
                      == CompletedStatus(Waited(launch.spawn.value.0.waits(old(launch.spawn.value.0.clock))))
      ensures match Preflight(request, s)
              case Err(denied) => outcome.event == denied.event
              case Ok(prepared) => AboutSame(outcome.event, prepared.event)
      ensures outcome.event.decision == Run ==> outcome.event.sandboxRuntime == launch.spawn.value.1
      ensures audit.None? || old(audit.value.Healthy()) ==>
                (ran ==> outcome.result == Waited(launch.spawn.value.0.waits(old(launch.spawn.value.0.clock))))
                && (Permitted(policy, supportedIsolation, request, s) && !AllWork(launch) ==>
                      outcome.result.Err? && FirstFailure(launch, outcome.result.error))
      ensures audit.Some? && Preflight(request, s).Ok? && audit.value.Opens(old(audit.value.clock)) ==>
                Recorded(old(audit.value.attempts), audit.value.attempts, outcome)
      ensures audit.Some? ==>
                audit.value.attempts == old(audit.value.attempts)
                || Recorded(old(audit.value.attempts), audit.value.attempts, outcome)
      ensures audit.Some? && outcome.result.Ok? ==> Recorded(old(audit.value.attempts), audit.value.attempts, outcome)
    {
      PreflightDecides(policy, supportedIsolation, request, s);
      var event: ExecEvent, result: ExecResult<ExitStatus>;
      var auditSink: Option<PreparedAuditSink> := None;
      ran := false;
      match Preflight(request, s) {
        case Err(denied) =>
          event, result := denied.event, Err(denied.error);
        case Ok(prepared) =>
          var sink := PrepareAuditSink(prepared.event);
          match sink {
            case Err(denied) =>
              event, result := denied.event, Err(denied.error);
            case Ok(opened') =>
              event, result, ran := RunPrepared(prepared, launch);
              auditSink := opened';
          }
      }
      if result.Err? && result.error.AuditReported() {
        return ExecutionOutcome(event, result), ran;
      }
      var final := result;
      if auditSink.Some? {
        var written := auditSink.value.log.WriteToSink(Execution(event, result));
        CombinePreservesCompletion(result, written);
        final := CombineExitStatus(result, written);
      } else if audit.Some? {
        var written := audit.value.WriteRecord(Execution(event, result));
        CombinePreservesCompletion(result, written);
        final := CombineExitStatus(result, written);
      }
      outcome := ExecutionOutcome(event, final);
    }

    /** `prepare_command`: one record of the preparation; the sink is handed on only when writing
        that record worked. */
    method PrepareCommand(request: ExecRequest, s: Surroundings)
      returns (event: ExecEvent, r: ExecResult<PreparedCommand>)
      requires PlainSurroundings(s)
      modifies Logs()
      ensures r.Ok? ==> fresh(r.value) && r.value.Valid() && r.value.prepared.event == event && event.decision == Run
      ensures r.Ok? ==> r.value.auditSink == (if audit.Some? then Some(PreparedAuditSink(audit.value)) else None)
      ensures audit.Some? && Preflight(request, s).Ok? && audit.value.Opens(old(audit.value.clock)) ==>
                audit.value.attempts == old(audit.value.attempts) + [Prepare(event, true)]
      ensures audit.Some? && r.Ok? ==> audit.value.attempts == old(audit.value.attempts) + [Prepare(event, true)]
      ensures audit.Some? && r.Err? ==>
                || audit.value.attempts == old(audit.value.attempts)
                || audit.value.attempts == old(audit.value.attempts) + [Prepare(event, Preflight(request, s).Ok?)]
      ensures Preflight(request, s).Err? ==> r.Err? && event.decision == Deny
      ensures audit.None? || old(audit.value.Healthy()) ==>
                (r.Ok? <==> Permitted(policy, supportedIsolation, request, s))
    {
      PreflightDecides(policy, supportedIsolation, request, s);
      match Preflight(request, s) {
        case Err(denied) =>
          event, r := denied.event, Err(denied.error);
          if audit.Some? {
            var written := audit.value.WriteRecord(Prepare(event, false));
            r := CombineResult(r, written);
          }
        case Ok(prepared) =>
          var sink := PrepareAuditSink(prepared.event);
          if sink.Err? {
            return sink.error.event, Err(sink.error.error);
          }
          event := prepared.event;
          var command := new PreparedCommand(prepared);
          r := Ok(command);
          if sink.value.Some? {
            var log := sink.value.value.log;
            var written := log.WriteToSink(Prepare(event, true));
            r := CombineResult(r, written);
            if r.Ok? {
              command.auditSink := sink.value;
            }
          }
      }
    }
  }

  /** A caller that prepares a command and, if it is handed one, perhaps spawns it and then uses the
      child in any way: the log gets the record of the preparation and, if there was a spawn attempt,
      one closing record, whatever fails in between. */
  method Session(gateway: ExecGateway, log: AuditLogger, request: ExecRequest, s: Surroundings, launch: Option<Launch>,
      calls: seq<Call>, end: End)
    returns (prepared: bool)
    requires gateway.audit == Some(log) && PlainSurroundings(s) && (launch.Some? ==> PlainLaunch(launch.value))
    modifies log, if launch.Some? && launch.value.spawn.Ok? then {launch.value.spawn.value.0} else {}
    ensures prepared ==> |log.attempts| == |old(log.attempts)| + (if launch.Some? then 2 else 1)
    ensures prepared ==> log.attempts[..|old(log.attempts)|] == old(log.attempts)
                         && log.attempts[|old(log.attempts)|].Prepare? && log.attempts[|old(log.attempts)|].ok
    ensures prepared && launch.Some? ==>
              var last := log.attempts[|log.attempts|-1];
              last.Execution? || last.ExecutionError? || last.Detached?
    ensures !prepared ==> |old(log.attempts)| <= |log.attempts| <= |old(log.attempts)| + 1
  {
    var event, command := gateway.PrepareCommand(request, s);
    prepared := command.Ok?;
    if prepared && launch.Some? {
      var child := command.value.Spawn(launch.value);
      if child.Ok? {
        Lifetime(child.value, log, calls, end);
      }
    }
  }

  /** Exactly one record was attempted, of the returned event and of the status, if there is one; it
      says that a process exited exactly when the event says that it ran. */
  ghost predicate Recorded(before: seq<AuditRecord>, after: seq<AuditRecord>, outcome: ExecutionOutcome) {
    exists result :: RecordOf(Execution(outcome.event, result), before, after, outcome)
  }

  predicate RecordOf(record: AuditRecord, before: seq<AuditRecord>, after: seq<AuditRecord>, outcome: ExecutionOutcome)
    requires record.Execution?
  {
    && after == before + [record] && record.event == outcome.event
    && CompletedStatus(record.result) == CompletedStatus(outcome.result)
    && (record.result.Err? ==> outcome.result.Err? && Conveys(outcome.result.error, record.result.error))
    && (Classify(record).status == "exited" <==> outcome.event.decision == Run)
  }
}
