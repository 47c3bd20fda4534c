/**
 The durable operation tables of the privileged helper, and each transaction on them as a
 function from tables to tables. The class in Coordinator.dfy executes these transactions
 statement by statement; CoordinatorRuns.dfy proves what every run keeps.
 */
module CoordinatorModel {
  import opened Options

  /** An operation ID or a lease scope. */
  datatype Name = Name(text: string)

  datatype OperationState =
    | Accepted | Executing | Reconciling | Succeeded | Failed | ActionRequired | Superseded

  datatype Outcome = NotDispatched | Unknown | ConfirmedApplied | Mixed | ConfirmedAbsent

  datatype Disposition = ReconcileFirst | RetryAfterValidation | NothingToRecover | AdministratorAction

  datatype Phase =
    | AcceptedPhase | LeaseConflictPhase | SupersededByRepairPhase | MutationAuthorizedPhase
    | LifecyclePhase(name: string) | ReconciliationRequiredPhase | CompletedPhase | RecoveryCompletedPhase
    | RestartObservation | RestartBeforeMutation | InterruptedMutation | AdministratorResolvedPhase

  /** HandlerCode carries the error codes that operation handlers choose themselves. */
  datatype ErrorCode =
    | NoCode | OperationConflictCode | ExecutionFailed | RecoveryRequiredCode | RecoveryRolledBack
    | HelperRestarted | AdministratorResolvedCode | HandlerCode(code: string)

  datatype Detail =
    | NoDetail | ActiveOperation(id: Name) | RestartedBeforeIntent | RestartedAfterIntent | ReleasedByAdministrator
    | HandlerDetail(text: string)

  /** One row of helper_operations. Timestamps are left out; a token of None is SQL NULL. */
  datatype Record = Record(
    requestHash: nat,
    kind: string,
    scope: Name,
    state: OperationState,
    phase: Phase,
    outcome: Outcome,
    disposition: Disposition,
    token: Option<int>,
    result: Option<nat>,
    errorCode: ErrorCode,
    errorDetail: Detail)

  datatype LeaseState = Held | RecoveryRequired | Released

  /** One row of installation_leases, keyed by scope. */
  datatype Lease = Lease(holder: Name, token: int, state: LeaseState)

  datatype EventKind =
    | OperationAccepted | OperationConflict | SupersededByRepair | MutationAuthorized | PhaseRecorded
    | ReconciliationRequired | OperationFinished | RestartObserved | RestartNoMutation
    | RestartNeedsAdministrator | AdministratorReleased

  datatype Event = Event(operation: Name, scope: Name, token: Option<int>, kind: EventKind)

  datatype Tables = Tables(operations: map<Name, Record>, leases: map<Name, Lease>, events: seq<Event>)

  const EMPTY := Tables(map[], map[], [])

  /** A decoded protocol request. requestHash stands for the hash of its canonical form. */
  datatype Request = Request(
    version: int, revision: int, id: Name, kind: string, repairAction: string, hash: nat, scope: Name)

  /** What the caller is told about an operation; responseFor in the source. */
  datatype Response = Response(
    operation: Name, state: OperationState, phase: Phase, ok: bool, retryable: bool,
    result: Option<nat>, errorCode: ErrorCode, error: Detail)

  datatype Decision =
    | Execute(token: int)
    | Replay(response: Response)
    | DifferentContents(state: OperationState)
    | LeaseConflict(active: Name)
    | Rejected

  /** The handler's answer handed to Complete: its result must fit the stored size bound. */
  datatype Completion = Completion(ok: bool, result: Option<nat>, resultFits: bool, errorCode: ErrorCode, error: Detail)

  // ----- small predicates ---------------------------------------------------------------

  predicate Unfinished(state: OperationState) {
    state.Accepted? || state.Executing? || state.Reconciling? || state.ActionRequired?
  }

  predicate Interrupted(state: OperationState) {
    state.Accepted? || state.Executing? || state.Reconciling?
  }

  predicate HexDigit(c: char) { '0' <= c <= '9' || 'a' <= c <= 'f' }

  predicate ValidOperationId(id: Name) {
    |id.text| == 35 && id.text[..3] == "op-" && forall i :: 3 <= i < |id.text| ==> HexDigit(id.text[i])
  }

  predicate ValidRequest(r: Request) {
    r.version == 2 && r.revision == 1 && ValidOperationId(r.id) && 0 < |r.scope.text| <= 128
  }

  /** The only requests that may take over a recovery lease. */
  predicate IsRepair(r: Request) {
    r.kind == "RepairInstallation" || (r.kind == "InstallApplication" && r.repairAction == "recreate_generation")
  }

  function ResponseFor(id: Name, rec: Record): Response {
    Response(id, rec.state, rec.phase,
             rec.state.Succeeded? || Interrupted(rec.state),
             rec.disposition == RetryAfterValidation,
             rec.result, rec.errorCode, rec.errorDetail)
  }

  predicate FenceHolds(s: Tables, id: Name, token: int) {
    && id in s.operations
    && s.operations[id].token == Some(token)
    && s.operations[id].scope in s.leases
    && s.leases[s.operations[id].scope] == Lease(id, token, Held)
  }

  // ----- transactions -------------------------------------------------------------------

  /** One operation's row and its scope's lease are rewritten, and one event is logged. */
  function Update(s: Tables, id: Name, rec: Record, lease: Lease, kind: EventKind): Tables {
    Tables(s.operations[id := rec], s.leases[rec.scope := lease],
           s.events + [Event(id, rec.scope, Some(lease.token), kind)])
  }

  function FreshRecord(r: Request): Record {
    Record(r.hash, r.kind, r.scope, Accepted, AcceptedPhase, NotDispatched, ReconcileFirst, None, None, NoCode, NoDetail)
  }

  /** The request takes its scope's lease with the given token. */
  function Grant(s: Tables, r: Request, token: int): Tables {
    Update(s, r.id, FreshRecord(r).(token := Some(token)), Lease(r.id, token, Held), OperationAccepted)
  }

  function Supersede(s: Tables, id: Name, token: int): Tables
    requires id in s.operations
  {
    var rec := s.operations[id];
    s.(operations := s.operations[id := rec.(state := Superseded, phase := SupersededByRepairPhase,
                                             disposition := NothingToRecover)],
       events := s.events + [Event(id, rec.scope, Some(token), SupersededByRepair)])
  }

  function RecordConflict(s: Tables, r: Request, active: Name): Tables {
    s.(operations := s.operations[r.id := FreshRecord(r).(
                       state := Failed, phase := LeaseConflictPhase, disposition := RetryAfterValidation,
                       errorCode := OperationConflictCode,
                       errorDetail := ActiveOperation(active))],
       events := s.events + [Event(r.id, r.scope, None, OperationConflict)])
  }

  /** How a request relates to the tables it arrives at. */
  datatype Admission = Invalid | Known | Free(token: int) | TakeOver(holder: Name, token: int) | Busy(holder: Name)

  function Admit(s: Tables, r: Request): Admission {
    if !ValidRequest(r) then Invalid
    else if r.id in s.operations then Known
    else if r.scope !in s.leases then Free(1)
    else
      var lease := s.leases[r.scope];
      if lease.state == Released then Free(lease.token + 1)
      else if IsRepair(r) && lease.state == RecoveryRequired then
        if lease.holder in s.operations && s.operations[lease.holder].state == ActionRequired
        then TakeOver(lease.holder, lease.token + 1) else Invalid
      else Busy(lease.holder)
  }

  function Begin(s: Tables, r: Request): (Tables, Decision) {
    match Admit(s, r)
    case Invalid => (s, Rejected)
    case Known =>
      var rec := s.operations[r.id];
      (s, if rec.requestHash != r.hash then DifferentContents(rec.state) else Replay(ResponseFor(r.id, rec)))
    case Free(token) => (Grant(s, r, token), Execute(token))
    case TakeOver(holder, token) => (Grant(Supersede(s, holder, token), r, token), Execute(token))
    case Busy(holder) => (RecordConflict(s, r, holder), LeaseConflict(holder))
  }

  function Authorize(s: Tables, id: Name, token: int): (Tables, bool) {
    if FenceHolds(s, id, token) && s.operations[id].state == Accepted then
      (Update(s, id, s.operations[id].(state := Executing, phase := MutationAuthorizedPhase, outcome := Unknown,
                                       disposition := ReconcileFirst),
              Lease(id, token, Held), MutationAuthorized), true)
    else (s, false)
  }

  function RecordPhase(s: Tables, id: Name, token: int, phase: string): (Tables, bool) {
    if FenceHolds(s, id, token) && s.operations[id].state == Executing then
      (Update(s, id, s.operations[id].(phase := LifecyclePhase(phase)), Lease(id, token, Held), PhaseRecorded), true)
    else (s, false)
  }

  function FinishedRecord(rec: Record, c: Completion): Record {
    if c.ok then
      rec.(state := Succeeded, phase := CompletedPhase, outcome := ConfirmedApplied, disposition := NothingToRecover,
           result := c.result, errorCode := NoCode, errorDetail := NoDetail)
    else
      rec.(state := Failed, phase := CompletedPhase, outcome := Mixed, disposition := RetryAfterValidation,
           result := c.result,
           errorCode := if c.errorCode == NoCode then ExecutionFailed else c.errorCode, errorDetail := c.error)
  }

  function BlockedRecord(rec: Record, token: int, detail: Detail): Record {
    rec.(state := ActionRequired, phase := ReconciliationRequiredPhase, outcome := Unknown,
         disposition := AdministratorAction, token := Some(token),
         errorCode := RecoveryRequiredCode, errorDetail := detail)
  }

  function Complete(s: Tables, id: Name, token: int, c: Completion): (Tables, Option<Response>) {
    if c.result.Some? && !c.resultFits then (s, None)
    else if FenceHolds(s, id, token) && s.operations[id].state == Executing then
      if c.errorCode == RecoveryRequiredCode then
        var blocked := BlockedRecord(s.operations[id], token + 1, if c.ok then NoDetail else c.error);
        (Update(s, id, blocked, Lease(id, token + 1, RecoveryRequired), ReconciliationRequired),
         Some(ResponseFor(id, blocked)))
      else
        var finished := FinishedRecord(s.operations[id], c);
        (Update(s, id, finished, Lease(id, token, Released), OperationFinished), Some(ResponseFor(id, finished)))
    else (s, None)
  }

  function RecoveredRecord(rec: Record, c: Completion): Record {
    if c.ok then
      rec.(state := Succeeded, phase := RecoveryCompletedPhase, outcome := ConfirmedApplied,
           disposition := NothingToRecover, result := c.result, errorCode := NoCode, errorDetail := NoDetail)
    else
      rec.(state := Failed, phase := RecoveryCompletedPhase, outcome := ConfirmedAbsent,
           disposition := NothingToRecover, result := c.result,
           errorCode := if c.errorCode == NoCode then RecoveryRolledBack else c.errorCode, errorDetail := c.error)
  }

  predicate RecoveryFenceHolds(s: Tables, id: Name, token: int) {
    && id in s.operations
    && s.operations[id].token == Some(token)
    && s.operations[id].state == ActionRequired
    && s.operations[id].scope in s.leases
    && s.leases[s.operations[id].scope] == Lease(id, token, RecoveryRequired)
  }

  function CompleteRecovery(s: Tables, id: Name, token: int, c: Completion): (Tables, Option<Response>) {
    if c.result.Some? && !c.resultFits then (s, None)
    else if RecoveryFenceHolds(s, id, token) then
      var recovered := RecoveredRecord(s.operations[id], c);
      (Update(s, id, recovered, Lease(id, token, Released), OperationFinished), Some(ResponseFor(id, recovered)))
    else (s, None)
  }

  predicate LeaseOf(s: Tables, id: Name) {
    id in s.operations && s.operations[id].scope in s.leases && s.leases[s.operations[id].scope].holder == id
  }

  /** The administrator releases a blocked scope. */
  function Resolve(s: Tables, id: Name): (Tables, bool) {
    if && LeaseOf(s, id) && s.operations[id].state == ActionRequired
       && s.leases[s.operations[id].scope].state == RecoveryRequired
    then
      (Update(s, id, s.operations[id].(state := Failed, phase := AdministratorResolvedPhase,
                                       disposition := NothingToRecover, errorCode := AdministratorResolvedCode,
                                       errorDetail := ReleasedByAdministrator),
              s.leases[s.operations[id].scope].(state := Released), AdministratorReleased), true)
    else (s, false)
  }

  /** First half of restart recovery: advance the token and mark the operation as being observed. */
  function MarkReconciling(s: Tables, id: Name): Tables
    requires LeaseOf(s, id) && s.operations[id].token.Some?
  {
    var token := s.operations[id].token.value + 1;
    Update(s, id, s.operations[id].(state := Reconciling, phase := RestartObservation, outcome := Unknown,
                                    disposition := ReconcileFirst, token := Some(token)),
           Lease(id, token, RecoveryRequired), RestartObserved)
  }

  /** Second half: classify the operation by the state it had before the restart. */
  function RecoverOne(s: Tables, id: Name, prior: OperationState): Tables
    requires LeaseOf(s, id)
  {
    var lease := s.leases[s.operations[id].scope];
    if prior == Accepted then
      Update(s, id, s.operations[id].(state := Failed, phase := RestartBeforeMutation, outcome := ConfirmedAbsent,
                                      disposition := RetryAfterValidation, errorCode := HelperRestarted,
                                      errorDetail := RestartedBeforeIntent),
             lease.(state := Released), RestartNoMutation)
    else
      Update(s, id, s.operations[id].(state := ActionRequired, phase := InterruptedMutation, outcome := Unknown,
                                      disposition := AdministratorAction, errorCode := RecoveryRequiredCode,
                                      errorDetail := RestartedAfterIntent),
             lease.(state := RecoveryRequired), RestartNeedsAdministrator)
  }
}
