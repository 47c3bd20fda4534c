/**
 What the coordinator answers and records, stated of requests, handler answers and table contents alone, and where
 successes and take-overs come from over whole runs.
 */
module CoordinatorAnswers {
  import opened Options
  import opened CoordinatorModel
  import opened CoordinatorInvariant
  import opened CoordinatorRecovery
  import opened CoordinatorRuns

  // ----- requests ------------------------------------------------------------------------------------

  /** Protocol version 2, operation revision 1, "op-" and 32 hexadecimal digits, and a scope of 1 to 128 characters. */
  ghost predicate Acceptable(r: Request) {
    && r.version == 2 && r.revision == 1 && 1 <= |r.scope.text| <= 128
    && |r.id.text| == 35 && r.id.text[0] == 'o' && r.id.text[1] == 'p' && r.id.text[2] == '-'
    && forall i :: 3 <= i < 35 ==> r.id.text[i] in "0123456789abcdef"
  }

  /** An explicit repair: the only request that may take over a recovery lease. */
  ghost predicate ExplicitRepair(r: Request) {
    r.kind == "RepairInstallation" || (r.kind == "InstallApplication" && r.repairAction == "recreate_generation")
  }

  /** Nothing holds the scope: it has no lease, or a released one. */
  ghost predicate ScopeFree(s: Tables, r: Request) { r.scope in s.leases ==> s.leases[r.scope].state == Released }

  /** The scope's lease waits for recovery and its holder for the administrator. */
  ghost predicate ScopeBlocked(s: Tables, r: Request) {
    && r.scope in s.leases && s.leases[r.scope].state == RecoveryRequired
    && s.leases[r.scope].holder in s.operations && s.operations[s.leases[r.scope].holder].state == ActionRequired
  }

  ghost predicate OthersKept(s: Tables, t: Tables, r: Request, changed: set<Name>) {
    && (forall id :: id in s.operations && id !in changed ==> id in t.operations && t.operations[id] == s.operations[id])
    && (forall id :: id in t.operations ==> id in s.operations || id == r.id)
    && (forall scope :: scope in s.leases && scope != r.scope ==> scope in t.leases && t.leases[scope] == s.leases[scope])
    && (forall scope :: scope in t.leases ==> scope in s.leases || scope == r.scope)
  }

  lemma AcceptableExactly(r: Request)
    ensures ValidRequest(r) <==> Acceptable(r)
  {
    if |r.id.text| == 35 {
      assert r.id.text[..3] == [r.id.text[0], r.id.text[1], r.id.text[2]];
      forall c: char ensures HexDigit(c) <==> c in "0123456789abcdef" { HexExactly(c); }
    }
  }

  lemma HexExactly(c: char)
    ensures HexDigit(c) <==> c in "0123456789abcdef"
  {
    var digits := "0123456789abcdef";
    if '0' <= c <= '9' { assert digits[c as int - '0' as int] == c; }
    if 'a' <= c <= 'f' { assert digits[c as int - 'a' as int + 10] == c; }
  }

  /**
   Begin executes exactly an acceptable request with a new ID whose scope is free, or blocked and the request an explicit
   repair. The operation is then accepted under the next token and holds the lease; a blocked holder is superseded; no
   other row changes.
   */
  lemma ExecutesExactly(s: Tables, r: Request)
    ensures
      var (t, d) := Begin(s, r);
      && (d.Execute? <==>
            Acceptable(r) && r.id !in s.operations && (ScopeFree(s, r) || (ScopeBlocked(s, r) && ExplicitRepair(r))))
      && (d.Execute? ==>
            && d.token == (if r.scope in s.leases then s.leases[r.scope].token + 1 else 1)
            && r.id in t.operations && r.scope in t.leases && t.leases[r.scope] == Lease(r.id, d.token, Held)
            && (var rec := t.operations[r.id];
                rec.requestHash == r.hash && rec.kind == r.kind && rec.scope == r.scope && rec.state == Accepted
                && rec.phase == AcceptedPhase && rec.outcome == NotDispatched && rec.disposition == ReconcileFirst
                && rec.token == Some(d.token) && rec.result == None && rec.errorCode == NoCode)
            && |t.events| > 0 && t.events[|t.events| - 1] == Event(r.id, r.scope, Some(d.token), OperationAccepted)
            && OthersKept(s, t, r, if ScopeFree(s, r) then {r.id} else {r.id, s.leases[r.scope].holder}))
      && (d.Execute? && !ScopeFree(s, r) && s.leases[r.scope].holder != r.id ==>
            var holder := s.leases[r.scope].holder;
            holder in t.operations && t.operations[holder].state == Superseded && SameRequest(s.operations[holder], t.operations[holder]))
  {
    AcceptableExactly(r);
    hide ValidRequest, Acceptable;
  }

  /**
   Otherwise: a known ID is replayed if the contents are the same and refused if they differ, changing nothing; a held
   lease, or a recovery lease against anything but a repair, is a conflict naming the holder, recorded as a failed
   operation; the rest is rejected and changes nothing.
   */
  lemma RefusesExactly(s: Tables, r: Request)
    ensures
      var (t, d) := Begin(s, r);
      && (d.Replay? <==> Acceptable(r) && r.id in s.operations && s.operations[r.id].requestHash == r.hash)
      && (d.DifferentContents? <==> Acceptable(r) && r.id in s.operations && s.operations[r.id].requestHash != r.hash)
      && (d.LeaseConflict? <==>
            && Acceptable(r) && r.id !in s.operations && !ScopeFree(s, r)
            && !(s.leases[r.scope].state == RecoveryRequired && ExplicitRepair(r)))
      && (d.Replay? || d.DifferentContents? || d.Rejected? ==> t == s)
      && (d.Replay? ==> Answers(r.id, s.operations[r.id], d.response))
      && (d.DifferentContents? ==> d.state == s.operations[r.id].state)
      && (d.LeaseConflict? ==>
            && d.active == s.leases[r.scope].holder && t.leases == s.leases && OthersKept(s, t, r, {r.id})
            && r.id in t.operations && t.operations[r.id].state == Failed && t.operations[r.id].token == None
            && t.operations[r.id].outcome == NotDispatched && t.operations[r.id].errorCode == OperationConflictCode
            && t.operations[r.id].phase == LeaseConflictPhase && t.operations[r.id].disposition == RetryAfterValidation
            && t.events == s.events + [Event(r.id, r.scope, None, OperationConflict)]
            && t.operations[r.id].errorDetail == ActiveOperation(d.active))
  {
    AcceptableExactly(r);
    hide ValidRequest, Acceptable;
  }

  /** Under the invariant, what begins in a scope that is not free is an explicit repair of a blocked operation. */
  lemma OnlyRepairTakesOver(s: Tables, r: Request)
    requires Inv(s) && r.scope in s.leases && s.leases[r.scope].state != Released && Begin(s, r).1.Execute?
    ensures ExplicitRepair(r) && ScopeBlocked(s, r)
  {
    hide Inv;
    ExecutesExactly(s, r);
  }

  // ----- answers ------------------------------------------------------------------------------------------

  /** What a caller is told of a row: the stored fields, ok for success and work in progress, retryable by disposition. */
  ghost predicate Answers(id: Name, rec: Record, a: Response) {
    && a.operation == id && a.state == rec.state && a.phase == rec.phase && a.result == rec.result
    && a.errorCode == rec.errorCode && a.error == rec.errorDetail
    && (a.ok <==> rec.state == Succeeded || rec.state == Accepted || rec.state == Executing || rec.state == Reconciling)
    && (a.retryable <==> rec.disposition == RetryAfterValidation)
  }

  /** The operation holds its scope's lease in this state, with this token. */
  ghost predicate Fenced(s: Tables, id: Name, token: int, lease: LeaseState) {
    && id in s.operations && s.operations[id].token == Some(token)
    && s.operations[id].scope in s.leases && s.leases[s.operations[id].scope] == Lease(id, token, lease)
  }

  /** Only the operation's own row and its scope's lease differ. */
  ghost predicate OnlyOwn(s: Tables, t: Tables, id: Name, lease: Lease) {
    && id in s.operations && id in t.operations && SameRequest(s.operations[id], t.operations[id])
    && t.operations == s.operations[id := t.operations[id]]
    && t.leases == s.leases[s.operations[id].scope := lease]
  }

  /**
   Completion happens exactly for a fenced executing operation whose result fits. It records what the handler said:
   success with its result, or failure with its error and a retry, and releases the lease. A handler that asks for
   recovery leaves the operation blocked under the next token.
   */
  lemma CompletesExactly(s: Tables, id: Name, token: int, c: Completion)
    ensures
      var (t, a) := Complete(s, id, token, c);
      && (a.Some? <==>
            Fenced(s, id, token, Held) && s.operations[id].state == Executing && (c.result.Some? ==> c.resultFits))
      && (a.None? ==> t == s)
      && (a.Some? ==> id in t.operations && Answers(id, t.operations[id], a.value))
      && (a.Some? && c.errorCode != RecoveryRequiredCode ==>
            && a.value.ok == c.ok && a.value.result == c.result && a.value.retryable == !c.ok
            && a.value.state == (if c.ok then Succeeded else Failed)
            && t.operations[id].outcome == (if c.ok then ConfirmedApplied else Mixed)
            && a.value.errorCode == (if c.ok then NoCode else if c.errorCode == NoCode then ExecutionFailed else c.errorCode)
            && a.value.error == (if c.ok then NoDetail else c.error)
            && a.value.phase == CompletedPhase
            && t.operations[id].token == Some(token) && OnlyOwn(s, t, id, Lease(id, token, Released))
            && t.events == s.events + [Event(id, s.operations[id].scope, Some(token), OperationFinished)])
      && (a.Some? && c.errorCode == RecoveryRequiredCode ==>
            && !a.value.ok && !a.value.retryable && a.value.state == ActionRequired && a.value.errorCode == RecoveryRequiredCode
            && t.operations[id].outcome == Unknown && t.operations[id].token == Some(token + 1)
            && a.value.phase == ReconciliationRequiredPhase && a.value.result == s.operations[id].result
            && OnlyOwn(s, t, id, Lease(id, token + 1, RecoveryRequired))
            && t.events == s.events + [Event(id, s.operations[id].scope, Some(token + 1), ReconciliationRequired)])
  {
  }

  /** The completion of a recovery: only for a blocked operation with its recovery lease, and as the observer said. */
  lemma RecoveryCompletesExactly(s: Tables, id: Name, token: int, c: Completion)
    ensures
      var (t, a) := CompleteRecovery(s, id, token, c);
      && (a.Some? <==>
            Fenced(s, id, token, RecoveryRequired) && s.operations[id].state == ActionRequired && (c.result.Some? ==> c.resultFits))
      && (a.None? ==> t == s)
      && (a.Some? ==>
            && id in t.operations && Answers(id, t.operations[id], a.value)
            && a.value.ok == c.ok && a.value.result == c.result && !a.value.retryable
            && a.value.state == (if c.ok then Succeeded else Failed)
            && t.operations[id].outcome == (if c.ok then ConfirmedApplied else ConfirmedAbsent)
            && a.value.errorCode == (if c.ok then NoCode else if c.errorCode == NoCode then RecoveryRolledBack else c.errorCode)
            && a.value.error == (if c.ok then NoDetail else c.error) && a.value.phase == RecoveryCompletedPhase
            && OnlyOwn(s, t, id, Lease(id, token, Released))
            && t.events == s.events + [Event(id, s.operations[id].scope, Some(token), OperationFinished)])
  {
  }

  /** The administrator releases exactly a blocked operation with its recovery lease; it is failed, never succeeded. */
  lemma ResolvesExactly(s: Tables, id: Name)
    ensures
      var (t, ok) := Resolve(s, id);
      && (ok <==>
            && id in s.operations && s.operations[id].state == ActionRequired && s.operations[id].scope in s.leases
            && s.leases[s.operations[id].scope].holder == id && s.leases[s.operations[id].scope].state == RecoveryRequired)
      && (!ok ==> t == s)
      && (ok ==>
            && t.operations[id].state == Failed && t.operations[id].errorCode == AdministratorResolvedCode
            && t.operations[id].outcome == s.operations[id].outcome && t.operations[id].result == s.operations[id].result
            && t.operations[id].phase == AdministratorResolvedPhase && t.operations[id].disposition == NothingToRecover
            && OnlyOwn(s, t, id, s.leases[s.operations[id].scope].(state := Released)))
  {
  }

  /** Authorization moves exactly a fenced accepted operation to executing, with its outcome unknown from then on. */
  lemma AuthorizesExactly(s: Tables, id: Name, token: int)
    ensures
      var (t, ok) := Authorize(s, id, token);
      && (ok <==> Fenced(s, id, token, Held) && s.operations[id].state == Accepted)
      && (!ok ==> t == s)
      && (ok ==>
            && t.operations[id].state == Executing && t.operations[id].outcome == Unknown
            && t.operations[id].phase == MutationAuthorizedPhase && t.operations[id].disposition == ReconcileFirst
            && t.events == s.events + [Event(id, s.operations[id].scope, Some(token), MutationAuthorized)]
            && t.operations[id].token == Some(token) && OnlyOwn(s, t, id, Lease(id, token, Held)))
  {
  }

  /** A phase is recorded exactly for a fenced executing operation, and changes nothing but the phase. */
  lemma RecordsPhaseExactly(s: Tables, id: Name, token: int, phase: string)
    ensures
      var (t, ok) := RecordPhase(s, id, token, phase);
      && (ok <==> Fenced(s, id, token, Held) && s.operations[id].state == Executing)
      && (!ok ==> t == s)
      && (ok ==> t.operations == s.operations[id := s.operations[id].(phase := LifecyclePhase(phase))] && t.leases == s.leases)
  {
    if Fenced(s, id, token, Held) { assert s.leases[s.operations[id].scope := Lease(id, token, Held)] == s.leases; }
  }

  // ----- where successes and take-overs come from ----------------------------------------------------------------

  /** A handler or a recovery observer reported success for the operation, with this result. */
  ghost predicate ReportsSuccess(a: Action, id: Name, result: Option<nat>) {
    || (a.CompleteAction? && a.id == id && a.completion.ok && a.completion.result == result)
    || (a.CompleteRecoveryAction? && a.id == id && a.completion.ok && a.completion.result == result)
  }

  /** An explicit repair began in the scope. */
  ghost predicate BeginsRepair(a: Action, scope: Name) {
    a.BeginAction? && a.request.scope == scope && ExplicitRepair(a.request)
  }

  ghost predicate HasState(s: Tables, id: Name, state: OperationState) { id in s.operations && s.operations[id].state == state }

  /** A restart makes nothing succeeded or superseded. */
  lemma {:induction false} RestartInventsNothing(s: Tables, ids: seq<Name>, cut: nat, id: Name, state: OperationState)
    requires state == Succeeded || state == Superseded
    requires HasState(Recover(s, ids, cut), id, state)
    ensures HasState(s, id, state) && Recover(s, ids, cut).operations[id] == s.operations[id]
    decreases |ids|
  {
    if !(ids == [] || cut == 0 || !(LeaseOf(s, ids[0]) && s.operations[ids[0]].token.Some?)) {
      var marked := MarkReconciling(s, ids[0]);
      if cut > 1 {
        var t := RecoverOne(marked, ids[0], s.operations[ids[0]].state);
        RestartInventsNothing(t, ids[1..], cut - 2, id, state);
      }
    }
  }

  lemma StepSucceeds(s: Tables, a: Action, id: Name)
    requires HasState(Perform(s, a), id, Succeeded) && !HasState(s, id, Succeeded)
    ensures ReportsSuccess(a, id, Perform(s, a).operations[id].result)
  {
    match a
    case RestartAction(ids, cut) => RestartInventsNothing(s, ids, cut, id, Succeeded);
    case CompleteAction(x, token, c) => CompletesExactly(s, x, token, c);
    case CompleteRecoveryAction(x, token, c) => RecoveryCompletesExactly(s, x, token, c);
    case _ =>
  }

  lemma StepSupersedes(s: Tables, a: Action, id: Name)
    requires Inv(s) && HasState(Perform(s, a), id, Superseded) && !HasState(s, id, Superseded)
    ensures BeginsRepair(a, Perform(s, a).operations[id].scope)
  {
    match a
    case RestartAction(ids, cut) => RestartInventsNothing(s, ids, cut, id, Superseded);
    case BeginAction(r) => BeginSupersedes(s, r, id);
    case _ => hide Inv;
  }

  lemma BeginSupersedes(s: Tables, r: Request, id: Name)
    requires Inv(s) && HasState(Begin(s, r).0, id, Superseded) && !HasState(s, id, Superseded)
    ensures ExplicitRepair(r) && Begin(s, r).0.operations[id].scope == r.scope
  {
    if r.scope in s.leases { HolderMatches(s, r.scope); }
    hide Inv;
    ExecutesExactly(s, r);
    RefusesExactly(s, r);
    hide Begin, Acceptable;
  }

  lemma FinishedStays(s: Tables, t: Tables, id: Name)
    requires Evolves(s, t) && (HasState(s, id, Succeeded) || HasState(s, id, Superseded))
    ensures id in t.operations && t.operations[id] == s.operations[id]
  {
  }

  /** Over every run, a succeeded operation was reported successful, with the result that is stored. */
  lemma {:induction false} SuccessWasReported(trace: seq<Tables>, actions: seq<Action>, i: nat, id: Name)
    requires Run(trace, actions) && i < |trace| && HasState(trace[i], id, Succeeded)
    ensures exists j :: 0 <= j < i && ReportsSuccess(actions[j], id, trace[i].operations[id].result)
  {
    hide Inv, Evolves, ReportsSuccess, Perform;
    if i > 0 {
      if HasState(trace[i - 1], id, Succeeded) {
        SuccessWasReported(trace, actions, i - 1, id);
        RunEvolves(trace, actions, i - 1, i);
        FinishedStays(trace[i - 1], trace[i], id);
      } else {
        StepSucceeds(trace[i - 1], actions[i - 1], id);
      }
    }
  }

  /** Over every run, a superseded operation was taken over by an explicit repair of its scope. */
  lemma {:induction false} SupersededByRepairOnly(trace: seq<Tables>, actions: seq<Action>, i: nat, id: Name)
    requires Run(trace, actions) && i < |trace| && HasState(trace[i], id, Superseded)
    ensures exists j :: 0 <= j < i && BeginsRepair(actions[j], trace[i].operations[id].scope)
  {
    hide Inv, Evolves, BeginsRepair, Perform;
    if i > 0 {
      if HasState(trace[i - 1], id, Superseded) {
        SupersededByRepairOnly(trace, actions, i - 1, id);
        RunEvolves(trace, actions, i - 1, i);
        FinishedStays(trace[i - 1], trace[i], id);
      } else {
        RunInvariant(trace, actions, i - 1);
        StepSupersedes(trace[i - 1], actions[i - 1], id);
      }
    }
  }
}
