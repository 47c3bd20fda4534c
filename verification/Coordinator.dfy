/**
 The operation coordinator as the program runs it: an object over the durable tables whose methods
 build a transaction statement by statement and then commit it. Each method is proved to perform
 exactly the transaction of CoordinatorModel, in every state that satisfies the lease invariant.
 */
module Coordinator {
  import opened Options
  import opened CoordinatorModel
  import opened CoordinatorInvariant
  import opened CoordinatorRecovery

  class Coordinator {
    var tables: Tables

    ghost predicate Valid()
      reads this
    {
      Inv(tables)
    }

    constructor ()
      ensures Valid() && tables == EMPTY
    {
      tables := EMPTY;
      hide Inv;
      EmptyIsValid();
    }

    /** Accept, replay, refuse or fail a request. */
    method Begin(r: Request) returns (d: Decision)
      requires Valid()
      modifies this
      ensures (tables, d) == CoordinatorModel.Begin(old(tables), r)
      ensures Valid() && Evolves(old(tables), tables)
    {
      BeginKeeps(tables, r);
      hide Inv;
      hide Evolves;
      if !ValidRequest(r) {
        return Rejected;
      }
      if r.id in tables.operations {
        var existing := tables.operations[r.id];
        if existing.requestHash != r.hash {
          return DifferentContents(existing.state);
        }
        return Replay(ResponseFor(r.id, existing));
      }
      d := AcquireLease(r);
    }

    /** The rest of the acceptance transaction: insert the operation, then decide by its scope's lease. */
    method AcquireLease(r: Request) returns (d: Decision)
      requires Valid() && ValidRequest(r) && r.id !in tables.operations
      modifies this
      ensures (tables, d) == CoordinatorModel.Begin(old(tables), r)
    {
      hide Evolves;
      var operations := tables.operations[r.id := FreshRecord(r)];
      if r.scope !in tables.leases {
        assert Admit(tables, r) == Free(1);
        Accept(r, operations, tables.operations, tables.events, 1);
        return Execute(1);
      }
      var lease := tables.leases[r.scope];
      HolderMatches(tables, r.scope);
      hide Inv;
      if lease.state == Released {
        assert Admit(tables, r) == Free(lease.token + 1);
        Accept(r, operations, tables.operations, tables.events, lease.token + 1);
        return Execute(lease.token + 1);
      } else if IsRepair(r) && lease.state == RecoveryRequired {
        var prior := operations[lease.holder];
        if prior.state != ActionRequired {
          return Rejected;
        }
        var token := lease.token + 1;
        assert Admit(tables, r) == TakeOver(lease.holder, token);
        operations := operations[lease.holder := prior.(
          state := Superseded, phase := SupersededByRepairPhase, disposition := NothingToRecover)];
        Accept(r, operations, Supersede(tables, lease.holder, token).operations,
               tables.events + [Event(lease.holder, r.scope, Some(token), SupersededByRepair)], token);
        return Execute(token);
      } else if lease.holder == r.id {
        // a new operation never already holds the lease
        assert false;
      } else {
        assert Admit(tables, r) == Busy(lease.holder);
        operations := operations[r.id := FreshRecord(r).(
          state := Failed, phase := LeaseConflictPhase, disposition := RetryAfterValidation,
          errorCode := OperationConflictCode, errorDetail := ActiveOperation(lease.holder))];
        assert operations == RecordConflict(tables, r, lease.holder).operations;
        tables := tables.(operations := operations,
                          events := tables.events + [Event(r.id, r.scope, None, OperationConflict)]);
        return LeaseConflict(lease.holder);
      }
    }

    /** Give the inserted operation its scope's lease and token, and commit. */
    method Accept(r: Request, inserted: map<Name, Record>, ghost others: map<Name, Record>, events: seq<Event>, token: int)
      requires inserted == others[r.id := FreshRecord(r)]
      modifies this
      ensures tables == Tables(others[r.id := FreshRecord(r).(token := Some(token))],
                               old(tables.leases)[r.scope := Lease(r.id, token, Held)],
                               events + [Event(r.id, r.scope, Some(token), OperationAccepted)])
    {
      var leases := tables.leases[r.scope := Lease(r.id, token, Held)];
      var operations := inserted[r.id := inserted[r.id].(token := Some(token))];
      assert operations == others[r.id := FreshRecord(r).(token := Some(token))];
      tables := Tables(operations, leases, events + [Event(r.id, r.scope, Some(token), OperationAccepted)]);
    }

    /** The fencing check every executor's transaction starts with. */
    method VerifyFence(id: Name, token: int) returns (ok: bool)
      ensures ok == FenceHolds(tables, id, token)
      ensures ok <==> && id in tables.operations && tables.operations[id].token == Some(token)
                      && tables.operations[id].scope in tables.leases
                      && tables.leases[tables.operations[id].scope] == Lease(id, token, Held)
    {
      if id !in tables.operations || tables.operations[id].token.None? {
        return false;
      }
      var operation := tables.operations[id];
      if operation.scope !in tables.leases {
        return false;
      }
      var lease := tables.leases[operation.scope];
      if lease.holder != id || operation.token.value != token || lease.token != token || lease.state != Held {
        return false;
      }
      return true;
    }

    method AuthorizeMutation(id: Name, token: int) returns (ok: bool)
      requires Valid()
      modifies this
      ensures (tables, ok) == Authorize(old(tables), id, token)
      ensures Valid() && Evolves(old(tables), tables)
    {
      AuthorizeKeeps(tables, id, token);
      hide Inv;
      hide Evolves;
      var fenced := VerifyFence(id, token);
      if !fenced || tables.operations[id].state != Accepted {
        return false;
      }
      var operation := tables.operations[id];
      var updated := operation.(state := Executing, phase := MutationAuthorizedPhase, outcome := Unknown,
                                disposition := ReconcileFirst);
      assert tables.leases[operation.scope := Lease(id, token, Held)] == tables.leases;
      tables := tables.(operations := tables.operations[id := updated],
                        events := tables.events + [Event(id, operation.scope, Some(token), MutationAuthorized)]);
      return true;
    }

    method RecordPhase(id: Name, token: int, phase: string) returns (ok: bool)
      requires Valid()
      modifies this
      ensures (tables, ok) == CoordinatorModel.RecordPhase(old(tables), id, token, phase)
      ensures Valid() && Evolves(old(tables), tables)
    {
      RecordPhaseKeeps(tables, id, token, phase);
      hide Inv;
      hide Evolves;
      var fenced := VerifyFence(id, token);
      if !fenced || tables.operations[id].state != Executing {
        return false;
      }
      var operation := tables.operations[id];
      assert tables.leases[operation.scope := Lease(id, token, Held)] == tables.leases;
      tables := tables.(operations := tables.operations[id := operation.(phase := LifecyclePhase(phase))],
                        events := tables.events + [Event(id, operation.scope, Some(token), PhaseRecorded)]);
      return true;
    }

    method Complete(id: Name, token: int, c: Completion) returns (answer: Option<Response>)
      requires Valid()
      modifies this
      ensures (tables, answer) == CoordinatorModel.Complete(old(tables), id, token, c)
      ensures Valid() && Evolves(old(tables), tables)
    {
      CompleteKeeps(tables, id, token, c);
      hide Inv;
      hide Evolves;
      if c.result.Some? && !c.resultFits {
        return None;
      }
      var detail := if c.ok then NoDetail else c.error;
      var fenced := VerifyFence(id, token);
      if !fenced || tables.operations[id].state != Executing {
        return None;
      }
      var operation := tables.operations[id];
      var events := tables.events;
      if c.errorCode == RecoveryRequiredCode {
        operation := BlockedRecord(operation, token + 1, detail);
        tables := Tables(tables.operations[id := operation],
                         tables.leases[operation.scope := Lease(id, token + 1, RecoveryRequired)],
                         events + [Event(id, operation.scope, Some(token + 1), ReconciliationRequired)]);
        return Some(ResponseFor(id, operation));
      }
      operation := FinishedRecord(operation, c);
      tables := Tables(tables.operations[id := operation],
                       tables.leases[operation.scope := tables.leases[operation.scope].(state := Released)],
                       events + [Event(id, operation.scope, Some(token), OperationFinished)]);
      return Some(ResponseFor(id, operation));
    }

    method CompleteRecovery(id: Name, token: int, c: Completion) returns (answer: Option<Response>)
      requires Valid()
      modifies this
      ensures (tables, answer) == CoordinatorModel.CompleteRecovery(old(tables), id, token, c)
      ensures Valid() && Evolves(old(tables), tables)
    {
      CompleteRecoveryKeeps(tables, id, token, c);
      hide Inv;
      hide Evolves;
      if c.result.Some? && !c.resultFits {
        return None;
      }
      if id !in tables.operations || tables.operations[id].token != Some(token)
         || tables.operations[id].state != ActionRequired {
        return None;
      }
      var operation := RecoveredRecord(tables.operations[id], c);
      // the lease update must hit exactly one row
      if operation.scope !in tables.leases || tables.leases[operation.scope] != Lease(id, token, RecoveryRequired) {
        return None;
      }
      tables := Tables(tables.operations[id := operation],
                       tables.leases[operation.scope := tables.leases[operation.scope].(state := Released)],
                       tables.events + [Event(id, operation.scope, Some(token), OperationFinished)]);
      return Some(ResponseFor(id, operation));
    }

    method ResolveActionRequired(id: Name) returns (ok: bool)
      requires Valid()
      modifies this
      ensures (tables, ok) == Resolve(old(tables), id)
      ensures Valid() && Evolves(old(tables), tables)
    {
      ResolveKeeps(tables, id);
      hide Inv;
      hide Evolves;
      if id !in tables.operations || tables.operations[id].state != ActionRequired {
        return false;
      }
      var operation := tables.operations[id];
      if operation.scope !in tables.leases || tables.leases[operation.scope].holder != id
         || tables.leases[operation.scope].state != RecoveryRequired {
        return false;
      }
      var token := tables.leases[operation.scope].token;
      tables := Tables(
        tables.operations[id := operation.(state := Failed, phase := AdministratorResolvedPhase,
                                           disposition := NothingToRecover, errorCode := AdministratorResolvedCode,
                                           errorDetail := ReleasedByAdministrator)],
        tables.leases[operation.scope := Lease(id, token, Released)],
        tables.events + [Event(id, operation.scope, Some(token), AdministratorReleased)]);
      return true;
    }

    /**
     Restart recovery. ids are the interrupted rows the initial query returns; the state each had then
     decides its class. The process stops after cut transactions if it has not finished by then.
     */
    method RecoverInterrupted(ids: seq<Name>, cut: nat) returns (finished: bool)
      requires Valid() && ListsInterrupted(tables, ids)
      modifies this
      ensures tables == Recover(old(tables), ids, cut)
      ensures Valid() && Evolves(old(tables), tables)
      ensures finished <==> cut >= 2 * |ids|
      ensures finished ==> forall id :: id in tables.operations ==> !Interrupted(tables.operations[id].state)
    {
      hide Inv;
      hide Evolves;
      hide MarkReconciling;
      hide RecoverOne;
      var before := tables;
      RecoverKeeps(tables, ids, cut);
      if cut >= 2 * |ids| {
        RecoveryLeavesNoneInterrupted(tables, ids, cut);
      }
      var left := cut;
      for k := 0 to |ids|
        invariant Valid() && left == cut - 2 * k
        invariant Recover(tables, ids[k..], left) == Recover(before, ids, cut)
        invariant forall i :: k <= i < |ids| ==>
          ids[i] in tables.operations && tables.operations[ids[i]] == before.operations[ids[i]]
      {
        assert ids[k] in ids;
        RecoverUnfolds(tables, ids, k, left);
        if left == 0 {
          return false;
        }
        tables := MarkReconciling(tables, ids[k]);
        if left == 1 {
          return false;
        }
        tables := RecoverOne(tables, ids[k], before.operations[ids[k]].state);
        left := left - 2;
      }
      return true;
    }
  }
}
