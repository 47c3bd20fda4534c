/**
 The edit that a host-state backup makes to its own copy of the operation tables: the backup that is
 being taken is recorded in the copy as finished, so that a later restore of the copy does not find it
 interrupted.
 */
module BackupSnapshot {
  import opened Options
  import opened CoordinatorModel
  import opened CoordinatorInvariant
  import opened CoordinatorRecovery

  const BACKUP_KIND := "BackupHelperState"
  const BACKUP_SCOPE := Name("helper-state")

  function BackupRecord(rec: Record): Record {
    rec.(state := Succeeded, phase := CompletedPhase, outcome := ConfirmedApplied, disposition := NothingToRecover,
         result := None, errorCode := NoCode, errorDetail := NoDetail)
  }

  /** The rows the two updates must hit for the edit to be kept. */
  predicate Editable(s: Tables, id: Name) {
    && id in s.operations && s.operations[id].kind == BACKUP_KIND && Interrupted(s.operations[id].state)
    && BACKUP_SCOPE in s.leases && s.leases[BACKUP_SCOPE].holder == id && s.leases[BACKUP_SCOPE].state == Held
  }

  method CompleteInSnapshot(s: Tables, id: Name) returns (t: Tables, ok: bool)
    requires Inv(s)
    ensures ok <==> Editable(s, id)
    ensures ok <==> && id in s.operations && s.operations[id].kind == BACKUP_KIND
                    && s.operations[id].scope == BACKUP_SCOPE
                    && (s.operations[id].state == Accepted || s.operations[id].state == Executing)
    ensures !ok ==> t == s
    ensures ok ==> Inv(t) && Evolves(s, t) && t.operations[id].state == Succeeded
    ensures ok ==> t.operations[id].outcome == ConfirmedApplied && t.operations[id].result == None
                   && t.operations[id].errorCode == NoCode && t.operations[id].token == s.operations[id].token
    ensures ok ==> t.leases == s.leases[BACKUP_SCOPE := s.leases[BACKUP_SCOPE].(state := Released)]
    ensures ok ==> t.operations == s.operations[id := t.operations[id]]
  {
    EditableExactly(s, id);
    hide Inv;
    hide Evolves;
    t := s;
    if id !in s.operations || s.operations[id].kind != BACKUP_KIND || !Interrupted(s.operations[id].state) {
      return s, false;
    }
    var edited := t.(operations := t.operations[id := BackupRecord(t.operations[id])]);
    if BACKUP_SCOPE !in edited.leases || edited.leases[BACKUP_SCOPE].holder != id
       || edited.leases[BACKUP_SCOPE].state != Held {
      return s, false;
    }
    edited := edited.(leases := edited.leases[BACKUP_SCOPE := edited.leases[BACKUP_SCOPE].(state := Released)]);
    var operation := edited.operations[id];
    edited := edited.(events := edited.events + [Event(id, operation.scope, operation.token, OperationFinished)]);
    t := edited;
    ok := true;
    assert t == Update(s, id, BackupRecord(s.operations[id]), Lease(id, s.operations[id].token.value, Released),
                       OperationFinished);
    UpdateKeeps(s, id, BackupRecord(s.operations[id]), Lease(id, s.operations[id].token.value, Released),
                OperationFinished);
  }

  /** Under the lease invariant the edit applies exactly to an accepted or executing backup of the helper state. */
  lemma EditableExactly(s: Tables, id: Name)
    requires Inv(s)
    ensures Editable(s, id) <==>
            && id in s.operations && s.operations[id].kind == BACKUP_KIND && s.operations[id].scope == BACKUP_SCOPE
            && (s.operations[id].state == Accepted || s.operations[id].state == Executing)
    ensures Editable(s, id) ==> HoldsLease(s, id, Held) && s.operations[id].scope == BACKUP_SCOPE
  {
    hide Evolves;
    if BACKUP_SCOPE in s.leases {
      HolderMatches(s, BACKUP_SCOPE);
    }
  }

  /** Restart recovery on the edited tables, wherever it is cut off, leaves the backup's row and lease alone. */
  lemma RecoveryLeavesBackupAlone(t: Tables, id: Name, ids: seq<Name>, cut: nat)
    requires Inv(t) && ListsInterrupted(t, ids)
    requires id in t.operations && t.operations[id].state == Succeeded
    requires BACKUP_SCOPE in t.leases && t.leases[BACKUP_SCOPE].holder == id
    requires t.leases[BACKUP_SCOPE].state == Released
    ensures id in Recover(t, ids, cut).operations && Recover(t, ids, cut).operations[id] == t.operations[id]
    ensures BACKUP_SCOPE in Recover(t, ids, cut).leases
    ensures Recover(t, ids, cut).leases[BACKUP_SCOPE] == t.leases[BACKUP_SCOPE]
  {
    hide Evolves;
    RecoverKeeps(t, ids, cut);
    ReleasedLeaseStays(t, ids, cut, BACKUP_SCOPE);
  }

  /** Recovery only touches leases whose holder it recovers. */
  lemma {:induction false} ReleasedLeaseStays(t: Tables, ids: seq<Name>, cut: nat, scope: Name)
    requires Inv(t) && Distinct(ids) && AllInterrupted(t, ids)
    requires scope in t.leases && t.leases[scope].state == Released
    ensures scope in Recover(t, ids, cut).leases && Recover(t, ids, cut).leases[scope] == t.leases[scope]
    decreases |ids|
  {
    hide Inv;
    hide Evolves;
    if ids != [] && cut > 0 {
      HolderMatches(t, scope);
      OneItem(t, ids[0]);
      HolderMatches(t, t.operations[ids[0]].scope);
      if cut > 1 {
        ReleasedLeaseStays(RecoverOne(MarkReconciling(t, ids[0]), ids[0], t.operations[ids[0]].state), ids[1..], cut - 2, scope);
      }
    }
  }
}
