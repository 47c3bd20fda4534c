/**
 The lease invariant and the evolution relation, with one lemma per transaction showing that
 the transaction keeps both.
 */
module CoordinatorInvariant {
  import opened Options
  import opened CoordinatorModel

  predicate HoldsLease(s: Tables, id: Name, state: LeaseState)
    requires id in s.operations
  {
    var rec := s.operations[id];
    rec.scope in s.leases && rec.token.Some? && s.leases[rec.scope] == Lease(id, rec.token.value, state)
  }

  /** Which operation states go with which lease state. */
  predicate Matches(lease: LeaseState, state: OperationState) {
    match lease
    case Held => state.Accepted? || state.Executing?
    case RecoveryRequired => state.Reconciling? || state.ActionRequired?
    case Released => state.Succeeded? || state.Failed?
  }

  /** Every unfinished operation holds its scope's lease with an equal token. */
  ghost predicate OperationsHoldLeases(s: Tables) {
    forall id :: id in s.operations && Unfinished(s.operations[id].state) ==>
      HoldsLease(s, id, if Matches(Held, s.operations[id].state) then Held else RecoveryRequired)
  }

  /** The lease's last holder is recorded, in that scope, in a state matching the lease. */
  predicate LeaseMatchesHolder(s: Tables, scope: Name)
    requires scope in s.leases
  {
    var lease := s.leases[scope];
    && lease.holder in s.operations
    && s.operations[lease.holder].scope == scope
    && s.operations[lease.holder].token == Some(lease.token)
    && Matches(lease.state, s.operations[lease.holder].state)
  }

  ghost predicate LeasesHaveHolders(s: Tables) {
    forall scope :: scope in s.leases ==> LeaseMatchesHolder(s, scope)
  }

  /** Tokens never exceed their scope's lease token, and are not shared by two operations. */
  ghost predicate TokensBounded(s: Tables) {
    forall id :: id in s.operations && s.operations[id].token.Some? ==>
      var rec := s.operations[id];
      && rec.scope in s.leases
      && 1 <= rec.token.value <= s.leases[rec.scope].token
      && (rec.token.value == s.leases[rec.scope].token ==> id == s.leases[rec.scope].holder)
  }

  ghost predicate TokensDistinct(s: Tables) {
    forall a, b :: a in s.operations && b in s.operations && a != b
      && s.operations[a].scope == s.operations[b].scope && s.operations[a].token.Some?
      ==> s.operations[a].token != s.operations[b].token
  }

  predicate EventAt(s: Tables, i: int, id: Name, kind: EventKind) {
    0 <= i < |s.events| && s.events[i].operation == id && s.events[i].kind == kind
  }

  ghost predicate Happened(s: Tables, id: Name, kind: EventKind) {
    exists i :: EventAt(s, i, id, kind)
  }

  /** The event log names recorded operations only, and an authorized operation is no longer accepted. */
  ghost predicate EventsSound(s: Tables) {
    forall i :: 0 <= i < |s.events| ==>
      && s.events[i].operation in s.operations
      && (s.events[i].kind.MutationAuthorized? ==> !s.operations[s.events[i].operation].state.Accepted?)
  }

  /** The lease invariant without the event log. */
  ghost predicate LeaseInv(s: Tables) {
    OperationsHoldLeases(s) && LeasesHaveHolders(s) && TokensBounded(s) && TokensDistinct(s)
  }

  ghost predicate Inv(s: Tables) {
    LeaseInv(s) && EventsSound(s)
  }

  /** Operations keep their request; finished ones keep their whole row. */
  ghost predicate OperationsPersist(s: Tables, t: Tables) {
    forall id :: id in s.operations ==>
      && id in t.operations && SameRequest(s.operations[id], t.operations[id])
      && (!Unfinished(s.operations[id].state) ==> t.operations[id] == s.operations[id])
  }

  ghost predicate LeaseTokensGrow(s: Tables, t: Tables) {
    forall scope :: scope in s.leases ==> scope in t.leases && s.leases[scope].token <= t.leases[scope].token
  }

  ghost predicate TokensFresh(s: Tables, t: Tables) {
    forall id :: id in t.operations && t.operations[id].token.Some? ==> TokenOldOrFresh(s, t, id)
  }

  /** What no transaction ever undoes, between an earlier and a later table state. */
  ghost predicate Evolves(s: Tables, t: Tables) {
    OperationsPersist(s, t) && LeaseTokensGrow(s, t) && TokensFresh(s, t) && s.events <= t.events
  }

  predicate SameRequest(a: Record, b: Record) {
    a.requestHash == b.requestHash && a.kind == b.kind && a.scope == b.scope
  }

  /** The token an operation has later is the one it had before, or exceeds its scope's earlier token. */
  predicate TokenOldOrFresh(s: Tables, t: Tables, id: Name)
    requires id in t.operations && t.operations[id].token.Some?
  {
    var rec := t.operations[id];
    || (id in s.operations && s.operations[id].token == rec.token)
    || rec.scope !in s.leases
    || s.leases[rec.scope].token < rec.token.value
  }

  lemma EvolvesReflexive(s: Tables)
    ensures Evolves(s, s)
  {
  }

  lemma EvolvesTransitive(s: Tables, t: Tables, u: Tables)
    requires Evolves(s, t) && Evolves(t, u)
    ensures Evolves(s, u)
  {
    forall id | id in u.operations && u.operations[id].token.Some?
      ensures TokenOldOrFresh(s, u, id)
    {
      assert TokenOldOrFresh(t, u, id);
      if id in t.operations && t.operations[id].token == u.operations[id].token {
        assert TokenOldOrFresh(s, t, id);
      }
    }
  }

  /** Each scope has at most one unfinished operation. */
  lemma OneUnfinishedPerScope(s: Tables, a: Name, b: Name)
    requires Inv(s) && a in s.operations && b in s.operations
    requires Unfinished(s.operations[a].state) && Unfinished(s.operations[b].state)
    requires s.operations[a].scope == s.operations[b].scope
    ensures a == b
  {
    assert s.leases[s.operations[a].scope].holder == a;
  }

  /** A new operation ID is never already the holder of a lease: the acceptance branch for that case is dead. */
  lemma NewOperationHoldsNoLease(s: Tables, r: Request)
    requires Inv(s) && r.id !in s.operations && r.scope in s.leases
    ensures s.leases[r.scope].holder != r.id
  {
  }

  lemma EmptyIsValid()
    ensures Inv(EMPTY)
  {
  }

  /** What a lease's state says about its holder. */
  lemma HolderMatches(s: Tables, scope: Name)
    requires Inv(s) && scope in s.leases
    ensures LeaseMatchesHolder(s, scope)
  {
  }

  /** A blocked operation's recovery lease is there for the administrator, and for CompleteRecovery, to release. */
  lemma BlockedIsResolvable(s: Tables, id: Name)
    requires Inv(s) && id in s.operations && s.operations[id].state == ActionRequired
    ensures Resolve(s, id).1
    ensures s.operations[id].token.Some? && RecoveryFenceHolds(s, id, s.operations[id].token.value)
  {
  }

  lemma AuthorizedIsNotAccepted(s: Tables, id: Name)
    requires Inv(s) && id in s.operations && Happened(s, id, MutationAuthorized)
    ensures s.operations[id].state != Accepted
  {
  }

  // ----- every transaction keeps the invariant and evolves the tables ---------------------

  /** A new operation may take a scope in which nothing is unfinished, with a token above the last one. */
  ghost predicate MayGrant(s: Tables, r: Request, token: int) {
    && r.id !in s.operations && token >= 1
    && (r.scope in s.leases ==> s.leases[r.scope].token < token)
    && (forall id :: id in s.operations && s.operations[id].scope == r.scope ==> !Unfinished(s.operations[id].state))
  }

  lemma GrantKeepsHolders(s: Tables, r: Request, token: int)
    requires MayGrant(s, r, token) && OperationsHoldLeases(s)
    requires forall scope :: scope in s.leases && scope != r.scope ==> LeaseMatchesHolder(s, scope)
    ensures OperationsHoldLeases(Grant(s, r, token)) && LeasesHaveHolders(Grant(s, r, token))
  {
  }

  lemma GrantKeepsBounds(s: Tables, r: Request, token: int)
    requires MayGrant(s, r, token) && TokensBounded(s)
    ensures TokensBounded(Grant(s, r, token))
  {
  }

  lemma GrantKeepsDistinct(s: Tables, r: Request, token: int)
    requires MayGrant(s, r, token) && TokensBounded(s) && TokensDistinct(s)
    ensures TokensDistinct(Grant(s, r, token))
  {
    var t := Grant(s, r, token);
    forall a, b | a in t.operations && b in t.operations && a != b
      && t.operations[a].scope == t.operations[b].scope && t.operations[a].token.Some?
      ensures t.operations[a].token != t.operations[b].token
    {
      hide MayGrant, TokensDistinct;
      if a == r.id {
        GrantedIsNew(s, r, token, b);
      } else if b == r.id {
        GrantedIsNew(s, r, token, a);
      } else {
        DistinctPair(s, a, b);
      }
    }
  }

  lemma GrantedIsNew(s: Tables, r: Request, token: int, a: Name)
    requires MayGrant(s, r, token) && TokensBounded(s) && a in s.operations && s.operations[a].scope == r.scope
    ensures s.operations[a].token != Some(token)
  {
  }

  lemma DistinctPair(s: Tables, a: Name, b: Name)
    requires TokensDistinct(s) && a in s.operations && b in s.operations && a != b
    requires s.operations[a].scope == s.operations[b].scope && s.operations[a].token.Some?
    ensures s.operations[a].token != s.operations[b].token
  {
  }

  lemma GrantEvolves(s: Tables, r: Request, token: int)
    requires MayGrant(s, r, token)
    ensures Evolves(s, Grant(s, r, token))
  {
  }

  lemma GrantKeepsEvents(s: Tables, r: Request, token: int)
    requires EventsSound(s) && r.id !in s.operations
    ensures EventsSound(Grant(s, r, token))
  {
  }

  /**
   One unfinished operation's row may be rewritten together with its lease as long as the new pair
   matches and the token is kept or advanced by one.
   */
  predicate Fits(before: Record, id: Name, rec: Record, lease: Lease, kind: EventKind) {
    && Unfinished(before.state) && SameRequest(before, rec)
    && lease.holder == id && rec.token == Some(lease.token) && Matches(lease.state, rec.state)
    && before.token.Some? && before.token.value <= lease.token <= before.token.value + 1
    && (rec.state.Accepted? ==> before.state.Accepted? && !kind.MutationAuthorized?)
  }

  lemma UpdateKeepsHolders(s: Tables, id: Name, rec: Record, lease: Lease, kind: EventKind)
    requires LeaseInv(s) && id in s.operations && Fits(s.operations[id], id, rec, lease, kind)
    ensures OperationsHoldLeases(Update(s, id, rec, lease, kind))
    ensures LeasesHaveHolders(Update(s, id, rec, lease, kind))
  {
  }

  lemma UpdateKeepsTokens(s: Tables, id: Name, rec: Record, lease: Lease, kind: EventKind)
    requires LeaseInv(s) && id in s.operations && Fits(s.operations[id], id, rec, lease, kind)
    ensures TokensBounded(Update(s, id, rec, lease, kind)) && TokensDistinct(Update(s, id, rec, lease, kind))
  {
    assert s.leases[rec.scope].holder == id;
  }

  lemma UpdateEvolves(s: Tables, id: Name, rec: Record, lease: Lease, kind: EventKind)
    requires LeaseInv(s) && id in s.operations && Fits(s.operations[id], id, rec, lease, kind)
    ensures Evolves(s, Update(s, id, rec, lease, kind))
  {
    assert HoldsLease(s, id, if Matches(Held, s.operations[id].state) then Held else RecoveryRequired);
    hide LeaseInv;
    var t := Update(s, id, rec, lease, kind);
    forall x | x in t.operations && t.operations[x].token.Some? ensures TokenOldOrFresh(s, t, x) {
      if x != id { assert t.operations[x] == s.operations[x]; }
    }
  }

  lemma UpdateKeepsEvents(s: Tables, id: Name, rec: Record, lease: Lease, kind: EventKind)
    requires EventsSound(s) && id in s.operations && Fits(s.operations[id], id, rec, lease, kind)
    ensures EventsSound(Update(s, id, rec, lease, kind))
  {
  }

  lemma UpdateKeeps(s: Tables, id: Name, rec: Record, lease: Lease, kind: EventKind)
    requires Inv(s) && id in s.operations && Fits(s.operations[id], id, rec, lease, kind)
    ensures Inv(Update(s, id, rec, lease, kind)) && Evolves(s, Update(s, id, rec, lease, kind))
  {
    UpdateKeepsHolders(s, id, rec, lease, kind);
    UpdateKeepsTokens(s, id, rec, lease, kind);
    UpdateKeepsEvents(s, id, rec, lease, kind);
    UpdateEvolves(s, id, rec, lease, kind);
  }

  lemma GrantKeeps(s: Tables, r: Request, token: int)
    requires Inv(s) && MayGrant(s, r, token)
    ensures Inv(Grant(s, r, token)) && Evolves(s, Grant(s, r, token))
  {
    GrantKeepsHolders(s, r, token);
    GrantKeepsBounds(s, r, token);
    GrantKeepsDistinct(s, r, token);
    GrantKeepsEvents(s, r, token);
    GrantEvolves(s, r, token);
  }

  /** A recovery lease whose holder awaits the administrator; the next token is the lease's plus one. */
  ghost predicate MayTakeOver(s: Tables, r: Request, holder: Name, token: int) {
    && r.id !in s.operations && r.scope in s.leases && holder in s.operations
    && s.leases[r.scope] == Lease(holder, token - 1, RecoveryRequired)
    && s.operations[holder].state == ActionRequired
  }

  lemma TakeOverKeeps(s: Tables, r: Request, holder: Name, token: int)
    requires Inv(s) && MayTakeOver(s, r, holder, token)
    ensures Inv(Grant(Supersede(s, holder, token), r, token))
    ensures Evolves(s, Grant(Supersede(s, holder, token), r, token))
  {
    var mid := Supersede(s, holder, token);
    SupersededIsIdle(s, r, holder, token);
    SupersedeKeepsEvents(s, holder, token);
    GrantKeepsHolders(mid, r, token);
    GrantKeepsBounds(mid, r, token);
    GrantKeepsDistinct(mid, r, token);
    GrantKeepsEvents(mid, r, token);
    GrantEvolves(mid, r, token);
    EvolvesTransitive(s, mid, Grant(mid, r, token));
  }

  /** Between the two halves of a take-over only the taken scope's lease lacks a matching holder. */
  lemma SupersededIsIdle(s: Tables, r: Request, holder: Name, token: int)
    requires Inv(s) && MayTakeOver(s, r, holder, token)
    ensures
      var mid := Supersede(s, holder, token);
      && MayGrant(mid, r, token)
      && OperationsHoldLeases(mid) && TokensBounded(mid) && TokensDistinct(mid)
      && forall scope :: scope in mid.leases && scope != r.scope ==> LeaseMatchesHolder(mid, scope)
  {
  }

  lemma SupersedeKeepsEvents(s: Tables, id: Name, token: int)
    requires EventsSound(s) && id in s.operations && s.operations[id].state == ActionRequired
    ensures EventsSound(Supersede(s, id, token)) && Evolves(s, Supersede(s, id, token))
  {
  }

  lemma BeginKeeps(s: Tables, r: Request)
    requires Inv(s)
    ensures Inv(Begin(s, r).0) && Evolves(s, Begin(s, r).0)
  {
    hide Inv;
    match Admit(s, r)
    case Invalid => EvolvesReflexive(s);
    case Known => EvolvesReflexive(s);
    case Free(_) => FreeScopeKeeps(s, r);
    case TakeOver(_, _) => RepairKeeps(s, r);
    case Busy(_) => BusyScopeKeeps(s, r);
  }

  lemma FreeScopeKeeps(s: Tables, r: Request)
    requires Inv(s) && Admit(s, r).Free?
    ensures Inv(Begin(s, r).0) && Evolves(s, Begin(s, r).0)
  {
    IdleScopeMayGrant(s, r);
    hide Inv, Evolves, Grant, MayGrant;
    GrantKeeps(s, r, Admit(s, r).token);
  }

  lemma RepairKeeps(s: Tables, r: Request)
    requires Inv(s) && Admit(s, r).TakeOver?
    ensures Inv(Begin(s, r).0) && Evolves(s, Begin(s, r).0)
  {
    hide Inv, Evolves, Grant, Supersede;
    TakeOverAllowed(s, r);
    TakeOverKeeps(s, r, Admit(s, r).holder, Admit(s, r).token);
  }

  lemma TakeOverAllowed(s: Tables, r: Request)
    requires Admit(s, r).TakeOver?
    ensures MayTakeOver(s, r, Admit(s, r).holder, Admit(s, r).token)
  {
  }

  lemma BusyScopeKeeps(s: Tables, r: Request)
    requires Inv(s) && Admit(s, r).Busy?
    ensures Inv(Begin(s, r).0) && Evolves(s, Begin(s, r).0)
  {
    hide LeaseInv, EventsSound, Evolves, RecordConflict;
    ConflictKeepsLeases(s, r, Admit(s, r).holder);
    ConflictKeepsEvents(s, r, Admit(s, r).holder);
  }

  lemma IdleScopeMayGrant(s: Tables, r: Request)
    requires LeaseInv(s) && r.id !in s.operations
    requires r.scope in s.leases ==> s.leases[r.scope].state == Released
    ensures MayGrant(s, r, if r.scope in s.leases then s.leases[r.scope].token + 1 else 1)
  {
  }

  lemma ConflictKeepsLeases(s: Tables, r: Request, active: Name)
    requires LeaseInv(s) && r.id !in s.operations
    ensures LeaseInv(RecordConflict(s, r, active))
  {
  }

  lemma ConflictKeepsEvents(s: Tables, r: Request, active: Name)
    requires EventsSound(s) && r.id !in s.operations
    ensures EventsSound(RecordConflict(s, r, active)) && Evolves(s, RecordConflict(s, r, active))
  {
  }

  lemma AuthorizeKeeps(s: Tables, id: Name, token: int)
    requires Inv(s)
    ensures Inv(Authorize(s, id, token).0) && Evolves(s, Authorize(s, id, token).0)
  {
    EvolvesReflexive(s);
    if Authorize(s, id, token).1 {
      UpdateKeeps(s, id, Authorize(s, id, token).0.operations[id], Lease(id, token, Held), MutationAuthorized);
    }
  }

  lemma RecordPhaseKeeps(s: Tables, id: Name, token: int, phase: string)
    requires Inv(s)
    ensures Inv(RecordPhase(s, id, token, phase).0) && Evolves(s, RecordPhase(s, id, token, phase).0)
  {
    EvolvesReflexive(s);
    if RecordPhase(s, id, token, phase).1 {
      UpdateKeeps(s, id, s.operations[id].(phase := LifecyclePhase(phase)), Lease(id, token, Held), PhaseRecorded);
    }
  }

  lemma CompleteKeeps(s: Tables, id: Name, token: int, c: Completion)
    requires Inv(s)
    ensures Inv(Complete(s, id, token, c).0) && Evolves(s, Complete(s, id, token, c).0)
  {
    var (t, answer) := Complete(s, id, token, c);
    EvolvesReflexive(s);
    if answer.Some? {
      if c.errorCode == RecoveryRequiredCode {
        UpdateKeeps(s, id, t.operations[id], Lease(id, token + 1, RecoveryRequired), ReconciliationRequired);
      } else {
        UpdateKeeps(s, id, t.operations[id], Lease(id, token, Released), OperationFinished);
      }
    }
  }

  lemma CompleteRecoveryKeeps(s: Tables, id: Name, token: int, c: Completion)
    requires Inv(s)
    ensures Inv(CompleteRecovery(s, id, token, c).0) && Evolves(s, CompleteRecovery(s, id, token, c).0)
  {
    var (t, answer) := CompleteRecovery(s, id, token, c);
    EvolvesReflexive(s);
    if answer.Some? {
      UpdateKeeps(s, id, t.operations[id], Lease(id, token, Released), OperationFinished);
    }
  }

  lemma ResolveKeeps(s: Tables, id: Name)
    requires Inv(s)
    ensures Inv(Resolve(s, id).0) && Evolves(s, Resolve(s, id).0)
  {
    var (t, ok) := Resolve(s, id);
    EvolvesReflexive(s);
    if ok {
      UpdateKeeps(s, id, t.operations[id], t.leases[s.operations[id].scope], AdministratorReleased);
    }
  }

  /** Restart recovery never meets a missing lease or a NULL token. */
  lemma MarkReconcilingKeeps(s: Tables, id: Name)
    requires Inv(s) && id in s.operations && Interrupted(s.operations[id].state)
    ensures LeaseOf(s, id) && s.operations[id].token.Some?
    ensures Inv(MarkReconciling(s, id)) && Evolves(s, MarkReconciling(s, id))
  {
    var t := MarkReconciling(s, id);
    UpdateKeeps(s, id, t.operations[id], t.leases[s.operations[id].scope], RestartObserved);
  }

  lemma RecoverOneKeeps(s: Tables, id: Name, prior: OperationState)
    requires Inv(s) && id in s.operations && s.operations[id].state == Reconciling
    ensures LeaseOf(s, id)
    ensures Inv(RecoverOne(s, id, prior)) && Evolves(s, RecoverOne(s, id, prior))
  {
    var t := RecoverOne(s, id, prior);
    UpdateKeeps(s, id, t.operations[id], t.leases[s.operations[id].scope],
                if prior == Accepted then RestartNoMutation else RestartNeedsAdministrator);
  }
}
