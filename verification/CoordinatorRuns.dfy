/**
 Whole runs of the operation coordinator: any interleaving of transactions and restarts, starting
 from empty tables. The theorems speak about any two points of any run.
 */
module CoordinatorRuns {
  import opened Options
  import opened CoordinatorModel
  import opened CoordinatorInvariant
  import opened CoordinatorRecovery

  datatype Action =
    | BeginAction(request: Request)
    | AuthorizeAction(id: Name, token: int)
    | RecordPhaseAction(id: Name, token: int, phase: string)
    | CompleteAction(id: Name, token: int, completion: Completion)
    | CompleteRecoveryAction(id: Name, token: int, completion: Completion)
    | ResolveAction(id: Name)
    | RestartAction(ids: seq<Name>, cut: nat)

  function Perform(s: Tables, a: Action): Tables {
    match a
    case BeginAction(r) => Begin(s, r).0
    case AuthorizeAction(id, token) => Authorize(s, id, token).0
    case RecordPhaseAction(id, token, phase) => RecordPhase(s, id, token, phase).0
    case CompleteAction(id, token, c) => Complete(s, id, token, c).0
    case CompleteRecoveryAction(id, token, c) => CompleteRecovery(s, id, token, c).0
    case ResolveAction(id) => Resolve(s, id).0
    case RestartAction(ids, cut) => Recover(s, ids, cut)
  }

  /** A restart works through the rows that are interrupted at that moment; anything else may come at any time. */
  ghost predicate Possible(s: Tables, a: Action) {
    a.RestartAction? ==> ListsInterrupted(s, a.ids)
  }

  /** trace[i] are the tables before actions[i]. */
  ghost predicate Run(trace: seq<Tables>, actions: seq<Action>) {
    && |trace| == |actions| + 1
    && trace[0] == EMPTY
    && forall i :: 0 <= i < |actions| ==> Possible(trace[i], actions[i]) && trace[i + 1] == Perform(trace[i], actions[i])
  }

  lemma StepKeeps(s: Tables, a: Action)
    requires Inv(s) && Possible(s, a)
    ensures Inv(Perform(s, a)) && Evolves(s, Perform(s, a))
  {
    hide Inv;
    hide Evolves;
    match a
    case BeginAction(r) => BeginKeeps(s, r);
    case AuthorizeAction(id, token) => AuthorizeKeeps(s, id, token);
    case RecordPhaseAction(id, token, phase) => RecordPhaseKeeps(s, id, token, phase);
    case CompleteAction(id, token, c) => CompleteKeeps(s, id, token, c);
    case CompleteRecoveryAction(id, token, c) => CompleteRecoveryKeeps(s, id, token, c);
    case ResolveAction(id) => ResolveKeeps(s, id);
    case RestartAction(ids, cut) => RecoverKeeps(s, ids, cut);
  }

  /** Every state of every run satisfies the lease invariant. */
  lemma {:induction false} RunInvariant(trace: seq<Tables>, actions: seq<Action>, i: nat)
    requires Run(trace, actions) && i < |trace|
    ensures Inv(trace[i])
  {
    if i > 0 {
      hide Inv;
      RunInvariant(trace, actions, i - 1);
      StepKeeps(trace[i - 1], actions[i - 1]);
    }
  }

  lemma {:induction false} RunEvolves(trace: seq<Tables>, actions: seq<Action>, i: nat, j: nat)
    requires Run(trace, actions) && i <= j < |trace|
    ensures Evolves(trace[i], trace[j])
    decreases j - i
  {
    hide Inv;
    hide Evolves;
    if i == j {
      EvolvesReflexive(trace[i]);
    } else {
      RunEvolves(trace, actions, i, j - 1);
      RunInvariant(trace, actions, j - 1);
      StepKeeps(trace[j - 1], actions[j - 1]);
      EvolvesTransitive(trace[i], trace[j - 1], trace[j]);
    }
  }

  // ----- the theorems ------------------------------------------------------------------------

  /**
   In every reachable state an accepted or executing operation holds its scope's lease with an equal
   token, a reconciling or blocked one holds it as a recovery lease, a released lease's last holder
   has finished, and a scope has at most one unfinished operation.
   */
  lemma LeasesFollowOperations(trace: seq<Tables>, actions: seq<Action>, i: nat)
    requires Run(trace, actions) && i < |trace|
    ensures OperationsHoldLeases(trace[i]) && LeasesHaveHolders(trace[i])
    ensures forall id | id in trace[i].operations ::
              var rec := trace[i].operations[id];
              && (rec.state == Accepted || rec.state == Executing ==>
                    rec.token.Some? && rec.scope in trace[i].leases && trace[i].leases[rec.scope] == Lease(id, rec.token.value, Held))
              && (rec.state == Reconciling || rec.state == ActionRequired ==>
                    rec.token.Some? && rec.scope in trace[i].leases
                    && trace[i].leases[rec.scope] == Lease(id, rec.token.value, RecoveryRequired))
    ensures forall scope | scope in trace[i].leases && trace[i].leases[scope].state == Released ::
              var holder := trace[i].leases[scope].holder;
              holder in trace[i].operations && (trace[i].operations[holder].state == Succeeded || trace[i].operations[holder].state == Failed)
    ensures forall a, b |
              && a in trace[i].operations && Unfinished(trace[i].operations[a].state)
              && b in trace[i].operations && Unfinished(trace[i].operations[b].state)
              && trace[i].operations[a].scope == trace[i].operations[b].scope :: a == b
  {
    RunInvariant(trace, actions, i);
    var s := trace[i];
    forall a, b | a in s.operations && b in s.operations && Unfinished(s.operations[a].state)
      && Unfinished(s.operations[b].state) && s.operations[a].scope == s.operations[b].scope
      ensures a == b
    {
      OneUnfinishedPerScope(s, a, b);
    }
  }

  /** A scope's lease token never decreases. */
  lemma LeaseTokenNeverDecreases(trace: seq<Tables>, actions: seq<Action>, i: nat, j: nat, scope: Name)
    requires Run(trace, actions) && i <= j < |trace| && scope in trace[i].leases
    ensures scope in trace[j].leases && trace[i].leases[scope].token <= trace[j].leases[scope].token
  {
    RunEvolves(trace, actions, i, j);
  }

  /** No token value is ever given to two operations of one scope, however far apart in the run. */
  lemma TokenNeverShared(trace: seq<Tables>, actions: seq<Action>, i: nat, j: nat, a: Name, b: Name)
    requires Run(trace, actions) && i <= j < |trace|
    requires a in trace[i].operations && b in trace[j].operations
    requires trace[i].operations[a].scope == trace[j].operations[b].scope
    requires trace[i].operations[a].token.Some? && trace[i].operations[a].token == trace[j].operations[b].token
    ensures a == b
  {
    RunInvariant(trace, actions, i);
    RunEvolves(trace, actions, i, j);
    assert TokenOldOrFresh(trace[i], trace[j], b);
    assert SameRequest(trace[i].operations[a], trace[j].operations[a]);
    if b in trace[i].operations {
      assert SameRequest(trace[i].operations[b], trace[j].operations[b]);
    }
  }

  /**
   Once a scope's lease has moved past a token (by restart, RecoveryRequired or repair), every later
   use of that token in the scope fails and changes nothing.
   */
  lemma OvertakenTokenIsPowerless(trace: seq<Tables>, actions: seq<Action>, i: nat, j: nat, id: Name, token: int)
    requires Run(trace, actions) && i <= j < |trace|
    requires id in trace[j].operations && trace[j].operations[id].scope in trace[i].leases
    requires token < trace[i].leases[trace[j].operations[id].scope].token
    ensures Authorize(trace[j], id, token) == (trace[j], false)
    ensures forall phase :: RecordPhase(trace[j], id, token, phase) == (trace[j], false)
    ensures forall c :: Complete(trace[j], id, token, c) == (trace[j], None)
    ensures forall c :: CompleteRecovery(trace[j], id, token, c) == (trace[j], None)
  {
    LeaseTokenNeverDecreases(trace, actions, i, j, trace[j].operations[id].scope);
  }

  /** A finished operation's row is final, so every later replay of its request gets the same answer. */
  lemma FinishedAnswerIsFinal(trace: seq<Tables>, actions: seq<Action>, i: nat, j: nat, r: Request)
    requires Run(trace, actions) && i <= j < |trace|
    requires ValidRequest(r) && r.id in trace[i].operations && trace[i].operations[r.id].requestHash == r.hash
    requires !Unfinished(trace[i].operations[r.id].state)
    ensures r.id in trace[j].operations && trace[j].operations[r.id] == trace[i].operations[r.id]
    ensures Begin(trace[j], r) == (trace[j], Replay(ResponseFor(r.id, trace[i].operations[r.id])))
  {
    RunEvolves(trace, actions, i, j);
  }

  /** Begin lets an operation ID execute at most once in a run. */
  lemma ExecutesOnce(trace: seq<Tables>, actions: seq<Action>, i: nat, j: nat)
    requires Run(trace, actions) && i < j < |actions|
    requires actions[i].BeginAction? && actions[j].BeginAction?
    requires actions[i].request.id == actions[j].request.id
    requires Begin(trace[i], actions[i].request).1.Execute?
    ensures !Begin(trace[j], actions[j].request).1.Execute?
  {
    RunEvolves(trace, actions, i + 1, j);
    assert actions[i].request.id in trace[i + 1].operations;
  }

  /** An operation ID is authorized to mutate at most once in a run. */
  lemma AuthorizesOnce(trace: seq<Tables>, actions: seq<Action>, i: nat, j: nat)
    requires Run(trace, actions) && i < j < |actions|
    requires actions[i].AuthorizeAction? && actions[j].AuthorizeAction? && actions[i].id == actions[j].id
    requires Authorize(trace[i], actions[i].id, actions[i].token).1
    ensures !Authorize(trace[j], actions[j].id, actions[j].token).1
  {
    RunEvolves(trace, actions, i + 1, j);
    RunInvariant(trace, actions, j);
    assert EventAt(trace[j], |trace[i].events|, actions[i].id, MutationAuthorized);
    AuthorizedIsNotAccepted(trace[j], actions[i].id);
  }

  /**
   From every reachable state, a restart that is not cut off meets no missing lease or NULL token,
   leaves nothing accepted, executing or reconciling and no held lease, fails as absent only
   operations that were never authorized, and lets the administrator release every lease.
   */
  lemma RestartClearsInterrupted(
    trace: seq<Tables>, actions: seq<Action>, i: nat, ids: seq<Name>, cut: nat, blocked: seq<Name>)
    requires Run(trace, actions) && i < |trace|
    requires ListsInterrupted(trace[i], ids) && cut >= 2 * |ids|
    requires ListsActionRequired(Recover(trace[i], ids, cut), blocked)
    ensures
      var t := Recover(trace[i], ids, cut);
      && (forall id :: id in t.operations ==>
           t.operations[id].state == Succeeded || t.operations[id].state == Failed
           || t.operations[id].state == ActionRequired || t.operations[id].state == Superseded)
      && (forall scope :: scope in t.leases ==> t.leases[scope].state != Held)
      && (forall id :: id in ids ==>
           id in t.operations && Classified(trace[i].operations[id], t.operations[id]))
      && (forall scope :: scope in ResolveAll(t, blocked).leases ==> ResolveAll(t, blocked).leases[scope].state == Released)
  {
    hide Inv;
    hide Evolves;
    RunInvariant(trace, actions, i);
    RecoverKeeps(trace[i], ids, cut);
    RecoverFinishes(trace[i], ids, cut);
    RecoveryLeavesNoneInterrupted(trace[i], ids, cut);
    ResolveAllReleases(Recover(trace[i], ids, cut), blocked);
  }

  /** However a restart is cut off, what it newly reports as confirmed absent was never authorized. */
  lemma RestartReportsAbsentSafely(
    trace: seq<Tables>, actions: seq<Action>, i: nat, ids: seq<Name>, cut: nat, id: Name)
    requires Run(trace, actions) && i < |trace| && ListsInterrupted(trace[i], ids)
    requires id in trace[i].operations && trace[i].operations[id].outcome != ConfirmedAbsent
    requires id in Recover(trace[i], ids, cut).operations
    requires Recover(trace[i], ids, cut).operations[id].outcome == ConfirmedAbsent
    ensures !Happened(Recover(trace[i], ids, cut), id, MutationAuthorized)
  {
    RunInvariant(trace, actions, i);
    ConfirmedAbsentNeverAuthorized(trace[i], ids, cut, id);
  }
}
