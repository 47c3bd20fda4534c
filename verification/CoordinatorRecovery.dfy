/**
 Restart recovery over the operation tables: RecoverInterrupted as the sequence of its per-item
 transactions, cut off after any number of them, and the administrator's release of what remains.
 */
module CoordinatorRecovery {
  import opened Options
  import opened CoordinatorModel
  import opened CoordinatorInvariant

  /** The rows RecoverInterrupted selects, in whatever order the acceptance times give. */
  ghost predicate ListsInterrupted(s: Tables, ids: seq<Name>) {
    && Distinct(ids)
    && (forall id :: id in ids <==> id in s.operations && Interrupted(s.operations[id].state))
  }

  ghost predicate Distinct(ids: seq<Name>) {
    forall i, j :: 0 <= i < j < |ids| ==> ids[i] != ids[j]
  }

  ghost predicate AllInterrupted(s: Tables, ids: seq<Name>) {
    forall id :: id in ids ==> id in s.operations && Interrupted(s.operations[id].state)
  }

  /** Two transactions per item; the process may stop after any number of transactions. */
  function Recover(s: Tables, ids: seq<Name>, cut: nat): Tables
    decreases |ids|
  {
    if ids == [] || cut == 0 || !(LeaseOf(s, ids[0]) && s.operations[ids[0]].token.Some?) then s
    else
      var marked := MarkReconciling(s, ids[0]);
      if cut == 1 then marked
      else Recover(RecoverOne(marked, ids[0], s.operations[ids[0]].state), ids[1..], cut - 2)
  }

  /** What a finished recovery did to one interrupted operation, given its row before and after. */
  predicate Classified(before: Record, after: Record) {
    && after.token == Some(if before.token.Some? then before.token.value + 1 else 0)
    && (if before.state == Accepted
        then after.state == Failed && after.outcome == ConfirmedAbsent && after.disposition == RetryAfterValidation
             && after.errorCode == HelperRestarted
        else after.state == ActionRequired && after.outcome == Unknown && after.disposition == AdministratorAction
             && after.errorCode == RecoveryRequiredCode)
  }

  /** Recovering one item leaves every other operation's row and every other scope's lease alone. */
  lemma OneItem(s: Tables, id: Name)
    requires Inv(s) && id in s.operations && Interrupted(s.operations[id].state)
    ensures LeaseOf(s, id) && s.operations[id].token.Some?
    ensures LeaseOf(MarkReconciling(s, id), id)
    ensures
      var marked := MarkReconciling(s, id);
      var t := RecoverOne(marked, id, s.operations[id].state);
      && Inv(marked) && Evolves(s, marked) && Inv(t) && Evolves(s, t)
      && (forall x :: x in s.operations && x != id ==> t.operations[x] == s.operations[x])
      && t.operations.Keys == s.operations.Keys == marked.operations.Keys
      && Classified(s.operations[id], t.operations[id])
      && marked.operations == s.operations[id := marked.operations[id]]
      && marked.operations[id].outcome == Unknown
  {
    hide Inv;
    hide Evolves;
    MarkReconcilingKeeps(s, id);
    var marked := MarkReconciling(s, id);
    RecoverOneKeeps(marked, id, s.operations[id].state);
    EvolvesTransitive(s, marked, RecoverOne(marked, id, s.operations[id].state));
  }

  /** One round of the recovery loop, at item k with left transactions to go. */
  lemma RecoverUnfolds(s: Tables, ids: seq<Name>, k: nat, left: nat)
    requires Inv(s) && k < |ids| && ids[k] in s.operations && Interrupted(s.operations[ids[k]].state)
    ensures LeaseOf(s, ids[k]) && s.operations[ids[k]].token.Some? && LeaseOf(MarkReconciling(s, ids[k]), ids[k])
    ensures
      var marked := MarkReconciling(s, ids[k]);
      var t := RecoverOne(marked, ids[k], s.operations[ids[k]].state);
      && Inv(t)
      && (forall x :: x in s.operations && x != ids[k] ==> x in t.operations && t.operations[x] == s.operations[x])
      && Recover(s, ids[k..], left) ==
         if left == 0 then s else if left == 1 then marked else Recover(t, ids[k + 1..], left - 2)
  {
    hide Inv;
    hide Evolves;
    OneItem(s, ids[k]);
    assert ids[k..][0] == ids[k] && ids[k..][1..] == ids[k + 1..];
  }

  lemma {:induction false} RecoverKeeps(s: Tables, ids: seq<Name>, cut: nat)
    requires Inv(s) && Distinct(ids) && AllInterrupted(s, ids)
    ensures Inv(Recover(s, ids, cut)) && Evolves(s, Recover(s, ids, cut))
    ensures forall x :: x in s.operations && x !in ids ==>
      x in Recover(s, ids, cut).operations && Recover(s, ids, cut).operations[x] == s.operations[x]
    ensures Recover(s, ids, cut).operations.Keys == s.operations.Keys
    decreases |ids|
  {
    hide MarkReconciling;
    hide RecoverOne;
    hide Inv;
    hide Evolves;
    EvolvesReflexive(s);
    if ids != [] && cut > 0 {
      OneItem(s, ids[0]);
      if cut > 1 {
        var t := RecoverOne(MarkReconciling(s, ids[0]), ids[0], s.operations[ids[0]].state);
        RecoverKeeps(t, ids[1..], cut - 2);
        EvolvesTransitive(s, t, Recover(t, ids[1..], cut - 2));
      }
    }
  }

  /** A recovery that is not cut off meets no error and leaves nothing accepted, executing or reconciling. */
  lemma {:induction false} RecoverFinishes(s: Tables, ids: seq<Name>, cut: nat)
    requires Inv(s) && Distinct(ids) && AllInterrupted(s, ids) && cut >= 2 * |ids|
    ensures forall id :: id in ids ==>
      id in Recover(s, ids, cut).operations && Classified(s.operations[id], Recover(s, ids, cut).operations[id])
    decreases |ids|
  {
    hide MarkReconciling;
    hide RecoverOne;
    hide Inv;
    hide Evolves;
    if ids != [] {
      OneItem(s, ids[0]);
      var t := RecoverOne(MarkReconciling(s, ids[0]), ids[0], s.operations[ids[0]].state);
      RecoverKeeps(t, ids[1..], cut - 2);
      RecoverFinishes(t, ids[1..], cut - 2);
      forall id | id in ids
        ensures id in Recover(s, ids, cut).operations && Classified(s.operations[id], Recover(s, ids, cut).operations[id])
      {
        if id != ids[0] { assert id in ids[1..]; }
      }
    }
  }

  lemma RecoveryLeavesNoneInterrupted(s: Tables, ids: seq<Name>, cut: nat)
    requires Inv(s) && ListsInterrupted(s, ids) && cut >= 2 * |ids|
    ensures
      var t := Recover(s, ids, cut);
      && (forall id :: id in t.operations ==> !Interrupted(t.operations[id].state))
      && (forall scope :: scope in t.leases ==> t.leases[scope].state != Held)
  {
    hide Inv;
    hide Evolves;
    RecoverKeeps(s, ids, cut);
    RecoverFinishes(s, ids, cut);
    var t := Recover(s, ids, cut);
    forall scope | scope in t.leases
      ensures t.leases[scope].state != Held
    {
      HolderMatches(t, scope);
    }
  }

  /**
   Wherever recovery is cut off, an operation it newly calls confirmed absent had never been
   authorized to mutate anything.
   */
  lemma {:induction false} ConfirmedAbsentNeverAuthorized(s: Tables, ids: seq<Name>, cut: nat, id: Name)
    requires Inv(s) && Distinct(ids) && AllInterrupted(s, ids) && id in s.operations
    requires id in Recover(s, ids, cut).operations
    requires Recover(s, ids, cut).operations[id].outcome == ConfirmedAbsent
    requires s.operations[id].outcome != ConfirmedAbsent
    ensures s.operations[id].state == Accepted
    ensures !Happened(Recover(s, ids, cut), id, MutationAuthorized)
    decreases |ids|
  {
    hide MarkReconciling;
    hide RecoverOne;
    hide Inv;
    hide Evolves;
    if ids != [] && cut > 0 {
      OneItem(s, ids[0]);
      if cut > 1 {
        var t := RecoverOne(MarkReconciling(s, ids[0]), ids[0], s.operations[ids[0]].state);
        if id == ids[0] {
          RecoverKeeps(t, ids[1..], cut - 2);
          NoAuthorizationAdded(s, ids, cut, id);
          if Happened(s, id, MutationAuthorized) {
            AuthorizedIsNotAccepted(s, id);
          }
        } else {
          ConfirmedAbsentNeverAuthorized(t, ids[1..], cut - 2, id);
        }
      }
    }
  }

  /** Recovery logs no authorization of its own. */
  lemma {:induction false} NoAuthorizationAdded(s: Tables, ids: seq<Name>, cut: nat, id: Name)
    requires Inv(s) && Distinct(ids) && AllInterrupted(s, ids)
    ensures Happened(Recover(s, ids, cut), id, MutationAuthorized) ==> Happened(s, id, MutationAuthorized)
    decreases |ids|
  {
    hide Inv;
    hide Evolves;
    if ids != [] && cut > 0 {
      OneItem(s, ids[0]);
      var marked := MarkReconciling(s, ids[0]);
      if cut == 1 {
        NoneAdded(s, marked, id);
      } else {
        var t := RecoverOne(marked, ids[0], s.operations[ids[0]].state);
        NoAuthorizationAdded(t, ids[1..], cut - 2, id);
        NoneAdded(s, t, id);
      }
    }
  }

  lemma NoneAdded(s: Tables, t: Tables, id: Name)
    requires s.events <= t.events
    requires forall i :: |s.events| <= i < |t.events| ==> t.events[i].kind != MutationAuthorized
    ensures Happened(t, id, MutationAuthorized) ==> Happened(s, id, MutationAuthorized)
  {
    if Happened(t, id, MutationAuthorized) {
      var i :| EventAt(t, i, id, MutationAuthorized);
      assert EventAt(s, i, id, MutationAuthorized);
    }
  }

  // ----- administrator release -------------------------------------------------------------

  function ResolveAll(s: Tables, ids: seq<Name>): Tables
    decreases |ids|
  {
    if ids == [] then s else ResolveAll(Resolve(s, ids[0]).0, ids[1..])
  }

  ghost predicate ListsActionRequired(s: Tables, ids: seq<Name>) {
    && Distinct(ids)
    && (forall id :: id in ids <==> id in s.operations && s.operations[id].state == ActionRequired)
  }

  /** Once nothing is interrupted, releasing each blocked operation releases every lease. */
  lemma {:induction false} ResolveAllReleases(s: Tables, ids: seq<Name>)
    requires Inv(s) && ListsActionRequired(s, ids)
    requires forall id :: id in s.operations ==> !Interrupted(s.operations[id].state)
    ensures Inv(ResolveAll(s, ids))
    ensures forall scope :: scope in ResolveAll(s, ids).leases ==> ResolveAll(s, ids).leases[scope].state == Released
    decreases |ids|
  {
    hide Inv;
    hide Evolves;
    if ids == [] {
      forall scope | scope in s.leases
        ensures s.leases[scope].state == Released
      {
        HolderMatches(s, scope);
      }
    } else {
      ResolveKeeps(s, ids[0]);
      assert ids[0] in ids;
      BlockedIsResolvable(s, ids[0]);
      var t := Resolve(s, ids[0]).0;
      forall id
        ensures id in ids[1..] <==> id in t.operations && t.operations[id].state == ActionRequired
      {
        assert id in ids <==> id == ids[0] || id in ids[1..];
      }
      ResolveAllReleases(t, ids[1..]);
    }
  }
}
