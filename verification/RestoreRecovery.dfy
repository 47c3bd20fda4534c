/** Recovery of an interrupted application restore at the next start, itself interruptible anywhere. */
module RestoreRecovery {
  import opened Options
  import opened RestoreHost
  import opened Outcomes
  import opened ApplicationRestore

  datatype Active = ActiveRestored | ActiveOriginal | ActiveMissing

  datatype Classification = Ambiguous | Classified(active: Active, originalAvailable: bool)

  datatype RecoveryOutcome = NothingToDo | WentForward | WentBack | NeedsAttention | Mixed | LeaseLost

  predicate HasIdentity(path: Option<Tree>, id: nat) { path.Some? && path.value.id == id }

  /** Which tree is active, and whether the original is still there, judged by path identities alone. */
  function Classify(sl: Slot): Classification {
    var originalIsOriginal := HasIdentity(sl.original, sl.originalId);
    var originalIsStaged := HasIdentity(sl.original, sl.stagedId);
    var rollbackIsOriginal := HasIdentity(sl.rollback, sl.originalId);
    if || (sl.original.Some? && !originalIsOriginal && !originalIsStaged)
       || (sl.rollback.Some? && !rollbackIsOriginal)
       || (sl.staged.Some? && !HasIdentity(sl.staged, sl.stagedId))
    then Ambiguous
    else
      Classified(
        if originalIsStaged then ActiveRestored else if originalIsOriginal then ActiveOriginal else ActiveMissing,
        originalIsOriginal || rollbackIsOriginal)
  }

  /** Before a commit, identities tell the three shapes of a slot apart and always find the whole original. */
  lemma ClassifySafe(sl: Slot)
    requires Safe(sl)
    ensures Classify(sl).Classified? && Classify(sl).originalAvailable
    ensures Classify(sl).active == ActiveRestored <==> Swapped(sl)
    ensures Classify(sl).active == ActiveOriginal <==> Untouched(sl)
    ensures Classify(sl).active == ActiveMissing <==> Emptied(sl)
    ensures HasIdentity(sl.rollback, sl.originalId) <==> !Untouched(sl)
  {
  }

  lemma ClassifyCleaned(sl: Slot)
    requires Cleaned(sl) && sl.originalId != sl.stagedId
    ensures Classify(sl).Classified? && Classify(sl).active == ActiveRestored
  {
  }

  predicate Unresolved(phase: Phase) {
    phase in {Staged, Swapping, RuntimePending, Committed, ActionRequired}
  }

  /** The survey over all slots: are all restored, and can every one go back? */
  method Survey(slots: seq<Slot>) returns (allRestored: bool, canRollBack: bool)
    ensures AllSafe(slots) ==> canRollBack
    ensures AllSafe(slots) ==> (allRestored <==> |slots| > 0 && forall i :: 0 <= i < |slots| ==> Swapped(slots[i]))
    ensures AllCleaned(slots) ==> (allRestored <==> |slots| > 0) && (|slots| == 0 ==> canRollBack)
    ensures allRestored ==> forall i :: 0 <= i < |slots| ==> HasIdentity(slots[i].original, slots[i].stagedId)
  {
    allRestored, canRollBack := |slots| > 0, true;
    for k := 0 to |slots|
      invariant AllSafe(slots) ==> canRollBack
      invariant AllSafe(slots) ==> (allRestored <==> |slots| > 0 && forall i :: 0 <= i < k ==> Swapped(slots[i]))
      invariant AllCleaned(slots) ==> (allRestored <==> |slots| > 0)
      invariant k == 0 ==> canRollBack
      invariant allRestored ==> forall i :: 0 <= i < k ==> HasIdentity(slots[i].original, slots[i].stagedId)
    {
      if AllSafe(slots) {
        ClassifySafe(slots[k]);
      }
      if AllCleaned(slots) {
        ClassifyCleaned(slots[k]);
      }
      var c := Classify(slots[k]);
      if c.Ambiguous? {
        return false, false;
      }
      allRestored := allRestored && c.active == ActiveRestored;
      canRollBack := canRollBack && c.originalAvailable;
    }
  }

  /** A loud log stays loud, and without slots a quiet one stays quiet. */
  ghost predicate KeepsQuiet(h: Host, before: seq<Event>)
    reads h`log, h`slots
  {
    && (!QuietRenames(before) ==> !QuietRenames(h.log))
    && (|h.slots| == 0 && QuietRenames(before) ==> QuietRenames(h.log))
  }

  lemma LoudStays(before: seq<Event>, log: seq<Event>)
    requires before <= log
    ensures !QuietRenames(before) ==> !QuietRenames(log)
  {
    assert forall i :: 0 <= i < |before| ==> before[i] == log[i];
  }

  /** Take one slot back, whatever shape it is in, and drop what is left of its staged tree. */
  method TakeBack(h: Host, i: nat) returns (s: Status, ok: bool)
    requires h.Consistent() && !h.committed && i < |h.slots| && h.phase != NoJournal
    requires Untouched(h.slots[i]) || h.running == {} || h.sweepLeft != {}
    requires Untouched(h.slots[i]) || (h.recorded == h.initial && h.phase != RolledBack && h.phase != Staged)
    modifies h`slots, h`clock, h`outcomes, h`log
    ensures h.Consistent() && |h.slots| == |old(h.slots)|
    ensures forall j :: 0 <= j < |h.slots| && j != i ==> h.slots[j] == old(h.slots[j])
    ensures s.Alive? ==> ok && Untouched(h.slots[i])
    ensures s.Crashed? ==> h.clock == 0
    ensures old(h.outcomes) == [] ==> h.outcomes == [] && (s.Alive? ==> ok)
    ensures old(h.clock) >= 4 ==> s.Alive? && h.clock >= old(h.clock) - 4
    ensures old(h.log) <= h.log
    ensures old(h.outcomes) == [] && s.Alive? ==> h.slots[i].staged.None?
  {
    ok := false;
    var sl := h.slots[i];
    assert Safe(sl);
    ClassifySafe(sl);
    var c := Classify(sl);
    if c.Ambiguous? || !c.originalAvailable {
      return Alive, false;
    }
    hide Host.RuntimeOk;
    if c.active == ActiveRestored {
      // an earlier failed path is removed first; there is none in this shape
      assert sl.failed.None?;
      :- MoveSafely(h, i, sl.(original := None, failed := sl.original));
    }
    sl := h.slots[i];
    if HasIdentity(sl.rollback, sl.originalId) {
      assert sl.original.None?;
      :- MoveSafely(h, i, sl.(rollback := None, original := sl.rollback));
    }
    s := DropStaged(h, i);
    ok := s.Alive?;
  }

  /** Remove what is left of an untouched slot's staged tree. */
  method DropStaged(h: Host, i: nat) returns (s: Status)
    requires h.Consistent() && !h.committed && i < |h.slots| && Untouched(h.slots[i])
    modifies h`slots, h`clock, h`outcomes
    ensures h.Consistent() && |h.slots| == |old(h.slots)|
    ensures forall j :: 0 <= j < |h.slots| && j != i ==> h.slots[j] == old(h.slots[j])
    ensures Untouched(h.slots[i])
    ensures s.Crashed? ==> h.clock == 0
    ensures old(h.outcomes) == [] ==> h.outcomes == []
    ensures old(h.clock) >= 2 ==> s.Alive? && h.clock >= old(h.clock) - 2
    ensures old(h.outcomes) == [] && s.Alive? ==> h.slots[i].staged.None?
  {
    hide Host.RuntimeOk;
    var removed :- h.RemoveStaged(i);
    return Alive;
  }

  /** Take every slot back, last one first. */
  method TakeAllBack(h: Host) returns (s: Status, ok: bool)
    requires h.Consistent() && Unresolved(h.phase) && (h.committed ==> |h.slots| == 0)
    requires !AllForward(h.slots) || |h.slots| == 0
    modifies h`slots, h`clock, h`outcomes, h`log
    ensures h.Consistent() && |h.slots| == |old(h.slots)|
    ensures s.Alive? ==> ok && AllUntouched(h.slots)
    ensures s.Crashed? ==> h.clock == 0
    ensures old(h.outcomes) == [] ==> h.outcomes == [] && (s.Alive? ==> ok)
    ensures old(h.clock) >= 4 * |h.slots| ==> s.Alive? && h.clock >= old(h.clock) - (4 * |h.slots|)
    ensures old(h.log) <= h.log && (|h.slots| == 0 ==> h.log == old(h.log))
    ensures old(h.outcomes) == [] && s.Alive? ==> NoStaged(h.slots)
  {
    ok := false;
    hide Host.RuntimeOk;
    for k := |h.slots| downto 0
      invariant h.Consistent() && |h.slots| == |old(h.slots)|
      invariant forall i :: k <= i < |h.slots| ==> Untouched(h.slots[i])
      invariant h.running == {} || h.sweepLeft != {} || AllUntouched(h.slots)
      invariant old(h.outcomes) == [] ==> h.outcomes == []
      invariant h.clock >= old(h.clock) - 4 * (|h.slots| - k)
      invariant old(h.log) <= h.log && (|h.slots| == 0 ==> h.log == old(h.log))
      invariant old(h.outcomes) == [] ==> forall i :: k <= i < |h.slots| ==> h.slots[i].staged.None?
    {
      var back :- TakeBack(h, k);
      if !back {
        return Alive, false;
      }
    }
    return Alive, true;
  }

  /** Go back: every slot to its original, then the original secrets, then the recorded components. */
  method FinishRollback(h: Host) returns (s: Status, ok: bool)
    requires h.Consistent() && Unresolved(h.phase) && (h.committed ==> |h.slots| == 0)
    requires !AllForward(h.slots) || |h.slots| == 0
    modifies h`slots, h`phase, h`secrets, h`running, h`clock, h`outcomes, h`log
    ensures h.Consistent() && |h.slots| == |old(h.slots)|
    ensures s.Alive? && !ok ==> h.phase == old(h.phase)
    ensures s.Alive? && ok ==>
              h.phase == RolledBack && AllUntouched(h.slots) && h.secrets == h.originalSecrets && h.running == h.initial
    ensures s.Alive? ==> h.recorded == h.initial || h.BeforeIntent()
    ensures s.Crashed? ==> h.clock == 0
    ensures old(h.outcomes) == [] ==> h.outcomes == [] && (s.Alive? ==> ok)
    ensures old(h.clock) >= 4 * |h.slots| + |h.startOrder| + 2 ==> s.Alive? && h.clock >= old(h.clock) - (4 * |h.slots| + |h.startOrder| + 2)
    ensures KeepsQuiet(h, old(h.log))
    ensures old(h.outcomes) == [] && s.Alive? ==> NoStaged(h.slots)
  {
    ok := false;
    assert h.recorded == h.initial || h.BeforeIntent();
    assert h.phase == Staged ==> h.BeforeIntent();
    hide Host.StorageOk;
    hide Host.RuntimeOk;
    hide Host.PhaseOk;
    hide Host.QuietOk;
    var quiesced := h.phase != Staged;
    ghost var before := h.log;
    hide QuietRenames;
    var back: bool;
    s, back := TakeAllBack(h);
    LoudStays(before, h.log);
    if s.Crashed? {
      return;
    }
    var planned := h.Outcome();
    if !back || !planned {
      return Alive, false;
    }
    s, ok := PutRuntimeBack(h, quiesced);
  }

  /** With every slot original again: the original secrets, then the recorded components if any were stopped. */
  method PutRuntimeBack(h: Host, quiesced: bool) returns (s: Status, ok: bool)
    requires h.Consistent() && Unresolved(h.phase) && (h.committed ==> |h.slots| == 0) && AllUntouched(h.slots)
    requires h.recorded == h.initial || h.BeforeIntent()
    requires !quiesced ==> h.BeforeIntent()
    modifies h`phase, h`secrets, h`running, h`clock, h`outcomes, h`log
    ensures h.Consistent()
    ensures s.Alive? && !ok ==> h.phase == old(h.phase)
    ensures s.Alive? && ok ==> h.phase == RolledBack && h.secrets == h.originalSecrets && h.running == h.initial
    ensures s.Alive? ==> h.recorded == h.initial || h.BeforeIntent()
    ensures s.Crashed? ==> h.clock == 0
    ensures old(h.outcomes) == [] ==> h.outcomes == [] && (s.Alive? ==> ok)
    ensures old(h.clock) >= |h.startOrder| + 2 ==> s.Alive? && h.clock >= old(h.clock) - (|h.startOrder| + 2)
    ensures QuietRenames(h.log) <==> old(QuietRenames(h.log))
  {
    ok := false;
    assert h.running <= h.initial;
    hide Host.StorageOk;
    hide Host.PhaseOk;
    hide Host.RuntimeOk;
    hide Host.QuietOk;
    hide AllUntouched, Resumed, QuietRenames, IntentFirst, AllListed;
    :- h.InstallOriginalSecrets();
    if quiesced {
      var resumed :- ResumeSafely(h);
      if !resumed {
        return Alive, false;
      }
    }
    :- h.RecordRolledBack();
    return Alive, true;
  }

  /** Go forward: restored secrets, the recorded components, the commit if it is still missing, clean-up. */
  method FinishForward(h: Host) returns (s: Status, ok: bool)
    requires h.Consistent() && Unresolved(h.phase) && |h.slots| > 0 && AllCleaned(h.slots)
    modifies h`slots, h`phase, h`secrets, h`committed, h`running, h`clock, h`outcomes, h`log
    ensures h.Consistent() && |h.slots| == |old(h.slots)| && h.recorded == h.initial
    ensures s.Alive? && ok ==>
              && (h.phase == Completed || h.phase == CleanupPending) && h.committed && AllCleaned(h.slots)
              && h.secrets == h.restoredSecrets && h.running == h.initial
    ensures s.Alive? && !ok ==> Unresolved(h.phase)
    ensures s.Crashed? ==> h.clock == 0
    ensures old(h.outcomes) == [] ==> h.outcomes == [] && (s.Alive? ==> ok)
    ensures old(h.clock) >= 3 * |h.slots| + |h.startOrder| + 4 ==> s.Alive? && h.clock >= old(h.clock) - (3 * |h.slots| + |h.startOrder| + 4)
    ensures QuietRenames(h.log) <==> old(QuietRenames(h.log))
    ensures old(h.outcomes) == [] && s.Alive? ==> NoRollback(h.slots)
    ensures KeepsQuiet(h, old(h.log))
  {
    ok := false;
    assert !Untouched(h.slots[0]);
    assert h.recorded == h.initial;
    assert h.phase == Committed ==> h.committed;
    hide Host.StorageOk;
    hide Host.PhaseOk;
    hide Host.QuietOk;
    hide Host.RuntimeOk;
    hide AllCleaned;
    if h.phase != Committed {
      var done :- CommitForward(h);
      if !done {
        return Alive, false;
      }
    }
    assert h.committed;
    Settled(h);
    :- CleanUp(h);
    Settled(h);
    return Alive, true;
  }

  /** A committed restore has its slots, its secrets and its components. */
  lemma Settled(h: Host)
    requires h.Consistent() && h.committed && |h.slots| > 0
    ensures AllCleaned(h.slots) && h.secrets == h.restoredSecrets && h.running == h.initial
  {
  }

  /** What is missing before a commit, and the commit. */
  method CommitForward(h: Host) returns (s: Status, ok: bool)
    requires h.Consistent() && Unresolved(h.phase) && AllCleaned(h.slots) && h.recorded == h.initial
    modifies h`phase, h`secrets, h`committed, h`running, h`clock, h`outcomes, h`log
    ensures h.Consistent()
    ensures s.Alive? && ok ==> h.phase == Committed && h.committed
    ensures s.Alive? && !ok ==> Unresolved(h.phase)
    ensures s.Crashed? ==> h.clock == 0
    ensures old(h.outcomes) == [] ==> h.outcomes == [] && (s.Alive? ==> ok)
    ensures old(h.clock) >= |h.startOrder| + 3 ==> s.Alive? && h.clock >= old(h.clock) - (|h.startOrder| + 3)
    ensures QuietRenames(h.log) <==> old(QuietRenames(h.log))
  {
    ok := false;
    assert AllForward(h.slots) && h.running <= h.initial;
    hide Host.StorageOk;
    hide Host.PhaseOk;
    hide Host.RuntimeOk;
    hide Host.QuietOk;
    hide AllCleaned, AllForward, Resumed, QuietRenames, IntentFirst, AllListed;
    var planned := h.Outcome();
    if !planned {
      return Alive, false;
    }
    var pending :- h.RecordPending();
    if !pending {
      return Alive, false;
    }
    var stored :- h.InstallRestoredSecrets();
    if !stored {
      return Alive, false;
    }
    var resumed :- ResumeSafely(h);
    if !resumed {
      return Alive, false;
    }
    s, ok := h.RecordCommit();
  }

  /**
   Recovery of the restore at a start of the helper. It never meets a mixed set of slots; when it
   finishes, either every slot and the secrets are original or every slot and the secrets are
   restored, and exactly the components that ran before run again. A recorded commit is kept exactly
   when the restore has a slot at all.
   */
  method Recover(h: Host, leaseHeld: bool) returns (s: Status, r: RecoveryOutcome)
    requires h.Consistent()
    modifies h`reported, h`slots, h`phase, h`secrets, h`committed, h`running, h`clock, h`outcomes, h`log
    ensures h.Consistent() && |h.slots| == |old(h.slots)|
    ensures !r.Mixed? && (leaseHeld ==> !r.LeaseLost?)
    ensures s.Alive? && r.WentBack? ==>
              h.phase == RolledBack && AllUntouched(h.slots) && h.secrets == h.originalSecrets && h.running == h.initial
    ensures s.Alive? && r.WentForward? ==>
              && (h.phase == Completed || h.phase == CleanupPending) && h.committed && AllCleaned(h.slots)
              && h.secrets == h.restoredSecrets && h.running == h.initial
    ensures s.Alive? && r.NothingToDo? ==> !Unresolved(h.phase) && h.phase == old(h.phase)
    ensures !Unresolved(old(h.phase)) ==> r.NothingToDo? && h.running == old(h.running) && h.phase == old(h.phase)
    ensures s.Alive? && (r.NeedsAttention? || r.LeaseLost?) ==> h.phase == ActionRequired
    ensures old(h.committed) && s.Alive? && r in {WentBack, WentForward} ==> (r.WentForward? <==> |h.slots| > 0)
    ensures s.Crashed? ==> h.clock == 0
    ensures old(h.outcomes) == [] ==> h.outcomes == [] && (s.Alive? && leaseHeld ==> !r.NeedsAttention?)
    ensures old(h.clock) >= 4 * |h.slots| + |h.startOrder| + 7 ==> s.Alive? && h.clock >= old(h.clock) - (4 * |h.slots| + |h.startOrder| + 7)
    ensures KeepsQuiet(h, old(h.log))
    ensures old(h.outcomes) == [] && s.Alive? && leaseHeld && Unresolved(old(h.phase)) ==>
              (r.WentForward? && NoRollback(h.slots)) || (r.WentBack? && NoStaged(h.slots))
    ensures h.reported == if s.Alive? && (r.WentForward? || r.WentBack?) then Some(r.WentForward?) else old(h.reported)
  {
    r := NothingToDo;
    if !Unresolved(h.phase) {
      return Alive, NothingToDo;
    }
    if !leaseHeld {
      :- AskForAttention(h);
      return Alive, LeaseLost;
    }
    :- h.Tick();
    var allRestored, canRollBack := Survey(h.slots);
    if !allRestored && !canRollBack {
      assert false;
      return Alive, Mixed;
    }
    assert allRestored ==> AllCleaned(h.slots);
    assert !allRestored ==> canRollBack && (h.committed ==> |h.slots| == 0) && (!AllForward(h.slots) || |h.slots| == 0);
    s, r := Conclude(h, allRestored);
  }

  /** Go forward or back as surveyed, and complete the operation. */
  method Conclude(h: Host, forward: bool) returns (s: Status, r: RecoveryOutcome)
    requires h.Consistent() && Unresolved(h.phase)
    requires if forward then |h.slots| > 0 && AllCleaned(h.slots)
             else (h.committed ==> |h.slots| == 0) && (!AllForward(h.slots) || |h.slots| == 0)
    modifies h`reported, h`slots, h`phase, h`secrets, h`committed, h`running, h`clock, h`outcomes, h`log
    ensures h.Consistent() && |h.slots| == |old(h.slots)|
    ensures r == WentForward || r == WentBack || r == NeedsAttention
    ensures s.Alive? && r.NeedsAttention? ==> h.phase == ActionRequired
    ensures r == WentForward ==> forward
    ensures r == WentBack ==> !forward
    ensures s.Alive? && r.WentBack? ==>
              h.phase == RolledBack && AllUntouched(h.slots) && h.secrets == h.originalSecrets && h.running == h.initial
    ensures s.Alive? && r.WentForward? ==>
              && (h.phase == Completed || h.phase == CleanupPending) && h.committed && AllCleaned(h.slots)
              && h.secrets == h.restoredSecrets && h.running == h.initial
    ensures s.Crashed? ==> h.clock == 0
    ensures old(h.outcomes) == [] ==> h.outcomes == [] && (s.Alive? ==> !r.NeedsAttention?)
    ensures old(h.clock) >= 4 * |h.slots| + |h.startOrder| + 6 ==> s.Alive? && h.clock >= old(h.clock) - (4 * |h.slots| + |h.startOrder| + 6)
    ensures KeepsQuiet(h, old(h.log))
    ensures old(h.outcomes) == [] && s.Alive? ==> if forward then NoRollback(h.slots) else NoStaged(h.slots)
    ensures h.reported == if s.Alive? && (r.WentForward? || r.WentBack?) then Some(r.WentForward?) else old(h.reported)
  {
    hide Host.StorageOk;
    hide Host.RuntimeOk;
    hide Host.PhaseOk;
    hide Host.QuietOk;
    hide AllCleaned, AllForward, AllUntouched, QuietRenames, NoStaged, NoRollback, KeepsQuiet;
    var ok: bool;
    if forward {
      r := WentForward;
      ok :- FinishForward(h);
    } else {
      r := WentBack;
      ok :- FinishRollback(h);
    }
    if ok {
      // if the completion fails, the finished journal asks for attention again
      ok :- h.CompleteOperation(forward);
    }
    if !ok {
      :- AskForAttention(h);
      return Alive, NeedsAttention;
    }
    return Alive, r;
  }

  /** Leaves the restore to an administrator, or to a later start. */
  method AskForAttention(h: Host) returns (s: Status)
    requires h.Consistent() && (h.recorded == h.initial || h.BeforeIntent())
    modifies h`phase, h`clock
    ensures h.Consistent()
    ensures s.Crashed? ==> h.clock == 0
    ensures s.Alive? ==> h.phase == ActionRequired
    ensures old(h.clock) >= 1 ==> s.Alive? && h.clock >= old(h.clock) - 1
  {
    s := Alive;
    :- h.Tick();
    h.phase := ActionRequired;
    return Alive;
  }

  /** What the coordinator was told is what the journal says. */
  ghost predicate Told(h: Host)
    reads h`reported, h`phase
  {
    && (h.reported == Some(true) ==> h.phase == Completed || h.phase == CleanupPending)
    && (h.reported == Some(false) ==> h.phase == RolledBack)
  }

  /** Nothing is half done: all original, or all restored. */
  ghost predicate AllOrNothing(h: Host)
    reads h
  {
    || (AllUntouched(h.slots) && h.secrets == h.originalSecrets && h.phase in {NoJournal, RolledBack})
    || (h.committed && AllCleaned(h.slots) && h.secrets == h.restoredSecrets && h.phase in {Completed, CleanupPending})
  }

  /**
   Any history of a restore: the restore is cut off or not, and each later start
   runs recovery and the deferred clean-up with its own clock. At every moment the storage is safe;
   once a start's recovery runs to an answer other than a failed runtime or database call, everything
   is original or everything is restored, and a last start with enough steps and no failing call gets there.
   If the outcomes the restore meets are quiet, no rename of the restore or of any later start meets a running
   component, wherever any of them is cut off; if the restore is not cut off, only then.
   */
  method History(h: Host, plan: seq<nat>, clocks: seq<nat>, outcomes: seq<seq<bool>>) returns (settled: bool)
    requires h.Fresh() && Plan(plan, |h.slots|) && |outcomes| == |clocks|
    modifies h
    ensures h.Consistent() && |h.slots| == |old(h.slots)|
    ensures settled ==> AllOrNothing(h)
    ensures |clocks| > 0 && Enough(h, clocks[|clocks| - 1], outcomes[|clocks| - 1]) ==> settled
    ensures Told(h) && (h.reported == Some(true) ==> h.committed && AllCleaned(h.slots)) && (h.reported == Some(false) ==> AllUntouched(h.slots))
    ensures QuietRestore(h.startOrder, h.initial, |plan|, old(h.outcomes)) ==> QuietRenames(h.log)
    ensures old(h.clock) >= 5 * |h.startOrder| + 16 * |h.slots| + 8 ==>
              (QuietRenames(h.log) <==> QuietRestore(h.startOrder, h.initial, |plan|, old(h.outcomes)))
  {
    settled := false;
    ghost var quiet := QuietRestore(h.startOrder, h.initial, |plan|, h.outcomes);
    ghost var uncut := h.clock >= 5 * |h.startOrder| + 16 * |h.slots| + 8;
    assert |plan| == |h.slots|;
    hide QuietRestore, QuietRenames, RestoreEnding, Answered, RunsAs, Plan, AllOrNothing, Told, AllCleaned, AllUntouched, Enough, KeepsQuiet;
    hide Host.StorageOk;
    hide Host.PhaseOk;
    hide Host.RuntimeOk;
    hide Host.QuietOk;
    hide Host.Fresh;
    var status, answer := Restore(h, plan);
    NotTold(h);
    for k := 0 to |clocks|
      invariant h.Consistent() && |h.slots| == |old(h.slots)|
      invariant settled ==> AllOrNothing(h)
      invariant k > 0 && Enough(h, clocks[k - 1], outcomes[k - 1]) ==> settled
      invariant quiet ==> QuietRenames(h.log) && (plan != [] ==> h.sweepLeft == {})
      invariant uncut && !quiet ==> !QuietRenames(h.log)
      invariant Told(h)
    {
      h.clock, h.outcomes := clocks[k], outcomes[k];
      ghost var before := h.log;
      settled := Startup(h);
      ConsistentIsQuiet(h);
      QuietKept(h, before);
    }
    ToldMeans(h);
  }

  lemma NotTold(h: Host)
    requires h.reported == None
    ensures Told(h)
  {
  }

  lemma QuietKept(h: Host, before: seq<Event>)
    requires KeepsQuiet(h, before)
    ensures !QuietRenames(before) ==> !QuietRenames(h.log)
    ensures |h.slots| == 0 && QuietRenames(before) ==> QuietRenames(h.log)
  {
  }

  lemma ToldMeans(h: Host)
    requires h.Consistent() && Told(h)
    ensures h.reported == Some(true) ==> h.committed && AllCleaned(h.slots)
    ensures h.reported == Some(false) ==> AllUntouched(h.slots)
  {
  }

  /** No call fails, and there are steps for taking every slot back and every component up again. */
  ghost predicate Enough(h: Host, clock: nat, outcomes: seq<bool>)
    reads h`slots
  {
    outcomes == [] && clock >= 4 * |h.slots| + |h.startOrder| + 7
  }

  /** No call fails, and there are steps for the clean-up too. */
  ghost predicate Ample(h: Host, clock: nat, outcomes: seq<bool>)
    reads h`slots
  {
    outcomes == [] && clock >= 7 * |h.slots| + |h.startOrder| + 8
  }

  /** One start of the helper. */
  method Startup(h: Host) returns (settled: bool)
    requires h.Consistent()
    modifies h`reported, h`slots, h`phase, h`secrets, h`committed, h`running, h`clock, h`outcomes, h`log
    ensures h.Consistent() && |h.slots| == |old(h.slots)|
    ensures settled ==> AllOrNothing(h)
    ensures old(h.outcomes) == [] ==> settled || h.clock == 0
    ensures old(Enough(h, h.clock, h.outcomes)) ==> settled
    ensures old(h.phase) == RolledBack ==> h.phase == RolledBack && h.running == old(h.running)
    // with enough steps and no failing call, nothing is left over of a restore that was unresolved or awaited clean-up
    ensures old(Ample(h, h.clock, h.outcomes)) && (Unresolved(old(h.phase)) || old(h.phase) == CleanupPending) ==>
              NoStaged(h.slots) && NoRollback(h.slots)
    ensures KeepsQuiet(h, old(h.log))
    ensures old(Told(h)) ==> Told(h)
    ensures h.reported == old(h.reported) || (h.reported.Some? && Unresolved(old(h.phase)))
  {
    var status, outcome := Recover(h, true);
    settled := status.Alive? && !outcome.NeedsAttention?;
    if status.Alive? && (h.phase == Committed || h.phase == CleanupPending) {
      status := CleanUp(h);
    }
  }

  const DOWN: seq<bool> := [true, true, true, true, true, true, true, true, false, false]

  /** The secrets cannot be stored, and the restart of the rollback is refused. */
  lemma DownOutcomes()
    ensures RestoreEnding(["app"], {"app"}, 1, DOWN) == Ending(UndoneInProcess, Restarted({}, [false]))
    ensures Resumed(["app"], {"app"}, {}, [false]).running == {}
  {
    assert Listed(["app"], 1, {"app"}) == 0;
    var o := Rest(Rest(DOWN, 1), 1);
    assert o == [true, true, true, true, true, true, false, false];
    assert Rest(o, 2) == [true, true, true, true, false, false];
    assert Rest(Rest(o, 2), 3) == [true, false, false];
    assert SwapEnding(["app"], {"app"}, 0, [true, false, false]) == FinishEnding(["app"], {"app"}, [true, false, false]);
    assert Rest([true, false, false], 1) == [false, false] && Rest([true, false, false], 2) == [false];
    NothingSwept(["app"], [false]);
    assert ![false][0];
  }

  /**
   A restore that is undone while the restart fails leaves its component down for good: the journal says rolled
   back, which no later start looks at.
   */
  method UndoneStaysDown(clocks: seq<nat>, outcomes: seq<seq<bool>>) returns (h: Host)
    requires |outcomes| == |clocks|
    ensures h.phase == RolledBack && h.running == {} && h.initial == {"app"}
  {
    hide RestoreEnding, QuietRestore, QuietRenames, Resumed, Reached, Plan, Answered;
    hide Host.Fresh;
    hide Host.Consistent;
    h := OneSlot(DOWN);
    PlanOfOne();
    DownOutcomes();
    var s, r := Restore(h, [0]);
    RolledBackAnswer(h);
    LaterStarts(h, clocks, outcomes);
  }

  lemma RolledBackAnswer(h: Host)
    requires Answered(h, UndoneInProcess)
    ensures h.phase == RolledBack
  {
  }

  /** No later start changes what runs after a rollback. */
  method LaterStarts(h: Host, clocks: seq<nat>, outcomes: seq<seq<bool>>)
    requires h.Consistent() && h.phase == RolledBack && |outcomes| == |clocks|
    modifies h
    ensures h.Consistent() && h.phase == RolledBack && h.running == old(h.running)
  {
    hide Host.StorageOk;
    hide Host.PhaseOk;
    hide Host.RuntimeOk;
    hide Host.QuietOk;
    for k := 0 to |clocks|
      invariant h.Consistent() && h.phase == RolledBack && h.running == old(h.running)
    {
      h.clock, h.outcomes := clocks[k], outcomes[k];
      var settled := Startup(h);
    }
  }
}
