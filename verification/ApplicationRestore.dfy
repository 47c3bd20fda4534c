/** The restore itself: journal, quiesce, swap every slot, commit, clean up, or roll back in process. */
module ApplicationRestore {
  import opened Options
  import opened RestoreHost
  import opened Outcomes

  datatype RestoreResult = Refused | Restored | UndoneInProcess | LeftForRecovery

  /** What each answer of a restore means. */
  ghost predicate Answered(h: Host, r: RestoreResult)
    reads h
  {
    match r
    case Refused => h.phase == NoJournal && AllUntouched(h.slots) && h.running == h.initial
    case Restored => h.committed && AllCleaned(h.slots) && h.secrets == h.restoredSecrets && h.running == h.initial
    case UndoneInProcess => h.phase == RolledBack && !h.committed
    case LeftForRecovery => !h.committed && (h.phase == Staged || h.phase == Swapping || h.phase == RuntimePending)
  }

  datatype SlotResult = SlotSwapped | NotStarted | LeftInBetween

  /** plan lists every slot once, in the order the installation's plan gives. */
  ghost predicate Plan(plan: seq<nat>, n: nat) {
    && |plan| == n
    && (forall k :: 0 <= k < |plan| ==> plan[k] < n)
    && (forall j, k :: 0 <= j < k < |plan| ==> plan[j] != plan[k])
    && (forall i :: 0 <= i < n ==> i in plan)
  }

  /** The deferred clean-up: drop what is left of the staged trees of slots that were not swapped. */
  method DiscardStaging(h: Host) returns (s: Status)
    requires h.Consistent() && !h.committed
    modifies h`slots, h`clock, h`outcomes
    ensures h.Consistent() && |h.slots| == |old(h.slots)|
    ensures old(AllUntouched(h.slots)) ==> AllUntouched(h.slots)
    ensures old(h.outcomes) == [] && s.Alive? ==> NoStaged(h.slots)
    ensures s.Crashed? ==> h.clock == 0
    ensures old(h.outcomes) == [] ==> h.outcomes == []
    ensures old(h.clock) >= 2 * |h.slots| ==> s.Alive? && h.clock >= old(h.clock) - (2 * |h.slots|)
  {
    for i := 0 to |h.slots|
      invariant |h.slots| == |old(h.slots)|
      invariant h.Consistent()
      invariant old(AllUntouched(h.slots)) ==> AllUntouched(h.slots)
      invariant old(h.outcomes) == [] ==> h.outcomes == []
      invariant h.clock >= old(h.clock) - 2 * i
      invariant old(h.outcomes) == [] ==> forall j :: 0 <= j < i ==> h.slots[j].staged.None?
    {
      var removed :- h.RemoveStaged(i);
    }
    return Alive;
  }

  /** Both renames find their source and an absent destination, and leave a safe slot; the second completes the swap. */
  lemma SwapShapes(h: Host, i: nat)
    requires h.Consistent() && h.phase == Swapping && i < |h.slots| && Pristine(h.slots[i])
    ensures
      var sl := h.slots[i];
      var emptied := sl.(original := None, rollback := sl.original);
      var swapped := emptied.(staged := None, original := emptied.staged);
      && !h.committed && h.recorded == h.initial
      && sl.original.Some? && sl.rollback.None? && Safe(emptied)
      && emptied.staged.Some? && emptied.original.None? && Safe(swapped) && Swapped(swapped)
  {
    assert Safe(h.slots[i]);
  }

  lemma SafeUpdate(slots: seq<Slot>, i: nat, moved: Slot)
    requires AllSafe(slots) && i < |slots| && Safe(moved)
    ensures AllSafe(slots[i := moved])
  {
  }

  /**
   Swap one slot: original to rollback, staged to active, each bracketed by journal updates. The two
   renames always find their source and an absent destination.
   */
  method SwapSlot(h: Host, i: nat) returns (s: Status, r: SlotResult)
    requires h.Consistent() && h.phase == Swapping && h.running == {}
    requires i < |h.slots| && Pristine(h.slots[i])
    modifies h`slots, h`clock, h`outcomes, h`log
    ensures h.Consistent() && |h.slots| == |old(h.slots)|
    ensures h.slots == old(h.slots)[i := h.slots[i]]
    ensures s.Alive? && r.SlotSwapped? ==> Swapped(h.slots[i])
    ensures s.Alive? && r.NotStarted? ==> Pristine(h.slots[i])
    ensures s.Crashed? ==> h.clock == 0
    ensures s.Alive? ==> (r.SlotSwapped? <==> NoFailure(old(h.outcomes), 3))
    ensures s.Alive? && r.SlotSwapped? ==> h.outcomes == Rest(old(h.outcomes), 3)
    ensures s.Alive? ==> (r.NotStarted? <==> !Succeeds(old(h.outcomes)))
    ensures s.Alive? && r.NotStarted? ==> h.outcomes == Rest(old(h.outcomes), 1)
    ensures old(h.clock) >= 5 ==> s.Alive? && h.clock >= old(h.clock) - 5
  {
    r := NotStarted;
    var sl := h.slots[i];
    hide Host.Consistent;
    hide Host.StorageOk;
    hide Host.PhaseOk;
    hide Host.RuntimeOk;
    hide Host.QuietOk;
    hide NoFailure, Rest, Succeeds, Pristine, Safe, Swapped;
    SwapShapes(h, i);
    ThreeCalls(h.outcomes);
    :- h.Tick();
    var prepared := h.Outcome();
    if !prepared {
      return Alive, NotStarted;
    }
    var confirmed :- MoveAndConfirm(h, i, sl.(original := None, rollback := sl.original));
    if !confirmed {
      return Alive, LeftInBetween;
    }
    sl := h.slots[i];
    confirmed :- MoveAndConfirm(h, i, sl.(staged := None, original := sl.staged));
    return Alive, if confirmed then SlotSwapped else LeftInBetween;
  }

  /** One rename, confirmed in the journal. */
  method MoveAndConfirm(h: Host, i: nat, moved: Slot) returns (s: Status, ok: bool)
    requires h.Consistent() && h.phase == Swapping && h.running == {} && i < |h.slots| && Safe(moved)
    requires !h.committed && h.recorded == h.initial
    modifies h`slots, h`clock, h`outcomes, h`log
    ensures h.Consistent() && |h.slots| == |old(h.slots)|
    ensures h.slots == old(h.slots) || h.slots == old(h.slots)[i := moved]
    ensures s.Alive? ==> h.slots == old(h.slots)[i := moved]
    ensures s.Alive? ==> ok == Succeeds(old(h.outcomes)) && h.outcomes == Rest(old(h.outcomes), 1)
    ensures s.Crashed? ==> h.clock == 0
    ensures old(h.clock) >= 2 ==> s.Alive? && h.clock >= old(h.clock) - 2
  {
    ok := false;
    hide Host.Consistent;
    :- MoveSafely(h, i, moved);
    :- h.Tick();
    ok := h.Outcome();
    return Alive, ok;
  }

  /** One rename of an active path, into another safe shape of the slot. */
  method MoveSafely(h: Host, i: nat, moved: Slot) returns (s: Status)
    requires h.Consistent() && !h.committed && h.recorded == h.initial && i < |h.slots| && Safe(moved)
    requires h.phase == Swapping || h.phase == RuntimePending || h.phase == ActionRequired
    requires h.running == {} || h.sweepLeft != {}
    modifies h`slots, h`clock, h`log
    ensures h.Consistent()
    ensures h.log == if s.Alive? then old(h.log) + [ActiveRenamed(h.running)] else old(h.log)
    ensures h.slots == if s.Alive? then old(h.slots)[i := moved] else old(h.slots)
    ensures s.Crashed? ==> h.clock == 0
    ensures old(h.clock) >= 1 ==> s.Alive? && h.clock >= old(h.clock) - 1
  {
    hide Host.RuntimeOk;
    hide AllSafe;
    hide AllUntouched;
    hide AllForward;
    hide AllCleaned;
    SafeUpdate(h.slots, i, moved);
    :- h.RenameActive(i, moved);
    return Alive;
  }

  /** The swapped slots of a restore, with everything else untouched. */
  ghost predicate ExactlySwapped(slots: seq<Slot>, swapped: seq<nat>) {
    && (forall k :: 0 <= k < |swapped| ==> swapped[k] < |slots| && Swapped(slots[swapped[k]]))
    && (forall j, k :: 0 <= j < k < |swapped| ==> swapped[j] != swapped[k])
    && (forall i :: 0 <= i < |slots| && i !in swapped ==> Untouched(slots[i]))
  }

  /** Move one swapped slot back: restored tree aside, original into place. */
  method MoveBack(h: Host, i: nat) returns (s: Status)
    requires h.Consistent() && !h.committed && h.recorded == h.initial
    requires h.phase == Swapping || h.phase == RuntimePending
    requires h.running == {} || h.sweepLeft != {}
    requires i < |h.slots| && Swapped(h.slots[i])
    modifies h`slots, h`clock, h`log
    ensures h.Consistent() && |h.slots| == |old(h.slots)|
    ensures s.Alive? ==> h.slots == old(h.slots)[i := h.slots[i]] && Untouched(h.slots[i])
    ensures s.Alive? ==> h.log == old(h.log) + [ActiveRenamed(h.running), ActiveRenamed(h.running)]
    ensures s.Crashed? ==> h.clock == 0
    ensures old(h.clock) >= 2 ==> s.Alive? && h.clock >= old(h.clock) - 2
  {
    var sl := h.slots[i];
    assert Safe(sl);
    hide Host.StorageOk;
    hide Host.PhaseOk;
    hide Host.RuntimeOk;
    hide Host.QuietOk;
    assert sl.original.Some? && sl.failed.None?;
    :- MoveSafely(h, i, sl.(original := None, failed := sl.original));
    sl := h.slots[i];
    assert sl.rollback.Some? && sl.original.None?;
    :- MoveSafely(h, i, sl.(rollback := None, original := sl.rollback));
    return Alive;
  }

  /** Move all swapped slots back, last one first. */
  method MoveAllBack(h: Host, swapped: seq<nat>) returns (s: Status)
    requires h.Consistent() && !h.committed && h.recorded == h.initial
    requires h.phase == Swapping || h.phase == RuntimePending
    requires h.running == h.sweepLeft
    requires ExactlySwapped(h.slots, swapped)
    modifies h`slots, h`clock, h`log
    ensures h.Consistent() && |h.slots| == |old(h.slots)|
    ensures s.Alive? ==> AllUntouched(h.slots)
    ensures old(QuietRenames(h.log)) && s.Alive? ==> (QuietRenames(h.log) <==> h.sweepLeft == {} || swapped == [])
    ensures old(QuietRenames(h.log)) && swapped == [] ==> QuietRenames(h.log)
    ensures s.Crashed? ==> h.clock == 0
    ensures old(h.clock) >= 2 * |swapped| ==> s.Alive? && h.clock >= old(h.clock) - (2 * |swapped|)
  {
    hide Host.RuntimeOk;
    hide Host.StorageOk;
    hide Host.PhaseOk;
    for k := |swapped| downto 0
      invariant h.Consistent() && |h.slots| == |old(h.slots)|
      invariant ExactlySwapped(h.slots, swapped[..k])
      invariant old(QuietRenames(h.log)) ==> (QuietRenames(h.log) <==> h.sweepLeft == {} || k == |swapped|)
      invariant h.clock >= old(h.clock) - 2 * (|swapped| - k)
    {
      assert swapped[..k + 1][k] == swapped[k];
      assert forall x :: x in swapped[..k + 1] <==> x in swapped[..k] || x == swapped[k];
      ghost var before := h.log;
      :- MoveBack(h, swapped[k]);
      QuietExtends(before, h.running);
    }
    return Alive;
  }

  lemma QuietExtends(log: seq<Event>, running: set<string>)
    ensures QuietRenames(log + [ActiveRenamed(running), ActiveRenamed(running)]) <==> QuietRenames(log) && running == {}
  {
    var longer := log + [ActiveRenamed(running), ActiveRenamed(running)];
    assert longer[|log|] == ActiveRenamed(running);
    assert forall i :: 0 <= i < |log| ==> longer[i] == log[i];
  }

  /**
   The in-process rollback: stop everything, move the swapped slots back, put the original secrets
   back, start the recorded components, and record the rollback. Its renames are quiet exactly when the
   outcomes of the stop sweep leave nothing running or nothing had been swapped; if so they are quiet wherever it
   is cut off, and nothing is left that could make a later rename loud. A failed restart is ignored: what runs in
   the end is what the outcomes say.
   */
  method RollBack(h: Host, swapped: seq<nat>) returns (s: Status)
    requires h.Consistent() && h.recorded == h.initial && !h.committed && h.sweepLeft == {}
    requires h.phase == Swapping || h.phase == RuntimePending
    requires ExactlySwapped(h.slots, swapped)
    modifies h`slots, h`phase, h`secrets, h`running, h`clock, h`outcomes, h`log, h`sweepLeft
    ensures h.Consistent() && |h.slots| == |old(h.slots)|
    ensures s.Alive? ==> h.phase == RolledBack
    ensures s.Alive? ==>
              (QuietRenames(h.log) <==> Swept(h.startOrder, old(h.running), old(h.outcomes)).left == {} || swapped == [])
    ensures Swept(h.startOrder, old(h.running), old(h.outcomes)).left == {} ==> h.sweepLeft == {}
    ensures Swept(h.startOrder, old(h.running), old(h.outcomes)).left == {} || swapped == [] ==> QuietRenames(h.log)
    ensures s.Alive? ==> UndoneFrom(h, old(h.running), old(h.outcomes))
    ensures s.Crashed? ==> h.clock == 0
    ensures old(h.outcomes) == [] ==> h.outcomes == []
    ensures old(h.clock) >= 2 * |h.startOrder| + 2 * |swapped| + 2 ==> s.Alive? && h.clock >= old(h.clock) - (2 * |h.startOrder| + 2 * |swapped| + 2)
  {
    hide Host.StorageOk;
    hide Host.PhaseOk;
    hide Host.RuntimeOk;
    hide Host.QuietOk;
    hide ExactlySwapped, Swept, Resumed, QuietRenames, AllUntouched;
    hide Host.RestartedFrom;
    ghost var running, outcomes := h.running, h.outcomes;
    :- Sweep(h);
    s := MoveAllBack(h, swapped);
    ConsistentIsQuiet(h);
    if s.Crashed? {
      return;
    }
    s := ResumeOriginal(h);
    if s.Alive? {
      ghost var sweep := Swept(h.startOrder, running, outcomes);
      h.RestartExactly(h.initial, sweep.left, sweep.outcomes);
    }
  }

  /** After a rollback the recorded components are started again from what its sweep left. */
  ghost predicate UndoneFrom(h: Host, running: set<string>, outcomes: seq<bool>)
    reads h`running
  {
    var sweep := Swept(h.startOrder, running, outcomes);
    h.RestartedFrom(h.initial, sweep.left, sweep.outcomes)
  }

  /** The stop sweep: afterwards only what it could not stop runs. */
  method Sweep(h: Host) returns (s: Status)
    requires h.Consistent() && h.recorded == h.initial && !h.committed && h.sweepLeft == {}
    modifies h`running, h`clock, h`outcomes, h`log, h`sweepLeft
    ensures h.Consistent() && QuietRenames(h.log)
    ensures s.Alive? ==> h.sweepLeft == h.running && Sweeping(h.running, h.outcomes) == Swept(h.startOrder, old(h.running), old(h.outcomes))
    ensures s.Crashed? ==> h.sweepLeft == {}
    ensures s.Crashed? ==> h.clock == 0
    ensures old(h.outcomes) == [] ==> h.outcomes == []
    ensures old(h.clock) >= |h.startOrder| ==> s.Alive? && h.clock >= old(h.clock) - |h.startOrder|
  {
    assert h.running <= h.recorded && QuietRenames(h.log);
    hide Host.StorageOk;
    hide Host.RuntimeOk;
    hide Swept, QuietRenames, AllUntouched, AllForward;
    s := h.StopSweep();
  }

  /** Start the recorded components; with all slots original or all restored they may run. */
  method ResumeSafely(h: Host) returns (s: Status, ok: bool)
    requires h.Consistent() && (AllUntouched(h.slots) || AllForward(h.slots))
    requires h.phase != NoJournal && (h.recorded == h.initial || h.BeforeIntent())
    modifies h`running, h`clock, h`outcomes, h`log
    ensures h.Consistent() && (QuietRenames(h.log) <==> old(QuietRenames(h.log)))
    ensures old(h.running) <= h.running <= h.initial
    ensures s.Alive? ==> Resumption(h.running, h.outcomes, ok) == Resumed(h.startOrder, h.recorded, old(h.running), old(h.outcomes))
    ensures s.Alive? && ok ==> h.running == old(h.running) + h.recorded
    ensures s.Crashed? ==> h.clock == 0
    ensures old(h.outcomes) == [] ==> h.outcomes == [] && (s.Alive? ==> ok)
    ensures old(h.clock) >= |h.startOrder| ==> s.Alive? && h.clock >= old(h.clock) - |h.startOrder|
  {
    hide Host.StorageOk;
    hide QuietRenames, AllUntouched, AllForward, Resumed, IntentFirst, AllListed;
    s, ok := h.Resume(h.recorded);
  }

  /** With every slot original: the original secrets, the recorded components as far as they start, and the record of it. */
  method ResumeOriginal(h: Host) returns (s: Status)
    requires h.Consistent() && h.recorded == h.initial && !h.committed && AllUntouched(h.slots)
    requires h.phase == Swapping || h.phase == RuntimePending
    modifies h`phase, h`secrets, h`running, h`clock, h`outcomes, h`log
    ensures h.Consistent() && (QuietRenames(h.log) <==> old(QuietRenames(h.log)))
    ensures s.Alive? ==> h.phase == RolledBack
    ensures s.Alive? ==> h.running == Resumed(h.startOrder, h.initial, old(h.running), old(h.outcomes)).running <= h.initial
    ensures s.Crashed? ==> h.clock == 0
    ensures old(h.outcomes) == [] ==> h.outcomes == []
    ensures old(h.clock) >= |h.startOrder| + 2 ==> s.Alive? && h.clock >= old(h.clock) - (|h.startOrder| + 2)
  {
    hide Host.StorageOk;
    hide Host.PhaseOk;
    hide Host.RuntimeOk;
    hide Host.QuietOk;
    hide QuietRenames, AllUntouched, Resumed;
    :- h.InstallOriginalSecrets();
    var resumed :- ResumeSafely(h);
    s := h.RecordRolledBack();
  }

  /** The in-process rollback followed by the deferred clean-up. */
  method Undo(h: Host, swapped: seq<nat>) returns (s: Status)
    requires h.Consistent() && h.recorded == h.initial && !h.committed && h.sweepLeft == {}
    requires h.phase == Swapping || h.phase == RuntimePending
    requires ExactlySwapped(h.slots, swapped)
    modifies h
    ensures h.Consistent() && |h.slots| == |old(h.slots)|
    ensures s.Alive? ==> h.phase == RolledBack && !h.committed
    ensures s.Alive? ==>
              (QuietRenames(h.log) <==> Swept(h.startOrder, old(h.running), old(h.outcomes)).left == {} || swapped == [])
    ensures Swept(h.startOrder, old(h.running), old(h.outcomes)).left == {} ==> h.sweepLeft == {}
    ensures Swept(h.startOrder, old(h.running), old(h.outcomes)).left == {} || swapped == [] ==> QuietRenames(h.log)
    ensures s.Alive? ==> UndoneFrom(h, old(h.running), old(h.outcomes))
    ensures s.Crashed? ==> h.clock == 0
    ensures old(h.clock) >= 2 * |h.startOrder| + 2 * |swapped| + 2 * |h.slots| + 2 ==> s.Alive? && h.clock >= old(h.clock) - (2 * |h.startOrder| + 2 * |swapped| + 2 * |h.slots| + 2)
    ensures h.reported == old(h.reported)
  {
    hide Host.StorageOk;
    hide Host.PhaseOk;
    hide Host.RuntimeOk;
    hide Host.QuietOk;
    hide ExactlySwapped, Swept, QuietRenames;
    hide Host.RestartedFrom;
    :- RollBack(h, swapped);
    :- DiscardStaging(h);
    return Alive;
  }

  /** Drop the rollback trees of a committed restore; what cannot be dropped is left for a later start. */
  method CleanUp(h: Host) returns (s: Status)
    requires h.Consistent() && h.committed && (h.phase == Committed || h.phase == CleanupPending)
    requires h.secrets == h.restoredSecrets
    modifies h`slots, h`clock, h`outcomes, h`phase
    ensures h.Consistent() && |h.slots| == |old(h.slots)|
    ensures s.Alive? ==> h.phase == Completed || h.phase == CleanupPending
    ensures h.phase == old(h.phase) || h.phase == Completed || h.phase == CleanupPending
    ensures h.phase == Completed ==> NoRollback(h.slots)
    ensures s.Crashed? ==> h.clock == 0
    ensures old(h.outcomes) == [] ==> h.outcomes == [] && (s.Alive? ==> h.phase == Completed)
    ensures old(h.clock) >= 3 * |h.slots| + 1 ==> s.Alive? && h.clock >= old(h.clock) - (3 * |h.slots| + 1)
  {
    var deferred := false;
    for i := 0 to |h.slots|
      invariant h.Consistent() && |h.slots| == |old(h.slots)| && h.phase == old(h.phase)
      invariant old(h.outcomes) == [] ==> h.outcomes == [] && !deferred
      invariant h.clock >= old(h.clock) - 3 * i
      invariant !deferred ==> forall j :: 0 <= j < i ==> h.slots[j].rollback.None?
    {
      :- h.Tick();
      var removed :- h.RemoveRollback(i);
      if !removed {
        deferred := true;
      }
    }
    :- h.Tick();
    h.phase := if deferred then CleanupPending else Completed;
    return Alive;
  }

  /** The first k slots of the plan are swapped and the others pristine. */
  ghost predicate SwappedUpTo(slots: seq<Slot>, plan: seq<nat>, k: nat) {
    && Plan(plan, |slots|) && k <= |plan|
    && (forall j :: 0 <= j < k ==> Swapped(slots[plan[j]]))
    && (forall j :: k <= j < |plan| ==> Pristine(slots[plan[j]]))
  }

  lemma PlanFits(slots: seq<Slot>, plan: seq<nat>, k: nat)
    requires SwappedUpTo(slots, plan, k)
    ensures |plan| == |slots| && (k < |plan| ==> plan[k] < |slots| && Pristine(slots[plan[k]]))
  {
  }

  lemma PlanBegins(slots: seq<Slot>, plan: seq<nat>)
    requires Plan(plan, |slots|) && forall i :: 0 <= i < |slots| ==> Pristine(slots[i])
    ensures SwappedUpTo(slots, plan, 0)
  {
  }

  lemma SwapNext(before: seq<Slot>, slots: seq<Slot>, plan: seq<nat>, k: nat)
    requires SwappedUpTo(before, plan, k) && k < |plan| && plan[k] < |before| == |slots|
    requires slots == before[plan[k] := slots[plan[k]]] && Swapped(slots[plan[k]])
    ensures SwappedUpTo(slots, plan, k + 1)
  {
    hide Swapped, Pristine;
  }

  /** Where a slot could not be begun, exactly the slots before it are swapped. */
  lemma RestUntouched(before: seq<Slot>, slots: seq<Slot>, plan: seq<nat>, k: nat)
    requires SwappedUpTo(before, plan, k) && k < |plan| && plan[k] < |before| == |slots|
    requires slots == before[plan[k] := slots[plan[k]]] && Pristine(slots[plan[k]])
    ensures ExactlySwapped(slots, plan[..k])
  {
    forall i | 0 <= i < |slots| && i !in plan[..k]
      ensures Untouched(slots[i])
    {
      assert i in plan;
      var j :| 0 <= j < |plan| && plan[j] == i;
      assert plan == plan[..k] + plan[k..];
    }
  }

  lemma AllSwapped(slots: seq<Slot>, plan: seq<nat>)
    requires SwappedUpTo(slots, plan, |plan|) && AllSafe(slots)
    ensures ExactlySwapped(slots, plan) && AllCleaned(slots) && AllForward(slots) && |plan| == |slots|
  {
    forall i | 0 <= i < |slots|
      ensures Swapped(slots[i])
    {
      assert i in plan;
    }
  }

  /** What decides what runs in the end: nothing more was started, or a restart from what was left running. */
  datatype LastStep = Still(running: set<string>) | Restarted(left: set<string>, outcomes: seq<bool>)

  /** How a restore ends. */
  datatype Ending = Ending(answer: RestoreResult, last: LastStep)

  /** The answer and the running components are those of the ending. */
  ghost predicate Ends(h: Host, r: RestoreResult, e: Ending)
    reads h`running
  {
    r == e.answer && RunsAs(h, e.last)
  }

  ghost predicate RunsAs(h: Host, last: LastStep)
    reads h`running
  {
    match last
    case Still(running) => h.running == running
    case Restarted(left, outcomes) => h.RestartedFrom(h.initial, left, outcomes)
  }

  function AfterSweep(order: seq<string>, running: set<string>, outcomes: seq<bool>): LastStep {
    var sweep := Swept(order, running, outcomes);
    Restarted(sweep.left, sweep.outcomes)
  }

  /** After the last swap: the record, the secrets, the starts and the commit. */
  function FinishEnding(order: seq<string>, intent: set<string>, outcomes: seq<bool>): Ending {
    var resumed := Resumed(order, intent, {}, Rest(outcomes, 2));
    if !Succeeds(outcomes) then Ending(LeftForRecovery, Still({}))
    else if !Succeeds(Rest(outcomes, 1)) then Ending(UndoneInProcess, AfterSweep(order, {}, Rest(outcomes, 2)))
    else if !resumed.ok then Ending(UndoneInProcess, AfterSweep(order, resumed.running, resumed.outcomes))
    else Ending(if Succeeds(resumed.outcomes) then Restored else LeftForRecovery, Still(resumed.running))
  }

  /** The swap of n slots: three calls each, of which the first decides whether the slot is begun. */
  function SwapEnding(order: seq<string>, intent: set<string>, n: nat, outcomes: seq<bool>): Ending {
    if n == 0 then FinishEnding(order, intent, outcomes)
    else if NoFailure(outcomes, 3) then SwapEnding(order, intent, n - 1, Rest(outcomes, 3))
    else if Succeeds(outcomes) then Ending(LeftForRecovery, Still({}))
    else Ending(UndoneInProcess, AfterSweep(order, {}, Rest(outcomes, 1)))
  }

  /** The stops; if one fails, everything is started again from what was left running. */
  function QuiesceEnding(order: seq<string>, intent: set<string>, n: nat, outcomes: seq<bool>): Ending {
    var stopped := Halted(order, |order|, intent, intent, outcomes);
    if stopped.ok then SwapEnding(order, intent, n, stopped.outcomes)
    else Ending(LeftForRecovery, Restarted(stopped.left, stopped.outcomes))
  }

  /** The whole restore: the fence, the inspection, the stops, the swap and what follows it. */
  function RestoreEnding(order: seq<string>, intent: set<string>, n: nat, outcomes: seq<bool>): Ending {
    if !Succeeds(outcomes) then Ending(Refused, Still(intent))
    else if !Succeeds(Rest(outcomes, 1)) then Ending(LeftForRecovery, Still(intent))
    else QuiesceEnding(order, intent, n, Rest(Rest(outcomes, 1), 1))
  }

  /** How the steps after the last swap end: committed, to be undone, or left as they are. */
  datatype Activation = Activated | ToUndo | ToLeave

  /** The outcomes of the steps after the last swap leave nothing running, or nothing to undo. */
  predicate QuietFinish(order: seq<string>, intent: set<string>, outcomes: seq<bool>) {
    var resumed := Resumed(order, intent, {}, Rest(outcomes, 2));
    NoFailure(outcomes, 2) ==> resumed.ok || Swept(order, resumed.running, resumed.outcomes).left == {}
  }

  /** Install the restored secrets, start the application and commit. */
  method Activate(h: Host) returns (s: Status, r: Activation)
    requires h.Consistent() && h.phase == Swapping && h.running == {} && h.recorded == h.initial && !h.committed
    requires AllCleaned(h.slots) && AllForward(h.slots)
    modifies h`phase, h`secrets, h`running, h`clock, h`outcomes, h`log, h`committed
    ensures h.Consistent()
    ensures s.Alive? && r.Activated? ==> h.committed && h.phase == Committed && h.secrets == h.restoredSecrets && h.running == h.initial
    ensures s.Alive? && !r.Activated? ==> !h.committed && (h.phase == RuntimePending || (h.phase == Swapping && r.ToLeave?))
    ensures s.Alive? && r.ToUndo? ==> QuietAfter(h, old(h.outcomes))
    ensures s.Alive? ==> Leads(h, r, FinishEnding(h.startOrder, h.initial, old(h.outcomes)))
    ensures s.Alive? && !r.ToUndo? ==> QuietFinish(h.startOrder, h.initial, old(h.outcomes))
    ensures s.Crashed? ==> h.clock == 0
    ensures old(h.outcomes) == [] ==> h.outcomes == [] && (s.Alive? ==> r.Activated?)
    ensures old(h.clock) >= |h.startOrder| + 3 ==> s.Alive? && h.clock >= old(h.clock) - (|h.startOrder| + 3)
  {
    r := ToLeave;
    ghost var o := h.outcomes;
    TwoCalls(o);
    hide Host.StorageOk;
    hide Host.PhaseOk;
    hide Host.RuntimeOk;
    hide Host.QuietOk;
    hide AllCleaned, AllForward, NoFailure, Rest, Succeeds, Resumed, Swept;
    var pending :- h.RecordPending();
    if !pending {
      return Alive, ToLeave;
    }
    var stored :- h.InstallRestoredSecrets();
    if !stored {
      NothingSwept(h.startOrder, h.outcomes);
      return Alive, ToUndo;
    }
    var resumed :- ResumeSafely(h);
    if !resumed {
      return Alive, ToUndo;
    }
    var committed :- h.RecordCommit();
    return Alive, if committed then Activated else ToLeave;
  }

  /** The activation that an ending stands for. */
  ghost predicate Leads(h: Host, r: Activation, e: Ending)
    reads h`running, h`outcomes
  {
    match r
    case Activated => e == Ending(Restored, Still(h.running))
    case ToLeave => e == Ending(LeftForRecovery, Still(h.running))
    case ToUndo => e == Ending(UndoneInProcess, AfterSweep(h.startOrder, h.running, h.outcomes))
  }

  /** What runs and the outcomes to come decide the sweep as the whole list of outcomes said. */
  ghost predicate QuietAfter(h: Host, outcomes: seq<bool>)
    reads h
  {
    Swept(h.startOrder, h.running, h.outcomes).left == {} <==> QuietFinish(h.startOrder, h.initial, outcomes)
  }

  /**
   After the last slot: install the restored secrets, start the application, commit and clean up, or undo. All
   renames are quiet exactly when the outcomes say that nothing has to be undone or the sweep stops everything.
   */
  method FinishSwapped(h: Host, plan: seq<nat>) returns (s: Status, r: RestoreResult)
    requires h.Consistent() && h.phase == Swapping && h.running == {} && h.sweepLeft == {} && !h.committed
    requires h.recorded == h.initial
    requires SwappedUpTo(h.slots, plan, |plan|)
    modifies h
    ensures h.Consistent() && |h.slots| == |old(h.slots)|
    ensures s.Alive? ==> Answered(h, r) && !r.Refused?
    ensures s.Alive? ==> (QuietRenames(h.log) <==> QuietFinish(h.startOrder, h.initial, old(h.outcomes)) || plan == [])
    ensures QuietFinish(h.startOrder, h.initial, old(h.outcomes)) ==> h.sweepLeft == {}
    ensures QuietFinish(h.startOrder, h.initial, old(h.outcomes)) || plan == [] ==> QuietRenames(h.log)
    ensures s.Alive? ==> Ends(h, r, FinishEnding(h.startOrder, h.initial, old(h.outcomes)))
    ensures s.Crashed? ==> h.clock == 0
    ensures old(h.outcomes) == [] && s.Alive? ==> r.Restored?
    ensures old(h.clock) >= 3 * |h.startOrder| + 7 * |h.slots| + 6 ==>
              s.Alive? && h.clock >= old(h.clock) - (3 * |h.startOrder| + 7 * |h.slots| + 6)
    ensures h.reported == old(h.reported)
  {
    r := LeftForRecovery;
    AllSwapped(h.slots, plan);
    hide SwappedUpTo, Plan, ExactlySwapped, AllCleaned, AllForward, QuietFinish, Swept, FinishEnding;
    hide Host.RestartedFrom;
    hide Host.StorageOk;
    hide Host.PhaseOk;
    hide Host.QuietOk;
    var activation :- Activate(h);
    if activation.ToUndo? {
      :- Undo(h, plan);
      return Alive, UndoneInProcess;
    }
    assert QuietRenames(h.log);
    if activation.ToLeave? {
      return Alive, LeftForRecovery;
    }
    hide Host.RuntimeOk;
    :- CleanUp(h);
    CommittedSlots(h);
    return Alive, Restored;
  }

  lemma CommittedSlots(h: Host)
    requires h.Consistent() && h.committed
    ensures AllCleaned(h.slots)
  {
  }

  /** Swap the slots in plan order, rolling back in process if a slot cannot be begun. */
  method SwapAll(h: Host, plan: seq<nat>) returns (s: Status, r: RestoreResult)
    requires h.Consistent() && h.phase == Swapping && h.running == {} && h.sweepLeft == {} && !h.committed
    requires h.recorded == h.initial
    requires SwappedUpTo(h.slots, plan, 0)
    modifies h
    ensures h.Consistent() && |h.slots| == |old(h.slots)|
    ensures s.Alive? ==> Answered(h, r) && !r.Refused?
    ensures s.Alive? ==> (QuietRenames(h.log) <==> QuietSwap(h.startOrder, h.initial, |plan|, old(h.outcomes)))
    ensures QuietSwap(h.startOrder, h.initial, |plan|, old(h.outcomes)) ==>
              QuietRenames(h.log) && (plan != [] ==> h.sweepLeft == {})
    ensures s.Alive? ==> Ends(h, r, SwapEnding(h.startOrder, h.initial, |plan|, old(h.outcomes)))
    ensures s.Crashed? ==> h.clock == 0
    ensures old(h.outcomes) == [] && s.Alive? ==> r.Restored?
    ensures old(h.clock) >= 3 * |h.startOrder| + 12 * |h.slots| + 6 ==>
              s.Alive? && h.clock >= old(h.clock) - (3 * |h.startOrder| + 12 * |h.slots| + 6)
    ensures h.reported == old(h.reported)
  {
    r := LeftForRecovery;
    PlanFits(h.slots, plan, 0);
    hide Host.StorageOk;
    hide Host.PhaseOk;
    hide Host.QuietOk;
    hide Host.RuntimeOk;
    hide NoFailure, Rest, Swept, QuietFinish, QuietSwap, SwappedUpTo, QuietRenames, ExactlySwapped, SwapEnding, FinishEnding;
    hide Host.RestartedFrom;
    var k, last :- SwapSlots(h, plan);
    if last.LeftInBetween? {
      return Alive, LeftForRecovery;
    }
    if last.NotStarted? {
      NothingSwept(h.startOrder, h.outcomes);
      :- Undo(h, plan[..k]);
      return Alive, UndoneInProcess;
    }
    s, r := FinishSwapped(h, plan);
  }

  /** The swap of n slots is quiet as the outcomes so far and those left say. */
  predicate QuietOn(last: SlotResult, order: seq<string>, intent: set<string>, n: nat, outcomes: seq<bool>, left: seq<bool>) {
    QuietSwap(order, intent, n, outcomes) <==> !last.SlotSwapped? || n == 0 || QuietFinish(order, intent, left)
  }

  /** Swap slots in plan order up to the first that is not; k of them are swapped. */
  method SwapSlots(h: Host, plan: seq<nat>) returns (s: Status, k: nat, last: SlotResult)
    requires h.Consistent() && h.phase == Swapping && h.running == {} && h.sweepLeft == {} && !h.committed
    requires h.recorded == h.initial && SwappedUpTo(h.slots, plan, 0)
    modifies h`slots, h`clock, h`outcomes, h`log
    ensures h.Consistent() && |h.slots| == |old(h.slots)|
    ensures QuietRenames(h.log)
    ensures s.Alive? ==>
              LeadsOn(last, SwapEnding(h.startOrder, h.initial, |plan|, old(h.outcomes)), h.startOrder, h.initial, h.outcomes)
    ensures s.Alive? ==> k <= |plan| && (last.SlotSwapped? <==> NoFailure(old(h.outcomes), 3 * |plan|))
    ensures s.Alive? && last.SlotSwapped? ==> SwappedUpTo(h.slots, plan, |plan|) && h.outcomes == Rest(old(h.outcomes), 3 * |plan|)
    ensures s.Alive? ==> QuietOn(last, h.startOrder, h.initial, |plan|, old(h.outcomes), h.outcomes)
    ensures s.Alive? && last.NotStarted? ==> ExactlySwapped(h.slots, plan[..k])
    ensures s.Crashed? ==> h.clock == 0
    ensures old(h.outcomes) == [] && s.Alive? ==> last.SlotSwapped? && h.outcomes == []
    ensures old(h.clock) >= 5 * |plan| ==> s.Alive? && h.clock >= old(h.clock) - 5 * |plan|
  {
    k, last := 0, SlotSwapped;
    hide Host.Consistent;
    hide Host.StorageOk;
    hide Host.PhaseOk;
    hide Host.QuietOk;
    hide Host.RuntimeOk;
    hide NoFailure, Rest, Succeeds, QuietFinish, QuietSwap, SwappedUpTo, QuietRenames, ExactlySwapped, Pristine, Swapped, SwapEnding, FinishEnding;
    ConsistentIsQuiet(h);
    NoCalls(h.outcomes);
    while k < |plan|
      invariant h.Consistent() && |h.slots| == |old(h.slots)|
      invariant SwappedUpTo(h.slots, plan, k) && k <= |plan|
      invariant NoFailure(old(h.outcomes), 3 * k) && h.outcomes == Rest(old(h.outcomes), 3 * k)
      invariant old(h.outcomes) == [] ==> h.outcomes == []
      invariant h.clock >= old(h.clock) - 5 * k
      invariant SwapEnding(h.startOrder, h.initial, |plan| - k, h.outcomes) == SwapEnding(h.startOrder, h.initial, |plan|, old(h.outcomes))
    {
      SwapEndingStep(h.startOrder, h.initial, |plan| - k, h.outcomes);
      More(old(h.outcomes), 3 * k, 3);
      PlanFits(h.slots, plan, k);
      ghost var before := h.slots;
      NoneLeft3(h.outcomes);
      s, last := SwapSlot(h, plan[k]);
      ConsistentIsQuiet(h);
      if s.Crashed? {
        return;
      }
      if !last.SlotSwapped? {
        QuietUnlessSmooth(h.startOrder, h.initial, |plan|, old(h.outcomes), k);
        if last.NotStarted? { RestUntouched(before, h.slots, plan, k); }
        return Alive, k, last;
      }
      SwapNext(before, h.slots, plan, k);
      k := k + 1;
    }
    QuietIfSmooth(h.startOrder, h.initial, |plan|, old(h.outcomes));
    SwapEndingStep(h.startOrder, h.initial, 0, h.outcomes);
    return Alive, k, SlotSwapped;
  }

  /** The ending that the result of the swap stands for, with the outcomes left. */
  predicate LeadsOn(last: SlotResult, e: Ending, order: seq<string>, intent: set<string>, outcomes: seq<bool>) {
    match last
    case SlotSwapped => e == FinishEnding(order, intent, outcomes)
    case NotStarted => e == Ending(UndoneInProcess, AfterSweep(order, {}, outcomes))
    case LeftInBetween => e == Ending(LeftForRecovery, Still({}))
  }

  lemma SwapEndingStep(order: seq<string>, intent: set<string>, n: nat, o: seq<bool>)
    ensures SwapEnding(order, intent, n, o) ==
            if n == 0 then FinishEnding(order, intent, o)
            else if NoFailure(o, 3) then SwapEnding(order, intent, n - 1, Rest(o, 3))
            else if Succeeds(o) then Ending(LeftForRecovery, Still({}))
            else Ending(UndoneInProcess, AfterSweep(order, {}, Rest(o, 1)))
  {
  }

  lemma ConsistentIsQuiet(h: Host)
    requires h.Consistent()
    ensures h.sweepLeft == {} ==> QuietRenames(h.log)
  {
  }

  lemma NoneLeft3(o: seq<bool>)
    ensures o == [] ==> NoFailure(o, 3) && Rest(o, 3) == []
  {
  }

  lemma NoCalls(o: seq<bool>)
    ensures NoFailure(o, 0) && Rest(o, 0) == o
  {
  }

  /** The outcomes of the swap of n slots and of what follows it let no rename meet a running component. */
  predicate QuietSwap(order: seq<string>, intent: set<string>, n: nat, outcomes: seq<bool>) {
    n == 0 || (NoFailure(outcomes, 3 * n) ==> QuietFinish(order, intent, Rest(outcomes, 3 * n)))
  }

  lemma QuietUnlessSmooth(order: seq<string>, intent: set<string>, n: nat, o: seq<bool>, k: nat)
    requires k < n && NoFailure(o, 3 * k) && !NoFailure(Rest(o, 3 * k), 3)
    ensures QuietSwap(order, intent, n, o) && !NoFailure(o, 3 * n)
  {
    More(o, 3 * k, 3);
    More(o, 3 * k + 3, 3 * (n - k - 1));
  }

  lemma QuietIfSmooth(order: seq<string>, intent: set<string>, n: nat, o: seq<bool>)
    requires NoFailure(o, 3 * n)
    ensures QuietSwap(order, intent, n, o) <==> n == 0 || QuietFinish(order, intent, Rest(o, 3 * n))
  {
  }

  lemma FreshIsConsistent(h: Host)
    requires h.Fresh()
    ensures h.Consistent() && AllUntouched(h.slots) && forall i :: 0 <= i < |h.slots| ==> Pristine(h.slots[i])
    ensures h.phase == NoJournal && !h.committed && h.sweepLeft == {} && h.log == [] && h.running == h.initial
  {
  }

  /** The whole restore, from prepared staging to its answer. */
  method Restore(h: Host, plan: seq<nat>) returns (s: Status, r: RestoreResult)
    requires h.Fresh() && Plan(plan, |h.slots|)
    modifies h
    ensures h.Consistent() && |h.slots| == |old(h.slots)|
    ensures s.Alive? ==> Answered(h, r)
    ensures s.Alive? ==> (QuietRenames(h.log) <==> QuietRestore(h.startOrder, h.initial, |plan|, old(h.outcomes)))
    ensures QuietRestore(h.startOrder, h.initial, |plan|, old(h.outcomes)) ==>
              QuietRenames(h.log) && (plan != [] ==> h.sweepLeft == {})
    ensures s.Alive? ==> Ends(h, r, RestoreEnding(h.startOrder, h.initial, |plan|, old(h.outcomes)))
    ensures s.Crashed? ==> h.clock == 0
    ensures old(h.outcomes) == [] && s.Alive? ==> r.Restored?
    ensures old(h.clock) >= 5 * |h.startOrder| + 16 * |h.slots| + 8 ==> s.Alive? && h.clock >= old(h.clock) - (5 * |h.startOrder| + 16 * |h.slots| + 8)
    ensures h.reported == old(h.reported)
  {
    r := LeftForRecovery;
    FreshIsConsistent(h);
    hide NoFailure, Rest, Succeeds, QuietQuiesce, QuietRestore, QuietRenames, QuiesceEnding, AllUntouched, AllCleaned, AllSafe, AllForward, Pristine, Plan;
    hide Host.Consistent;
    hide Host.StorageOk;
    hide Host.PhaseOk;
    hide Host.RuntimeOk;
    hide Host.QuietOk;
    hide Host.Fresh;
    hide Host.RestartedFrom;
    NothingRenamed();
    NoOutcomes();
    QuietRestoreUnfolds(h.startOrder, h.initial, |plan|, h.outcomes);
    var fenced :- h.RecordJournal();
    if !fenced {
      :- DiscardStaging(h);
      return Alive, Refused;
    }
    var inspected := h.Outcome();
    if !inspected {
      :- DiscardStaging(h);
      return Alive, LeftForRecovery;
    }
    NoSlotIsQuiet(h.startOrder, h.initial, h.outcomes);
    s, r := QuiesceAndSwap(h, plan);
  }

  /** From the recorded journal on: the running intent, then quiesce, then the swap. */
  method QuiesceAndSwap(h: Host, plan: seq<nat>) returns (s: Status, r: RestoreResult)
    requires h.Consistent() && h.phase == Staged && h.sweepLeft == {}
    requires Plan(plan, |h.slots|) && forall i :: 0 <= i < |h.slots| ==> Pristine(h.slots[i])
    modifies h
    ensures h.Consistent() && |h.slots| == |old(h.slots)|
    ensures s.Alive? ==> Answered(h, r) && !r.Refused?
    ensures s.Alive? ==> (QuietRenames(h.log) <==> QuietQuiesce(h.startOrder, h.initial, |plan|, old(h.outcomes)))
    ensures QuietQuiesce(h.startOrder, h.initial, |plan|, old(h.outcomes)) ==>
              QuietRenames(h.log) && (plan != [] ==> h.sweepLeft == {})
    ensures s.Alive? ==> Ends(h, r, QuiesceEnding(h.startOrder, h.initial, |plan|, old(h.outcomes)))
    ensures s.Crashed? ==> h.clock == 0
    ensures old(h.outcomes) == [] && s.Alive? ==> r.Restored?
    ensures old(h.clock) >= 5 * |h.startOrder| + 14 * |h.slots| + 7 ==> s.Alive? && h.clock >= old(h.clock) - (5 * |h.startOrder| + 14 * |h.slots| + 7)
    ensures h.reported == old(h.reported)
  {
    r := LeftForRecovery;
    hide Host.StorageOk;
    hide NoFailure, Rest, QuietSwap, Listed, QuietRenames, SwapEnding, Halted;
    hide Host.RestartedFrom;
    NoSlotIsQuiet(h.startOrder, h.initial, h.outcomes);
    :- h.RecordIntent();
    var quiet :- h.Quiesce(h.recorded);
    if !quiet {
      RuntimeIsQuiet(h);
      :- DiscardStaging(h);
      return Alive, LeftForRecovery;
    }
    NoSlotIsQuiet(h.startOrder, h.initial, h.outcomes);
    PlanBegins(h.slots, plan);
    s, r := SwapAll(h, plan);
  }

  // ----- when no rename meets a running component --------------------------------------------------------

  predicate QuietQuiesce(order: seq<string>, intent: set<string>, n: nat, outcomes: seq<bool>) {
    var stops := 2 * Listed(order, 0, intent);
    n == 0 || (NoFailure(outcomes, stops) ==> QuietSwap(order, intent, n, Rest(outcomes, stops)))
  }

  /** The calls of a restore up to its last swap: fence and inspection, two for each stop, three for each slot. */
  function CallsBeforeFinish(order: seq<string>, intent: set<string>, n: nat): nat { 2 + 2 * Listed(order, 0, intent) + 3 * n }

  /**
   The outcomes a restore meets let no active path be renamed under a running component: there is no slot, or a call
   before the end of the swap fails, or the last steps leave nothing to undo or nothing running.
   */
  predicate QuietRestore(order: seq<string>, intent: set<string>, n: nat, outcomes: seq<bool>) {
    var calls := CallsBeforeFinish(order, intent, n);
    n == 0 || (NoFailure(outcomes, calls) ==> QuietFinish(order, intent, Rest(outcomes, calls)))
  }

  lemma QuietRestoreUnfolds(order: seq<string>, intent: set<string>, n: nat, o: seq<bool>)
    ensures QuietRestore(order, intent, n, o) <==>
            n == 0 || (Succeeds(o) && Succeeds(Rest(o, 1)) ==> QuietQuiesce(order, intent, n, Rest(Rest(o, 1), 1)))
  {
    hide QuietFinish, NoFailure, Rest, Succeeds;
    var stops := 2 * Listed(order, 0, intent);
    TwoCalls(o);
    More(o, 2, stops + 3 * n);
    More(Rest(o, 2), stops, 3 * n);
  }

  lemma NoOutcomes()
    ensures Succeeds([]) && Rest([], 1) == []
  {
  }

  lemma NoSlotIsQuiet(order: seq<string>, intent: set<string>, o: seq<bool>)
    ensures QuietSwap(order, intent, 0, o) && QuietQuiesce(order, intent, 0, o)
  {
  }

  lemma RuntimeIsQuiet(h: Host)
    requires h.RuntimeOk() && h.sweepLeft == {}
    ensures QuietRenames(h.log)
  {
  }

  lemma NothingRenamed()
    ensures QuietRenames([])
  {
  }

  const LOUD: seq<bool> := [true, true, true, true, true, true, true, true, true, true, false, false]

  /** A start that takes effect but is reported as failed, then a refused stop. */
  lemma LoudOutcomes()
    ensures !QuietRestore(["app"], {"app"}, 1, LOUD)
  {
    assert Listed(["app"], 1, {"app"}) == 0;
    assert CallsBeforeFinish(["app"], {"app"}, 1) == 7;
    assert Rest(LOUD, 7) == [true, true, true, false, false];
    assert Rest(Rest(LOUD, 7), 2) == [true, false, false];
    StartTakes([true, false, false]);
    StopRefused([false]);
  }

  lemma StartTakes(o: seq<bool>)
    requires o == [true, false, false]
    ensures Resumed(["app"], {"app"}, {}, o) == Resumption({"app"}, [false], false)
  {
    assert Rest(o, 2) == [false];
    assert !o[1];
    assert {} + {"app"} == {"app"};
  }

  lemma StopRefused(o: seq<bool>)
    requires o == [false]
    ensures Swept(["app"], {"app"}, o).left == {"app"}
  {
    assert ["app"][..0] == [];
  }

  /** A host with one slot and one running component, and steps enough for a whole restore. */
  method OneSlot(outcomes: seq<bool>) returns (h: Host)
    ensures fresh(h) && h.Fresh() && |h.slots| == 1 && h.startOrder == ["app"] && h.initial == {"app"}
    ensures h.clock == 29 && h.outcomes == outcomes
  {
    var slot := Slot(Some(Tree(1, true)), Some(Tree(2, true)), None, None, 1, 2);
    h := new Host([slot], {"app"}, ["app"], map[], 1, 2, 29, outcomes);
  }

  lemma PlanOfOne()
    ensures Plan([0], 1)
  {
    assert [0][0] == 0;
  }

  /**
   A restore of one slot and one component whose start takes effect but is reported as failed, and whose stop is
   then refused: the rollback moves the slot's trees while the component runs.
   */
  method RenamedWhileRunning() returns (h: Host)
    ensures !QuietRenames(h.log)
  {
    hide QuietRestore, QuietRenames, Plan;
    hide Host.Fresh;
    hide Host.Consistent;
    h := OneSlot(LOUD);
    PlanOfOne();
    LoudOutcomes();
    var s, r := Restore(h, [0]);
  }
}
