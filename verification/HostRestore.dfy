/**
 The host-state restore: a journalled swap of a fixed list of targets, and the recovery that runs at the
 next start. As in RestoreHost, every durable step consumes one unit of clock and the process stops when
 there is none left.
 */
module HostRestore {
  import opened Options

  /** A file or directory tree: which content it is, and whether a removal has begun on it. */
  datatype Tree = Tree(content: nat, whole: bool)

  /** One target with its places in the rollback and the staging directory. */
  datatype Slot = Slot(target: Option<Tree>, previous: Option<Tree>, candidate: Option<Tree>)

  datatype Journal = NoJournal | Swapping | Committed

  /** The ingress symlink, which a restore resets before it commits. */
  datatype Link = NoLink | Bootstrap | Generation(n: int)

  predicate NotBegun(sl: Slot, before: Option<Tree>, after: Tree) { sl == Slot(before, None, Some(after)) }

  predicate SetAside(sl: Slot, before: Option<Tree>, after: Tree) {
    before.Some? && sl == Slot(None, before, Some(after))
  }

  predicate Replaced(sl: Slot, before: Option<Tree>, after: Tree) { sl == Slot(Some(after), before, None) }

  // ----- how many steps each part takes ---------------------------------------------------------------

  /** The steps of putting one target back: a removal takes two, a rename one. */
  function PutBackSteps(sl: Slot): nat {
    if sl.previous.Some? then (if sl.target.Some? then 3 else 1)
    else if sl.candidate.None? && sl.target.Some? then 2 else 0
  }

  /** The steps of putting the targets from k on back. */
  function StepsFrom(slots: seq<Slot>, k: nat): (n: nat)
    requires k <= |slots|
    ensures n <= 3 * (|slots| - k)
    decreases |slots| - k
  {
    if k == |slots| then 0 else PutBackSteps(slots[k]) + StepsFrom(slots, k + 1)
  }

  lemma {:induction false} StepsGrow(slots: seq<Slot>, i: nat, k: nat)
    requires i <= k <= |slots|
    ensures StepsFrom(slots, i) >= StepsFrom(slots, k)
    decreases k - i
  {
    if i < k { StepsGrow(slots, i + 1, k); }
  }

  /** The steps of swapping targets: two renames where there was one before, else one. */
  function SwapSteps(before: seq<Option<Tree>>): nat {
    if before == [] then 0 else SwapSteps(before[..|before| - 1]) + if before[|before| - 1].Some? then 2 else 1
  }

  lemma {:induction false} SwapStepsGrow(before: seq<Option<Tree>>, i: nat)
    requires i < |before|
    ensures SwapSteps(before[..i + 1]) == SwapSteps(before[..i]) + if before[i].Some? then 2 else 1
    ensures SwapSteps(before[..i + 1]) <= SwapSteps(before)
    decreases |before|
  {
    var n := |before| - 1;
    assert before[..i + 1][..i] == before[..i];
    if i < n {
      SwapStepsGrow(before[..n], i);
      assert before[..n][..i + 1] == before[..i + 1] && before[..n][..i] == before[..i];
    } else {
      assert before[..i + 1] == before;
    }
  }

  lemma {:induction false} SameSteps(slots: seq<Slot>, i: nat, k: nat)
    requires i <= k <= |slots| && StepsFrom(slots, i) == StepsFrom(slots, k)
    ensures forall j :: i <= j < k ==> PutBackSteps(slots[j]) == 0
    decreases k - i
  {
    if i < k {
      StepsGrow(slots, i + 1, k);
      SameSteps(slots, i + 1, k);
    }
  }

  /** The steps left after the journal record and the swap. */
  function StepsLeft(clock: nat, before: seq<Option<Tree>>): nat {
    if clock <= 1 + SwapSteps(before) then 0 else clock - 1 - SwapSteps(before)
  }

  /** What putting back makes of a slot. */
  function Back(sl: Slot, before: Option<Tree>): Slot {
    sl.(previous := None, target := if sl.previous.Some? || sl.candidate.Some? then before else None)
  }

  /** The ingress symlink after its two-step reset with this many steps to go: removed first, linked again second. */
  function LinkAfter(bootstrapped: bool, steps: nat, before: Link): Link {
    if !bootstrapped || steps == 0 then before else if steps == 1 then NoLink else Bootstrap
  }

  class HostState {
    var slots: seq<Slot>
    var journal: Journal
    var current: Link
    var clock: nat

    ghost const before: seq<Option<Tree>>   // what the targets held before the restore
    ghost const after: seq<Tree>            // what the archive holds for them

    constructor (targets: seq<Option<Tree>>, candidates: seq<Tree>, current: Link, clock: nat)
      requires |targets| == |candidates|
      requires forall i :: 0 <= i < |targets| ==> candidates[i].whole && (targets[i].Some? ==> targets[i].value.whole)
      ensures Staged() && this.before == targets && this.after == candidates && this.current == current
    {
      before, after := targets, candidates;
      slots := seq(|targets|, i requires 0 <= i < |targets| && i < |candidates| =>
                     Slot(targets[i], None, Some(candidates[i])));
      journal := NoJournal;
      this.current, this.clock := current, clock;
    }

    ghost predicate Sized()
      reads `slots
    {
      |slots| == |before| == |after|
    }

    /** Everything is extracted and verified, and no journal is written yet. */
    ghost predicate Staged()
      reads `slots, `journal
    {
      && Sized() && journal == NoJournal
      && (forall i :: 0 <= i < |slots| ==> slots[i] == Slot(before[i], None, Some(after[i])))
      && (forall i :: 0 <= i < |slots| ==> after[i].whole && (before[i].Some? ==> before[i].value.whole))
    }

    /** Every state the swap itself can leave behind. */
    ghost predicate MidSwap()
      reads `slots, `journal
    {
      && Sized() && journal == Swapping
      && forall i :: 0 <= i < |slots| ==>
           || NotBegun(slots[i], before[i], after[i])
           || SetAside(slots[i], before[i], after[i])
           || Replaced(slots[i], before[i], after[i])
    }

    /** What is left to go back by: a previous tree is the old content, and an unused candidate means an untouched target. */
    ghost predicate WayBack()
      reads `slots
    {
      && Sized()
      && forall i :: 0 <= i < |slots| ==>
           && (slots[i].previous.Some? ==> slots[i].previous == before[i])
           && (slots[i].previous.None? && slots[i].candidate.Some? ==> slots[i].target == before[i])
    }

    /** Each target that existed can still be told: its old tree is set aside, or its candidate is unused. */
    ghost predicate Traceable()
      requires Sized()
      reads `slots
    {
      forall i :: 0 <= i < |slots| && before[i].Some? ==> slots[i].previous.Some? || slots[i].candidate.Some?
    }

    ghost predicate AllBefore()
      requires Sized()
      reads `slots
    {
      forall i :: 0 <= i < |slots| ==> slots[i].target == before[i]
    }

    ghost predicate AllAfter()
      requires Sized()
      reads `slots
    {
      forall i :: 0 <= i < |slots| ==> slots[i].target == Some(after[i])
    }

    method Tick() returns (s: Status)
      modifies `clock
      ensures s.Crashed? <==> old(clock) == 0
      ensures clock == if s.Crashed? then 0 else old(clock) - 1
    {
      if clock == 0 {
        return Crashed;
      }
      clock := clock - 1;
      return Alive;
    }

    method RemoveTarget(i: nat) returns (s: Status)
      requires i < |slots|
      modifies `slots, `clock
      ensures |slots| == |old(slots)| && slots == old(slots)[i := old(slots[i]).(target := slots[i].target)]
      ensures s.Alive? ==> slots[i].target.None?
      ensures s.Crashed? ==> clock == 0
      ensures s.Alive? <==> old(clock) >= if old(slots[i]).target.Some? then 2 else 0
      ensures s.Alive? ==> clock == old(clock) - if old(slots[i]).target.Some? then 2 else 0
      ensures old(clock) == 0 ==> slots == old(slots)
    {
      if slots[i].target.Some? {
        :- Tick();
        slots := slots[i := slots[i].(target := Some(slots[i].target.value.(whole := false)))];
        :- Tick();
        slots := slots[i := slots[i].(target := None)];
      }
      return Alive;
    }

    /** Remove the staging directory, tree by tree. */
    method RemoveStaging() returns (s: Status)
      modifies `slots, `clock
      ensures |slots| == |old(slots)|
      ensures forall i :: 0 <= i < |slots| ==> slots[i] == old(slots[i]).(candidate := slots[i].candidate)
      ensures forall i :: 0 <= i < |slots| && old(slots[i]).candidate.None? ==> slots[i].candidate.None?
      ensures s.Alive? ==> forall i :: 0 <= i < |slots| ==> slots[i].candidate.None?
      ensures s.Crashed? ==> clock == 0
      ensures old(clock) == 0 ==> slots == old(slots) && clock == 0
      ensures old(clock) >= 2 * |slots| ==> s.Alive? && clock >= old(clock) - 2 * |slots|
    {
      for i := 0 to |slots|
        invariant |slots| == |old(slots)|
        invariant forall j :: 0 <= j < |slots| ==> slots[j] == old(slots[j]).(candidate := slots[j].candidate)
        invariant forall j :: 0 <= j < |slots| && old(slots[j]).candidate.None? ==> slots[j].candidate.None?
        invariant forall j :: 0 <= j < i ==> slots[j].candidate.None?
        invariant old(clock) == 0 ==> slots == old(slots) && clock == 0
        invariant clock >= old(clock) - 2 * i
      {
        if slots[i].candidate.Some? {
          :- Tick();
          slots := slots[i := slots[i].(candidate := Some(slots[i].candidate.value.(whole := false)))];
          :- Tick();
          slots := slots[i := slots[i].(candidate := None)];
        }
      }
      return Alive;
    }

    /** Remove the rollback directory, tree by tree. */
    method RemoveRollback() returns (s: Status)
      modifies `slots, `clock
      ensures |slots| == |old(slots)|
      ensures forall i :: 0 <= i < |slots| ==> slots[i] == old(slots[i]).(previous := slots[i].previous)
      ensures forall i :: 0 <= i < |slots| && old(slots[i]).previous.None? ==> slots[i].previous.None?
      ensures s.Alive? ==> forall i :: 0 <= i < |slots| ==> slots[i].previous.None?
      ensures s.Crashed? ==> clock == 0
      ensures old(clock) == 0 ==> slots == old(slots) && clock == 0
      ensures old(clock) >= 2 * |slots| ==> s.Alive? && clock >= old(clock) - 2 * |slots|
    {
      for i := 0 to |slots|
        invariant |slots| == |old(slots)|
        invariant forall j :: 0 <= j < |slots| ==> slots[j] == old(slots[j]).(previous := slots[j].previous)
        invariant forall j :: 0 <= j < |slots| && old(slots[j]).previous.None? ==> slots[j].previous.None?
        invariant forall j :: 0 <= j < i ==> slots[j].previous.None?
        invariant old(clock) == 0 ==> slots == old(slots) && clock == 0
        invariant clock >= old(clock) - 2 * i
      {
        if slots[i].previous.Some? {
          :- Tick();
          slots := slots[i := slots[i].(previous := Some(slots[i].previous.value.(whole := false)))];
          :- Tick();
          slots := slots[i := slots[i].(previous := None)];
        }
      }
      return Alive;
    }

    /** Put one target back, judging only by what is present. */
    method PutBack(i: nat) returns (s: Status)
      requires WayBack() && i < |slots|
      modifies `slots, `clock
      ensures WayBack() && |slots| == |old(slots)|
      ensures forall j :: 0 <= j < |slots| && j != i ==> slots[j] == old(slots[j])
      ensures slots[i].candidate == old(slots[i]).candidate
      ensures s.Alive? ==> slots[i] == Back(old(slots[i]), before[i])
      ensures s.Crashed? ==> clock == 0
      ensures s.Alive? <==> old(clock) >= PutBackSteps(old(slots[i]))
      ensures s.Alive? ==> clock == old(clock) - PutBackSteps(old(slots[i]))
      ensures old(clock) == 0 ==> slots == old(slots)
    {
      if slots[i].previous.Some? {
        :- RemoveTarget(i);
        :- Tick();
        slots := slots[i := slots[i].(target := slots[i].previous, previous := None)];
      } else if slots[i].candidate.None? {
        :- RemoveTarget(i);
      }
      return Alive;
    }

    /** Put every target back, last one first; cut off after exactly the steps from k on, those and no others are back. */
    method PutAllBack() returns (s: Status)
      requires WayBack()
      modifies `slots, `clock
      ensures WayBack()
      ensures s.Alive? ==> forall i :: 0 <= i < |slots| ==> slots[i] == Back(old(slots[i]), before[i])
      ensures s.Crashed? ==> clock == 0
      ensures s.Alive? <==> old(clock) >= StepsFrom(old(slots), 0)
      ensures s.Alive? ==> clock == old(clock) - StepsFrom(old(slots), 0)
      ensures forall k :: 0 <= k <= |slots| && old(clock) == StepsFrom(old(slots), k) ==> clock == 0 && BackFrom(old(slots), k)
    {
      for i := |slots| downto 0
        invariant WayBack() && |slots| == |old(slots)| && BackFrom(old(slots), i)
        invariant clock == old(clock) - StepsFrom(old(slots), i)
      {
        ghost var left := slots;
        s := PutBack(i);
        if s.Crashed? {
          StepsGrow(old(slots), 0, i);
          forall k | 0 <= k <= |slots| && old(clock) == StepsFrom(old(slots), k) ensures BackFrom(old(slots), k) {
            if k <= i {
              StepsGrow(old(slots), k, i);
            } else {
              StepsGrow(old(slots), i + 1, k);
              SameSteps(old(slots), i + 1, k);
              assert slots == left;
            }
          }
          return;
        }
      }
      forall k | 0 <= k <= |slots| && old(clock) == StepsFrom(old(slots), k) ensures clock == 0 && BackFrom(old(slots), k) {
        StepsGrow(old(slots), 0, k);
        SameSteps(old(slots), 0, k);
      }
      s := Alive;
    }

    /** The targets from k on are put back and the others are as they were. */
    ghost predicate BackFrom(was: seq<Slot>, k: nat)
      reads `slots
    {
      && Sized() && |was| == |slots| && k <= |slots|
      && (forall j :: 0 <= j < k ==> slots[j] == was[j])
      && (forall j :: k <= j < |slots| ==> slots[j] == Back(was[j], before[j]))
    }

    /**
     Recovery. While the journal says swapping, a recovery that finishes gives every target its old
     content, absence included, exactly when every target that existed is still traceable; that is so
     wherever the swap itself was cut off. Once the journal says committed, every target stays new
     however often recovery is cut off. Seven steps a target and one more are enough.
     */
    method Recover() returns (s: Status)
      requires Sized()
      requires journal == Swapping ==> WayBack()
      requires journal == Committed ==> AllAfter()
      modifies `slots, `journal, `clock
      ensures Sized()
      ensures s.Alive? ==> journal == NoJournal
      ensures old(journal) == NoJournal ==> s.Alive? && slots == old(slots)
      ensures old(journal) == Swapping && s.Crashed? ==> journal == Swapping && WayBack()
      ensures old(journal) == Swapping && s.Alive? ==> (AllBefore() <==> old(Traceable()))
      ensures old(journal) == Swapping && s.Alive? ==>
                forall i :: 0 <= i < |slots| ==> slots[i].target == Back(old(slots[i]), before[i]).target
      ensures old(journal) == Committed ==> AllAfter() && journal in {Committed, NoJournal}
      ensures s.Alive? && old(journal) != NoJournal ==>
                forall i :: 0 <= i < |slots| ==> slots[i].candidate.None? && slots[i].previous.None?
      ensures s.Crashed? ==> clock == 0
      ensures s.Crashed? ==> journal == old(journal)
      ensures old(clock) > 7 * |slots| ==> s.Alive?
      ensures old(journal) == Committed && old(clock) > 4 * |slots| ==> s.Alive?
      ensures old(journal) == Swapping ==>
                forall k :: 0 <= k <= |slots| && old(clock) == StepsFrom(old(slots), k) ==> s.Crashed? && BackFrom(old(slots), k)
    {
      if journal == NoJournal {
        return Alive;
      }
      if journal == Swapping {
        :- PutAllBack();
      }
      :- RemoveStaging();
      :- RemoveRollback();
      :- Tick();
      journal := NoJournal;
      return Alive;
    }

    /** Swap one target: the old tree aside if there is one, the candidate into place. */
    method Swap(i: nat) returns (s: Status)
      requires MidSwap() && i < |slots| && NotBegun(slots[i], before[i], after[i])
      modifies `slots, `clock
      ensures MidSwap() && |slots| == |old(slots)|
      ensures forall j :: 0 <= j < |slots| && j != i ==> slots[j] == old(slots[j])
      ensures s.Alive? ==> Replaced(slots[i], before[i], after[i])
      ensures s.Crashed? ==> clock == 0
      ensures s.Alive? <==> old(clock) >= if before[i].Some? then 2 else 1
      ensures s.Alive? ==> clock == old(clock) - if before[i].Some? then 2 else 1
    {
      if slots[i].target.Some? {
        :- Tick();
        slots := slots[i := slots[i].(target := None, previous := slots[i].target)];
      }
      :- Tick();
      slots := slots[i := slots[i].(target := slots[i].candidate, candidate := None)];
      return Alive;
    }

    /** Reset the ingress symlink; bootstrapped says whether there is a bootstrap generation to point to. */
    method DeactivateIngress(bootstrapped: bool) returns (s: Status, ok: bool)
      modifies `current, `clock
      ensures s.Alive? && ok ==> current == Bootstrap
      ensures s.Alive? && !ok ==> current == old(current)
      ensures current == LinkAfter(bootstrapped, old(clock), old(current))
      ensures s.Alive? ==> (ok <==> bootstrapped)
      ensures s.Crashed? ==> clock == 0
      ensures s.Alive? <==> !bootstrapped || old(clock) >= 2
      ensures s.Alive? ==> clock == old(clock) - if bootstrapped then 2 else 0
    {
      ok := false;
      if !bootstrapped {
        return Alive, false;
      }
      :- Tick();
      current := NoLink;
      :- Tick();
      current := Bootstrap;
      return Alive, true;
    }

    /**
     The restore from verified staging on. recovering says that its own recovery has begun. Cut off anywhere
     before that every target is traceable; without a bootstrap generation it recovers before it answers.
     */
    method Restore(bootstrapped: bool) returns (s: Status, ok: bool, ghost recovering: bool)
      requires Staged()
      modifies `slots, `journal, `current, `clock
      ensures Sized()
      ensures s.Crashed? && journal == NoJournal ==> old(clock) == 0 && slots == old(slots) && AllBefore()
      ensures s.Crashed? && journal == Swapping ==> WayBack()
      ensures s.Crashed? && journal == Swapping && !recovering ==> MidSwap() && Traceable()
      ensures bootstrapped && journal == Swapping ==> !recovering
      ensures recovering && journal == Swapping ==> SwapSteps(before) < old(clock)
      ensures s.Crashed? && journal == Committed ==> AllAfter() && current == Bootstrap
      // the link is reset by the two steps after the journal and the swap, and by nothing else
      ensures current == LinkAfter(bootstrapped, StepsLeft(old(clock), before), old(current))
      ensures s.Alive? ==> journal == NoJournal && if ok then AllAfter() && current == Bootstrap else AllBefore()
      ensures s.Alive? ==> (ok <==> bootstrapped)
      ensures s.Crashed? ==> clock == 0
      // with steps for the journal and the swap and no more, everything is replaced and nothing committed
      ensures bootstrapped && old(clock) == 1 + SwapSteps(before) ==>
                s.Crashed? && journal == Swapping && forall i :: 0 <= i < |slots| ==> Replaced(slots[i], before[i], after[i])
    {
      ok, recovering := false, false;
      :- Tick();
      journal := Swapping;
      :- SwapAll();
      var deactivated :- DeactivateIngress(bootstrapped);
      if !deactivated {
        recovering := true;
        s := Recover();
        return s, false, true;
      }
      :- Tick();
      journal, recovering := Committed, true;
      s := Recover();
      return s, true, true;
    }

    /** Swap every target in order. */
    method SwapAll() returns (s: Status)
      requires MidSwap() && forall i :: 0 <= i < |slots| ==> NotBegun(slots[i], before[i], after[i])
      modifies `slots, `clock
      ensures MidSwap() && Traceable()
      ensures s.Alive? ==> forall i :: 0 <= i < |slots| ==> Replaced(slots[i], before[i], after[i])
      ensures s.Crashed? ==> clock == 0
      ensures s.Alive? <==> old(clock) >= SwapSteps(before)
      ensures s.Alive? ==> clock == old(clock) - SwapSteps(before)
    {
      for i := 0 to |slots|
        invariant MidSwap()
        invariant forall j :: 0 <= j < i ==> Replaced(slots[j], before[j], after[j])
        invariant forall j :: i <= j < |slots| ==> NotBegun(slots[j], before[j], after[j])
        invariant clock == old(clock) - SwapSteps(before[..i])
      {
        SwapStepsGrow(before, i);
        :- Swap(i);
      }
      assert before[..|slots|] == before;
      return Alive;
    }
  }

  /**
   Any number of later starts after a commit, each cut off or not, keep every target new; a start with more
   than four steps a target finishes.
   */
  method RestartsAfterCommit(h: HostState, clocks: seq<nat>) returns (finished: bool)
    requires h.Sized() && h.journal == Committed && h.AllAfter()
    modifies h
    ensures h.Sized() && h.AllAfter()
    ensures finished ==> h.journal == NoJournal
    ensures clocks != [] ==> finished || h.clock == 0
    ensures (exists k :: 0 <= k < |clocks| && clocks[k] > 4 * |h.slots|) ==> finished
  {
    finished := false;
    for k := 0 to |clocks|
      invariant h.Sized() && h.AllAfter() && h.journal in {Committed, NoJournal}
      invariant finished <==> h.journal == NoJournal
      invariant k > 0 ==> finished || h.clock == 0
      invariant (exists j :: 0 <= j < k && clocks[j] > 4 * |h.slots|) ==> finished
    {
      h.clock := clocks[k];
      var s := h.Recover();
      finished := s.Alive?;
    }
  }

  /**
   A restore cut off anywhere, followed by one recovery that is not: unless the restore's own recovery had
   begun, every target is as before, absence included, while the journal said swapping, and new once it said
   committed. If it had begun, every target is as before exactly when all were still traceable. A recovery
   with more than seven steps a target is not cut off.
   */
  method OneUncutRecovery(h: HostState, bootstrapped: bool, clock: nat)
    returns (cut: bool, journal: Journal, settled: bool, ghost recovering: bool, ghost traceable: bool)
    requires h.Staged()
    modifies h
    ensures h.Sized() && (settled || h.clock == 0) && (clock > 7 * |h.slots| ==> settled)
    ensures settled ==> h.journal == NoJournal
    ensures settled && cut && journal == Swapping ==> (h.AllBefore() <==> traceable)
    ensures settled && cut && journal == Swapping && !recovering ==> h.AllBefore()
    ensures settled && cut && journal == Committed ==> h.AllAfter() && h.current == Bootstrap
    ensures h.current == LinkAfter(bootstrapped, StepsLeft(old(h.clock), h.before), old(h.current))
    // the old targets come with the old link unless the cut fell within or after the reset
    ensures old(h.current).Generation? ==>
              (h.current == old(h.current) <==> !bootstrapped || old(h.clock) <= 1 + SwapSteps(h.before))
    ensures settled && !(cut && recovering && journal == Swapping) ==> h.AllBefore() || h.AllAfter()
    ensures cut && recovering && journal == Swapping ==> !bootstrapped && SwapSteps(h.before) < old(h.clock)
  {
    var first, ok, begun := h.Restore(bootstrapped);
    recovering, traceable := begun, h.Traceable();
    cut, journal := first.Crashed?, h.journal;
    h.clock := clock;
    var second := h.Recover();
    settled := second.Alive?;
  }

  /**
   A recovery in phase swapping must run to its end. Take any target k that existed: cut the restore off before its
   commit and its recovery just after that target was put back; the next recovery finds neither the previous
   tree nor the candidate and removes the target.
   */
  method SecondRecoveryLosesTarget(h: HostState, k: nat)
    requires h.Staged() && k < |h.slots| && h.before[k].Some?
    modifies h
    ensures h.Sized() && k < |h.slots| && h.journal == NoJournal && h.slots[k].target.None? && !h.AllBefore()
  {
    var targets := seq(|h.slots|, i requires 0 <= i < |h.slots| reads h => h.slots[i].target);
    assert targets == h.before;
    h.clock := 1 + SwapSteps(targets);
    var first, ok, begun := h.Restore(true);
    assert Replaced(h.slots[k], h.before[k], h.after[k]);
    h.clock := StepsFrom(h.slots, k);
    var second := h.Recover();
    assert h.slots[k] == Slot(h.before[k], None, None);
    h.clock := 7 * |h.slots| + 1;
    var third := h.Recover();
  }

  /**
   A restore cut off between the two steps of the link's reset and then recovered: every target is as before, and
   the link is gone.
   */
  method LinkLost(h: HostState)
    requires h.Staged()
    modifies h
    ensures h.Sized() && h.journal == NoJournal && h.AllBefore() && h.current == NoLink
  {
    var targets := seq(|h.slots|, i requires 0 <= i < |h.slots| reads h => h.slots[i].target);
    assert targets == h.before;
    h.clock := 2 + SwapSteps(targets);
    var first, ok, begun := h.Restore(true);
    h.clock := 7 * |h.slots| + 1;
    var second := h.Recover();
  }
}
