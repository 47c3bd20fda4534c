/**
 What an application restore works on: the storage slots' paths on disk, the restore journal, the
 installed secrets and the application's containers. Every durable step first consumes one unit of
 clock; at zero the process stops there. Contracts hold for every clock value, so for a stop between
 any two steps. Calls into the container runtime and the database take their outcome from a list the
 caller does not control.
 */
module RestoreHost {
  import opened Options
  import opened Outcomes

  /** A directory tree: its identity (device and inode of its root), and whether removal has begun on it. */
  datatype Tree = Tree(id: nat, whole: bool)

  /** One included storage slot: the four paths used for it, and the identities its journal row records. */
  datatype Slot = Slot(
    original: Option<Tree>, staged: Option<Tree>, rollback: Option<Tree>, failed: Option<Tree>,
    originalId: nat, stagedId: nat)

  datatype Phase =
    | NoJournal | Staged | Swapping | RuntimePending | Committed | CleanupPending | Completed | RolledBack
    | ActionRequired

  /** Observations for the runtime-safety claims; recorded is the durable running intent at that moment. */
  datatype Event =
    | Stopped(component: string, recorded: set<string>)
    | Started(component: string, recorded: set<string>)
    | ActiveRenamed(running: set<string>)

  // ----- shapes of one slot ---------------------------------------------------------------

  predicate WholeOriginal(sl: Slot, path: Option<Tree>) { path == Some(Tree(sl.originalId, true)) }

  predicate WholeRestored(sl: Slot, path: Option<Tree>) { path == Some(Tree(sl.stagedId, true)) }

  predicate AbsentOr(path: Option<Tree>, id: nat) { path.None? || path.value.id == id }

  /** The original is in place; what is left of the staged tree may be damaged. */
  predicate Untouched(sl: Slot) {
    WholeOriginal(sl, sl.original) && sl.rollback.None? && AbsentOr(sl.staged, sl.stagedId)
  }

  predicate Pristine(sl: Slot) {
    Untouched(sl) && WholeRestored(sl, sl.staged) && sl.failed.None?
  }

  /** Between two renames: nothing is active, the original waits at the rollback path. */
  predicate Emptied(sl: Slot) {
    sl.original.None? && WholeOriginal(sl, sl.rollback) && AbsentOr(sl.staged, sl.stagedId)
  }

  predicate Swapped(sl: Slot) {
    WholeRestored(sl, sl.original) && WholeOriginal(sl, sl.rollback) && sl.staged.None? && sl.failed.None?
  }

  /** The restored tree is in place for good; what is left of the original may be damaged. */
  predicate Cleaned(sl: Slot) {
    WholeRestored(sl, sl.original) && sl.staged.None? && AbsentOr(sl.rollback, sl.originalId)
  }

  /** Before a commit: the original is whole at its own or the rollback path, and no damaged tree is active. */
  predicate Safe(sl: Slot) {
    sl.originalId != sl.stagedId && (Untouched(sl) || Emptied(sl) || Swapped(sl))
  }

  ghost predicate AllUntouched(slots: seq<Slot>) { forall i :: 0 <= i < |slots| ==> Untouched(slots[i]) }

  ghost predicate AllSafe(slots: seq<Slot>) { forall i :: 0 <= i < |slots| ==> Safe(slots[i]) }

  ghost predicate AllCleaned(slots: seq<Slot>) {
    forall i :: 0 <= i < |slots| ==> Cleaned(slots[i]) && slots[i].originalId != slots[i].stagedId
  }

  ghost predicate AllForward(slots: seq<Slot>) {
    forall i :: 0 <= i < |slots| ==> WholeRestored(slots[i], slots[i].original)
  }

  ghost predicate NoStaged(slots: seq<Slot>) { forall i :: 0 <= i < |slots| ==> slots[i].staged.None? }

  ghost predicate NoRollback(slots: seq<Slot>) { forall i :: 0 <= i < |slots| ==> slots[i].rollback.None? }

  // ----- the event log ----------------------------------------------------------------------

  /** Components are stopped only once their running intent is durable, and started only on it. */
  ghost predicate IntentFirst(log: seq<Event>) {
    forall i :: 0 <= i < |log| ==>
      (log[i].Stopped? ==> log[i].component in log[i].recorded) && (log[i].Started? ==> log[i].component in log[i].recorded)
  }

  /** No active storage path is renamed while any component runs. */
  ghost predicate QuietRenames(log: seq<Event>) {
    forall i :: 0 <= i < |log| ==> log[i].ActiveRenamed? ==> log[i].running == {}
  }

  /** How often the components of a set occur in the start order from k on. */
  function Listed(order: seq<string>, k: nat, intent: set<string>): nat
    requires k <= |order|
    decreases |order| - k
  {
    if k == |order| then 0 else Listed(order, k + 1, intent) + if order[k] in intent then 1 else 0
  }

  lemma {:induction false} FailsEarly(order: seq<string>, k: nat, intent: set<string>, outcomes: seq<bool>)
    requires k <= |order| && !NoFailure(outcomes, 2 * Listed(order, k, intent))
    ensures !NoFailure(outcomes, 2 * Listed(order, 0, intent))
    decreases k
  {
    if k > 0 { FailsEarly(order, k - 1, intent, outcomes); }
  }

  /** What a sweep leaves running, and the outcomes after it. */
  datatype Sweeping = Sweeping(left: set<string>, outcomes: seq<bool>)

  /** A sweep that ignores failures: a stop takes effect if the first of its two outcomes is good. */
  function Swept(order: seq<string>, running: set<string>, outcomes: seq<bool>): Sweeping {
    if order == [] then Sweeping(running, outcomes)
    else
      var n, c := |order| - 1, order[|order| - 1];
      if c !in running then Swept(order[..n], running, outcomes)
      else Swept(order[..n], if Succeeds(outcomes) then running - {c} else running, Rest(outcomes, 2))
  }

  lemma {:induction false} NothingSwept(order: seq<string>, outcomes: seq<bool>)
    ensures Swept(order, {}, outcomes) == Sweeping({}, outcomes)
  {
    if order != [] { NothingSwept(order[..|order| - 1], outcomes); }
  }

  lemma {:induction false} SweptIsLess(order: seq<string>, running: set<string>, outcomes: seq<bool>)
    ensures Swept(order, running, outcomes).left <= running
    decreases |order|
  {
    if order != [] {
      var n, c := |order| - 1, order[|order| - 1];
      if c in running {
        SweptIsLess(order[..n], if Succeeds(outcomes) then running - {c} else running, Rest(outcomes, 2));
      } else {
        SweptIsLess(order[..n], running, outcomes);
      }
    }
  }

  datatype Resumption = Resumption(running: set<string>, outcomes: seq<bool>, ok: bool)

  /** What resuming does: a start takes effect by its first outcome, and a failure reported by either ends it. */
  function Resumed(order: seq<string>, intent: set<string>, running: set<string>, outcomes: seq<bool>): Resumption {
    if order == [] then Resumption(running, outcomes, true)
    else if order[0] !in intent then Resumed(order[1..], intent, running, outcomes)
    else
      var now := if Succeeds(outcomes) then running + {order[0]} else running;
      if NoFailure(outcomes, 2) then Resumed(order[1..], intent, now, Rest(outcomes, 2))
      else Resumption(now, Rest(outcomes, 2), false)
  }

  /** What stopping in reverse order leaves running, up to and including the first stop that fails. */
  datatype Stopping = Stopping(left: set<string>, outcomes: seq<bool>, ok: bool)

  /** The stops of the components before position k: each takes effect by its first outcome, and a failure reported by either ends them. */
  function Halted(order: seq<string>, k: nat, intent: set<string>, running: set<string>, outcomes: seq<bool>): Stopping
    requires k <= |order|
  {
    if k == 0 then Stopping(running, outcomes, true)
    else if order[k - 1] !in intent then Halted(order, k - 1, intent, running, outcomes)
    else
      var now := if Succeeds(outcomes) then running - {order[k - 1]} else running;
      if NoFailure(outcomes, 2) then Halted(order, k - 1, intent, now, Rest(outcomes, 2))
      else Stopping(now, Rest(outcomes, 2), false)
  }

  lemma HaltedStep(order: seq<string>, k: nat, intent: set<string>, running: set<string>, outcomes: seq<bool>)
    requires k < |order|
    ensures Halted(order, k + 1, intent, running, outcomes)
         == if order[k] !in intent then Halted(order, k, intent, running, outcomes)
            else
              var now := if Succeeds(outcomes) then running - {order[k]} else running;
              if NoFailure(outcomes, 2) then Halted(order, k, intent, now, Rest(outcomes, 2))
              else Stopping(now, Rest(outcomes, 2), false)
    ensures Halted(order, 0, intent, running, outcomes) == Stopping(running, outcomes, true)
  {
  }

  lemma {:induction false} ListedFalls(order: seq<string>, j: nat, k: nat, intent: set<string>)
    requires j <= k <= |order|
    ensures Listed(order, j, intent) >= Listed(order, k, intent)
    decreases k - j
  {
    if j < k { ListedFalls(order, j + 1, k, intent); }
  }

  /** The stop of c is reached from position k down: no call up to and including it fails. */
  ghost predicate Down(order: seq<string>, k: nat, intent: set<string>, outcomes: seq<bool>, c: string)
    requires k <= |order|
  {
    exists j :: 0 <= j < k && order[j] == c && c in intent && Due(order, j, k, intent, outcomes)
  }

  ghost predicate Due(order: seq<string>, j: nat, k: nat, intent: set<string>, outcomes: seq<bool>)
    requires j < k <= |order|
  {
    ListedFalls(order, j + 1, k, intent);
    NoFailure(outcomes, 2 * (Listed(order, j + 1, intent) - Listed(order, k, intent)) + 1)
  }

  lemma DownStep(order: seq<string>, k: nat, intent: set<string>, outcomes: seq<bool>, c: string)
    requires k < |order|
    ensures order[k] !in intent ==> (Down(order, k + 1, intent, outcomes, c) <==> Down(order, k, intent, outcomes, c))
    ensures order[k] in intent ==>
              (Down(order, k + 1, intent, outcomes, c) <==>
               (c == order[k] && Succeeds(outcomes)) || (NoFailure(outcomes, 2) && Down(order, k, intent, Rest(outcomes, 2), c)))
  {
    hide NoFailure, Rest, Succeeds;
    ListedStep(order, k, intent);
    forall j | 0 <= j < k
      ensures order[k] !in intent ==> (Due(order, j, k + 1, intent, outcomes) <==> Due(order, j, k, intent, outcomes))
      ensures order[k] in intent ==>
                (Due(order, j, k + 1, intent, outcomes) <==> NoFailure(outcomes, 2) && Due(order, j, k, intent, Rest(outcomes, 2)))
    {
      ListedFalls(order, j + 1, k, intent);
      More(outcomes, 2, 2 * (Listed(order, j + 1, intent) - Listed(order, k, intent)) + 1);
    }
    FirstCall(outcomes);
    assert Due(order, k, k + 1, intent, outcomes) <==> NoFailure(outcomes, 1);
    if Down(order, k + 1, intent, outcomes, c) {
      var j :| 0 <= j < k + 1 && order[j] == c && c in intent && Due(order, j, k + 1, intent, outcomes);
      if j < k && order[k] in intent { assert Due(order, j, k, intent, Rest(outcomes, 2)); }
      if j < k && order[k] !in intent { assert Due(order, j, k, intent, outcomes); }
    }
    var later := if order[k] in intent then Rest(outcomes, 2) else outcomes;
    if Down(order, k, intent, later, c) && (order[k] in intent ==> NoFailure(outcomes, 2)) {
      var j :| 0 <= j < k && order[j] == c && c in intent && Due(order, j, k, intent, later);
      assert Due(order, j, k + 1, intent, outcomes);
    }
  }

  lemma FirstCall(outcomes: seq<bool>)
    ensures NoFailure(outcomes, 1) <==> Succeeds(outcomes)
  {
  }

  lemma HaltedStart(order: seq<string>, intent: set<string>, running: set<string>, outcomes: seq<bool>)
    ensures Halted(order, 0, intent, running, outcomes) == Stopping(running, outcomes, true)
  {
  }

  /** After stopping, a component still runs exactly if it ran and its stop was not reached. */
  lemma {:induction false} HaltedExactly(order: seq<string>, k: nat, intent: set<string>, running: set<string>, outcomes: seq<bool>, c: string)
    requires k <= |order|
    ensures c in Halted(order, k, intent, running, outcomes).left <==> c in running && !Down(order, k, intent, outcomes, c)
  {
    if k > 0 {
      DownStep(order, k - 1, intent, outcomes, c);
      hide Down, NoFailure, Rest, Succeeds;
      if order[k - 1] !in intent {
        HaltedExactly(order, k - 1, intent, running, outcomes, c);
      } else {
        var now := if Succeeds(outcomes) then running - {order[k - 1]} else running;
        HaltedExactly(order, k - 1, intent, now, Rest(outcomes, 2), c);
      }
    }
  }

  /** How many of the first j starts in order are due. */
  function Starts(order: seq<string>, intent: set<string>, j: nat): nat
    requires j <= |order|
  {
    if j == 0 then 0 else (if order[0] in intent then 1 else 0) + Starts(order[1..], intent, j - 1)
  }

  /** No call up to and including the start of c itself fails; its report comes after. */
  ghost predicate Reached(order: seq<string>, intent: set<string>, outcomes: seq<bool>, c: string) {
    exists j :: 0 <= j < |order| && order[j] == c && c in intent && NoFailure(outcomes, 2 * Starts(order, intent, j) + 1)
  }

  lemma ReachedTail(order: seq<string>, intent: set<string>, outcomes: seq<bool>, c: string)
    requires order != []
    ensures order[0] !in intent ==> (Reached(order, intent, outcomes, c) <==> Reached(order[1..], intent, outcomes, c))
    ensures order[0] in intent ==>
              (Reached(order, intent, outcomes, c) <==>
               (c == order[0] && Succeeds(outcomes)) || (NoFailure(outcomes, 2) && Reached(order[1..], intent, Rest(outcomes, 2), c)))
  {
    var tail, due := order[1..], if order[0] in intent then 1 else 0;
    forall j | 0 <= j < |tail|
      ensures Starts(order, intent, j + 1) == due + Starts(tail, intent, j) && order[j + 1] == tail[j]
      ensures due == 1 ==> (NoFailure(outcomes, 2 * Starts(order, intent, j + 1) + 1) <==>
                            NoFailure(outcomes, 2) && NoFailure(Rest(outcomes, 2), 2 * Starts(tail, intent, j) + 1))
    {
      More(outcomes, 2, 2 * Starts(tail, intent, j) + 1);
    }
    assert NoFailure(outcomes, 1) <==> Succeeds(outcomes);
    assert Starts(order, intent, 0) == 0;
    if Reached(order, intent, outcomes, c) {
      var j :| 0 <= j < |order| && order[j] == c && c in intent && NoFailure(outcomes, 2 * Starts(order, intent, j) + 1);
      if j > 0 { assert tail[j - 1] == c; }
    }
    if Reached(tail, intent, if due == 1 then Rest(outcomes, 2) else outcomes, c) {
      var k :| 0 <= k < |tail| && tail[k] == c && c in intent
        && NoFailure(if due == 1 then Rest(outcomes, 2) else outcomes, 2 * Starts(tail, intent, k) + 1);
      assert order[k + 1] == c;
    }
  }

  /** Without a failure among the due starts, resuming succeeds. */
  lemma {:induction false} ResumedOk(order: seq<string>, intent: set<string>, running: set<string>, outcomes: seq<bool>)
    requires NoFailure(outcomes, 2 * Starts(order, intent, |order|))
    ensures Resumed(order, intent, running, outcomes).ok
    decreases |order|
  {
    if order != [] {
      var now := if order[0] in intent && Succeeds(outcomes) then running + {order[0]} else running;
      if order[0] in intent {
        More(outcomes, 2, 2 * Starts(order[1..], intent, |order| - 1));
        ResumedOk(order[1..], intent, now, Rest(outcomes, 2));
      } else {
        ResumedOk(order[1..], intent, running, outcomes);
      }
    }
  }

  /** After resuming a component runs exactly if it ran before or its start was reached. */
  lemma {:induction false} ResumedExactly(order: seq<string>, intent: set<string>, running: set<string>, outcomes: seq<bool>, c: string)
    ensures c in Resumed(order, intent, running, outcomes).running <==> c in running || Reached(order, intent, outcomes, c)
    decreases |order|
  {
    if order != [] {
      ReachedTail(order, intent, outcomes, c);
      hide Reached, Starts, NoFailure, Rest, Succeeds;
      if order[0] !in intent {
        ResumedExactly(order[1..], intent, running, outcomes, c);
      } else {
        var now := if Succeeds(outcomes) then running + {order[0]} else running;
        ResumedExactly(order[1..], intent, now, Rest(outcomes, 2), c);
      }
    }
  }

  // ----- start order --------------------------------------------------------------------------

  /** Each component appears once, after everything it depends on. */
  ghost predicate DependencyFirst(order: seq<string>, dependsOn: map<string, set<string>>) {
    && (forall i, j :: 0 <= i < j < |order| ==> order[i] != order[j])
    && (forall i :: 0 <= i < |order| && order[i] in dependsOn ==> forall d :: d in dependsOn[order[i]] ==> d in order[..i])
  }

  ghost predicate AllListed(components: set<string>, order: seq<string>) { forall c :: c in components ==> c in order }

  /** Every running component's dependencies run too. */
  ghost predicate Closed(running: set<string>, dependsOn: map<string, set<string>>) {
    forall c :: c in running && c in dependsOn ==> dependsOn[c] <= running
  }

  lemma StopListed(order: seq<string>, running: set<string>, k: nat)
    requires k < |order| && AllListed(running, order[..k + 1])
    ensures AllListed(running - {order[k]}, order[..k])
  {
    assert order[..k + 1] == order[..k] + [order[k]];
  }

  lemma NoneListed(running: set<string>, order: seq<string>)
    requires AllListed(running, order[..0])
    ensures running == {}
  {
  }

  /** Stopping the last of the running components in start order leaves no dependency unmet. */
  lemma StopKeepsClosed(order: seq<string>, dependsOn: map<string, set<string>>, running: set<string>, k: nat)
    requires k < |order| && DependencyFirst(order, dependsOn) && Closed(running, dependsOn)
    requires AllListed(running, order[..k + 1])
    ensures Closed(running - {order[k]}, dependsOn)
  {
    var left := running - {order[k]};
    forall c | c in left && c in dependsOn ensures dependsOn[c] <= left {
      var i :| 0 <= i < k + 1 && order[i] == c;
      forall d | d in dependsOn[c] ensures d in left {
        assert d in order[..i];
        var j :| 0 <= j < i && order[j] == d;
      }
    }
  }

  /** Starting a component after everything recorded before it leaves no dependency unmet. */
  lemma StartKeepsClosed(order: seq<string>, dependsOn: map<string, set<string>>, intent: set<string>, running: set<string>, k: nat)
    requires k < |order| && DependencyFirst(order, dependsOn) && Closed(intent, dependsOn) && Closed(running, dependsOn)
    requires order[k] in intent && forall i :: 0 <= i < k && order[i] in intent ==> order[i] in running
    ensures Closed(running + {order[k]}, dependsOn)
  {
    var c := order[k];
    if c in dependsOn {
      forall d | d in dependsOn[c] ensures d in running {
        assert d in order[..k];
        var j :| 0 <= j < k && order[j] == d;
      }
    }
  }

  lemma SweptStep(order: seq<string>, k: nat, running: set<string>, outcomes: seq<bool>)
    requires k < |order|
    ensures Swept(order[..k + 1], running, outcomes)
         == if order[k] !in running then Swept(order[..k], running, outcomes)
            else Swept(order[..k], if Succeeds(outcomes) then running - {order[k]} else running, Rest(outcomes, 2))
  {
    assert order[..k + 1][..k] == order[..k];
  }

  lemma ResumedStep(order: seq<string>, k: nat, intent: set<string>, running: set<string>, outcomes: seq<bool>)
    requires k < |order|
    ensures Resumed(order[k..], intent, running, outcomes)
         == if order[k] !in intent then Resumed(order[k + 1..], intent, running, outcomes)
            else
              var now := if Succeeds(outcomes) then running + {order[k]} else running;
              if NoFailure(outcomes, 2) then Resumed(order[k + 1..], intent, now, Rest(outcomes, 2))
              else Resumption(now, Rest(outcomes, 2), false)
  {
    assert order[k..][1..] == order[k + 1..];
  }

  lemma ResumedAll(order: seq<string>, intent: set<string>, running: set<string>, outcomes: seq<bool>)
    ensures Resumed(order[|order|..], intent, running, outcomes) == Resumption(running, outcomes, true)
    ensures Resumed(order[0..], intent, running, outcomes) == Resumed(order, intent, running, outcomes)
  {
    assert order[0..] == order;
  }

  lemma SweptAll(order: seq<string>, running: set<string>, outcomes: seq<bool>)
    ensures Swept(order[..0], running, outcomes) == Sweeping(running, outcomes)
    ensures Swept(order[..|order|], running, outcomes) == Swept(order, running, outcomes)
  {
    assert order[..|order|] == order;
  }

  lemma NothingListed(order: seq<string>, intent: set<string>, outcomes: seq<bool>)
    ensures Listed(order, |order|, intent) == 0 && NoFailure(outcomes, 0) && Rest(outcomes, 0) == outcomes
  {
  }

  lemma ListedStep(order: seq<string>, k: nat, intent: set<string>)
    requires k < |order|
    ensures Listed(order, k, intent) == Listed(order, k + 1, intent) + if order[k] in intent then 1 else 0
    ensures Listed(order, |order|, intent) == 0
  {
  }

  class Host {
    const startOrder: seq<string>
    const dependsOn: map<string, set<string>>
    const originalSecrets: nat
    const restoredSecrets: nat
    ghost const initial: set<string>   // the components that ran before the restore

    var slots: seq<Slot>
    var phase: Phase
    var secrets: nat
    var recorded: set<string>          // the journal's running intent
    var running: set<string>
    var clock: nat
    var outcomes: seq<bool>
    var reported: Option<bool>         // what recovery has completed the operation with: restored, or rolled back

    ghost var committed: bool          // a commit has been recorded at some time
    ghost var log: seq<Event>
    ghost var sweepLeft: set<string>   // what the stop sweep of an in-process rollback left running

    constructor (slots: seq<Slot>, running: set<string>, startOrder: seq<string>,
                 dependsOn: map<string, set<string>>, originalSecrets: nat, restoredSecrets: nat,
                 clock: nat, outcomes: seq<bool>)
      requires forall i :: 0 <= i < |slots| ==> Pristine(slots[i]) && slots[i].originalId != slots[i].stagedId
      requires AllListed(running, startOrder)
      ensures Fresh() && this.slots == slots && this.running == running && this.startOrder == startOrder
      ensures this.dependsOn == dependsOn && this.clock == clock && this.outcomes == outcomes
    {
      this.slots, this.running, this.startOrder, this.dependsOn := slots, running, startOrder, dependsOn;
      this.originalSecrets, this.restoredSecrets := originalSecrets, restoredSecrets;
      this.clock, this.outcomes, reported := clock, outcomes, None;
      initial := running;
      phase, secrets, recorded := NoJournal, originalSecrets, {};
      committed, log, sweepLeft := false, [], {};
    }

    /** All staged trees are ready and nothing has been done yet. */
    ghost predicate Fresh()
      reads this
    {
      && (forall i :: 0 <= i < |slots| ==> Pristine(slots[i]) && slots[i].originalId != slots[i].stagedId)
      && phase == NoJournal && secrets == originalSecrets && recorded == {} && running == initial
      && AllListed(initial, startOrder)
      && !committed && log == [] && sweepLeft == {} && reported == None
    }

    /** What holds at every moment of a restore and of any number of recoveries, interrupted or not. */
    ghost predicate Consistent()
      reads `slots, `phase, `secrets, `recorded, `running, `committed, `log, `sweepLeft
    {
      StorageOk() && PhaseOk() && RuntimeOk() && QuietOk()
    }

    ghost predicate StorageOk()
      reads `slots, `committed, `secrets
    {
      && (!committed ==> AllSafe(slots))
      && (committed ==> AllCleaned(slots) && (|slots| > 0 ==> secrets == restoredSecrets))
    }

    ghost predicate PhaseOk()
      reads `slots, `phase, `secrets, `recorded, `running, `committed
    {
      match phase
      case NoJournal => BeforeIntent()
      case Staged => BeforeIntent()
      case Swapping => !committed && recorded == initial
      case RuntimePending => recorded == initial
      case Committed => committed && recorded == initial
      case CleanupPending => committed && recorded == initial && secrets == restoredSecrets
      case Completed => committed && recorded == initial && secrets == restoredSecrets
      case RolledBack => AllUntouched(slots) && secrets == originalSecrets && (committed ==> |slots| == 0)
      case ActionRequired => recorded == initial || BeforeIntent()
    }

    /** No component has been stopped and no path moved. */
    ghost predicate BeforeIntent()
      reads `slots, `secrets, `recorded, `running, `committed
    {
      !committed && AllUntouched(slots) && secrets == originalSecrets && recorded == {} && running == initial
    }

    /**
     Something runs only when the slots are all original or all restored, unless a stop sweep failed; and
     after a commit everything that ran before runs again.
     */
    ghost predicate QuietOk()
      reads `slots, `running, `sweepLeft, `committed
    {
      && (running == {} || sweepLeft != {} || AllUntouched(slots) || AllForward(slots))
      && (committed ==> running == initial)
    }

    ghost predicate RuntimeOk()
      reads `running, `log, `sweepLeft
    {
      && running <= initial && AllListed(initial, startOrder)
      && IntentFirst(log) && (sweepLeft == {} ==> QuietRenames(log))
    }

    // ----- steps ------------------------------------------------------------------------------

    /** Nothing stops the process but an exhausted clock. */
    method Tick() returns (s: Status)
      modifies `clock
      ensures s.Crashed? <==> old(clock) == 0
      ensures clock == if s.Crashed? then 0 else old(clock) - 1
    {
      if clock == 0 {
        return Crashed;
      }
      clock := clock - 1;
      return Alive;
    }

    /** The outcome of a call that may fail; with no outcomes left, every call succeeds. */
    method Outcome() returns (ok: bool)
      modifies `outcomes
      ensures ok == Succeeds(old(outcomes)) && outcomes == Rest(old(outcomes), 1)
    {
      if outcomes == [] {
        return true;
      }
      ok := outcomes[0];
      outcomes := outcomes[1..];
    }

    /** The journal is recorded in the transaction that checks the fence. */
    method RecordJournal() returns (s: Status, ok: bool)
      requires Consistent() && phase == NoJournal
      modifies `phase, `clock, `outcomes
      ensures Consistent()
      ensures s.Alive? ==> ok == Succeeds(old(outcomes)) && outcomes == Rest(old(outcomes), 1)
      ensures s.Alive? ==> phase == if ok then Staged else NoJournal
      ensures s.Crashed? ==> clock == 0
      ensures old(clock) >= 1 ==> s.Alive? && clock >= old(clock) - 1
      ensures s.Crashed? ==> phase == old(phase)
    {
      ok := false;
      :- Tick();
      ok := Outcome();
      if ok {
        phase := Staged;
      }
      return Alive, ok;
    }

    /** Complete the operation in the coordinator with what recovery found; a failure leaves it as it was. */
    method CompleteOperation(restored: bool) returns (s: Status, ok: bool)
      modifies `reported, `clock, `outcomes
      ensures s.Alive? ==> ok == Succeeds(old(outcomes)) && outcomes == Rest(old(outcomes), 1)
      ensures reported == if s.Alive? && ok then Some(restored) else old(reported)
      ensures s.Crashed? ==> clock == 0
      ensures old(outcomes) == [] ==> outcomes == [] && (s.Alive? ==> ok)
      ensures old(clock) >= 1 ==> s.Alive? && clock >= old(clock) - 1
    {
      ok := false;
      :- Tick();
      ok := Outcome();
      if ok {
        reported := Some(restored);
      }
      return Alive, ok;
    }

    /** The running intent becomes durable; only then does the swap phase begin. */
    method RecordIntent() returns (s: Status)
      requires Consistent() && phase == Staged
      modifies `recorded, `phase, `clock
      ensures Consistent()
      ensures s.Alive? ==> phase == Swapping && recorded == running == initial && AllUntouched(slots)
      ensures s.Crashed? ==> clock == 0
      ensures old(clock) >= 1 ==> s.Alive? && clock >= old(clock) - 1
      ensures s.Crashed? ==> phase == old(phase) && recorded == old(recorded)
    {
      s := Alive;
      :- Tick();
      recorded, phase := running, Swapping;
      return Alive;
    }

    /** All slots hold the restored trees; the runtime is next. */
    method RecordPending() returns (s: Status, ok: bool)
      requires Consistent() && recorded == initial
      modifies `phase, `clock, `outcomes
      ensures Consistent()
      ensures phase == RuntimePending || phase == old(phase)
      ensures s.Alive? && ok ==> phase == RuntimePending
      ensures s.Crashed? ==> clock == 0
      ensures s.Alive? ==> ok == Succeeds(old(outcomes)) && outcomes == Rest(old(outcomes), 1)
      ensures old(outcomes) == [] ==> outcomes == [] && (s.Alive? ==> ok)
      ensures old(clock) >= 1 ==> s.Alive? && clock >= old(clock) - 1
      ensures !(s.Alive? && ok) ==> phase == old(phase)
    {
      ok := false;
      :- Tick();
      ok := Outcome();
      if ok {
        phase := RuntimePending;
      }
      return Alive, ok;
    }

    /** Replace the installed secrets by the restored ones, in one transaction. */
    method InstallRestoredSecrets() returns (s: Status, ok: bool)
      requires Consistent() && phase == RuntimePending
      modifies `secrets, `clock, `outcomes
      ensures Consistent()
      ensures s.Alive? && ok ==> secrets == restoredSecrets
      ensures s.Crashed? ==> clock == 0
      ensures s.Alive? ==> ok == Succeeds(old(outcomes)) && outcomes == Rest(old(outcomes), 1)
      ensures old(outcomes) == [] ==> outcomes == [] && (s.Alive? ==> ok)
      ensures old(clock) >= 1 ==> s.Alive? && clock >= old(clock) - 1
      ensures !(s.Alive? && ok) ==> secrets == old(secrets)
    {
      ok := false;
      :- Tick();
      ok := Outcome();
      if ok {
        secrets := restoredSecrets;
      }
      return Alive, ok;
    }

    /** Commit: from here on the restored trees stay. */
    method RecordCommit() returns (s: Status, ok: bool)
      requires Consistent() && phase == RuntimePending && AllCleaned(slots)
      requires secrets == restoredSecrets && running == initial
      modifies `phase, `committed, `clock, `outcomes
      ensures Consistent()
      ensures s.Alive? && ok ==> phase == Committed && committed
      ensures !(s.Alive? && ok) ==> phase == RuntimePending && committed == old(committed)
      ensures s.Crashed? ==> clock == 0
      ensures s.Alive? ==> ok == Succeeds(old(outcomes)) && outcomes == Rest(old(outcomes), 1)
      ensures old(outcomes) == [] ==> outcomes == [] && (s.Alive? ==> ok)
      ensures old(clock) >= 1 ==> s.Alive? && clock >= old(clock) - 1
    {
      ok := false;
      :- Tick();
      ok := Outcome();
      if ok {
        phase, committed := Committed, true;
      }
      return Alive, ok;
    }

    /** Original trees and original secrets are back, and this becomes durable last. */
    method RecordRolledBack() returns (s: Status)
      requires Consistent() && AllUntouched(slots) && secrets == originalSecrets && (committed ==> |slots| == 0)
      modifies `phase, `clock
      ensures Consistent()
      ensures s.Alive? ==> phase == RolledBack
      ensures s.Crashed? ==> phase == old(phase)
      ensures s.Crashed? ==> clock == 0
      ensures old(clock) >= 1 ==> s.Alive? && clock >= old(clock) - 1
    {
      s := Alive;
      :- Tick();
      phase := RolledBack;
      return Alive;
    }

    method InstallOriginalSecrets() returns (s: Status)
      requires Consistent() && (committed ==> |slots| == 0)
      requires phase != NoJournal && phase != CleanupPending && phase != Completed
      modifies `secrets, `clock
      ensures Consistent()
      ensures s.Alive? ==> secrets == originalSecrets
      ensures s.Crashed? ==> clock == 0
      ensures old(clock) >= 1 ==> s.Alive? && clock >= old(clock) - 1
      ensures s.Crashed? ==> secrets == old(secrets)
    {
      s := Alive;
      :- Tick();
      secrets := originalSecrets;
      return Alive;
    }

    /** Remove the staged tree: it is damaged first, gone afterwards, and removal may fail in between. */
    method RemoveStaged(i: nat) returns (s: Status, ok: bool)
      requires i < |slots|
      modifies `slots, `clock, `outcomes
      ensures |slots| == |old(slots)| && slots == old(slots)[i := slots[i]]
      ensures slots[i] == old(slots[i]).(staged := slots[i].staged)
      ensures slots[i].staged.None? ||
              (old(slots[i]).staged.Some? && slots[i].staged.value.id == old(slots[i]).staged.value.id)
      ensures s.Alive? && ok ==> slots[i].staged.None?
      ensures s.Crashed? ==> clock == 0
      ensures old(outcomes) == [] ==> outcomes == [] && (s.Alive? ==> ok)
      ensures old(clock) >= 2 ==> s.Alive? && clock >= old(clock) - 2
    {
      s, ok := Alive, true;
      if slots[i].staged.Some? {
        :- Tick();
        slots := slots[i := slots[i].(staged := Some(slots[i].staged.value.(whole := false)))];
        :- Tick();
        ok := Outcome();
        if ok {
          slots := slots[i := slots[i].(staged := None)];
        }
      }
    }

    /** Remove the rollback tree, in the same two steps. */
    method RemoveRollback(i: nat) returns (s: Status, ok: bool)
      requires i < |slots|
      modifies `slots, `clock, `outcomes
      ensures |slots| == |old(slots)| && slots == old(slots)[i := slots[i]]
      ensures slots[i] == old(slots[i]).(rollback := slots[i].rollback)
      ensures slots[i].rollback.None? ||
              (old(slots[i]).rollback.Some? && slots[i].rollback.value.id == old(slots[i]).rollback.value.id)
      ensures s.Alive? && ok ==> slots[i].rollback.None?
      ensures s.Crashed? ==> clock == 0
      ensures old(outcomes) == [] ==> outcomes == [] && (s.Alive? ==> ok)
      ensures old(clock) >= 2 ==> s.Alive? && clock >= old(clock) - 2
    {
      s, ok := Alive, true;
      if slots[i].rollback.Some? {
        :- Tick();
        slots := slots[i := slots[i].(rollback := Some(slots[i].rollback.value.(whole := false)))];
        :- Tick();
        ok := Outcome();
        if ok {
          slots := slots[i := slots[i].(rollback := None)];
        }
      }
    }

    /**
     Replace slot i after a rename that touches its active path. Nothing runs at that moment, unless an
     in-process rollback's stop sweep has failed.
     */
    method RenameActive(i: nat, moved: Slot) returns (s: Status)
      requires i < |slots| && RuntimeOk() && (running == {} || sweepLeft != {})
      modifies `slots, `clock, `log
      ensures RuntimeOk()
      ensures s.Crashed? ==> slots == old(slots) && log == old(log)
      ensures s.Alive? ==> slots == old(slots)[i := moved] && log == old(log) + [ActiveRenamed(running)]
      ensures s.Crashed? ==> clock == 0
      ensures old(clock) >= 1 ==> s.Alive? && clock >= old(clock) - 1
    {
      s := Alive;
      :- Tick();
      slots := slots[i := moved];
      log := log + [ActiveRenamed(running)];
      return Alive;
    }

    /** Stop one component: a reported success means it no longer runs; a failure leaves it either way. */
    method Stop(c: string) returns (s: Status, ok: bool)
      modifies `running, `clock, `outcomes, `log
      ensures s.Crashed? ==> running == old(running) && log == old(log)
      ensures s.Alive? ==> (running == old(running) || running == old(running) - {c})
      ensures s.Alive? ==> log == old(log) + [Stopped(c, recorded)]
      ensures QuietRenames(log) <==> old(QuietRenames(log))
      ensures s.Alive? && ok ==> running == old(running) - {c}
      ensures s.Alive? ==> running == if Succeeds(old(outcomes)) then old(running) - {c} else old(running)
      ensures old(RuntimeOk()) && c in recorded ==> RuntimeOk()
      ensures s.Alive? ==> ok == NoFailure(old(outcomes), 2) && outcomes == Rest(old(outcomes), 2)
      ensures s.Crashed? ==> clock == 0
      ensures old(outcomes) == [] ==> outcomes == [] && (s.Alive? ==> ok)
      ensures old(clock) >= 1 ==> s.Alive? && clock >= old(clock) - 1
    {
      ok := false;
      :- Tick();
      TwoCalls(outcomes);
      var took := Outcome();
      var reported := Outcome();
      log := log + [Stopped(c, recorded)];
      assert forall i :: 0 <= i < |old(log)| ==> log[i] == old(log)[i];
      if took {
        running := running - {c};
      }
      return Alive, took && reported;
    }

    /** Start one component: a reported success means it runs. */
    method Start(c: string) returns (s: Status, ok: bool)
      modifies `running, `clock, `outcomes, `log
      ensures s.Crashed? ==> running == old(running) && log == old(log)
      ensures s.Alive? ==> (running == old(running) || running == old(running) + {c})
      ensures s.Alive? ==> log == old(log) + [Started(c, recorded)]
      ensures QuietRenames(log) <==> old(QuietRenames(log))
      ensures s.Alive? && ok ==> running == old(running) + {c}
      ensures s.Alive? ==> running == if Succeeds(old(outcomes)) then old(running) + {c} else old(running)
      ensures old(RuntimeOk()) && c in recorded && c in initial ==> RuntimeOk()
      ensures s.Alive? ==> ok == NoFailure(old(outcomes), 2) && outcomes == Rest(old(outcomes), 2)
      ensures s.Crashed? ==> clock == 0
      ensures old(outcomes) == [] ==> outcomes == [] && (s.Alive? ==> ok)
      ensures old(clock) >= 1 ==> s.Alive? && clock >= old(clock) - 1
    {
      ok := false;
      :- Tick();
      TwoCalls(outcomes);
      var took := Outcome();
      var reported := Outcome();
      log := log + [Started(c, recorded)];
      assert forall i :: 0 <= i < |old(log)| ==> log[i] == old(log)[i];
      if took {
        running := running + {c};
      }
      return Alive, took && reported;
    }

    /**
     Start the recorded components in start order, stopping at the first failure. Every moment keeps
     the dependencies of running components running; success means all recorded components run.
     */
    method Resume(intent: set<string>) returns (s: Status, ok: bool)
      requires RuntimeOk() && intent <= recorded && intent <= initial
      modifies `running, `clock, `outcomes, `log
      ensures RuntimeOk()
      ensures old(running) <= running <= old(running) + intent
      ensures s.Alive? && ok ==> running == old(running) + intent
      ensures s.Alive? ==> Resumption(running, outcomes, ok) == Resumed(startOrder, intent, old(running), old(outcomes))
      ensures QuietRenames(log) <==> old(QuietRenames(log))
      ensures DependencyFirst(startOrder, dependsOn) && Closed(intent, dependsOn) && Closed(old(running), dependsOn)
              ==> Closed(running, dependsOn)
      ensures s.Crashed? ==> clock == 0
      ensures old(outcomes) == [] ==> outcomes == [] && (s.Alive? ==> ok)
      ensures old(clock) >= |startOrder| ==> s.Alive? && clock >= old(clock) - |startOrder|
    {
      ok := false;
      hide RuntimeOk;
      hide DependencyFirst, Closed, Resumed, NoFailure, Rest, Succeeds, QuietRenames, IntentFirst, AllListed;
      ghost var ordered := DependencyFirst(startOrder, dependsOn) && Closed(intent, dependsOn) && Closed(running, dependsOn);
      ResumedAll(startOrder, intent, running, outcomes);
      for k := 0 to |startOrder|
        invariant RuntimeOk()
        invariant old(running) <= running <= old(running) + intent
        invariant QuietRenames(log) <==> old(QuietRenames(log))
        invariant forall i :: 0 <= i < k && startOrder[i] in intent ==> startOrder[i] in running
        invariant old(outcomes) == [] ==> outcomes == []
        invariant Resumed(startOrder[k..], intent, running, outcomes) == Resumed(startOrder, intent, old(running), old(outcomes))
        invariant clock >= old(clock) - k
        invariant ordered ==> Closed(running, dependsOn)
      {
        var c := startOrder[k];
        ResumedStep(startOrder, k, intent, running, outcomes);
        if c in intent {
          if ordered { StartKeepsClosed(startOrder, dependsOn, intent, running, k); }
          NoneLeft(outcomes);
          var started :- Start(c);
          if !started {
            return Alive, false;
          }
        }
      }
      ResumedAll(startOrder, intent, running, outcomes);
      AllStarted(intent, running);
      return Alive, true;
    }

    lemma RunningListed()
      requires RuntimeOk()
      ensures AllListed(running, startOrder)
    {
    }

    lemma AllStarted(intent: set<string>, now: set<string>)
      requires RuntimeOk() && intent <= initial
      requires forall i :: 0 <= i < |startOrder| && startOrder[i] in intent ==> startOrder[i] in now
      ensures intent <= now
    {
    }

    /**
     Stop the recorded components in reverse start order; on a failure, start them all again and give
     up. Every moment keeps the dependencies of running components running.
     */
    method Quiesce(intent: set<string>) returns (s: Status, ok: bool)
      requires RuntimeOk() && running == intent == recorded && intent <= initial
      modifies `running, `clock, `outcomes, `log
      ensures RuntimeOk() && running <= intent
      ensures s.Alive? && ok ==> running == {}
      // after a failed stop everything is started again, as far as the outcomes left say
      ensures s.Alive? ==> StopEnds(ok, intent, old(running), old(outcomes))
      ensures s.Alive? && OneFailure(old(outcomes)) && !ok ==> running == intent
      ensures s.Alive? ==> (ok <==> NoFailure(old(outcomes), 2 * Listed(startOrder, 0, intent)))
      ensures s.Alive? && ok ==> outcomes == Rest(old(outcomes), 2 * Listed(startOrder, 0, intent))
      ensures DependencyFirst(startOrder, dependsOn) && Closed(intent, dependsOn) ==> Closed(running, dependsOn)
      ensures s.Crashed? ==> clock == 0
      ensures old(outcomes) == [] ==> outcomes == [] && (s.Alive? ==> ok)
      ensures old(clock) >= 2 * |startOrder| ==> s.Alive? && clock >= old(clock) - (2 * |startOrder|)
    {
      ok := false;
      hide RuntimeOk;
      hide DependencyFirst, Closed, Resumed, NoFailure, Rest, Succeeds, Listed, QuietRenames, IntentFirst, AllListed, Halted, OneFailure;
      RunningListed();
      ghost var ordered := DependencyFirst(startOrder, dependsOn) && Closed(intent, dependsOn);
      NothingListed(startOrder, intent, outcomes);
      assert startOrder[..|startOrder|] == startOrder;
      for k := |startOrder| downto 0
        invariant RuntimeOk() && running <= intent
        invariant AllListed(running, startOrder[..k])
        invariant old(outcomes) == [] ==> outcomes == []
        invariant clock >= old(clock) - (|startOrder| - k)
        invariant NoFailure(old(outcomes), 2 * Listed(startOrder, k, intent))
        invariant outcomes == Rest(old(outcomes), 2 * Listed(startOrder, k, intent))
        invariant Halted(startOrder, k, intent, running, outcomes) == Halted(startOrder, |startOrder|, intent, old(running), old(outcomes))
        invariant ordered ==> Closed(running, dependsOn)
      {
        var c := startOrder[k];
        HaltedStep(startOrder, k, intent, running, outcomes);
        StopListed(startOrder, running, k);
        assert c !in intent ==> running - {c} == running;
        ListedStep(startOrder, k, intent);
        if c in intent {
          if ordered { StopKeepsClosed(startOrder, dependsOn, running, k); }
          More(old(outcomes), 2 * Listed(startOrder, k + 1, intent), 2);
          NoneLeft(outcomes);
          var stopped :- Stop(c);
          if !stopped {
            FailsEarly(startOrder, k, intent, old(outcomes));
            s := ResumeAfterFailure(intent, old(outcomes), 2 * Listed(startOrder, k, intent));
            return s, false;
          }
        }
      }
      HaltedStart(startOrder, intent, running, outcomes);
      NoneListed(running, startOrder);
      return Alive, true;
    }

    /** How quiescing ends: stopped as far as the outcomes say, and on a failure everything started again. */
    ghost predicate StopEnds(ok: bool, intent: set<string>, before: set<string>, outcomes: seq<bool>)
      reads `running, `outcomes
    {
      var stopped := Halted(startOrder, |startOrder|, intent, before, outcomes);
      && ok == stopped.ok
      && (ok ==> running == stopped.left && this.outcomes == stopped.outcomes)
      && (!ok ==> RestartedFrom(intent, stopped.left, stopped.outcomes))
    }

    /** What runs after a restart of these components; that is all of them exactly when the missing ones' starts are reached. */
    ghost predicate RestartedFrom(intent: set<string>, before: set<string>, outcomes: seq<bool>)
      reads `running
    {
      && running == Resumed(startOrder, intent, before, outcomes).running
      && (running == intent <==> forall c :: c in intent && c !in before ==> Reached(startOrder, intent, outcomes, c))
    }

    /** The restart after m calls of which one failed. */
    method ResumeAfterFailure(intent: set<string>, ghost all: seq<bool>, ghost m: nat) returns (s: Status)
      requires RuntimeOk() && intent <= recorded && intent <= initial && running <= intent
      requires outcomes == Rest(all, m) && !NoFailure(all, m)
      modifies `running, `clock, `outcomes, `log
      ensures RuntimeOk() && old(running) <= running <= intent
      ensures s.Alive? ==> RestartedFrom(intent, old(running), old(outcomes))
      ensures s.Alive? && OneFailure(all) ==> running == intent
      ensures DependencyFirst(startOrder, dependsOn) && Closed(intent, dependsOn) && Closed(old(running), dependsOn)
              ==> Closed(running, dependsOn)
      ensures s.Crashed? ==> clock == 0
      ensures old(outcomes) == [] ==> outcomes == []
      ensures old(clock) >= |startOrder| ==> s.Alive? && clock >= old(clock) - |startOrder|
    {
      hide RuntimeOk;
      hide DependencyFirst, Closed, Resumed, NoFailure, Rest, Succeeds, Reached, OneFailure;
      ghost var before, o := running, outcomes;
      var ok: bool;
      s, ok := Resume(intent);
      if s.Alive? {
        RestartExactly(intent, before, o);
        if OneFailure(all) {
          AfterTheFailure(all, m, 2 * Starts(startOrder, intent, |startOrder|));
          ResumedOk(startOrder, intent, before, o);
        }
      }
    }

    lemma RestartExactly(intent: set<string>, before: set<string>, outcomes: seq<bool>)
      requires running == Resumed(startOrder, intent, before, outcomes).running && running <= intent
      ensures RestartedFrom(intent, before, outcomes)
    {
      hide Resumed, Reached;
      forall c ensures c in running <==> c in before || Reached(startOrder, intent, outcomes, c) {
        ResumedExactly(startOrder, intent, before, outcomes, c);
      }
    }

    /** Quiescing and then resuming, both successfully, restores exactly the components that ran before. */
    method QuiesceAndResume(intent: set<string>) returns (s: Status, ok: bool)
      requires RuntimeOk() && running == intent == recorded && intent <= initial
      modifies `running, `clock, `outcomes, `log
      ensures RuntimeOk() && running <= intent
      ensures s.Alive? && ok ==> running == intent
      ensures DependencyFirst(startOrder, dependsOn) && Closed(intent, dependsOn) ==> Closed(running, dependsOn)
      ensures s.Crashed? ==> clock == 0
      ensures old(outcomes) == [] ==> outcomes == [] && (s.Alive? ==> ok)
      ensures old(clock) >= 3 * |startOrder| ==> s.Alive? && clock >= old(clock) - (3 * |startOrder|)
    {
      ok := false;
      var quiet :- Quiesce(intent);
      if !quiet {
        return Alive, false;
      }
      s, ok := Resume(intent);
    }

    /** Stop everything that still runs; failures are ignored. Used by the in-process rollback only. */
    method StopSweep() returns (s: Status)
      requires RuntimeOk() && running <= recorded && sweepLeft == {}
      modifies `running, `clock, `outcomes, `log, `sweepLeft
      ensures RuntimeOk() && running <= old(running)
      ensures QuietRenames(log) <==> old(QuietRenames(log))
      ensures s.Alive? ==> sweepLeft == running
      ensures s.Crashed? ==> sweepLeft == {}
      ensures s.Alive? ==> Sweeping(running, outcomes) == Swept(startOrder, old(running), old(outcomes))
      ensures s.Crashed? ==> clock == 0
      ensures old(outcomes) == [] ==> outcomes == [] && (s.Alive? ==> running == {})
      ensures old(clock) >= |startOrder| ==> s.Alive? && clock >= old(clock) - |startOrder|
    {
      assert forall c :: c in running ==> c in startOrder;
      hide RuntimeOk;
      hide Swept, Rest, Succeeds, QuietRenames, NoFailure;
      SweptAll(startOrder, running, outcomes);
      assert startOrder[..|startOrder|] == startOrder;
      for k := |startOrder| downto 0
        invariant RuntimeOk() && running <= old(running) && sweepLeft == {}
        invariant QuietRenames(log) <==> old(QuietRenames(log))
        invariant Swept(startOrder[..k], running, outcomes) == Swept(startOrder, old(running), old(outcomes))
        invariant clock >= old(clock) - (|startOrder| - k)
        invariant old(outcomes) == [] ==> outcomes == [] && forall c :: c in running ==> c in startOrder[..k]
      {
        var c := startOrder[k];
        assert startOrder[..k + 1] == startOrder[..k] + [c];
        SweptStep(startOrder, k, running, outcomes);
        NoneLeft(outcomes);
        if c in running {
          var stopped :- Stop(c);
        }
      }
      SweptAll(startOrder, running, outcomes);
      MayBeLoud();
      sweepLeft := running;
      return Alive;
    }

    /** What a sweep leaves running only loosens the claim about renames. */
    lemma MayBeLoud()
      requires RuntimeOk()
      ensures QuietRenames(log) || sweepLeft != {}
    {
    }
  }
}
