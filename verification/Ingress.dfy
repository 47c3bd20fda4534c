/**
 Ingress generations: a configuration is written once into its own generation directory, checked, made
 current by replacing a symlink, verified, and otherwise rolled back. Calls that may fail take their
 outcome from a list the caller does not control.
 */
module Ingress {
  import opened Options
  import opened Outcomes
  import opened Maximum

  const MAX_INT64: int := 0x7fff_ffff_ffff_ffff
  const MAX_CONFIGURATION: int := 1024 * 1024

  datatype RowStatus = Prepared | Active | RolledBack | Failed | RollbackPending

  /** What the current symlink points to. */
  datatype Link = Bootstrap | Generation(n: nat)

  datatype ApplyError =
    | InvalidCandidate | PrepareFailed | ValidationFailed | UndoneAfter(activation: bool) | RecoveryNow | CleanupPending

  datatype ApplyOutcome = Applied(generation: nat) | NotApplied(error: ApplyError) | Exhausted

  // ----- choosing a generation -------------------------------------------------------------------

  /** The numeric names in the generations directory, in the order it is read; None for other names. */
  ghost predicate Numbered(entries: seq<Option<int>>, n: int) {
    exists i :: 0 <= i < |entries| && entries[i] == Some(n)
  }

  /** The least number from minimum on that exceeds every numbered entry; no answer only at the end of int64. */
  method NextUnusedGeneration(entries: seq<Option<int>>, minimum: int) returns (next: Option<int>)
    requires minimum <= MAX_INT64
    requires forall n :: Numbered(entries, n) ==> n <= MAX_INT64
    ensures next.None? <==> minimum < 1 || Numbered(entries, MAX_INT64)
    ensures next.Some? ==> minimum <= next.value <= MAX_INT64 && forall n :: Numbered(entries, n) ==> n < next.value
    ensures next.Some? ==> next.value == minimum || Numbered(entries, next.value - 1)
  {
    if minimum < 1 {
      return None;
    }
    var candidate := minimum;
    for i := 0 to |entries|
      invariant minimum <= candidate <= MAX_INT64
      invariant forall n :: Numbered(entries[..i], n) ==> n < candidate
      invariant candidate == minimum || Numbered(entries[..i], candidate - 1)
    {
      NumberedOneMore(entries, i);
      if entries[i].Some? && entries[i].value >= candidate {
        assert Numbered(entries, entries[i].value);
        if entries[i].value == MAX_INT64 {
          return None;
        }
        candidate := entries[i].value + 1;
      }
    }
    assert entries[..|entries|] == entries;
    return Some(candidate);
  }

  lemma NumberedOneMore(entries: seq<Option<int>>, i: nat)
    requires i < |entries|
    ensures forall n :: Numbered(entries[..i + 1], n) <==> Numbered(entries[..i], n) || entries[i] == Some(n)
  {
    forall n
      ensures Numbered(entries[..i + 1], n) <==> Numbered(entries[..i], n) || entries[i] == Some(n)
    {
      if Numbered(entries[..i], n) {
        var k :| 0 <= k < i && entries[..i][k] == Some(n);
        assert entries[..i + 1][k] == Some(n);
      }
      if entries[i] == Some(n) {
        assert entries[..i + 1][i] == Some(n);
      }
      if Numbered(entries[..i + 1], n) {
        var k :| 0 <= k < i + 1 && entries[..i + 1][k] == Some(n);
        assert k < i ==> entries[..i][k] == Some(n);
      }
    }
  }

  /** The number chosen next: above every row and every entry, and no greater than needed. */
  ghost predicate IsNext(rows: set<nat>, entries: seq<Option<int>>, g: nat) {
    && g >= 1 && (forall r :: r in rows ==> r < g) && (forall n :: Numbered(entries, n) ==> n < g)
    && (g == 1 || g - 1 in rows || Numbered(entries, g - 1))
  }

  predicate ProperSize(configuration: string) { 1 <= |configuration| <= MAX_CONFIGURATION }

  /** Where current points before an application with this previous generation, 0 for none. */
  function Before(previous: nat): Link { if previous == 0 then Bootstrap else Generation(previous) }

  function PreviousOf(current: Link): nat { if current.Bootstrap? then 0 else current.n }

  /** The status recorded for the number an application chose. */
  function StatusOf(outcome: ApplyOutcome): RowStatus {
    match outcome
    case Applied(_) => Active
    case NotApplied(RecoveryNow) => RollbackPending
    case NotApplied(UndoneAfter(_)) => RolledBack
    case _ => Failed
  }

  /** Three calls make the previous target current again; a previous generation is verified by two more. */
  predicate UndoWorks(previous: nat, outcomes: seq<bool>) { NoFailure(outcomes, if previous == 0 then 3 else 5) }

  /**
   How an application ends: three calls prepare, one validates, three activate and two verify; a failed activation or
   verification is undone with the outcomes that are left then.
   */
  function ErrorOf(proper: bool, isNew: bool, previous: nat, outcomes: seq<bool>): Option<ApplyError> {
    if !proper then Some(InvalidCandidate)
    else if !isNew || !NoFailure(outcomes, 3) then Some(PrepareFailed)
    else if !NoFailure(outcomes, 4) then Some(ValidationFailed)
    else if !NoFailure(outcomes, 7) then
      Some(if UndoWorks(previous, Left(Rest(outcomes, 4), 3)) then UndoneAfter(true) else RecoveryNow)
    else if !NoFailure(outcomes, 9) then
      Some(if UndoWorks(previous, Left(Rest(outcomes, 7), 2)) then UndoneAfter(false) else RecoveryNow)
    else None
  }

  /** The nine calls of an application, group by group. */
  lemma NineCalls(o: seq<bool>)
    ensures NoFailure(o, 4) <==> NoFailure(o, 3) && Succeeds(Rest(o, 3))
    ensures Rest(Rest(o, 3), 1) == Rest(o, 4)
    ensures NoFailure(o, 7) <==> NoFailure(o, 4) && NoFailure(Rest(o, 4), 3)
    ensures NoFailure(Rest(o, 4), 3) ==> Left(Rest(o, 4), 3) == Rest(o, 7) && Succeeds(Rest(o, 4))
    ensures NoFailure(o, 9) <==> NoFailure(o, 7) && NoFailure(Rest(o, 7), 2)
  {
    OneMore(o, 3);
    More(o, 4, 3);
    More(o, 7, 2);
    if NoFailure(Rest(o, 4), 3) {
      LeftAll(Rest(o, 4), 3);
      ThreeCalls(Rest(o, 4));
    }
  }

  /** Success means that none of the nine calls fails; a failed fourth call is a failed validation and nothing else. */
  lemma AppliedExactly(proper: bool, isNew: bool, previous: nat, o: seq<bool>)
    ensures ErrorOf(proper, isNew, previous, o) == None <==> proper && isNew && forall i :: 0 <= i < 9 && i < |o| ==> o[i]
    ensures ErrorOf(proper, isNew, previous, o) == Some(ValidationFailed) <==>
              proper && isNew && (forall i :: 0 <= i < 3 && i < |o| ==> o[i]) && |o| > 3 && !o[3]
  {
    if |o| > 3 && NoFailure(o, 3) && !o[3] { assert !NoFailure(o, 4); }
    if NoFailure(o, 3) && !NoFailure(o, 4) { assert |o| > 3 && !o[3]; }
  }

  lemma ErrorMeans(proper: bool, previous: nat, o: seq<bool>)
    ensures ErrorOf(proper, true, previous, o) == None <==> proper && NoFailure(o, 9)
    ensures NoFailure(o, 9) ==> Succeeds(o)
  {
    More(o, 1, 8);
  }

  lemma LeftTwo(o: seq<bool>)
    ensures Left(o, 2) == if Succeeds(o) then Rest(Rest(o, 1), 1) else Rest(o, 1)
  {
    var p := Rest(o, 1);
    assert Left(p, 1) == if Succeeds(p) then Left(Rest(p, 1), 0) else Rest(p, 1);
  }

  lemma LeftThree(o: seq<bool>)
    ensures Left(o, 3) == if NoFailure(o, 2) then Rest(Rest(o, 2), 1) else Left(o, 2)
    ensures NoFailure(o, 2) ==> Left(o, 2) == Rest(o, 2)
    ensures NoFailure(o, 3) <==> NoFailure(o, 2) && Succeeds(Rest(o, 2))
  {
    OneMore(o, 2);
    TwoCalls(o);
    LeftTwo(o);
    var p := Rest(o, 1);
    assert Left(o, 3) == if Succeeds(o) then Left(p, 2) else p;
    LeftTwo(p);
  }

  /** What may be prepared at all. */
  predicate Candidate(generation: nat, previous: nat, configuration: string) {
    generation >= 1 && generation != previous && ProperSize(configuration)
  }

  // ----- the runtime and the recorded generations ---------------------------------------------------

  class IngressHost {
    var rows: map<nat, RowStatus>          // ingress_generations, by generation
    var entries: seq<Option<int>>          // names in the generations directory
    var files: map<nat, string>            // configurations written so far, by generation
    var current: Link
    var outcomes: seq<bool>

    constructor (rows: map<nat, RowStatus>, entries: seq<Option<int>>, files: map<nat, string>, outcomes: seq<bool>)
      requires forall g :: g in rows ==> 1 <= g <= MAX_INT64
      requires forall n :: Numbered(entries, n) ==> n <= MAX_INT64
      requires forall g :: g in files ==> Numbered(entries, g)
      requires forall g :: g in rows ==> rows[g] != Active
      ensures Agrees() && this.rows == rows && this.files == files && this.current == Bootstrap
      ensures this.entries == entries && this.outcomes == outcomes
    {
      this.rows, this.entries, this.files, this.outcomes := rows, entries, files, outcomes;
      current := Bootstrap;
    }

    ghost predicate Sound()
      reads this
    {
      && (forall g :: g in rows ==> 1 <= g <= MAX_INT64)
      && (forall n :: Numbered(entries, n) ==> n <= MAX_INT64)
      && (forall g :: g in files ==> Numbered(entries, g))
    }

    /** At most one generation is active, and current points to it, or to bootstrap when there is none. */
    ghost predicate Agrees()
      reads this
    {
      && Sound()
      && (forall g :: g in rows && rows[g] == Active ==> current == Generation(g))
      && (current != Bootstrap ==> current.n in rows && rows[current.n] == Active && current.n in files)
    }

    /** With no outcomes left, every call succeeds. */
    method Outcome() returns (ok: bool)
      modifies `outcomes
      ensures ok == Succeeds(old(outcomes)) && outcomes == Rest(old(outcomes), 1)
    {
      if outcomes == [] {
        return true;
      }
      ok := outcomes[0];
      outcomes := outcomes[1..];
    }

    /**
     Write the configuration into a new directory; an existing configuration is never opened for writing. The
     directory is there exactly if its creation, the first call, succeeds.
     */
    method Prepare(generation: nat, configuration: string) returns (ok: bool)
      requires Sound() && generation <= MAX_INT64
      modifies `entries, `files, `outcomes
      ensures Sound()
      ensures forall n :: Numbered(entries, n) <==> Numbered(old(entries), n) || (n == generation && Succeeds(old(outcomes)))
      ensures forall g :: g in old(files) ==> g in files && files[g] == old(files)[g]
      ensures forall g :: g in files && g !in old(files) ==> g == generation
      ensures ok <==> generation !in old(files) && NoFailure(old(outcomes), 3)
      ensures ok ==> generation in files && files[generation] == configuration && outcomes == Rest(old(outcomes), 3)
    {
      ThreeCalls(outcomes);
      var made := Outcome();
      if !made {
        return false;
      }
      AppendNumber(entries, generation);
      entries := entries + [Some(generation)];
      var complete := Outcome();
      if !complete || generation in files {
        return false;
      }
      var written := Outcome();
      files := files[generation := if written then configuration else ""];
      return written;
    }

    /** Point current at the target: it changes unless the failure comes before the rename. */
    method ReplaceSymlink(target: Link) returns (ok: bool)
      modifies `current, `outcomes
      ensures ok <==> NoFailure(old(outcomes), 2)
      ensures current == if Succeeds(old(outcomes)) then target else old(current)
      ensures outcomes == Left(old(outcomes), 2)
    {
      TwoCalls(outcomes);
      LeftTwo(outcomes);
      var linked := Outcome();
      if !linked {
        return false;
      }
      current := target;
      ok := Outcome();
    }

    /** Point current at the target and reload. */
    method Activate(target: Link) returns (ok: bool)
      modifies `current, `outcomes
      ensures ok <==> NoFailure(old(outcomes), 3)
      ensures current == if Succeeds(old(outcomes)) then target else old(current)
      ensures outcomes == Left(old(outcomes), 3)
    {
      LeftThree(outcomes);
      ok := ReplaceSymlink(target);
      if ok {
        ok := Outcome();
      }
    }

    /** current points to the generation, and nginx runs and answers. */
    method VerifyGeneration(generation: nat) returns (ok: bool)
      modifies `outcomes
      ensures ok <==> current == Generation(generation) && NoFailure(old(outcomes), 2)
      ensures outcomes == if current == Generation(generation) then Left(old(outcomes), 2) else old(outcomes)
    {
      TwoCalls(outcomes);
      LeftTwo(outcomes);
      if current != Generation(generation) {
        return false;
      }
      ok := Outcome();
      if ok {
        ok := Outcome();
      }
    }

    /** Undo an activation: back to the previous generation, or to bootstrap when there was none. */
    method RollBack(previous: nat, activation: bool) returns (error: ApplyError)
      modifies `current, `outcomes
      ensures error == if UndoWorks(previous, old(outcomes)) then UndoneAfter(activation) else RecoveryNow
      ensures error == UndoneAfter(activation) ==> current == Before(previous)
      ensures current == Before(previous) || current == old(current)
    {
      More(outcomes, 3, 2);
      if NoFailure(outcomes, 3) { LeftAll(outcomes, 3); }
      var back := Activate(Before(previous));
      if !back {
        return RecoveryNow;
      }
      if previous > 0 {
        var verified := VerifyGeneration(previous);
        if !verified {
          return RecoveryNow;
        }
      }
      return UndoneAfter(activation);
    }

    /**
     Prepare, validate, activate and verify one candidate. On success current points to it; on every
     failure except RecoveryNow it points where it pointed before. Clean-up never reports a failure, so a
     verified candidate is never reported as failed.
     */
    method Apply(generation: nat, previous: nat, configuration: string) returns (error: Option<ApplyError>)
      requires Sound() && generation <= MAX_INT64
      requires current == Before(previous)
      modifies `entries, `files, `current, `outcomes
      ensures Sound()
      ensures forall n :: Numbered(entries, n) <==>
                Numbered(old(entries), n) || (n == generation && Candidate(generation, previous, configuration) && Succeeds(old(outcomes)))
      ensures forall g :: g in old(files) ==> g in files && files[g] == old(files)[g]
      ensures forall g :: g in files && g !in old(files) ==> g == generation
      ensures error == ErrorOf(Candidate(generation, previous, configuration), generation !in old(files), previous, old(outcomes))
      ensures error.None? ==> current == Generation(generation) && generation in files && files[generation] == configuration
      ensures error.Some? && error.value != RecoveryNow ==> current == old(current)
    {
      hide NoFailure, Rest, Succeeds, Left;
      if !Candidate(generation, previous, configuration) {
        return Some(InvalidCandidate);
      }
      NineCalls(outcomes);
      var prepared := Prepare(generation, configuration);
      if !prepared {
        return Some(PrepareFailed);
      }
      var valid := Outcome();
      if !valid {
        return Some(ValidationFailed);
      }
      var activated := Activate(Generation(generation));
      if !activated {
        var failure := RollBack(previous, true);
        return Some(failure);
      }
      var verified := VerifyGeneration(generation);
      if !verified {
        var failure := RollBack(previous, false);
        return Some(failure);
      }
      return None;
    }

    /**
     The whole operation: choose a number no row and no directory entry has, record it as prepared, apply it,
     and record the result. Unless it ends in RecoveryNow, rows and symlink agree again. Whatever the result,
     the number has a row, and a directory exactly if the configuration has proper size and its creation succeeds.
     */
    method ApplyGeneration(configuration: string) returns (outcome: ApplyOutcome, ghost chosen: nat)
      requires Agrees()
      modifies this
      ensures Sound() && (outcome != NotApplied(RecoveryNow) ==> Agrees())
      ensures forall g :: g in old(files) ==> g in files && files[g] == old(files)[g]
      ensures outcome.Exhausted? <==> chosen == 0
      ensures outcome.Exhausted? <==> MAX_INT64 in old(rows) || old(Numbered(entries, MAX_INT64))
      ensures outcome.Exhausted? ==> rows == old(rows) && current == old(current) && entries == old(entries)
      ensures chosen > 0 ==> IsNext(old(rows).Keys, old(entries), chosen) && rows.Keys == old(rows).Keys + {chosen}
      ensures chosen > 0 ==> forall n :: Numbered(entries, n) <==>
                Numbered(old(entries), n) || (n == chosen && ProperSize(configuration) && Succeeds(old(outcomes)))
      ensures chosen > 0 ==>
                var error := ErrorOf(ProperSize(configuration), true, PreviousOf(old(current)), old(outcomes));
                outcome == if error.Some? then NotApplied(error.value) else Applied(chosen)
      ensures outcome.Applied? ==> ProperSize(configuration) && Succeeds(old(outcomes))
      ensures outcome.Applied? ==>
                && outcome.generation == chosen
                && current == Generation(chosen) && rows[chosen] == Active && files[chosen] == configuration
      ensures outcome.NotApplied? && outcome.error != RecoveryNow ==>
                && current == old(current)
                && (forall g :: g in rows && rows[g] == Active ==> g in old(rows) && old(rows)[g] == Active)
      ensures outcome.Applied? <==> !outcome.Exhausted? && ProperSize(configuration) && NoFailure(old(outcomes), 9)
      ensures chosen > 0 ==> rows[chosen] == StatusOf(outcome)
      ensures forall g :: g in old(rows) ==>
                rows[g] == if outcome.Applied? && g == PreviousOf(old(current)) then RolledBack else old(rows)[g]
    {
      hide IsNext, Numbered, ProperSize, Succeeds, ErrorOf, NoFailure, Left;
      ErrorMeans(ProperSize(configuration), PreviousOf(current), outcomes);
      chosen := 0;
      var choice := Choose();
      if choice.None? {
        return Exhausted, 0;
      }
      var (generation, previous) := choice.value;
      chosen := generation;
      rows := rows[generation := Prepared];
      var error := Apply(generation, previous, configuration);
      RecordResult(generation, previous, error);
      outcome := if error.Some? then NotApplied(error.value) else Applied(generation);
    }

    /** Record how the application of a prepared generation ended. */
    method RecordResult(generation: nat, previous: nat, error: Option<ApplyError>)
      requires Sound() && generation in rows && rows[generation] == Prepared && previous != generation
      requires forall g :: g in rows && rows[g] == Active ==> g == previous
      requires previous > 0 ==> previous in rows && rows[previous] == Active && previous in files
      requires error.None? ==> current == Generation(generation) && generation in files
      requires error.Some? && error.value != RecoveryNow ==> current == Before(previous)
      modifies `rows
      ensures rows.Keys == old(rows).Keys && Sound()
      ensures error != Some(RecoveryNow) ==> Agrees()
      ensures rows[generation] == StatusOf(if error.Some? then NotApplied(error.value) else Applied(generation))
      ensures forall g :: g in old(rows) && g != generation ==>
                rows[g] == if error.None? && g == previous then RolledBack else old(rows)[g]
    {
      hide Numbered;
      if error.Some? {
        rows := rows[generation := if error.value == RecoveryNow then RollbackPending
                                   else if error.value.UndoneAfter? then RolledBack else Failed];
        return;
      }
      if previous > 0 {
        rows := rows[previous := RolledBack];
      }
      rows := rows[generation := Active];
    }

    /** The next generation, which no row and no directory entry has, and the active one, 0 for none. */
    method Choose() returns (choice: Option<(nat, nat)>)
      requires Agrees()
      ensures choice.None? <==> MAX_INT64 in rows || Numbered(entries, MAX_INT64)
      ensures choice.Some? ==>
                var (generation, previous) := choice.value;
                && IsNext(rows.Keys, entries, generation) && 1 <= generation <= MAX_INT64
                && generation !in rows && generation !in files && previous != generation
                && current == Before(previous) && previous == PreviousOf(current)
                && (previous > 0 ==> previous in rows && rows[previous] == Active && previous in files)
                && (forall g :: g in rows && rows[g] == Active ==> g == previous)
    {
      var newest := MaxOrZero(rows.Keys);
      if newest == MAX_INT64 {
        return None;
      }
      var active := set g | g in rows && rows[g] == Active;
      var previous := MaxOrZero(active);
      assert active != {} ==> previous in active;
      var next := NextUnusedGeneration(entries, newest + 1);
      if next.None? {
        return None;
      }
      assert current != Bootstrap ==> current.n in active;
      return Some((next.value, previous));
    }

    /**
     A completed host-state restore: the rows of the backup replace the current ones with no generation
     left active, and current is reset to bootstrap; written configurations stay where they are.
     */
    method HostStateRestored(backup: map<nat, RowStatus>)
      requires Sound() && forall g :: g in backup ==> 1 <= g <= MAX_INT64
      modifies `rows, `current
      ensures Agrees() && current == Bootstrap && rows.Keys == backup.Keys
      ensures forall g :: g in rows ==> rows[g] == if backup[g] == Active then RolledBack else backup[g]
    {
      rows := map g | g in backup :: if backup[g] == Active then RolledBack else backup[g];
      current := Bootstrap;
    }
  }

  lemma AppendNumber(entries: seq<Option<int>>, generation: nat)
    ensures forall n :: Numbered(entries + [Some(generation)], n) <==> Numbered(entries, n) || n == generation
  {
    var longer := entries + [Some(generation)];
    NumberedOneMore(longer, |entries|);
    assert longer[..|entries|] == entries && longer[..|longer|] == longer;
  }

  /** An operation of a history: apply a configuration, or complete a host-state restore of some backup. */
  datatype Step = ApplyStep(configuration: string) | RestoreStep(backup: map<nat, RowStatus>)

  /** The number an application chose at some step, and whether its directory was created and it became active. */
  datatype Choice = Choice(step: nat, number: nat, created: bool, applied: bool)

  ghost predicate RowFrom(rows: set<nat>, n: nat) { exists r :: r in rows && r >= n }
  ghost predicate EntryFrom(entries: seq<Option<int>>, n: nat) { exists m :: Numbered(entries, m) && m >= n }

  /** The next number exceeds n exactly when a row or a directory from n on is there. */
  lemma NextExceeds(rows: set<nat>, entries: seq<Option<int>>, n: nat, next: nat)
    requires n >= 1 && IsNext(rows, entries, next)
    ensures next > n <==> RowFrom(rows, n) || EntryFrom(entries, n)
  {
    hide Numbered;
    if next > n {
      if next - 1 in rows { assert RowFrom(rows, n); } else { assert Numbered(entries, next - 1); }
    }
  }

  /** Every host restore between two steps brings back a row at or above the number. */
  ghost predicate KeepsRow(steps: seq<Step>, from: nat, to: nat, number: nat)
    requires to <= |steps|
  {
    forall k :: from < k < to && steps[k].RestoreStep? ==> RowFrom(steps[k].backup.Keys, number)
  }

  /**
   A later choice exceeds an earlier one whose directory was created, and any earlier one if every host restore in
   between brings back a row at or above it, so in particular if there is none.
   */
  ghost predicate NeverReused(steps: seq<Step>, choices: seq<Choice>) {
    && (forall a :: 0 <= a < |choices| ==> choices[a].step < |steps| && (choices[a].applied ==> choices[a].created))
    && (forall a, b :: 0 <= a < b < |choices| ==> choices[a].step < choices[b].step)
    && (forall a, b :: 0 <= a < b < |choices|
          && (choices[a].created || KeepsRow(steps, choices[a].step, choices[b].step, choices[a].number))
          ==> choices[a].number < choices[b].number)
  }

  /** Before step k: each choice was made earlier, and is guarded if it has a directory or its row was kept. */
  ghost predicate AllGuarded(h: IngressHost, steps: seq<Step>, k: nat, choices: seq<Choice>)
    requires k <= |steps|
    reads h
  {
    forall a :: 0 <= a < |choices| ==>
      && 1 <= choices[a].number && choices[a].step < k
      && (choices[a].created ==> Numbered(h.entries, choices[a].number))
      && (KeepsRow(steps, choices[a].step, k, choices[a].number) ==> RowFrom(h.rows.Keys, choices[a].number))
  }

  ghost predicate NoneNumbered(choices: seq<Choice>, entries: seq<Option<int>>) {
    forall a :: 0 <= a < |choices| ==> !Numbered(entries, choices[a].number)
  }

  lemma OneMoreChoice(steps: seq<Step>, choices: seq<Choice>, next: Choice, rows: set<nat>, entries: seq<Option<int>>)
    requires NeverReused(steps, choices) && next.step < |steps| && (next.applied ==> next.created)
    requires IsNext(rows, entries, next.number)
    requires forall a :: 0 <= a < |choices| ==>
      && 1 <= choices[a].number && choices[a].step < next.step
      && (choices[a].created ==> Numbered(entries, choices[a].number))
      && (KeepsRow(steps, choices[a].step, next.step, choices[a].number) ==> RowFrom(rows, choices[a].number))
    ensures NeverReused(steps, choices + [next])
  {
    hide Numbered, KeepsRow;
    var more := choices + [next];
    forall a, b | 0 <= a < b < |more| && (more[a].created || KeepsRow(steps, more[a].step, more[b].step, more[a].number))
      ensures more[a].number < more[b].number
    {
      if b == |choices| { assert more[a] == choices[a]; }
    }
  }

  lemma StepKeepsRow(steps: seq<Step>, from: nat, k: nat, number: nat)
    requires from < k < |steps| && KeepsRow(steps, from, k + 1, number)
    ensures KeepsRow(steps, from, k, number) && (steps[k].RestoreStep? ==> RowFrom(steps[k].backup.Keys, number))
  {
  }

  /** A restore leaves directories alone and brings the backup's rows. */
  lemma GuardedAfterRestore(h: IngressHost, steps: seq<Step>, k: nat, choices: seq<Choice>)
    requires k < |steps| && steps[k].RestoreStep? && h.rows.Keys == steps[k].backup.Keys
    requires forall a :: 0 <= a < |choices| ==>
      && 1 <= choices[a].number && choices[a].step < k && (choices[a].created ==> Numbered(h.entries, choices[a].number))
    ensures AllGuarded(h, steps, k + 1, choices)
  {
    hide Numbered, KeepsRow, RowFrom;
    forall a | 0 <= a < |choices| && KeepsRow(steps, choices[a].step, k + 1, choices[a].number)
      ensures RowFrom(h.rows.Keys, choices[a].number)
    {
      StepKeepsRow(steps, choices[a].step, k, choices[a].number);
    }
  }

  /** An application keeps rows and directories and adds the row of the number it chose. */
  lemma GuardedAfterApply(h: IngressHost, steps: seq<Step>, k: nat, choices: seq<Choice>, rows: set<nat>, entries: seq<Option<int>>)
    requires k < |steps| && rows <= h.rows.Keys && forall n :: Numbered(entries, n) ==> Numbered(h.entries, n)
    requires forall a :: 0 <= a < |choices| ==>
      && 1 <= choices[a].number && choices[a].step <= k
      && (choices[a].step == k ==> choices[a].number in h.rows && (choices[a].created ==> Numbered(h.entries, choices[a].number)))
      && (choices[a].step < k && choices[a].created ==> Numbered(entries, choices[a].number))
      && (choices[a].step < k && KeepsRow(steps, choices[a].step, k, choices[a].number) ==> RowFrom(rows, choices[a].number))
    ensures AllGuarded(h, steps, k + 1, choices)
  {
    hide Numbered, KeepsRow;
    forall a | 0 <= a < |choices| && KeepsRow(steps, choices[a].step, k + 1, choices[a].number)
      ensures RowFrom(h.rows.Keys, choices[a].number)
    {
      if choices[a].step < k {
        StepKeepsRow(steps, choices[a].step, k, choices[a].number);
      }
    }
  }

  /**
   Any history of applications and completed host-state restores in which no application ends in
   RecoveryNow: after every step rows and symlink agree, no configuration once written is ever changed, and a number
   is chosen again at most if it has no directory and a restore brought back only rows below it.
   */
  method History(h: IngressHost, steps: seq<Step>) returns (undisturbed: bool, ghost choices: seq<Choice>)
    requires h.Agrees()
    requires forall k :: 0 <= k < |steps| && steps[k].RestoreStep? ==>
               forall g :: g in steps[k].backup ==> 1 <= g <= MAX_INT64
    modifies h
    ensures undisturbed ==> h.Agrees()
    ensures forall g :: g in old(h.files) ==> g in h.files && h.files[g] == old(h.files)[g]
    ensures NeverReused(steps, choices) && NoneNumbered(choices, old(h.entries))
    ensures forall a :: 0 <= a < |choices| && choices[a].created ==> Numbered(h.entries, choices[a].number)
  {
    hide NeverReused, NoneNumbered, Numbered, IsNext, ProperSize, Succeeds, NoFailure, ErrorOf, StatusOf, KeepsRow, RowFrom;
    choices := [];
    NoChoices(h, steps);
    for k := 0 to |steps|
      invariant h.Agrees()
      invariant forall g :: g in old(h.files) ==> g in h.files && h.files[g] == old(h.files)[g]
      invariant forall n :: Numbered(old(h.entries), n) ==> Numbered(h.entries, n)
      invariant NeverReused(steps, choices) && NoneNumbered(choices, old(h.entries)) && AllGuarded(h, steps, k, choices)
    {
      ghost var rows, entries := h.rows.Keys, h.entries;
      match steps[k]
      case ApplyStep(configuration) =>
        ghost var created := ProperSize(configuration) && Succeeds(h.outcomes);
        var outcome, chosen := h.ApplyGeneration(configuration);
        if chosen > 0 {
          ghost var next := Choice(k, chosen, created, outcome.Applied?);
          OneMoreChoice(steps, choices, next, rows, entries);
          NotNumbered(choices, next, rows, old(h.entries), entries);
          choices := choices + [next];
        }
        GuardedAfterApply(h, steps, k, choices, rows, entries);
        if outcome == NotApplied(RecoveryNow) {
          return false, choices;
        }
      case RestoreStep(backup) =>
        h.HostStateRestored(backup);
        GuardedAfterRestore(h, steps, k, choices);
    }
    return true, choices;
  }

  lemma NoChoices(h: IngressHost, steps: seq<Step>)
    ensures NeverReused(steps, []) && NoneNumbered([], h.entries) && AllGuarded(h, steps, 0, [])
  {
  }

  lemma NotNumbered(choices: seq<Choice>, next: Choice, rows: set<nat>, first: seq<Option<int>>, entries: seq<Option<int>>)
    requires NoneNumbered(choices, first) && IsNext(rows, entries, next.number)
    requires forall n :: Numbered(first, n) ==> Numbered(entries, n)
    ensures NoneNumbered(choices + [next], first)
  {
    hide Numbered;
  }

  /**
   An application, a completed restore of any backup, and another application: the second number exceeds the first
   exactly when the first left a directory or the backup has a row at or above it. With a backup taken just before
   the first, the second number is the first one exactly when it left no directory: its configuration was not of
   proper size, or the creation of its directory failed.
   */
  method ReusedExactly(h: IngressHost, first: string, backup: map<nat, RowStatus>, second: string) returns (ghost a: nat, ghost b: nat)
    requires h.Agrees() && forall g :: g in backup ==> 1 <= g <= MAX_INT64
    modifies h
    ensures a == 0 <==> MAX_INT64 in old(h.rows) || Numbered(old(h.entries), MAX_INT64)
    ensures a > 0 ==> IsNext(old(h.rows).Keys, old(h.entries), a)
    ensures a > 0 && b > 0 ==>
              (b > a <==> (ProperSize(first) && old(Succeeds(h.outcomes))) || RowFrom(backup.Keys, a))
    ensures a > 0 && b > 0 && backup.Keys == old(h.rows).Keys ==> (b == a <==> !(ProperSize(first) && old(Succeeds(h.outcomes))))
    ensures a > 0 && backup.Keys == old(h.rows).Keys && !(ProperSize(first) && old(Succeeds(h.outcomes))) ==> b == a
  {
    ghost var rows, entries := h.rows.Keys, h.entries;
    ghost var created := ProperSize(first) && Succeeds(h.outcomes);
    var outcome, chosen := h.ApplyGeneration(first);
    a := chosen;
    h.HostStateRestored(backup);
    ghost var between := h.entries;
    var again, chosenAgain := h.ApplyGeneration(second);
    b := chosenAgain;
    if a > 0 {
      AfterFirst(rows, entries, between, a, created);
      if b > 0 { NextExceeds(backup.Keys, between, a, b); }
      if b > 0 && backup.Keys == rows && !created { SameNext(rows, entries, between, a, b); }
    }
  }

  /** Only the chosen number's own directory lies at or above it. */
  lemma AfterFirst(rows: set<nat>, entries: seq<Option<int>>, between: seq<Option<int>>, a: nat, created: bool)
    requires IsNext(rows, entries, a)
    requires forall n :: Numbered(between, n) <==> Numbered(entries, n) || (n == a && created)
    ensures EntryFrom(between, a) <==> created
    ensures !RowFrom(rows, a)
  {
    hide Numbered;
    if created { assert Numbered(between, a); }
  }

  lemma SameNext(rows: set<nat>, entries: seq<Option<int>>, same: seq<Option<int>>, a: nat, b: nat)
    requires forall n :: Numbered(same, n) <==> Numbered(entries, n)
    requires IsNext(rows, entries, a) && IsNext(rows, same, b)
    ensures a == b
  {
    if Numbered(same, b - 1) { assert Numbered(entries, b - 1); }
    if Numbered(entries, a - 1) { assert Numbered(same, a - 1); }
  }

  /** A number without a directory that is chosen twice: its directory could not be created. */
  method NumberChosenTwice() returns (ghost a: nat, ghost b: nat)
    ensures a == b == 1
  {
    var h := new IngressHost(map[], [], map[], [false]);
    ghost var first, second := ReusedExactly(h, "events {}", map[], "events {}");
    a, b := first, second;
  }
}
