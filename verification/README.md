# KITPro privileged helper: a Dafny model

KITPro's helper is a root process that installs, backs up, restores and exposes applications on a small
server. This project models the parts of it whose correctness rests on the order of durable steps, on
exact counting or on exact comparison, and proves what they keep.

* **Operation coordinator** (`CoordinatorModel`, `CoordinatorInvariant`, `CoordinatorRecovery`,
  `CoordinatorRuns`, `CoordinatorAnswers`, `Coordinator`, `BackupSnapshot`). Every database transaction is a function from tables
  to tables; a run is any interleaving of transactions and restarts, and a restart may be cut off between
  any two of its transactions. The class executes the same transactions on its fields. `BackupSnapshot` is
  the edit of a host backup's database copy.
* **Application restore** (`Outcomes`, `RestoreHost`, `ApplicationRestore`, `RestoreRecovery`). Each storage slot has four
  paths that hold directory trees with identities; removal first damages a tree and then drops it. Every
  durable step consumes one unit of a clock and the process stops when the clock is empty, so a
  postcondition that holds for every clock holds for a stop between any two steps, recovery included. Calls
  into the container runtime and the database take their outcome from an arbitrary list.
* **Address pools** (`Prefixes`, `ChildSubnets`, `AddressPools`). CIDR arithmetic (section 3.1 of RFC 4632),
  interval merging and the check for 64 free child subnets in the private ranges (section 3 of RFC 1918).
* **Host-state restore** (`HostRestore`) with the same clock, and **ingress generations** (`Ingress`).
* **Syncthing policy** (`Syncthing`): the token rewriter and the reader that verifies it.
* **Port bindings** (`Exposure`, `Decimals`): the comparison of observed and expected bindings.
* **Application archive** (`Paths`, `Sorting`, `Sets`, `Checksums`, `BackupManifest`, `Archive`, `ArchiveWriter`).

Several promises hold only under a condition. Each such condition is proved exact:

* A recorded commit of an application restore is kept by recovery if and only if the restore has at least
  one slot; with none, the survey cannot see the commit and goes back (`RestoreRecovery.Recover`).
* The outcomes a restore meets are quiet if there is no slot, or a call before the end of the swap fails, or
  nothing is left to undo, or the stop sweep leaves nothing running. With quiet outcomes no rename of the restore or
  of any later start meets a running component, wherever any of them is cut off; a restore that is not cut off meets
  one if its outcomes are not quiet. The sweep ignores failures, so a start that takes effect but is reported as
  failed, followed by a refused stop, is a witness (`RestoreRecovery.History`, `ApplicationRestore.Restore` and
  `RenamedWhileRunning`).
* After an undone restore everything that ran before runs again if and only if no call up to the restart of each
  component the sweep stopped fails (`ApplicationRestore.RollBack`). A failed restart is ignored and the journal
  says rolled back, so that no later start looks at it: `RestoreRecovery.UndoneStaysDown` is a component that stays
  down.
* A host recovery in phase swapping gives back every old target if and only if each target that existed still
  has its previous tree or its candidate. Every state the swap itself leaves is of that kind, with or without a
  bootstrap generation; a recovery that was cut off need not be, and `HostRestore.SecondRecoveryLosesTarget` loses
  any existing target of any host that way. The old ingress link comes with the old targets if and only if the cut
  fell before its reset; `HostRestore.LinkLost` is a recovered host without it.
* A later ingress generation number exceeds an earlier one if the earlier one's directory was created, or if every
  host restore in between brings back a row at or above it, so always without a restore. For the first number
  chosen after a restore this is exact (`Ingress.ReusedExactly`, `Ingress.NextExceeds`).
* The Syncthing policy is applied if and only if the stream is accepted and no managed option other than
  listenAddress is repeated; otherwise the file is put back.
* An archive that the writer produced is extracted if and only if its paths are canonical, none lies below a
  file, file paths survive their JSON spelling, the index path is free and the limits hold. The writer does not
  check the names found in a source directory, so a file name with a backslash, or one that is not UTF-8, is written
  and then refused (`ArchiveWriter.NonCanonicalRefused`, `ArchiveWriter.UnspelledRefused`).
  The path check itself lets ".." through; the containment check refuses it (`Paths.CanonicalWithin`).

## Model

| member | source | states |
|---|---|---|
| CoordinatorRuns.LeasesFollowOperations | software/server/internal/helperops/coordinator.go:113-195 | In every state of every run an accepted or executing operation holds its scope's lease as held with an equal token, a reconciling or blocked one as a recovery lease, a released lease's last holder has finished, and a scope has at most one unfinished operation |
| CoordinatorRuns.RunInvariant | software/server/internal/helperops/coordinator.go:77-534 | The whole table invariant holds after every prefix of every run, restarts cut off anywhere included |
| CoordinatorRuns.RunEvolves | software/server/internal/helperops/coordinator.go:77-534 | Between any two points of a run rows persist with their request, finished rows never change, lease tokens grow and a changed operation token is fresh |
| CoordinatorRuns.LeaseTokenNeverDecreases | software/server/internal/helperops/coordinator.go:136-161 | A scope's lease token never decreases over a run |
| CoordinatorRuns.TokenNeverShared | software/server/internal/helperops/coordinator.go:136-161 | No token value is given to two operations of one scope, however far apart |
| CoordinatorRuns.OvertakenTokenIsPowerless | software/server/internal/helperops/coordinator.go:565-581 | Once the lease has moved past a token, authorizing, recording a phase, completing and completing a recovery with it fail and change nothing |
| CoordinatorRuns.FinishedAnswerIsFinal | software/server/internal/helperops/coordinator.go:552-563 | A finished row is never changed again, so every later replay of its request returns the stored answer |
| CoordinatorRuns.ExecutesOnce | software/server/internal/helperops/coordinator.go:113-119 | Begin answers execute at most once per operation ID in a run |
| CoordinatorRuns.AuthorizesOnce | software/server/internal/helperops/coordinator.go:199-215 | A mutation is authorized at most once per operation ID in a run |
| CoordinatorRuns.RestartClearsInterrupted | software/server/internal/helperops/coordinator.go:414-534 | From every reachable state an uncut restart leaves nothing accepted, executing or reconciling and no held lease, classifies every listed row, and resolving what is left releases every lease |
| CoordinatorRuns.RestartReportsAbsentSafely | software/server/internal/helperops/coordinator.go:468-506 | However a restart is cut off, a row it newly reports as confirmed absent was never authorized |
| CoordinatorAnswers.ExecutesExactly | software/server/internal/helperops/coordinator.go:77-195 | Begin executes exactly an acceptable request with a new ID whose scope is free, or blocked and the request an explicit repair; the accepted row, the next token, the held lease, the superseded holder and everything left alone are stated |
| CoordinatorAnswers.RefusesExactly | software/server/internal/helperops/coordinator.go:113-119 | A known ID is replayed exactly when the contents are the same; a held lease, or a recovery lease against anything but a repair, is a recorded conflict naming the holder; everything else changes nothing |
| CoordinatorAnswers.OnlyRepairTakesOver | software/server/internal/helperops/coordinator.go:144-161 | What begins in a scope that is not free is an explicit repair of a blocked operation |
| CoordinatorAnswers.CompletesExactly | software/server/internal/helperops/coordinator.go:255-342 | Completion happens exactly for a fenced executing operation whose result fits, and state, outcome, answer, error and lease follow what the handler said |
| CoordinatorAnswers.RecoveryCompletesExactly | software/server/internal/helperops/coordinator.go:348-396 | A recovery completes exactly a blocked operation with its recovery lease, as the observer said |
| CoordinatorAnswers.ResolvesExactly | software/server/internal/helperops/coordinator.go:508-536 | The administrator releases exactly a blocked operation; it is failed and nothing about its outcome is invented |
| CoordinatorAnswers.AuthorizesExactly | software/server/internal/helperops/coordinator.go:199-226 | Authorization moves exactly a fenced accepted operation to executing |
| CoordinatorAnswers.RecordsPhaseExactly | software/server/internal/helperops/coordinator.go:228-253 | A phase is recorded exactly for a fenced executing operation and changes nothing else |
| CoordinatorAnswers.SuccessWasReported | software/server/internal/helperops/coordinator.go:255-396 | Over every run a succeeded operation was reported successful by a handler or a recovery, with the stored result |
| CoordinatorAnswers.SupersededByRepairOnly | software/server/internal/helperops/coordinator.go:144-161 | Over every run a superseded operation was taken over by an explicit repair of its scope |
| CoordinatorInvariant.BeginKeeps | software/server/internal/helperops/coordinator.go:77-195 | Begin keeps the invariant in all its branches: replay, conflict, grant and repair takeover |
| CoordinatorInvariant.NewOperationHoldsNoLease | software/server/internal/helperops/coordinator.go:162-164 | Under the invariant no lease names a request that has no row yet, so the branch where the active holder is the request itself cannot be taken |
| CoordinatorInvariant.CompleteKeeps | software/server/internal/helperops/coordinator.go:255-342 | Completing, or asking for recovery with a new token, keeps the invariant |
| CoordinatorInvariant.CompleteRecoveryKeeps | software/server/internal/helperops/coordinator.go:348-396 | Completing a recovery keeps the invariant |
| CoordinatorInvariant.AuthorizeKeeps | software/server/internal/helperops/coordinator.go:199-226 | Authorizing keeps the invariant |
| CoordinatorInvariant.RecordPhaseKeeps | software/server/internal/helperops/coordinator.go:228-253 | Recording a phase keeps the invariant |
| CoordinatorInvariant.ResolveKeeps | software/server/internal/helperops/coordinator.go:508-536 | Resolving a blocked operation keeps the invariant |
| CoordinatorInvariant.MarkReconcilingKeeps | software/server/internal/helperops/coordinator.go:443-466 | Moving an interrupted row to reconciling with the next token keeps the invariant |
| CoordinatorInvariant.RecoverOneKeeps | software/server/internal/helperops/coordinator.go:468-506 | Classifying a reconciling row keeps the invariant |
| CoordinatorRecovery.RecoverKeeps | software/server/internal/helperops/coordinator.go:414-441 | A restart cut off after any number of transactions keeps the invariant |
| CoordinatorRecovery.RecoverFinishes | software/server/internal/helperops/coordinator.go:414-441 | An uncut restart classifies exactly the listed rows and leaves the others as they were |
| CoordinatorRecovery.ResolveAllReleases | software/server/internal/helperops/coordinator.go:508-536 | Resolving every blocked operation after a restart releases every lease |
| Coordinator.Coordinator.Begin | software/server/internal/helperops/coordinator.go:77-195 | The method leaves the tables and gives the decision of the Begin transaction, whose decision table is ExecutesExactly and RefusesExactly, and keeps the invariant |
| Coordinator.Coordinator.AuthorizeMutation | software/server/internal/helperops/coordinator.go:199-226 | The method is the authorization transaction on the tables |
| Coordinator.Coordinator.RecordPhase | software/server/internal/helperops/coordinator.go:228-253 | The method is the phase transaction on the tables |
| Coordinator.Coordinator.Complete | software/server/internal/helperops/coordinator.go:255-342 | The method is the completion transaction on the tables, answer included, which CompletesExactly states |
| Coordinator.Coordinator.CompleteRecovery | software/server/internal/helperops/coordinator.go:348-396 | The method is the recovery completion on the tables, answer included |
| Coordinator.Coordinator.ResolveActionRequired | software/server/internal/helperops/coordinator.go:508-536 | The method is the administrator's resolution on the tables |
| Coordinator.Coordinator.RecoverInterrupted | software/server/internal/helperops/coordinator.go:414-441 | The loop of two transactions per row, cut off anywhere, leaves the tables of the restart function and keeps the invariant |
| Coordinator.Coordinator.VerifyFence | software/server/internal/helperops/coordinator.go:565-581 | The fence passes exactly when the scope's lease is held by this operation with this token |
| BackupSnapshot.CompleteInSnapshot | software/server/internal/hostbackup/archive.go:174-211 | Edits a snapshot so that the backup operation is succeeded, confirmed and without error, with its lease released, and the lease invariant still holds, or changes nothing |
| BackupSnapshot.EditableExactly | software/server/internal/hostbackup/archive.go:174-211 | Under the invariant the edit applies exactly when the backup operation is accepted or executing |
| BackupSnapshot.RecoveryLeavesBackupAlone | software/server/internal/hostbackup/archive.go:174-211 | Recovery on the restored snapshot leaves the backup operation and its lease untouched, wherever it is cut off |
| ApplicationRestore.Restore | software/server/cmd/kitpro-helper/application_backup.go:321-506 | Wherever it is cut off the storage is safe and nothing is stopped before its intent is durable; quiet outcomes mean no rename under a running component wherever it is cut off, and exactly so for a finished restore; the answer, and what runs in the end, are those the outcomes say; without a failing call it restores, and a stated number of steps is enough |
| ApplicationRestore.QuiesceAndSwap | software/server/cmd/kitpro-helper/application_backup.go:332-344 | The running intent is durable before anything is stopped, the swap starts only with nothing running, and answer and running components are those the outcomes say, after a failed stop too |
| ApplicationRestore.SwapAll | software/server/cmd/kitpro-helper/application_backup.go:369-434 | Slots are swapped in plan order; a slot that cannot be begun undoes those before it, anything later is left for recovery; answer and quiet renames are those the outcomes say |
| ApplicationRestore.SwapSlot | software/server/cmd/kitpro-helper/application_backup.go:373-424 | The two renames of a slot always find their source and a free destination, and leave every other slot alone |
| ApplicationRestore.FinishSwapped | software/server/cmd/kitpro-helper/application_backup.go:435-506 | A commit is recorded only with every slot, the secrets and the recorded components restored; the renames are quiet exactly when nothing has to be undone or the sweep leaves nothing running |
| ApplicationRestore.RollBack | software/server/cmd/kitpro-helper/application_backup.go:346-368 | The in-process rollback puts slots and secrets back; its renames are quiet exactly when the outcomes of the stop sweep leave nothing running or nothing was swapped, and then wherever it is cut off; what runs afterwards is what the outcomes say, and is everything that ran before exactly when no call up to each needed restart fails |
| ApplicationRestore.ResumeOriginal | software/server/cmd/kitpro-helper/application_backup.go:358-366 | Original secrets, the recorded components as far as they start, and the record of the rollback even if a start failed |
| ApplicationRestore.RenamedWhileRunning | software/server/cmd/kitpro-helper/application_backup.go:346-357 | A restore of one slot and one component, from its beginning, whose rollback renames the slot under the running component |
| ApplicationRestore.MoveAllBack | software/server/cmd/kitpro-helper/application_backup.go:348-357 | Moving the swapped slots back, last first, leaves every slot original |
| ApplicationRestore.CleanUp | software/server/cmd/kitpro-helper/restore_journal.go:489-505 | Dropping rollback trees never touches a restored slot, and completed means none is left |
| ApplicationRestore.DiscardStaging | software/server/cmd/kitpro-helper/application_backup.go:303-311 | Discarding keeps every slot safe and, when no call fails, leaves no staged tree |
| RestoreHost.Host.Quiesce | software/server/cmd/kitpro-helper/application_backup.go:851-872 | At every moment of stopping, or of starting again after a failed stop, the dependencies of running components run; success means nothing runs; after a failed stop everything is started again and runs exactly as the outcomes say, all of it if only that stop failed |
| RestoreHost.Host.Resume | software/server/cmd/kitpro-helper/application_backup.go:933-952 | Starts only recorded components, keeps dependencies running at every moment, ends as the outcomes of its starts say, and success means all of them run |
| RestoreHost.ResumedExactly | software/server/cmd/kitpro-helper/application_backup.go:933-952 | After resuming a component runs exactly if it ran before or no call up to its start failed |
| RestoreHost.HaltedExactly | software/server/cmd/kitpro-helper/application_backup.go:851-872 | After stopping a component still runs exactly if it ran and a call up to its stop failed |
| RestoreHost.Host.QuiesceAndResume | software/server/cmd/kitpro-helper/application_backup.go:844-952 | Quiescing and resuming successfully restores exactly the initial running set |
| RestoreHost.Host.StopSweep | software/server/cmd/kitpro-helper/application_backup.go:915-931 | Stops what still runs, ignores failures, and leaves running exactly what the outcomes of its stops say |
| RestoreHost.Host.RecordIntent | software/server/cmd/kitpro-helper/restore_journal.go:141-158 | The running intent and the swap phase become durable together |
| RestoreHost.Host.RemoveRollback | software/server/cmd/kitpro-helper/application_backup.go:513-533 | Removing a tree damages it first, drops it last and touches nothing else |
| RestoreHost.Host.InstallRestoredSecrets | software/server/cmd/kitpro-helper/application_backup.go:823-842 | The secrets change in one step or not at all |
| RestoreRecovery.ClassifySafe | software/server/cmd/kitpro-helper/restore_journal.go:249-287 | Before a commit identities tell untouched, emptied and swapped slots apart and always find the whole original |
| RestoreRecovery.ClassifyCleaned | software/server/cmd/kitpro-helper/restore_journal.go:249-287 | After a commit every slot is seen as restored, whatever is left of its original |
| RestoreRecovery.Survey | software/server/cmd/kitpro-helper/restore_journal.go:322-337 | Every state a restore can leave is all restored or can be rolled back |
| RestoreRecovery.TakeAllBack | software/server/cmd/kitpro-helper/restore_journal.go:367-395 | From any safe state every slot is taken back to its original, wherever earlier attempts stopped |
| RestoreRecovery.FinishRollback | software/server/cmd/kitpro-helper/restore_journal.go:367-410 | Going back ends with all slots original, the original secrets and exactly the initial components |
| RestoreRecovery.FinishForward | software/server/cmd/kitpro-helper/restore_journal.go:412-447 | Going forward ends committed with all slots restored, the restored secrets and exactly the initial components |
| RestoreRecovery.Conclude | software/server/cmd/kitpro-helper/restore_journal.go:338-362 | Going forward or back is followed by the completion in the coordinator, which is told exactly what was done; if that fails the finished journal asks for attention again and stays consistent |
| RestoreRecovery.Recover | software/server/cmd/kitpro-helper/restore_journal.go:289-365 | Recovery never meets a mixed state, ends all original or all restored, keeps a commit exactly when there is a slot, and finishes within a stated number of steps when no call fails |
| RestoreRecovery.History | software/server/cmd/kitpro-helper/restore_journal.go:289-365 | Over a restore of any number of slots and any number of cut-off starts the storage is safe at every moment, a settled start is all or nothing, what the coordinator was told is what is on disk, a last start with enough steps and no failing call settles, and no rename of any of them meets a running component if the outcomes of the restore are quiet, and only then if the restore is not cut off |
| RestoreRecovery.Startup | software/server/cmd/kitpro-helper/restore_journal.go:468-487 | One start keeps the invariant, settles all or nothing within a stated number of steps when no call fails, and with the steps of the clean-up too leaves no staged and no rollback tree behind |
| RestoreRecovery.UndoneStaysDown | software/server/cmd/kitpro-helper/application_backup.go:358-367 | An undone restore whose restart is refused leaves its component down through any number of later starts |
| Prefixes.OverlapIffShared | software/server/internal/docker/prerequisite.go:264-271 | Two prefixes overlap exactly when some address lies in both |
| ChildSubnets.RangeIsExact | software/server/internal/docker/prerequisite.go:273-292 | The index range computed for a network holds exactly the children whose addresses meet it |
| ChildSubnets.OutsideTakesNothing | software/server/internal/docker/prerequisite.go:273-292 | A network that is skipped takes no child |
| ChildSubnets.CountMerged | software/server/internal/docker/prerequisite.go:293-312 | Merging sorted ranges counts every covered index once |
| ChildSubnets.OccupiedChildSubnets | software/server/internal/docker/prerequisite.go:273-312 | The result is the number of children that share an address with some network, and at most the total |
| AddressPools.ValidateNetworkPrerequisites | software/server/internal/docker/prerequisite.go:184-240 | Success exactly when pools are usable, disjoint, clear of routes and leave at least 64 free children, and otherwise the condition that failed |
| AddressPools.CountAvailable | software/server/internal/docker/prerequisite.go:228-239 | The available count is the number of free children over all pools |
| AddressPools.AcceptedPoolsLeaveRoom | software/server/internal/docker/prerequisite.go:184-240 | Accepted pools have at least 64 free children, pairwise disjoint, inside a pool and private space, and sharing no address with an IPv4 network or a route other than a zero-length one |
| AddressPools.FreeChildIsPrivate | software/server/internal/docker/prerequisite.go:242-253 | A free child lies inside its pool and inside one private range |
| AddressPools.FreeChildIsClear | software/server/internal/docker/prerequisite.go:216-226 | A free child shares no address with a network or a route that counts |
| AddressPools.FreeChildrenAreDisjoint | software/server/internal/docker/prerequisite.go:208-214 | Two free children share no address |
| AddressPools.PrivateExactly | software/server/internal/docker/prerequisite.go:242-253 | A prefix is private exactly when all its addresses lie in one of the three private ranges |
| AddressPools.UsableExactly | software/server/internal/docker/prerequisite.go:193-206 | A pool is usable exactly when its base is such an IPv4 prefix and it is cut into longer subnets of at most 24 bits |
| AddressPools.OneMoreRoute | software/server/internal/docker/prerequisite.go:216-262 | A route disturbs the pools exactly when it is IPv4, not zero-length, not a Docker network on its own interface, and shares an address with a pool |
| AddressPools.MaskLength | software/server/internal/docker/prerequisite.go:341-354 | The mask loop returns the prefix length exactly for contiguous masks and refuses every other one |
| HostRestore.HostState.Restore | software/server/internal/hostbackup/restore.go:80-122 | With or without a bootstrap generation every target is traceable wherever the swap is cut off; after the commit every target is new and the ingress link reset; the link is what the number of steps says at every cut; a finished restore has every target new, or as before |
| HostRestore.HostState.Recover | software/server/internal/hostbackup/restore.go:124-175 | In phase swapping every target gets its old content exactly when all are traceable; after a commit every target stays new; seven steps a target and one more are enough |
| HostRestore.HostState.PutAllBack | software/server/internal/hostbackup/restore.go:142-166 | Targets are put back last first; cut off after exactly the steps from one of them on, those are back and the others untouched |
| HostRestore.OneUncutRecovery | software/server/internal/hostbackup/restore.go:80-175 | A restore cut off anywhere, with or without a bootstrap generation, and one completed recovery leave every target old, absence included, or every target new with the link reset, unless the restore's own recovery was cut off; then every target is old exactly when all were traceable. The old link is there exactly when the cut fell before its reset |
| HostRestore.RestartsAfterCommit | software/server/internal/hostbackup/restore.go:124-175 | After a commit any number of cut-off recoveries keep every target new, and one with more than four steps a target finishes |
| HostRestore.SecondRecoveryLosesTarget | software/server/internal/hostbackup/restore.go:142-162 | For any list of targets and any that existed: a restore cut off before its commit, a recovery cut off after putting that target back, and another recovery remove it |
| HostRestore.LinkLost | software/server/internal/hostbackup/restore.go:274-284 | A restore cut off between the two steps of the link reset and then recovered has every old target and no link |
| HostRestore.HostState.DeactivateIngress | software/server/internal/hostbackup/restore.go:274-284 | The ingress symlink points to bootstrap, or the call fails without a bootstrap generation |
| Ingress.NextUnusedGeneration | software/server/internal/ingress/runtime.go:227-250 | The least number from the minimum that exceeds every numbered entry, and none only at the end of the integers |
| Ingress.IngressHost.Prepare | software/server/internal/ingress/runtime.go:53-80 | A configuration is written once and never overwritten, and its directory is there exactly if its creation succeeded |
| Ingress.IngressHost.ReplaceSymlink | software/server/internal/ingress/runtime.go:198-214 | The symlink changes exactly when the call before the rename succeeds, and success needs both calls |
| Ingress.IngressHost.VerifyGeneration | software/server/internal/ingress/runtime.go:124-143 | Verification passes exactly for the generation that current points to when both calls succeed |
| Ingress.IngressHost.RollBack | software/server/internal/ingress/transaction.go:63-73 | A rollback is reported as done exactly when its calls succeed, and then current is where it was before the activation |
| Ingress.IngressHost.Apply | software/server/internal/ingress/transaction.go:39-61 | The result is the one the outcomes of the nine calls say, a rejected validation included; success makes the candidate current, every failure but an unfinished rollback leaves current as it was |
| Ingress.AppliedExactly | software/server/internal/ingress/transaction.go:39-61 | Success means that none of the nine calls fails, and a failed fourth call is a failed validation and nothing else |
| Ingress.IngressHost.RecordResult | software/server/cmd/kitpro-helper/ingress.go:90-112 | The row becomes active, rollback pending, rolled back or failed by the result, a previous one rolled back, and no other row changes |
| Ingress.IngressHost.ApplyGeneration | software/server/cmd/kitpro-helper/ingress.go:71-126 | Rows and symlink agree again; the result is the one the outcomes say and the rows record it; the chosen number is the least above every row and directory whatever the outcome, and has a directory exactly if the size is proper and the creation succeeds |
| Ingress.IngressHost.HostStateRestored | software/server/internal/hostbackup/restore.go:262-284 | A completed host restore leaves no active row and current at bootstrap |
| Ingress.History | software/server/cmd/kitpro-helper/ingress.go:71-126 | Over any undisturbed sequence of applications and host restores at most one generation is active, current points to it or to bootstrap, written configurations never change, and a later number exceeds every earlier one that has a directory or whose row, or a higher one, every restore in between brought back |
| Ingress.ReusedExactly | software/server/internal/ingress/runtime.go:225-250 | After an application and the restore of any backup, the next number exceeds the first exactly when the first left a directory or the backup has a row at or above it; with a backup taken just before, it is the same number exactly when the first left no directory |
| Ingress.NextExceeds | software/server/internal/ingress/runtime.go:227-250 | The next number exceeds a given one exactly when a row or a directory at or above it is there |
| Ingress.NumberChosenTwice | software/server/internal/ingress/runtime.go:53-60 | A failed directory creation and a restore, after which a number is chosen twice |
| Syncthing.AcceptedMeansPolicy | software/server/internal/appconfig/syncthing.go:153-219 | For every accepted stream the output reads back at the policy values with listenAddress once, keeps everything outside in order, is reproduced by a second rewrite, and complies exactly when no other option was repeated |
| Syncthing.OutputReadsAsPolicy | software/server/internal/appconfig/syncthing.go:153-204 | Reading the rewritten stream gives each option its policy value as often as it was kept |
| Syncthing.RewriteAgain | software/server/internal/appconfig/syncthing.go:153-204 | Rewriting an output reproduces it token by token |
| Syncthing.OutsideKept | software/server/internal/appconfig/syncthing.go:153-204 | Rewriting keeps every token outside managed option elements, in order |
| Syncthing.SkipExactly | software/server/internal/appconfig/syncthing.go:230-245 | Discarding ends exactly after the token at which the open elements are first all closed |
| Syncthing.NestedIgnored | software/server/internal/appconfig/syncthing.go:268-275 | Elements inside an option contribute nothing to its value |
| Syncthing.OutsideOptionsUntouched | software/server/internal/appconfig/syncthing.go:165-204 | A stream without an options element is not changed and nothing in it is counted |
| Syncthing.AfterOptionsUntouched | software/server/internal/appconfig/syncthing.go:196-204 | After the options end tag nothing more is rewritten or counted |
| Syncthing.ConfigurationAccepted | software/server/internal/appconfig/syncthing.go:153-211 | A configuration that lists every managed option, in any order and with any values, is accepted |
| Syncthing.DiscardElement | software/server/internal/appconfig/syncthing.go:230-245 | The depth loop ends just after the matching end tag, or fails exactly when there is none |
| Syncthing.RewriteTokens | software/server/internal/appconfig/syncthing.go:150-211 | The token loop returns the rewriting exactly on the accepted streams |
| Syncthing.OptionValues | software/server/internal/appconfig/syncthing.go:247-288 | The reader's loop gives the last value, trimmed of Unicode white space, and the count of every option |
| Syncthing.Verify | software/server/internal/appconfig/syncthing.go:61-82 | The check passes exactly on streams with one options element and every option once at its policy value |
| Syncthing.ConfigurationFile.Apply | software/server/internal/appconfig/syncthing.go:150-219 | Succeeds exactly when the stream is accepted and no other option is repeated; then the file complies, otherwise it is unchanged |
| Exposure.ObservedBindingsExactSet | software/server/internal/exposure/exposure.go:176-218 | True exactly when the observed keys are the published ones and each holds the same multiset of address and port |
| Exposure.MatchItems | software/server/internal/exposure/exposure.go:193-215 | First-fit matching accepts exactly equal multisets of readable items |
| Exposure.ReadableExactly | software/server/internal/exposure/exposure.go:199-204 | An observed item is readable exactly when it is the report of an endpoint, with no field more or less |
| Exposure.Group | software/server/internal/exposure/exposure.go:177-184 | The keys are those of the published bindings, each with its bindings in order |
| Exposure.RuntimePortBindings | software/server/cmd/kitpro-helper/main.go:1119-1129 | The map given to the runtime has the published keys and each key's endpoints in order |
| Exposure.AcceptsExactlyTheSame | software/server/cmd/kitpro-helper/main.go:1119-1129 | What was rendered for one list is accepted for another exactly when both publish the same multiset of ports, transports, addresses and host ports |
| Exposure.KeyInjective | software/server/internal/exposure/exposure.go:182-183 | Port and transport can be read back from their key |
| Paths.CanonicalExactly | software/server/internal/appbackup/archive.go:589-594 | A path is canonical exactly when it is ".." or has only plain elements and no backslash or NUL |
| Paths.CanonicalWithin | software/server/internal/appbackup/archive.go:693-696 | A canonical path stays below the destination exactly when it is not ".." |
| Paths.NamesRoundTrip | software/server/internal/appbackup/archive.go:596-604 | Entry names written for a canonical path give it back, and a directory's is refused otherwise |
| Checksums.VerifyChecksums | software/server/internal/appbackup/archive.go:570-587 | Passes exactly when index and observed payload are in one-to-one agreement |
| Checksums.AgreesExactly | software/server/internal/appbackup/archive.go:570-587 | Agreement entry by entry: distinct canonical paths, proper digests, equal digest, size, mode and owner, and an entry for every file |
| Archive.Measure | software/server/internal/appbackup/archive.go:141-187 | Succeeds exactly on containers with safe distinct names within the limits and returns the declared bytes and the number of entries |
| Archive.ReadEntries | software/server/internal/appbackup/archive.go:405-458 | Reading succeeds exactly when every entry is within limits and none lies below a file, whatever the order, and gives the tree and the observed payload |
| Archive.PlaceableExactly | software/server/internal/appbackup/archive.go:430-457 | Creating an entry meets no obstacle exactly when no file is above it and it is a file above nothing |
| Archive.Extract | software/server/internal/appbackup/archive.go:363-492 | Succeeds exactly when the entries can be extracted and manifest and index are present, valid and in agreement with the payload |
| Archive.ExtractedIsSafe | software/server/internal/appbackup/archive.go:405-458 | What is extracted is files and directories within the limits, under the root, with paths of plain elements |
| Archive.IndexIsThePayload | software/server/internal/appbackup/archive.go:570-587 | After success every payload file has one index entry with its digest, size, mode and owner, and every index entry has its file |
| Archive.IndexFixesPayload | software/server/internal/appbackup/archive.go:570-587 | Two archives that extract with the same index hold the same payload with the same modes and, if preserved, owners, or the digest has a collision |
| ArchiveWriter.WriteArchive | software/server/internal/appbackup/archive.go:232-313 | Succeeds exactly when inline paths are canonical and not the index path, sources are real directories of files and directories, and all names differ; the archive is that of its items with their index |
| ArchiveWriter.Writer.Put | software/server/internal/appbackup/archive.go:246-296 | Adds header, checksum and name of one item together, or nothing when the name is taken |
| ArchiveWriter.IndexAgrees | software/server/internal/appbackup/archive.go:298-305 | The index written agrees with what the reader observes |
| ArchiveWriter.NonCanonicalRefused | software/server/internal/appbackup/archive.go:570-602 | An archive with an item whose path is not canonical is never extracted |
| ArchiveWriter.UnspelledRefused | software/server/internal/appbackup/archive.go:298-305 | An archive with a file whose path JSON respells is never extracted |
| ArchiveWriter.RoundTrip | software/server/internal/appbackup/archive.go:232-492 | What the writer produced is extracted exactly when its items fit and file paths survive JSON, and gives back the manifest with checksum metadata, the index and exactly the files written |
| ArchiveWriter.InputsReadBack | software/server/internal/appbackup/archive.go:232-492 | Every inline file and every file of a source comes back with its content, permissions and owner |
| ArchiveWriter.ArchivableMeans | software/server/internal/appbackup/archive.go:246-275 | What the writer accepts has canonical paths, none of them reserved, and sources that are real directories |
| ArchiveWriter.MetadataByName | software/server/internal/appbackup/archive.go:494-510 | Manifest and index are read only from files with exactly the names the writer gives them |
| BackupManifest.ValidManifestMeans | software/server/internal/appbackup/archive.go:526-568 | A valid manifest has distinct components, slots that belong to one, and content only below "application" |

## Left out

- Database errors inside the in-process rollback, failing renames and changes made to the paths by others: the fault model is process stops between steps, and failing container, secret-store and journal calls where the code acts on them.
- The copy of an archive into staging before the restore journal exists; the model starts with staged trees ready.
- Per-slot step phases of the restore journal: recovery decides by path identities, so only the operation's phase is modelled.
- Administrator release or repair takeover of a restore's lease: the restore is modelled as keeping its lease, with the lost lease as one answer of recovery.
- Several restores at once: the restore of one installation is modelled, and a process that stops between the journal's last phase and the coordinator's completion leaves the operation action_required there.
- A recovery of the host in phase swapping that is itself cut off gives back every target only under the exact condition of Recover; the program promises nothing more there.
- A host restore that is rolled back after its ingress symlink was reset leaves the symlink reset; only completed host restores are steps of the ingress history.
- SQL, SQLite, JSON, gzip, tar bytes, XML bytes and SHA-256: tables are maps, archives and documents are entry and token sequences, the JSON encodings and the digest are parameters, and no claim assumes a digest without collisions. What JSON does to a name is a parameter too: spelling again changes nothing and makes no path canonical that was not; the strings of the manifest itself are taken to survive.
- Merging of adjacent text when a rewritten Syncthing file is parsed again, its atomic replacement and the ownership hand-off around it.
- Source files that change while they are archived, modification times, and the extraction of an archive whose data ends early other than as a refusal.
- ArchiveWriter.WriteArchive: sorts stably, while the original's sort leaves equal keys in any order; equal keys are refused either way.
- Integer widths: tokens, ports, sizes and generation numbers are unbounded except for the int64 limit of generation numbers; address counts stay below 2^32 by proof.
- BindingsConflict, ValidateConflicts, Allocate and Normalize of the exposure rules, and NormalizeRoutes with the hostname patterns of ingress: they check a request before anything durable happens, and no step modelled here relies on what they refuse.
- Docker, nginx, ACME and Cloudflare clients, sockets, frames, HTTP handlers, templates, certificates, the lifecycle runners, diagnostics and the prototypes.
