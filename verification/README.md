# Verified model of DevRelay

DevRelay moves a developer's unfinished work between devices. This project models the parts of it
that must not lose that work or disagree about it, and proves what they promise for all inputs and
all runs. Each module follows one part of the program: values and specification functions first,
then the methods that work step by step, then the theorems.

- **Leases, handoffs, publishing** (`HandoffTables`, `HandoffSafety`, `HandoffSnapshots`,
  `HandoffGuarantees`, `HandoffPolicy`, `HandoffRuns`, `HandoffDatabase`): the lease, handoff,
  journal, snapshot, session and revocation tables of a project, and the calls that write them, each
  as one transaction: the handoff protocol, both publishes, revocation, session creation, local
  stores and pruning. One writer per epoch, which policy steps every transfer satisfies, when a
  publish can be lost, recovery that never blocks.
- **Sidecars** (`Sidecars`): large files a snapshot keeps in the content-addressed store, when they
  are available, and what checking one list of them says about another.
- **Retention** (`Retention`, `RetentionReasons`, `RetentionRuns`): the planner
  `plan_snapshot_pruning` with its keep reasons and its pressure, and what its plans do when the
  executor `prune_snapshots` runs them.
- **Uploads** (`SnapshotUpload`, `UploadRuns`, `UploadRetry`, `AnchorStore`): publishing a snapshot
  together with its data, the pending marker and its cleanup. An operation is the list of its
  writes, so a process that dies made the first ones; the theorems are about every such run.
- **Background protection** (`Debounce`, `DebounceHistory`, `DebounceProduct`, `Protection`,
  `LateHandling`): the timed debouncer and the checkpoint manager it feeds. Time is a natural
  number, a call is a step, and clocks do not run backwards. `Protection` handles each drained
  checkpoint before the next change, the order shown at
  `crates/devrelay-core/src/background_checkpoint.rs:453-464`; `LateHandling` lets it wait.
- **Crash journal** (`CrashJournal`, `JournalHistory`): appends, faults, replay, cleanup and cleanups
  that crash, as a refinement of a map from operation to history.
- **Content-addressed store** (`Cas`, `CasClosure`): chunks, manifests and roots over every run of
  the API. BLAKE3 is a parameter that yields 64 hex digits. A hypothesis about collisions only ever
  names the inputs concerned, because no such function is injective on all inputs.
- **Icon encoder** (`Crc`, `Zlib`, `Png`): stored-block zlib, both checksums, PNG and ICNS, each
  with a decoder written from the standards (RFC 1950, RFC 1951, RFC 2083). A register is its 32
  bits.
- **Snapshot refs** (`SnapshotRefs`): the two parsers, the orphan and missing scans, the guarded
  garbage collection.
- **Backup trees** (`BackupTree`, `BackupFiles`, `BackupDigest`): the walk, the copy, the digest and
  what verification accepts.
- **Event log** (`EventLog`) and **frames** (`Frames`): replay and live delivery; incremental
  decoding of a fragmented stream on the client's side against the agent's blocking reader.
- **Registry** (`Registry`, `RegistryRuns`): projects and workspaces over every run of load, one
  operation and save, the agent's requests on its copy in memory, and both on one file.

`Common` and `Order` hold integer widths, saturation, and sorted listings of finite sets.

## What the proofs found

Where a promise does not hold everywhere, the exact condition is proved.

- The handoff policy asks for available Git objects and sidecars (step 2). A preflight looks for the
  sidecars of the snapshot its caller passes, which need not be the one the lease hands over, and for
  no Git object; `commit_handoff` and `recover_handoff` bring none. So a transfer ensures the sidecars
  exactly if the list its preflight checks covers them, and never the objects
  (`SidecarsEnsuredExactly`, `StepTwoLeavesObjects`, `TransfersAndStepTwo`,
  `TransferWithForeignPreflight`). No call looks for a recorded target apply (step 3)
  (`AppliedOnRecordExactly`, `TransferWithoutApply`). Verification, order and the unchanged source
  generation are enforced (`NoUnverifiedTransfer`).
- The cleanup policy protects the canonical latest snapshot. The planner does, if it is given the
  right one (`PlanProtects`). The executor `prune_snapshots` protects only pinned snapshots, snapshots
  with children and the project's highest number (`PrunableExactly`), so the latest of a lease goes if
  the planner was given another latest or none (`PlannerRemovesExactly`, `CanonicalLatestCanBePruned`),
  or if a plan is run again after the snapshot it removed was published anew (`LatePlanNeedsRevival`,
  `LatePlanCanRemove`). A replaced snapshot can become the latest again after a prune
  (`ReplacedLatestReturnsExactly`, `ReplacedLatestStandsExactly`, `ReplacedLatestCanReturn`).
- A plan lists parents before their children and always names the children of what it names, so a
  plan with a planned parent stops with the has-children refusal (`PlannedPruneRunsExactly`,
  `ChildOfPlannedIsPlanned`).
- A prune deletes the Git refs before the row, so it leaves a row without refs exactly when a row of
  another project names that snapshot as its parent (`RefsLostExactly`).
- Cleaning up a pending upload does not ask whether the snapshot is stored. If the process died
  between publishing the metadata and removing the marker, or a repeated upload of a stored snapshot
  stopped, the cleanup takes the refs of a published snapshot and then its roots
  (`CleanupAfterPublishExactly`, `StoppedReuploadLosesStored`, `RetainedThroughoutExactly`).
  Repeating the upload instead makes everything good (`RetryCompletes`).
- The documentation says every lease epoch transition is monotonic. The epoch is stored as a signed
  column: at 2^63 - 1 it wraps, reads as zero, and the lease can never be handed off again
  (`CommitRaisesEpochExactly`, `WrappedLeaseNeverTransfers`, `EpochMonotonicExactly`,
  `WrapIsReachable`).
- A commit that is refused as expired or because the source moved on aborts the handoff without a
  journal row (`AbortIsJournaledExactly`).
- A failed background checkpoint is not retried until another change arrives (`FailureWaitsForChange`),
  and a change without paths can be reported protected although it is not (`EmptyChangeIsNotCovered`).
  Handling a drained checkpoint after the next change can hide that change (`LateHandlingHidesWork`),
  and handling checkpoints out of order can lower the stored generation (`StoredFallsExactly`).
- An upload does not replace a corrupt chunk file, so `missing_chunks` can ask for a chunk that no
  upload repairs (`UploadingMissingSufficesExactly`).
- `zlib_store` writes no block for empty data (`StoredRoundTripExactly`).
- `validate_refname` looks for ".lock" at the end of the whole name only, so an id ending in ".lock"
  passes (`SnapshotRefValidExactly`).
- The backup digest can be ambiguous only if a file name holds a colon, 64 hex digits and a newline
  (`HarmlessTextDeterminesFiles`, `VerificationAcceptsExactly`). It is ambiguous when the digits are
  the hash of some content and the shifted names sort in place (`MarkerNamesCollide`,
  `NewlineNamesCollide`).
- A subscriber whose cursor is ahead of the log, as after a restart of the agent, gets events live
  that do not lie after its cursor (`CursorGuardExactly`).
- Removing a project's only workspace lasts until the next load (`RemovalSticksExactly`).
- The agent never reloads the registry: its next save drops what a command wrote
  (`AgentSaveDropsCommands`).

## Model

| member | source | states |
|---|---|---|
| `HandoffDatabase.MetadataDb.UpsertLease` | crates/devrelay-core/src/storage.rs:1791-1829 | Stores a lease row and leaves every other table alone; the lease invariant survives exactly if the row fits: a new row names no handoff, an overwritten one keeps its handoff, with holder and epoch while that is open, and its holder once a transfer is on record |
| `HandoffDatabase.MetadataDb.BeginHandoff` | crates/devrelay-core/src/storage.rs:2296-2413 | Refuses in the order of the code (unknown lease, open handoff, lease not active, source not the holder, revoked device) without a change; otherwise inserts the handoff, marks the lease pending and journals the begin and prepare phases |
| `HandoffDatabase.MetadataDb.RecordHandoffTargetApply` | crates/devrelay-core/src/storage.rs:2415-2445 | Appends one target-apply journal row for a known, unfinished handoff with a JSON detail, and changes nothing else |
| `HandoffDatabase.MetadataDb.UpdateHandoffState` | crates/devrelay-core/src/storage.rs:2751-2790 | Advances a handoff only from the expected state, with one journal row |
| `HandoffDatabase.MetadataDb.MarkHandoffTargetVerified` | crates/devrelay-core/src/storage.rs:2447-2454 | Target verification is recorded only for a handoff in preparation |
| `HandoffDatabase.MetadataDb.MarkHandoffSourceReady` | crates/devrelay-core/src/storage.rs:2456-2463 | Source readiness is recorded only after verification |
| `HandoffDatabase.MetadataDb.AbortHandoffAt` | crates/devrelay-core/src/storage.rs:2695-2749 | Aborts any handoff but a committed one, gives the lease back if it is still pending for that handoff, and journals the abort; an aborted one is answered again without a change |
| `HandoffDatabase.MetadataDb.CommitHandoffInner` | crates/devrelay-core/src/storage.rs:2506-2618 | Checks readiness, expiry, source generation, the target's revocation, the preflight's snapshot against the store, and the lease, in the order of the code; transfers holder and epoch in one step, or releases the handoff when it expired or the source moved on; an injected fault leaves the tables alone |
| `HandoffDatabase.VerifyPreflight` | crates/devrelay-core/src/storage.rs:424-436 | A preflight passes exactly if its snapshot is of the handoff's project, every sidecar path may be written, and every sidecar's manifest fetches, fits and has no missing chunk |
| `HandoffDatabase.MetadataDb.RecoverHandoff` | crates/devrelay-core/src/storage.rs:2620-2643 | Settles a handoff after a restart: commits a ready one, aborts an expired one, reports the rest |
| `HandoffDatabase.MetadataDb.PublishSnapshotCanonical` | crates/devrelay-core/src/storage.rs:1912-2077 | Accepts exactly the holder of an active lease of the same project and session with a new snapshot id and a stored parent; a refusal changes nothing; otherwise the row is added above every number of its project, and the latest snapshot of the lease moves exactly if the caller named the current epoch and latest snapshot, else the publish is stale; lease invariant and table soundness are kept |
| `HandoffDatabase.MetadataDb.PublishInactiveSnapshotAsFork` | crates/devrelay-core/src/storage.rs:2079-2294 | Accepts exactly the holder of an inactive lease; a refusal changes nothing; otherwise the work is pinned above every number of its project in a new session, the lease keeps its latest snapshot and becomes forked, so the same request is never accepted twice |
| `HandoffDatabase.MetadataDb.CheckPublish` | crates/devrelay-core/src/storage.rs:1912-1975 | The checks of a canonical publish, one by one in their order: they pass exactly if the caller may write, and the first one that fails is the reported one |
| `HandoffDatabase.InsertRow` | crates/devrelay-core/src/storage.rs:1977-2010 | The row gets a number above every number of its project, and it is refused exactly for a stored id or a missing parent |
| `HandoffDatabase.MetadataDb.InsertSession` | crates/devrelay-core/src/storage.rs:1656-1695 | A session is created exactly if its id is new; the others stay |
| `HandoffDatabase.SnapshotStore.InsertSnapshot` | crates/devrelay-core/src/snapshot_store.rs:372-442 | One transaction: the row above every number of its project, and the session it names if there is none; a fault or a refused row changes nothing |
| `HandoffDatabase.SnapshotStore.StoreSnapshot` | crates/devrelay-core/src/snapshot_store.rs:173-192 | A local checkpoint on top of the project's latest snapshot; an injected fault before the transaction leaves the tables alone, one after it reports an error and keeps the row; the refs are imported before either |
| `HandoffDatabase.SnapshotStore.PruneSnapshots` | crates/devrelay-core/src/snapshot_store.rs:321-370 | The executor: deletes in order up to the first refusal. Success means every planned snapshot is gone; in any case pinned rows, next numbers and parents stay; if every snapshot of the project had its refs, then every one left has them exactly if the prune did not stop at a foreign key |
| `HandoffDatabase.RefsLostExactly` | crates/devrelay-core/src/snapshot_store.rs:343-357 | The refs go before the row: a prune leaves a row of the project without its refs exactly if it stops at a snapshot that a row of another project names as parent |
| `HandoffDatabase.PrunedAreGone` | crates/devrelay-core/src/snapshot_store.rs:321-370 | A plan that runs to its end removes every snapshot it names |
| `HandoffDatabase.MetadataDb.RevokeDeviceAt` | crates/devrelay-core/src/storage.rs:1024-1079 | Adds the device to the revoked ones and touches no lease or handoff |
| `HandoffSafety.StepKeepsInv` | crates/devrelay-core/src/storage.rs:1791-2790 | A call keeps the lease invariant if and only if it is not an overwrite of a lease row that does not fit: a pending lease names exactly its one open handoff, the source of an open handoff holds the lease, the journal of a handoff lists exactly the phases its state implies, a transferred lease is held by the target of its last transfer |
| `HandoffSafety.ReachableStatesSatisfyInv` | crates/devrelay-core/src/storage.rs:1606-2790 | That invariant holds in every state reachable from the empty database by calls that create sessions, store, publish, prune, hand off and overwrite with fitting rows |
| `HandoffSafety.RunKeepsInv` | crates/devrelay-core/src/storage.rs:1791-2790 | The invariant over every run, from any state that has it, whose overwriting rows fit |
| `HandoffSafety.CommitKeepsInv` | crates/devrelay-core/src/storage.rs:2506-2618 | Each outcome of a commit (untouched, released, transferred) keeps the invariant |
| `HandoffSafety.AbortKeepsInv` | crates/devrelay-core/src/storage.rs:2695-2749 | An abort keeps the invariant and returns the lease |
| `HandoffSafety.StepWriter` | crates/devrelay-core/src/storage.rs:2506-2618 | A call either leaves the writer and the rank of a lease or is exactly one recorded transfer, never to a device that was revoked before |
| `HandoffSafety.OneWriterPerEpoch` | docs/data-loss-safety.md:16-21 | Fencing over every run that does not overwrite the row: the rank of a lease grows by exactly the transfers its journal records, and equal ranks mean the same writer |
| `HandoffSafety.LeaseStateMovesLegally` | crates/devrelay-core/src/lease.rs:27-49 | Every call but an overwrite moves the state of a lease only along the allowed transitions |
| `HandoffGuarantees.AtMostOneOpenHandoff` | crates/devrelay-core/src/storage.rs:2325-2344 | Two open handoffs of one lease are the same handoff |
| `HandoffGuarantees.NoUnverifiedTransfer` | docs/data-loss-safety.md:47-60 | If the writer of a lease changed over a run, a call of that run committed a handoff to the new writer: prepared, verified and declared ready in that order (step 4), with the source generation unchanged (step 5), not expired, its target not revoked, in one transaction (step 6) |
| `Sidecars.EnsureSidecarsAvailable` | crates/devrelay-core/src/sidecar.rs:55-79 | Passes exactly if every path may be written and every sidecar is available in the store as it is now |
| `Sidecars.AvailableExactly` | crates/devrelay-core/src/sidecar.rs:136-152 | A sidecar is available exactly if its fields are valid, its manifest fetches with the recorded size and every chunk the manifest lists downloads |
| `Sidecars.CoverageExactly` | crates/devrelay-core/src/sidecar.rs:55-79 | Checking one list says of another that it is available, on every store where the check passes, exactly if every sidecar of the other is valid and named, manifest and size, by the first |
| `HandoffPolicy.SidecarsEnsuredExactly` | crates/devrelay-core/src/storage.rs:424-436 | Step 2, sidecars: a commit ensures that the sidecars of the snapshot it hands over are available, whatever store the target has, exactly if the list of the snapshot its preflight names covers them |
| `HandoffPolicy.OwnPreflightCovers` | crates/devrelay-core/src/storage.rs:424-436 | A preflight whose snapshot has the sidecars of the one handed over, all valid, covers it |
| `HandoffPolicy.WithoutPreflightNothingIsEnsured` | crates/devrelay-core/src/storage.rs:2477-2489 | A commit without a preflight, and every recovery, ensures them exactly if there are none |
| `HandoffPolicy.StepTwoLeavesObjects` | crates/devrelay-core/src/storage.rs:424-436 | Step 2, objects: after a commit whose preflight looked into the target's store and covers what is handed over, the step holds exactly if both refs are in the target's repository |
| `HandoffPolicy.TransfersAndStepTwo` | docs/data-loss-safety.md:47-60 | Over every run, the call that transferred the lease ensured the sidecars exactly if its preflight covers those of the snapshot handed over, and with no refs at the target step 2 fails on every store |
| `HandoffGuarantees.AppliedOnRecordExactly` | crates/devrelay-core/src/storage.rs:2415-2454 | Step 3 of the policy: a target apply is on record exactly if a call of the run recorded it while the handoff was open (or it was before); neither verification nor commit looks for it |
| `HandoffGuarantees.OpenHandoffFreezesLease` | crates/devrelay-core/src/storage.rs:1912-2790 | While a handoff stays open its lease row does not change over any run that does not overwrite it, and finished handoffs never change |
| `HandoffSnapshots.RunKeepsNumbering` | crates/devrelay-core/src/snapshot_store.rs:321-442 | Over every run of publishes, forks, local stores and prunes: ids are unique, parents are stored before their children, pinned rows stay, and no number of a project is given out twice |
| `HandoffSnapshots.PrunableExactly` | crates/devrelay-core/src/snapshot_store.rs:321-370 | Of every stored snapshot, the latest of a lease, stale work or one of an open handoff alike: some list of decisions makes the executor remove it exactly if it and all its descendants are unpinned snapshots of the project, none its own parent, and none has the project's highest number |
| `Retention.PlanSnapshotPruning` | crates/devrelay-core/src/retention.rs:225-345 | The planner: keep reasons, retained parents, pressure; the planned ids in the order of the listing |
| `Retention.LatestPerBucket` | crates/devrelay-core/src/retention.rs:501-525 | The loop over the snapshots is the fold that BucketKeepsNewest describes |
| `RetentionReasons.BucketKeepsNewest` | crates/devrelay-core/src/retention.rs:501-525 | A bucket keeps one of its own snapshots, the newest, and every bucket that has a snapshot keeps one |
| `RetentionReasons.HotAreNewest` | crates/devrelay-core/src/retention.rs:471-485 | The hot snapshots are the newest: none that is not hot is newer than a hot one |
| `Retention.ProtectRetainedParents` | crates/devrelay-core/src/retention.rs:425-458 | The worklist marks the parent of every id it takes off, each id once |
| `Retention.ProtectCloses` | crates/devrelay-core/src/retention.rs:425-458 | Whatever has a reason in the end, its parent is marked as a retained parent |
| `Retention.PlannedExactlySoft` | crates/devrelay-core/src/retention.rs:225-345 | The planned ids are snapshots of the listing without a hard reason, and every one without any reason is among them |
| `Retention.PressDeletes` | crates/devrelay-core/src/retention.rs:265-289 | The pressure loop is the fold that PressureTakesOldest and PressureIsEnough describe |
| `RetentionReasons.PressureTakesOldest` | crates/devrelay-core/src/retention.rs:265-289 | Nothing that pressure could have taken and left is older than what it took |
| `RetentionReasons.PressureIsEnough` | crates/devrelay-core/src/retention.rs:243-289 | The plan frees what has to be freed, or everything without a hard reason is deleted |
| `Retention.NeverPlanned` | crates/devrelay-core/src/retention.rs:225-345 | No plan names the canonical latest it was given, a pinned snapshot, or one under an active handoff protection |
| `Retention.ChildrenArePlanned` | crates/devrelay-core/src/retention.rs:425-458 | Whoever names a planned snapshot as its parent is planned too |
| `Retention.PlanForOne` | crates/devrelay-core/src/retention.rs:225-345 | An unpinned snapshot that nobody names as parent, and that is not the latest given, is all that some plan deletes |
| `RetentionRuns.PlanProtects` | docs/data-loss-safety.md:74-76 | A plan computed from the table with the lease's latest, and run on it, keeps that snapshot, every pinned one and every one under an active handoff protection |
| `RetentionRuns.PlannerRemovesExactly` | crates/devrelay-core/src/retention.rs:225-345 | Some plan computed from the table removes a stored snapshot exactly if it is not the latest the planner was given and the executor would pass it alone |
| `RetentionRuns.PlannedPruneRunsExactly` | crates/devrelay-core/src/snapshot_store.rs:321-370 | A planner's plan runs to its end exactly if no planned snapshot is anyone's parent and the highest number is not planned |
| `RetentionRuns.ChildOfPlannedIsPlanned` | crates/devrelay-core/src/retention.rs:425-458 | A child of a planned snapshot in its project is planned too, so a planned parent listed before its planned child stops the executor |
| `RetentionRuns.LatePlanNeedsRevival` | docs/data-loss-safety.md:74-76 | A plan computed with the lease's latest and run later removes the latest the lease has by then only if a prune removed that snapshot in between and its writer published it again |
| `HandoffSnapshots.PinnedIsNeverPruned` | crates/devrelay-core/src/snapshot_store.rs:330-335 | A pinned snapshot is never pruned, over any run |
| `HandoffSnapshots.OnlyTheWriterAdvancesLatest` | docs/data-loss-safety.md:40-45 | Only a canonical publish by the holder of an active lease, naming the current epoch and latest snapshot, for an id that is not stored, changes the latest snapshot |
| `HandoffSnapshots.ReplacedLatestReturnsExactly` | crates/devrelay-core/src/storage.rs:1912-2077 | Over every run a latest snapshot that was replaced is the latest again at some later point exactly if a prune removed its row and, after it, a publish by the writer that the state before it accepts names the same id |
| `HandoffSnapshots.ReplacedLatestStandsExactly` | crates/devrelay-core/src/storage.rs:1912-2077 | And it is the latest at the end exactly if no publish on the lease is accepted after that one |
| `HandoffSnapshots.ReplacedLatestStaysReplaced` | crates/devrelay-core/src/storage.rs:1912-2077 | No lost update as long as no prune removes the snapshot: what was replaced is never the latest again |
| `HandoffSnapshots.StalePublishStaysNonCanonical` | docs/data-loss-safety.md:22-22 | A stale publish stores the snapshot and changes nothing else; over every run after it the work stays stored and never becomes the latest of a lease until a prune removes it, and a pinned one is never removed |
| `HandoffRuns.PublishIsReachable` | crates/devrelay-core/src/storage.rs:1656-2077 | From the empty database a session, a lease and a canonical publish are reachable |
| `HandoffRuns.ForkIsReachable` | crates/devrelay-core/src/storage.rs:2079-2294 | So is the fork of an inactive workspace |
| `HandoffRuns.CanonicalLatestCanBePruned` | docs/data-loss-safety.md:74-76 | A run after which the latest snapshot of a lease is gone: publish, stale publish, and a prune with the plan the planner makes of that table when it is given no latest snapshot |
| `HandoffRuns.LatePlanCanRemove` | docs/data-loss-safety.md:74-76 | A run in which a plan computed with the lease's latest removes the latest the lease has later: pruned with it, published again, pruned with it again |
| `HandoffRuns.ReplacedLatestCanReturn` | crates/devrelay-core/src/snapshot_store.rs:321-370 | A run after which a replaced latest snapshot is the latest again: publish, replace, prune, publish |
| `HandoffRuns.TransferWithoutApply` | crates/devrelay-core/src/storage.rs:2447-2489 | From every state in which a handoff can begin the lease can be transferred with no target apply in the journal and no preflight |
| `HandoffRuns.TransferWithForeignPreflight` | crates/devrelay-core/src/storage.rs:424-436 | From every such state the lease can also be transferred with a preflight for another snapshot of the project that has no sidecars, while those of the snapshot handed over are in no store |
| `HandoffRuns.WrapIsReachable` | crates/devrelay-core/src/storage.rs:2555-2580 | Two devices that hand a lease back and forth reach the wrap of the epoch, after which no run moves the lease again |
| `HandoffGuarantees.RefusalIsAtomic` | crates/devrelay-core/src/storage.rs:2506-2618 | A refused call changes the tables exactly in three cases, each known before the call: the settlement of a ready handoff that is expired or whose source moved on, a local store that passes but cannot remove its source refs, and a prune whose first decision passes |
| `HandoffGuarantees.AbortIsJournaledExactly` | crates/devrelay-core/src/storage.rs:2529-2550 | A call that aborts an open handoff leaves an aborted entry in its journal exactly if it reports no error, that is for an abort and for the recovery of an expired handoff; a rejected commit leaves none |
| `HandoffGuarantees.RecoveryIsIdempotent` | crates/devrelay-core/src/storage.rs:2620-2643 | Recovering twice is recovering once |
| `HandoffGuarantees.ExpiredRecoveryFreesLease` | docs/data-loss-safety.md:58-60 | Recovery of an expired handoff returns the lease, active, to the previous writer with epoch and latest snapshot unchanged, and that writer can begin again |
| `HandoffGuarantees.CommitRaisesEpochExactly` | crates/devrelay-core/src/storage.rs:2555-2580 | A commit raises the epoch readers see exactly when it is below the signed 64-bit maximum; at the maximum the stored column wraps and reads as zero |
| `HandoffGuarantees.WrappedLeaseNeverTransfers` | crates/devrelay-core/src/storage.rs:2506-2618 | After that wrap no handoff of the lease can ever commit, in any run that does not overwrite its row |
| `HandoffGuarantees.EpochMonotonicExactly` | docs/data-loss-safety.md:21-21 | Over every run the epoch decreases exactly when more calls commit a handoff of the lease than its epoch is away from the signed maximum at the start; an unchanged epoch means an unchanged writer |
| `HandoffGuarantees.ShortRunsKeepEpoch` | docs/data-loss-safety.md:21-21 | So no run with fewer calls than that lowers it |
| `Debounce.AdaptiveDebouncer.ObserveChange` | crates/devrelay-core/src/debounce.rs:88-100 | A change without paths is ignored; otherwise the paths join the pending set, the first-dirty time is kept and the generation is the maximum |
| `Debounce.AdaptiveDebouncer.RecordCheckpointCompleted` | crates/devrelay-core/src/debounce.rs:102-119 | The completed generation joins the unpublished one by maximum, and the publish timers start or move |
| `Debounce.AdaptiveDebouncer.TakeDueCheckpoint` | crates/devrelay-core/src/debounce.rs:153-181 | Takes a checkpoint exactly when work is pending and the dirty bound is reached or the quiet window and the minimum interval have passed |
| `Debounce.AdaptiveDebouncer.TakeDuePublish` | crates/devrelay-core/src/debounce.rs:183-201 | Takes a publish exactly when a generation is unpublished and its interval or quiet window has passed |
| `Debounce.AdaptiveDebouncer.TakeCheckpoint` | crates/devrelay-core/src/debounce.rs:203-225 | Hands over the pending paths in order and clears the dirty timers |
| `Debounce.AdaptiveDebouncer.TakePublish` | crates/devrelay-core/src/debounce.rs:227-244 | Hands over the unpublished generation and clears the publish timers |
| `Debounce.AdaptiveDebouncer.DrainDue` | crates/devrelay-core/src/debounce.rs:121-133 | Serves every workspace in order, each as it would be served alone |
| `Debounce.AdaptiveDebouncer.FlushAll` | crates/devrelay-core/src/debounce.rs:135-147 | Flushes every workspace in order, each as it would be flushed alone |
| `Debounce.AdaptiveDebouncer.FlushForSleepOrLock` | crates/devrelay-core/src/debounce.rs:149-151 | A flush with the sleep-or-lock reason |
| `DebounceHistory.CheckpointCarriesWhatWasObserved` | crates/devrelay-core/src/debounce.rs:88-225 | Over every run each checkpoint carries exactly the sorted, duplicate-free paths observed since the previous one and the largest generation ever observed |
| `DebounceHistory.NoPathIsLost` | crates/devrelay-core/src/debounce.rs:88-225 | An observed path stays pending until a checkpoint carries it |
| `DebounceHistory.PublishCarriesWhatWasCompleted` | crates/devrelay-core/src/debounce.rs:102-244 | Each publish carries the largest generation completed since the previous one, and a step publishes exactly if something was completed since and it is a flush, or a drain the maximum interval after the first or the quiet window after the last of those completions |
| `DebounceHistory.DrainedCheckpointKeepsDistance` | crates/devrelay-core/src/debounce.rs:153-225 | A drained checkpoint comes at least the smaller of the two intervals after any earlier checkpoint, whatever flushes come between |
| `DebounceHistory.CheckpointRateBound` | crates/devrelay-core/src/debounce.rs:153-225 | k checkpoints drained within a span L satisfy (k - 1) times the smaller interval <= L |
| `DebounceHistory.PendingIsYoung` | crates/devrelay-core/src/debounce.rs:121-181 | After a drain at T every still pending path was observed less than the dirty bound before T |
| `DebounceHistory.BoundedStaleness` | crates/devrelay-core/src/debounce.rs:121-181 | If drains are at most d apart, no path is pending for the dirty bound plus d |
| `DebounceHistory.UnpublishedIsYoung` | crates/devrelay-core/src/debounce.rs:121-201 | The same bound for unpublished generations |
| `DebounceHistory.TimersRunExactlyWithWork` | crates/devrelay-core/src/debounce.rs:88-244 | In every reachable state the optional timestamps are set exactly when there is work, so nothing is stuck |
| `DebounceProduct.ProductState` | crates/devrelay-core/src/debounce.rs:72-151 | The debouncer over many workspaces is the product of independent single-workspace ones: states |
| `DebounceProduct.ProductEmissions` | crates/devrelay-core/src/debounce.rs:121-147 | The same for what a drain or flush emits, workspace by workspace |
| `DebounceProduct.DrainIsInWorkspaceOrder` | crates/devrelay-core/src/debounce.rs:121-133 | A drain emits its checkpoints in strictly ascending workspace order |
| `Protection.BackgroundCheckpointManager.MarkDirty` | crates/devrelay-core/src/background_checkpoint.rs:109-135 | Marks the workspace dirty and keeps the largest observed generation and the failure count |
| `Protection.BackgroundCheckpointManager.HandleCheckpoint` | crates/devrelay-core/src/background_checkpoint.rs:146-214 | Records the outcome of a checkpoint; a checkpoint of another workspace counts as a failure |
| `Protection.BackgroundCheckpointManager.RecordSuccess` | crates/devrelay-core/src/background_checkpoint.rs:279-301 | Clears the dirty flag and the failures and stores the generation, without comparing it |
| `Protection.BackgroundCheckpointManager.RecordFailure` | crates/devrelay-core/src/background_checkpoint.rs:303-344 | Stays dirty and counts the failure, saturating |
| `Protection.PipelineStatus` | crates/devrelay-core/src/background_checkpoint.rs:109-344 | Over every run wired as shown in the tests: dirty exactly when a change was noticed or a checkpoint failed since the last success; the failure count is the capped number of failures since then; the stored generation is the largest one observed before that success |
| `Protection.NotDirtyMeansCovered` | crates/devrelay-core/src/background_checkpoint.rs:279-301 | Not dirty means the stored generation is the largest generation ever observed with paths (or nothing was ever noticed) |
| `Protection.FailureWaitsForChange` | crates/devrelay-core/src/background_checkpoint.rs:303-344 | After a failed checkpoint the work stays unprotected: nothing is pending and no checkpoint is taken until another change is observed |
| `Protection.FailureVisibleExactlyAtThreshold` | crates/devrelay-core/src/background_checkpoint.rs:303-344 | A failure event is visible to the user exactly when the failures since the last success reach the threshold |
| `LateHandling.LateHandlingHidesWork` | crates/devrelay-core/src/background_checkpoint.rs:279-301 | Over every run in which taken checkpoints wait and are handled at any later time: paths are pending while the manager says clean exactly if some success has neither a change nor a failure after it and a change with paths lies between the last take and that success |
| `LateHandling.PromptHidesNothing` | crates/devrelay-core/src/background_checkpoint.rs:279-301 | If no checkpoint waits when a change is noticed, nothing is ever hidden |
| `LateHandling.UnfoldedStates` | crates/devrelay-core/src/background_checkpoint.rs:453-464 | The pipeline as wired in the tests is such a run: it goes through the same states with nothing waiting |
| `LateHandling.PendingMeansDirty` | crates/devrelay-core/src/background_checkpoint.rs:453-464 | So in that pipeline pending paths imply that the manager says dirty |
| `LateHandling.HiddenWorkExists` | crates/devrelay-core/src/background_checkpoint.rs:290-297 | Hidden work exists for all generations: take, change, then a success clears the dirty flag while a path is pending |
| `LateHandling.StoredFallsExactly` | crates/devrelay-core/src/background_checkpoint.rs:279-301 | Over every run the stored generation falls at a success exactly if it handles a checkpoint of a smaller generation that the last success before it had passed over |
| `LateHandling.InOrderNeverFalls` | crates/devrelay-core/src/background_checkpoint.rs:279-301 | If checkpoints are handled in the order they were taken it never falls |
| `Protection.EmptyChangeIsNotCovered` | crates/devrelay-core/src/background_checkpoint.rs:109-135 | A change without paths marks a generation dirty that the debouncer ignores: a later checkpoint clears dirty below it |
| `Protection.CleanCoversEverythingExactly` | crates/devrelay-core/src/background_checkpoint.rs:109-344 | Not dirty covers every generation marked exactly when the largest one came with paths |
| `CrashJournal.Journal.AppendRecord` | crates/devrelay-core/src/crash_journal.rs:398-423 | Appends one record with the next number; the two fault points fail before the write or after it |
| `CrashJournal.Journal.NextSequenceNumber` | crates/devrelay-core/src/crash_journal.rs:425-431 | One above the largest number in the file, saturating; 1 for an empty file |
| `CrashJournal.Journal.Records` | crates/devrelay-core/src/crash_journal.rs:433-457 | The file's records in number order |
| `CrashJournal.Journal.GroupByOperation` | crates/devrelay-core/src/crash_journal.rs:337-345 | Groups the records by operation, each group in reading order |
| `CrashJournal.Journal.Replay` | crates/devrelay-core/src/crash_journal.rs:337-360 | The replay of the file as it stands |
| `CrashJournal.Journal.CleanupCompleted` | crates/devrelay-core/src/crash_journal.rs:362-376 | Rewrites the file to the unfinished operations and returns the number of records dropped; a process that dies after k file operations leaves the journal as it was or replaced |
| `CrashJournal.Journal.Retain` | crates/devrelay-core/src/crash_journal.rs:364-373 | The loop over the replayed operations keeps the unfinished ones and counts the rest |
| `CrashJournal.Journal.RewriteRecords` | crates/devrelay-core/src/crash_journal.rs:459-478 | Truncates the temporary file, writes the records one by one and renames it over the journal; cut off after k of these operations the files are those of the first k, and the journal is untouched unless all were done |
| `CrashJournal.SortAscending` | crates/devrelay-core/src/crash_journal.rs:433-457 | Reading sorts by number and keeps every record |
| `CrashJournal.SortOwn` | crates/devrelay-core/src/crash_journal.rs:433-457 | Sorting the whole file and then picking an operation is picking and then sorting |
| `JournalHistory.ReplayRefinesHistory` | crates/devrelay-core/src/crash_journal.rs:337-478 | After any mix of appends, faulted appends, cleanups and cleanups that crash after any file operation, replay gives for each operation exactly the records written since a completed cleanup last removed it, in the order they were written, even with saturated numbers |
| `JournalHistory.FileRepresentsWritten` | crates/devrelay-core/src/crash_journal.rs:398-478 | The file holds, for each operation, exactly its written history, although cleanup reorders the file |
| `JournalHistory.NumbersAreDistinct` | crates/devrelay-core/src/crash_journal.rs:425-431 | Below saturation the numbers in the file are pairwise distinct, in runs with crashes too |
| `JournalHistory.CleanupRemovesExactlyFinished` | crates/devrelay-core/src/crash_journal.rs:362-376 | Cleanup drops exactly the operations whose latest phase is terminal, returns their record count and leaves every other replay alone |
| `JournalHistory.CleanupIsIdempotent` | crates/devrelay-core/src/crash_journal.rs:362-376 | A second cleanup leaves the file as it is, record by record, and removes nothing |
| `JournalHistory.RewriteStages` | crates/devrelay-core/src/crash_journal.rs:459-478 | What the files hold after the first k operations of a rewrite, whatever an earlier crash left in the temporary file |
| `JournalHistory.CrashLeavesOldOrNewReplay` | crates/devrelay-core/src/crash_journal.rs:459-478 | A cleanup of a run that crashes leaves a journal that replays as before or, exactly if the rename was done, as after the cleanup |
| `JournalHistory.CleanupAfterCrash` | crates/devrelay-core/src/crash_journal.rs:362-376 | The next cleanup makes a crash good: it leaves the same files as if there had been none |
| `Cas.ChunkFileInjective` | crates/devrelay-core/src/cas.rs:322-327 | Different hashes have different chunk files |
| `Cas.CalculateManifestId` | crates/devrelay-core/src/cas.rs:369-378 | The id is the hash of the domain text and the fixed-width entries |
| `Cas.Validate` | crates/devrelay-core/src/cas.rs:102-135 | Accepts exactly schema 1 with the content-derived id, offsets that are saturating prefix sums and a matching total; otherwise the first failing check is reported |
| `Cas.CreatedAccepted` | crates/devrelay-core/src/cas.rs:228-250 | What create_manifest builds passes its own validation |
| `Cas.CasStore.UploadChunk` | crates/devrelay-core/src/cas.rs:156-205 | Stores bytes only under their own hash and never over an existing file; succeeds exactly when the chunk verifies afterwards |
| `Cas.CasStore.DownloadChunk` | crates/devrelay-core/src/cas.rs:207-218 | Returns bytes only if they hash to what was asked |
| `Cas.CasStore.MissingChunks` | crates/devrelay-core/src/cas.rs:220-226 | Lists, in order, the hashes that do not verify |
| `Cas.CasStore.CreateManifest` | crates/devrelay-core/src/cas.rs:228-250 | Builds the manifest from the stored chunks and writes it under its id, or fails without a change |
| `Cas.CasStore.FetchManifest` | crates/devrelay-core/src/cas.rs:252-264 | Returns only an accepted manifest with the id asked for |
| `Cas.CasStore.AddReachabilityRoot` | crates/devrelay-core/src/cas.rs:266-280 | Writes a root only for a safe name and a manifest that fetches |
| `Cas.CasStore.FetchReachabilityRoot` | crates/devrelay-core/src/cas.rs:282-289 | Returns the stored root when its fields are valid |
| `Cas.CasStore.RemoveReachabilityRoot` | crates/devrelay-core/src/cas.rs:291-299 | Removes the root; reports whether there was one |
| `CasClosure.PreimageInjective` | crates/devrelay-core/src/cas.rs:369-378 | The hashed bytes determine the chunk list |
| `CasClosure.IdDeterminesManifest` | crates/devrelay-core/src/cas.rs:369-378 | Accepted manifests with one id whose inputs do not collide agree in everything but creation time |
| `CasClosure.TilesExactly` | crates/devrelay-core/src/cas.rs:102-135 | An accepted manifest tiles its range exactly when its sizes add up within a u64 |
| `CasClosure.DownloadsFillManifest` | crates/devrelay-core/src/cas.rs:228-250 | Downloads in order give exactly total_bytes bytes, each chunk at its offset |
| `CasClosure.RunKeepsClosed` | crates/devrelay-core/src/cas.rs:156-299 | Over every API run: chunks lie under their own hash, manifests are accepted and backed by chunks of the recorded sizes, roots name manifests; stored chunks never change |
| `CasClosure.RootsAreReadable` | crates/devrelay-core/src/cas.rs:266-289 | From the empty store, every root leads to a manifest that fetches and whose chunks all download |
| `CasClosure.CreateThenFetch` | crates/devrelay-core/src/cas.rs:228-264 | A created manifest fetches back and lists the hashes asked for in order |
| `CasClosure.PinnedContentIsStable` | crates/devrelay-core/src/cas.rs:266-299 | The contents behind a root stay the same, byte for byte, over every run that leaves the root alone and creates no colliding manifest |
| `CasClosure.MissingIsAbsent` | crates/devrelay-core/src/cas.rs:220-226 | In a closed store the missing chunks are exactly the absent ones, in order |
| `CasClosure.CreatesExactly` | crates/devrelay-core/src/cas.rs:228-250 | A manifest can be created exactly when every chunk it names verifies |
| `CasClosure.UploadingMissingSufficesExactly` | crates/devrelay-core/src/cas.rs:156-226 | After uploading what missing_chunks asks for, the manifest can be created exactly when no named chunk has a corrupt file |
| `CasClosure.UploadingMissingSuffices` | crates/devrelay-core/src/cas.rs:156-250 | In a closed store uploading the missing chunks always suffices |
| `AnchorStore.SnapshotAnchor.PublishSnapshotCanonicalWithData` | crates/devrelay-core/src/snapshot_upload.rs:66-106 | Marks the upload pending, imports the refs, copies the sidecars, verifies, publishes and removes the marker, with each fault in between; a snapshot it stores has its refs, its roots and every chunk |
| `AnchorStore.SnapshotAnchor.UploadData` | crates/devrelay-core/src/snapshot_upload.rs:79-99 | Refs, sidecars and the check of both, up to the first failure or fault; the metadata may follow exactly if all of it passed |
| `AnchorStore.CopySidecarsTo` | crates/devrelay-core/src/snapshot_upload.rs:220-280 | The loops over sidecars and chunks: each chunk checked and uploaded, the manifest created with the same id, its root added; a failed check or a full disk leaves what was written before |
| `AnchorStore.SnapshotAnchor.CleanupPendingSnapshotUpload` | crates/devrelay-core/src/snapshot_upload.rs:174-209 | Deletes both refs, the roots and the marker of a pending upload; it does nothing without a marker and does not ask whether the snapshot is stored |
| `SnapshotUpload.RootIdInjective` | crates/devrelay-core/src/snapshot_upload.rs:363-365 | Different snapshots and positions have different root names |
| `SnapshotUpload.RootIdIsSafe` | crates/devrelay-core/src/snapshot_upload.rs:363-365 | The store accepts every such name |
| `UploadRuns.PublishedHasItsData` | crates/devrelay-core/src/snapshot_upload.rs:66-106 | Metadata never comes before its data: whatever fault is injected and wherever the process dies, a publish that stored the snapshot has left its refs, a root for each manifest and every chunk |
| `UploadRuns.UploadLosesExactly` | crates/devrelay-core/src/snapshot_upload.rs:220-280 | An upload takes something from a snapshot whose refs and roots are there exactly if it has the same id and gets as far as naming another manifest for one of its roots |
| `UploadRuns.CleanupLosesExactly` | crates/devrelay-core/src/snapshot_upload.rs:174-209 | A cleanup does exactly if it is of that snapshot, its marker is there and at least one write is made |
| `UploadRuns.MarkerAfter` | crates/devrelay-core/src/snapshot_upload.rs:108-143 | Event by event: the marker is there afterwards exactly if an upload left it, or it was there and no completed upload or cleanup took it |
| `UploadRuns.PendingExactly` | crates/devrelay-core/src/snapshot_upload.rs:66-143 | Over every run the marker is there exactly if the last upload that marked the snapshot stopped before it removed the marker, and no completed upload or cleanup followed |
| `UploadRuns.RetainedThroughoutExactly` | crates/devrelay-core/src/snapshot_upload.rs:66-209 | Over every run with processes that die anywhere, the refs and roots of a snapshot stay exactly if no cleanup of it follows an upload that left the marker, and no upload of the same id names other manifests |
| `UploadRuns.CleanupAfterPublishExactly` | crates/devrelay-core/src/snapshot_upload.rs:101-104 | A cleanup after the publish that made a snapshot the latest takes the refs of that latest exactly if the process died before it removed the marker |
| `UploadRuns.StoppedReuploadLosesStored` | crates/devrelay-core/src/snapshot_upload.rs:66-78 | A repeated upload of a stored snapshot that stops before its end makes the next cleanup take the refs of the stored snapshot |
| `UploadRuns.RunKeepsStoreClosed` | crates/devrelay-core/src/snapshot_upload.rs:220-280 | The anchor's store stays closed over every such run |
| `UploadRetry.RetryCompletes` | crates/devrelay-core/src/snapshot_upload.rs:66-106 | Wherever a first attempt stopped: if the upload would complete without it, repeating it completes and leaves the metadata, refs and markers it would have left without a first attempt, with all data there |
| `UploadRetry.WritesAgain` | crates/devrelay-core/src/snapshot_upload.rs:66-106 | The second attempt makes the very writes a first one would have made |
| `Crc.Crc32` | apps/desktop/src-tauri/build.rs:265-278 | The loop computes the register fold of the checksum |
| `Crc.BitStepLinear` | apps/desktop/src-tauri/build.rs:269-275 | The bit step is linear over xor |
| `Crc.BitStepInjective` | apps/desktop/src-tauri/build.rs:269-275 | Equal results of a bit step have equal inputs |
| `Crc.BitStepReaches` | apps/desktop/src-tauri/build.rs:269-275 | Every register is reached: the bit step is a bijection with a known inverse |
| `Crc.RunInjective` | apps/desktop/src-tauri/build.rs:265-278 | For fixed data the register map is injective |
| `Crc.ChecksumOfSum` | apps/desktop/src-tauri/build.rs:265-278 | For equal lengths crc(a) ^ crc(b) ^ crc(c) = crc(a ^ b ^ c) |
| `Crc.TableForm` | apps/desktop/src-tauri/build.rs:265-278 | The eight bit steps of a byte equal the table-driven form of section 3.4 of RFC 2083 |
| `Crc.FourBytes` | apps/desktop/src-tauri/build.rs:265-278 | Four bytes act as one word mixed into the register before four byte steps |
| `Crc.BurstIsDetected` | apps/desktop/src-tauri/build.rs:265-278 | Messages that differ only within four consecutive bytes never share a checksum |
| `Zlib.Adler32` | apps/desktop/src-tauri/build.rs:280-288 | The sums never leave a u32 and the result is the weighted closed form of section 8.2 of RFC 1950 for every length |
| `Zlib.ZlibStore` | apps/desktop/src-tauri/build.rs:238-253 | The loop writes the header, the stored blocks (only the last one final) and the checksum |
| `Zlib.StoredRoundTripExactly` | apps/desktop/src-tauri/build.rs:238-253 | A decoder per section 2.2 of RFC 1950 and section 3.2.4 of RFC 1951 recovers exactly the data if and only if there is data; for empty data no block is written |
| `Zlib.InflateBlocks` | apps/desktop/src-tauri/build.rs:240-250 | The block sequence decodes to the data with the first final block being the last one, for every length including multiples of 65535 |
| `Png.PushChunk` | apps/desktop/src-tauri/build.rs:255-263 | Appends length, type, data and the checksum over type and data |
| `Png.ChunkRoundTripExactly` | apps/desktop/src-tauri/build.rs:255-263 | A chunk reads back exactly when its length fits 32 bits |
| `Png.DamagedChunkIsRejected` | apps/desktop/src-tauri/build.rs:255-263 | Damage within four consecutive bytes of type and data makes a reader reject the chunk |
| `Png.RenderIconPng` | apps/desktop/src-tauri/build.rs:71-91 | Signature, header, one data chunk with the filtered rows, end chunk |
| `Png.ImageRoundTripExactly` | apps/desktop/src-tauri/build.rs:71-91 | A reader recovers dimensions and rows exactly when there are rows |
| `Png.RenderIconIcns` | apps/desktop/src-tauri/build.rs:93-113 | The precomputed total equals the bytes written, entry by entry |
| `Png.IcnsRoundTrip` | apps/desktop/src-tauri/build.rs:93-113 | The container reads back as its entries |
| `SnapshotRefs.JoinOfSplit` | crates/devrelay-core/src/anchor_snapshot.rs:395-404 | Splitting at slashes loses nothing |
| `SnapshotRefs.ParseExactly` | crates/devrelay-core/src/anchor_snapshot.rs:388-404 | The parser returns an id and a kind exactly for the formatted ref of a non-empty, slash-free id and a slash-free kind |
| `SnapshotRefs.ParsersAgree` | crates/devrelay-core/src/data_plane.rs:119-147 | validate_snapshot_ref accepts exactly what validate_refname accepts and the other parser reads as index or work |
| `SnapshotRefs.SnapshotRefValidExactly` | crates/devrelay-core/src/data_plane.rs:308-335 | The accepted refs are exactly the index and work refs of ids without forbidden characters, leading dot or double dot; an id ending in .lock is accepted |
| `SnapshotRefs.NoOrphanExactly` | crates/devrelay-core/src/anchor_snapshot.rs:206-234 | A ref is no orphan exactly when it is the index or work ref of a plain known id |
| `SnapshotRefs.NoMissingExactly` | crates/devrelay-core/src/anchor_snapshot.rs:236-253 | Nothing is missing exactly when both refs of every known id are there |
| `SnapshotRefs.GuardIsSetEquality` | crates/devrelay-core/src/anchor_snapshot.rs:267-281 | Both lists are empty exactly when all known ids are plain and the snapshot refs present are the index and work refs of the known ids |
| `SnapshotRefs.AnchorRepo.ListSnapshotRefs` | crates/devrelay-core/src/anchor_snapshot.rs:349-359 | Lists exactly the refs in the snapshot namespace |
| `SnapshotRefs.AnchorRepo.ScanOrphanSnapshotRefs` | crates/devrelay-core/src/anchor_snapshot.rs:206-234 | The filter over the listed refs, in order |
| `SnapshotRefs.AnchorRepo.MissingRefsOfKnown` | crates/devrelay-core/src/anchor_snapshot.rs:236-253 | The loop over known ids and their two refs, in order |
| `SnapshotRefs.AnchorRepo.RunGuardedGc` | crates/devrelay-core/src/anchor_snapshot.rs:267-294 | Collection runs exactly when the refs are the expected ones and the repository is sound and within quota; refs are never touched |
| `BackupTree.WalkStep` | crates/devrelay-core/src/backup_anchor.rs:467-487 | Visiting the directory on top of the stack keeps the walk's invariant: no directory twice, found files are those of the visited directories |
| `BackupTree.OverlayTwice` | crates/devrelay-core/src/backup_anchor.rs:432-455 | Copying one part of a tree and then another is copying both |
| `BackupTree.ClearChild` | crates/devrelay-core/src/backup_anchor.rs:432-455 | What has been copied does not get in the way of the next subdirectory |
| `BackupFiles.FileSystem.SortedFilesRecursive` | crates/devrelay-core/src/backup_anchor.rs:467-487 | The walk terminates on every finite tree and lists each file under the root exactly once in path order |
| `BackupFiles.FileSystem.DirectoryStats` | crates/devrelay-core/src/backup_anchor.rs:457-465 | Counts the files under the root and adds up their lengths |
| `BackupFiles.FileSystem.CopyDirectoryRecursive` | crates/devrelay-core/src/backup_anchor.rs:432-455 | Afterwards the target holds the source's files and directories over what it held; the counters are those of the files copied |
| `BackupFiles.FileSystem.HashDirectory` | crates/devrelay-core/src/backup_anchor.rs:489-501 | The digest of the relative paths and content hashes in order |
| `BackupFiles.FileSystem.ReplicateCas` | crates/devrelay-core/src/backup_anchor.rs:152-156 | Copying into an empty target and digesting the copy gives the digest and count of the source |
| `BackupFiles.FileSystem.VerifyCas` | crates/devrelay-core/src/backup_anchor.rs:254-265 | Verification accepts exactly when digest and file count match |
| `BackupDigest.CopyPutsSourceOver` | crates/devrelay-core/src/backup_anchor.rs:432-455 | The files at the target afterwards are those before, overridden by the source's |
| `BackupDigest.CopyEqualsSource` | crates/devrelay-core/src/backup_anchor.rs:432-455 | Copying into an empty target gives an equal tree, files and directories |
| `BackupDigest.CopyTouchesTargetOnly` | crates/devrelay-core/src/backup_anchor.rs:432-455 | Nothing outside the target changes but the directories leading to it |
| `BackupDigest.CopyCountsMatchStats` | crates/devrelay-core/src/backup_anchor.rs:432-465 | The returned counts are those directory_stats finds at the target |
| `BackupDigest.CopyKeepsWellFormed` | crates/devrelay-core/src/backup_anchor.rs:432-455 | The copy leaves every entry in a directory and no file that is one |
| `BackupDigest.RelativeListing` | crates/devrelay-core/src/backup_anchor.rs:489-501 | Stripping the root from the sorted paths gives the sorted relative paths |
| `BackupDigest.TextDeterminesFiles` | crates/devrelay-core/src/backup_anchor.rs:489-501 | Text and file count determine paths and contents as soon as one of the two trees has no name that holds a colon, 64 hex digits and a newline |
| `BackupDigest.SharedTextHasNoMoreFiles` | crates/devrelay-core/src/backup_anchor.rs:489-501 | A tree without such a name never shares its text with a tree of more files |
| `BackupDigest.HarmlessTextDeterminesFiles` | crates/devrelay-core/src/backup_anchor.rs:489-501 | Among trees without such names the text alone determines the files |
| `BackupDigest.VerificationAcceptsExactly` | crates/devrelay-core/src/backup_anchor.rs:254-265 | If no replicated name holds such a marker and hashes do not collide on the two trees, verification accepts exactly the files that were copied, whatever is found |
| `BackupDigest.MarkerNamesCollide` | crates/devrelay-core/src/backup_anchor.rs:489-501 | The other direction: if a name holds a marker with the hash of some content, shifting the line end there gives another tree with the same digest and count, provided the two new names sort where the old ones did |
| `BackupDigest.NewlineNamesCollide` | crates/devrelay-core/src/backup_anchor.rs:489-501 | Such trees of two files exist for all contents and all names in the right order |
| `EventLog.AgentEventLog.Publish` | crates/devrelay-agent/src/main.rs:322-340 | Consumes a number, fails for an unbuildable payload after consuming it, else logs and sends the event |
| `EventLog.AgentEventLog.RetainSubscribers` | crates/devrelay-agent/src/main.rs:335-338 | Sends to each connected subscriber once and keeps exactly those |
| `EventLog.AgentEventLog.Subscribe` | crates/devrelay-agent/src/main.rs:342-373 | Replays the events after the cursor and registers a channel in one step |
| `EventLog.AgentEventLog.Disconnect` | crates/devrelay-agent/src/main.rs:1291-1318 | A closed connection drops its receiver |
| `EventLog.RunKeepsInv` | crates/devrelay-agent/src/main.rs:322-373 | In every run logged numbers rise strictly below the next one, and the senders held name distinct channels, every connected one among them |
| `EventLog.SequencesRise` | crates/devrelay-agent/src/main.rs:322-340 | From the empty log the logged numbers rise strictly |
| `EventLog.DeliveryExactly` | crates/devrelay-agent/src/main.rs:342-364 | Replay and channel together are the events after the cursor exactly when every event sent live lies after the cursor |
| `EventLog.CursorGuardExactly` | crates/devrelay-agent/src/main.rs:342-364 | In every run what a subscriber has got is the head of the events after its cursor, and while it is connected all of them, if and only if the cursor is not ahead of the log (or no number is left) |
| `EventLog.HolesAreFailures` | crates/devrelay-agent/src/main.rs:327-334 | Every number below the next one is logged or was consumed by a failed payload, never both |
| `EventLog.GapReportedExactly` | crates/devrelay-core/src/events.rs:157-186 | A client's gap detector reports a gap exactly when a number between its cursor and the last event was consumed by a failed payload |
| `Frames.FrameRoundTrip` | crates/devrelay-core/src/ipc.rs:80-127 | A written message reads back, whatever follows it |
| `Frames.StreamRoundTrip` | crates/devrelay-core/src/ipc.rs:80-127 | A stream of messages reads back message by message |
| `Frames.SettlesAtMostOnce` | apps/vscode-extension/src/agentClient.ts:91-105 | The decoder settles at most once, the timer never fires after it, and a timer that fired before stays first |
| `Frames.FragmentationIsIrrelevant` | apps/vscode-extension/src/agentClient.ts:110-129 | However the stream is cut, the outcome is a function of its bytes |
| `Frames.ResponseDelivered` | apps/vscode-extension/src/agentClient.ts:110-141 | A response within the limit is handed over byte for byte, exactly from the first piece on that completes it |
| `Frames.OutcomeIsFinal` | apps/vscode-extension/src/agentClient.ts:99-105 | Whatever arrives afterwards, the promise keeps its outcome |
| `Frames.DecodersAgree` | apps/vscode-extension/src/agentClient.ts:110-129 | The client's decoder and the agent's reader agree on every stream: payload, refusal, or incomplete |
| `Frames.Exchange.HandleData` | apps/vscode-extension/src/agentClient.ts:110-129 | The data handler is the specification step |
| `Frames.Exchange.SettleWith` | apps/vscode-extension/src/agentClient.ts:99-105 | Only the first settlement counts |
| `Frames.Exchange.HandleTimeout` | apps/vscode-extension/src/agentClient.ts:91-94 | The timer rejects once and does not mark the exchange settled |
| `Registry.LocalConfig.BackfillLegacyWorkspaces` | crates/devrelay-core/src/config.rs:696-717 | Every project without workspaces gets one at its own path; the others stay |
| `Registry.LocalConfig.EnsureWorkspaceNotRegistered` | crates/devrelay-cli/src/main.rs:4708-4729 | Passes exactly when no workspace and no empty project has the path |
| `Registry.LocalConfig.MergeProjectRegistryEntry` | crates/devrelay-cli/src/main.rs:4514-4535 | Workspaces are united, existing metadata wins, the project's own path stays |
| `Registry.LocalConfig.RegisterRecoveryWorkspace` | crates/devrelay-cli/src/main.rs:4910-4936 | Registers exactly when the path is free and the project known |
| `Registry.LocalConfig.FindWorkspaceIds` | crates/devrelay-cli/src/main.rs:4774-4792 | The two loops find the first workspace with the id, in project order, else the first at one of the paths |
| `Registry.LocalConfig.RemoveWorkspace` | crates/devrelay-cli/src/main.rs:4752-4792 | Removes the workspace the lookup finds and moves the project's path to the next workspace |
| `Registry.LocalConfig.UpdateStates` | crates/devrelay-cli/src/main.rs:4731-4750 | The loops over all workspaces set each state and report whether one changed |
| `RegistryRuns.GoodSurvivesSaveAndLoad` | crates/devrelay-core/src/config.rs:516-532 | Saving a good configuration succeeds and loading it gives it back |
| `RegistryRuns.LoadIsIdempotent` | crates/devrelay-core/src/config.rs:696-717 | Loading twice is loading once |
| `RegistryRuns.LookupIsOrderIndependent` | crates/devrelay-core/src/config.rs:721-732 | In a good configuration a path lookup does not depend on iteration order |
| `RegistryRuns.InsertKeepsGoodExactly` | crates/devrelay-cli/src/main.rs:4910-4936 | A new workspace at a free path keeps the configuration good exactly when its own fields are valid |
| `RegistryRuns.AddKeepsGoodExactly` | crates/devrelay-cli/src/main.rs:3693-3715 | Adding a checkout at a free path keeps the configuration good exactly when its own fields are valid |
| `RegistryRuns.MergeKeepsPathOwnedExactly` | crates/devrelay-cli/src/main.rs:4514-4535 | Merging keeps the project's path owned exactly when it was owned or is the merged path: an empty project with another path breaks it, which loading prevents |
| `RegistryRuns.RemovalSticksExactly` | crates/devrelay-cli/src/main.rs:4752-4772 | After a removal and the next load the path is free exactly when the project had another workspace |
| `RegistryRuns.RemovalOfOnlyComesBack` | crates/devrelay-core/src/config.rs:696-717 | Removing the only workspace brings back one at the same path on the next load |
| `RegistryRuns.UpdateKeepsGood` | crates/devrelay-cli/src/main.rs:4938-4962 | Changing states keeps the configuration good |
| `RegistryRuns.RefreshIsExactAndIdempotent` | crates/devrelay-cli/src/main.rs:4731-4750 | A refresh marks exactly the workspaces whose path is gone as stale; a second one changes nothing |
| `RegistryRuns.CommandKeepsGood` | crates/devrelay-cli/src/main.rs:3693-3767 | One command (load, operate, save) keeps what is loaded next good |
| `RegistryRuns.RunKeepsGood` | crates/devrelay-cli/src/main.rs:3693-3767 | Over every run from a good file: one owner per path, keys are ids, each project's path is one of its workspaces' paths, validation accepts |
| `RegistryRuns.RequestKeepsGoodExactly` | crates/devrelay-agent/src/main.rs:3249-3388 | A request to the agent keeps memory good and equal to the file exactly when it is refused up front or brings valid fields |
| `RegistryRuns.RequestsKeepGood` | crates/devrelay-agent/src/main.rs:3249-3388 | Over every run of valid add, register and remove requests the agent's memory stays good and equal to its file |
| `RegistryRuns.MixedKeepsGood` | crates/devrelay-agent/src/main.rs:3249-3388 | Over every interleaving of commands and valid agent requests on one file, the agent's memory and what loading the file gives stay good |
| `RegistryRuns.AgentSeesOnlyItself` | crates/devrelay-agent/src/main.rs:3249-3388 | The agent's memory depends on its own requests alone, whatever commands ran in between |
| `RegistryRuns.AgentSaveDropsCommands` | crates/devrelay-agent/src/main.rs:3249-3388 | Lost updates: after any commands a valid request leaves what they wrote exactly if it is refused up front; otherwise the file is the same as if they had never run |

## Left out

- Git processes, SQLite, TLS, pairing, signatures, discovery and remote calls: a repository is a set of ref names, a table is a map, a transaction is one step.
- Torn writes, fsync and file-system errors: a file is its content, a line is written whole and a rename is atomic. `BackupFiles.FileSystem.CopyDirectoryRecursive` asks that no directory of one side meets a file of the other, which is when the source's calls succeed.
- TOML and JSON text: printing and parsing a record is taken as the identity. Non-registry fields of the configuration are not part of this model.
- Symbolic links, non-Unicode file names and concurrent changes of a tree that is being copied.
- Ref lookups in a repository are exact; the fallbacks of `git rev-parse` for short names are not part of this model.
- Threads: each step under a lock is atomic, and steps interleave in any order.
- Pixel shading of the icon: colours are a parameter.
- Resource policies, labels, redaction, diagnostics, rendering, the other command handlers: short reporting code without an invariant of its own.
- The projects, workspaces and devices tables, and foreign keys into them: the rows they need are taken to be there.
- HandoffSafety.OneWriterPerEpoch: for runs that do not overwrite the lease's own row, because an overwrite can set any holder and epoch; which overwrites keep the invariant is exact in `HandoffSafety.StepKeepsInv`.
- HandoffDatabase.SnapshotStore.PruneSnapshots: the size estimate it returns is not part of this model.
- Retention.PlanSnapshotPruning: the warnings, byte totals and reasons a plan carries besides its decisions are not part of this model; sums of sizes are taken not to exceed a u64.
- Sidecars.EnsureSidecarsAvailable: which paths may be written in the target's working tree, symbolic links included, is a parameter; writing the files out is left out.
- SnapshotUpload.UploadWrites: what `git fetch` brings, the object policy and the quota are parameters; a ref comes with its objects, and deleting a ref that is not there is no error. Writing the marker is one step, and the store a sidecar is copied from is a value that nobody changes meanwhile.
- HandoffDatabase.SnapshotStore.StoreSnapshot: importing objects and removing source refs are the fault points only.
- HandoffGuarantees.NoUnverifiedTransfer: that the source's work is checkpointed (step 1 of the policy) is the caller's business; the database compares the generation it is given.
- HandoffDatabase.MetadataDb.PublishSnapshotCanonical: the manifest and size columns of a snapshot row are not part of this model.
- CrashJournal.Journal.AppendRecord: the clock reading is a parameter and record details are one text field; a crash in the middle of the appended line, after which reading fails, is a torn write.
- LateHandling.LateHandlingHidesWork: one workspace; the agent's own loop over workspaces is not part of this model.
- Protection.BackgroundCheckpointManager.HandleCheckpoint: capturing and publishing the snapshot is an abstract outcome.
- SnapshotRefs.AnchorRepo.RunGuardedGc: the integrity check, the quota check and the collection itself are parameters and a counter.
- Registry.LocalConfig.RemoveWorkspace: ids are read from the map keys, which validation makes equal to the ids in the entries.
- Cas.CasStore.UploadChunk: the temporary file and the rename are one step.
- EventLog.AgentEventLog.Publish: whether the payload can be serialised is a parameter.
- Frames.Exchange.HandleData: decoding the JSON response is left out; the outcome is the payload handed to it.
- BackupDigest.MarkerNamesCollide: a marker whose digits are the hash of no content, or whose shifted names would sort elsewhere, is not shown to collide; that would need preimages.
