/**
 The single-writer lease and the handoff protocol kept in the metadata database.

 Each database operation is one transaction over the tables below. `Apply` gives, for
 every call, the tables after the transaction and the reply. The class `MetadataDb` in
 HandoffDatabase.dfy runs the same calls step by step; the theorems about whole runs are
 in HandoffSafety.dfy.
 */
module HandoffTables {
  import opened Common
  import opened Sidecars
  import Cas

  datatype LeaseState = Active | HandoffPending | Committing | Inactive | Forked | Archived {
    predicate CanTransitionTo(next: LeaseState) {
      match this
      case Active => next in {Active, HandoffPending, Committing, Inactive, Archived}
      case HandoffPending => next in {Active, HandoffPending, Committing, Archived}
      case Committing => next in {Active, Committing, Inactive}
      case Inactive => next in {Inactive, Forked, Archived}
      case Forked => next in {Forked, Archived}
      case Archived => next == Archived
    }
  }

  datatype HandoffState = TargetPrepare | TargetVerified | SourceReady | Committed | Aborted {
    predicate IsTerminal() {
      this == Committed || this == Aborted
    }
  }

  datatype Phase =
    | BeginPhase | TargetPreparePhase | TargetApplyPhase | TargetVerifiedPhase
    | SourceReadyPhase | LeaseCommittedPhase | AbortedPhase

  /** A row of `leases`. `epochColumn` is the signed integer SQLite holds. */
  datatype LeaseRow = LeaseRow(
    projectId: string,
    sessionId: string,
    state: LeaseState,
    epochColumn: i64,
    holder: Option<string>,
    latest: Option<string>,
    handoffId: Option<string>)
  {
    /** The epoch a reader of the row sees. */
    function Epoch(): u64 {
      FromI64(epochColumn)
    }
  }

  /** A row of `handoffs`; the two integer columns are signed as well. */
  datatype HandoffRow = HandoffRow(
    leaseId: string,
    projectId: string,
    expectedEpochColumn: i64,
    source: string,
    target: string,
    generation: string,
    expiresColumn: i64,
    state: HandoffState)
  {
    function ExpectedEpoch(): u64 {
      FromI64(expectedEpochColumn)
    }

    function ExpiresAt(): u64 {
      FromI64(expiresColumn)
    }
  }

  datatype JournalRow = JournalRow(handoffId: string, leaseId: string, phase: Phase)

  datatype SnapshotRow = SnapshotRow(
    snapshotId: string, projectId: string, sessionId: Option<string>, parent: Option<string>,
    sequence: nat, pinned: bool, sidecars: seq<Sidecar>)

  /** `snapshots` holds the rows in insertion order, `sessions` maps a session to its project,
      `revoked` is `device_revocations`. */
  datatype Tables = Tables(
    leases: map<string, LeaseRow>,
    handoffs: map<string, HandoffRow>,
    journal: seq<JournalRow>,
    snapshots: seq<SnapshotRow>,
    sessions: map<string, string>,
    revoked: set<string>)

  datatype SnapshotMetadata = SnapshotMetadata(
    snapshotId: string, projectId: string, sessionId: Option<string>, parent: Option<string>, valid: bool,
    sidecars: seq<Sidecar>)

  datatype PublishRequest = PublishRequest(
    leaseId: string, sessionId: string, expectedEpoch: u64, device: string,
    expectedLatest: Option<string>, metadata: SnapshotMetadata, pinned: bool)

  /** `freshSession` is the generated fork session id; `forkValid` the check of the rewritten metadata. */
  datatype ForkRequest = ForkRequest(
    leaseId: string, sessionId: string, device: string, metadata: SnapshotMetadata,
    freshSession: string, forkValid: bool)

  /** The snapshot a caller wants checked, the store to look in, and the paths that may be written. */
  datatype Preflight = Preflight(
    snapshot: SnapshotMetadata, b3: Cas.Blake3, store: Cas.Disk, safePaths: set<string>)

  /** `HandoffCommitSnapshotPreflight::verify`. */
  predicate PreflightPasses(p: Preflight, projectId: string) {
    && p.snapshot.projectId == projectId
    && AllSafe(p.safePaths, p.snapshot.sidecars)
    && AllAvailable(p.b3, p.store, p.snapshot.sidecars)
  }

  datatype StoreFault = AfterSnapshotObjectImport | DuringMetadataTransaction | AfterSourceIndexRefDelete

  /** A local checkpoint stored by the snapshot store of a project. */
  datatype StoreRequest = StoreRequest(
    storeProject: string, metadata: SnapshotMetadata, pinned: bool, fault: Option<StoreFault>)

  /** One call on the database. Clocks, generated ids and the injected fault are arguments. */
  datatype Call =
    | StoreLease(leaseId: string, row: LeaseRow)
    | BeginHandoff(leaseId: string, source: string, target: string, generation: string,
                   ttl: u64, freshId: string, now: u64)
    | RecordTargetApply(handoffId: string, detailIsJson: bool)
    | MarkTargetVerified(handoffId: string)
    | MarkSourceReady(handoffId: string)
    | AbortHandoff(handoffId: string)
    | CommitHandoff(handoffId: string, observed: string, now: u64, preflight: Option<Preflight>, fault: bool)
    | RecoverHandoff(handoffId: string, observed: string, now: u64, fault: bool)
    | Publish(publish: PublishRequest)
    | PublishFork(fork: ForkRequest)
    | RevokeDevice(device: string, byDevice: string, reason: string)
    | CreateSession(projectId: string, freshSession: string)
    | StoreLocal(store: StoreRequest)
    | Prune(projectId: string, ids: seq<string>)

  datatype Refusal =
    | UnknownLease | UnknownHandoff | UnknownSession | AlreadyPending | LeaseNotActive | NotHolder
    | DeviceRevoked | DuplicateKey | MissingParent | InvalidDetail | WrongState | CannotAbortCommitted
    | HandoffExpired | GenerationChanged | PreflightFailed | LostRace | InjectedFault
    | InvalidMetadata | SessionMismatch | ProjectMismatch | LeaseNotInactive | EmptyField
    | SourceRefsLeft | UnknownSnapshot | PinnedSnapshot | LatestSnapshot | HasChildren | StillReferenced

  datatype Recovery = WaitingForTarget | RecoveredCommit | AbortedExpired | AlreadyCommitted | AlreadyAborted

  datatype Reply =
    | Refused(why: Refusal)
    | LeaseStored
    | HandoffReply(handoffId: string, state: HandoffState)
    | Journaled
    | Recovered(outcome: Recovery)
    | Published(snapshotId: string)
    | StalePublish
    | ForkStored(sessionId: string, canonical: Option<string>)
    | DeviceRevocationStored
    | SessionStored(sessionId: string)
    | StoredLocally(snapshotId: string)
    | Pruned(count: nat)

  // ---------------------------------------------------------------- transactions

  /** `SELECT COALESCE(MAX(sequence_number), 0) ... WHERE project_id = ?`. */
  function MaxSequence(rows: seq<SnapshotRow>, projectId: string): nat {
    if rows == [] then 0
    else
      var rest := MaxSequence(rows[..|rows| - 1], projectId);
      var row := rows[|rows| - 1];
      if row.projectId == projectId && rest < row.sequence then row.sequence else rest
  }

  predicate HasSnapshot(rows: seq<SnapshotRow>, snapshotId: string) {
    exists row :: row in rows && row.snapshotId == snapshotId
  }

  /** The constraints an INSERT into `snapshots` meets: unique key, existing parent. */
  function InsertRefusal(rows: seq<SnapshotRow>, snapshotId: string, parent: Option<string>): Option<Refusal> {
    if HasSnapshot(rows, snapshotId) then Some(DuplicateKey)
    else if parent.Some? && parent.value != snapshotId && !HasSnapshot(rows, parent.value) then Some(MissingParent)
    else None
  }

  function Begin(t: Tables, leaseId: string, source: string, target: string, generation: string,
                 ttl: u64, freshId: string, now: u64): (Tables, Reply)
  {
    if leaseId !in t.leases then (t, Refused(UnknownLease))
    else
      var lease := t.leases[leaseId];
      if exists h :: h in t.handoffs && t.handoffs[h].leaseId == leaseId && !t.handoffs[h].state.IsTerminal()
      then (t, Refused(AlreadyPending))
      else if lease.state != Active then (t, Refused(LeaseNotActive))
      else if lease.holder != Some(source) then (t, Refused(NotHolder))
      else if source in t.revoked || target in t.revoked then (t, Refused(DeviceRevoked))
      else if freshId in t.handoffs then (t, Refused(DuplicateKey))
      else
        var expires := SaturatingAdd(now, if ttl < 1 then 1 else ttl);
        var row := HandoffRow(leaseId, lease.projectId, AsI64(lease.Epoch()), source, target, generation,
                              AsI64(expires), TargetPrepare);
        (t.(handoffs := t.handoffs[freshId := row],
            journal := t.journal + [JournalRow(freshId, leaseId, BeginPhase),
                                    JournalRow(freshId, leaseId, TargetPreparePhase)],
            leases := t.leases[leaseId := lease.(state := HandoffPending, handoffId := Some(freshId))]),
         HandoffReply(freshId, TargetPrepare))
  }

  function TargetApply(t: Tables, id: string, detailIsJson: bool): (Tables, Reply) {
    if !detailIsJson then (t, Refused(InvalidDetail))
    else if id !in t.handoffs then (t, Refused(UnknownHandoff))
    else if t.handoffs[id].state.IsTerminal() then (t, Refused(WrongState))
    else (t.(journal := t.journal + [JournalRow(id, t.handoffs[id].leaseId, TargetApplyPhase)]), Journaled)
  }

  /** `update_handoff_state`. */
  function Advance(t: Tables, id: string, expected: HandoffState, next: HandoffState, phase: Phase): (Tables, Reply) {
    if id !in t.handoffs then (t, Refused(UnknownHandoff))
    else if t.handoffs[id].state != expected then (t, Refused(WrongState))
    else (t.(handoffs := t.handoffs[id := t.handoffs[id].(state := next)],
             journal := t.journal + [JournalRow(id, t.handoffs[id].leaseId, phase)]),
          HandoffReply(id, next))
  }

  /** The two UPDATE statements every abort performs; the second matches only a lease that
      still names this handoff. */
  function Release(t: Tables, id: string): Tables
    requires id in t.handoffs
  {
    var leaseId := t.handoffs[id].leaseId;
    t.(handoffs := t.handoffs[id := t.handoffs[id].(state := Aborted)],
       leases := if leaseId in t.leases && t.leases[leaseId].handoffId == Some(id)
                 then t.leases[leaseId := t.leases[leaseId].(state := Active, handoffId := None)]
                 else t.leases)
  }

  function Abort(t: Tables, id: string): (Tables, Reply) {
    if id !in t.handoffs then (t, Refused(UnknownHandoff))
    else if t.handoffs[id].state == Committed then (t, Refused(CannotAbortCommitted))
    else if t.handoffs[id].state == Aborted then (t, HandoffReply(id, Aborted))
    else
      var released := Release(t, id);
      (released.(journal := t.journal + [JournalRow(id, t.handoffs[id].leaseId, AbortedPhase)]),
       HandoffReply(id, Aborted))
  }

  /** Whether the guarded UPDATE of the commit matches the lease row. */
  predicate CommitMatches(t: Tables, id: string)
    requires id in t.handoffs
  {
    var h := t.handoffs[id];
    h.leaseId in t.leases
    && t.leases[h.leaseId].epochColumn == AsI64(h.ExpectedEpoch())
    && t.leases[h.leaseId].handoffId == Some(id)
  }

  function Transfer(t: Tables, id: string): Tables
    requires id in t.handoffs && CommitMatches(t, id)
  {
    var h := t.handoffs[id];
    t.(leases := t.leases[h.leaseId := t.leases[h.leaseId].(
                                         state := Active,
                                         epochColumn := AsI64(SaturatingAdd(h.ExpectedEpoch(), 1)),
                                         holder := Some(h.target),
                                         handoffId := None)],
       handoffs := t.handoffs[id := h.(state := Committed)],
       journal := t.journal + [JournalRow(id, h.leaseId, LeaseCommittedPhase)])
  }

  function Commit(t: Tables, id: string, observed: string, now: u64, preflight: Option<Preflight>, fault: bool)
    : (Tables, Reply)
  {
    if id !in t.handoffs then (t, Refused(UnknownHandoff))
    else
      var h := t.handoffs[id];
      if h.state != SourceReady then (t, Refused(WrongState))
      else if now > h.ExpiresAt() then (Release(t, id), Refused(HandoffExpired))
      else if observed != h.generation then (Release(t, id), Refused(GenerationChanged))
      else if h.target in t.revoked then (t, Refused(DeviceRevoked))
      else if preflight.Some? && !PreflightPasses(preflight.value, h.projectId)
      then (t, Refused(PreflightFailed))
      else if !CommitMatches(t, id) then (t, Refused(LostRace))
      else if fault then (t, Refused(InjectedFault))
      else (Transfer(t, id), HandoffReply(id, Committed))
  }

  function Recover(t: Tables, id: string, observed: string, now: u64, fault: bool): (Tables, Reply) {
    if id !in t.handoffs then (t, Refused(UnknownHandoff))
    else
      var h := t.handoffs[id];
      if h.state == Committed then (t, Recovered(AlreadyCommitted))
      else if h.state == Aborted then (t, Recovered(AlreadyAborted))
      else if now > h.ExpiresAt() then (Abort(t, id).0, Recovered(AbortedExpired))
      else if h.state == SourceReady then
        var (after, reply) := Commit(t, id, observed, now, None, fault);
        (after, if reply.Refused? then reply else Recovered(RecoveredCommit))
      else (t, Recovered(WaitingForTarget))
  }

  /** The checks of `publish_snapshot_canonical` in the order the code makes them. */
  function PublishRefusal(t: Tables, r: PublishRequest): Option<Refusal> {
    if !r.metadata.valid then Some(InvalidMetadata)
    else if r.metadata.sessionId != Some(r.sessionId) then Some(SessionMismatch)
    else if r.leaseId !in t.leases then Some(UnknownLease)
    else if t.leases[r.leaseId].projectId != r.metadata.projectId then Some(ProjectMismatch)
    else if t.leases[r.leaseId].sessionId != r.sessionId then Some(SessionMismatch)
    else if r.sessionId !in t.sessions || t.sessions[r.sessionId] != r.metadata.projectId then Some(UnknownSession)
    else if t.leases[r.leaseId].holder != Some(r.device) then Some(NotHolder)
    else if r.device in t.revoked then Some(DeviceRevoked)
    else if t.leases[r.leaseId].state != Active then Some(LeaseNotActive)
    else InsertRefusal(t.snapshots, r.metadata.snapshotId, r.metadata.parent)
  }

  function PublishCanonical(t: Tables, r: PublishRequest): (Tables, Reply) {
    var refusal := PublishRefusal(t, r);
    if refusal.Some? then (t, Refused(refusal.value))
    else
      var lease := t.leases[r.leaseId];
      var row := SnapshotRow(r.metadata.snapshotId, r.metadata.projectId, Some(r.sessionId), r.metadata.parent,
                             MaxSequence(t.snapshots, r.metadata.projectId) + 1, r.pinned, r.metadata.sidecars);
      var stored := t.(snapshots := t.snapshots + [row]);
      if lease.Epoch() != r.expectedEpoch || lease.latest != r.expectedLatest then (stored, StalePublish)
      else (stored.(leases := t.leases[r.leaseId := lease.(latest := Some(r.metadata.snapshotId))]),
            Published(r.metadata.snapshotId))
  }

  function ForkParent(lease: LeaseRow, metadata: SnapshotMetadata): Option<string> {
    if metadata.parent.None? then lease.latest else metadata.parent
  }

  function ForkRefusal(t: Tables, r: ForkRequest): Option<Refusal> {
    if r.metadata.sessionId != Some(r.sessionId) then Some(SessionMismatch)
    else if r.leaseId !in t.leases then Some(UnknownLease)
    else if t.leases[r.leaseId].projectId != r.metadata.projectId then Some(ProjectMismatch)
    else if t.leases[r.leaseId].sessionId != r.sessionId then Some(SessionMismatch)
    else if t.leases[r.leaseId].holder != Some(r.device) then Some(NotHolder)
    else if r.device in t.revoked then Some(DeviceRevoked)
    else if t.leases[r.leaseId].state != Inactive then Some(LeaseNotInactive)
    else if r.sessionId !in t.sessions || t.sessions[r.sessionId] != r.metadata.projectId then Some(UnknownSession)
    else if r.freshSession in t.sessions then Some(DuplicateKey)
    else if !r.forkValid then Some(InvalidMetadata)
    else InsertRefusal(t.snapshots, r.metadata.snapshotId, ForkParent(t.leases[r.leaseId], r.metadata))
  }

  function PublishAsFork(t: Tables, r: ForkRequest): (Tables, Reply) {
    var refusal := ForkRefusal(t, r);
    if refusal.Some? then (t, Refused(refusal.value))
    else
      var lease := t.leases[r.leaseId];
      var row := SnapshotRow(r.metadata.snapshotId, r.metadata.projectId, Some(r.freshSession),
                             ForkParent(lease, r.metadata),
                             MaxSequence(t.snapshots, r.metadata.projectId) + 1, true, r.metadata.sidecars);
      (t.(sessions := t.sessions[r.freshSession := r.metadata.projectId],
          snapshots := t.snapshots + [row],
          leases := t.leases[r.leaseId := lease.(state := Forked)]),
       ForkStored(r.freshSession, lease.latest))
  }

  function Revoke(t: Tables, device: string, byDevice: string, reason: string): (Tables, Reply) {
    if device == "" || byDevice == "" || reason == "" then (t, Refused(EmptyField))
    else (t.(revoked := t.revoked + {device}), DeviceRevocationStored)
  }

  /** `insert_session`, with the generated id as an argument. */
  function NewSession(t: Tables, projectId: string, freshSession: string): (Tables, Reply) {
    if freshSession in t.sessions then (t, Refused(DuplicateKey))
    else (t.(sessions := t.sessions[freshSession := projectId]), SessionStored(freshSession))
  }

  // ---------------------------------------------------------------- the snapshot store

  /** The snapshot of a project with the highest number. */
  function LatestSnapshotId(rows: seq<SnapshotRow>, projectId: string): Option<string> {
    if rows == [] then None
    else
      var row := rows[|rows| - 1];
      if row.projectId == projectId && MaxSequence(rows[..|rows| - 1], projectId) < row.sequence
      then Some(row.snapshotId)
      else LatestSnapshotId(rows[..|rows| - 1], projectId)
  }

  function StoreParent(rows: seq<SnapshotRow>, metadata: SnapshotMetadata): Option<string> {
    if metadata.parent.None? then LatestSnapshotId(rows, metadata.projectId) else metadata.parent
  }

  function StoreRefusal(t: Tables, r: StoreRequest): Option<Refusal> {
    if r.metadata.projectId != r.storeProject then Some(ProjectMismatch)
    else if !r.metadata.valid then Some(InvalidMetadata)
    else if r.fault == Some(AfterSnapshotObjectImport) || r.fault == Some(DuringMetadataTransaction)
    then Some(InjectedFault)
    else InsertRefusal(t.snapshots, r.metadata.snapshotId, StoreParent(t.snapshots, r.metadata))
  }

  /** `store_snapshot`: the row is kept even when removing the source refs fails afterwards. */
  function Store(t: Tables, r: StoreRequest): (Tables, Reply) {
    var refusal := StoreRefusal(t, r);
    if refusal.Some? then (t, Refused(refusal.value))
    else
      var m := r.metadata;
      var row := SnapshotRow(m.snapshotId, m.projectId, m.sessionId, StoreParent(t.snapshots, m),
                             MaxSequence(t.snapshots, m.projectId) + 1, r.pinned, m.sidecars);
      var sessions := if m.sessionId.Some? && m.sessionId.value !in t.sessions
                      then t.sessions[m.sessionId.value := m.projectId] else t.sessions;
      (t.(snapshots := t.snapshots + [row], sessions := sessions),
       if r.fault == Some(AfterSourceIndexRefDelete) then Refused(SourceRefsLeft) else StoredLocally(m.snapshotId))
  }

  predicate HasRow(rows: seq<SnapshotRow>, projectId: string, id: string) {
    exists row :: row in rows && row.snapshotId == id && row.projectId == projectId
  }

  predicate IsPinned(rows: seq<SnapshotRow>, projectId: string, id: string) {
    exists row :: row in rows && row.snapshotId == id && row.projectId == projectId && row.pinned
  }

  predicate HasChild(rows: seq<SnapshotRow>, projectId: string, id: string) {
    exists row :: row in rows && row.projectId == projectId && row.parent == Some(id)
  }

  predicate IsParent(rows: seq<SnapshotRow>, id: string) {
    exists row :: row in rows && row.parent == Some(id)
  }

  /** The guards of `prune_snapshots` for one decision, and the foreign key of the parent column.
      `latest` is read once, before the first decision. */
  function PruneRefusal(rows: seq<SnapshotRow>, projectId: string, latest: Option<string>, id: string)
    : Option<Refusal>
  {
    if !HasRow(rows, projectId, id) then Some(UnknownSnapshot)
    else if IsPinned(rows, projectId, id) then Some(PinnedSnapshot)
    else if latest == Some(id) then Some(LatestSnapshot)
    else if HasChild(rows, projectId, id) then Some(HasChildren)
    else if IsParent(rows, id) then Some(StillReferenced)
    else None
  }

  /** The rows but those of one snapshot of the project. */
  function RowsWithout(rows: seq<SnapshotRow>, projectId: string, id: string): seq<SnapshotRow> {
    if rows == [] then []
    else
      var front, row := RowsWithout(rows[..|rows| - 1], projectId, id), rows[|rows| - 1];
      if row.snapshotId == id && row.projectId == projectId then front else front + [row]
  }

  /** The decisions in order, each committed on its own, up to the first refusal. */
  function PruneRows(rows: seq<SnapshotRow>, projectId: string, latest: Option<string>, ids: seq<string>)
    : (seq<SnapshotRow>, Option<Refusal>)
    decreases |ids|
  {
    if ids == [] then (rows, None)
    else
      var refusal := PruneRefusal(rows, projectId, latest, ids[0]);
      if refusal.Some? then (rows, refusal)
      else PruneRows(RowsWithout(rows, projectId, ids[0]), projectId, latest, ids[1..])
  }

  function PruneSnapshots(t: Tables, projectId: string, ids: seq<string>): (Tables, Reply) {
    var (rows, refusal) := PruneRows(t.snapshots, projectId, LatestSnapshotId(t.snapshots, projectId), ids);
    (t.(snapshots := rows), if refusal.Some? then Refused(refusal.value) else Pruned(|ids|))
  }

  /** One call, as the tables it leaves and the reply it gives. */
  function Apply(t: Tables, call: Call): (Tables, Reply) {
    match call
    case StoreLease(leaseId, row) => (t.(leases := t.leases[leaseId := row]), LeaseStored)
    case BeginHandoff(leaseId, source, target, generation, ttl, freshId, now) =>
      Begin(t, leaseId, source, target, generation, ttl, freshId, now)
    case RecordTargetApply(id, detailIsJson) => TargetApply(t, id, detailIsJson)
    case MarkTargetVerified(id) => Advance(t, id, TargetPrepare, TargetVerified, TargetVerifiedPhase)
    case MarkSourceReady(id) => Advance(t, id, TargetVerified, SourceReady, SourceReadyPhase)
    case AbortHandoff(id) => Abort(t, id)
    case CommitHandoff(id, observed, now, preflight, fault) => Commit(t, id, observed, now, preflight, fault)
    case RecoverHandoff(id, observed, now, fault) => Recover(t, id, observed, now, fault)
    case Publish(r) => PublishCanonical(t, r)
    case PublishFork(r) => PublishAsFork(t, r)
    case RevokeDevice(device, byDevice, reason) => Revoke(t, device, byDevice, reason)
    case CreateSession(projectId, freshSession) => NewSession(t, projectId, freshSession)
    case StoreLocal(r) => Store(t, r)
    case Prune(projectId, ids) => PruneSnapshots(t, projectId, ids)
  }

  /** The tables after a sequence of calls. */
  function Run(t: Tables, calls: seq<Call>): Tables {
    if calls == [] then t else Apply(Run(t, calls[..|calls| - 1]), calls[|calls| - 1]).0
  }
}
