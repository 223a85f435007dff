/**
 The metadata database and the snapshot store of a project as objects. Every method is one
 transaction: it works on local copies of the tables it writes and stores them only at its commit
 point, so each early return rolls back. Each method makes its checks one by one, is proved equal
 to the transaction function of HandoffTables, and promises what a caller can rely on: the lease
 invariant, the soundness of the snapshot table, and what a refusal leaves.
 */
module HandoffDatabase {
  import opened Common
  import opened HandoffTables
  import opened HandoffSafety
  import opened HandoffSnapshots
  import opened HandoffGuarantees
  import opened Sidecars
  import Cas

  /** What a caller of a canonical publish has to bring, but for the row itself. */
  ghost predicate MayWrite(t: Tables, r: PublishRequest) {
    && r.metadata.valid && r.metadata.sessionId == Some(r.sessionId) && r.leaseId in t.leases
    && var lease := t.leases[r.leaseId];
       && lease.projectId == r.metadata.projectId && lease.sessionId == r.sessionId
       && lease.state == Active && lease.holder == Some(r.device) && r.device !in t.revoked
       && r.sessionId in t.sessions && t.sessions[r.sessionId] == r.metadata.projectId
  }

  ghost predicate MayPublish(t: Tables, r: PublishRequest) {
    MayWrite(t, r) && MayInsert(t.snapshots, r.metadata.snapshotId, r.metadata.parent)
  }

  /** What a caller of an inactive publish has to bring. */
  ghost predicate MayFork(t: Tables, r: ForkRequest) {
    && r.forkValid && r.metadata.sessionId == Some(r.sessionId) && r.leaseId in t.leases
    && var lease := t.leases[r.leaseId];
       && lease.projectId == r.metadata.projectId && lease.sessionId == r.sessionId
       && lease.state == Inactive && lease.holder == Some(r.device) && r.device !in t.revoked
       && r.sessionId in t.sessions && t.sessions[r.sessionId] == r.metadata.projectId
       && r.freshSession !in t.sessions
       && MayInsert(t.snapshots, r.metadata.snapshotId, ForkParent(lease, r.metadata))
  }

  ghost predicate MayInsert(rows: seq<SnapshotRow>, id: string, parent: Option<string>) {
    && !HasSnapshot(rows, id)
    && (parent.Some? && parent.value != id ==> HasSnapshot(rows, parent.value))
  }

  /** The row is new and its number is above every number of its project. */
  ghost predicate StoredAbove(before: seq<SnapshotRow>, after: seq<SnapshotRow>, row: SnapshotRow) {
    && after == before + [row] && !HasSnapshot(before, row.snapshotId) && row.sequence >= 1
    && (forall r :: r in before && r.projectId == row.projectId ==> r.sequence < row.sequence)
  }

  /** The call kept the lease invariant and the soundness of the snapshot table. */
  ghost predicate KeptSound(before: Tables, after: Tables) {
    (Inv(before) ==> Inv(after)) && (TableOk(before.snapshots) ==> TableOk(after.snapshots))
  }

  lemma FittingCallKeepsSound(t: Tables, call: Call)
    requires Inv(t) ==> Fits(t, call)
    ensures KeptSound(t, Apply(t, call).0)
  {
    if Inv(t) {
      FittingStepKeepsInv(t, call);
    }
    if TableOk(t.snapshots) {
      StepKeepsTable(t, call);
    }
  }

  lemma NextIsAbove(rows: seq<SnapshotRow>, row: SnapshotRow)
    requires !HasSnapshot(rows, row.snapshotId) && row.sequence == MaxSequence(rows, row.projectId) + 1
    ensures StoredAbove(rows, rows + [row], row)
  {
    forall r | r in rows && r.projectId == row.projectId ensures r.sequence < row.sequence {
      var i :| 0 <= i < |rows| && rows[i] == r;
      MaxSequenceBounds(rows, row.projectId, i);
    }
  }

  lemma {:induction false} PrunedAreGone(rows: seq<SnapshotRow>, projectId: string, latest: Option<string>,
                                         ids: seq<string>)
    ensures PruneRows(rows, projectId, latest, ids).1.None? ==>
              forall id :: id in ids ==> !HasRow(PruneRows(rows, projectId, latest, ids).0, projectId, id)
    decreases |ids|
  {
    if ids != [] && PruneRefusal(rows, projectId, latest, ids[0]) == None {
      var less := RowsWithout(rows, projectId, ids[0]);
      RowsWithoutMembers(rows, projectId, ids[0]);
      PrunedAreGone(less, projectId, latest, ids[1..]);
      PlanKeepsOnlyRows(less, projectId, latest, ids[1..]);
    }
  }

  lemma {:induction false} PlanKeepsOnlyRows(rows: seq<SnapshotRow>, projectId: string, latest: Option<string>,
                                             ids: seq<string>)
    ensures forall row :: row in PruneRows(rows, projectId, latest, ids).0 ==> row in rows
    decreases |ids|
  {
    if ids != [] && PruneRefusal(rows, projectId, latest, ids[0]) == None {
      RowsWithoutMembers(rows, projectId, ids[0]);
      PlanKeepsOnlyRows(RowsWithout(rows, projectId, ids[0]), projectId, latest, ids[1..]);
    }
  }

  /** The INSERT of a snapshot: the next number of its project, a unique key, an existing parent. */
  method InsertRow(rows: seq<SnapshotRow>, id: string, projectId: string, sessionId: Option<string>,
                   parent: Option<string>, pinned: bool, sidecars: seq<Sidecar>)
    returns (refusal: Option<Refusal>, newRows: seq<SnapshotRow>)
    ensures refusal == InsertRefusal(rows, id, parent)
    ensures refusal.None? <==> MayInsert(rows, id, parent)
    ensures refusal.Some? ==> newRows == rows
    ensures refusal.None? ==>
              && newRows == rows + [SnapshotRow(id, projectId, sessionId, parent, MaxSequence(rows, projectId) + 1,
                                                pinned, sidecars)]
              && StoredAbove(rows, newRows, newRows[|rows|]) && HasSnapshot(newRows, id)
  {
    var sequence := MaxSequence(rows, projectId) + 1;
    if HasSnapshot(rows, id) {
      return Some(DuplicateKey), rows;
    }
    if parent.Some? {
      if parent.value != id && !HasSnapshot(rows, parent.value) {
        return Some(MissingParent), rows;
      }
    }
    var row := SnapshotRow(id, projectId, sessionId, parent, sequence, pinned, sidecars);
    NextIsAbove(rows, row);
    newRows := rows + [row];
    assert newRows[|rows|] == row && row in newRows;
    return None, newRows;
  }

  /** What a commit with a preflight is handed: the snapshot, the store object, the writable paths. */
  datatype SnapshotPreflight = SnapshotPreflight(
    snapshot: SnapshotMetadata, store: Cas.CasStore, safePaths: set<string>)

  /** The preflight as the specification sees it: the store in its present state. */
  ghost function Seen(p: Option<SnapshotPreflight>): Option<Preflight>
    reads if p.Some? then {p.value.store} else {}
  {
    if p.None? then None
    else Some(Preflight(p.value.snapshot, p.value.store.b3, p.value.store.State(), p.value.safePaths))
  }

  method VerifyPreflight(p: SnapshotPreflight, projectId: string) returns (passes: bool)
    ensures passes <==> PreflightPasses(Seen(Some(p)).value, projectId)
  {
    if p.snapshot.projectId != projectId {
      return false;
    }
    passes := EnsureSidecarsAvailable(p.safePaths, p.snapshot.sidecars, p.store);
  }

  /** The snapshots whose refs a prune deletes: those of every decision that passes, and those of the one
      that only the foreign key stops, because the refs go before the row. */
  function DroppedRefs(rows: seq<SnapshotRow>, projectId: string, latest: Option<string>, ids: seq<string>): set<string>
    decreases |ids|
  {
    if ids == [] then {}
    else
      var refusal := PruneRefusal(rows, projectId, latest, ids[0]);
      if refusal.None? then {ids[0]} + DroppedRefs(RowsWithout(rows, projectId, ids[0]), projectId, latest, ids[1..])
      else if refusal == Some(StillReferenced) then {ids[0]}
      else {}
  }

  /** A prune leaves a row of the project without its refs exactly if it stops at a snapshot that a row of
      another project still names as its parent. */
  lemma {:induction false} RefsLostExactly(rows: seq<SnapshotRow>, projectId: string, latest: Option<string>,
                                           ids: seq<string>)
    ensures (exists id :: id in DroppedRefs(rows, projectId, latest, ids)
                          && HasRow(PruneRows(rows, projectId, latest, ids).0, projectId, id))
            <==> PruneRows(rows, projectId, latest, ids).1 == Some(StillReferenced)
    decreases |ids|
  {
    if ids != [] {
      var refusal := PruneRefusal(rows, projectId, latest, ids[0]);
      if refusal.None? {
        var less := RowsWithout(rows, projectId, ids[0]);
        RefsLostExactly(less, projectId, latest, ids[1..]);
        RowsWithoutMembers(rows, projectId, ids[0]);
        PlanKeepsOnlyRows(less, projectId, latest, ids[1..]);
      } else if refusal == Some(StillReferenced) {
        assert ids[0] in DroppedRefs(rows, projectId, latest, ids);
      }
    }
  }

  class MetadataDb {
    var leases: map<string, LeaseRow>
    var handoffs: map<string, HandoffRow>
    var journal: seq<JournalRow>
    var snapshots: seq<SnapshotRow>
    var sessions: map<string, string>
    var revoked: set<string>
    /** The injected fault point `DuringLeaseCommit`. */
    var fault: bool

    ghost function State(): Tables
      reads this
    {
      Tables(leases, handoffs, journal, snapshots, sessions, revoked)
    }

    constructor ()
      ensures State() == Tables(map[], map[], [], [], map[], {}) && !fault
    {
      leases, handoffs, journal, snapshots, sessions, revoked := map[], map[], [], [], map[], {};
      fault := false;
    }

    method SetFaultInjection(enabled: bool)
      modifies this`fault
      ensures fault == enabled
    {
      fault := enabled;
    }

    method UpsertLease(leaseId: string, row: LeaseRow) returns (reply: Reply)
      modifies this`leases
      ensures (State(), reply) == Apply(old(State()), StoreLease(leaseId, row))
      ensures old(Inv(State())) ==> (Inv(State()) <==> Fits(old(State()), StoreLease(leaseId, row)))
    {
      if Inv(State()) {
        StepKeepsInv(State(), StoreLease(leaseId, row));
      }
      leases := leases[leaseId := row];
      return LeaseStored;
    }

    method BeginHandoff(leaseId: string, source: string, target: string, generation: string,
                        ttl: u64, freshId: string, now: u64) returns (reply: Reply)
      modifies this`leases, this`handoffs, this`journal
      ensures (State(), reply)
              == Apply(old(State()), Call.BeginHandoff(leaseId, source, target, generation, ttl, freshId, now))
      ensures reply.Refused? ==> State() == old(State())
      ensures !reply.Refused? ==>
                && leaseId in old(leases) && old(leases)[leaseId].state == Active
                && old(leases)[leaseId].holder == Some(source) && source !in revoked && target !in revoked
                && freshId !in old(handoffs) && freshId in handoffs && Open(State(), freshId)
      ensures KeptSound(old(State()), State())
    {
      FittingCallKeepsSound(State(), Call.BeginHandoff(leaseId, source, target, generation, ttl, freshId, now));
      if leaseId !in leases {
        return Refused(UnknownLease);
      }
      var lease := leases[leaseId];
      if exists h :: h in handoffs && handoffs[h].leaseId == leaseId && !handoffs[h].state.IsTerminal() {
        return Refused(AlreadyPending);
      }
      if lease.state != Active {
        return Refused(LeaseNotActive);
      }
      if lease.holder != Some(source) {
        return Refused(NotHolder);
      }
      if source in revoked {
        return Refused(DeviceRevoked);
      }
      if target in revoked {
        return Refused(DeviceRevoked);
      }
      var lifetime: u64 := if ttl < 1 then 1 else ttl;
      var expires := SaturatingAdd(now, lifetime);
      var row := HandoffRow(leaseId, lease.projectId, AsI64(lease.Epoch()), source, target, generation,
                            AsI64(expires), TargetPrepare);
      if freshId in handoffs {
        return Refused(DuplicateKey);
      }
      var newHandoffs := handoffs[freshId := row];
      var newJournal := journal + [JournalRow(freshId, leaseId, BeginPhase)];
      newJournal := newJournal + [JournalRow(freshId, leaseId, TargetPreparePhase)];
      var newLeases := leases[leaseId := lease.(state := HandoffPending, handoffId := Some(freshId))];
      assert newJournal == journal + [JournalRow(freshId, leaseId, BeginPhase),
                                      JournalRow(freshId, leaseId, TargetPreparePhase)];
      handoffs, journal, leases := newHandoffs, newJournal, newLeases;
      return HandoffReply(freshId, TargetPrepare);
    }

    method RecordHandoffTargetApply(id: string, detailIsJson: bool) returns (reply: Reply)
      modifies this`journal
      ensures (State(), reply) == Apply(old(State()), RecordTargetApply(id, detailIsJson))
      ensures reply == Journaled <==> detailIsJson && Open(old(State()), id)
      ensures reply.Refused? ==> State() == old(State())
      ensures KeptSound(old(State()), State())
    {
      FittingCallKeepsSound(State(), RecordTargetApply(id, detailIsJson));
      if !detailIsJson {
        return Refused(InvalidDetail);
      }
      if id !in handoffs {
        return Refused(UnknownHandoff);
      }
      if handoffs[id].state.IsTerminal() {
        return Refused(WrongState);
      }
      journal := journal + [JournalRow(id, handoffs[id].leaseId, TargetApplyPhase)];
      return Journaled;
    }

    method UpdateHandoffState(id: string, expected: HandoffState, next: HandoffState, phase: Phase)
      returns (reply: Reply)
      modifies this`handoffs, this`journal
      ensures (State(), reply) == Advance(old(State()), id, expected, next, phase)
    {
      if id !in handoffs {
        return Refused(UnknownHandoff);
      }
      var handoff := handoffs[id];
      if handoff.state != expected {
        return Refused(WrongState);
      }
      var newHandoffs := handoffs[id := handoff.(state := next)];
      var newJournal := journal + [JournalRow(id, handoff.leaseId, phase)];
      handoffs, journal := newHandoffs, newJournal;
      return HandoffReply(id, next);
    }

    method MarkHandoffTargetVerified(id: string) returns (reply: Reply)
      modifies this`handoffs, this`journal
      ensures (State(), reply) == Apply(old(State()), MarkTargetVerified(id))
      ensures reply.Refused? ==> State() == old(State())
      ensures KeptSound(old(State()), State())
    {
      FittingCallKeepsSound(State(), MarkTargetVerified(id));
      reply := UpdateHandoffState(id, TargetPrepare, TargetVerified, TargetVerifiedPhase);
    }

    method MarkHandoffSourceReady(id: string) returns (reply: Reply)
      modifies this`handoffs, this`journal
      ensures (State(), reply) == Apply(old(State()), MarkSourceReady(id))
      ensures reply.Refused? ==> State() == old(State())
      ensures KeptSound(old(State()), State())
    {
      FittingCallKeepsSound(State(), MarkSourceReady(id));
      reply := UpdateHandoffState(id, TargetVerified, SourceReady, SourceReadyPhase);
    }

    method AbortHandoffAt(id: string) returns (reply: Reply)
      modifies this`handoffs, this`leases, this`journal
      ensures (State(), reply) == Apply(old(State()), AbortHandoff(id))
      ensures reply.Refused? ==> State() == old(State())
      ensures !reply.Refused? ==> id in handoffs && handoffs[id].state == Aborted
      ensures KeptSound(old(State()), State())
    {
      FittingCallKeepsSound(State(), AbortHandoff(id));
      if id !in handoffs {
        return Refused(UnknownHandoff);
      }
      var handoff := handoffs[id];
      if handoff.state == Committed {
        return Refused(CannotAbortCommitted);
      }
      if handoff.state == Aborted {
        return HandoffReply(id, Aborted);
      }
      var newHandoffs := handoffs[id := handoff.(state := Aborted)];
      var newLeases := leases;
      if handoff.leaseId in newLeases && newLeases[handoff.leaseId].handoffId == Some(id) {
        newLeases := newLeases[handoff.leaseId := newLeases[handoff.leaseId].(state := Active, handoffId := None)];
      }
      var newJournal := journal + [JournalRow(id, handoff.leaseId, AbortedPhase)];
      handoffs, leases, journal := newHandoffs, newLeases, newJournal;
      return HandoffReply(id, Aborted);
    }

    method CommitHandoffInner(id: string, observed: string, now: u64, preflight: Option<SnapshotPreflight>)
      returns (reply: Reply)
      modifies this`handoffs, this`leases, this`journal
      ensures (State(), reply)
              == Apply(old(State()), CommitHandoff(id, observed, now, old(Seen(preflight)), old(fault)))
      ensures reply.HandoffReply?
              <==> Commits(old(State()), CommitHandoff(id, observed, now, old(Seen(preflight)), old(fault)), id)
      ensures reply.HandoffReply? ==>
                && id in old(handoffs) && id in handoffs && handoffs[id].state == Committed
                && handoffs[id].leaseId in leases
                && leases[handoffs[id].leaseId].holder == Some(handoffs[id].target)
      ensures KeptSound(old(State()), State())
    {
      FittingCallKeepsSound(State(), CommitHandoff(id, observed, now, Seen(preflight), fault));
      if id !in handoffs {
        return Refused(UnknownHandoff);
      }
      var handoff := handoffs[id];
      if handoff.state != SourceReady {
        return Refused(WrongState);
      }
      var newHandoffs, newLeases := handoffs, leases;
      var abortReason: Option<Refusal> := None;
      if now > handoff.ExpiresAt() {
        abortReason := Some(HandoffExpired);
      } else if observed != handoff.generation {
        abortReason := Some(GenerationChanged);
      }
      if abortReason.Some? {
        newHandoffs := newHandoffs[id := handoff.(state := Aborted)];
        if handoff.leaseId in newLeases && newLeases[handoff.leaseId].handoffId == Some(id) {
          newLeases := newLeases[handoff.leaseId := newLeases[handoff.leaseId].(state := Active, handoffId := None)];
        }
        handoffs, leases := newHandoffs, newLeases;
        return Refused(abortReason.value);
      }
      if handoff.target in revoked {
        return Refused(DeviceRevoked);
      }
      if preflight.Some? {
        var passes := VerifyPreflight(preflight.value, handoff.projectId);
        if !passes {
          return Refused(PreflightFailed);
        }
      }
      var changed := 0;
      if && handoff.leaseId in newLeases
         && newLeases[handoff.leaseId].epochColumn == AsI64(handoff.ExpectedEpoch())
         && newLeases[handoff.leaseId].handoffId == Some(id)
      {
        newLeases := newLeases[handoff.leaseId := newLeases[handoff.leaseId].(
                                 state := Active,
                                 epochColumn := AsI64(SaturatingAdd(handoff.ExpectedEpoch(), 1)),
                                 holder := Some(handoff.target),
                                 handoffId := None)];
        changed := 1;
      }
      if changed != 1 {
        return Refused(LostRace);
      }
      if fault {
        return Refused(InjectedFault);
      }
      newHandoffs := newHandoffs[id := handoff.(state := Committed)];
      var newJournal := journal + [JournalRow(id, handoff.leaseId, LeaseCommittedPhase)];
      handoffs, leases, journal := newHandoffs, newLeases, newJournal;
      return HandoffReply(id, Committed);
    }

    /** Two transactions in a row: a read, then an abort or a commit. */
    method RecoverHandoff(id: string, observed: string, now: u64) returns (reply: Reply)
      modifies this`handoffs, this`leases, this`journal
      ensures (State(), reply) == Apply(old(State()), Call.RecoverHandoff(id, observed, now, old(fault)))
      ensures KeptSound(old(State()), State())
    {
      FittingCallKeepsSound(State(), Call.RecoverHandoff(id, observed, now, fault));
      if id !in handoffs {
        return Refused(UnknownHandoff);
      }
      var handoff := handoffs[id];
      if handoff.state == Committed {
        return Recovered(AlreadyCommitted);
      }
      if handoff.state == Aborted {
        return Recovered(AlreadyAborted);
      }
      if now > handoff.ExpiresAt() {
        var aborted := AbortHandoffAt(id);
        return Recovered(AbortedExpired);
      }
      if handoff.state == SourceReady {
        var committed := CommitHandoffInner(id, observed, now, None);
        if committed.Refused? {
          return committed;
        }
        return Recovered(RecoveredCommit);
      }
      return Recovered(WaitingForTarget);
    }

    /** The checks of a canonical publish before the INSERT, in their order. */
    method CheckPublish(r: PublishRequest) returns (refusal: Option<Refusal>)
      ensures refusal.None? <==> MayWrite(State(), r)
      ensures PublishRefusal(State(), r)
              == if refusal.Some? then refusal
                 else InsertRefusal(snapshots, r.metadata.snapshotId, r.metadata.parent)
    {
      if !r.metadata.valid {
        return Some(InvalidMetadata);
      }
      if r.metadata.sessionId != Some(r.sessionId) {
        return Some(SessionMismatch);
      }
      if r.leaseId !in leases {
        return Some(UnknownLease);
      }
      var lease := leases[r.leaseId];
      if lease.projectId != r.metadata.projectId {
        return Some(ProjectMismatch);
      }
      if lease.sessionId != r.sessionId {
        return Some(SessionMismatch);
      }
      if r.sessionId !in sessions || sessions[r.sessionId] != r.metadata.projectId {
        return Some(UnknownSession);
      }
      if lease.holder != Some(r.device) {
        return Some(NotHolder);
      }
      if r.device in revoked {
        return Some(DeviceRevoked);
      }
      if lease.state != Active {
        return Some(LeaseNotActive);
      }
      return None;
    }

    /** Stores the snapshot under the next number; it becomes the latest of the lease exactly if the
        caller named the epoch and the latest snapshot the lease has. */
    method PublishSnapshotCanonical(r: PublishRequest) returns (reply: Reply)
      modifies this`snapshots, this`leases
      ensures (State(), reply) == Apply(old(State()), Publish(r))
      ensures !reply.Refused? <==> MayPublish(old(State()), r)
      ensures reply.Refused? ==> State() == old(State())
      ensures !reply.Refused? ==>
                && |snapshots| == |old(snapshots)| + 1
                && StoredAbove(old(snapshots), snapshots, snapshots[|old(snapshots)|])
                && HasSnapshot(snapshots, r.metadata.snapshotId)
      ensures !reply.Refused? ==>
                && r.leaseId in old(leases) && (reply.Published? || reply.StalePublish?)
                && (reply.Published? <==> old(leases)[r.leaseId].Epoch() == r.expectedEpoch
                                          && old(leases)[r.leaseId].latest == r.expectedLatest)
                && leases == if reply.StalePublish? then old(leases)
                             else old(leases)[r.leaseId := old(leases)[r.leaseId].(
                                                             latest := Some(r.metadata.snapshotId))]
      ensures KeptSound(old(State()), State())
    {
      FittingCallKeepsSound(State(), Publish(r));
      var denied := CheckPublish(r);
      if denied.Some? {
        return Refused(denied.value);
      }
      var lease := leases[r.leaseId];
      var refusal, newSnapshots := InsertRow(snapshots, r.metadata.snapshotId, r.metadata.projectId,
                                             Some(r.sessionId), r.metadata.parent, r.pinned,
                                             r.metadata.sidecars);
      if refusal.Some? {
        return Refused(refusal.value);
      }
      var newLeases, stale := leases, false;
      if lease.Epoch() != r.expectedEpoch {
        stale := true;
      } else if lease.latest != r.expectedLatest {
        stale := true;
      } else {
        newLeases := newLeases[r.leaseId := lease.(latest := Some(r.metadata.snapshotId))];
      }
      snapshots, leases := newSnapshots, newLeases;
      if stale {
        return StalePublish;
      }
      return Published(r.metadata.snapshotId);
    }

    /** Keeps the work of an inactive workspace as a pinned snapshot in a new session; the latest
        snapshot of the lease stays, and the lease can fork only once. */
    method PublishInactiveSnapshotAsFork(r: ForkRequest) returns (reply: Reply)
      modifies this`sessions, this`snapshots, this`leases
      ensures (State(), reply) == Apply(old(State()), PublishFork(r))
      ensures !reply.Refused? <==> MayFork(old(State()), r)
      ensures reply.Refused? ==> State() == old(State())
      ensures !reply.Refused? ==>
                && |snapshots| == |old(snapshots)| + 1
                && StoredAbove(old(snapshots), snapshots, snapshots[|old(snapshots)|])
                && HasSnapshot(snapshots, r.metadata.snapshotId) && snapshots[|old(snapshots)|].pinned
                && sessions == old(sessions)[r.freshSession := r.metadata.projectId]
      ensures !reply.Refused? ==>
                && r.leaseId in old(leases)
                && leases == old(leases)[r.leaseId := old(leases)[r.leaseId].(state := Forked)]
                && !MayFork(State(), r) && reply == ForkStored(r.freshSession, leases[r.leaseId].latest)
      ensures KeptSound(old(State()), State())
    {
      FittingCallKeepsSound(State(), PublishFork(r));
      if r.metadata.sessionId != Some(r.sessionId) {
        return Refused(SessionMismatch);
      }
      if r.leaseId !in leases {
        return Refused(UnknownLease);
      }
      var lease := leases[r.leaseId];
      if lease.projectId != r.metadata.projectId {
        return Refused(ProjectMismatch);
      }
      if lease.sessionId != r.sessionId {
        return Refused(SessionMismatch);
      }
      if lease.holder != Some(r.device) {
        return Refused(NotHolder);
      }
      if r.device in revoked {
        return Refused(DeviceRevoked);
      }
      if lease.state != Inactive {
        return Refused(LeaseNotInactive);
      }
      if r.sessionId !in sessions || sessions[r.sessionId] != r.metadata.projectId {
        return Refused(UnknownSession);
      }
      if r.freshSession in sessions {
        return Refused(DuplicateKey);
      }
      var newSessions := sessions[r.freshSession := r.metadata.projectId];
      var parent := r.metadata.parent;
      if parent.None? {
        parent := lease.latest;
      }
      if !r.forkValid {
        return Refused(InvalidMetadata);
      }
      var refusal, newSnapshots := InsertRow(snapshots, r.metadata.snapshotId, r.metadata.projectId,
                                             Some(r.freshSession), parent, true, r.metadata.sidecars);
      if refusal.Some? {
        return Refused(refusal.value);
      }
      var newLeases := leases[r.leaseId := lease.(state := Forked)];
      sessions, snapshots, leases := newSessions, newSnapshots, newLeases;
      return ForkStored(r.freshSession, lease.latest);
    }

    method InsertSession(projectId: string, freshSession: string) returns (reply: Reply)
      modifies this`sessions
      ensures (State(), reply) == Apply(old(State()), CreateSession(projectId, freshSession))
      ensures reply.Refused? <==> freshSession in old(sessions)
      ensures freshSession in sessions
      ensures forall s :: s in old(sessions) ==> s in sessions && sessions[s] == old(sessions)[s]
    {
      if freshSession in sessions {
        return Refused(DuplicateKey);
      }
      sessions := sessions[freshSession := projectId];
      return SessionStored(freshSession);
    }

    method RevokeDeviceAt(device: string, byDevice: string, reason: string) returns (reply: Reply)
      modifies this`revoked
      ensures (State(), reply) == Apply(old(State()), RevokeDevice(device, byDevice, reason))
    {
      if device == "" || byDevice == "" || reason == "" {
        return Refused(EmptyField);
      }
      revoked := revoked + {device};
      return DeviceRevocationStored;
    }
  }

  /** The snapshot store of one project, on the same database, with the refs of its own repository. */
  class SnapshotStore {
    const projectId: string
    const db: MetadataDb
    var fault: Option<StoreFault>
    /** The snapshots whose index and work refs are in the repository of the store. */
    var refs: set<string>

    constructor (projectId: string, db: MetadataDb)
      ensures this.projectId == projectId && this.db == db && fault == None && refs == {}
    {
      this.projectId, this.db, fault, refs := projectId, db, None, {};
    }

    /** Every snapshot of the project has its refs. */
    ghost predicate RefsThere()
      reads this, db
    {
      forall id :: HasRow(db.snapshots, projectId, id) ==> id in refs
    }

    /** The transaction of a local checkpoint. */
    method InsertSnapshot(metadata: SnapshotMetadata, parent: Option<string>, pinned: bool)
      returns (refusal: Option<Refusal>)
      modifies db`snapshots, db`sessions
      ensures refusal == if fault == Some(DuringMetadataTransaction) then Some(InjectedFault)
                         else InsertRefusal(old(db.snapshots), metadata.snapshotId, parent)
      ensures refusal.Some? ==> db.State() == old(db.State())
      ensures refusal.None? ==>
                && StoredAbove(old(db.snapshots), db.snapshots,
                     SnapshotRow(metadata.snapshotId, metadata.projectId, metadata.sessionId, parent,
                                 MaxSequence(old(db.snapshots), metadata.projectId) + 1, pinned, metadata.sidecars))
                && (metadata.sessionId.Some? ==> metadata.sessionId.value in db.sessions)
                && db.sessions == if metadata.sessionId.Some? && metadata.sessionId.value !in old(db.sessions)
                                  then old(db.sessions)[metadata.sessionId.value := metadata.projectId]
                                  else old(db.sessions)
    {
      if fault == Some(DuringMetadataTransaction) {
        return Some(InjectedFault);
      }
      var newSessions := db.sessions;
      if metadata.sessionId.Some? {
        if metadata.sessionId.value !in newSessions {
          newSessions := newSessions[metadata.sessionId.value := metadata.projectId];
        }
      }
      var refused, newSnapshots := InsertRow(db.snapshots, metadata.snapshotId, metadata.projectId,
                                             metadata.sessionId, parent, pinned, metadata.sidecars);
      if refused.Some? {
        return refused;
      }
      db.snapshots, db.sessions := newSnapshots, newSessions;
      return None;
    }

    /** A local checkpoint: stored on top of the latest snapshot of the project unless it names a parent. */
    method StoreSnapshot(metadata: SnapshotMetadata, pinned: bool) returns (reply: Reply)
      modifies db`snapshots, db`sessions, this`refs
      ensures (db.State(), reply)
              == Apply(old(db.State()), StoreLocal(StoreRequest(projectId, metadata, pinned, fault)))
      ensures reply.StoredLocally? ==> HasSnapshot(db.snapshots, metadata.snapshotId)
      ensures refs == if metadata.projectId == projectId && metadata.valid then old(refs) + {metadata.snapshotId}
                      else old(refs)
      ensures KeptSound(old(db.State()), db.State())
    {
      ghost var call := StoreLocal(StoreRequest(projectId, metadata, pinned, fault));
      FittingCallKeepsSound(db.State(), call);
      if metadata.projectId != projectId {
        return Refused(ProjectMismatch);
      }
      if !metadata.valid {
        return Refused(InvalidMetadata);
      }
      refs := refs + {metadata.snapshotId};
      if fault == Some(AfterSnapshotObjectImport) {
        return Refused(InjectedFault);
      }
      var parent := metadata.parent;
      if parent.None? {
        parent := LatestSnapshotId(db.snapshots, metadata.projectId);
      }
      var refusal := InsertSnapshot(metadata, parent, pinned);
      if refusal.Some? {
        return Refused(refusal.value);
      }
      assert db.snapshots[|db.snapshots| - 1] in db.snapshots;
      if fault == Some(AfterSourceIndexRefDelete) {
        return Refused(SourceRefsLeft);
      }
      return StoredLocally(metadata.snapshotId);
    }

    /** One decision: the guards, then the refs, then the row, committed on its own. */
    method PruneOne(latest: Option<string>, id: string) returns (refusal: Option<Refusal>)
      modifies db`snapshots, this`refs
      ensures refs == if refusal.None? || refusal == Some(StillReferenced) then old(refs) - {id} else old(refs)
      ensures refusal == PruneRefusal(old(db.snapshots), projectId, latest, id)
      ensures db.snapshots == if refusal.Some? then old(db.snapshots)
                              else RowsWithout(old(db.snapshots), projectId, id)
      ensures refusal.None? ==> !HasRow(db.snapshots, projectId, id)
    {
      if !HasRow(db.snapshots, projectId, id) {
        return Some(UnknownSnapshot);
      }
      if IsPinned(db.snapshots, projectId, id) {
        return Some(PinnedSnapshot);
      }
      if latest == Some(id) {
        return Some(LatestSnapshot);
      }
      if HasChild(db.snapshots, projectId, id) {
        return Some(HasChildren);
      }
      refs := refs - {id};
      if IsParent(db.snapshots, id) {
        return Some(StillReferenced);
      }
      RowsWithoutMembers(db.snapshots, projectId, id);
      db.snapshots := RowsWithout(db.snapshots, projectId, id);
      return None;
    }

    /** The loop over the decisions, up to the first refusal. */
    method PruneInOrder(latest: Option<string>, ids: seq<string>) returns (refusal: Option<Refusal>)
      modifies db`snapshots, this`refs
      ensures (db.snapshots, refusal) == PruneRows(old(db.snapshots), projectId, latest, ids)
      ensures refs == old(refs) - DroppedRefs(old(db.snapshots), projectId, latest, ids)
    {
      ghost var before := db.snapshots;
      var i := 0;
      while i < |ids|
        invariant i <= |ids|
        invariant PruneRows(before, projectId, latest, ids) == PruneRows(db.snapshots, projectId, latest, ids[i..])
        invariant old(refs) - DroppedRefs(before, projectId, latest, ids)
               == refs - DroppedRefs(db.snapshots, projectId, latest, ids[i..])
      {
        assert ids[i..][0] == ids[i] && ids[i..][1..] == ids[i + 1..];
        refusal := PruneOne(latest, ids[i]);
        if refusal.Some? {
          return;
        }
        i := i + 1;
      }
      return None;
    }

    /** Deletes the snapshots one by one up to the first refusal. Whatever happens, pinned rows,
        numbering and the order of parents stay. */
    method PruneSnapshots(ids: seq<string>) returns (reply: Reply)
      modifies db`snapshots, this`refs
      ensures (db.State(), reply) == Apply(old(db.State()), Prune(projectId, ids))
      ensures reply.Pruned? ==> forall id :: id in ids ==> !HasRow(db.snapshots, projectId, id)
      ensures old(RefsThere()) ==> (RefsThere() <==> reply != Refused(StillReferenced))
      ensures KeptSound(old(db.State()), db.State())
      ensures old(TableOk(db.snapshots)) ==> TableStep(old(db.snapshots), db.snapshots)
    {
      FittingCallKeepsSound(db.State(), Prune(projectId, ids));
      if TableOk(db.snapshots) {
        StepKeepsTable(db.State(), Prune(projectId, ids));
      }
      var latest := LatestSnapshotId(db.snapshots, projectId);
      PrunedAreGone(db.snapshots, projectId, latest, ids);
      RefsLostExactly(db.snapshots, projectId, latest, ids);
      PlanKeepsOnlyRows(db.snapshots, projectId, latest, ids);
      var refusal := PruneInOrder(latest, ids);
      return if refusal.Some? then Refused(refusal.value) else Pruned(|ids|);
    }
  }
}
