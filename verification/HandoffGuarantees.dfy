/**
 Consequences of the lease invariant over whole runs: which steps of the handoff policy every
 transfer satisfies, a lease frozen while its handoff is open, what a failed call leaves behind,
 recovery that never blocks, and the exact point where the stored epoch stops being monotonic.
 */
module HandoffGuarantees {
  import opened Common
  import opened HandoffTables
  import opened HandoffSafety
  import HandoffSnapshots

  ghost predicate Open(t: Tables, id: string) {
    id in t.handoffs && !t.handoffs[id].state.IsTerminal()
  }

  lemma AtMostOneOpenHandoff(t: Tables, a: string, b: string)
    requires Inv(t) && Open(t, a) && Open(t, b) && t.handoffs[a].leaseId == t.handoffs[b].leaseId
    ensures a == b
  {
    assert HandoffOk(t, a) && HandoffOk(t, b);
  }

  // ---------------------------------------------------------------- verified transfers only

  /** The preflight a call carries; a recovery carries none. */
  function PreflightOf(call: Call): Option<Preflight> {
    if call.CommitHandoff? then call.preflight else None
  }

  /** The call commits the handoff: source ready, not expired, the generation the source was at when
      it began, a target that is not revoked, a lease still waiting for it, and a preflight that
      passes if the call brought one. */
  ghost predicate Commits(t: Tables, call: Call, id: string) {
    && (call.CommitHandoff? || call.RecoverHandoff?) && call.handoffId == id && id in t.handoffs
    && var h := t.handoffs[id];
       && h.state == SourceReady && call.now <= h.ExpiresAt() && call.observed == h.generation
       && h.target !in t.revoked && CommitMatches(t, id) && !call.fault
       && (PreflightOf(call).Some? ==> PreflightPasses(PreflightOf(call).value, h.projectId))
  }

  /** Either the call commits a handoff of the lease, or the record of its transfers stays. */
  ghost predicate TransferStep(t: Tables, call: Call, l: string) {
    var u := Apply(t, call).0;
    || (Transfers(u.journal, l) == Transfers(t.journal, l) && LastTransfer(u.journal, l) == LastTransfer(t.journal, l))
    || (exists id :: Commits(t, call, id) && t.handoffs[id].leaseId == l && LastTransfer(u.journal, l) == Some(id))
  }

  lemma SettlingTransfers(t: Tables, call: Call, l: string)
    requires call.CommitHandoff? || call.RecoverHandoff?
    ensures TransferStep(t, call, l)
  {
    var u, id := Apply(t, call).0, call.handoffId;
    if u.journal != t.journal {
      var row := u.journal[|t.journal|];
      assert u.journal == t.journal + [row];
      AppendTransfers(t.journal, row, l);
      if row.leaseId == l && row.phase == LeaseCommittedPhase {
        assert Commits(t, call, id);
      }
    }
  }

  lemma BeginTransfers(t: Tables, call: Call, l: string)
    requires call.BeginHandoff?
    ensures TransferStep(t, call, l)
  {
    var u := Apply(t, call).0;
    if u != t {
      var b, p := JournalRow(call.freshId, call.leaseId, BeginPhase),
                  JournalRow(call.freshId, call.leaseId, TargetPreparePhase);
      assert t.journal + [b, p] == (t.journal + [b]) + [p];
      AppendTransfers(t.journal, b, l);
      AppendTransfers(t.journal + [b], p, l);
    }
  }

  lemma LabelTransfers(t: Tables, call: Call, l: string)
    requires call.RecordTargetApply? || call.MarkTargetVerified? || call.MarkSourceReady? || call.AbortHandoff?
    ensures TransferStep(t, call, l)
  {
    var id := call.handoffId;
    var phase := match call
                 case RecordTargetApply(_, _) => TargetApplyPhase
                 case MarkTargetVerified(_) => TargetVerifiedPhase
                 case MarkSourceReady(_) => SourceReadyPhase
                 case _ => AbortedPhase;
    var u := Apply(t, call).0;
    if id in t.handoffs {
      var row := JournalRow(id, t.handoffs[id].leaseId, phase);
      assert u.journal == t.journal || u.journal == t.journal + [row];
      AppendTransfers(t.journal, row, l);
    }
  }

  lemma StepTransfers(t: Tables, call: Call, l: string)
    ensures TransferStep(t, call, l)
  {
    if call.CommitHandoff? || call.RecoverHandoff? {
      SettlingTransfers(t, call, l);
    } else if call.BeginHandoff? {
      BeginTransfers(t, call, l);
    } else if IsAboutSnapshots(call) {
      UntouchedCalls(t, call);
    } else if !call.StoreLease? {
      LabelTransfers(t, call, l);
    }
  }

  /** A transfer on record that was not there at the start was committed by a call of the run. */
  lemma {:induction false} LastCommit(t: Tables, calls: seq<Call>, l: string) returns (k: nat, id: string)
    requires Transfers(Run(t, calls).journal, l) != Transfers(t.journal, l)
    ensures k < |calls| && Commits(At(t, calls, k), calls[k], id) && At(t, calls, k).handoffs[id].leaseId == l
    ensures LastTransfer(Run(t, calls).journal, l) == Some(id)
  {
    var front := calls[..|calls| - 1];
    var mid, last := Run(t, front), calls[|calls| - 1];
    StepTransfers(mid, last, l);
    if i :| Commits(mid, last, i) && mid.handoffs[i].leaseId == l && LastTransfer(Run(t, calls).journal, l) == Some(i) {
      k, id := |front|, i;
    } else {
      k, id := LastCommit(t, front, l);
      assert front[..k] == calls[..k];
    }
  }

  /** Call k of the run commits the handoff, after its journal went through preparation,
      verification and readiness in that order, and its target holds the lease at the end. */
  ghost predicate TransferredBy(t: Tables, calls: seq<Call>, l: string, k: nat, id: string) {
    && k < |calls| && Commits(At(t, calls, k), calls[k], id) && At(t, calls, k).handoffs[id].leaseId == l
    && PhasesOf(At(t, calls, k).journal, id) == READY
    && var u := Run(t, calls);
       && l in u.leases && id in u.handoffs && u.handoffs[id].state == Committed
       && u.leases[l].holder == Some(u.handoffs[id].target)
       && PhasesOf(u.journal, id) == READY + [LeaseCommittedPhase]
  }

  /**
   If the writer of a lease differs between two points of a run, a call of that run committed a
   handoff to the writer at the end: prepared, verified and declared ready in that order, neither
   expired nor revoked, with the source generation unchanged. What its preflight, if it brought one,
   says about the availability of the data is the subject of HandoffPolicy.dfy.
   */
  lemma NoUnverifiedTransfer(t: Tables, calls: seq<Call>, l: string)
    requires Inv(t) && LeavesRow(t, calls, l) && l in t.leases
    requires l in Run(t, calls).leases && Run(t, calls).leases[l].holder != t.leases[l].holder
    ensures exists k, id :: TransferredBy(t, calls, l, k, id)
  {
    OneWriterPerEpoch(t, calls, l);
    var k, id := LastCommit(t, calls, l);
    RunKeepsInv(t, calls);
    assert LeaseOk(Run(t, calls), l);
    assert HandoffOk(Run(t, calls), id);
    FirstCallsFit(t, calls, k);
    RunKeepsInv(t, calls[..k]);
    assert HandoffOk(At(t, calls, k), id);
    assert TransferredBy(t, calls, l, k, id);
  }

  lemma FirstCallsFit(t: Tables, calls: seq<Call>, k: nat)
    requires FittingRun(t, calls) && k <= |calls|
    ensures FittingRun(t, calls[..k])
  {
    forall i | 0 <= i < k ensures Fits(Run(t, calls[..k][..i]), calls[..k][i]) {
      assert calls[..k][..i] == calls[..i];
    }
  }

  /** The journal says that the target applied the handoff. */
  ghost predicate AppliedOnRecord(t: Tables, id: string) {
    exists row :: row in t.journal && row.handoffId == id && row.phase == TargetApplyPhase
  }

  ghost predicate RecordsApply(t: Tables, call: Call, id: string) {
    call == RecordTargetApply(id, true) && id in t.handoffs && !t.handoffs[id].state.IsTerminal()
  }

  lemma AppendApplied(t: Tables, u: Tables, row: JournalRow, id: string)
    requires u.journal == t.journal + [row]
    ensures AppliedOnRecord(u, id) <==> AppliedOnRecord(t, id) || (row.handoffId == id && row.phase == TargetApplyPhase)
  {
    if AppliedOnRecord(t, id) {
      var r :| r in t.journal && r.handoffId == id && r.phase == TargetApplyPhase;
      assert r in u.journal;
    } else if row.handoffId == id && row.phase == TargetApplyPhase {
      assert row in u.journal;
    }
  }

  lemma StepApplied(t: Tables, call: Call, id: string)
    ensures AppliedOnRecord(Apply(t, call).0, id) <==> AppliedOnRecord(t, id) || RecordsApply(t, call, id)
  {
    var u := Apply(t, call).0;
    if IsAboutSnapshots(call) {
      UntouchedCalls(t, call);
    } else if call.BeginHandoff? {
      if u != t {
        var b, p := JournalRow(call.freshId, call.leaseId, BeginPhase),
                    JournalRow(call.freshId, call.leaseId, TargetPreparePhase);
        var mid := t.(journal := t.journal + [b]);
        assert t.journal + [b, p] == (t.journal + [b]) + [p];
        AppendApplied(t, mid, b, id);
        AppendApplied(mid, u, p, id);
      }
    } else if u.journal != t.journal {
      OneRowWritten(t, call);
      AppendApplied(t, u, u.journal[|t.journal|], id);
    }
  }

  lemma OneRowWritten(t: Tables, call: Call)
    requires !IsAboutSnapshots(call) && !call.BeginHandoff? && Apply(t, call).0.journal != t.journal
    ensures |Apply(t, call).0.journal| == |t.journal| + 1
    ensures Apply(t, call).0.journal == t.journal + [Apply(t, call).0.journal[|t.journal|]]
    ensures Apply(t, call).0.journal[|t.journal|].phase == TargetApplyPhase
            <==> call.RecordTargetApply?
    ensures call.RecordTargetApply? ==>
              Apply(t, call).0.journal[|t.journal|].handoffId == call.handoffId
              && RecordsApply(t, call, call.handoffId)
  {
  }

  ghost predicate RecordedInRun(t: Tables, calls: seq<Call>, id: string) {
    exists k :: 0 <= k < |calls| && RecordsApply(At(t, calls, k), calls[k], id)
  }

  /** The target-apply step of the policy is on record exactly if it was before or a call of the run
      recorded it while the handoff was open; no transfer asks for it. */
  lemma {:induction false} AppliedOnRecordExactly(t: Tables, calls: seq<Call>, id: string)
    ensures AppliedOnRecord(Run(t, calls), id)
            <==> (AppliedOnRecord(t, id) || RecordedInRun(t, calls, id))
  {
    if calls != [] {
      var n := |calls| - 1;
      var front := calls[..n];
      AppliedOnRecordExactly(t, front, id);
      StepApplied(Run(t, front), calls[n], id);
      assert forall k :: 0 <= k < n ==> front[..k] == calls[..k];
      if RecordsApply(At(t, calls, n), calls[n], id) {
      } else if RecordedInRun(t, calls, id) {
        var k :| 0 <= k < |calls| && RecordsApply(At(t, calls, k), calls[k], id);
        assert RecordsApply(At(t, front, k), front[k], id);
      }
      if k :| 0 <= k < n && RecordsApply(At(t, front, k), front[k], id) {
        assert RecordsApply(At(t, calls, k), calls[k], id);
      }
    }
  }

  // ---------------------------------------------------------------- a frozen lease

  /** What a call may do to an existing handoff: it stays, finished ones never change, and
      while it is open its lease row does not change at all. */
  ghost predicate HandoffStep(t: Tables, u: Tables, id: string) {
    && id in t.handoffs && id in u.handoffs
    && u.handoffs[id].(state := t.handoffs[id].state) == t.handoffs[id]
    && (t.handoffs[id].state.IsTerminal() ==> u.handoffs[id].state == t.handoffs[id].state)
    && (Open(u, id) ==>
          && t.handoffs[id].leaseId in t.leases && t.handoffs[id].leaseId in u.leases
          && u.leases[t.handoffs[id].leaseId] == t.leases[t.handoffs[id].leaseId])
  }

  lemma BeginFreezes(t: Tables, call: Call, id: string)
    requires Inv(t) && call.BeginHandoff? && id in t.handoffs
    ensures HandoffStep(t, Apply(t, call).0, id)
  {
    assert HandoffOk(t, id);
  }

  lemma AdvanceFreezes(t: Tables, other: string, expected: HandoffState, next: HandoffState, phase: Phase, id: string)
    requires Inv(t) && id in t.handoffs && !expected.IsTerminal()
    ensures HandoffStep(t, Advance(t, other, expected, next, phase).0, id)
  {
    assert HandoffOk(t, id);
  }

  lemma ReleaseFreezes(t: Tables, other: string, id: string)
    requires Inv(t) && id in t.handoffs && Open(t, other)
    ensures HandoffStep(t, Release(t, other), id)
  {
    assert HandoffOk(t, id);
    assert HandoffOk(t, other);
  }

  lemma AbortFreezes(t: Tables, other: string, id: string)
    requires Inv(t) && id in t.handoffs
    ensures HandoffStep(t, Abort(t, other).0, id)
  {
    assert HandoffOk(t, id);
    if Open(t, other) {
      ReleaseFreezes(t, other, id);
    }
  }

  lemma TransferFreezes(t: Tables, other: string, id: string)
    requires Inv(t) && id in t.handoffs && Open(t, other) && CommitMatches(t, other)
    ensures HandoffStep(t, Transfer(t, other), id)
  {
    assert HandoffOk(t, id);
    assert HandoffOk(t, other);
  }

  lemma CommitFreezes(t: Tables, other: string, observed: string, now: u64, preflight: Option<Preflight>,
                      fault: bool, id: string)
    requires Inv(t) && id in t.handoffs
    ensures HandoffStep(t, Commit(t, other, observed, now, preflight, fault).0, id)
  {
    assert HandoffOk(t, id);
    CommitShapes(t, other, observed, now, preflight, fault);
    if Open(t, other) {
      ReleaseFreezes(t, other, id);
      if CommitMatches(t, other) {
        TransferFreezes(t, other, id);
      }
    }
  }

  lemma RecoverFreezes(t: Tables, other: string, observed: string, now: u64, fault: bool, id: string)
    requires Inv(t) && id in t.handoffs
    ensures HandoffStep(t, Recover(t, other, observed, now, fault).0, id)
  {
    assert HandoffOk(t, id);
    AbortFreezes(t, other, id);
    CommitFreezes(t, other, observed, now, None, fault, id);
  }

  lemma PublishLeavesPending(t: Tables, r: PublishRequest, l: string)
    requires l in t.leases && t.leases[l].state == HandoffPending
    ensures l in PublishCanonical(t, r).0.leases && PublishCanonical(t, r).0.leases[l] == t.leases[l]
  {
  }

  lemma ForkLeavesPending(t: Tables, r: ForkRequest, l: string)
    requires l in t.leases && t.leases[l].state == HandoffPending
    ensures l in PublishAsFork(t, r).0.leases && PublishAsFork(t, r).0.leases[l] == t.leases[l]
  {
  }

  lemma SnapshotCallsLeavePending(t: Tables, call: Call, l: string)
    requires IsAboutSnapshots(call) && l in t.leases && t.leases[l].state == HandoffPending
    ensures l in Apply(t, call).0.leases && Apply(t, call).0.leases[l] == t.leases[l]
  {
    match call
    case Publish(r) => PublishLeavesPending(t, r, l);
    case PublishFork(r) => ForkLeavesPending(t, r, l);
    case _ =>
  }

  lemma SnapshotCallsFreeze(t: Tables, call: Call, id: string)
    requires Inv(t) && id in t.handoffs && IsAboutSnapshots(call)
    ensures HandoffStep(t, Apply(t, call).0, id)
  {
    UntouchedCalls(t, call);
    if Open(t, id) {
      assert HandoffOk(t, id) && LeaseOk(t, t.handoffs[id].leaseId);
      SnapshotCallsLeavePending(t, call, t.handoffs[id].leaseId);
    }
  }

  lemma OtherRowsFreeze(t: Tables, call: Call, id: string)
    requires Inv(t) && id in t.handoffs && !Overwrites(call, t.handoffs[id].leaseId)
    requires call.StoreLease? || call.RecordTargetApply?
    ensures HandoffStep(t, Apply(t, call).0, id)
  {
    assert HandoffOk(t, id);
  }

  lemma StepFreezes(t: Tables, call: Call, id: string)
    requires Inv(t) && id in t.handoffs && !Overwrites(call, t.handoffs[id].leaseId)
    ensures HandoffStep(t, Apply(t, call).0, id)
  {
    match call
    case StoreLease(_, _) => OtherRowsFreeze(t, call, id);
    case RecordTargetApply(_, _) => OtherRowsFreeze(t, call, id);
    case BeginHandoff(_, _, _, _, _, _, _) => BeginFreezes(t, call, id);
    case MarkTargetVerified(other) => AdvanceFreezes(t, other, TargetPrepare, TargetVerified, TargetVerifiedPhase, id);
    case MarkSourceReady(other) => AdvanceFreezes(t, other, TargetVerified, SourceReady, SourceReadyPhase, id);
    case AbortHandoff(other) => AbortFreezes(t, other, id);
    case CommitHandoff(other, observed, now, preflight, fault) =>
      CommitFreezes(t, other, observed, now, preflight, fault, id);
    case RecoverHandoff(other, observed, now, fault) => RecoverFreezes(t, other, observed, now, fault, id);
    case _ => SnapshotCallsFreeze(t, call, id);
  }

  /**
   While a handoff stays open, whatever else runs, its lease row is untouched: no publish, no
   second handoff, no change of writer, epoch or latest snapshot. Finished handoffs are final.
   */
  lemma {:induction false} OpenHandoffFreezesLease(t: Tables, calls: seq<Call>, id: string)
    requires Inv(t) && id in t.handoffs && LeavesRow(t, calls, t.handoffs[id].leaseId)
    ensures HandoffStep(t, Run(t, calls), id)
  {
    if calls == [] {
      assert HandoffOk(t, id);
    } else {
      var front := calls[..|calls| - 1];
      PrefixLeavesRow(t, calls, t.handoffs[id].leaseId);
      OpenHandoffFreezesLease(t, front, id);
      RunKeepsInv(t, front);
      StepFreezes(Run(t, front), calls[|calls| - 1], id);
    }
  }

  // ---------------------------------------------------------------- failure and recovery

  lemma {:induction false} PlanShortens(rows: seq<SnapshotRow>, projectId: string, latest: Option<string>,
                                        ids: seq<string>)
    ensures |PruneRows(rows, projectId, latest, ids).0| <= |rows|
    ensures ids != [] && PruneRefusal(rows, projectId, latest, ids[0]) == None ==>
              |PruneRows(rows, projectId, latest, ids).0| < |rows|
    decreases |ids|
  {
    if ids != [] && PruneRefusal(rows, projectId, latest, ids[0]) == None {
      HandoffSnapshots.RowsWithoutShorter(rows, projectId, ids[0]);
      PlanShortens(RowsWithout(rows, projectId, ids[0]), projectId, latest, ids[1..]);
    }
  }

  /** The prune went some way before it was refused. */
  ghost predicate PrunedSome(t: Tables, call: Call) {
    && call.Prune? && call.ids != []
    && PruneRefusal(t.snapshots, call.projectId, LatestSnapshotId(t.snapshots, call.projectId), call.ids[0]) == None
  }

  lemma RefusedPrune(t: Tables, call: Call)
    requires call.Prune?
    ensures Apply(t, call).0 != t <==> PrunedSome(t, call)
  {
    PlanShortens(t.snapshots, call.projectId, LatestSnapshotId(t.snapshots, call.projectId), call.ids);
  }

  /** A settlement finds the source ready but the handoff expired, or the source moved on. */
  ghost predicate ComesTooLate(t: Tables, call: Call) {
    && (call.CommitHandoff? || call.RecoverHandoff?) && call.handoffId in t.handoffs
    && var h := t.handoffs[call.handoffId];
       h.state == SourceReady && (call.now > h.ExpiresAt() || call.observed != h.generation)
  }

  /** A store that would go through, but for the fault that leaves the source refs behind. */
  ghost predicate LeavesSourceRefs(t: Tables, call: Call) {
    call.StoreLocal? && StoreRefusal(t, call.store).None? && call.store.fault == Some(AfterSourceIndexRefDelete)
  }

  lemma RefusedSettlement(t: Tables, call: Call)
    requires (call.CommitHandoff? || call.RecoverHandoff?) && Apply(t, call).1.Refused?
    ensures Apply(t, call).0 != t <==> ComesTooLate(t, call)
  {
    var id := call.handoffId;
    if id in t.handoffs && t.handoffs[id].state == SourceReady {
      assert Release(t, id).handoffs[id].state == Aborted;
    }
  }

  lemma RefusedSnapshotCall(t: Tables, call: Call)
    requires IsAboutSnapshots(call) && !call.Prune? && Apply(t, call).1.Refused?
    ensures Apply(t, call).0 != t <==> LeavesSourceRefs(t, call)
  {
    if LeavesSourceRefs(t, call) {
      assert |Apply(t, call).0.snapshots| == |t.snapshots| + 1;
    }
  }

  lemma RefusedLabel(t: Tables, call: Call)
    requires call.StoreLease? || call.BeginHandoff? || call.RecordTargetApply? || call.MarkTargetVerified?
          || call.MarkSourceReady? || call.AbortHandoff?
    requires Apply(t, call).1.Refused?
    ensures Apply(t, call).0 == t
  {
  }

  /**
   A refused call changes the tables exactly in three cases, all known before the call: a settlement
   that comes too late releases the handoff, a local store whose source refs cannot be removed keeps
   its row, and a prune whose first decision passes keeps the deletions before the one it stops at.
   */
  lemma RefusalIsAtomic(t: Tables, call: Call)
    requires Apply(t, call).1.Refused?
    ensures Apply(t, call).0 != t <==> ComesTooLate(t, call) || LeavesSourceRefs(t, call) || PrunedSome(t, call)
  {
    if call.CommitHandoff? || call.RecoverHandoff? {
      RefusedSettlement(t, call);
    } else if call.Prune? {
      RefusedPrune(t, call);
    } else if IsAboutSnapshots(call) {
      RefusedSnapshotCall(t, call);
    } else {
      RefusedLabel(t, call);
    }
  }

  /** The call aborts a handoff that was open. */
  ghost predicate Aborts(t: Tables, call: Call, id: string) {
    Open(t, id) && id in Apply(t, call).0.handoffs && Apply(t, call).0.handoffs[id].state == Aborted
  }

  lemma OnlySettlingAborts(t: Tables, call: Call, id: string)
    requires Aborts(t, call, id)
    ensures (call.AbortHandoff? || call.CommitHandoff? || call.RecoverHandoff?) && call.handoffId == id
  {
    if IsAboutSnapshots(call) {
      UntouchedCalls(t, call);
    }
  }

  lemma AbortedEntry(t: Tables, id: string)
    requires Inv(t) && Open(t, id)
    ensures AbortedPhase !in PhasesOf(t.journal, id) && AbortedPhase in PhasesOf(Abort(t, id).0.journal, id)
  {
    assert HandoffOk(t, id);
    AppendPhases(t.journal, JournalRow(id, t.handoffs[id].leaseId, AbortedPhase), id);
  }

  /** A call that aborts an open handoff leaves an aborted entry in its journal exactly if it does not
      report an error: the abort itself and the recovery of an expired handoff do, a rejected commit
      does not. */
  lemma AbortIsJournaledExactly(t: Tables, call: Call, id: string)
    requires Inv(t) && Aborts(t, call, id)
    ensures AbortedPhase in PhasesOf(Apply(t, call).0.journal, id) <==> !Apply(t, call).1.Refused?
    ensures !Apply(t, call).1.Refused?
            <==> call.AbortHandoff? || (call.RecoverHandoff? && call.now > t.handoffs[id].ExpiresAt())
  {
    OnlySettlingAborts(t, call, id);
    AbortedEntry(t, id);
    if call.CommitHandoff? {
      CommitShapes(t, id, call.observed, call.now, call.preflight, call.fault);
    } else if call.RecoverHandoff? {
      CommitShapes(t, id, call.observed, call.now, None, call.fault);
    }
  }

  /** Recovering twice is recovering once. */
  lemma RecoveryIsIdempotent(t: Tables, id: string, observed: string, now: u64, fault: bool)
    ensures Recover(Recover(t, id, observed, now, fault).0, id, observed, now, fault).0
            == Recover(t, id, observed, now, fault).0
  {
    if id in t.handoffs && t.handoffs[id].state == SourceReady {
      CommitShapes(t, id, observed, now, None, fault);
    }
  }

  /** An expired handoff never blocks its lease: recovery returns it, active, to the same writer
      with the same epoch and latest snapshot, and that writer can start over. */
  lemma ExpiredRecoveryFreesLease(t: Tables, id: string, observed: string, now: u64, fault: bool, call: Call)
    requires Inv(t) && Open(t, id) && now > t.handoffs[id].ExpiresAt()
    requires call.BeginHandoff? && call.leaseId == t.handoffs[id].leaseId && call.freshId !in t.handoffs
    requires call.source == t.handoffs[id].source && call.source !in t.revoked && call.target !in t.revoked
    ensures var (u, reply) := Recover(t, id, observed, now, fault);
            var l := t.handoffs[id].leaseId;
            && reply == Recovered(AbortedExpired)
            && l in t.leases && l in u.leases
            && u.leases[l] == t.leases[l].(state := Active, handoffId := None)
            && Apply(u, call).1 == HandoffReply(call.freshId, TargetPrepare)
  {
    var u := Recover(t, id, observed, now, fault).0;
    assert HandoffOk(t, id) && LeaseOk(t, t.handoffs[id].leaseId);
    forall h | h in u.handoffs && u.handoffs[h].leaseId == t.handoffs[id].leaseId
      ensures u.handoffs[h].state.IsTerminal()
    {
      if h != id {
        assert HandoffOk(t, h);
      }
    }
  }

  // ---------------------------------------------------------------- the stored epoch

  /** A commit raises the epoch that readers see exactly when it was below the signed maximum;
      at the maximum the stored column wraps and the epoch reads as zero. */
  lemma CommitRaisesEpochExactly(t: Tables, id: string, observed: string, now: u64,
                                 preflight: Option<Preflight>, fault: bool)
    requires Inv(t) && Commit(t, id, observed, now, preflight, fault).1 == HandoffReply(id, Committed)
    ensures var l := t.handoffs[id].leaseId;
            var u := Commit(t, id, observed, now, preflight, fault).0;
            && l in t.leases && l in u.leases
            && (u.leases[l].Epoch() > t.leases[l].Epoch() <==> t.leases[l].Epoch() < I64_MAX)
            && u.leases[l].Epoch() == (if t.leases[l].Epoch() < I64_MAX then t.leases[l].Epoch() + 1 else 0)
            && u.leases[l].holder == Some(t.handoffs[id].target)
            && u.leases[l].latest == t.leases[l].latest
  {
    assert HandoffOk(t, id) && LeaseOk(t, t.handoffs[id].leaseId);
  }

  /** After that wrap the lease keeps its writer forever: no further handoff can commit. */
  lemma WrappedLeaseNeverTransfers(t: Tables, calls: seq<Call>, l: string)
    requires Inv(t) && LeavesRow(t, calls, l) && l in t.leases && t.leases[l].epochColumn < 0
    ensures l in Run(t, calls).leases && Run(t, calls).leases[l].holder == t.leases[l].holder
  {
    OneWriterPerEpoch(t, calls, l);
  }

  /** The call commits a handoff of the lease. */
  ghost predicate CommitsOn(t: Tables, call: Call, l: string) {
    exists id :: Commits(t, call, id) && t.handoffs[id].leaseId == l
  }

  /** How many calls of the run commit a handoff of the lease, judged by the state before each. */
  ghost function CommitCount(t: Tables, calls: seq<Call>, l: string): nat {
    if calls == [] then 0
    else
      var front := calls[..|calls| - 1];
      CommitCount(t, front, l) + (if CommitsOn(Run(t, front), calls[|calls| - 1], l) then 1 else 0)
  }

  lemma CommitIsRecorded(t: Tables, call: Call, l: string)
    ensures Transfers(Apply(t, call).0.journal, l) == Transfers(t.journal, l) + (if CommitsOn(t, call, l) then 1 else 0)
  {
    StepTransfers(t, call, l);
    if id :| Commits(t, call, id) && t.handoffs[id].leaseId == l {
      AppendTransfers(t.journal, JournalRow(id, l, LeaseCommittedPhase), l);
    }
  }

  lemma {:induction false} CommitsAreRecorded(t: Tables, calls: seq<Call>, l: string)
    ensures Transfers(Run(t, calls).journal, l) == Transfers(t.journal, l) + CommitCount(t, calls, l)
  {
    if calls != [] {
      CommitsAreRecorded(t, calls[..|calls| - 1], l);
      CommitIsRecorded(Run(t, calls[..|calls| - 1]), calls[|calls| - 1], l);
    }
  }

  /** Over every run the epoch that readers see decreases exactly when more calls commit a handoff of
      the lease than its epoch is away from the signed maximum at the start. */
  lemma EpochMonotonicExactly(t: Tables, calls: seq<Call>, l: string)
    requires Inv(t) && LeavesRow(t, calls, l) && l in t.leases
    ensures var u := Run(t, calls);
            && l in u.leases
            && (u.leases[l].Epoch() < t.leases[l].Epoch() <==>
                  t.leases[l].epochColumn > 0 && CommitCount(t, calls, l) > I64_MAX - t.leases[l].epochColumn)
            && (u.leases[l].epochColumn >= 0 && u.leases[l].Epoch() == t.leases[l].Epoch() ==>
                  u.leases[l].holder == t.leases[l].holder)
  {
    OneWriterPerEpoch(t, calls, l);
    CommitsAreRecorded(t, calls, l);
  }

  /** So a run of fewer calls than that never lowers it. */
  lemma ShortRunsKeepEpoch(t: Tables, calls: seq<Call>, l: string)
    requires Inv(t) && LeavesRow(t, calls, l) && l in t.leases
    requires t.leases[l].epochColumn > 0 ==> |calls| <= I64_MAX - t.leases[l].epochColumn
    ensures l in Run(t, calls).leases && Run(t, calls).leases[l].Epoch() >= t.leases[l].Epoch()
  {
    EpochMonotonicExactly(t, calls, l);
    CommitsAtMostCalls(t, calls, l);
  }

  lemma {:induction false} CommitsAtMostCalls(t: Tables, calls: seq<Call>, l: string)
    ensures CommitCount(t, calls, l) <= |calls|
  {
    if calls != [] {
      CommitsAtMostCalls(t, calls[..|calls| - 1], l);
    }
  }
}
