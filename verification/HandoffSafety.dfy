/**
 What every run of the lease database keeps: at most one open handoff per lease, no transfer
 before verification, one writer per epoch, a frozen lease while a handoff is open, and a
 canonical latest snapshot that only its writer can move.
 */
module HandoffSafety {
  import opened Common
  import opened HandoffTables

  // ---------------------------------------------------------------- reading the journal

  /** The phases recorded for a handoff, without the repeatable target-apply entries. */
  function PhasesOf(journal: seq<JournalRow>, id: string): seq<Phase> {
    if journal == [] then []
    else
      var row := journal[|journal| - 1];
      PhasesOf(journal[..|journal| - 1], id)
      + (if row.handoffId == id && row.phase != TargetApplyPhase then [row.phase] else [])
  }

  /** How many transfers of a lease the journal records. */
  function Transfers(journal: seq<JournalRow>, leaseId: string): nat {
    if journal == [] then 0
    else
      var row := journal[|journal| - 1];
      Transfers(journal[..|journal| - 1], leaseId)
      + (if row.leaseId == leaseId && row.phase == LeaseCommittedPhase then 1 else 0)
  }

  /** The handoff of the last recorded transfer of a lease. */
  function LastTransfer(journal: seq<JournalRow>, leaseId: string): Option<string> {
    if journal == [] then None
    else
      var row := journal[|journal| - 1];
      if row.leaseId == leaseId && row.phase == LeaseCommittedPhase then Some(row.handoffId)
      else LastTransfer(journal[..|journal| - 1], leaseId)
  }

  lemma {:induction false} AppendPhases(journal: seq<JournalRow>, row: JournalRow, id: string)
    ensures PhasesOf(journal + [row], id) == PhasesOf(journal, id)
              + (if row.handoffId == id && row.phase != TargetApplyPhase then [row.phase] else [])
  {
    assert (journal + [row])[..|journal|] == journal;
  }

  lemma {:induction false} AppendTransfers(journal: seq<JournalRow>, row: JournalRow, leaseId: string)
    ensures Transfers(journal + [row], leaseId) == Transfers(journal, leaseId)
              + (if row.leaseId == leaseId && row.phase == LeaseCommittedPhase then 1 else 0)
    ensures LastTransfer(journal + [row], leaseId)
            == if row.leaseId == leaseId && row.phase == LeaseCommittedPhase then Some(row.handoffId)
               else LastTransfer(journal, leaseId)
  {
    assert (journal + [row])[..|journal|] == journal;
  }

  lemma {:induction false} ForeignPhases(journal: seq<JournalRow>, id: string)
    requires forall row :: row in journal ==> row.handoffId != id
    ensures PhasesOf(journal, id) == []
  {
    if journal != [] {
      ForeignPhases(journal[..|journal| - 1], id);
    }
  }

  lemma {:induction false} ForeignTransfers(journal: seq<JournalRow>, leaseId: string)
    requires forall row :: row in journal ==> row.leaseId != leaseId
    ensures LastTransfer(journal, leaseId) == None
  {
    if journal != [] {
      ForeignTransfers(journal[..|journal| - 1], leaseId);
    }
  }

  // ---------------------------------------------------------------- the invariant

  const PREPARED: seq<Phase> := [BeginPhase, TargetPreparePhase]
  const VERIFIED: seq<Phase> := [BeginPhase, TargetPreparePhase, TargetVerifiedPhase]
  const READY: seq<Phase> := [BeginPhase, TargetPreparePhase, TargetVerifiedPhase, SourceReadyPhase]

  /** What the journal of a handoff says, given its state. A handoff aborted by a rejected
      commit keeps the full path without an aborted entry. */
  ghost predicate PhasesMatch(state: HandoffState, phases: seq<Phase>) {
    match state
    case TargetPrepare => phases == PREPARED
    case TargetVerified => phases == VERIFIED
    case SourceReady => phases == READY
    case Committed => phases == READY + [LeaseCommittedPhase]
    case Aborted =>
      || phases == READY
      || phases == PREPARED + [AbortedPhase]
      || phases == VERIFIED + [AbortedPhase]
      || phases == READY + [AbortedPhase]
  }

  ghost predicate LeaseOk(t: Tables, leaseId: string)
    requires leaseId in t.leases
  {
    var lease := t.leases[leaseId];
    && (lease.state == HandoffPending <==> lease.handoffId.Some?)
    && (lease.handoffId.Some? ==>
          && lease.handoffId.value in t.handoffs
          && var h := t.handoffs[lease.handoffId.value];
             && h.leaseId == leaseId
             && !h.state.IsTerminal()
             && h.expectedEpochColumn == lease.Epoch()
             && lease.holder == Some(h.source))
    && var last := LastTransfer(t.journal, leaseId);
       (last.Some? ==>
          && last.value in t.handoffs
          && var h := t.handoffs[last.value];
             h.leaseId == leaseId && h.state == Committed && lease.holder == Some(h.target))
  }

  ghost predicate HandoffOk(t: Tables, id: string)
    requires id in t.handoffs
  {
    var h := t.handoffs[id];
    && h.leaseId in t.leases
    && (!h.state.IsTerminal() ==> t.leases[h.leaseId].handoffId == Some(id))
    && PhasesMatch(h.state, PhasesOf(t.journal, id))
  }

  ghost predicate JournalOk(t: Tables) {
    forall row :: row in t.journal ==>
                    row.handoffId in t.handoffs && t.handoffs[row.handoffId].leaseId == row.leaseId
  }

  ghost predicate Inv(t: Tables) {
    && (forall l :: l in t.leases ==> LeaseOk(t, l))
    && (forall id :: id in t.handoffs ==> HandoffOk(t, id))
    && JournalOk(t)
  }

  predicate Overwrites(call: Call, l: string) {
    call.StoreLease? && call.leaseId == l
  }

  /** What a stored lease row must respect: a new row carries no handoff; an existing row keeps its
      handoff, with holder and epoch while that handoff is open, and its holder once a transfer is
      on record. */
  ghost predicate Fits(t: Tables, call: Call) {
    call.StoreLease? ==>
      var l, row := call.leaseId, call.row;
      && (row.state == HandoffPending <==> row.handoffId.Some?)
      && (l !in t.leases ==> row.handoffId.None?)
      && (l in t.leases ==>
            && row.handoffId == t.leases[l].handoffId
            && (row.handoffId.Some? ==> row.holder == t.leases[l].holder && row.Epoch() == t.leases[l].Epoch())
            && (Transfers(t.journal, l) > 0 ==> row.holder == t.leases[l].holder))
  }

  ghost predicate FittingRun(t: Tables, calls: seq<Call>) {
    forall i :: 0 <= i < |calls| ==> Fits(Run(t, calls[..i]), calls[i])
  }

  /** A fitting run that never overwrites the lease. */
  ghost predicate LeavesRow(t: Tables, calls: seq<Call>, l: string) {
    && FittingRun(t, calls)
    && forall i :: 0 <= i < |calls| ==> !Overwrites(calls[i], l)
  }

  /** The state after the first i calls. */
  function At(t: Tables, calls: seq<Call>, i: nat): Tables
    requires i <= |calls|
  {
    Run(t, calls[..i])
  }

  lemma AtStart(t: Tables, calls: seq<Call>)
    ensures At(t, calls, 0) == t
  {
    assert calls[..0] == [];
  }

  lemma AtNext(t: Tables, calls: seq<Call>, i: nat)
    requires i < |calls|
    ensures At(t, calls, i + 1) == Apply(At(t, calls, i), calls[i]).0
  {
    assert calls[..i + 1][..i] == calls[..i];
  }

  lemma AtEnd(t: Tables, calls: seq<Call>)
    ensures At(t, calls, |calls|) == Run(t, calls)
  {
    assert calls[..|calls|] == calls;
  }

  lemma {:induction false} SomeTransferIsLast(journal: seq<JournalRow>, l: string)
    ensures Transfers(journal, l) > 0 <==> LastTransfer(journal, l).Some?
  {
    if journal != [] {
      SomeTransferIsLast(journal[..|journal| - 1], l);
    }
  }

  lemma StoreLeaseKeepsInv(t: Tables, leaseId: string, row: LeaseRow)
    requires Inv(t) && Fits(t, StoreLease(leaseId, row))
    ensures Inv(Apply(t, StoreLease(leaseId, row)).0)
  {
    var u := Apply(t, StoreLease(leaseId, row)).0;
    if leaseId !in t.leases {
      forall r | r in t.journal ensures r.leaseId != leaseId {
        assert HandoffOk(t, r.handoffId);
      }
      ForeignTransfers(t.journal, leaseId);
    }
    SomeTransferIsLast(t.journal, leaseId);
    forall l | l in u.leases ensures LeaseOk(u, l) {
      assert l in t.leases ==> LeaseOk(t, l);
    }
    forall id | id in u.handoffs ensures HandoffOk(u, id) {
      assert HandoffOk(t, id);
    }
  }

  /** Nothing less will do: an overwrite that does not fit breaks the invariant. */
  lemma StoreLeaseNeedsFit(t: Tables, leaseId: string, row: LeaseRow)
    requires Inv(t) && Inv(Apply(t, StoreLease(leaseId, row)).0)
    ensures Fits(t, StoreLease(leaseId, row))
  {
    var u := Apply(t, StoreLease(leaseId, row)).0;
    assert LeaseOk(u, leaseId);
    SomeTransferIsLast(t.journal, leaseId);
    if row.handoffId.Some? {
      assert HandoffOk(u, row.handoffId.value);
      assert HandoffOk(t, row.handoffId.value);
    }
    if leaseId in t.leases {
      assert LeaseOk(t, leaseId);
      if t.leases[leaseId].handoffId.Some? {
        assert HandoffOk(u, t.leases[leaseId].handoffId.value);
      }
    }
  }

  /** The tables after a successful begin. */
  ghost predicate Begun(t: Tables, u: Tables, leaseId: string, id: string, row: HandoffRow) {
    && leaseId in t.leases && t.leases[leaseId].state == Active && id !in t.handoffs
    && row.leaseId == leaseId && row.state == TargetPrepare
    && row.expectedEpochColumn == t.leases[leaseId].Epoch()
    && t.leases[leaseId].holder == Some(row.source)
    && u.leases == t.leases[leaseId := t.leases[leaseId].(state := HandoffPending, handoffId := Some(id))]
    && u.handoffs == t.handoffs[id := row]
    && u.journal == (t.journal + [JournalRow(id, leaseId, BeginPhase)]) + [JournalRow(id, leaseId, TargetPreparePhase)]
  }

  lemma BegunKeepsInv(t: Tables, u: Tables, leaseId: string, id: string, row: HandoffRow)
    requires Inv(t) && Begun(t, u, leaseId, id, row)
    ensures Inv(u)
  {
    var b, p := JournalRow(id, leaseId, BeginPhase), JournalRow(id, leaseId, TargetPreparePhase);
    forall l | l in u.leases ensures LeaseOk(u, l) {
      assert LeaseOk(t, l);
      AppendTransfers(t.journal, b, l);
      AppendTransfers(t.journal + [b], p, l);
    }
    forall h | h in u.handoffs ensures HandoffOk(u, h) {
      BegunHandoffOk(t, u, leaseId, id, row, h);
    }
  }

  lemma BegunHandoffOk(t: Tables, u: Tables, leaseId: string, id: string, row: HandoffRow, h: string)
    requires Inv(t) && Begun(t, u, leaseId, id, row) && h in u.handoffs
    ensures HandoffOk(u, h)
  {
    var b, p := JournalRow(id, leaseId, BeginPhase), JournalRow(id, leaseId, TargetPreparePhase);
    AppendPhases(t.journal, b, h);
    AppendPhases(t.journal + [b], p, h);
    if h == id {
      ForeignPhases(t.journal, id);
    } else {
      assert HandoffOk(t, h);
      assert LeaseOk(t, leaseId);
    }
  }

  lemma BeginKeepsInv(t: Tables, call: Call)
    requires Inv(t) && call.BeginHandoff?
    ensures Inv(Apply(t, call).0)
  {
    var u := Apply(t, call).0;
    if u != t {
      var b, p := JournalRow(call.freshId, call.leaseId, BeginPhase),
                  JournalRow(call.freshId, call.leaseId, TargetPreparePhase);
      assert t.journal + [b, p] == (t.journal + [b]) + [p];
      BegunKeepsInv(t, u, call.leaseId, call.freshId, u.handoffs[call.freshId]);
    }
  }

  lemma ApplyRecordKeepsInv(t: Tables, call: Call)
    requires Inv(t) && call.RecordTargetApply?
    ensures Inv(Apply(t, call).0)
  {
    var u := Apply(t, call).0;
    if u != t {
      var row := JournalRow(call.handoffId, t.handoffs[call.handoffId].leaseId, TargetApplyPhase);
      forall l | l in u.leases ensures LeaseOk(u, l) {
        assert LeaseOk(t, l);
        AppendTransfers(t.journal, row, l);
      }
      forall h | h in u.handoffs ensures HandoffOk(u, h) {
        assert HandoffOk(t, h);
        AppendPhases(t.journal, row, h);
      }
    }
  }

  lemma AdvanceKeepsInv(t: Tables, id: string, expected: HandoffState, next: HandoffState, phase: Phase)
    requires Inv(t)
    requires (expected == TargetPrepare && next == TargetVerified && phase == TargetVerifiedPhase)
          || (expected == TargetVerified && next == SourceReady && phase == SourceReadyPhase)
    ensures Inv(Advance(t, id, expected, next, phase).0)
  {
    if id in t.handoffs && t.handoffs[id].state == expected {
      var u := Advance(t, id, expected, next, phase).0;
      var row := JournalRow(id, t.handoffs[id].leaseId, phase);
      forall l | l in u.leases ensures LeaseOk(u, l) {
        assert LeaseOk(t, l);
        AppendTransfers(t.journal, row, l);
      }
      forall h | h in u.handoffs ensures HandoffOk(u, h) {
        AdvancedHandoffOk(t, id, expected, next, phase, h);
      }
    }
  }

  lemma AdvancedHandoffOk(t: Tables, id: string, expected: HandoffState, next: HandoffState, phase: Phase, h: string)
    requires Inv(t) && id in t.handoffs && t.handoffs[id].state == expected && h in t.handoffs
    requires (expected == TargetPrepare && next == TargetVerified && phase == TargetVerifiedPhase)
          || (expected == TargetVerified && next == SourceReady && phase == SourceReadyPhase)
    ensures HandoffOk(Advance(t, id, expected, next, phase).0, h)
  {
    assert HandoffOk(t, h);
    AppendPhases(t.journal, JournalRow(id, t.handoffs[id].leaseId, phase), h);
  }

  /** Releasing an open handoff gives the lease back, active, with its holder and epoch. */
  lemma ReleaseEffect(t: Tables, id: string)
    requires Inv(t) && id in t.handoffs && !t.handoffs[id].state.IsTerminal()
    ensures var leaseId := t.handoffs[id].leaseId;
            && leaseId in t.leases
            && Release(t, id).leases
               == t.leases[leaseId := t.leases[leaseId].(state := Active, handoffId := None)]
  {
    assert HandoffOk(t, id);
  }

  lemma AbortKeepsInv(t: Tables, id: string)
    requires Inv(t)
    ensures Inv(Abort(t, id).0)
  {
    var u := Abort(t, id).0;
    if u != t {
      ReleaseEffect(t, id);
      var row := JournalRow(id, t.handoffs[id].leaseId, AbortedPhase);
      forall l | l in u.leases ensures LeaseOk(u, l) {
        assert LeaseOk(t, l);
        AppendTransfers(t.journal, row, l);
      }
      forall h | h in u.handoffs ensures HandoffOk(u, h) {
        assert HandoffOk(t, h);
        assert HandoffOk(t, id);
        AppendPhases(t.journal, row, h);
      }
    }
  }

  lemma RejectedCommitKeepsInv(t: Tables, id: string)
    requires Inv(t) && id in t.handoffs && t.handoffs[id].state == SourceReady
    ensures Inv(Release(t, id))
  {
    var u := Release(t, id);
    ReleaseEffect(t, id);
    forall l | l in u.leases ensures LeaseOk(u, l) {
      assert LeaseOk(t, l);
    }
    forall h | h in u.handoffs ensures HandoffOk(u, h) {
      assert HandoffOk(t, h);
      assert HandoffOk(t, id);
    }
  }

  lemma TransferKeepsInv(t: Tables, id: string)
    requires Inv(t) && id in t.handoffs && t.handoffs[id].state == SourceReady && CommitMatches(t, id)
    ensures Inv(Transfer(t, id))
  {
    var u := Transfer(t, id);
    var row := JournalRow(id, t.handoffs[id].leaseId, LeaseCommittedPhase);
    forall l | l in u.leases ensures LeaseOk(u, l) {
      assert LeaseOk(t, l);
      AppendTransfers(t.journal, row, l);
    }
    forall h | h in u.handoffs ensures HandoffOk(u, h) {
      assert HandoffOk(t, h);
      assert HandoffOk(t, id);
      AppendPhases(t.journal, row, h);
    }
  }

  /** A commit leaves the tables alone, releases the handoff, or transfers the lease. */
  lemma CommitShapes(t: Tables, id: string, observed: string, now: u64, preflight: Option<Preflight>, fault: bool)
    ensures var u := Commit(t, id, observed, now, preflight, fault).0;
            || u == t
            || (&& id in t.handoffs && t.handoffs[id].state == SourceReady
                && (|| u == Release(t, id)
                    || (CommitMatches(t, id) && t.handoffs[id].target !in t.revoked && u == Transfer(t, id))))
  {
  }

  lemma CommitKeepsInv(t: Tables, id: string, observed: string, now: u64, preflight: Option<Preflight>, fault: bool)
    requires Inv(t)
    ensures Inv(Commit(t, id, observed, now, preflight, fault).0)
  {
    CommitShapes(t, id, observed, now, preflight, fault);
    if id in t.handoffs && t.handoffs[id].state == SourceReady {
      RejectedCommitKeepsInv(t, id);
      if CommitMatches(t, id) {
        TransferKeepsInv(t, id);
      }
    }
  }

  lemma RecoverKeepsInv(t: Tables, id: string, observed: string, now: u64, fault: bool)
    requires Inv(t)
    ensures Inv(Recover(t, id, observed, now, fault).0)
  {
    AbortKeepsInv(t, id);
    CommitKeepsInv(t, id, observed, now, None, fault);
  }

  /** Publishing touches neither the handoffs nor the protocol columns of any lease. */
  ghost predicate ProtocolUntouched(t: Tables, u: Tables) {
    && u.handoffs == t.handoffs && u.journal == t.journal && u.leases.Keys == t.leases.Keys
    && (forall l :: l in t.leases ==>
                      && u.leases[l].handoffId == t.leases[l].handoffId
                      && u.leases[l].holder == t.leases[l].holder
                      && u.leases[l].epochColumn == t.leases[l].epochColumn
                      && (u.leases[l].state == HandoffPending <==> t.leases[l].state == HandoffPending))
    && t.revoked <= u.revoked
  }

  lemma ProtocolUntouchedKeepsInv(t: Tables, u: Tables)
    requires Inv(t) && ProtocolUntouched(t, u)
    ensures Inv(u)
  {
    forall l | l in u.leases ensures LeaseOk(u, l) {
      assert LeaseOk(t, l);
    }
    forall h | h in u.handoffs ensures HandoffOk(u, h) {
      assert HandoffOk(t, h);
    }
  }

  lemma PublishFrame(t: Tables, r: PublishRequest)
    ensures ProtocolUntouched(t, PublishCanonical(t, r).0)
  {
  }

  lemma ForkFrame(t: Tables, r: ForkRequest)
    ensures ProtocolUntouched(t, PublishAsFork(t, r).0)
  {
  }

  lemma RevokeFrame(t: Tables, device: string, byDevice: string, reason: string)
    ensures ProtocolUntouched(t, Revoke(t, device, byDevice, reason).0)
  {
  }

  /** The calls that are not about leases or handoffs. */
  predicate IsAboutSnapshots(call: Call) {
    || call.Publish? || call.PublishFork? || call.RevokeDevice?
    || call.CreateSession? || call.StoreLocal? || call.Prune?
  }

  lemma UntouchedCalls(t: Tables, call: Call)
    requires IsAboutSnapshots(call)
    ensures ProtocolUntouched(t, Apply(t, call).0)
  {
    match call
    case Publish(r) => PublishFrame(t, r);
    case PublishFork(r) => ForkFrame(t, r);
    case RevokeDevice(device, byDevice, reason) => RevokeFrame(t, device, byDevice, reason);
    case CreateSession(_, _) =>
    case StoreLocal(_) =>
    case Prune(_, _) =>
  }

  lemma FittingStepKeepsInv(t: Tables, call: Call)
    requires Inv(t) && Fits(t, call)
    ensures Inv(Apply(t, call).0)
  {
    match call
    case StoreLease(leaseId, row) => StoreLeaseKeepsInv(t, leaseId, row);
    case BeginHandoff(_, _, _, _, _, _, _) => BeginKeepsInv(t, call);
    case RecordTargetApply(_, _) => ApplyRecordKeepsInv(t, call);
    case MarkTargetVerified(id) => AdvanceKeepsInv(t, id, TargetPrepare, TargetVerified, TargetVerifiedPhase);
    case MarkSourceReady(id) => AdvanceKeepsInv(t, id, TargetVerified, SourceReady, SourceReadyPhase);
    case AbortHandoff(id) => AbortKeepsInv(t, id);
    case CommitHandoff(id, observed, now, preflight, fault) =>
      CommitKeepsInv(t, id, observed, now, preflight, fault);
    case RecoverHandoff(id, observed, now, fault) => RecoverKeepsInv(t, id, observed, now, fault);
    case _ =>
      UntouchedCalls(t, call);
      ProtocolUntouchedKeepsInv(t, Apply(t, call).0);
  }

  /** Every call keeps the invariant, but for an overwriting lease row, which does exactly if it fits. */
  lemma StepKeepsInv(t: Tables, call: Call)
    requires Inv(t)
    ensures Inv(Apply(t, call).0) <==> Fits(t, call)
  {
    if Fits(t, call) {
      FittingStepKeepsInv(t, call);
    } else if Inv(Apply(t, call).0) {
      StoreLeaseNeedsFit(t, call.leaseId, call.row);
    }
  }

  lemma PrefixFits(t: Tables, calls: seq<Call>)
    requires calls != [] && FittingRun(t, calls)
    ensures FittingRun(t, calls[..|calls| - 1])
    ensures Fits(Run(t, calls[..|calls| - 1]), calls[|calls| - 1])
  {
    var front := calls[..|calls| - 1];
    forall i | 0 <= i < |front| ensures Fits(Run(t, front[..i]), front[i]) {
      assert front[..i] == calls[..i];
    }
  }

  lemma PrefixLeavesRow(t: Tables, calls: seq<Call>, l: string)
    requires calls != [] && LeavesRow(t, calls, l)
    ensures LeavesRow(t, calls[..|calls| - 1], l)
    ensures Fits(Run(t, calls[..|calls| - 1]), calls[|calls| - 1]) && !Overwrites(calls[|calls| - 1], l)
  {
    PrefixFits(t, calls);
  }

  /** Every reachable state satisfies the invariant. */
  lemma {:induction false} RunKeepsInv(t: Tables, calls: seq<Call>)
    requires Inv(t) && FittingRun(t, calls)
    ensures Inv(Run(t, calls))
  {
    if calls != [] {
      PrefixFits(t, calls);
      RunKeepsInv(t, calls[..|calls| - 1]);
      FittingStepKeepsInv(Run(t, calls[..|calls| - 1]), calls[|calls| - 1]);
    }
  }

  const EMPTY: Tables := Tables(map[], map[], [], [], map[], {})

  lemma ReachableStatesSatisfyInv(calls: seq<Call>)
    requires FittingRun(EMPTY, calls)
    ensures Inv(Run(EMPTY, calls))
  {
    RunKeepsInv(EMPTY, calls);
  }

  // ---------------------------------------------------------------- one writer per epoch

  /** Orders the epoch column: a wrapped column (negative) comes after every proper epoch. */
  function Rank(lease: LeaseRow): nat {
    if lease.epochColumn < 0 then I64_MAX + 1 else lease.epochColumn
  }

  /** What a call may do to one lease: nothing to its writer, or exactly one recorded transfer. */
  ghost predicate WriterStep(t: Tables, u: Tables, l: string)
    requires l in t.leases
  {
    && l in u.leases
    && Rank(u.leases[l]) - Rank(t.leases[l]) == Transfers(u.journal, l) - Transfers(t.journal, l)
    && Rank(u.leases[l]) >= Rank(t.leases[l])
    && (Rank(u.leases[l]) == Rank(t.leases[l]) ==>
          u.leases[l].holder == t.leases[l].holder && u.leases[l].epochColumn == t.leases[l].epochColumn)
    && (forall d :: d in t.revoked && u.leases[l].holder == Some(d) ==> Rank(u.leases[l]) == Rank(t.leases[l]))
    && t.revoked <= u.revoked
  }

  lemma SameWriter(t: Tables, u: Tables, l: string)
    requires l in t.leases && l in u.leases
    requires u.leases[l].holder == t.leases[l].holder && u.leases[l].epochColumn == t.leases[l].epochColumn
    requires t.revoked <= u.revoked
    requires u.journal == t.journal
          || (&& |u.journal| == |t.journal| + 1 && u.journal[..|t.journal|] == t.journal
              && u.journal[|t.journal|].phase != LeaseCommittedPhase)
    ensures WriterStep(t, u, l)
  {
    if u.journal != t.journal {
      var row := u.journal[|t.journal|];
      assert u.journal == t.journal + [row];
      AppendTransfers(t.journal, row, l);
    }
  }

  lemma BeginWriter(t: Tables, call: Call, l: string)
    requires call.BeginHandoff? && l in t.leases
    ensures WriterStep(t, Apply(t, call).0, l)
  {
    var u := Apply(t, call).0;
    if u != t {
      var b, p := JournalRow(call.freshId, call.leaseId, BeginPhase),
                  JournalRow(call.freshId, call.leaseId, TargetPreparePhase);
      assert t.journal + [b, p] == (t.journal + [b]) + [p];
      AppendTransfers(t.journal, b, l);
      AppendTransfers(t.journal + [b], p, l);
    }
  }

  lemma TransferWriter(t: Tables, id: string, l: string)
    requires Inv(t) && id in t.handoffs && t.handoffs[id].state == SourceReady && CommitMatches(t, id)
    requires t.handoffs[id].target !in t.revoked && l in t.leases
    ensures WriterStep(t, Transfer(t, id), l)
    ensures l == t.handoffs[id].leaseId ==>
              Rank(Transfer(t, id).leases[l]) == Rank(t.leases[l]) + 1
  {
    AppendTransfers(t.journal, JournalRow(id, t.handoffs[id].leaseId, LeaseCommittedPhase), l);
    assert HandoffOk(t, id);
  }

  lemma CommitWriter(t: Tables, id: string, observed: string, now: u64, preflight: Option<Preflight>, fault: bool,
                     l: string)
    requires Inv(t) && l in t.leases
    ensures WriterStep(t, Commit(t, id, observed, now, preflight, fault).0, l)
  {
    CommitShapes(t, id, observed, now, preflight, fault);
    var u := Commit(t, id, observed, now, preflight, fault).0;
    if u == t {
      SameWriter(t, u, l);
    } else if u == Release(t, id) {
      SameWriter(t, u, l);
    } else {
      TransferWriter(t, id, l);
    }
  }

  lemma AbortWriter(t: Tables, id: string, l: string)
    requires l in t.leases
    ensures WriterStep(t, Abort(t, id).0, l)
  {
    SameWriter(t, Abort(t, id).0, l);
  }

  lemma AdvanceWriter(t: Tables, id: string, expected: HandoffState, next: HandoffState, phase: Phase, l: string)
    requires phase != LeaseCommittedPhase && l in t.leases
    ensures WriterStep(t, Advance(t, id, expected, next, phase).0, l)
  {
    SameWriter(t, Advance(t, id, expected, next, phase).0, l);
  }

  lemma RecoverWriter(t: Tables, id: string, observed: string, now: u64, fault: bool, l: string)
    requires Inv(t) && l in t.leases
    ensures WriterStep(t, Recover(t, id, observed, now, fault).0, l)
  {
    AbortWriter(t, id, l);
    CommitWriter(t, id, observed, now, None, fault, l);
    SameWriter(t, t, l);
  }

  lemma LabelWriter(t: Tables, call: Call, l: string)
    requires (call.StoreLease? && !Overwrites(call, l)) || call.RecordTargetApply?
    requires l in t.leases
    ensures WriterStep(t, Apply(t, call).0, l)
  {
    SameWriter(t, Apply(t, call).0, l);
  }

  lemma SnapshotCallWriter(t: Tables, call: Call, l: string)
    requires IsAboutSnapshots(call) && l in t.leases
    ensures WriterStep(t, Apply(t, call).0, l)
  {
    UntouchedCalls(t, call);
    SameWriter(t, Apply(t, call).0, l);
  }

  lemma StepWriter(t: Tables, call: Call, l: string)
    requires Inv(t) && !Overwrites(call, l) && l in t.leases
    ensures WriterStep(t, Apply(t, call).0, l)
  {
    match call
    case BeginHandoff(_, _, _, _, _, _, _) => BeginWriter(t, call, l);
    case AbortHandoff(id) => AbortWriter(t, id, l);
    case CommitHandoff(id, observed, now, preflight, fault) =>
      CommitWriter(t, id, observed, now, preflight, fault, l);
    case RecoverHandoff(id, observed, now, fault) => RecoverWriter(t, id, observed, now, fault, l);
    case StoreLease(_, _) => LabelWriter(t, call, l);
    case RecordTargetApply(_, _) => LabelWriter(t, call, l);
    case MarkTargetVerified(id) => AdvanceWriter(t, id, TargetPrepare, TargetVerified, TargetVerifiedPhase, l);
    case MarkSourceReady(id) => AdvanceWriter(t, id, TargetVerified, SourceReady, SourceReadyPhase, l);
    case _ => SnapshotCallWriter(t, call, l);
  }

  /**
   Fencing, over every run: the rank of a lease grows by exactly the transfers its journal
   records, equal ranks mean the same writer, and a device that was revoked at the start can
   hold the lease at the end only if the lease never moved.
   */
  lemma {:induction false} OneWriterPerEpoch(t: Tables, calls: seq<Call>, l: string)
    requires Inv(t) && LeavesRow(t, calls, l) && l in t.leases
    ensures WriterStep(t, Run(t, calls), l)
  {
    if calls != [] {
      var front := calls[..|calls| - 1];
      PrefixLeavesRow(t, calls, l);
      OneWriterPerEpoch(t, front, l);
      RunKeepsInv(t, front);
      StepWriter(Run(t, front), calls[|calls| - 1], l);
    }
  }

  // ---------------------------------------------------------------- lease states

  ghost predicate MovesLegally(t: Tables, u: Tables, l: string) {
    l in t.leases && l in u.leases && t.leases[l].state.CanTransitionTo(u.leases[l].state)
  }

  lemma BeginMovesLegally(t: Tables, call: Call, l: string)
    requires call.BeginHandoff? && l in t.leases
    ensures MovesLegally(t, Apply(t, call).0, l)
  {
  }

  lemma ReleaseMovesLegally(t: Tables, id: string, l: string)
    requires Inv(t) && l in t.leases && id in t.handoffs && !t.handoffs[id].state.IsTerminal()
    ensures MovesLegally(t, Release(t, id), l)
  {
    assert LeaseOk(t, l);
  }

  lemma AbortMovesLegally(t: Tables, id: string, l: string)
    requires Inv(t) && l in t.leases
    ensures MovesLegally(t, Abort(t, id).0, l)
  {
    if id in t.handoffs && !t.handoffs[id].state.IsTerminal() {
      ReleaseMovesLegally(t, id, l);
    }
  }

  lemma CommitMovesLegally(t: Tables, id: string, observed: string, now: u64, preflight: Option<Preflight>,
                           fault: bool, l: string)
    requires Inv(t) && l in t.leases
    ensures MovesLegally(t, Commit(t, id, observed, now, preflight, fault).0, l)
  {
    assert LeaseOk(t, l);
    CommitShapes(t, id, observed, now, preflight, fault);
    if id in t.handoffs && t.handoffs[id].state == SourceReady {
      ReleaseMovesLegally(t, id, l);
    }
  }

  lemma RecoverMovesLegally(t: Tables, id: string, observed: string, now: u64, fault: bool, l: string)
    requires Inv(t) && l in t.leases
    ensures MovesLegally(t, Recover(t, id, observed, now, fault).0, l)
  {
    AbortMovesLegally(t, id, l);
    CommitMovesLegally(t, id, observed, now, None, fault, l);
  }

  lemma PublishMovesLegally(t: Tables, call: Call, l: string)
    requires IsAboutSnapshots(call) && l in t.leases
    ensures MovesLegally(t, Apply(t, call).0, l)
  {
    match call
    case PublishFork(r) => assert l in PublishAsFork(t, r).0.leases;
    case _ =>
  }

  lemma LabelsMoveLegally(t: Tables, call: Call, l: string)
    requires call.RecordTargetApply? || call.MarkTargetVerified? || call.MarkSourceReady? || call.StoreLease?
    requires l in t.leases && !Overwrites(call, l)
    ensures MovesLegally(t, Apply(t, call).0, l)
  {
  }

  /** No call but an overwrite moves the state of a lease other than along the allowed transitions. */
  lemma LeaseStateMovesLegally(t: Tables, call: Call, l: string)
    requires Inv(t) && l in t.leases && !Overwrites(call, l)
    ensures MovesLegally(t, Apply(t, call).0, l)
  {
    match call
    case BeginHandoff(_, _, _, _, _, _, _) => BeginMovesLegally(t, call, l);
    case AbortHandoff(id) => AbortMovesLegally(t, id, l);
    case CommitHandoff(id, observed, now, preflight, fault) =>
      CommitMovesLegally(t, id, observed, now, preflight, fault, l);
    case RecoverHandoff(id, observed, now, fault) => RecoverMovesLegally(t, id, observed, now, fault, l);
    case StoreLease(_, _) => LabelsMoveLegally(t, call, l);
    case RecordTargetApply(_, _) => LabelsMoveLegally(t, call, l);
    case MarkTargetVerified(_) => LabelsMoveLegally(t, call, l);
    case MarkSourceReady(_) => LabelsMoveLegally(t, call, l);
    case _ => PublishMovesLegally(t, call, l);
  }
}
