/**
 Runs that exist: from the empty database a session, a lease and a publish are reachable; a replaced
 latest snapshot can return and the planner can plan to delete the canonical latest; a transfer needs
 neither a recorded target apply nor a preflight for the snapshot it hands over; and the stored epoch
 can reach its wrap.
 */
module HandoffRuns {
  import opened Common
  import opened HandoffTables
  import opened HandoffSafety
  import opened HandoffSnapshots
  import opened HandoffGuarantees
  import opened HandoffPolicy
  import opened Sidecars
  import Cas
  import Retention
  import opened RetentionRuns

  lemma RunSnoc(t: Tables, calls: seq<Call>, call: Call)
    ensures Run(t, calls + [call]) == Apply(Run(t, calls), call).0
    ensures FittingRun(t, calls) && Fits(Run(t, calls), call) ==> FittingRun(t, calls + [call])
  {
    var more := calls + [call];
    assert more[..|calls|] == calls;
    if FittingRun(t, calls) && Fits(Run(t, calls), call) {
      forall i | 0 <= i < |more| ensures Fits(Run(t, more[..i]), more[i]) {
        if i < |calls| {
          assert more[..i] == calls[..i];
        }
      }
    }
  }

  // ---------------------------------------------------------------- publishing from nothing

  /** A session, its active lease held by the device, and no snapshot yet. */
  function Setup(p: string, s: string, l: string, d: string): seq<Call> {
    [CreateSession(p, s)] + [StoreLease(l, LeaseRow(p, s, Active, 0, Some(d), None, None))]
  }

  function SetupTables(p: string, s: string, l: string, d: string, latest: Option<string>, rows: seq<SnapshotRow>)
    : Tables
  {
    Tables(map[l := LeaseRow(p, s, Active, 0, Some(d), latest, None)], map[], [], rows, map[s := p], {})
  }

  lemma SetupReached(p: string, s: string, l: string, d: string)
    ensures Run(EMPTY, Setup(p, s, l, d)) == SetupTables(p, s, l, d, None, [])
    ensures FittingRun(EMPTY, Setup(p, s, l, d))
  {
    var lease := StoreLease(l, LeaseRow(p, s, Active, 0, Some(d), None, None));
    RunSnoc(EMPTY, [], CreateSession(p, s));
    assert [] + [CreateSession(p, s)] == [CreateSession(p, s)];
    RunSnoc(EMPTY, [CreateSession(p, s)], lease);
  }

  /** A publish without parent of an unpinned snapshot, expecting the given epoch and latest. */
  function PublishOf(p: string, s: string, l: string, d: string, x: string, epoch: u64, latest: Option<string>,
                     files: seq<Sidecar>): Call {
    Publish(PublishRequest(l, s, epoch, d, latest, SnapshotMetadata(x, p, Some(s), None, true, files), false))
  }

  function RowOf(p: string, s: string, x: string, n: nat, files: seq<Sidecar>): SnapshotRow {
    SnapshotRow(x, p, Some(s), None, n, false, files)
  }

  lemma PublishPasses(p: string, s: string, l: string, d: string, latest: Option<string>,
                      rows: seq<SnapshotRow>, x: string, epoch: u64, expected: Option<string>,
                      files: seq<Sidecar>)
    requires !HasSnapshot(rows, x)
    ensures PublishRefusal(SetupTables(p, s, l, d, latest, rows),
                           PublishOf(p, s, l, d, x, epoch, expected, files).publish) == None
  {
  }

  /** Publishing a new id moves the latest snapshot exactly if epoch and latest are as expected. */
  lemma PublishFromSetup(p: string, s: string, l: string, d: string, latest: Option<string>,
                         rows: seq<SnapshotRow>, x: string, epoch: u64, expected: Option<string>,
                      files: seq<Sidecar>)
    requires !HasSnapshot(rows, x)
    ensures var stored := rows + [RowOf(p, s, x, MaxSequence(rows, p) + 1, files)];
            Apply(SetupTables(p, s, l, d, latest, rows), PublishOf(p, s, l, d, x, epoch, expected, files)).0
            == SetupTables(p, s, l, d, if epoch == 0 && expected == latest then Some(x) else latest, stored)
  {
    PublishPasses(p, s, l, d, latest, rows, x, epoch, expected, files);
  }

  /** The empty database can reach a canonical publish. */
  lemma PublishIsReachable(p: string, s: string, l: string, d: string, x: string, files: seq<Sidecar>)
    ensures var calls := Setup(p, s, l, d) + [PublishOf(p, s, l, d, x, 0, None, files)];
            && FittingRun(EMPTY, calls)
            && Run(EMPTY, calls) == SetupTables(p, s, l, d, Some(x), [RowOf(p, s, x, 1, files)])
  {
    SetupReached(p, s, l, d);
    RunSnoc(EMPTY, Setup(p, s, l, d), PublishOf(p, s, l, d, x, 0, None, files));
    PublishFromSetup(p, s, l, d, None, [], x, 0, None, files);
    assert [] + [RowOf(p, s, x, 1, files)] == [RowOf(p, s, x, 1, files)];
  }

  function InactiveTables(p: string, s: string, l: string, d: string): Tables {
    Tables(map[l := LeaseRow(p, s, Inactive, 0, Some(d), None, None)], map[], [], [], map[s := p], {})
  }

  lemma InactiveReached(p: string, s: string, l: string, d: string)
    ensures var calls := [CreateSession(p, s)] + [StoreLease(l, LeaseRow(p, s, Inactive, 0, Some(d), None, None))];
            FittingRun(EMPTY, calls) && Run(EMPTY, calls) == InactiveTables(p, s, l, d)
  {
    RunSnoc(EMPTY, [], CreateSession(p, s));
    assert [] + [CreateSession(p, s)] == [CreateSession(p, s)];
    RunSnoc(EMPTY, [CreateSession(p, s)], StoreLease(l, LeaseRow(p, s, Inactive, 0, Some(d), None, None)));
  }

  /** And a fork: an inactive workspace stores a pinned snapshot in a new session. */
  lemma ForkIsReachable(p: string, s: string, l: string, d: string, r: ForkRequest)
    requires r.leaseId == l && r.sessionId == s && r.device == d && r.freshSession != s && r.forkValid
    requires r.metadata.projectId == p && r.metadata.sessionId == Some(s) && r.metadata.parent == None
    ensures var calls := [CreateSession(p, s)] + [StoreLease(l, LeaseRow(p, s, Inactive, 0, Some(d), None, None))]
                         + [PublishFork(r)];
            && FittingRun(EMPTY, calls)
            && Run(EMPTY, calls).snapshots
               == [SnapshotRow(r.metadata.snapshotId, p, Some(r.freshSession), None, 1, true, r.metadata.sidecars)]
  {
    var calls := [CreateSession(p, s)] + [StoreLease(l, LeaseRow(p, s, Inactive, 0, Some(d), None, None))];
    InactiveReached(p, s, l, d);
    RunSnoc(EMPTY, calls, PublishFork(r));
    assert ForkRefusal(InactiveTables(p, s, l, d), r) == None;
  }

  // ---------------------------------------------------------------- pruning the canonical latest

  /** Pruning the first of two unrelated unpinned rows succeeds, whatever a lease calls latest. */
  lemma PruneFirst(p: string, s: string, l: string, d: string, latest: Option<string>, x: string, y: string)
    requires x != y
    ensures Apply(SetupTables(p, s, l, d, latest, [RowOf(p, s, x, 1, []), RowOf(p, s, y, 2, [])]), Prune(p, [x]))
            == (SetupTables(p, s, l, d, latest, [RowOf(p, s, y, 2, [])]), Pruned(1))
  {
    var a, b := RowOf(p, s, x, 1, []), RowOf(p, s, y, 2, []);
    var rows := [a, b];
    TwoRows(p, s, x, y);
    assert a in rows && b in rows;
    assert PruneRefusal(rows, p, Some(y), x) == None;
    assert PruneRows(RowsWithout(rows, p, x), p, Some(y), [x][1..]) == (RowsWithout(rows, p, x), None);
  }

  lemma TwoRows(p: string, s: string, x: string, y: string)
    requires x != y
    ensures var rows := [RowOf(p, s, x, 1, []), RowOf(p, s, y, 2, [])];
            && MaxSequence(rows, p) == 2 && LatestSnapshotId(rows, p) == Some(y)
            && RowsWithout(rows, p, x) == [RowOf(p, s, y, 2, [])]
  {
    var a, b := RowOf(p, s, x, 1, []), RowOf(p, s, y, 2, []);
    assert [a, b][..1] == [a] && [a][..0] == [];
    assert MaxSequence([a], p) == 1;
    assert RowsWithout([a], p, x) == [];
  }

  lemma TwoPublished(p: string, s: string, l: string, d: string, x: string, y: string, epoch: u64,
                     expected: Option<string>)
    requires x != y
    ensures var calls := Setup(p, s, l, d) + [PublishOf(p, s, l, d, x, 0, None, [])]
                         + [PublishOf(p, s, l, d, y, epoch, expected, [])];
            && FittingRun(EMPTY, calls)
            && Run(EMPTY, calls)
               == SetupTables(p, s, l, d, if epoch == 0 && expected == Some(x) then Some(y) else Some(x),
                              [RowOf(p, s, x, 1, []), RowOf(p, s, y, 2, [])])
  {
    var first := Setup(p, s, l, d) + [PublishOf(p, s, l, d, x, 0, None, [])];
    PublishIsReachable(p, s, l, d, x, []);
    RunSnoc(EMPTY, first, PublishOf(p, s, l, d, y, epoch, expected, []));
    PublishFromSetup(p, s, l, d, Some(x), [RowOf(p, s, x, 1, [])], y, epoch, expected, []);
    assert [RowOf(p, s, x, 1, [])][..0] == [];
    assert MaxSequence([RowOf(p, s, x, 1, [])], p) == 1;
    assert [RowOf(p, s, x, 1, [])] + [RowOf(p, s, y, 2, [])] == [RowOf(p, s, x, 1, []), RowOf(p, s, y, 2, [])];
  }

  lemma FirstPasses(p: string, s: string, x: string, y: string)
    requires x != y
    ensures var rows := [RowOf(p, s, x, 1, []), RowOf(p, s, y, 2, [])];
            TableOk(rows) && PruneRefusal(rows, p, LatestSnapshotId(rows, p), x) == None
  {
    var rows := [RowOf(p, s, x, 1, []), RowOf(p, s, y, 2, [])];
    TwoRows(p, s, x, y);
    assert RowOf(p, s, x, 1, []) in rows;
  }

  /** What the planner makes of the two rows when it is given no latest snapshot. */
  lemma PlanForFirst(p: string, s: string, x: string, y: string)
    requires x != y
    ensures var rows := [RowOf(p, s, x, 1, []), RowOf(p, s, y, 2, [])];
            var input := Retention.OnlyPlan(ListingOf(rows, p), x, None);
            PlansFor(rows, p, input) && Retention.PlannedIds(input) == [x]
  {
    FirstPasses(p, s, x, y);
    OnlyPlanRemoves([RowOf(p, s, x, 1, []), RowOf(p, s, y, 2, [])], p, None, x);
  }

  lemma FirstIsGone(p: string, s: string, l: string, d: string, x: string, y: string)
    requires x != y
    ensures var t := SetupTables(p, s, l, d, Some(x), [RowOf(p, s, x, 1, []), RowOf(p, s, y, 2, [])]);
            var u := Apply(t, Prune(p, [x])).0;
            IsLatest(u, l, x) && !HasSnapshot(u.snapshots, x)
  {
    PruneFirst(p, s, l, d, Some(x), x, y);
  }

  /** One publish, one stale publish, and a prune with the plan the planner makes of the table when it is
      given no latest snapshot: the lease names a latest snapshot that is gone. */
  lemma CanonicalLatestCanBePruned(p: string, s: string, l: string, d: string, x: string, y: string)
    requires x != y
    ensures var before := Setup(p, s, l, d) + [PublishOf(p, s, l, d, x, 0, None, [])]
                          + [PublishOf(p, s, l, d, y, 1, Some(x), [])];
            var rows := Run(EMPTY, before).snapshots;
            var input := Retention.OnlyPlan(ListingOf(rows, p), x, None);
            var calls := before + [Prune(p, Retention.PlannedIds(input))];
            && FittingRun(EMPTY, calls) && PlansFor(rows, p, input)
            && IsLatest(Run(EMPTY, calls), l, x) && !HasSnapshot(Run(EMPTY, calls).snapshots, x)
  {
    TwoPublished(p, s, l, d, x, y, 1, Some(x));
    PlanForFirst(p, s, x, y);
    FirstIsGone(p, s, l, d, x, y);
    RunSnoc(EMPTY, Setup(p, s, l, d) + [PublishOf(p, s, l, d, x, 0, None, [])]
                   + [PublishOf(p, s, l, d, y, 1, Some(x), [])], Prune(p, [x]));
  }

  /** Publish, replace, prune, publish again: the replaced latest snapshot is the latest once more. */
  lemma ReplacedLatestCanReturn(p: string, s: string, l: string, d: string, x: string, y: string)
    requires x != y
    ensures var replaced := Setup(p, s, l, d) + [PublishOf(p, s, l, d, x, 0, None, [])]
                            + [PublishOf(p, s, l, d, y, 0, Some(x), [])];
            var calls := replaced + [Prune(p, [x])] + [PublishOf(p, s, l, d, x, 0, Some(y), [])];
            && FittingRun(EMPTY, calls)
            && IsLatest(Run(EMPTY, replaced), l, y) && IsLatest(Run(EMPTY, calls), l, x)
  {
    var replaced := Setup(p, s, l, d) + [PublishOf(p, s, l, d, x, 0, None, [])]
                    + [PublishOf(p, s, l, d, y, 0, Some(x), [])];
    TwoPublished(p, s, l, d, x, y, 0, Some(x));
    RunSnoc(EMPTY, replaced, Prune(p, [x]));
    PruneFirst(p, s, l, d, Some(y), x, y);
    RunSnoc(EMPTY, replaced + [Prune(p, [x])], PublishOf(p, s, l, d, x, 0, Some(y), []));
    PublishFromSetup(p, s, l, d, Some(y), [RowOf(p, s, y, 2, [])], x, 0, Some(y), []);
  }

  function ThreeRows(p: string, s: string, y: string, x: string, z: string): seq<SnapshotRow> {
    [RowOf(p, s, y, 2, []), RowOf(p, s, x, 3, []), RowOf(p, s, z, 4, [])]
  }

  lemma MiddlePasses(p: string, s: string, y: string, x: string, z: string)
    requires x != y && x != z && y != z
    ensures var rows := ThreeRows(p, s, y, x, z);
            TableOk(rows) && PruneRefusal(rows, p, LatestSnapshotId(rows, p), x) == None
  {
    var rows := ThreeRows(p, s, y, x, z);
    assert rows[..2] == [rows[0], rows[1]] && rows[..2][..1] == [rows[0]] && rows[..2][..1][..0] == [];
    assert MaxSequence(rows[..2][..1], p) == 2 && MaxSequence(rows[..2], p) == 3;
    assert LatestSnapshotId(rows, p) == Some(z);
    assert rows[1] in rows;
  }

  lemma MiddleIsGone(p: string, s: string, y: string, x: string, z: string)
    requires x != y && x != z && y != z
    ensures var rows := ThreeRows(p, s, y, x, z);
            !HasSnapshot(PruneRows(rows, p, LatestSnapshotId(rows, p), [x]).0, x)
  {
    MiddlePasses(p, s, y, x, z);
    OnlyPlanRemoves(ThreeRows(p, s, y, x, z), p, None, x);
  }

  lemma PruneOnSetup(p: string, s: string, l: string, d: string, x: string, rows: seq<SnapshotRow>)
    requires !HasSnapshot(PruneRows(rows, p, LatestSnapshotId(rows, p), [x]).0, x) && HasSnapshot(rows, x)
    ensures var t := SetupTables(p, s, l, d, Some(x), rows);
            HasSnapshot(t.snapshots, x) && IsLatest(t, l, x) && !HasSnapshot(Apply(t, Prune(p, [x])).0.snapshots, x)
  {
  }

  lemma PruneMiddle(p: string, s: string, l: string, d: string, y: string, x: string, z: string)
    requires x != y && x != z && y != z
    ensures var t := SetupTables(p, s, l, d, Some(x), ThreeRows(p, s, y, x, z));
            HasSnapshot(t.snapshots, x) && IsLatest(t, l, x) && !HasSnapshot(Apply(t, Prune(p, [x])).0.snapshots, x)
  {
    assert ThreeRows(p, s, y, x, z)[1] in ThreeRows(p, s, y, x, z);
    MiddleIsGone(p, s, y, x, z);
    PruneOnSetup(p, s, l, d, x, ThreeRows(p, s, y, x, z));
  }

  /** A plan for a snapshot that is not the latest, computed with the latest snapshot the lease has. */
  lemma PlanForReplaced(p: string, s: string, x: string, y: string)
    requires x != y
    ensures var rows := [RowOf(p, s, x, 1, []), RowOf(p, s, y, 2, [])];
            var input := Retention.OnlyPlan(ListingOf(rows, p), x, Some(y));
            PlansFor(rows, p, input) && input.latest == Some(y) && Retention.PlannedIds(input) == [x]
  {
    FirstPasses(p, s, x, y);
    OnlyPlanRemoves([RowOf(p, s, x, 1, []), RowOf(p, s, y, 2, [])], p, Some(y), x);
  }

  lemma Revived(p: string, s: string, l: string, d: string, x: string, y: string)
    requires x != y
    ensures var t := SetupTables(p, s, l, d, Some(y), [RowOf(p, s, x, 1, []), RowOf(p, s, y, 2, [])]);
            var calls := [Prune(p, [x])] + [PublishOf(p, s, l, d, x, 0, Some(y), [])];
            && FittingRun(t, calls)
            && Run(t, calls) == SetupTables(p, s, l, d, Some(x), [RowOf(p, s, y, 2, []), RowOf(p, s, x, 3, [])])
  {
    var t := SetupTables(p, s, l, d, Some(y), [RowOf(p, s, x, 1, []), RowOf(p, s, y, 2, [])]);
    var prune, b := Prune(p, [x]), RowOf(p, s, y, 2, []);
    RunSnoc(t, [], prune);
    assert [] + [prune] == [prune];
    PruneFirst(p, s, l, d, Some(y), x, y);
    RunSnoc(t, [prune], PublishOf(p, s, l, d, x, 0, Some(y), []));
    assert [b][..0] == [] && MaxSequence([b], p) == 2;
    PublishFromSetup(p, s, l, d, Some(y), [b], x, 0, Some(y), []);
    assert [b] + [RowOf(p, s, x, 3, [])] == [b, RowOf(p, s, x, 3, [])];
  }

  lemma StaleOnTop(p: string, s: string, l: string, d: string, x: string, y: string, z: string)
    requires x != y && x != z && y != z
    ensures var t := SetupTables(p, s, l, d, Some(x), [RowOf(p, s, y, 2, []), RowOf(p, s, x, 3, [])]);
            Apply(t, PublishOf(p, s, l, d, z, 1, Some(x), [])).0
            == SetupTables(p, s, l, d, Some(x), ThreeRows(p, s, y, x, z))
  {
    var b, c := RowOf(p, s, y, 2, []), RowOf(p, s, x, 3, []);
    assert [b, c][..1] == [b] && [b][..0] == [];
    assert MaxSequence([b], p) == 2 && MaxSequence([b, c], p) == 3;
    PublishFromSetup(p, s, l, d, Some(x), [b, c], z, 1, Some(x), []);
    assert [b, c] + [RowOf(p, s, z, 4, [])] == ThreeRows(p, s, y, x, z);
  }

  /** A plan computed with the right latest snapshot and run twice: between the two runs the snapshot it
      removes is published again as the latest, and the second run removes the latest. */
  lemma LatePlanCanRemove(p: string, s: string, l: string, d: string, x: string, y: string, z: string)
    requires x != y && x != z && y != z
    ensures var t := SetupTables(p, s, l, d, Some(y), [RowOf(p, s, x, 1, []), RowOf(p, s, y, 2, [])]);
            var input := Retention.OnlyPlan(ListingOf(t.snapshots, p), x, Some(y));
            var plan := Prune(p, Retention.PlannedIds(input));
            var calls := [plan] + [PublishOf(p, s, l, d, x, 0, Some(y), [])]
                         + [PublishOf(p, s, l, d, z, 1, Some(x), [])];
            && PlansFor(t.snapshots, p, input) && input.latest == t.leases[l].latest && FittingRun(t, calls)
            && IsLatest(Run(t, calls), l, x) && HasSnapshot(Run(t, calls).snapshots, x)
            && !HasSnapshot(Apply(Run(t, calls), plan).0.snapshots, x)
  {
    PlanForReplaced(p, s, x, y);
    Revived(p, s, l, d, x, y);
    var t := SetupTables(p, s, l, d, Some(y), [RowOf(p, s, x, 1, []), RowOf(p, s, y, 2, [])]);
    RunSnoc(t, [Prune(p, [x])] + [PublishOf(p, s, l, d, x, 0, Some(y), [])],
            PublishOf(p, s, l, d, z, 1, Some(x), []));
    StaleOnTop(p, s, l, d, x, y, z);
    PruneMiddle(p, s, l, d, y, x, z);
  }

  // ---------------------------------------------------------------- transfers

  /** The lease is active with the writer, and nothing is pending on it. */
  ghost predicate CanPass(t: Tables, l: string, a: string, b: string, id: string) {
    && l in t.leases && t.leases[l].state == Active && t.leases[l].holder == Some(a)
    && t.leases[l].epochColumn >= 0
    && a !in t.revoked && b !in t.revoked && id !in t.handoffs
    && (forall h :: h in t.handoffs && t.handoffs[h].leaseId == l ==> t.handoffs[h].state.IsTerminal())
  }

  /** A handover without a target apply, with the preflight given. */
  function Passing(l: string, a: string, b: string, id: string, p: Option<Preflight>): seq<Call> {
    [BeginHandoff(l, a, b, "", 1, id, 0)] + [MarkTargetVerified(id)] + [MarkSourceReady(id)]
    + [CommitHandoff(id, "", 0, p, false)]
  }

  /** The tables after a handover. */
  ghost predicate Passed(t: Tables, u: Tables, l: string, a: string, b: string, id: string)
    requires l in t.leases
  {
    var lease := t.leases[l];
    && u.leases == t.leases[l := lease.(state := Active, epochColumn := AsI64(SaturatingAdd(lease.Epoch(), 1)),
                                        holder := Some(b), handoffId := None)]
    && u.handoffs == t.handoffs[id := HandoffRow(l, lease.projectId, lease.Epoch(), a, b, "", 1, Committed)]
    && u.revoked == t.revoked && u.snapshots == t.snapshots
  }

  ghost predicate UnderWay(t: Tables, u: Tables, l: string, a: string, b: string, id: string, state: HandoffState)
    requires l in t.leases
  {
    var lease := t.leases[l];
    && u.leases == t.leases[l := lease.(state := HandoffPending, handoffId := Some(id))]
    && u.handoffs == t.handoffs[id := HandoffRow(l, lease.projectId, lease.Epoch(), a, b, "", 1, state)]
    && u.revoked == t.revoked && u.snapshots == t.snapshots
  }

  lemma PassBegins(t: Tables, l: string, a: string, b: string, id: string)
    requires CanPass(t, l, a, b, id)
    ensures UnderWay(t, Run(t, [BeginHandoff(l, a, b, "", 1, id, 0)]), l, a, b, id, TargetPrepare)
  {
    RunSnoc(t, [], BeginHandoff(l, a, b, "", 1, id, 0));
    assert [] + [BeginHandoff(l, a, b, "", 1, id, 0)] == [BeginHandoff(l, a, b, "", 1, id, 0)];
  }

  lemma PassAdvances(t: Tables, u: Tables, l: string, a: string, b: string, id: string)
    requires l in t.leases
    ensures UnderWay(t, u, l, a, b, id, TargetPrepare) ==>
              UnderWay(t, Apply(u, MarkTargetVerified(id)).0, l, a, b, id, TargetVerified)
    ensures UnderWay(t, u, l, a, b, id, TargetVerified) ==>
              UnderWay(t, Apply(u, MarkSourceReady(id)).0, l, a, b, id, SourceReady)
  {
  }

  lemma PassCommits(t: Tables, u: Tables, l: string, a: string, b: string, id: string, p: Option<Preflight>)
    requires l in t.leases && (p.Some? ==> PreflightPasses(p.value, t.leases[l].projectId))
    requires CanPass(t, l, a, b, id) && UnderWay(t, u, l, a, b, id, SourceReady)
    ensures Passed(t, Apply(u, CommitHandoff(id, "", 0, p, false)).0, l, a, b, id)
  {
  }

  lemma PassingHandsOver(t: Tables, l: string, a: string, b: string, id: string, p: Option<Preflight>)
    requires CanPass(t, l, a, b, id) && (p.Some? ==> PreflightPasses(p.value, t.leases[l].projectId))
    ensures Passed(t, Run(t, Passing(l, a, b, id, p)), l, a, b, id)
    ensures FittingRun(t, Passing(l, a, b, id, p))
  {
    var one := [BeginHandoff(l, a, b, "", 1, id, 0)];
    var two, three := one + [MarkTargetVerified(id)], one + [MarkTargetVerified(id)] + [MarkSourceReady(id)];
    PassBegins(t, l, a, b, id);
    RunSnoc(t, one, MarkTargetVerified(id));
    RunSnoc(t, two, MarkSourceReady(id));
    RunSnoc(t, three, CommitHandoff(id, "", 0, p, false));
    PassAdvances(t, Run(t, one), l, a, b, id);
    PassAdvances(t, Run(t, two), l, a, b, id);
    PassCommits(t, Run(t, three), l, a, b, id, p);
  }

  /** From every state in which a handoff can begin, the lease can be transferred although its
      journal holds no target apply and nobody looked whether the data is available. */
  lemma TransferWithoutApply(t: Tables, l: string, a: string, b: string, id: string)
    requires Inv(t) && CanPass(t, l, a, b, id) && !AppliedOnRecord(t, id)
    ensures var u := Run(t, Passing(l, a, b, id, None));
            && l in u.leases && u.leases[l].holder == Some(b) && !AppliedOnRecord(u, id)
            && id in u.handoffs && u.handoffs[id].state == Committed
  {
    PassingHandsOver(t, l, a, b, id, None);
    AppliedOnRecordExactly(t, Passing(l, a, b, id, None), id);
  }

  /** And it can be transferred with a preflight for some other snapshot of the project that has no
      sidecars, while those of the snapshot handed over are in no store and its refs in no repository. */
  lemma TransferWithForeignPreflight(t: Tables, l: string, a: string, b: string, id: string, p: Preflight,
                                     row: SnapshotRow)
    requires CanPass(t, l, a, b, id) && NumberingOk(t.snapshots)
    requires IsHandedOver(t, l, row) && row.sidecars != []
    requires p.snapshot.projectId == t.leases[l].projectId && p.snapshot.sidecars == []
    ensures var u := Run(t, Passing(l, a, b, id, Some(p)));
            && l in u.leases && u.leases[l].holder == Some(b) && IsHandedOver(u, l, row)
            && forall refs :: !StepTwo(p.b3, u, l, Cas.Disk(map[], map[], map[]), refs)
  {
    PassingHandsOver(t, l, a, b, id, Some(p));
    var u, nothing := Run(t, Passing(l, a, b, id, Some(p))), Cas.Disk(map[], map[], map[]);
    assert row.sidecars[0] in row.sidecars;
    AvailableExactly(p.b3, nothing, row.sidecars[0]);
    forall refs ensures !StepTwo(p.b3, u, l, nothing, refs) {
      StepTwoForRow(p.b3, u, l, row, nothing, refs);
    }
  }

  // ---------------------------------------------------------------- reaching the wrap

  /** After n handovers: the lease is active, every handoff is finished and has one of n ids. */
  ghost predicate PassedTimes(t: Tables, l: string, holder: string, n: nat) {
    && l in t.leases && t.leases[l].state == Active && t.leases[l].holder == Some(holder)
    && n <= I64_MAX + 1 && t.leases[l].epochColumn == AsI64(n)
    && t.revoked == {}
    && (forall h :: h in t.handoffs ==> t.handoffs[h].state.IsTerminal() && |h| < n)
  }

  lemma {:induction false} RunConcat(t: Tables, first: seq<Call>, second: seq<Call>)
    ensures Run(t, first + second) == Run(Run(t, first), second)
    decreases |second|
  {
    if second == [] {
      assert first + second == first;
    } else {
      var n := |second| - 1;
      RunConcat(t, first, second[..n]);
      var all := first + second;
      assert all[..|all| - 1] == first + second[..n] && all[|all| - 1] == second[n];
    }
  }

  lemma FittingConcat(t: Tables, first: seq<Call>, second: seq<Call>)
    requires FittingRun(t, first) && FittingRun(Run(t, first), second)
    ensures FittingRun(t, first + second)
  {
    var calls := first + second;
    forall i | 0 <= i < |calls| ensures Fits(Run(t, calls[..i]), calls[i]) {
      if i < |first| {
        assert calls[..i] == first[..i];
      } else {
        var k := i - |first|;
        assert calls[..i] == first + second[..k];
        RunConcat(t, first, second[..k]);
      }
    }
  }

  /** Who writes after n handovers. */
  function WriterAfter(a: string, b: string, n: nat): string {
    if n % 2 == 0 then a else b
  }

  lemma OneMorePassed(t: Tables, u: Tables, l: string, a: string, b: string, n: nat)
    requires n <= I64_MAX && PassedTimes(t, l, a, n) && Passed(t, u, l, a, b, Repeat('x', n))
    ensures PassedTimes(u, l, b, n + 1)
  {
  }

  lemma OnceMore(t: Tables, l: string, a: string, b: string, n: nat) returns (passing: seq<Call>)
    requires n <= I64_MAX && PassedTimes(t, l, a, n)
    ensures FittingRun(t, passing) && PassedTimes(Run(t, passing), l, b, n + 1)
  {
    passing := Passing(l, a, b, Repeat('x', n), None);
    PassingHandsOver(t, l, a, b, Repeat('x', n), None);
    OneMorePassed(t, Run(t, passing), l, a, b, n);
  }

  lemma StartOfPassing(l: string, a: string) returns (calls: seq<Call>)
    ensures FittingRun(EMPTY, calls) && PassedTimes(Run(EMPTY, calls), l, a, 0)
  {
    var lease := StoreLease(l, LeaseRow("", "", Active, 0, Some(a), None, None));
    RunSnoc(EMPTY, [], lease);
    calls := [lease];
    assert [] + [lease] == calls;
  }

  lemma Extended(before: seq<Call>, t: Tables, l: string, a: string, b: string, n: nat)
    returns (calls: seq<Call>, u: Tables)
    requires n <= I64_MAX && FittingRun(EMPTY, before) && t == Run(EMPTY, before) && PassedTimes(t, l, a, n)
    ensures FittingRun(EMPTY, calls) && u == Run(EMPTY, calls) && PassedTimes(u, l, b, n + 1)
  {
    var passing := OnceMore(t, l, a, b, n);
    RunConcat(EMPTY, before, passing);
    FittingConcat(EMPTY, before, passing);
    calls, u := before + passing, Run(t, passing);
  }

  /** The stored epoch reaches every value up to its wrap, with two devices that hand the lease back
      and forth. */
  lemma {:induction false} EpochReaches(l: string, a: string, b: string, n: nat)
    returns (calls: seq<Call>, u: Tables)
    requires n <= I64_MAX + 1
    ensures FittingRun(EMPTY, calls) && u == Run(EMPTY, calls) && PassedTimes(u, l, WriterAfter(a, b, n), n)
  {
    if n == 0 {
      calls := StartOfPassing(l, a);
      u := Run(EMPTY, calls);
    } else {
      var before, t := EpochReaches(l, a, b, n - 1);
      calls, u := Extended(before, t, l, WriterAfter(a, b, n - 1), WriterAfter(a, b, n), n - 1);
    }
  }

  /** After 2^63 handovers the epoch reads as zero, and no handoff moves the lease again. */
  lemma WrapIsReachable(l: string, a: string, b: string) returns (calls: seq<Call>)
    ensures FittingRun(EMPTY, calls) && Inv(Run(EMPTY, calls))
    ensures l in Run(EMPTY, calls).leases && Run(EMPTY, calls).leases[l].epochColumn < 0
    ensures Run(EMPTY, calls).leases[l].Epoch() == 0
    ensures forall more :: LeavesRow(Run(EMPTY, calls), more, l) ==>
                             && l in Run(Run(EMPTY, calls), more).leases
                             && Run(Run(EMPTY, calls), more).leases[l].holder == Run(EMPTY, calls).leases[l].holder
  {
    var u: Tables;
    calls, u := EpochReaches(l, a, b, I64_MAX + 1);
    ReachableStatesSatisfyInv(calls);
    forall more | LeavesRow(Run(EMPTY, calls), more, l)
      ensures l in Run(Run(EMPTY, calls), more).leases
      ensures Run(Run(EMPTY, calls), more).leases[l].holder == Run(EMPTY, calls).leases[l].holder
    {
      WrappedLeaseNeverTransfers(Run(EMPTY, calls), more, l);
    }
  }
}
