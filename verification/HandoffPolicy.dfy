/**
 The second step of the handoff policy: the Git objects and sidecars of the snapshot a lease hands
 over are available at the target. What the preflight of a commit says about it, and what no call asks.
 */
module HandoffPolicy {
  import opened Common
  import opened HandoffTables
  import opened HandoffSafety
  import opened HandoffSnapshots
  import opened HandoffGuarantees
  import opened Sidecars
  import Cas
  import SnapshotRefs

  /** The row of the snapshot a lease names as latest, which is what a handoff hands over. */
  ghost predicate IsHandedOver(t: Tables, l: string, row: SnapshotRow) {
    l in t.leases && t.leases[l].latest == Some(row.snapshotId) && row in t.snapshots
  }

  /** Both refs of the snapshot, and with them its objects, are in the target's repository. */
  predicate ObjectsThere(refs: set<string>, row: SnapshotRow) {
    SnapshotRefs.Ref(row.snapshotId, "index") in refs && SnapshotRefs.Ref(row.snapshotId, "work") in refs
  }

  /** Step 2 for a target with that store and those refs. */
  ghost predicate StepTwo(b3: Cas.Blake3, t: Tables, l: string, store: Cas.Disk, refs: set<string>) {
    l in t.leases && t.leases[l].latest.Some? ==>
      exists row :: IsHandedOver(t, l, row) && AllAvailable(b3, store, row.sidecars) && ObjectsThere(refs, row)
  }

  lemma OneRowIsHandedOver(t: Tables, l: string, a: SnapshotRow, b: SnapshotRow)
    requires NumberingOk(t.snapshots) && IsHandedOver(t, l, a) && IsHandedOver(t, l, b)
    ensures a == b
  {
    UniqueRow(t.snapshots, a, b);
  }

  lemma StepTwoForRow(b3: Cas.Blake3, t: Tables, l: string, row: SnapshotRow, store: Cas.Disk, refs: set<string>)
    requires NumberingOk(t.snapshots) && IsHandedOver(t, l, row)
    ensures StepTwo(b3, t, l, store, refs) <==> AllAvailable(b3, store, row.sidecars) && ObjectsThere(refs, row)
  {
    if StepTwo(b3, t, l, store, refs) {
      var r :| IsHandedOver(t, l, r) && AllAvailable(b3, store, r.sidecars) && ObjectsThere(refs, r);
      OneRowIsHandedOver(t, l, r, row);
    }
  }

  /** The sidecars the preflight of a call checks. */
  function Checked(call: Call): seq<Sidecar> {
    if PreflightOf(call).Some? then PreflightOf(call).value.snapshot.sidecars else []
  }

  /** The same call, its preflight looking into another store. */
  function OnStore(call: Call, store: Cas.Disk): Call {
    if call.CommitHandoff? && call.preflight.Some?
    then call.(preflight := Some(call.preflight.value.(store := store)))
    else call
  }

  ghost predicate Hashes(call: Call, b3: Cas.Blake3) {
    PreflightOf(call).Some? ==> PreflightOf(call).value.b3 == b3
  }

  /** On another store a committing call commits exactly if what it checks is there. */
  lemma CommitsOnStore(b3: Cas.Blake3, t: Tables, call: Call, id: string, store: Cas.Disk)
    requires Commits(t, call, id) && Hashes(call, b3)
    ensures Commits(t, OnStore(call, store), id) <==> AllAvailable(b3, store, Checked(call))
  {
    if call.CommitHandoff? && call.preflight.Some? {
      var p, q := call.preflight.value, OnStore(call, store).preflight.value;
      var projectId := t.handoffs[id].projectId;
      assert PreflightPasses(p, projectId);
      assert PreflightPasses(q, projectId) <==> AllAvailable(b3, store, Checked(call));
    }
  }

  lemma SomeStoreCommits(b3: Cas.Blake3, t: Tables, call: Call, id: string) returns (store: Cas.Disk)
    requires Commits(t, call, id) && Hashes(call, b3)
    ensures AllAvailable(b3, store, Checked(call))
  {
    store := if PreflightOf(call).Some? then PreflightOf(call).value.store else Cas.Disk(map[], map[], map[]);
  }

  /** Whatever store the target has, if the call commits against it then the sidecars are there. */
  ghost predicate EnsuresSidecars(b3: Cas.Blake3, t: Tables, call: Call, id: string, row: SnapshotRow) {
    forall store: Cas.Disk :: Commits(t, OnStore(call, store), id) ==> AllAvailable(b3, store, row.sidecars)
  }

  /**
   The sidecar half: a transfer makes sure that the sidecars of the snapshot it hands over are there
   exactly if the list its preflight checks covers them, manifest and size. A commit without a
   preflight, and every recovery, checks the empty list.
   */
  lemma SidecarsEnsuredExactly(b3: Cas.Blake3, t: Tables, call: Call, id: string, row: SnapshotRow)
    requires Commits(t, call, id) && Hashes(call, b3)
    ensures EnsuresSidecars(b3, t, call, id, row) <==> Covers(Checked(call), row.sidecars)
  {
    var some := SomeStoreCommits(b3, t, call, id);
    CoverageExactly(b3, some, Checked(call), row.sidecars);
    forall store: Cas.Disk
      ensures Commits(t, OnStore(call, store), id) <==> AllAvailable(b3, store, Checked(call))
    {
      CommitsOnStore(b3, t, call, id, store);
    }
    if EnsuresSidecars(b3, t, call, id, row) {
      forall store: Cas.Disk | AllAvailable(b3, store, Checked(call)) ensures AllAvailable(b3, store, row.sidecars) {
        assert Commits(t, OnStore(call, store), id);
      }
    }
  }

  /** Nothing else is needed when there is nothing to cover, and nothing less does without a preflight. */
  lemma WithoutPreflightNothingIsEnsured(b3: Cas.Blake3, t: Tables, call: Call, id: string, row: SnapshotRow)
    requires Commits(t, call, id) && PreflightOf(call).None?
    ensures EnsuresSidecars(b3, t, call, id, row) <==> row.sidecars == []
  {
    SidecarsEnsuredExactly(b3, t, call, id, row);
    if row.sidecars != [] {
      assert row.sidecars[0] in row.sidecars;
    }
  }

  /** The snapshot a preflight names decides: one for the snapshot that is handed over covers it. */
  lemma OwnPreflightCovers(call: Call, row: SnapshotRow)
    requires Checked(call) == row.sidecars && forall s :: s in row.sidecars ==> FieldsValid(s)
    ensures Covers(Checked(call), row.sidecars)
  {
    forall s | s in row.sidecars ensures FieldsValid(s) && exists q :: q in Checked(call) && SameContent(q, s) {
      assert s in Checked(call) && SameContent(s, s);
    }
  }

  /**
   The object half: after a transfer whose preflight looked into the target's store and covers what is
   handed over, step 2 holds exactly if both refs are in the target's repository, which no call asks.
   */
  lemma StepTwoLeavesObjects(b3: Cas.Blake3, t: Tables, call: Call, id: string, l: string, row: SnapshotRow,
                             store: Cas.Disk, refs: set<string>)
    requires NumberingOk(t.snapshots) && IsHandedOver(t, l, row) && Hashes(call, b3)
    requires Commits(t, OnStore(call, store), id) && Commits(t, call, id) && Covers(Checked(call), row.sidecars)
    ensures StepTwo(b3, t, l, store, refs) <==> ObjectsThere(refs, row)
  {
    CommitsOnStore(b3, t, call, id, store);
    CoveredIsAvailable(b3, store, Checked(call), row.sidecars);
    StepTwoForRow(b3, t, l, row, store, refs);
  }

  /**
   Over every run: the call that transferred the lease to its last new writer made sure of the sidecars
   exactly if its preflight covers those of the snapshot handed over; it made sure of no object.
   */
  lemma TransfersAndStepTwo(b3: Cas.Blake3, t: Tables, calls: seq<Call>, l: string)
    requires Inv(t) && LeavesRow(t, calls, l) && l in t.leases && TableOk(t.snapshots)
    requires forall k :: 0 <= k < |calls| ==> Hashes(calls[k], b3)
    requires l in Run(t, calls).leases && Run(t, calls).leases[l].holder != t.leases[l].holder
    ensures exists k: nat, id :: TransferredBy(t, calls, l, k, id)
                                 && AsksExactly(b3, At(t, calls, k), calls[k], id, l)
  {
    NoUnverifiedTransfer(t, calls, l);
    var k: nat, id :| TransferredBy(t, calls, l, k, id);
    RunKeepsNumbering(t, calls[..k]);
    AskedExactly(b3, At(t, calls, k), calls[k], id, l);
  }

  /** What a committing call asks of step 2: coverage decides the sidecars, and without refs the step fails. */
  ghost predicate AsksExactly(b3: Cas.Blake3, t: Tables, call: Call, id: string, l: string) {
    forall row :: IsHandedOver(t, l, row) ==>
                    && (EnsuresSidecars(b3, t, call, id, row) <==> Covers(Checked(call), row.sidecars))
                    && (forall store: Cas.Disk :: !StepTwo(b3, t, l, store, {}))
  }

  lemma AskedExactly(b3: Cas.Blake3, t: Tables, call: Call, id: string, l: string)
    requires Commits(t, call, id) && Hashes(call, b3) && NumberingOk(t.snapshots)
    ensures AsksExactly(b3, t, call, id, l)
  {
    forall row | IsHandedOver(t, l, row)
      ensures EnsuresSidecars(b3, t, call, id, row) <==> Covers(Checked(call), row.sidecars)
      ensures forall store: Cas.Disk :: !StepTwo(b3, t, l, store, {})
    {
      SidecarsEnsuredExactly(b3, t, call, id, row);
      forall store: Cas.Disk ensures !StepTwo(b3, t, l, store, {}) {
        StepTwoForRow(b3, t, l, row, store, {});
      }
    }
  }
}
