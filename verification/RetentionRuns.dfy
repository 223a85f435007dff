/**
 The planner and the executor together: what a plan computed from the snapshot table protects, when
 it can remove a snapshot, when it runs to its end, and what happens if the table moves in between.
 */
module RetentionRuns {
  import opened Common
  import opened Order
  import opened HandoffTables
  import opened HandoffSafety
  import opened HandoffSnapshots
  import Retention

  // ---------------------------------------------------------------- the listing

  /** `list_snapshots`: the rows of a project, by number, which is storage order. */
  function RowsOf(rows: seq<SnapshotRow>, projectId: string): seq<SnapshotRow> {
    if rows == [] then []
    else
      var front, last := RowsOf(rows[..|rows| - 1], projectId), rows[|rows| - 1];
      if last.projectId == projectId then front + [last] else front
  }

  predicate Lists(e: Retention.Entry, row: SnapshotRow) {
    e.id == row.snapshotId && e.parent == row.parent && e.sequence == row.sequence && e.pinned == row.pinned
  }

  /** The planner is given the project's rows, with any creation times and size estimates. */
  ghost predicate ListedFrom(rows: seq<SnapshotRow>, projectId: string, entries: seq<Retention.Entry>) {
    && |entries| == |RowsOf(rows, projectId)|
    && forall i :: 0 <= i < |entries| ==> Lists(entries[i], RowsOf(rows, projectId)[i])
  }

  lemma {:induction false} RowsOfMembers(rows: seq<SnapshotRow>, projectId: string)
    ensures forall row :: row in RowsOf(rows, projectId) <==> row in rows && row.projectId == projectId
  {
    if rows != [] {
      var n := |rows| - 1;
      RowsOfMembers(rows[..n], projectId);
      assert rows == rows[..n] + [rows[n]];
    }
  }

  ghost predicate RowsAscend(listed: seq<SnapshotRow>) {
    forall i, j :: 0 <= i < j < |listed| ==>
                     listed[i].sequence < listed[j].sequence && listed[i].snapshotId != listed[j].snapshotId
  }

  lemma {:induction false} RowsOfAscend(rows: seq<SnapshotRow>, projectId: string)
    requires NumberingOk(rows)
    ensures RowsAscend(RowsOf(rows, projectId))
  {
    if rows != [] {
      var n := |rows| - 1;
      var front, last := rows[..n], rows[n];
      RowsOfAscend(front, projectId);
      RowsOfMembers(front, projectId);
      if last.projectId == projectId {
        var listed := RowsOf(front, projectId);
        forall i | 0 <= i < |listed|
          ensures listed[i].sequence < last.sequence && listed[i].snapshotId != last.snapshotId
        {
          assert listed[i] in listed;
          var k :| 0 <= k < n && front[k] == listed[i];
          assert rows[k] == listed[i];
        }
        assert RowsAscend(listed + [last]);
      }
    }
  }

  /** The entries are in number order. */
  ghost predicate Ascend(entries: seq<Retention.Entry>) {
    forall i, j :: 0 <= i < j < |entries| ==>
                     entries[i].sequence < entries[j].sequence && entries[i].id != entries[j].id
  }

  lemma ListingAscends(rows: seq<SnapshotRow>, projectId: string, entries: seq<Retention.Entry>)
    requires NumberingOk(rows) && ListedFrom(rows, projectId, entries)
    ensures Ascend(entries) && Retention.DistinctIds(entries)
  {
    RowsOfAscend(rows, projectId);
    var listed := RowsOf(rows, projectId);
    forall i, j | 0 <= i < j < |entries|
      ensures entries[i].sequence < entries[j].sequence && entries[i].id != entries[j].id
    {
      assert Lists(entries[i], listed[i]) && Lists(entries[j], listed[j]);
      assert listed[i].sequence < listed[j].sequence && listed[i].snapshotId != listed[j].snapshotId;
    }
  }

  lemma ListedRow(rows: seq<SnapshotRow>, projectId: string, entries: seq<Retention.Entry>, e: Retention.Entry)
    returns (row: SnapshotRow)
    requires ListedFrom(rows, projectId, entries) && e in entries
    ensures row in rows && row.projectId == projectId && Lists(e, row)
  {
    RowsOfMembers(rows, projectId);
    var i :| 0 <= i < |entries| && entries[i] == e;
    row := RowsOf(rows, projectId)[i];
    assert row in RowsOf(rows, projectId);
  }

  lemma RowIsListed(rows: seq<SnapshotRow>, projectId: string, entries: seq<Retention.Entry>, row: SnapshotRow)
    returns (e: Retention.Entry)
    requires ListedFrom(rows, projectId, entries) && row in rows && row.projectId == projectId
    ensures e in entries && Lists(e, row)
  {
    RowsOfMembers(rows, projectId);
    var listed := RowsOf(rows, projectId);
    var i :| 0 <= i < |listed| && listed[i] == row;
    e := entries[i];
  }

  /** A listing of the rows, with no times and sizes. */
  function ListingOf(rows: seq<SnapshotRow>, projectId: string): (entries: seq<Retention.Entry>)
    ensures ListedFrom(rows, projectId, entries)
  {
    var listed := RowsOf(rows, projectId);
    seq(|listed|, i requires 0 <= i < |listed| =>
      Retention.Entry(listed[i].snapshotId, listed[i].parent, listed[i].sequence, listed[i].pinned, 0, 0))
  }

  // ---------------------------------------------------------------- the executor on any list

  /** If every decision would pass alone and none comes twice, all pass. */
  lemma {:induction false} AllPass(rows: seq<SnapshotRow>, projectId: string, latest: Option<string>, ids: seq<string>)
    requires Distinct(ids) && forall id :: id in ids ==> PruneRefusal(rows, projectId, latest, id) == None
    ensures PruneRows(rows, projectId, latest, ids).1.None?
    decreases |ids|
  {
    if ids != [] {
      assert ids[0] in ids;
      var less, rest := RowsWithout(rows, projectId, ids[0]), ids[1..];
      forall id | id in rest ensures PruneRefusal(less, projectId, latest, id) == None {
        var k :| 0 <= k < |rest| && rest[k] == id;
        assert ids[k + 1] == id && ids[0] != ids[k + 1];
        assert id in ids;
        StillPasses(rows, projectId, latest, ids[0], id);
      }
      forall i, j | 0 <= i < j < |rest| ensures rest[i] != rest[j] {
        assert ids[i + 1] != ids[j + 1];
      }
      AllPass(less, projectId, latest, rest);
    }
  }

  lemma StillPasses(rows: seq<SnapshotRow>, projectId: string, latest: Option<string>, x: string, id: string)
    requires id != x && PruneRefusal(rows, projectId, latest, id) == None
    ensures PruneRefusal(RowsWithout(rows, projectId, x), projectId, latest, id) == None
  {
    RowsWithoutMembers(rows, projectId, x);
    var row :| row in rows && row.snapshotId == id && row.projectId == projectId;
    assert row.snapshotId != x;
    assert row in RowsWithout(rows, projectId, x);
  }

  lemma ChildMakesParent(rows: seq<SnapshotRow>, c: SnapshotRow)
    ensures c in rows && c.parent.Some? ==> IsParent(rows, c.parent.value)
  {
  }

  /** What a list that runs to its end tells of its i-th decision: it is not the latest, and every child
      it had was removed before it. */
  lemma {:induction false} PassedGuards(rows: seq<SnapshotRow>, projectId: string, latest: Option<string>,
                                        ids: seq<string>, i: nat, c: SnapshotRow)
    requires i < |ids| && PruneRows(rows, projectId, latest, ids).1.None?
    ensures latest != Some(ids[i]) && HasRow(rows, projectId, ids[i])
    ensures c in rows && c.parent == Some(ids[i]) ==>
              c.projectId == projectId && exists j :: 0 <= j < i && ids[j] == c.snapshotId
    decreases |ids|
  {
    var less, rest := RowsWithout(rows, projectId, ids[0]), ids[1..];
    RowsWithoutMembers(rows, projectId, ids[0]);
    if i == 0 {
      ChildMakesParent(rows, c);
    } else {
      PassedGuards(less, projectId, latest, rest, i - 1, c);
      if c in rows && c.parent == Some(ids[i]) {
        if c in less {
          var j :| 0 <= j < i - 1 && rest[j] == c.snapshotId;
          assert ids[j + 1] == c.snapshotId;
        } else {
          assert ids[0] == c.snapshotId;
        }
      }
    }
  }

  /** The decision that removed a snapshot, with all before it passed. */
  lemma {:induction false} RemovedAt(rows: seq<SnapshotRow>, projectId: string, latest: Option<string>,
                                     ids: seq<string>, x: string) returns (i: nat)
    requires HasSnapshot(rows, x) && !HasSnapshot(PruneRows(rows, projectId, latest, ids).0, x)
    ensures i < |ids| && ids[i] == x && PruneRows(rows, projectId, latest, ids[..i + 1]).1.None?
    decreases |ids|
  {
    var less, rest := RowsWithout(rows, projectId, ids[0]), ids[1..];
    if ids[0] == x {
      i := 0;
      assert ids[..1][1..] == [];
    } else {
      StillThere(rows, projectId, ids[0], x);
      var k := RemovedAt(less, projectId, latest, rest, x);
      i := k + 1;
      assert ids[..i + 1][0] == ids[0] && ids[..i + 1][1..] == rest[..k + 1];
    }
  }

  // ---------------------------------------------------------------- children come later

  /** Earlier in the list means a smaller number. */
  ghost predicate InOrder(entries: seq<Retention.Entry>, ids: seq<string>) {
    forall i, j, a, b :: 0 <= i < j < |ids| && a in entries && b in entries && a.id == ids[i] && b.id == ids[j] ==>
                           a.sequence < b.sequence
  }

  lemma {:induction false} ChosenInOrder(entries: seq<Retention.Entry>, deletes: set<string>)
    requires Ascend(entries)
    ensures InOrder(entries, Retention.Chosen(entries, deletes))
  {
    if entries != [] {
      var n := |entries| - 1;
      var front, last := entries[..n], entries[n];
      var ids := Retention.Chosen(entries, deletes);
      var before := Retention.Chosen(front, deletes);
      assert entries == front + [last];
      ChosenInOrder(front, deletes);
      Retention.ChosenMembers(front, deletes);
      forall i, j, a, b | 0 <= i < j < |ids| && a in entries && b in entries && a.id == ids[i] && b.id == ids[j]
        ensures a.sequence < b.sequence
      {
        assert before[i] in before;
        FrontEntry(entries, a);
        FrontEntry(entries, b);
        if j < |before| {
          assert before[j] in before;
        }
      }
    }
  }

  /** In an ascending listing an entry whose id occurs before the last one lies before it. */
  lemma FrontEntry(entries: seq<Retention.Entry>, a: Retention.Entry)
    requires Ascend(entries) && a in entries
    ensures var n := |entries| - 1;
            && (a.id in Retention.IdsOf(entries[..n]) ==> a in entries[..n] && a.sequence < entries[n].sequence)
            && (a.id == entries[n].id ==> a == entries[n])
  {
    var n := |entries| - 1;
    var i :| 0 <= i < |entries| && entries[i] == a;
    if i < n {
      assert entries[..n][i] == a;
    }
    if a.id in Retention.IdsOf(entries[..n]) {
      var e :| e in entries[..n] && e.id == a.id;
      var k :| 0 <= k < n && entries[..n][k] == e;
      assert entries[k] == e;
    }
  }

  lemma OrderedIdsDiffer(entries: seq<Retention.Entry>, ids: seq<string>, i: nat, j: nat)
    requires InOrder(entries, ids) && i < j < |ids| && ids[i] in Retention.IdsOf(entries)
    ensures ids[i] != ids[j]
  {
    var e :| e in entries && e.id == ids[i];
  }

  lemma ChosenDistinct(entries: seq<Retention.Entry>, deletes: set<string>)
    requires Ascend(entries)
    ensures Distinct(Retention.Chosen(entries, deletes))
  {
    var ids := Retention.Chosen(entries, deletes);
    ChosenInOrder(entries, deletes);
    Retention.ChosenMembers(entries, deletes);
    forall i, j | 0 <= i < j < |ids| ensures ids[i] != ids[j] {
      assert ids[i] in ids;
      OrderedIdsDiffer(entries, ids, i, j);
    }
  }

  /** A child has a larger number than its parent. */
  lemma ChildIsNewer(rows: seq<SnapshotRow>, parent: SnapshotRow, c: SnapshotRow)
    requires TableOk(rows) && parent in rows && c in rows && c.projectId == parent.projectId
    requires c.parent == Some(parent.snapshotId)
    ensures c.sequence >= parent.sequence
  {
    if c.snapshotId == parent.snapshotId {
      UniqueRow(rows, c, parent);
    } else {
      var i :| 0 <= i < |rows| && rows[i] == parent;
      var k := ChildComesLater(rows, i, c);
    }
  }

  /** So in a list in number order no child is removed before its parent. */
  lemma NoChildBefore(rows: seq<SnapshotRow>, projectId: string, entries: seq<Retention.Entry>, ids: seq<string>,
                      i: nat, j: nat, c: SnapshotRow)
    requires TableOk(rows) && ListedFrom(rows, projectId, entries) && InOrder(entries, ids) && j < i < |ids|
    requires HasRow(rows, projectId, ids[i])
    requires c in rows && c.projectId == projectId && c.parent == Some(ids[i])
    ensures ids[j] != c.snapshotId
  {
    var parent :| parent in rows && parent.snapshotId == ids[i] && parent.projectId == projectId;
    var a := RowIsListed(rows, projectId, entries, c);
    var b := RowIsListed(rows, projectId, entries, parent);
    ChildIsNewer(rows, parent, c);
  }

  // ---------------------------------------------------------------- the planner's plans

  /** The plan, computed from the table as it stands. */
  ghost predicate PlansFor(rows: seq<SnapshotRow>, projectId: string, input: Retention.PlanInput) {
    TableOk(rows) && ListedFrom(rows, projectId, input.entries)
  }

  lemma PlannedRow(rows: seq<SnapshotRow>, projectId: string, input: Retention.PlanInput, id: string)
    requires PlansFor(rows, projectId, input) && id in Retention.PlannedIds(input)
    ensures HasRow(rows, projectId, id) && !IsPinned(rows, projectId, id) && input.latest != Some(id)
  {
    Retention.NeverPlanned(input, id);
    var e :| e in input.entries && e.id == id;
    var row := ListedRow(rows, projectId, input.entries, e);
    PinnedIsListed(rows, projectId, input.entries, id);
  }

  lemma PinnedIsListed(rows: seq<SnapshotRow>, projectId: string, entries: seq<Retention.Entry>, id: string)
    requires ListedFrom(rows, projectId, entries)
    ensures IsPinned(rows, projectId, id) ==> id in Retention.PinnedIds(entries)
  {
    if row :| row in rows && row.snapshotId == id && row.projectId == projectId && row.pinned {
      var e := RowIsListed(rows, projectId, entries, row);
    }
  }

  lemma PlannedInOrder(rows: seq<SnapshotRow>, projectId: string, input: Retention.PlanInput)
    requires PlansFor(rows, projectId, input)
    ensures InOrder(input.entries, Retention.PlannedIds(input)) && Distinct(Retention.PlannedIds(input))
  {
    ListingAscends(rows, projectId, input.entries);
    ChosenInOrder(input.entries, Retention.DeleteSet(input));
    ChosenDistinct(input.entries, Retention.DeleteSet(input));
  }

  lemma ChildlessWhenPassed(rows: seq<SnapshotRow>, projectId: string, entries: seq<Retention.Entry>,
                            ids: seq<string>, i: nat, c: SnapshotRow)
    requires TableOk(rows) && ListedFrom(rows, projectId, entries) && InOrder(entries, ids) && i < |ids|
    requires PruneRows(rows, projectId, LatestSnapshotId(rows, projectId), ids[..i + 1]).1.None?
    requires HasRow(rows, projectId, ids[i]) && c in rows
    ensures c.parent != Some(ids[i])
  {
    PassedGuards(rows, projectId, LatestSnapshotId(rows, projectId), ids[..i + 1], i, c);
    if c.parent == Some(ids[i]) {
      var j :| 0 <= j < i && ids[..i + 1][j] == c.snapshotId;
      NoChildBefore(rows, projectId, entries, ids, i, j, c);
    }
  }

  lemma PassedLatest(rows: seq<SnapshotRow>, projectId: string, latest: Option<string>, ids: seq<string>, i: nat)
    requires i < |ids| && PruneRows(rows, projectId, latest, ids).1.None?
    ensures latest != Some(ids[i])
  {
    PassedGuards(rows, projectId, latest, ids, i, SnapshotRow("", "", None, None, 0, false, []));
  }

  /** An id of an ordered list that is removed had no child at all, so it would pass alone. */
  lemma PassedIsChildless(rows: seq<SnapshotRow>, projectId: string, entries: seq<Retention.Entry>, ids: seq<string>,
                          i: nat)
    requires TableOk(rows) && ListedFrom(rows, projectId, entries) && InOrder(entries, ids) && i < |ids|
    requires PruneRows(rows, projectId, LatestSnapshotId(rows, projectId), ids[..i + 1]).1.None?
    requires HasRow(rows, projectId, ids[i]) && !IsPinned(rows, projectId, ids[i])
    ensures PruneRefusal(rows, projectId, LatestSnapshotId(rows, projectId), ids[i]) == None
  {
    forall c | c in rows ensures c.parent != Some(ids[i]) {
      ChildlessWhenPassed(rows, projectId, entries, ids, i, c);
    }
    PassedLatest(rows, projectId, LatestSnapshotId(rows, projectId), ids[..i + 1], i);
  }

  /** A planned snapshot that is removed had no child at all. */
  lemma RemovedWasChildless(rows: seq<SnapshotRow>, projectId: string, input: Retention.PlanInput, ids: seq<string>,
                            i: nat)
    requires PlansFor(rows, projectId, input) && ids == Retention.PlannedIds(input) && i < |ids|
    requires PruneRows(rows, projectId, LatestSnapshotId(rows, projectId), ids[..i + 1]).1.None?
    ensures PruneRefusal(rows, projectId, LatestSnapshotId(rows, projectId), ids[i]) == None
  {
    PlannedInOrder(rows, projectId, input);
    PlannedRow(rows, projectId, input, ids[i]);
    PassedIsChildless(rows, projectId, input.entries, ids, i);
  }

  lemma PruneKeepsUnlisted(t: Tables, projectId: string, ids: seq<string>, x: string)
    requires HasSnapshot(t.snapshots, x) && x !in ids
    ensures HasSnapshot(Apply(t, Prune(projectId, ids)).0.snapshots, x)
  {
    var rows, latest := t.snapshots, LatestSnapshotId(t.snapshots, projectId);
    if !HasSnapshot(PruneRows(rows, projectId, latest, ids).0, x) {
      var i := RemovedAt(rows, projectId, latest, ids, x);
    }
  }

  lemma PinnedRowIsPinned(rows: seq<SnapshotRow>, projectId: string, row: SnapshotRow)
    requires NumberingOk(rows) && row in rows && row.pinned && HasRow(rows, projectId, row.snapshotId)
    ensures IsPinned(rows, projectId, row.snapshotId)
  {
    var own :| own in rows && own.snapshotId == row.snapshotId && own.projectId == projectId;
    UniqueRow(rows, own, row);
  }

  lemma PlanSparesRow(rows: seq<SnapshotRow>, projectId: string, input: Retention.PlanInput, row: SnapshotRow)
    requires PlansFor(rows, projectId, input) && row in rows
    requires || row.pinned || input.latest == Some(row.snapshotId)
             || row.snapshotId in Retention.ProtectedIds(input.protections, input.now)
    ensures row.snapshotId !in Retention.PlannedIds(input)
  {
    var id := row.snapshotId;
    if id in Retention.PlannedIds(input) {
      PlannedRow(rows, projectId, input, id);
      Retention.NeverPlanned(input, id);
      if row.pinned {
        PinnedRowIsPinned(rows, projectId, row);
      }
    }
  }

  /**
   What a plan protects when it is run on the table it was computed from with the lease's latest
   snapshot: that snapshot, every pinned one, and every one under an active handoff protection.
   */
  lemma PlanProtects(t: Tables, l: string, projectId: string, input: Retention.PlanInput, row: SnapshotRow)
    requires PlansFor(t.snapshots, projectId, input) && l in t.leases && input.latest == t.leases[l].latest
    requires row in t.snapshots
    requires || row.pinned || t.leases[l].latest == Some(row.snapshotId)
             || row.snapshotId in Retention.ProtectedIds(input.protections, input.now)
    ensures HasSnapshot(Apply(t, Prune(projectId, Retention.PlannedIds(input))).0.snapshots, row.snapshotId)
  {
    PlanSparesRow(t.snapshots, projectId, input, row);
    PruneKeepsUnlisted(t, projectId, Retention.PlannedIds(input), row.snapshotId);
  }

  /**
   When a planner's plan can remove a stored snapshot: some plan computed from the table, given that
   latest snapshot, removes it exactly if it is not the latest given and the executor would pass it
   alone: unpinned, of the project, without a child anywhere, and not of the highest number.
   */
  lemma PlannerRemovesExactly(rows: seq<SnapshotRow>, projectId: string, given: Option<string>, x: string)
    requires TableOk(rows) && HasSnapshot(rows, x)
    ensures (exists input :: PlanRemoves(rows, projectId, given, input, x))
            <==> given != Some(x) && PruneRefusal(rows, projectId, LatestSnapshotId(rows, projectId), x) == None
  {
    if input :| PlanRemoves(rows, projectId, given, input, x) {
      var i := RemovedAt(rows, projectId, LatestSnapshotId(rows, projectId), Retention.PlannedIds(input), x);
      RemovedWasChildless(rows, projectId, input, Retention.PlannedIds(input), i);
      Retention.NeverPlanned(input, x);
    }
    if given != Some(x) && PruneRefusal(rows, projectId, LatestSnapshotId(rows, projectId), x) == None {
      OnlyPlanRemoves(rows, projectId, given, x);
    }
  }

  ghost predicate PlanRemoves(rows: seq<SnapshotRow>, projectId: string, given: Option<string>,
                              input: Retention.PlanInput, x: string)
  {
    && PlansFor(rows, projectId, input) && input.latest == given
    && !HasSnapshot(PruneRows(rows, projectId, LatestSnapshotId(rows, projectId), Retention.PlannedIds(input)).0, x)
  }

  /** A plan of the planner that names one snapshot and nothing else. */
  lemma OnlyPlanRemoves(rows: seq<SnapshotRow>, projectId: string, given: Option<string>, x: string)
    requires TableOk(rows) && given != Some(x)
    requires PruneRefusal(rows, projectId, LatestSnapshotId(rows, projectId), x) == None
    ensures var input := Retention.OnlyPlan(ListingOf(rows, projectId), x, given);
            Retention.PlannedIds(input) == [x] && PlanRemoves(rows, projectId, given, input, x)
  {
    var entries, latest := ListingOf(rows, projectId), LatestSnapshotId(rows, projectId);
    ListingAscends(rows, projectId, entries);
    var own :| own in rows && own.snapshotId == x && own.projectId == projectId;
    var e := RowIsListed(rows, projectId, entries, own);
    forall a | a in entries ensures a.parent != Some(x) && (a.id == x ==> !a.pinned) {
      var row := ListedRow(rows, projectId, entries, a);
    }
    Retention.PlanForOne(entries, x, given);
    GoneByOwnId(rows, projectId, x);
    assert [x][1..] == [];
    assert PruneRows(rows, projectId, latest, [x]).0 == RowsWithout(rows, projectId, x);
  }

  lemma {:induction false} PrefixPasses(rows: seq<SnapshotRow>, projectId: string, latest: Option<string>,
                                        ids: seq<string>, n: nat)
    requires n <= |ids| && PruneRows(rows, projectId, latest, ids).1.None?
    ensures PruneRows(rows, projectId, latest, ids[..n]).1.None?
    decreases n
  {
    if n > 0 {
      assert ids[..n][0] == ids[0] && ids[..n][1..] == ids[1..][..n - 1];
      PrefixPasses(RowsWithout(rows, projectId, ids[0]), projectId, latest, ids[1..], n - 1);
    }
  }

  /** No id of the list is a parent, and none has the highest number. */
  ghost predicate OnlyLeaves(rows: seq<SnapshotRow>, projectId: string, ids: seq<string>) {
    forall id :: id in ids ==> LatestSnapshotId(rows, projectId) != Some(id) && !IsParent(rows, id)
  }

  lemma CompleteListHasOnlyLeaves(rows: seq<SnapshotRow>, projectId: string, entries: seq<Retention.Entry>,
                                  ids: seq<string>)
    requires TableOk(rows) && ListedFrom(rows, projectId, entries) && InOrder(entries, ids)
    requires forall id :: id in ids ==> HasRow(rows, projectId, id) && !IsPinned(rows, projectId, id)
    requires PruneRows(rows, projectId, LatestSnapshotId(rows, projectId), ids).1.None?
    ensures OnlyLeaves(rows, projectId, ids)
  {
    forall id | id in ids ensures LatestSnapshotId(rows, projectId) != Some(id) && !IsParent(rows, id) {
      var i :| 0 <= i < |ids| && ids[i] == id;
      PrefixPasses(rows, projectId, LatestSnapshotId(rows, projectId), ids, i + 1);
      PassedIsChildless(rows, projectId, entries, ids, i);
    }
  }

  lemma CompletePlanHasOnlyLeaves(rows: seq<SnapshotRow>, projectId: string, input: Retention.PlanInput)
    requires PlansFor(rows, projectId, input)
    requires PruneRows(rows, projectId, LatestSnapshotId(rows, projectId), Retention.PlannedIds(input)).1.None?
    ensures OnlyLeaves(rows, projectId, Retention.PlannedIds(input))
  {
    PlannedInOrder(rows, projectId, input);
    forall id | id in Retention.PlannedIds(input)
      ensures HasRow(rows, projectId, id) && !IsPinned(rows, projectId, id)
    {
      PlannedRow(rows, projectId, input, id);
    }
    CompleteListHasOnlyLeaves(rows, projectId, input.entries, Retention.PlannedIds(input));
  }

  lemma ChildlessPlanCompletes(rows: seq<SnapshotRow>, projectId: string, input: Retention.PlanInput)
    requires PlansFor(rows, projectId, input)
    requires OnlyLeaves(rows, projectId, Retention.PlannedIds(input))
    ensures PruneRows(rows, projectId, LatestSnapshotId(rows, projectId), Retention.PlannedIds(input)).1.None?
  {
    var ids, latest := Retention.PlannedIds(input), LatestSnapshotId(rows, projectId);
    forall id | id in ids ensures PruneRefusal(rows, projectId, latest, id) == None {
      PlannedRow(rows, projectId, input, id);
    }
    PlannedInOrder(rows, projectId, input);
    AllPass(rows, projectId, latest, ids);
  }

  /**
   When a planner's plan runs to its end on the table it was computed from: exactly if no planned
   snapshot has a child, not even a planned one, and the highest number is not among them.
   */
  lemma PlannedPruneRunsExactly(rows: seq<SnapshotRow>, projectId: string, input: Retention.PlanInput)
    requires PlansFor(rows, projectId, input)
    ensures PruneRows(rows, projectId, LatestSnapshotId(rows, projectId), Retention.PlannedIds(input)).1.None?
            <==> OnlyLeaves(rows, projectId, Retention.PlannedIds(input))
  {
    if PruneRows(rows, projectId, LatestSnapshotId(rows, projectId), Retention.PlannedIds(input)).1.None? {
      CompletePlanHasOnlyLeaves(rows, projectId, input);
    } else if OnlyLeaves(rows, projectId, Retention.PlannedIds(input)) {
      ChildlessPlanCompletes(rows, projectId, input);
    }
  }

  /** In the project such a child is always planned too, so what stops a plan is a planned parent that
      comes before its planned child, a child in another project, or the highest number. */
  lemma ChildOfPlannedIsPlanned(rows: seq<SnapshotRow>, projectId: string, input: Retention.PlanInput, id: string,
                                c: SnapshotRow)
    requires PlansFor(rows, projectId, input) && id in Retention.PlannedIds(input)
    requires c in rows && c.projectId == projectId && c.parent == Some(id)
    ensures c.snapshotId in Retention.PlannedIds(input)
  {
    ListingAscends(rows, projectId, input.entries);
    var e := RowIsListed(rows, projectId, input.entries, c);
    Retention.ChildrenArePlanned(input, e, id);
  }

  lemma PlannedWasNotLatest(t: Tables, l: string, projectId: string, input: Retention.PlanInput, x: string)
    requires PlansFor(t.snapshots, projectId, input) && l in t.leases && input.latest == t.leases[l].latest
    requires x in Retention.PlannedIds(input)
    ensures HasSnapshot(t.snapshots, x) && !IsLatest(t, l, x)
  {
    PlannedRow(t.snapshots, projectId, input, x);
  }

  /**
   A plan that is run later: computed with the latest snapshot the lease had then, it can remove the
   one the lease has now only if that one was pruned and published again in between.
   */
  lemma LatePlanNeedsRevival(t: Tables, calls: seq<Call>, l: string, projectId: string, input: Retention.PlanInput,
                             ids: seq<string>, x: string) returns (i: nat, j: nat)
    requires PlansFor(t.snapshots, projectId, input) && l in t.leases && input.latest == t.leases[l].latest
    requires ids == Retention.PlannedIds(input)
    requires NeverOverwritten(calls, l) && IsLatest(Run(t, calls), l, x) && HasSnapshot(Run(t, calls).snapshots, x)
    requires !HasSnapshot(Apply(Run(t, calls), Prune(projectId, ids)).0.snapshots, x)
    ensures RevivedBy(t, calls, l, x, 0, i, j)
  {
    if x !in ids {
      PruneKeepsUnlisted(Run(t, calls), projectId, ids, x);
    }
    PlannedWasNotLatest(t, l, projectId, input, x);
    AtStart(t, calls);
    AtEnd(t, calls);
    i, j := RevivalNeedsPrune(t, calls, l, x, 0, |calls|);
  }
}
