/**
 The snapshot table over whole runs: numbering, what pruning can remove, and when a canonical
 latest snapshot that was replaced can become the latest again.
 */
module HandoffSnapshots {
  import opened Common
  import opened HandoffTables
  import opened HandoffSafety

  // ---------------------------------------------------------------- snapshot numbering

  /** Snapshot ids are unique, numbers start at one, and the numbers of a project strictly increase
      in storage order. */
  ghost predicate NumberingOk(rows: seq<SnapshotRow>) {
    && (forall i :: 0 <= i < |rows| ==> rows[i].sequence >= 1)
    && (forall i, j :: 0 <= i < j < |rows| ==>
                         && rows[i].snapshotId != rows[j].snapshotId
                         && (rows[i].projectId == rows[j].projectId ==> rows[i].sequence < rows[j].sequence))
  }

  lemma {:induction false} MaxSequenceBounds(rows: seq<SnapshotRow>, projectId: string, i: nat)
    requires i < |rows| && rows[i].projectId == projectId
    ensures rows[i].sequence <= MaxSequence(rows, projectId)
  {
    if i < |rows| - 1 {
      MaxSequenceBounds(rows[..|rows| - 1], projectId, i);
    }
  }

  lemma InsertKeepsNumbering(rows: seq<SnapshotRow>, row: SnapshotRow)
    requires NumberingOk(rows) && !HasSnapshot(rows, row.snapshotId)
    requires row.sequence == MaxSequence(rows, row.projectId) + 1
    ensures NumberingOk(rows + [row])
  {
    forall i | 0 <= i < |rows|
      ensures rows[i].snapshotId != row.snapshotId
      ensures rows[i].projectId == row.projectId ==> rows[i].sequence < row.sequence
    {
      assert rows[i] in rows;
      if rows[i].projectId == row.projectId {
        MaxSequenceBounds(rows, row.projectId, i);
      }
    }
  }

  lemma UniqueRow(rows: seq<SnapshotRow>, a: SnapshotRow, b: SnapshotRow)
    requires NumberingOk(rows) && a in rows && b in rows && a.snapshotId == b.snapshotId
    ensures a == b
  {
    var i :| 0 <= i < |rows| && rows[i] == a;
    var j :| 0 <= j < |rows| && rows[j] == b;
  }

  /** The row with the highest number of a project is the one the store calls latest. */
  lemma {:induction false} LatestIsHighest(rows: seq<SnapshotRow>, projectId: string, row: SnapshotRow)
    requires NumberingOk(rows) && row in rows && row.projectId == projectId
    ensures LatestSnapshotId(rows, projectId) == Some(row.snapshotId) <==> row.sequence == MaxSequence(rows, projectId)
    ensures row.sequence <= MaxSequence(rows, projectId)
  {
    var n := |rows| - 1;
    var front, last := rows[..n], rows[n];
    assert rows == front + [last];
    assert NumberingOk(front);
    if last.projectId == projectId {
      LastIsHighest(rows, projectId);
      var i :| 0 <= i < |rows| && rows[i] == row;
    } else {
      assert row in front;
      LatestIsHighest(front, projectId, row);
    }
  }

  lemma LastIsHighest(rows: seq<SnapshotRow>, projectId: string)
    requires NumberingOk(rows) && rows != [] && rows[|rows| - 1].projectId == projectId
    ensures MaxSequence(rows[..|rows| - 1], projectId) < rows[|rows| - 1].sequence
    ensures MaxSequence(rows, projectId) == rows[|rows| - 1].sequence
  {
    var front := rows[..|rows| - 1];
    MaxIsZeroOrReached(front, projectId);
  }

  lemma {:induction false} MaxIsZeroOrReached(rows: seq<SnapshotRow>, projectId: string)
    ensures MaxSequence(rows, projectId) == 0
         || exists i :: && 0 <= i < |rows| && rows[i].projectId == projectId
                        && rows[i].sequence == MaxSequence(rows, projectId)
  {
    if rows != [] {
      var front := rows[..|rows| - 1];
      MaxIsZeroOrReached(front, projectId);
      if MaxSequence(rows, projectId) == MaxSequence(front, projectId) && MaxSequence(front, projectId) != 0 {
        var i :| && 0 <= i < |front| && front[i].projectId == projectId
                 && front[i].sequence == MaxSequence(front, projectId);
        assert rows[i] == front[i];
      } else if MaxSequence(rows, projectId) != 0 {
        assert rows[|rows| - 1].sequence == MaxSequence(rows, projectId);
      }
    }
  }

  // ---------------------------------------------------------------- removing one row

  predicate IsRow(row: SnapshotRow, projectId: string, id: string) {
    row.snapshotId == id && row.projectId == projectId
  }

  lemma {:induction false} RowsWithoutMembers(rows: seq<SnapshotRow>, projectId: string, id: string)
    ensures forall row :: row in RowsWithout(rows, projectId, id) <==> row in rows && !IsRow(row, projectId, id)
  {
    if rows != [] {
      var n := |rows| - 1;
      RowsWithoutMembers(rows[..n], projectId, id);
      assert rows == rows[..n] + [rows[n]];
    }
  }

  lemma {:induction false} RowsWithoutNumbering(rows: seq<SnapshotRow>, projectId: string, id: string)
    requires NumberingOk(rows)
    ensures NumberingOk(RowsWithout(rows, projectId, id))
  {
    if rows != [] {
      var n := |rows| - 1;
      var front, last := rows[..n], rows[n];
      RowsWithoutNumbering(front, projectId, id);
      RowsWithoutMembers(front, projectId, id);
      forall row | row in RowsWithout(front, projectId, id)
        ensures row.snapshotId != last.snapshotId && (row.projectId == last.projectId ==> row.sequence < last.sequence)
      {
        var i :| 0 <= i < n && front[i] == row;
        assert rows[i] == row;
      }
      AppendNumbering(RowsWithout(front, projectId, id), last);
    }
  }

  lemma AppendNumbering(rows: seq<SnapshotRow>, last: SnapshotRow)
    requires NumberingOk(rows) && last.sequence >= 1
    requires forall row :: row in rows ==>
               row.snapshotId != last.snapshotId && (row.projectId == last.projectId ==> row.sequence < last.sequence)
    ensures NumberingOk(rows + [last])
  {
    forall i | 0 <= i < |rows|
      ensures rows[i].snapshotId != last.snapshotId
      ensures rows[i].projectId == last.projectId ==> rows[i].sequence < last.sequence
    {
      assert rows[i] in rows;
    }
  }

  /** Removing a row that is not the highest of its project leaves every next number as it was. */
  lemma RowsWithoutMax(rows: seq<SnapshotRow>, projectId: string, id: string, p: string)
    requires NumberingOk(rows) && LatestSnapshotId(rows, projectId) != Some(id)
    ensures MaxSequence(RowsWithout(rows, projectId, id), p) == MaxSequence(rows, p)
  {
    var less := RowsWithout(rows, projectId, id);
    RowsWithoutMembers(rows, projectId, id);
    MaxIsZeroOrReached(rows, p);
    MaxIsZeroOrReached(less, p);
    if MaxSequence(rows, p) != 0 {
      var i :| 0 <= i < |rows| && rows[i].projectId == p && rows[i].sequence == MaxSequence(rows, p);
      assert rows[i] in rows;
      LatestIsHighest(rows, p, rows[i]);
      assert rows[i] in less;
      var k :| 0 <= k < |less| && less[k] == rows[i];
      MaxSequenceBounds(less, p, k);
    }
    if MaxSequence(less, p) != 0 {
      var k :| 0 <= k < |less| && less[k].projectId == p && less[k].sequence == MaxSequence(less, p);
      assert less[k] in less;
      var i :| 0 <= i < |rows| && rows[i] == less[k];
      MaxSequenceBounds(rows, p, i);
    }
  }

  // ---------------------------------------------------------------- pruning

  /** What any plan leaves: rows in numbering order, every pinned row, every next number. */
  ghost predicate PrunedSoundly(rows: seq<SnapshotRow>, after: seq<SnapshotRow>) {
    && NumberingOk(after)
    && (forall row :: row in after ==> row in rows)
    && (forall row :: row in rows && row.pinned ==> row in after)
    && (forall p :: MaxSequence(after, p) == MaxSequence(rows, p))
  }

  lemma OneDecisionIsSound(rows: seq<SnapshotRow>, projectId: string, id: string)
    requires NumberingOk(rows)
    requires PruneRefusal(rows, projectId, LatestSnapshotId(rows, projectId), id) == None
    ensures PrunedSoundly(rows, RowsWithout(rows, projectId, id))
    ensures LatestSnapshotId(RowsWithout(rows, projectId, id), projectId) == LatestSnapshotId(rows, projectId)
  {
    var less := RowsWithout(rows, projectId, id);
    RowsWithoutMembers(rows, projectId, id);
    RowsWithoutNumbering(rows, projectId, id);
    forall p ensures MaxSequence(less, p) == MaxSequence(rows, p) {
      RowsWithoutMax(rows, projectId, id, p);
    }
    var top :| top in rows && IsRow(top, projectId, id);
    SameLatest(rows, less, projectId);
  }

  lemma {:induction false} LatestIsARow(rows: seq<SnapshotRow>, projectId: string)
    requires NumberingOk(rows)
    ensures match LatestSnapshotId(rows, projectId)
            case None => MaxSequence(rows, projectId) == 0
            case Some(id) => exists row :: row in rows && IsRow(row, projectId, id)
                                           && row.sequence == MaxSequence(rows, projectId) >= 1
  {
    MaxIsZeroOrReached(rows, projectId);
    if MaxSequence(rows, projectId) != 0 {
      var i :| 0 <= i < |rows| && rows[i].projectId == projectId && rows[i].sequence == MaxSequence(rows, projectId);
      assert rows[i] in rows;
      LatestIsHighest(rows, projectId, rows[i]);
    } else {
      NoRowNoLatest(rows, projectId);
    }
  }

  lemma {:induction false} NoRowNoLatest(rows: seq<SnapshotRow>, projectId: string)
    requires MaxSequence(rows, projectId) == 0
    ensures LatestSnapshotId(rows, projectId) == None
  {
    if rows != [] {
      NoRowNoLatest(rows[..|rows| - 1], projectId);
    }
  }

  lemma SameLatest(rows: seq<SnapshotRow>, less: seq<SnapshotRow>, projectId: string)
    requires NumberingOk(rows) && NumberingOk(less) && MaxSequence(less, projectId) == MaxSequence(rows, projectId)
    requires forall row :: row in less ==> row in rows
    ensures LatestSnapshotId(less, projectId) == LatestSnapshotId(rows, projectId)
  {
    LatestIsARow(less, projectId);
    LatestIsARow(rows, projectId);
    if LatestSnapshotId(less, projectId).Some? {
      var row :| row in less && IsRow(row, projectId, LatestSnapshotId(less, projectId).value)
                 && row.sequence == MaxSequence(less, projectId);
      LatestIsHighest(rows, projectId, row);
    }
  }

  lemma {:induction false} PlanIsSound(rows: seq<SnapshotRow>, projectId: string, ids: seq<string>)
    requires NumberingOk(rows)
    ensures PrunedSoundly(rows, PruneRows(rows, projectId, LatestSnapshotId(rows, projectId), ids).0)
    decreases |ids|
  {
    if ids != [] && PruneRefusal(rows, projectId, LatestSnapshotId(rows, projectId), ids[0]) == None {
      var less := RowsWithout(rows, projectId, ids[0]);
      OneDecisionIsSound(rows, projectId, ids[0]);
      PlanIsSound(less, projectId, ids[1..]);
    }
  }

  // ---------------------------------------------------------------- what a plan can remove

  /** Every parent other than the row itself is stored before its children. */
  ghost predicate ParentsFirst(rows: seq<SnapshotRow>) {
    forall i :: 0 <= i < |rows| && rows[i].parent.Some? && rows[i].parent.value != rows[i].snapshotId ==>
                  HasSnapshot(rows[..i], rows[i].parent.value)
  }

  ghost predicate TableOk(rows: seq<SnapshotRow>) {
    NumberingOk(rows) && ParentsFirst(rows)
  }

  predicate IsChildOf(rows: seq<SnapshotRow>, child: string, parent: string) {
    exists row :: row in rows && row.snapshotId == child && row.parent == Some(parent)
  }

  /** A line of descent: each id names the one before it as its parent. */
  predicate IsDescent(rows: seq<SnapshotRow>, line: seq<string>) {
    line != [] && forall i :: 1 <= i < |line| ==> IsChildOf(rows, line[i], line[i - 1])
  }

  ghost predicate Descends(rows: seq<SnapshotRow>, d: string, id: string) {
    exists line :: IsDescent(rows, line) && line[0] == id && line[|line| - 1] == d
  }

  /** The guards that do not go away when descendants are removed first. */
  ghost predicate Evictable(rows: seq<SnapshotRow>, projectId: string, latest: Option<string>, d: string) {
    && HasRow(rows, projectId, d) && !IsPinned(rows, projectId, d)
    && latest != Some(d) && !IsChildOf(rows, d, d)
  }

  /** The snapshot and everything that descends from it are evictable. */
  ghost predicate Removable(rows: seq<SnapshotRow>, projectId: string, latest: Option<string>, id: string) {
    forall d :: Descends(rows, d, id) ==> Evictable(rows, projectId, latest, d)
  }

  lemma DescentKept(rows: seq<SnapshotRow>, less: seq<SnapshotRow>, line: seq<string>)
    requires IsDescent(less, line) && forall row :: row in less ==> row in rows
    ensures IsDescent(rows, line)
  {
    forall i | 1 <= i < |line| ensures IsChildOf(rows, line[i], line[i - 1]) {
      assert IsChildOf(less, line[i], line[i - 1]);
    }
  }

  lemma DescendsItself(rows: seq<SnapshotRow>, id: string)
    ensures Descends(rows, id, id)
  {
    assert IsDescent(rows, [id]) && [id][0] == id;
  }

  lemma ChildDescends(rows: seq<SnapshotRow>, child: string, d: string, id: string)
    requires Descends(rows, d, id) && IsChildOf(rows, child, d)
    ensures Descends(rows, child, id)
  {
    var line :| IsDescent(rows, line) && line[0] == id && line[|line| - 1] == d;
    var longer := line + [child];
    forall i | 1 <= i < |longer| ensures IsChildOf(rows, longer[i], longer[i - 1]) {
      assert i < |line| ==> IsChildOf(rows, line[i], line[i - 1]);
    }
    assert longer[|longer| - 1] == child;
  }

  /** Without the removed row, which has no child, a line of descent either survives or ends in it. */
  lemma DescentLosesOnlyItsEnd(rows: seq<SnapshotRow>, projectId: string, x: string, line: seq<string>)
    requires NumberingOk(rows) && HasRow(rows, projectId, x) && !IsParent(rows, x)
    requires IsDescent(rows, line) && line[0] != x
    requires line[|line| - 1] != x
    ensures IsDescent(RowsWithout(rows, projectId, x), line)
  {
    var less := RowsWithout(rows, projectId, x);
    RowsWithoutMembers(rows, projectId, x);
    forall i | 1 <= i < |line| ensures IsChildOf(less, line[i], line[i - 1]) {
      assert IsChildOf(rows, line[i], line[i - 1]);
      var row :| row in rows && row.snapshotId == line[i] && row.parent == Some(line[i - 1]);
      if i + 1 < |line| {
        assert IsChildOf(rows, line[i + 1], line[i]);
      }
      assert line[i] != x;
      assert row in less;
    }
  }

  /** If some plan removes a snapshot, it and all its descendants were evictable. */
  lemma {:induction false} RemovedWasRemovable(rows: seq<SnapshotRow>, projectId: string, latest: Option<string>,
                                               ids: seq<string>, id: string)
    requires NumberingOk(rows) && HasSnapshot(rows, id)
    requires !HasSnapshot(PruneRows(rows, projectId, latest, ids).0, id)
    ensures Removable(rows, projectId, latest, id)
    decreases |ids|
  {
    var x := ids[0];
    var less := RowsWithout(rows, projectId, x);
    RowsWithoutMembers(rows, projectId, x);
    RowsWithoutNumbering(rows, projectId, x);
    EvictedWasEvictable(rows, projectId, latest, x);
    if x == id {
      forall d | Descends(rows, d, id) ensures Evictable(rows, projectId, latest, d) {
        ChildlessHasNoDescendants(rows, id, d);
      }
    } else {
      StillThere(rows, projectId, x, id);
      RemovedWasRemovable(less, projectId, latest, ids[1..], id);
      forall d | Descends(rows, d, id) ensures Evictable(rows, projectId, latest, d) {
        if d != x {
          var line :| IsDescent(rows, line) && line[0] == id && line[|line| - 1] == d;
          DescentLosesOnlyItsEnd(rows, projectId, x, line);
          assert Descends(less, d, id);
          EvictableBefore(rows, projectId, latest, x, d);
        }
      }
    }
  }

  lemma ChildlessHasNoDescendants(rows: seq<SnapshotRow>, id: string, d: string)
    requires !IsParent(rows, id) && Descends(rows, d, id)
    ensures d == id
  {
    var line :| IsDescent(rows, line) && line[0] == id && line[|line| - 1] == d;
    if |line| > 1 {
      LineStartsAtAParent(rows, line);
    }
  }

  lemma LineStartsAtAParent(rows: seq<SnapshotRow>, line: seq<string>)
    requires IsDescent(rows, line) && |line| > 1
    ensures IsParent(rows, line[0])
  {
    assert IsChildOf(rows, line[1], line[0]);
  }

  lemma EvictedWasEvictable(rows: seq<SnapshotRow>, projectId: string, latest: Option<string>, x: string)
    requires PruneRefusal(rows, projectId, latest, x) == None
    ensures Evictable(rows, projectId, latest, x)
  {
  }

  lemma StillThere(rows: seq<SnapshotRow>, projectId: string, x: string, id: string)
    requires HasSnapshot(rows, id) && x != id
    ensures HasSnapshot(RowsWithout(rows, projectId, x), id)
  {
    RowsWithoutMembers(rows, projectId, x);
    var row :| row in rows && row.snapshotId == id;
    assert row in RowsWithout(rows, projectId, x);
  }

  lemma EvictableBefore(rows: seq<SnapshotRow>, projectId: string, latest: Option<string>, x: string, d: string)
    requires NumberingOk(rows) && x != d && Evictable(RowsWithout(rows, projectId, x), projectId, latest, d)
    ensures Evictable(rows, projectId, latest, d)
  {
    var less := RowsWithout(rows, projectId, x);
    RowsWithoutMembers(rows, projectId, x);
    assert forall row :: row in rows && row.snapshotId == d ==> row in less;
  }

  /** Among the descendants of a snapshot, the one stored last. */
  lemma {:induction false} LastDescendant(rows: seq<SnapshotRow>, id: string, n: nat) returns (i: nat)
    requires n <= |rows| && exists k :: 0 <= k < n && Descends(rows, rows[k].snapshotId, id)
    ensures i < n && Descends(rows, rows[i].snapshotId, id)
    ensures forall k :: i < k < n ==> !Descends(rows, rows[k].snapshotId, id)
  {
    if Descends(rows, rows[n - 1].snapshotId, id) {
      i := n - 1;
    } else {
      i := LastDescendant(rows, id, n - 1);
    }
  }

  lemma LastDescendantIsChildless(rows: seq<SnapshotRow>, id: string, i: nat)
    requires NumberingOk(rows) && ParentsFirst(rows) && i < |rows| && Descends(rows, rows[i].snapshotId, id)
    requires forall k :: i < k < |rows| ==> !Descends(rows, rows[k].snapshotId, id)
    requires !IsChildOf(rows, rows[i].snapshotId, rows[i].snapshotId)
    ensures !IsParent(rows, rows[i].snapshotId)
  {
    var d := rows[i].snapshotId;
    forall row | row in rows ensures row.parent != Some(d) {
      if row.parent == Some(d) {
        assert IsChildOf(rows, row.snapshotId, d);
        if row.snapshotId != d {
          ChildDescends(rows, row.snapshotId, d, id);
          var k := ChildComesLater(rows, i, row);
        }
      }
    }
  }

  lemma ChildComesLater(rows: seq<SnapshotRow>, i: nat, row: SnapshotRow) returns (k: nat)
    requires NumberingOk(rows) && ParentsFirst(rows) && i < |rows|
    requires row in rows && row.parent == Some(rows[i].snapshotId) && row.snapshotId != rows[i].snapshotId
    ensures i < k < |rows| && rows[k] == row
  {
    k :| 0 <= k < |rows| && rows[k] == row;
    var p :| p in rows[..k] && p.snapshotId == rows[i].snapshotId;
    var m :| 0 <= m < k && rows[..k][m] == p;
    assert rows[m] == p;
  }

  lemma RowsWithoutParentsFirst(rows: seq<SnapshotRow>, projectId: string, x: string)
    requires ParentsFirst(rows) && !IsParent(rows, x)
    ensures ParentsFirst(RowsWithout(rows, projectId, x))
  {
    if rows != [] {
      var n := |rows| - 1;
      var front, last := rows[..n], rows[n];
      assert ParentsFirst(front) by {
        forall i | 0 <= i < n && front[i].parent.Some? && front[i].parent.value != front[i].snapshotId
          ensures HasSnapshot(front[..i], front[i].parent.value)
        {
          assert front[..i] == rows[..i] && front[i] == rows[i];
        }
      }
      assert forall row :: row in front ==> row in rows;
      RowsWithoutParentsFirst(front, projectId, x);
      var less := RowsWithout(front, projectId, x);
      if !IsRow(last, projectId, x) {
        if last.parent.Some? && last.parent.value != last.snapshotId {
          assert last in rows;
          StillThere(front, projectId, x, last.parent.value);
        }
        AppendParentsFirst(less, last);
      }
    }
  }

  lemma AppendParentsFirst(rows: seq<SnapshotRow>, last: SnapshotRow)
    requires ParentsFirst(rows)
    requires last.parent.Some? && last.parent.value != last.snapshotId ==> HasSnapshot(rows, last.parent.value)
    ensures ParentsFirst(rows + [last])
  {
    var more := rows + [last];
    forall i | 0 <= i < |more| && more[i].parent.Some? && more[i].parent.value != more[i].snapshotId
      ensures HasSnapshot(more[..i], more[i].parent.value)
    {
      if i < |rows| {
        assert more[..i] == rows[..i] && more[i] == rows[i];
      } else {
        assert more[..i] == rows;
      }
    }
  }

  /** A plan that removes the descendants first and then the snapshot. */
  lemma {:induction false} RemovableHasAPlan(rows: seq<SnapshotRow>, projectId: string, latest: Option<string>,
                                             id: string)
    returns (ids: seq<string>)
    requires NumberingOk(rows) && ParentsFirst(rows) && HasSnapshot(rows, id)
    requires Removable(rows, projectId, latest, id)
    ensures !HasSnapshot(PruneRows(rows, projectId, latest, ids).0, id)
    decreases |rows|
  {
    DescendsItself(rows, id);
    var top :| top in rows && top.snapshotId == id;
    var k :| 0 <= k < |rows| && rows[k] == top;
    var i := LastDescendant(rows, id, |rows|);
    var d := rows[i].snapshotId;
    assert Evictable(rows, projectId, latest, d);
    LastDescendantIsChildless(rows, id, i);
    NoChildNoRefusal(rows, projectId, latest, d);
    var less := RowsWithout(rows, projectId, d);
    RowsWithoutMembers(rows, projectId, d);
    if d == id {
      ids := [id];
      GoneByOwnId(rows, projectId, id);
    } else {
      RowsWithoutNumbering(rows, projectId, d);
      RowsWithoutParentsFirst(rows, projectId, d);
      RowsWithoutShorter(rows, projectId, d);
      StillThere(rows, projectId, d, id);
      forall e | Descends(less, e, id) ensures Evictable(less, projectId, latest, e) {
        var line :| IsDescent(less, line) && line[0] == id && line[|line| - 1] == e;
        DescentKept(rows, less, line);
        assert Descends(rows, e, id);
        DescendantStays(rows, projectId, d, line);
        EvictableAfter(rows, projectId, latest, d, e);
      }
      var rest := RemovableHasAPlan(less, projectId, latest, id);
      ids := [d] + rest;
      assert ids[1..] == rest;
    }
  }

  lemma DescendantStays(rows: seq<SnapshotRow>, projectId: string, d: string, line: seq<string>)
    requires NumberingOk(rows) && HasRow(rows, projectId, d)
    requires IsDescent(RowsWithout(rows, projectId, d), line) && line[0] != d
    ensures line[|line| - 1] != d
  {
    RowsWithoutMembers(rows, projectId, d);
    if |line| > 1 {
      assert IsChildOf(RowsWithout(rows, projectId, d), line[|line| - 1], line[|line| - 2]);
      var row :| row in RowsWithout(rows, projectId, d) && row.snapshotId == line[|line| - 1];
      var own :| own in rows && IsRow(own, projectId, d);
      if row.snapshotId == d {
        UniqueRow(rows, row, own);
      }
    }
  }

  lemma EvictableAfter(rows: seq<SnapshotRow>, projectId: string, latest: Option<string>, x: string, d: string)
    requires x != d && Evictable(rows, projectId, latest, d)
    ensures Evictable(RowsWithout(rows, projectId, x), projectId, latest, d)
  {
    RowsWithoutMembers(rows, projectId, x);
    var row :| row in rows && row.snapshotId == d && row.projectId == projectId;
    assert row.snapshotId != x;
    assert row in RowsWithout(rows, projectId, x);
  }

  lemma NoChildNoRefusal(rows: seq<SnapshotRow>, projectId: string, latest: Option<string>, d: string)
    requires Evictable(rows, projectId, latest, d) && !IsParent(rows, d)
    ensures PruneRefusal(rows, projectId, latest, d) == None
  {
  }

  lemma GoneByOwnId(rows: seq<SnapshotRow>, projectId: string, id: string)
    requires NumberingOk(rows) && HasRow(rows, projectId, id)
    ensures !HasSnapshot(RowsWithout(rows, projectId, id), id)
  {
    RowsWithoutMembers(rows, projectId, id);
    var own :| own in rows && IsRow(own, projectId, id);
    forall row | row in RowsWithout(rows, projectId, id) ensures row.snapshotId != id {
      if row.snapshotId == id {
        UniqueRow(rows, row, own);
      }
    }
  }

  lemma {:induction false} RowsWithoutShorter(rows: seq<SnapshotRow>, projectId: string, id: string)
    ensures |RowsWithout(rows, projectId, id)| <= |rows|
    ensures HasRow(rows, projectId, id) ==> |RowsWithout(rows, projectId, id)| < |rows|
  {
    if rows != [] {
      var n := |rows| - 1;
      RowsWithoutShorter(rows[..n], projectId, id);
      assert rows == rows[..n] + [rows[n]];
    }
  }

  /** Some list of decisions removes a stored snapshot exactly if it and all its descendants are unpinned
      snapshots of the project, none its own parent, and none has the project's highest number. */
  lemma PrunableExactly(rows: seq<SnapshotRow>, projectId: string, id: string)
    requires TableOk(rows) && HasSnapshot(rows, id)
    ensures var latest := LatestSnapshotId(rows, projectId);
            (exists ids :: !HasSnapshot(PruneRows(rows, projectId, latest, ids).0, id))
            <==> Removable(rows, projectId, latest, id)
  {
    var latest := LatestSnapshotId(rows, projectId);
    if ids :| !HasSnapshot(PruneRows(rows, projectId, latest, ids).0, id) {
      RemovedWasRemovable(rows, projectId, latest, ids, id);
    }
    if Removable(rows, projectId, latest, id) {
      var ids := RemovableHasAPlan(rows, projectId, latest, id);
    }
  }

  // ---------------------------------------------------------------- whole runs

  predicate AddsRow(call: Call) {
    call.Publish? || call.PublishFork? || call.StoreLocal?
  }

  /** The calls about leases and handoffs leave the snapshot table and every latest snapshot alone. */
  lemma OtherCallsKeepRows(t: Tables, call: Call)
    requires !AddsRow(call) && !call.Prune?
    ensures Apply(t, call).0.snapshots == t.snapshots
  {
    match call
    case CommitHandoff(id, observed, now, preflight, fault) => CommitShapes(t, id, observed, now, preflight, fault);
    case RecoverHandoff(id, observed, now, fault) => CommitShapes(t, id, observed, now, None, fault);
    case _ =>
  }

  /** A call adds one row of a new id with the next number of its project, or adds none. */
  ghost predicate RowAdded(before: seq<SnapshotRow>, after: seq<SnapshotRow>) {
    || after == before
    || (exists row :: && after == before + [row] && !HasSnapshot(before, row.snapshotId)
                      && row.sequence == MaxSequence(before, row.projectId) + 1
                      && (row.parent.Some? && row.parent.value != row.snapshotId ==>
                            HasSnapshot(before, row.parent.value)))
  }

  lemma CallAddsRow(t: Tables, call: Call)
    requires AddsRow(call)
    ensures RowAdded(t.snapshots, Apply(t, call).0.snapshots)
  {
    var u := Apply(t, call).0;
    if u.snapshots != t.snapshots {
      var row := u.snapshots[|t.snapshots|];
      assert u.snapshots == t.snapshots + [row];
    }
  }

  /** What a call may do to the table: its order and numbering stay sound, pinned rows stay, and no
      number of a project is ever given out twice. */
  ghost predicate TableStep(before: seq<SnapshotRow>, after: seq<SnapshotRow>) {
    && TableOk(after)
    && (forall row :: row in before && row.pinned ==> row in after)
    && (forall p :: MaxSequence(after, p) >= MaxSequence(before, p))
    && (forall row :: row in after && row !in before ==> row.sequence > MaxSequence(before, row.projectId))
  }

  lemma AddedRowStep(before: seq<SnapshotRow>, after: seq<SnapshotRow>)
    requires TableOk(before) && RowAdded(before, after)
    ensures TableStep(before, after)
  {
    if after != before {
      var row :| && after == before + [row] && !HasSnapshot(before, row.snapshotId)
                 && row.sequence == MaxSequence(before, row.projectId) + 1
                 && (row.parent.Some? && row.parent.value != row.snapshotId ==> HasSnapshot(before, row.parent.value));
      InsertKeepsNumbering(before, row);
      AppendParentsFirst(before, row);
      assert after[..|before|] == before;
    }
  }

  lemma {:induction false} PlanKeepsParentsFirst(rows: seq<SnapshotRow>, projectId: string, latest: Option<string>,
                                                 ids: seq<string>)
    requires ParentsFirst(rows)
    ensures ParentsFirst(PruneRows(rows, projectId, latest, ids).0)
    decreases |ids|
  {
    if ids != [] && PruneRefusal(rows, projectId, latest, ids[0]) == None {
      RowsWithoutParentsFirst(rows, projectId, ids[0]);
      PlanKeepsParentsFirst(RowsWithout(rows, projectId, ids[0]), projectId, latest, ids[1..]);
    }
  }

  lemma StepKeepsTable(t: Tables, call: Call)
    requires TableOk(t.snapshots)
    ensures TableStep(t.snapshots, Apply(t, call).0.snapshots)
  {
    if AddsRow(call) {
      CallAddsRow(t, call);
      AddedRowStep(t.snapshots, Apply(t, call).0.snapshots);
    } else if call.Prune? {
      PlanIsSound(t.snapshots, call.projectId, call.ids);
      PlanKeepsParentsFirst(t.snapshots, call.projectId, LatestSnapshotId(t.snapshots, call.projectId), call.ids);
    } else {
      OtherCallsKeepRows(t, call);
    }
  }

  /** Over every run, with pruning and local stores: ids stay unique, parents come first, pinned rows
      stay, and no number of a project is given out twice. */
  lemma {:induction false} RunKeepsNumbering(t: Tables, calls: seq<Call>)
    requires TableOk(t.snapshots)
    ensures TableStep(t.snapshots, Run(t, calls).snapshots)
  {
    if calls != [] {
      var mid := Run(t, calls[..|calls| - 1]);
      RunKeepsNumbering(t, calls[..|calls| - 1]);
      StepKeepsTable(mid, calls[|calls| - 1]);
      StepsCompose(t.snapshots, mid.snapshots, Run(t, calls).snapshots);
    }
  }

  lemma StepsCompose(a: seq<SnapshotRow>, b: seq<SnapshotRow>, c: seq<SnapshotRow>)
    requires TableStep(a, b) && TableStep(b, c)
    ensures TableStep(a, c)
  {
    forall row | row in c && row !in a ensures row.sequence > MaxSequence(a, row.projectId) {
      if row !in b {
        assert MaxSequence(b, row.projectId) >= MaxSequence(a, row.projectId);
      }
    }
  }

  // ---------------------------------------------------------------- the canonical latest snapshot

  /** The publish that may move the latest snapshot of a lease: by the holder of the active lease,
      naming its epoch and its latest snapshot, for an id that is not stored. */
  ghost predicate IsWritersPublish(t: Tables, call: Call, l: string)
    requires l in t.leases
  {
    && call.Publish? && call.publish.leaseId == l
    && t.leases[l].state == Active
    && t.leases[l].holder == Some(call.publish.device) && call.publish.device !in t.revoked
    && t.leases[l].Epoch() == call.publish.expectedEpoch
    && t.leases[l].latest == call.publish.expectedLatest
    && !HasSnapshot(t.snapshots, call.publish.metadata.snapshotId)
  }

  lemma PublishLatest(t: Tables, r: PublishRequest, l: string)
    requires l in t.leases
    ensures var u := PublishCanonical(t, r).0;
            && l in u.leases
            && (u.leases[l].latest != t.leases[l].latest ==>
                  && IsWritersPublish(t, Publish(r), l)
                  && u.leases[l].latest == Some(r.metadata.snapshotId)
                  && HasSnapshot(u.snapshots, r.metadata.snapshotId))
  {
    var u := PublishCanonical(t, r).0;
    if u != t {
      assert u.snapshots[|t.snapshots|] in u.snapshots;
    }
  }

  lemma CommitLatest(t: Tables, id: string, observed: string, now: u64, preflight: Option<Preflight>, fault: bool,
                     l: string)
    requires l in t.leases
    ensures var u := Commit(t, id, observed, now, preflight, fault).0;
            l in u.leases && u.leases[l].latest == t.leases[l].latest
  {
    CommitShapes(t, id, observed, now, preflight, fault);
  }

  lemma OtherLatest(t: Tables, call: Call, l: string)
    requires l in t.leases && !call.Publish? && !Overwrites(call, l)
    ensures l in Apply(t, call).0.leases && Apply(t, call).0.leases[l].latest == t.leases[l].latest
  {
    match call
    case CommitHandoff(id, observed, now, preflight, fault) =>
      CommitLatest(t, id, observed, now, preflight, fault, l);
    case RecoverHandoff(id, observed, now, fault) => CommitLatest(t, id, observed, now, None, fault, l);
    case _ =>
  }

  /** Only a publish by the current holder of an active lease, naming the current epoch and the
      current latest, moves the latest snapshot, and it moves it to a snapshot not stored before. */
  lemma OnlyTheWriterAdvancesLatest(t: Tables, call: Call, l: string)
    requires l in t.leases && !Overwrites(call, l)
    ensures var u := Apply(t, call).0;
            && l in u.leases
            && (u.leases[l].latest != t.leases[l].latest ==>
                  && IsWritersPublish(t, call, l)
                  && u.leases[l].latest == Some(call.publish.metadata.snapshotId)
                  && HasSnapshot(u.snapshots, call.publish.metadata.snapshotId))
  {
    if call.Publish? {
      PublishLatest(t, call.publish, l);
    } else {
      OtherLatest(t, call, l);
    }
  }

  // ---------------------------------------------------------------- replaced and back again

  ghost predicate NeverOverwritten(calls: seq<Call>, l: string) {
    forall i :: 0 <= i < |calls| ==> !Overwrites(calls[i], l)
  }

  lemma {:induction false} LeaseStays(t: Tables, calls: seq<Call>, l: string, i: nat)
    requires l in t.leases && NeverOverwritten(calls, l) && i <= |calls|
    ensures l in At(t, calls, i).leases
  {
    if i == 0 {
      assert calls[..0] == [];
    } else {
      LeaseStays(t, calls, l, i - 1);
      AtNext(t, calls, i - 1);
      OnlyTheWriterAdvancesLatest(At(t, calls, i - 1), calls[i - 1], l);
    }
  }

  ghost predicate IsLatest(t: Tables, l: string, id: string) {
    l in t.leases && t.leases[l].latest == Some(id)
  }

  /** Call i is a prune that removes the snapshot. */
  ghost predicate PrunedBy(t: Tables, calls: seq<Call>, id: string, i: nat) {
    i < |calls| && calls[i].Prune?
    && HasSnapshot(At(t, calls, i).snapshots, id) && !HasSnapshot(At(t, calls, i + 1).snapshots, id)
  }

  /** The state before the call accepts it: a publish by the writer of the lease, for a new id. */
  ghost predicate AcceptedPublish(t: Tables, call: Call, l: string) {
    l in t.leases && IsWritersPublish(t, call, l) && PublishRefusal(t, call.publish).None?
  }

  /** Call j publishes the snapshot on the lease, accepted in the state before it. */
  ghost predicate PublishedBy(t: Tables, calls: seq<Call>, l: string, id: string, j: nat) {
    j < |calls| && AcceptedPublish(At(t, calls, j), calls[j], l) && calls[j].publish.metadata.snapshotId == id
  }

  /** An accepted publish makes its snapshot the latest of the lease, and nothing else moves it. */
  lemma LatestMovesExactly(t: Tables, call: Call, l: string)
    requires l in t.leases && !Overwrites(call, l)
    ensures var u := Apply(t, call).0;
            && l in u.leases
            && u.leases[l].latest == if AcceptedPublish(t, call, l) then Some(call.publish.metadata.snapshotId)
                                     else t.leases[l].latest
  {
    if call.Publish? {
      PublishMovesExactly(t, call.publish, l);
    } else {
      OtherLatest(t, call, l);
    }
  }

  lemma PublishMovesExactly(t: Tables, r: PublishRequest, l: string)
    requires l in t.leases
    ensures var u := PublishCanonical(t, r).0;
            && l in u.leases
            && u.leases[l].latest == if AcceptedPublish(t, Publish(r), l) then Some(r.metadata.snapshotId)
                                     else t.leases[l].latest
  {
  }

  /** A snapshot that was stored and is gone was removed by a prune. */
  lemma {:induction false} GoneMeansPruned(t: Tables, calls: seq<Call>, id: string, j: nat) returns (i: nat)
    requires j <= |calls| && HasSnapshot(t.snapshots, id) && !HasSnapshot(At(t, calls, j).snapshots, id)
    ensures i < j && PrunedBy(t, calls, id, i)
  {
    AtStart(t, calls);
    if HasSnapshot(At(t, calls, j - 1).snapshots, id) {
      i := j - 1;
      AtNext(t, calls, i);
      OnlyPruneRemoves(At(t, calls, i), calls[i], id);
    } else {
      i := GoneMeansPruned(t, calls, id, j - 1);
    }
  }

  lemma OnlyPruneRemoves(t: Tables, call: Call, id: string)
    requires HasSnapshot(t.snapshots, id) && !HasSnapshot(Apply(t, call).0.snapshots, id)
    ensures call.Prune?
  {
    if AddsRow(call) {
      CallAddsRow(t, call);
      AddedRowKeeps(t.snapshots, Apply(t, call).0.snapshots, id);
    } else if !call.Prune? {
      OtherCallsKeepRows(t, call);
    }
  }

  lemma AddedRowKeeps(before: seq<SnapshotRow>, after: seq<SnapshotRow>, id: string)
    requires RowAdded(before, after) && HasSnapshot(before, id)
    ensures HasSnapshot(after, id)
  {
    var row :| row in before && row.snapshotId == id;
    assert row in after;
  }

  /** No publish on the lease is accepted by any call from a up to b. */
  ghost predicate QuietBetween(t: Tables, calls: seq<Call>, l: string, a: nat, b: nat) {
    forall m :: a <= m < b && m < |calls| ==> !AcceptedPublish(At(t, calls, m), calls[m], l)
  }

  lemma PublishedIsLatest(t: Tables, calls: seq<Call>, l: string, id: string, j: nat)
    requires PublishedBy(t, calls, l, id, j)
    ensures IsLatest(At(t, calls, j + 1), l, id)
  {
    AtNext(t, calls, j);
    LatestMovesExactly(At(t, calls, j), calls[j], l);
  }

  lemma QuietStep(t: Tables, calls: seq<Call>, l: string, id: string, a: nat)
    requires l in t.leases && NeverOverwritten(calls, l) && a < |calls|
    requires !AcceptedPublish(At(t, calls, a), calls[a], l)
    ensures IsLatest(At(t, calls, a + 1), l, id) <==> IsLatest(At(t, calls, a), l, id)
  {
    LeaseStays(t, calls, l, a);
    AtNext(t, calls, a);
    LatestMovesExactly(At(t, calls, a), calls[a], l);
  }

  lemma {:induction false} QuietKeepsLatest(t: Tables, calls: seq<Call>, l: string, id: string, a: nat, b: nat)
    requires l in t.leases && NeverOverwritten(calls, l) && a <= b <= |calls| && QuietBetween(t, calls, l, a, b)
    ensures IsLatest(At(t, calls, b), l, id) <==> IsLatest(At(t, calls, a), l, id)
  {
    if a < b {
      QuietKeepsLatest(t, calls, l, id, a, b - 1);
      QuietStep(t, calls, l, id, b - 1);
    }
  }

  /** Which calls are accepted publishes on the lease. */
  ghost function AcceptedCalls(t: Tables, calls: seq<Call>, l: string): (accepted: seq<bool>)
    ensures |accepted| == |calls|
    ensures forall m :: 0 <= m < |calls| ==> accepted[m] == AcceptedPublish(At(t, calls, m), calls[m], l)
  {
    seq(|calls|, m requires 0 <= m < |calls| => AcceptedPublish(At(t, calls, m), calls[m], l))
  }

  lemma {:induction false} LastTrue(bits: seq<bool>, k: nat, m: nat) returns (j: int)
    requires k <= m <= |bits|
    ensures k - 1 <= j < m && (j >= k ==> bits[j]) && forall i :: j < i < m ==> !bits[i]
    decreases m
  {
    if k == m || bits[m - 1] {
      j := m - 1;
    } else {
      j := LastTrue(bits, k, m - 1);
    }
  }

  /** The last accepted publish on the lease from k up to m, or k - 1. */
  lemma LastAccepted(t: Tables, calls: seq<Call>, l: string, k: nat, m: nat) returns (j: int)
    requires k <= m <= |calls|
    ensures k - 1 <= j < m && QuietBetween(t, calls, l, j + 1, m)
    ensures j >= k ==> AcceptedPublish(At(t, calls, j), calls[j], l)
  {
    j := LastTrue(AcceptedCalls(t, calls, l), k, m);
  }

  /** A snapshot that is the latest and was not before was published in between. */
  lemma BecameLatest(t: Tables, calls: seq<Call>, l: string, id: string, k: nat, m: nat) returns (j: nat)
    requires l in t.leases && NeverOverwritten(calls, l)
    requires k <= m <= |calls| && !IsLatest(At(t, calls, k), l, id) && IsLatest(At(t, calls, m), l, id)
    ensures k <= j < m && PublishedBy(t, calls, l, id, j) && QuietBetween(t, calls, l, j + 1, m)
  {
    var last := LastAccepted(t, calls, l, k, m);
    QuietKeepsLatest(t, calls, l, id, last + 1, m);
    j := last;
    PublishedIsLatest(t, calls, l, calls[j].publish.metadata.snapshotId, j);
  }

  /** Call i prunes the snapshot, and the later call j, from k on, publishes the same id again. */
  ghost predicate RevivedBy(t: Tables, calls: seq<Call>, l: string, id: string, k: nat, i: nat, j: nat) {
    i < j && k <= j && PrunedBy(t, calls, id, i) && PublishedBy(t, calls, l, id, j)
  }

  lemma RevivalNeedsPrune(t: Tables, calls: seq<Call>, l: string, id: string, k: nat, m: nat)
    returns (i: nat, j: nat)
    requires l in t.leases && NeverOverwritten(calls, l) && HasSnapshot(t.snapshots, id)
    requires k <= m <= |calls| && !IsLatest(At(t, calls, k), l, id) && IsLatest(At(t, calls, m), l, id)
    ensures RevivedBy(t, calls, l, id, k, i, j) && j < m && QuietBetween(t, calls, l, j + 1, m)
  {
    j := BecameLatest(t, calls, l, id, k, m);
    i := GoneMeansPruned(t, calls, id, j);
  }

  ghost predicate IsLatestFrom(t: Tables, calls: seq<Call>, l: string, id: string, k: nat) {
    exists m: nat :: k <= m <= |calls| && IsLatest(At(t, calls, m), l, id)
  }

  /**
   When a replaced latest snapshot returns: after it was replaced it is the latest at some later point
   of the run exactly if a prune removed its row and a later publish by the writer, accepted in the
   state before it, stores the same id again.
   */
  lemma ReplacedLatestReturnsExactly(t: Tables, calls: seq<Call>, l: string, id: string, k: nat)
    requires l in t.leases && NeverOverwritten(calls, l) && HasSnapshot(t.snapshots, id)
    requires k <= |calls| && !IsLatest(At(t, calls, k), l, id)
    ensures IsLatestFrom(t, calls, l, id, k) <==> exists i, j :: RevivedBy(t, calls, l, id, k, i, j)
  {
    if m: nat :| k <= m <= |calls| && IsLatest(At(t, calls, m), l, id) {
      var i, j := RevivalNeedsPrune(t, calls, l, id, k, m);
    }
    if i: nat, j: nat :| RevivedBy(t, calls, l, id, k, i, j) {
      PublishedIsLatest(t, calls, l, id, j);
      assert k <= j + 1 <= |calls|;
    }
  }

  ghost predicate RevivedLast(t: Tables, calls: seq<Call>, l: string, id: string, k: nat, i: nat, j: nat) {
    RevivedBy(t, calls, l, id, k, i, j) && QuietBetween(t, calls, l, j + 1, |calls|)
  }

  lemma LastRevivalStands(t: Tables, calls: seq<Call>, l: string, id: string, k: nat, i: nat, j: nat)
    requires l in t.leases && NeverOverwritten(calls, l) && RevivedLast(t, calls, l, id, k, i, j)
    ensures IsLatest(At(t, calls, |calls|), l, id)
  {
    PublishedIsLatest(t, calls, l, id, j);
    QuietKeepsLatest(t, calls, l, id, j + 1, |calls|);
  }

  /** And it is the latest at the end exactly if no later publish on the lease is accepted. */
  lemma ReplacedLatestStandsExactly(t: Tables, calls: seq<Call>, l: string, id: string, k: nat)
    requires l in t.leases && NeverOverwritten(calls, l) && HasSnapshot(t.snapshots, id)
    requires k <= |calls| && !IsLatest(At(t, calls, k), l, id)
    ensures IsLatest(Run(t, calls), l, id) <==> exists i, j :: RevivedLast(t, calls, l, id, k, i, j)
  {
    AtEnd(t, calls);
    if IsLatest(At(t, calls, |calls|), l, id) {
      var i, j := RevivalNeedsPrune(t, calls, l, id, k, |calls|);
      assert RevivedLast(t, calls, l, id, k, i, j);
    } else if i: nat, j: nat :| RevivedLast(t, calls, l, id, k, i, j) {
      LastRevivalStands(t, calls, l, id, k, i, j);
    }
  }

  /** So no update is lost as long as no prune removes the snapshot; a pinned one is never removed. */
  lemma ReplacedLatestStaysReplaced(t: Tables, calls: seq<Call>, l: string, id: string, k: nat)
    requires l in t.leases && NeverOverwritten(calls, l) && HasSnapshot(t.snapshots, id)
    requires k <= |calls| && !IsLatest(At(t, calls, k), l, id)
    requires forall i :: !PrunedBy(t, calls, id, i)
    ensures !IsLatest(Run(t, calls), l, id)
  {
    ReplacedLatestStandsExactly(t, calls, l, id, k);
  }

  lemma PinnedIsNeverPruned(t: Tables, calls: seq<Call>, row: SnapshotRow, i: nat)
    requires TableOk(t.snapshots) && row in t.snapshots && row.pinned
    ensures !PrunedBy(t, calls, row.snapshotId, i)
  {
    if i < |calls| {
      RunKeepsNumbering(t, calls[..i + 1]);
      assert row in At(t, calls, i + 1).snapshots;
    }
  }

  // ---------------------------------------------------------------- after a stale publish

  lemma StalePublishPreservesWork(t: Tables, r: PublishRequest)
    requires PublishCanonical(t, r).1 == StalePublish
    ensures HasSnapshot(PublishCanonical(t, r).0.snapshots, r.metadata.snapshotId)
    ensures PublishCanonical(t, r).0.(snapshots := t.snapshots) == t
  {
    var u := PublishCanonical(t, r).0;
    assert u.snapshots[|t.snapshots|] in u.snapshots;
  }

  lemma PinnedStaleIsNeverPruned(t: Tables, r: PublishRequest, calls: seq<Call>, i: nat)
    requires PublishCanonical(t, r).1 == StalePublish && TableOk(t.snapshots) && r.pinned
    ensures !PrunedBy(PublishCanonical(t, r).0, calls, r.metadata.snapshotId, i)
  {
    var u := PublishCanonical(t, r).0;
    StepKeepsTable(t, Publish(r));
    PinnedIsNeverPruned(u, calls, u.snapshots[|t.snapshots|], i);
  }

  lemma UnprunedStaysStored(t: Tables, calls: seq<Call>, id: string)
    requires HasSnapshot(t.snapshots, id) && forall i :: !PrunedBy(t, calls, id, i)
    ensures HasSnapshot(Run(t, calls).snapshots, id)
  {
    AtEnd(t, calls);
    if !HasSnapshot(Run(t, calls).snapshots, id) {
      var i := GoneMeansPruned(t, calls, id, |calls|);
    }
  }

  /** A stale publish stores the snapshot and changes nothing else; over every run after it the snapshot
      stays stored, and it is nobody's latest unless a lease named it before, until a prune removes it; a
      pinned one stays for good. */
  lemma StalePublishStaysNonCanonical(t: Tables, r: PublishRequest, calls: seq<Call>, l: string)
    requires PublishCanonical(t, r).1 == StalePublish && NeverOverwritten(calls, l)
    requires l in t.leases && t.leases[l].latest != Some(r.metadata.snapshotId)
    ensures var u, id := PublishCanonical(t, r).0, r.metadata.snapshotId;
            && u.(snapshots := t.snapshots) == t && HasSnapshot(u.snapshots, id)
            && (TableOk(t.snapshots) && r.pinned ==> forall i :: !PrunedBy(u, calls, id, i))
            && ((forall i :: !PrunedBy(u, calls, id, i)) ==>
                  HasSnapshot(Run(u, calls).snapshots, id) && !IsLatest(Run(u, calls), l, id))
  {
    var u, id := PublishCanonical(t, r).0, r.metadata.snapshotId;
    StalePublishPreservesWork(t, r);
    AtStart(u, calls);
    if TableOk(t.snapshots) && r.pinned {
      forall i: nat ensures !PrunedBy(u, calls, id, i) {
        PinnedStaleIsNeverPruned(t, r, calls, i);
      }
    }
    if forall i :: !PrunedBy(u, calls, id, i) {
      ReplacedLatestStaysReplaced(u, calls, l, id, 0);
      UnprunedStaysStored(u, calls, id);
    }
  }
}
