/**
 What the soft reasons and the pressure of the retention planner mean: the newest snapshots are hot,
 each bucket keeps its newest, and pressure takes the oldest first and no more than it needs.
 */
module RetentionReasons {
  import opened Common
  import opened Order
  import opened Retention

  // ---------------------------------------------------------------- the two sorts

  /** A comparison that `sort_by` can use: asymmetric, and two that follow compare like one. */
  ghost predicate Compares(before: (Entry, Entry) -> bool) {
    && (forall a, b :: before(a, b) ==> !before(b, a))
    && (forall a, b, c :: before(a, c) ==> before(a, b) || before(b, c))
  }

  lemma BothCompare()
    ensures Compares(NewerFirst) && Compares(OlderFirst)
  {
    StringOrder();
  }

  /** Nothing comes before what stands in front of it. */
  ghost predicate InOrder(before: (Entry, Entry) -> bool, s: seq<Entry>) {
    forall i, j :: 0 <= i < j < |s| ==> !before(s[j], s[i])
  }

  lemma {:induction false} InsertInOrder(before: (Entry, Entry) -> bool, e: Entry, sorted: seq<Entry>)
    requires Compares(before) && InOrder(before, sorted)
    ensures InOrder(before, Insert(before, e, sorted))
  {
    var n := |sorted| - 1;
    if sorted != [] && before(e, sorted[n]) {
      var front := sorted[..n];
      InsertInOrder(before, e, front);
      InsertMembers(before, e, front);
      var all := Insert(before, e, front) + [sorted[n]];
      forall i | 0 <= i < |all| - 1 ensures !before(sorted[n], all[i]) {
        assert all[i] in Insert(before, e, front);
      }
    } else {
      forall i | 0 <= i < |sorted| ensures !before(e, sorted[i]) {
        assert i < n ==> !before(sorted[n], sorted[i]);
      }
    }
  }

  lemma {:induction false} SortInOrder(before: (Entry, Entry) -> bool, entries: seq<Entry>)
    requires Compares(before)
    ensures InOrder(before, SortBy(before, entries))
  {
    if entries != [] {
      SortInOrder(before, entries[..|entries| - 1]);
      InsertInOrder(before, entries[|entries| - 1], SortBy(before, entries[..|entries| - 1]));
    }
  }

  // ---------------------------------------------------------------- recency

  function Hot(entries: seq<Entry>, n: nat): seq<Entry> {
    Take(SortBy(NewerFirst, entries), n)
  }

  /** The hot snapshots are the newest ones: none that is not hot is newer than a hot one. */
  lemma HotAreNewest(entries: seq<Entry>, n: nat, hot: Entry, other: Entry)
    requires hot in Hot(entries, n) && other in entries && other !in Hot(entries, n)
    ensures hot in entries && !NewerFirst(other, hot)
  {
    var sorted := SortBy(NewerFirst, entries);
    BothCompare();
    SortInOrder(NewerFirst, entries);
    SortMembers(NewerFirst, entries);
    var i :| 0 <= i < |Hot(entries, n)| && Hot(entries, n)[i] == hot;
    var j :| 0 <= j < |sorted| && sorted[j] == other;
    assert sorted[i] == hot && hot in sorted;
    assert forall k :: 0 <= k < |Hot(entries, n)| ==> sorted[k] == Hot(entries, n)[k] && sorted[k] in Hot(entries, n);
  }

  predicate InBucket(e: Entry, floor: u64, width: nat, bucket: nat)
    requires width > 0
  {
    e.created >= floor && e.created / width == bucket
  }

  predicate NotNewer(e: Entry, kept: Entry) {
    e.sequence < kept.sequence || (e.sequence == kept.sequence && e.created <= kept.created)
  }

  /** A bucket keeps one of its entries, the newest, and every bucket with an entry keeps one. */
  lemma {:induction false} BucketKeepsNewest(entries: seq<Entry>, floor: u64, width: nat, bucket: nat)
    requires width > 0
    ensures var kept := Buckets(entries, floor, width);
            && (bucket in kept <==> exists e :: e in entries && InBucket(e, floor, width, bucket))
            && (bucket in kept ==>
                  && kept[bucket] in entries && InBucket(kept[bucket], floor, width, bucket)
                  && forall e :: e in entries && InBucket(e, floor, width, bucket) ==> NotNewer(e, kept[bucket]))
  {
    if entries != [] {
      var front, last := entries[..|entries| - 1], entries[|entries| - 1];
      assert entries == front + [last] && last in entries;
      BucketKeepsNewest(front, floor, width, bucket);
      if bucket in Buckets(front, floor, width) {
        var e := Buckets(front, floor, width)[bucket];
        assert e in entries && InBucket(e, floor, width, bucket);
      }
    }
  }

  // ---------------------------------------------------------------- pressure

  /** An entry that pressure may take: it is not deleted yet and nothing protects it. */
  predicate MayGo(e: Entry, m: Reasons, deletes: set<string>) {
    e.id !in deletes && !HardKept(m, e.id)
  }

  lemma {:induction false} InsertDistinct(before: (Entry, Entry) -> bool, e: Entry, sorted: seq<Entry>)
    requires DistinctIds(sorted) && e.id !in IdsOf(sorted)
    ensures DistinctIds(Insert(before, e, sorted))
  {
    if sorted != [] && before(e, sorted[|sorted| - 1]) {
      var front, last := sorted[..|sorted| - 1], sorted[|sorted| - 1];
      InsertDistinct(before, e, front);
      InsertMembers(before, e, front);
      var inner := Insert(before, e, front);
      forall i | 0 <= i < |inner| ensures inner[i].id != last.id {
        assert inner[i] in inner && last in sorted;
      }
    } else {
      forall i | 0 <= i < |sorted| ensures sorted[i].id != e.id {
        assert sorted[i] in sorted;
      }
    }
  }

  lemma {:induction false} SortDistinct(before: (Entry, Entry) -> bool, entries: seq<Entry>)
    requires DistinctIds(entries)
    ensures DistinctIds(SortBy(before, entries))
  {
    if entries != [] {
      var n := |entries| - 1;
      SortDistinct(before, entries[..n]);
      SortMembers(before, entries[..n]);
      InsertDistinct(before, entries[n], SortBy(before, entries[..n]));
    }
  }

  lemma {:induction false} TakenBefore(sorted: seq<Entry>, m: Reasons, deletes: set<string>, planned: nat,
                                       target: nat, i: nat, j: nat)
    requires DistinctIds(sorted) && i < j < |sorted| && MayGo(sorted[i], m, deletes) && sorted[j].id !in deletes
    requires sorted[j].id in Pressed(sorted, m, deletes, planned, target)
    ensures sorted[i].id in Pressed(sorted, m, deletes, planned, target)
  {
    var e, rest := sorted[0], sorted[1..];
    assert rest[j - 1] == sorted[j] && (i > 0 ==> rest[i - 1] == sorted[i]);
    if e.id in deletes || HardKept(m, e.id) {
      TakenBefore(rest, m, deletes, planned, target, i - 1, j - 1);
    } else if i == 0 {
      PressedFrame(rest, m, deletes + {e.id}, planned + e.size, target);
    } else {
      TakenBefore(rest, m, deletes + {e.id}, planned + e.size, target, i - 1, j - 1);
    }
  }

  lemma OldestTaken(sorted: seq<Entry>, m: Reasons, outside: set<string>, planned: nat, target: nat,
                    taken: Entry, kept: Entry)
    requires DistinctIds(sorted) && InOrder(OlderFirst, sorted) && taken in sorted && kept in sorted
    requires taken.id in Pressed(sorted, m, outside, planned, target) && taken.id !in outside
    requires kept.id !in Pressed(sorted, m, outside, planned, target) && !HardKept(m, kept.id)
    ensures !OlderFirst(kept, taken)
  {
    PressedFrame(sorted, m, outside, planned, target);
    var i :| 0 <= i < |sorted| && sorted[i] == kept;
    var j :| 0 <= j < |sorted| && sorted[j] == taken;
    if i < j {
      TakenBefore(sorted, m, outside, planned, target, i, j);
    }
  }

  /** Pressure takes the oldest first: nothing that could have been taken and is kept is older than what
      it takes. */
  lemma PressureTakesOldest(input: PlanInput, taken: Entry, kept: Entry)
    requires DistinctIds(input.entries) && taken in input.entries && kept in input.entries
    requires taken.id in DeleteSet(input) && taken.id !in OutsideRetention(input.entries, KeepReasons(input))
    requires kept.id !in DeleteSet(input) && !HardKept(KeepReasons(input), kept.id)
    ensures !OlderFirst(kept, taken)
  {
    var m := KeepReasons(input);
    var outside := OutsideRetention(input.entries, m);
    BothCompare();
    SortInOrder(OlderFirst, input.entries);
    SortDistinct(OlderFirst, input.entries);
    SortMembers(OlderFirst, input.entries);
    OldestTaken(SortBy(OlderFirst, input.entries), m, outside, SizeOf(input.entries, outside), TargetBytes(input),
                taken, kept);
  }

  lemma {:induction false} SizeWithout(entries: seq<Entry>, ids: set<string>, id: string)
    requires forall e :: e in entries ==> e.id != id
    ensures SizeOf(entries, ids + {id}) == SizeOf(entries, ids)
  {
    if entries != [] {
      assert entries[|entries| - 1] in entries;
      SizeWithout(entries[..|entries| - 1], ids, id);
    }
  }

  lemma {:induction false} SizeWith(entries: seq<Entry>, ids: set<string>, i: nat)
    requires DistinctIds(entries) && i < |entries| && entries[i].id !in ids
    ensures SizeOf(entries, ids + {entries[i].id}) == SizeOf(entries, ids) + entries[i].size
  {
    var n := |entries| - 1;
    if i < n {
      SizeWith(entries[..n], ids, i);
    } else {
      forall e | e in entries[..n] ensures e.id != entries[n].id {
        var k :| 0 <= k < n && entries[k] == e;
      }
      SizeWithout(entries[..n], ids, entries[n].id);
    }
  }

  lemma {:induction false} PressedReaches(entries: seq<Entry>, sorted: seq<Entry>, m: Reasons, deletes: set<string>,
                                          target: nat)
    requires DistinctIds(entries) && forall e :: e in sorted ==> e in entries
    ensures var after := Pressed(sorted, m, deletes, SizeOf(entries, deletes), target);
            SizeOf(entries, after) >= target || forall e :: e in sorted ==> e.id in after || HardKept(m, e.id)
    decreases |sorted|
  {
    if sorted != [] && SizeOf(entries, deletes) < target {
      var e, rest := sorted[0], sorted[1..];
      assert sorted == [e] + rest && e in entries;
      if e.id in deletes || HardKept(m, e.id) {
        PressedReaches(entries, rest, m, deletes, target);
        PressedFrame(rest, m, deletes, SizeOf(entries, deletes), target);
      } else {
        var i :| 0 <= i < |entries| && entries[i] == e;
        SizeWith(entries, deletes, i);
        PressedReaches(entries, rest, m, deletes + {e.id}, target);
        PressedFrame(rest, m, deletes + {e.id}, SizeOf(entries, deletes + {e.id}), target);
      }
    }
  }

  /** And it is enough: the plan frees what has to be freed, or takes everything without a hard reason. */
  lemma PressureIsEnough(input: PlanInput)
    requires DistinctIds(input.entries)
    ensures || SizeOf(input.entries, DeleteSet(input)) >= TargetBytes(input)
            || forall e :: e in input.entries ==> e.id in DeleteSet(input) || HardKept(KeepReasons(input), e.id)
  {
    SortMembers(OlderFirst, input.entries);
    PressedReaches(input.entries, SortBy(OlderFirst, input.entries), KeepReasons(input),
                   OutsideRetention(input.entries, KeepReasons(input)), TargetBytes(input));
  }
}
