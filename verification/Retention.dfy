/**
 The retention planner: which snapshots of a listing it gives reasons to keep, which ones it plans to
 delete, and what it never plans to delete. Planning and deleting are separate; the run of a plan on
 the snapshot table is in RetentionRuns.dfy.
 */
module Retention {
  import opened Common
  import opened Order

  const MIB: nat := 1024 * 1024
  const SECONDS_PER_HOUR: nat := 60 * 60
  const SECONDS_PER_DAY: nat := 24 * SECONDS_PER_HOUR

  datatype Scope = DeviceCache | AnchorProject

  datatype Policy = Policy(
    hotCount: nat, hourlyHours: u64, dailyDays: u64, deviceQuotaMib: Option<u64>, anchorQuotaMib: Option<u64>,
    hardStopMib: u64)
  {
    function QuotaBytes(scope: Scope): Option<u64> {
      var mib := if scope == DeviceCache then deviceQuotaMib else anchorQuotaMib;
      if mib.None? then None else Some(MibToBytes(mib.value))
    }
  }

  function MibToBytes(value: u64): u64 {
    if value * MIB <= U64_MAX then value * MIB else U64_MAX
  }

  datatype Entry = Entry(
    id: string, parent: Option<string>, sequence: int, pinned: bool, created: u64, size: u64)

  datatype Protection = Protection(id: string, until: u64)

  datatype KeepReason =
    | CanonicalLatest | Pinned | HandoffProtected | RetainedParent | HotSnapshot | HourlyThinning | DailyThinning
  {
    predicate IsHard() {
      CanonicalLatest? || Pinned? || HandoffProtected? || RetainedParent?
    }
  }

  datatype PlanInput = PlanInput(
    entries: seq<Entry>, policy: Policy, scope: Scope, latest: Option<string>, protections: seq<Protection>,
    usage: u64, freeDisk: u64, now: u64)

  type Reasons = map<string, set<KeepReason>>

  predicate Has(m: Reasons, id: string, r: KeepReason) {
    id in m && r in m[id]
  }

  predicate HasAny(m: Reasons, id: string) {
    id in m && m[id] != {}
  }

  predicate HardKept(m: Reasons, id: string) {
    id in m && exists r :: r in m[id] && r.IsHard()
  }

  /** One more reason for some ids. */
  function AddReason(m: Reasons, ids: set<string>, r: KeepReason): Reasons {
    map k | k in m.Keys + ids :: (if k in m then m[k] else {}) + (if k in ids then {r} else {})
  }

  // ---------------------------------------------------------------- reasons without parents

  predicate NewerFirst(a: Entry, b: Entry) {
    || a.sequence > b.sequence
    || (a.sequence == b.sequence && (a.created > b.created || (a.created == b.created && STRING_LESS(a.id, b.id))))
  }

  predicate OlderFirst(a: Entry, b: Entry) {
    || a.sequence < b.sequence
    || (a.sequence == b.sequence && (a.created < b.created || (a.created == b.created && STRING_LESS(a.id, b.id))))
  }

  /** Inserts behind every entry that it does not come before. */
  function Insert(before: (Entry, Entry) -> bool, e: Entry, sorted: seq<Entry>): seq<Entry> {
    if sorted == [] || !before(e, sorted[|sorted| - 1]) then sorted + [e]
    else Insert(before, e, sorted[..|sorted| - 1]) + [sorted[|sorted| - 1]]
  }

  /** `sort_by`, a stable sort. */
  function SortBy(before: (Entry, Entry) -> bool, entries: seq<Entry>): seq<Entry> {
    if entries == [] then [] else Insert(before, entries[|entries| - 1], SortBy(before, entries[..|entries| - 1]))
  }

  lemma {:induction false} InsertMembers(before: (Entry, Entry) -> bool, e: Entry, sorted: seq<Entry>)
    ensures forall x :: x in Insert(before, e, sorted) <==> x in sorted || x == e
  {
    if sorted != [] && before(e, sorted[|sorted| - 1]) {
      InsertMembers(before, e, sorted[..|sorted| - 1]);
      assert sorted == sorted[..|sorted| - 1] + [sorted[|sorted| - 1]];
    }
  }

  lemma {:induction false} SortMembers(before: (Entry, Entry) -> bool, entries: seq<Entry>)
    ensures forall x :: x in SortBy(before, entries) <==> x in entries
  {
    if entries != [] {
      var n := |entries| - 1;
      SortMembers(before, entries[..n]);
      InsertMembers(before, entries[n], SortBy(before, entries[..n]));
      assert entries == entries[..n] + [entries[n]];
    }
  }

  function IdsOf(entries: seq<Entry>): set<string> {
    set e | e in entries :: e.id
  }

  function PinnedIds(entries: seq<Entry>): set<string> {
    set e | e in entries && e.pinned :: e.id
  }

  function ProtectedIds(protections: seq<Protection>, now: u64): set<string> {
    set p | p in protections && p.until >= now :: p.id
  }

  function Take<T>(s: seq<T>, n: nat): seq<T> {
    if n < |s| then s[..n] else s
  }

  function Floor(now: u64, seconds: nat): u64 {
    if seconds <= now then now - seconds else 0
  }

  predicate Replaces(buckets: map<nat, Entry>, bucket: nat, e: Entry) {
    || bucket !in buckets
    || e.sequence > buckets[bucket].sequence
    || (e.sequence == buckets[bucket].sequence && e.created > buckets[bucket].created)
  }

  function BucketStep(buckets: map<nat, Entry>, e: Entry, floor: u64, width: nat): map<nat, Entry>
    requires width > 0
  {
    if e.created < floor then buckets
    else if Replaces(buckets, e.created / width, e) then buckets[e.created / width := e] else buckets
  }

  /** The newest entry of each bucket of time since the floor. */
  function Buckets(entries: seq<Entry>, floor: u64, width: nat): map<nat, Entry>
    requires width > 0
  {
    if entries == [] then map[]
    else BucketStep(Buckets(entries[..|entries| - 1], floor, width), entries[|entries| - 1], floor, width)
  }

  method LatestPerBucket(entries: seq<Entry>, floor: u64, width: nat) returns (buckets: map<nat, Entry>)
    requires width > 0
    ensures buckets == Buckets(entries, floor, width)
  {
    buckets := map[];
    var i := 0;
    while i < |entries|
      invariant 0 <= i <= |entries|
      invariant buckets == Buckets(entries[..i], floor, width)
    {
      assert entries[..i + 1][..i] == entries[..i];
      var e := entries[i];
      if e.created >= floor {
        var bucket := e.created / width;
        var replace := true;
        if bucket in buckets {
          var current := buckets[bucket];
          replace := e.sequence > current.sequence || (e.sequence == current.sequence && e.created > current.created);
        }
        if replace {
          buckets := buckets[bucket := e];
        }
      }
      i := i + 1;
    }
    assert entries[..i] == entries;
  }

  function BucketIds(buckets: map<nat, Entry>): set<string> {
    set b | b in buckets :: buckets[b].id
  }

  /** The reasons before parents are looked at. */
  function BaseReasons(input: PlanInput): Reasons {
    var m := AddReason(map[], if input.latest.Some? then {input.latest.value} else {}, CanonicalLatest);
    var m := AddReason(m, PinnedIds(input.entries), Pinned);
    var m := AddReason(m, ProtectedIds(input.protections, input.now), HandoffProtected);
    SoftReasons(input, m)
  }

  /** The reasons of recency: the newest ones, and the newest of each hour and day. */
  function SoftReasons(input: PlanInput, m: Reasons): Reasons {
    var m := AddReason(m, IdsOf(Take(SortBy(NewerFirst, input.entries), input.policy.hotCount)), HotSnapshot);
    var hours := Floor(input.now, input.policy.hourlyHours * SECONDS_PER_HOUR);
    var m := AddReason(m, BucketIds(Buckets(input.entries, hours, SECONDS_PER_HOUR)), HourlyThinning);
    var days := Floor(input.now, input.policy.dailyDays * SECONDS_PER_DAY);
    AddReason(m, BucketIds(Buckets(input.entries, days, SECONDS_PER_DAY)), DailyThinning)
  }

  lemma AddHas(m: Reasons, ids: set<string>, added: KeepReason, id: string, r: KeepReason)
    ensures Has(AddReason(m, ids, added), id, r) <==> Has(m, id, r) || (id in ids && r == added)
  {
  }

  lemma SoftReasonsAdd(input: PlanInput, m: Reasons, id: string, r: KeepReason)
    requires r.IsHard()
    ensures Has(SoftReasons(input, m), id, r) <==> Has(m, id, r)
  {
    var hot := IdsOf(Take(SortBy(NewerFirst, input.entries), input.policy.hotCount));
    var hours := Floor(input.now, input.policy.hourlyHours * SECONDS_PER_HOUR);
    var hourly := BucketIds(Buckets(input.entries, hours, SECONDS_PER_HOUR));
    var days := Floor(input.now, input.policy.dailyDays * SECONDS_PER_DAY);
    var m1 := AddReason(m, hot, HotSnapshot);
    var m2 := AddReason(m1, hourly, HourlyThinning);
    AddHas(m, hot, HotSnapshot, id, r);
    AddHas(m1, hourly, HourlyThinning, id, r);
    AddHas(m2, BucketIds(Buckets(input.entries, days, SECONDS_PER_DAY)), DailyThinning, id, r);
  }

  lemma BaseHas(input: PlanInput, id: string, r: KeepReason)
    requires r.IsHard()
    ensures Has(BaseReasons(input), id, r)
            <==> match r
                 case CanonicalLatest => input.latest == Some(id)
                 case Pinned => id in PinnedIds(input.entries)
                 case HandoffProtected => id in ProtectedIds(input.protections, input.now)
                 case _ => false
  {
    var m1 := AddReason(map[], if input.latest.Some? then {input.latest.value} else {}, CanonicalLatest);
    var m2 := AddReason(m1, PinnedIds(input.entries), Pinned);
    var m3 := AddReason(m2, ProtectedIds(input.protections, input.now), HandoffProtected);
    AddHas(map[], if input.latest.Some? then {input.latest.value} else {}, CanonicalLatest, id, r);
    AddHas(m1, PinnedIds(input.entries), Pinned, id, r);
    AddHas(m2, ProtectedIds(input.protections, input.now), HandoffProtected, id, r);
    SoftReasonsAdd(input, m3, id, r);
  }

  // ---------------------------------------------------------------- parents

  type Parents = map<string, Option<string>>

  function ParentsOf(entries: seq<Entry>): Parents {
    if entries == [] then map[]
    else ParentsOf(entries[..|entries| - 1])[entries[|entries| - 1].id := entries[|entries| - 1].parent]
  }

  lemma OneLess(keys: set<string>, visited: set<string>, id: string)
    ensures |keys - (visited + {id})| <= |keys - visited|
    ensures id in keys && id !in visited ==> |keys - (visited + {id})| < |keys - visited|
  {
    var left := keys - visited;
    assert keys - (visited + {id}) == left - {id};
  }

  /** The loop of `protect_retained_parents`: takes ids off the frontier and marks their parents. */
  function Protect(parents: Parents, m: Reasons, frontier: seq<string>, visited: set<string>): Reasons
    decreases |parents.Keys - visited|, |frontier|
  {
    if frontier == [] then m
    else
      var id, rest := frontier[|frontier| - 1], frontier[..|frontier| - 1];
      OneLess(parents.Keys, visited, id);
      if id in visited then Protect(parents, m, rest, visited)
      else if id !in parents || parents[id].None? then Protect(parents, m, rest, visited + {id})
      else
        var parent := parents[id].value;
        Protect(parents, AddReason(m, {parent}, RetainedParent), rest + [parent], visited + {id})
  }

  function Marked(m: Reasons): set<string> {
    set k | k in m && m[k] != {}
  }

  function WithParents(entries: seq<Entry>, m: Reasons): Reasons {
    Protect(ParentsOf(entries), m, SortedKeys(Marked(m)), {})
  }

  method ProtectRetainedParents(entries: seq<Entry>, m: Reasons) returns (r: Reasons)
    ensures r == WithParents(entries, m)
  {
    var parents: Parents := map[];
    var i := 0;
    while i < |entries|
      invariant 0 <= i <= |entries|
      invariant parents == ParentsOf(entries[..i])
    {
      assert entries[..i + 1][..i] == entries[..i];
      parents := parents[entries[i].id := entries[i].parent];
      i := i + 1;
    }
    assert entries[..i] == entries;
    r := m;
    var frontier := SortedKeys(Marked(m));
    var visited: set<string> := {};
    while frontier != []
      invariant Protect(parents, r, frontier, visited) == WithParents(entries, m)
      decreases |parents.Keys - visited|, |frontier|
    {
      var id := frontier[|frontier| - 1];
      frontier := frontier[..|frontier| - 1];
      OneLess(parents.Keys, visited, id);
      if id !in visited {
        visited := visited + {id};
        if id in parents && parents[id].Some? {
          var parent := parents[id].value;
          r := AddReason(r, {parent}, RetainedParent);
          frontier := frontier + [parent];
        }
      }
    }
  }

  ghost predicate DistinctIds(entries: seq<Entry>) {
    forall i, j :: 0 <= i < j < |entries| ==> entries[i].id != entries[j].id
  }

  lemma {:induction false} ParentsAreTheirs(entries: seq<Entry>)
    requires DistinctIds(entries)
    ensures ParentsOf(entries).Keys == IdsOf(entries)
    ensures forall e :: e in entries ==> ParentsOf(entries)[e.id] == e.parent
  {
    if entries != [] {
      var n := |entries| - 1;
      ParentsAreTheirs(entries[..n]);
      assert entries == entries[..n] + [entries[n]];
      forall e | e in entries[..n] ensures e.id != entries[n].id {
        var i :| 0 <= i < n && entries[..n][i] == e;
        assert entries[i] == e;
      }
    }
  }

  /** The parent of the id carries the mark. */
  predicate ParentMarked(parents: Parents, m: Reasons, id: string) {
    id in parents && parents[id].Some? ==> Has(m, parents[id].value, RetainedParent)
  }

  /** What the loop keeps: everything kept is visited or waiting, and every visited id has its parent
      marked. */
  ghost predicate Protecting(parents: Parents, m: Reasons, frontier: seq<string>, visited: set<string>) {
    && (forall id :: HasAny(m, id) ==> id in visited || id in frontier)
    && (forall id :: id in visited ==> ParentMarked(parents, m, id))
  }

  lemma ProtectingStep(parents: Parents, m: Reasons, frontier: seq<string>, visited: set<string>)
    requires frontier != [] && Protecting(parents, m, frontier, visited)
    ensures var id, rest := frontier[|frontier| - 1], frontier[..|frontier| - 1];
            if id in visited then Protecting(parents, m, rest, visited)
            else if id !in parents || parents[id].None? then Protecting(parents, m, rest, visited + {id})
            else var p := parents[id].value;
                 Protecting(parents, AddReason(m, {p}, RetainedParent), rest + [p], visited + {id})
  {
    var id, rest := frontier[|frontier| - 1], frontier[..|frontier| - 1];
    assert frontier == rest + [id];
    if id !in visited && id in parents && parents[id].Some? {
      var p := parents[id].value;
      var m' := AddReason(m, {p}, RetainedParent);
      forall x | HasAny(m', x) ensures x in visited + {id} || x in rest + [p] {
        assert x != p ==> HasAny(m, x);
      }
      forall x | x in visited + {id} ensures ParentMarked(parents, m', x) {
        assert x in visited ==> ParentMarked(parents, m, x);
      }
    }
  }

  /** In the end the parent of everything kept is kept for good. */
  lemma {:induction false} ProtectCloses(parents: Parents, m: Reasons, frontier: seq<string>, visited: set<string>,
                                         id: string)
    requires Protecting(parents, m, frontier, visited) && HasAny(Protect(parents, m, frontier, visited), id)
    ensures ParentMarked(parents, Protect(parents, m, frontier, visited), id)
    decreases |parents.Keys - visited|, |frontier|
  {
    if frontier != [] {
      var last, rest := frontier[|frontier| - 1], frontier[..|frontier| - 1];
      OneLess(parents.Keys, visited, last);
      ProtectingStep(parents, m, frontier, visited);
      if last in visited {
        ProtectCloses(parents, m, rest, visited, id);
      } else if last !in parents || parents[last].None? {
        ProtectCloses(parents, m, rest, visited + {last}, id);
      } else {
        var p := parents[last].value;
        ProtectCloses(parents, AddReason(m, {p}, RetainedParent), rest + [p], visited + {last}, id);
      }
    }
  }

  /** The loop only adds, and only marks parents. */
  lemma {:induction false} ProtectAdds(parents: Parents, m: Reasons, frontier: seq<string>, visited: set<string>,
                                       id: string, r: KeepReason)
    ensures var after := Protect(parents, m, frontier, visited);
            && (Has(m, id, r) ==> Has(after, id, r))
            && (Has(after, id, r) && !Has(m, id, r) ==>
                  r == RetainedParent && exists y :: y in parents && parents[y] == Some(id))
    decreases |parents.Keys - visited|, |frontier|
  {
    if frontier != [] {
      var last, rest := frontier[|frontier| - 1], frontier[..|frontier| - 1];
      OneLess(parents.Keys, visited, last);
      if last in visited {
        ProtectAdds(parents, m, rest, visited, id, r);
      } else if last !in parents || parents[last].None? {
        ProtectAdds(parents, m, rest, visited + {last}, id, r);
      } else {
        var p := parents[last].value;
        ProtectAdds(parents, AddReason(m, {p}, RetainedParent), rest + [p], visited + {last}, id, r);
      }
    }
  }

  // ---------------------------------------------------------------- the plan

  function KeepReasons(input: PlanInput): Reasons {
    WithParents(input.entries, BaseReasons(input))
  }

  function SizeOf(entries: seq<Entry>, ids: set<string>): nat {
    if entries == [] then 0
    else
      SizeOf(entries[..|entries| - 1], ids)
      + (if entries[|entries| - 1].id in ids then entries[|entries| - 1].size else 0)
  }

  /** What has to be freed: the larger of the quota overage and the deficit of free disk. */
  function TargetBytes(input: PlanInput): nat {
    var quota := input.policy.QuotaBytes(input.scope);
    var overage := if quota.Some? && quota.value <= input.usage then input.usage - quota.value else 0;
    var stop := MibToBytes(input.policy.hardStopMib);
    Max(overage, if input.freeDisk <= stop then stop - input.freeDisk else 0)
  }

  function OutsideRetention(entries: seq<Entry>, m: Reasons): set<string> {
    set e | e in entries && !HasAny(m, e.id) :: e.id
  }

  /** The pressure loop over the entries from the oldest on. */
  function Pressed(sorted: seq<Entry>, m: Reasons, deletes: set<string>, planned: nat, target: nat): set<string> {
    if sorted == [] || planned >= target then deletes
    else
      var e := sorted[0];
      if e.id in deletes || HardKept(m, e.id) then Pressed(sorted[1..], m, deletes, planned, target)
      else Pressed(sorted[1..], m, deletes + {e.id}, planned + e.size, target)
  }

  function DeleteSet(input: PlanInput): set<string> {
    var m := KeepReasons(input);
    var outside := OutsideRetention(input.entries, m);
    Pressed(SortBy(OlderFirst, input.entries), m, outside, SizeOf(input.entries, outside), TargetBytes(input))
  }

  /** The ids of the entries to delete, in the order of the listing. */
  function Chosen(entries: seq<Entry>, ids: set<string>): seq<string> {
    if entries == [] then []
    else
      Chosen(entries[..|entries| - 1], ids)
      + (if entries[|entries| - 1].id in ids then [entries[|entries| - 1].id] else [])
  }

  /** `plan_snapshot_pruning(..).delete_snapshot_ids()`. */
  function PlannedIds(input: PlanInput): seq<string> {
    Chosen(input.entries, DeleteSet(input))
  }

  method PressDeletes(input: PlanInput, m: Reasons, outside: set<string>) returns (deletes: set<string>)
    ensures deletes == Pressed(SortBy(OlderFirst, input.entries), m, outside, SizeOf(input.entries, outside),
                               TargetBytes(input))
  {
    deletes := outside;
    var planned: nat := SizeOf(input.entries, outside);
    var target: nat := TargetBytes(input);
    var sorted := SortBy(OlderFirst, input.entries);
    var i := 0;
    while i < |sorted|
      invariant 0 <= i <= |sorted|
      invariant Pressed(sorted[i..], m, deletes, planned, target)
             == Pressed(sorted, m, outside, SizeOf(input.entries, outside), target)
    {
      if planned >= target {
        return;
      }
      assert sorted[i..][0] == sorted[i] && sorted[i..][1..] == sorted[i + 1..];
      var e := sorted[i];
      if e.id !in deletes {
        if !HardKept(m, e.id) {
          deletes := deletes + {e.id};
          planned := planned + e.size;
        }
      }
      i := i + 1;
    }
  }

  method PlanSnapshotPruning(input: PlanInput) returns (ids: seq<string>)
    ensures ids == PlannedIds(input)
  {
    var base := BaseReasons(input);
    var reasons := ProtectRetainedParents(input.entries, base);
    var deletes := PressDeletes(input, reasons, OutsideRetention(input.entries, reasons));
    ids := Choose(input.entries, deletes);
  }

  method Choose(entries: seq<Entry>, deletes: set<string>) returns (ids: seq<string>)
    ensures ids == Chosen(entries, deletes)
  {
    ids := [];
    var i := 0;
    while i < |entries|
      invariant 0 <= i <= |entries|
      invariant ids == Chosen(entries[..i], deletes)
    {
      assert entries[..i + 1][..i] == entries[..i];
      if entries[i].id in deletes {
        ids := ids + [entries[i].id];
      }
      i := i + 1;
    }
    assert entries[..i] == entries;
  }

  // ---------------------------------------------------------------- what is never planned

  lemma {:induction false} ChosenMembers(entries: seq<Entry>, ids: set<string>)
    ensures forall id :: id in Chosen(entries, ids) <==> id in ids && id in IdsOf(entries)
  {
    if entries != [] {
      var n := |entries| - 1;
      ChosenMembers(entries[..n], ids);
      assert entries == entries[..n] + [entries[n]];
    }
  }

  lemma {:induction false} PressedFrame(sorted: seq<Entry>, m: Reasons, deletes: set<string>, planned: nat, target: nat)
    ensures deletes <= Pressed(sorted, m, deletes, planned, target)
    ensures forall id :: id in Pressed(sorted, m, deletes, planned, target) ==>
                           id in deletes || (!HardKept(m, id) && id in IdsOf(sorted))
    decreases |sorted|
  {
    if sorted != [] && planned < target {
      var e := sorted[0];
      assert sorted == [e] + sorted[1..];
      if e.id in deletes || HardKept(m, e.id) {
        PressedFrame(sorted[1..], m, deletes, planned, target);
      } else {
        PressedFrame(sorted[1..], m, deletes + {e.id}, planned + e.size, target);
      }
    }
  }

  /** The planned ids are entries, none kept for a hard reason, and every entry without a reason is among
      them. */
  lemma PlannedExactlySoft(input: PlanInput, id: string)
    ensures id in PlannedIds(input) ==> id in IdsOf(input.entries) && !HardKept(KeepReasons(input), id)
    ensures id in IdsOf(input.entries) && !HasAny(KeepReasons(input), id) ==> id in PlannedIds(input)
  {
    var m := KeepReasons(input);
    var outside := OutsideRetention(input.entries, m);
    PressedFrame(SortBy(OlderFirst, input.entries), m, outside, SizeOf(input.entries, outside), TargetBytes(input));
    ChosenMembers(input.entries, DeleteSet(input));
  }

  lemma BaseSurvives(input: PlanInput, id: string, r: KeepReason)
    requires Has(BaseReasons(input), id, r) && r.IsHard()
    ensures HardKept(KeepReasons(input), id)
  {
    var m := BaseReasons(input);
    ProtectAdds(ParentsOf(input.entries), m, SortedKeys(Marked(m)), {}, id, r);
  }

  /** No plan names the canonical latest snapshot it was given, a pinned one, or one under an active
      handoff protection. */
  lemma NeverPlanned(input: PlanInput, id: string)
    requires id in PlannedIds(input)
    ensures id in IdsOf(input.entries)
    ensures input.latest != Some(id) && id !in PinnedIds(input.entries)
    ensures id !in ProtectedIds(input.protections, input.now)
  {
    PlannedExactlySoft(input, id);
    BaseHas(input, id, CanonicalLatest);
    BaseHas(input, id, Pinned);
    BaseHas(input, id, HandoffProtected);
    if input.latest == Some(id) {
      BaseSurvives(input, id, CanonicalLatest);
    }
    if id in PinnedIds(input.entries) {
      BaseSurvives(input, id, Pinned);
    }
    if id in ProtectedIds(input.protections, input.now) {
      BaseSurvives(input, id, HandoffProtected);
    }
  }

  /** Whoever names a planned snapshot as its parent is planned too. */
  lemma ChildrenArePlanned(input: PlanInput, e: Entry, id: string)
    requires DistinctIds(input.entries) && e in input.entries && e.parent == Some(id) && id in PlannedIds(input)
    ensures e.id in PlannedIds(input)
  {
    var m := BaseReasons(input);
    var parents, frontier := ParentsOf(input.entries), SortedKeys(Marked(m));
    PlannedExactlySoft(input, id);
    PlannedExactlySoft(input, e.id);
    ParentsAreTheirs(input.entries);
    if HasAny(KeepReasons(input), e.id) {
      ProtectCloses(parents, m, frontier, {}, e.id);
    }
  }

  // ---------------------------------------------------------------- a plan for one snapshot

  /** Every other entry is under protection, and there is pressure without end. */
  function OnlyPlan(entries: seq<Entry>, x: string, latest: Option<string>): PlanInput {
    PlanInput(entries, Policy(0, 0, 0, Some(0), None, 0), DeviceCache, latest,
              Others(entries, x), U64_MAX, U64_MAX, 0)
  }

  function Others(entries: seq<Entry>, x: string): seq<Protection> {
    if entries == [] then []
    else
      var id := entries[|entries| - 1].id;
      Others(entries[..|entries| - 1], x) + (if id == x then [] else [Protection(id, U64_MAX)])
  }

  lemma {:induction false} OthersMembers(entries: seq<Entry>, x: string, now: u64)
    ensures forall id :: id in ProtectedIds(Others(entries, x), now) <==> id in IdsOf(entries) && id != x
  {
    if entries != [] {
      var n := |entries| - 1;
      OthersMembers(entries[..n], x, now);
      assert entries == entries[..n] + [entries[n]];
      var front, all := Others(entries[..n], x), Others(entries, x);
      forall id ensures id in ProtectedIds(all, now) <==> id in IdsOf(entries) && id != x {
        if id in ProtectedIds(all, now) {
          var p :| p in all && p.until >= now && p.id == id;
          assert p in front ==> id in ProtectedIds(front, now);
        }
        if id in IdsOf(entries) && id != x {
          if id in IdsOf(entries[..n]) {
            var p :| p in front && p.until >= now && p.id == id;
            assert p in all;
          } else {
            assert Protection(id, U64_MAX) in all;
          }
        }
      }
    }
  }

  lemma {:induction false} PressFinds(sorted: seq<Entry>, m: Reasons, x: string)
    requires x in IdsOf(sorted) && !HardKept(m, x)
    requires forall e :: e in sorted && e.id != x ==> HardKept(m, e.id)
    ensures Pressed(sorted, m, {}, 0, U64_MAX) >= {x}
    decreases |sorted|
  {
    var e := sorted[0];
    assert sorted == [e] + sorted[1..];
    if e.id == x {
      assert {} + {x} == {x};
      PressedFrame(sorted[1..], m, {} + {x}, 0 + e.size, U64_MAX);
    } else {
      PressFinds(sorted[1..], m, x);
    }
  }

  lemma OnlyOneIsSoft(entries: seq<Entry>, x: string, latest: Option<string>, id: string)
    requires DistinctIds(entries) && x in IdsOf(entries) && x !in PinnedIds(entries) && latest != Some(x)
    requires forall e :: e in entries ==> e.parent != Some(x)
    requires id in IdsOf(entries)
    ensures HardKept(KeepReasons(OnlyPlan(entries, x, latest)), id) <==> id != x
  {
    var input := OnlyPlan(entries, x, latest);
    var m := BaseReasons(input);
    OthersMembers(entries, x, 0);
    if id != x {
      BaseHas(input, id, HandoffProtected);
      BaseSurvives(input, id, HandoffProtected);
    } else if HardKept(KeepReasons(input), x) {
      var r :| r in KeepReasons(input)[x] && r.IsHard();
      ProtectAdds(ParentsOf(entries), m, SortedKeys(Marked(m)), {}, x, r);
      ParentsAreTheirs(entries);
      BaseHas(input, x, r);
    }
  }

  lemma {:induction false} NothingChosen(entries: seq<Entry>)
    ensures SizeOf(entries, {}) == 0
  {
    if entries != [] {
      NothingChosen(entries[..|entries| - 1]);
    }
  }

  /** If every entry but x is kept for a hard reason, pressure without end deletes x alone. */
  lemma PressOnlyOne(entries: seq<Entry>, m: Reasons, x: string)
    requires x in IdsOf(entries) && forall e :: e in entries ==> (HardKept(m, e.id) <==> e.id != x)
    ensures var outside := OutsideRetention(entries, m);
            Pressed(SortBy(OlderFirst, entries), m, outside, SizeOf(entries, outside), U64_MAX) == {x}
  {
    var sorted, outside := SortBy(OlderFirst, entries), OutsideRetention(entries, m);
    SortMembers(OlderFirst, entries);
    PressedFrame(sorted, m, outside, SizeOf(entries, outside), U64_MAX);
    if x !in outside {
      assert outside == {};
      NothingChosen(entries);
      PressFinds(sorted, m, x);
    }
  }

  lemma EndlessPressure(entries: seq<Entry>, x: string, latest: Option<string>)
    ensures TargetBytes(OnlyPlan(entries, x, latest)) == U64_MAX
  {
  }

  lemma OnlyOneIsDeleted(entries: seq<Entry>, x: string, latest: Option<string>)
    requires DistinctIds(entries) && x in IdsOf(entries) && x !in PinnedIds(entries) && latest != Some(x)
    requires forall e :: e in entries ==> e.parent != Some(x)
    ensures DeleteSet(OnlyPlan(entries, x, latest)) == {x}
  {
    var input := OnlyPlan(entries, x, latest);
    forall e | e in entries ensures HardKept(KeepReasons(input), e.id) <==> e.id != x {
      OnlyOneIsSoft(entries, x, latest, e.id);
    }
    EndlessPressure(entries, x, latest);
    PressOnlyOne(entries, KeepReasons(input), x);
  }

  lemma {:induction false} ChosenOne(entries: seq<Entry>, ids: set<string>, x: string)
    requires DistinctIds(entries) && ids * IdsOf(entries) == (if x in IdsOf(entries) then {x} else {})
    ensures Chosen(entries, ids) == if x in IdsOf(entries) then [x] else []
  {
    if entries != [] {
      var n := |entries| - 1;
      var front, last := entries[..n], entries[n];
      assert entries == front + [last];
      if last.id == x {
        forall e | e in front ensures e.id != x {
          var i :| 0 <= i < n && front[i] == e;
          assert entries[i] == e;
        }
      }
      assert IdsOf(entries) == IdsOf(front) + {last.id};
      assert last.id in ids <==> last.id == x by {
        assert last.id in ids <==> last.id in ids * IdsOf(entries);
      }
      assert ids * IdsOf(front) == (if x in IdsOf(front) then {x} else {}) by {
        forall id ensures id in ids * IdsOf(front) <==> id == x && x in IdsOf(front) {
          assert id in ids * IdsOf(front) ==> id in ids * IdsOf(entries);
        }
      }
      ChosenOne(front, ids, x);
    }
  }

  /** An unpinned snapshot that nobody names as parent, and that is not the latest given, is all that some
      plan deletes. */
  lemma PlanForOne(entries: seq<Entry>, x: string, latest: Option<string>)
    requires DistinctIds(entries) && x in IdsOf(entries) && x !in PinnedIds(entries) && latest != Some(x)
    requires forall e :: e in entries ==> e.parent != Some(x)
    ensures PlannedIds(OnlyPlan(entries, x, latest)) == [x]
  {
    OnlyOneIsDeleted(entries, x, latest);
    assert {x} * IdsOf(entries) == {x};
    ChosenOne(entries, DeleteSet(OnlyPlan(entries, x, latest)), x);
  }
}
