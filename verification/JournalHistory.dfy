/**
 The crash journal refines a map from operations to histories: under any mix of appends, faulted
 appends and cleanups, replay returns for each operation exactly the records written for it since
 a cleanup last removed it, in the order they were written.
 */
module JournalHistory {
  import opened Common
  import opened Order
  import opened CrashJournal

  /** A cleanup can stop: the process dies after k operations on the files. */
  datatype Step = Append(input: Input, now: u64, fault: Option<FaultPoint>) | Cleanup | CrashedCleanup(k: nat)

  const NO_FILES: Disk := Disk(None, None)

  /** The files after a step, as the methods of the class leave them. */
  function After(d: Disk, step: Step): Disk {
    match step
    case Append(input, now, fault) =>
      if fault == Some(BeforeAppend) then d
      else d.(file := Some(d.Contents() + [Record(NextSequence(d.Contents()), input, now)]))
    case Cleanup => ExecAll(d, RewriteOps(CleanedUp(d.Contents())))
    case CrashedCleanup(k) => ExecAll(d, Within(RewriteOps(CleanedUp(d.Contents())), k))
  }

  function Files(steps: seq<Step>, n: nat): Disk
    requires n <= |steps|
  {
    if n == 0 then NO_FILES else After(Files(steps, n - 1), steps[n - 1])
  }

  function File(steps: seq<Step>, n: nat): seq<Record>
    requires n <= |steps|
  {
    Files(steps, n).Contents()
  }

  // ---------------------------------------------------------------- the files of a cleanup

  /** Before the rename the journal file is as it was, whatever an earlier crash left in the temporary
      file; after it the journal holds the records. */
  lemma {:induction false} RewriteStages(d: Disk, records: seq<Record>, k: nat)
    requires k <= |records| + 2
    ensures ExecAll(d, RewriteOps(records)[..k])
            == if k == 0 then d
               else if k <= |records| + 1 then Disk(d.file, Some(records[..k - 1]))
               else Disk(Some(records), None)
  {
    if k > 0 {
      RewriteStages(d, records, k - 1);
      ExecOneMore(d, RewriteOps(records), k - 1);
      if k == |records| + 2 {
        assert records[..k - 2] == records;
      } else if k >= 2 {
        assert records[..k - 1] == records[..k - 2] + [records[k - 2]];
      }
    }
  }

  /** A rewrite cut off after k operations replaces the journal exactly if all of them were done. */
  lemma CutOffRewrite(d: Disk, records: seq<Record>, k: nat)
    ensures ExecAll(d, Within(RewriteOps(records), k)).file == if k >= |records| + 2 then Some(records) else d.file
    ensures ExecAll(d, RewriteOps(records)) == Disk(Some(records), None)
  {
    var all := RewriteOps(records);
    RewriteStages(d, records, if k < |all| then k else |all|);
    RewriteStages(d, records, |all|);
    assert all[..|all|] == all;
  }

  /** The step replaced the journal by its cleaned-up records. */
  predicate CleansUp(d: Disk, step: Step) {
    step.Cleanup? || (step.CrashedCleanup? && step.k >= |CleanedUp(d.Contents())| + 2)
  }

  lemma CleanupContents(d: Disk, step: Step)
    requires !step.Append?
    ensures After(d, step).Contents() == if CleansUp(d, step) then CleanedUp(d.Contents()) else d.Contents()
  {
    CutOffRewrite(d, CleanedUp(d.Contents()), if step.Cleanup? then 0 else step.k);
  }

  // ---------------------------------------------------------------- the abstract journal

  type History = map<string, seq<Record>>

  function Lookup(h: History, op: string): seq<Record> {
    if op in h then h[op] else []
  }

  predicate Finished(records: seq<Record>) {
    records != [] && records[|records| - 1].input.phase.IsTerminal()
  }

  /** The operations a cleanup keeps. */
  function Kept(h: History): History {
    map op | op in h && !Finished(h[op]) :: h[op]
  }

  /** A step of the abstract journal; `sequence` is the number the journal gives the record, `renamed`
      whether a cleanup came to its end. */
  function AfterHistory(h: History, step: Step, sequence: u64, renamed: bool): History {
    match step
    case Append(input, now, fault) =>
      if fault == Some(BeforeAppend) then h
      else h[input.operation := Lookup(h, input.operation) + [Record(sequence, input, now)]]
    case _ => if renamed then Kept(h) else h
  }

  function Written(steps: seq<Step>, n: nat): History
    requires n <= |steps|
  {
    if n == 0 then map[]
    else
      var d := Files(steps, n - 1);
      AfterHistory(Written(steps, n - 1), steps[n - 1], NextSequence(d.Contents()), CleansUp(d, steps[n - 1]))
  }

  /** The replay an abstract journal stands for. */
  function Replays(h: History, keys: seq<string>): seq<OperationReplay> {
    if keys == [] then []
    else
      var op := keys[|keys| - 1];
      Replays(h, keys[..|keys| - 1]) + [Replayed(op, Lookup(h, op))]
  }

  // ---------------------------------------------------------------- the file invariant

  /** Below saturation a number belongs to one record, and that record is in the file once. */
  ghost predicate NumbersDistinct(file: seq<Record>) {
    forall r, q :: r in file && q in file && r.sequence == q.sequence && r.sequence < U64_MAX ==>
                     r == q && multiset(file)[r] == 1
  }

  /** The file is in number order within each operation, not as a whole. */
  ghost predicate OwnAscending(file: seq<Record>) {
    forall op :: Ascending(Own(file, op))
  }

  lemma NextIsLargest(file: seq<Record>)
    ensures forall r :: r in file ==> r.sequence <= NextSequence(file)
    ensures forall r :: r in file && r.sequence == NextSequence(file) ==> r.sequence == U64_MAX
  {
    SortAscending(file);
    forall r | r in file ensures SortBySequence(file) != []
                                 && r.sequence <= SortBySequence(file)[|SortBySequence(file)| - 1].sequence
    {
      assert r in multiset(SortBySequence(file));
    }
  }

  lemma AppendKeepsOwnAscending(file: seq<Record>, r: Record)
    requires OwnAscending(file) && forall q :: q in file ==> q.sequence <= r.sequence
    ensures OwnAscending(file + [r])
  {
    forall op ensures Ascending(Own(file + [r], op)) {
      OwnAppend(file, [r], op);
      OwnSingle(r, op);
      OwnOperations(file, op);
      assert Ascending(Own(file, op));
      AscendingAppend(Own(file, op), r);
      assert Own(file, op) + [] == Own(file, op);
    }
  }

  lemma AscendingAppend(s: seq<Record>, r: Record)
    requires Ascending(s) && forall q :: q in s ==> q.sequence <= r.sequence
    ensures Ascending(s + [r])
  {
  }

  lemma AppendKeepsDistinct(file: seq<Record>, r: Record)
    requires NumbersDistinct(file) && forall q :: q in file && q.sequence == r.sequence ==> r.sequence == U64_MAX
    ensures NumbersDistinct(file + [r])
  {
    var after := file + [r];
    forall x, y | x in after && y in after && x.sequence == y.sequence && x.sequence < U64_MAX
      ensures x == y && multiset(after)[x] == 1
    {
      if x in file {
        assert y in file && x != r;
      } else {
        assert x == r && multiset(file)[r] == 0;
      }
    }
  }

  // ---------------------------------------------------------------- replay of such a file

  function Plain(file: seq<Record>, keys: seq<string>): seq<OperationReplay> {
    if keys == [] then []
    else
      var op := keys[|keys| - 1];
      Plain(file, keys[..|keys| - 1]) + [Replayed(op, Own(file, op))]
  }

  /** Reading in number order and grouping gives each operation's records in file order. */
  lemma {:induction false} ReplaysArePlain(file: seq<Record>, keys: seq<string>)
    requires OwnAscending(file)
    ensures ReplaysOf(SortBySequence(file), keys) == Plain(file, keys)
  {
    if keys != [] {
      var op := keys[|keys| - 1];
      ReplaysArePlain(file, keys[..|keys| - 1]);
      SortOwn(file, op);
      assert Ascending(Own(file, op));
      SortOfSorted(Own(file, op));
    }
  }

  lemma {:induction false} PlainIsReplays(file: seq<Record>, h: History, keys: seq<string>)
    requires forall op :: Own(file, op) == Lookup(h, op)
    ensures Plain(file, keys) == Replays(h, keys)
  {
    if keys != [] {
      PlainIsReplays(file, h, keys[..|keys| - 1]);
    }
  }

  lemma {:induction false} OwnRetained(file: seq<Record>, keys: seq<string>, op: string)
    requires Distinct(keys)
    ensures Own(Retained(Plain(file, keys)), op)
            == if op in keys && !Finished(Own(file, op)) then Own(file, op) else []
  {
    if keys != [] {
      var front, k := keys[..|keys| - 1], keys[|keys| - 1];
      assert keys == front + [k];
      OwnRetained(file, front, op);
      var kept := if Finished(Own(file, k)) then [] else Own(file, k);
      RetainedStep(file, keys);
      OwnAppend(Retained(Plain(file, front)), kept, op);
      OwnOperations(file, k);
      OwnOfOwn(kept, k, op);
    }
  }

  lemma RetainedStep(file: seq<Record>, keys: seq<string>)
    requires keys != []
    ensures var front, k := keys[..|keys| - 1], keys[|keys| - 1];
            Retained(Plain(file, keys))
            == Retained(Plain(file, front)) + (if Finished(Own(file, k)) then [] else Own(file, k))
  {
    assert Plain(file, keys)[..|Plain(file, keys)| - 1] == Plain(file, keys[..|keys| - 1]);
  }

  lemma {:induction false} RetainedMultiset(file: seq<Record>, keys: seq<string>, r: Record)
    requires Distinct(keys)
    ensures multiset(Retained(Plain(file, keys)))[r] <= multiset(file)[r]
    ensures r.Operation() !in keys ==> multiset(Retained(Plain(file, keys)))[r] == 0
  {
    if keys != [] {
      var front, k := keys[..|keys| - 1], keys[|keys| - 1];
      assert keys == front + [k];
      RetainedMultiset(file, front, r);
      var kept := if Finished(Own(file, k)) then [] else Own(file, k);
      RetainedStep(file, keys);
      OwnMultiset(file, k, r);
    }
  }

  lemma {:induction false} NoOwn(file: seq<Record>, op: string)
    requires op !in Operations(file)
    ensures Own(file, op) == []
  {
    if file != [] {
      var n := |file| - 1;
      assert file[n] in file;
      assert forall r :: r in file[..n] ==> r in file;
      NoOwn(file[..n], op);
    }
  }

  /** What cleanup leaves of each operation. */
  lemma CleanupOwn(file: seq<Record>, op: string)
    requires OwnAscending(file)
    ensures Own(CleanedUp(file), op) == if Finished(Own(file, op)) then [] else Own(file, op)
  {
    var keys := SortedKeys(Operations(file));
    ReplaysArePlain(file, keys);
    SortedKeysDistinct(Operations(file));
    OwnRetained(file, keys, op);
    if op !in keys {
      NoOwn(file, op);
    }
  }

  lemma CleanupKeepsOwnAscending(file: seq<Record>)
    requires OwnAscending(file)
    ensures OwnAscending(CleanedUp(file))
  {
    forall op ensures Ascending(Own(CleanedUp(file), op)) {
      CleanupOwn(file, op);
      assert Ascending(Own(file, op));
    }
  }

  lemma CleanupMultiset(file: seq<Record>, r: Record)
    requires OwnAscending(file)
    ensures multiset(CleanedUp(file))[r] <= multiset(file)[r]
  {
    var keys := SortedKeys(Operations(file));
    ReplaysArePlain(file, keys);
    SortedKeysDistinct(Operations(file));
    RetainedMultiset(file, keys, r);
  }

  lemma FewerKeepsDistinct(file: seq<Record>, after: seq<Record>)
    requires NumbersDistinct(file) && forall r :: multiset(after)[r] <= multiset(file)[r]
    ensures NumbersDistinct(after)
  {
    forall r, q | r in after && q in after && r.sequence == q.sequence && r.sequence < U64_MAX
      ensures r == q && multiset(after)[r] == 1
    {
      assert r in multiset(after) && q in multiset(after);
      assert r in multiset(file) && q in multiset(file);
      assert r in file && q in file;
    }
  }

  lemma CleanupKeepsDistinct(file: seq<Record>)
    requires OwnAscending(file) && NumbersDistinct(file)
    ensures NumbersDistinct(CleanedUp(file))
  {
    var after := CleanedUp(file);
    forall r ensures multiset(after)[r] <= multiset(file)[r] {
      CleanupMultiset(file, r);
    }
    FewerKeepsDistinct(file, after);
  }

  // ---------------------------------------------------------------- the refinement

  ghost predicate Represents(file: seq<Record>, h: History) {
    && OwnAscending(file)
    && NumbersDistinct(file)
    && (forall op :: Own(file, op) == Lookup(h, op))
    && (forall op :: op in h ==> h[op] != [])
  }

  lemma AppendedOwn(file: seq<Record>, h: History, r: Record, op: string)
    requires Represents(file, h)
    ensures Own(file + [r], op) == Lookup(h[r.Operation() := Lookup(h, r.Operation()) + [r]], op)
  {
    OwnAppend(file, [r], op);
    OwnSingle(r, op);
    assert Own(file, op) == Lookup(h, op);
    assert Own(file, op) + [] == Own(file, op);
  }

  lemma AppendRepresents(file: seq<Record>, h: History, r: Record)
    requires Represents(file, h) && r.sequence == NextSequence(file)
    ensures Represents(file + [r], h[r.Operation() := Lookup(h, r.Operation()) + [r]])
  {
    NextIsLargest(file);
    AppendKeepsOwnAscending(file, r);
    AppendKeepsDistinct(file, r);
    forall op ensures Own(file + [r], op) == Lookup(h[r.Operation() := Lookup(h, r.Operation()) + [r]], op) {
      AppendedOwn(file, h, r, op);
    }
  }

  lemma CleanupRepresents(file: seq<Record>, h: History)
    requires Represents(file, h)
    ensures Represents(CleanedUp(file), Kept(h))
  {
    CleanupKeepsOwnAscending(file);
    CleanupKeepsDistinct(file);
    var h' := Kept(h);
    forall op ensures Own(CleanedUp(file), op) == Lookup(h', op) {
      CleanupOwn(file, op);
      assert Own(file, op) == Lookup(h, op);
    }
  }

  lemma StepRepresents(d: Disk, h: History, step: Step)
    requires Represents(d.Contents(), h)
    ensures Represents(After(d, step).Contents(),
                       AfterHistory(h, step, NextSequence(d.Contents()), CleansUp(d, step)))
  {
    if step.Append? {
      if step.fault != Some(BeforeAppend) {
        AppendRepresents(d.Contents(), h, Record(NextSequence(d.Contents()), step.input, step.now));
      }
    } else {
      CleanupContents(d, step);
      CleanupRepresents(d.Contents(), h);
    }
  }

  /** The journal file holds for each operation exactly what was written since a cleanup last removed
      it, over every run, with crashes. */
  lemma {:induction false} FileRepresentsWritten(steps: seq<Step>, n: nat)
    requires n <= |steps|
    ensures Represents(File(steps, n), Written(steps, n))
  {
    if n > 0 {
      FileRepresentsWritten(steps, n - 1);
      StepRepresents(Files(steps, n - 1), Written(steps, n - 1), steps[n - 1]);
    }
  }

  lemma RepresentedOperations(file: seq<Record>, h: History)
    requires Represents(file, h)
    ensures Operations(file) == h.Keys
  {
    forall op ensures op in Operations(file) <==> op in h {
      assert Own(file, op) == Lookup(h, op);
      if op in Operations(file) {
        var r :| r in file && r.Operation() == op;
        OwnMultiset(file, op, r);
        assert r in multiset(file);
        assert r in multiset(Own(file, op));
      }
      if op in h {
        OwnOperations(file, op);
        assert h[op][0] in Own(file, op);
      }
    }
  }

  lemma RepresentedReplay(file: seq<Record>, h: History)
    requires Represents(file, h)
    ensures ReplayOf(file) == Replays(h, SortedKeys(h.Keys))
  {
    RepresentedOperations(file, h);
    ReplaysArePlain(file, SortedKeys(h.Keys));
    PlainIsReplays(file, h, SortedKeys(h.Keys));
  }

  /** After every run the replay is that of the abstract journal, in operation order. */
  lemma ReplayRefinesHistory(steps: seq<Step>, n: nat)
    requires n <= |steps|
    ensures ReplayOf(File(steps, n)) == Replays(Written(steps, n), SortedKeys(Written(steps, n).Keys))
  {
    FileRepresentsWritten(steps, n);
    RepresentedReplay(File(steps, n), Written(steps, n));
  }

  lemma MultisetCounts(file: seq<Record>, i: nat, j: nat)
    requires i < j < |file| && file[i] == file[j]
    ensures multiset(file)[file[i]] >= 2
  {
    assert file == file[..j] + file[j..];
    assert file[i] in file[..j] && file[j] in file[j..];
  }

  /** Below saturation the numbers in the file are pairwise different. */
  lemma NumbersAreDistinct(steps: seq<Step>, n: nat, i: nat, j: nat)
    requires n <= |steps| && i < j < |File(steps, n)|
    requires File(steps, n)[i].sequence == File(steps, n)[j].sequence
    ensures File(steps, n)[i].sequence == U64_MAX
  {
    FileRepresentsWritten(steps, n);
    var file := File(steps, n);
    if file[i].sequence < U64_MAX {
      assert file[i] in file && file[j] in file;
      assert file[i] == file[j];
      MultisetCounts(file, i, j);
      assert false;
    }
  }

  // ---------------------------------------------------------------- cleanup

  lemma {:induction false} PlainCounts(file: seq<Record>, keys: seq<string>)
    requires Distinct(keys)
    ensures |Retained(Plain(file, keys))| + RemovedCount(Plain(file, keys)) == OwnTotal(file, keys)
  {
    if keys != [] {
      PlainCounts(file, keys[..|keys| - 1]);
      assert Plain(file, keys)[..|Plain(file, keys)| - 1] == Plain(file, keys[..|keys| - 1]);
    }
  }

  function OwnTotal(file: seq<Record>, keys: seq<string>): nat {
    if keys == [] then 0 else OwnTotal(file, keys[..|keys| - 1]) + |Own(file, keys[|keys| - 1])|
  }

  lemma {:induction false} OwnTotalAppend(file: seq<Record>, r: Record, keys: seq<string>)
    requires Distinct(keys)
    ensures OwnTotal(file + [r], keys) == OwnTotal(file, keys) + (if r.Operation() in keys then 1 else 0)
  {
    if keys != [] {
      var front, k := keys[..|keys| - 1], keys[|keys| - 1];
      assert keys == front + [k];
      OwnTotalAppend(file, r, front);
      OwnAppend(file, [r], k);
      OwnSingle(r, k);
    }
  }

  lemma {:induction false} OwnTotalIsAll(file: seq<Record>, keys: seq<string>)
    requires Distinct(keys) && forall r :: r in file ==> r.Operation() in keys
    ensures OwnTotal(file, keys) == |file|
  {
    if file == [] {
      EmptyTotal(keys);
    } else {
      var front, last := file[..|file| - 1], file[|file| - 1];
      assert file == front + [last];
      OwnTotalIsAll(front, keys);
      OwnTotalAppend(front, last, keys);
    }
  }

  lemma {:induction false} EmptyTotal(keys: seq<string>)
    ensures OwnTotal([], keys) == 0
  {
    if keys != [] {
      EmptyTotal(keys[..|keys| - 1]);
    }
  }

  /** Cleanup reports exactly the number of records it removes. */
  lemma CleanupCountsRemovedRecords(file: seq<Record>)
    requires OwnAscending(file)
    ensures RemovedCount(ReplayOf(file)) == |file| - |CleanedUp(file)|
  {
    var keys := SortedKeys(Operations(file));
    ReplaysArePlain(file, keys);
    SortedKeysDistinct(Operations(file));
    PlainCounts(file, keys);
    forall r | r in file ensures r.Operation() in keys {
      assert r.Operation() in Operations(file);
    }
    OwnTotalIsAll(file, keys);
  }

  lemma CleanupEffect(file: seq<Record>, h: History)
    requires Represents(file, h)
    ensures Represents(CleanedUp(file), Kept(h))
    ensures ReplayOf(CleanedUp(file)) == Replays(Kept(h), SortedKeys(Kept(h).Keys))
    ensures RemovedCount(ReplayOf(file)) == |file| - |CleanedUp(file)|
  {
    CleanupRepresents(file, h);
    RepresentedReplay(CleanedUp(file), Kept(h));
    CleanupCountsRemovedRecords(file);
  }

  /** In every run, cleanup removes exactly the operations whose latest phase is terminal, keeps
      every other operation's records, and returns the number of records it removed. */
  lemma CleanupRemovesExactlyFinished(steps: seq<Step>, n: nat)
    requires n <= |steps|
    ensures var file, kept := File(steps, n), Kept(Written(steps, n));
            && ReplayOf(CleanedUp(file)) == Replays(kept, SortedKeys(kept.Keys))
            && RemovedCount(ReplayOf(file)) == |file| - |CleanedUp(file)|
  {
    FileRepresentsWritten(steps, n);
    CleanupEffect(File(steps, n), Written(steps, n));
  }

  lemma {:induction false} SameRetained(file: seq<Record>, once: seq<Record>, keys: seq<string>)
    requires forall op :: Own(once, op) == if Finished(Own(file, op)) then [] else Own(file, op)
    ensures Retained(Plain(once, keys)) == Retained(Plain(file, keys))
  {
    if keys != [] {
      SameRetained(file, once, keys[..|keys| - 1]);
      RetainedStep(file, keys);
      RetainedStep(once, keys);
    }
  }

  /** The second sequence is the first with some elements left out. */
  predicate Thins<T(==)>(all: seq<T>, some: seq<T>) {
    if all == [] then some == []
    else
      || (some != [] && some[|some| - 1] == all[|all| - 1] && Thins(all[..|all| - 1], some[..|some| - 1]))
      || Thins(all[..|all| - 1], some)
  }

  lemma LastIsShared<T(!new)>(lt: (T, T) -> bool, all: seq<T>, some: seq<T>)
    requires StrictTotal(lt) && Sorted(lt, all) && Sorted(lt, some)
    requires all != [] && some != [] && all[|all| - 1] in some && some[|some| - 1] in all
    ensures some[|some| - 1] == all[|all| - 1]
  {
    var i :| 0 <= i < |some| && some[i] == all[|all| - 1];
    var j :| 0 <= j < |all| && all[j] == some[|some| - 1];
    assert i < |some| - 1 ==> lt(some[i], some[|some| - 1]);
    assert j < |all| - 1 ==> lt(all[j], all[|all| - 1]);
  }

  lemma FrontWithoutLast<T>(s: seq<T>)
    requires Distinct(s) && s != []
    ensures Distinct(s[..|s| - 1])
    ensures forall x :: x in s[..|s| - 1] <==> x in s && x != s[|s| - 1]
  {
    var front, last := s[..|s| - 1], s[|s| - 1];
    assert s == front + [last];
    forall i | 0 <= i < |front| ensures front[i] != last {
      assert s[i] == front[i];
    }
  }

  lemma FirstIsMember<T>(s: seq<T>)
    ensures s == [] || s[0] in s
  {
  }

  lemma {:induction false} SortedThins<T(!new)>(lt: (T, T) -> bool, all: seq<T>, some: seq<T>)
    requires StrictTotal(lt) && Sorted(lt, all) && Sorted(lt, some) && Distinct(all) && Distinct(some)
    requires forall x :: x in some ==> x in all
    ensures Thins(all, some)
    decreases |all|
  {
    if all == [] {
      FirstIsMember(some);
    } else {
      var last := all[|all| - 1];
      FrontWithoutLast(all);
      if last in some {
        assert some[|some| - 1] in some;
        LastIsShared(lt, all, some);
        FrontWithoutLast(some);
        var front, less := all[..|all| - 1], some[..|some| - 1];
        forall x | x in less ensures x in front {
          assert x in some;
        }
        SortedThins(lt, front, less);
      } else {
        SortedThins(lt, all[..|all| - 1], some);
      }
    }
  }

  lemma {:induction false} LeftOutIn<T>(all: seq<T>, some: seq<T>)
    requires Thins(all, some)
    ensures forall x :: x in some ==> x in all
    decreases |all|
  {
    if all != [] {
      var last := all[|all| - 1];
      assert all == all[..|all| - 1] + [last];
      if some != [] && some[|some| - 1] == last && Thins(all[..|all| - 1], some[..|some| - 1]) {
        assert some == some[..|some| - 1] + [last];
        LeftOutIn(all[..|all| - 1], some[..|some| - 1]);
      } else {
        LeftOutIn(all[..|all| - 1], some);
      }
    }
  }

  lemma LessIdle(file: seq<Record>, all: seq<string>, some: seq<string>)
    requires Distinct(all) && all != [] && some != [] && some[|some| - 1] == all[|all| - 1]
    requires forall k :: k in all && k !in some ==> Own(file, k) == []
    ensures forall k :: k in all[..|all| - 1] && k !in some[..|some| - 1] ==> Own(file, k) == []
  {
    FrontWithoutLast(all);
    assert some == some[..|some| - 1] + [some[|some| - 1]];
  }

  /** Keys without records of their own add nothing. */
  lemma {:induction false} IdleKeys(file: seq<Record>, all: seq<string>, some: seq<string>)
    requires Thins(all, some) && Distinct(all)
    requires forall k :: k in all && k !in some ==> Own(file, k) == []
    ensures Retained(Plain(file, some)) == Retained(Plain(file, all))
    decreases |all|
  {
    if all != [] {
      var front, last := all[..|all| - 1], all[|all| - 1];
      FrontWithoutLast(all);
      RetainedStep(file, all);
      if some != [] && some[|some| - 1] == last && Thins(front, some[..|some| - 1]) {
        RetainedStep(file, some);
        LessIdle(file, all, some);
        IdleKeys(file, front, some[..|some| - 1]);
      } else {
        LeftOutIn(front, some);
        IdleKeys(file, front, some);
      }
    }
  }

  lemma CleanupOnce(file: seq<Record>)
    requires OwnAscending(file)
    ensures CleanedUp(CleanedUp(file)) == CleanedUp(file)
  {
    var once := CleanedUp(file);
    var all, some := SortedKeys(Operations(file)), SortedKeys(Operations(once));
    CleanupKeepsOwnAscending(file);
    forall op ensures Own(once, op) == if Finished(Own(file, op)) then [] else Own(file, op) {
      CleanupOwn(file, op);
    }
    ReplaysArePlain(file, all);
    ReplaysArePlain(once, some);
    SameRetained(file, once, all);
    StringOrder();
    ListingSorted(STRING_LESS, Operations(file));
    ListingSorted(STRING_LESS, Operations(once));
    SortedKeysDistinct(Operations(file));
    SortedKeysDistinct(Operations(once));
    forall k | k in some ensures k in all {
      CleanupAddsNoOperation(file, k);
    }
    forall k | k in all && k !in some ensures Own(once, k) == [] {
      NoOwn(once, k);
    }
    SortedThins(STRING_LESS, all, some);
    IdleKeys(once, all, some);
  }

  lemma CleanupAddsNoOperation(file: seq<Record>, op: string)
    requires OwnAscending(file) && op in Operations(CleanedUp(file))
    ensures op in Operations(file)
  {
    var r :| r in CleanedUp(file) && r.Operation() == op;
    assert r in multiset(CleanedUp(file));
    CleanupMultiset(file, r);
    assert r in multiset(file);
    assert r in file;
  }

  /** In every run a second cleanup leaves the file as it is, record by record, and removes nothing. */
  lemma CleanupIsIdempotent(steps: seq<Step>, n: nat)
    requires n <= |steps|
    ensures var once := CleanedUp(File(steps, n));
            CleanedUp(once) == once && RemovedCount(ReplayOf(once)) == 0
  {
    FileRepresentsWritten(steps, n);
    CleanupOnce(File(steps, n));
    CleanupKeepsOwnAscending(File(steps, n));
    CleanupCountsRemovedRecords(CleanedUp(File(steps, n)));
  }

  // ---------------------------------------------------------------- a crash during cleanup

  /** Wherever a cleanup of a run stops, the replay is the one before it, or, exactly if the rename was
      done, the one a completed cleanup leaves. */
  lemma CrashLeavesOldOrNewReplay(steps: seq<Step>, n: nat)
    requires n < |steps| && steps[n].CrashedCleanup?
    ensures ReplayOf(File(steps, n + 1))
            == if steps[n].k >= |CleanedUp(File(steps, n))| + 2 then ReplayOf(CleanedUp(File(steps, n)))
               else ReplayOf(File(steps, n))
  {
    CleanupContents(Files(steps, n), steps[n]);
  }

  /** So a crash is made good by the next cleanup: it leaves the files of a run without the crash. */
  lemma CleanupAfterCrash(steps: seq<Step>, n: nat, k: nat)
    requires n <= |steps|
    ensures var d := Files(steps, n);
            After(After(d, CrashedCleanup(k)), Cleanup) == After(d, Cleanup)
  {
    var d := Files(steps, n);
    var crashed := After(d, CrashedCleanup(k));
    CleanupContents(d, CrashedCleanup(k));
    CleanupIsIdempotent(steps, n);
    CutOffRewrite(d, CleanedUp(d.Contents()), 0);
    CutOffRewrite(crashed, CleanedUp(crashed.Contents()), 0);
  }
}
