/**
 The crash journal: an append-only file of records, read back in sequence order, grouped by
 operation for replay, and compacted by writing a temporary file and renaming it over the journal.
 Lines are records: printing a record and parsing the line is taken as the identity.
 */
module CrashJournal {
  import opened Common
  import opened Order

  datatype Phase =
    | SnapshotCreationStart | SnapshotCreationComplete | PublishStart | PublishComplete
    | TargetApplyStart | TargetBackupComplete | BaseApplied | WorkApplied | IndexApplied
    | Verified | LeaseCommitted
  {
    predicate IsTerminal() {
      SnapshotCreationComplete? || PublishComplete? || Verified? || LeaseCommitted?
    }
  }

  datatype Input = Input(
    operation: string, projectId: Option<string>, workspaceId: Option<string>,
    snapshotId: Option<string>, leaseId: Option<string>, phase: Phase, detail: string)

  datatype Record = Record(sequence: u64, input: Input, createdAt: u64) {
    function Operation(): string {
      input.operation
    }
  }

  datatype OperationReplay = OperationReplay(
    operation: string, records: seq<Record>, latest: Option<Phase>, terminal: bool)

  datatype FaultPoint = BeforeAppend | AfterRecordWrite

  // ---------------------------------------------------------------- the stable sort

  /** Inserts behind every record whose number is not larger. */
  function Insert(r: Record, sorted: seq<Record>): seq<Record> {
    if sorted == [] || sorted[|sorted| - 1].sequence <= r.sequence then sorted + [r]
    else Insert(r, sorted[..|sorted| - 1]) + [sorted[|sorted| - 1]]
  }

  /** `sort_by_key(|record| record.sequence_number)`, a stable sort. */
  function SortBySequence(records: seq<Record>): seq<Record> {
    if records == [] then []
    else Insert(records[|records| - 1], SortBySequence(records[..|records| - 1]))
  }

  ghost predicate Ascending(s: seq<Record>) {
    forall i, j :: 0 <= i < j < |s| ==> s[i].sequence <= s[j].sequence
  }

  lemma {:induction false} InsertMultiset(r: Record, s: seq<Record>)
    ensures multiset(Insert(r, s)) == multiset(s) + multiset{r}
  {
    if s != [] && s[|s| - 1].sequence > r.sequence {
      InsertMultiset(r, s[..|s| - 1]);
      assert s == s[..|s| - 1] + [s[|s| - 1]];
    }
  }

  lemma {:induction false} InsertAscending(r: Record, s: seq<Record>)
    requires Ascending(s)
    ensures Ascending(Insert(r, s))
  {
    if s != [] && s[|s| - 1].sequence > r.sequence {
      var front, last := s[..|s| - 1], s[|s| - 1];
      InsertAscending(r, front);
      InsertMultiset(r, front);
      var inserted := Insert(r, front);
      forall i | 0 <= i < |inserted| ensures inserted[i].sequence <= last.sequence {
        assert inserted[i] in multiset(inserted);
        assert inserted[i] == r || inserted[i] in front;
      }
    }
  }

  lemma {:induction false} SortAscending(records: seq<Record>)
    ensures Ascending(SortBySequence(records))
    ensures multiset(SortBySequence(records)) == multiset(records)
  {
    if records != [] {
      var front, last := records[..|records| - 1], records[|records| - 1];
      SortAscending(front);
      InsertAscending(last, SortBySequence(front));
      InsertMultiset(last, SortBySequence(front));
      assert records == front + [last];
    }
  }

  lemma {:induction false} SortOfSorted(s: seq<Record>)
    requires Ascending(s)
    ensures SortBySequence(s) == s
  {
    if s != [] {
      SortOfSorted(s[..|s| - 1]);
    }
  }

  /** The records of one operation, in order. */
  function Own(records: seq<Record>, op: string): seq<Record> {
    if records == [] then []
    else
      Own(records[..|records| - 1], op)
      + (if records[|records| - 1].Operation() == op then [records[|records| - 1]] else [])
  }

  lemma {:induction false} OwnAppend(records: seq<Record>, more: seq<Record>, op: string)
    ensures Own(records + more, op) == Own(records, op) + Own(more, op)
  {
    if more == [] {
      assert records + more == records;
    } else {
      OwnAppend(records, more[..|more| - 1], op);
      assert (records + more)[..|records + more| - 1] == records + more[..|more| - 1];
    }
  }

  lemma {:induction false} OwnMultiset(records: seq<Record>, op: string, r: Record)
    ensures multiset(Own(records, op))[r] == if r.Operation() == op then multiset(records)[r] else 0
  {
    if records != [] {
      OwnMultiset(records[..|records| - 1], op, r);
      assert records == records[..|records| - 1] + [records[|records| - 1]];
    }
  }

  lemma OwnOperations(records: seq<Record>, op: string)
    ensures forall r :: r in Own(records, op) ==> r.Operation() == op && r in records
  {
    forall r | r in Own(records, op) ensures r.Operation() == op && r in records {
      OwnMultiset(records, op, r);
    }
  }

  lemma {:induction false} OwnOfOwn(s: seq<Record>, op: string, other: string)
    requires forall r :: r in s ==> r.Operation() == op
    ensures Own(s, other) == if other == op then s else []
  {
    if s != [] {
      OwnOfOwn(s[..|s| - 1], op, other);
      assert s[|s| - 1] in s;
    }
  }

  /** Behind records that are not larger, insertion appends. */
  lemma InsertAtEnd(r: Record, s: seq<Record>)
    requires forall x :: x in s ==> x.sequence <= r.sequence
    ensures Insert(r, s) == s + [r]
  {
    if s != [] {
      assert s[|s| - 1] in s;
    }
  }

  lemma InsertBeforeLast(r: Record, front: seq<Record>, last: Record)
    requires r.sequence < last.sequence
    ensures Insert(r, front + [last]) == Insert(r, front) + [last]
  {
    assert (front + [last])[..|front|] == front;
  }

  lemma InsertOwnAtEnd(r: Record, s: seq<Record>, op: string)
    requires forall x :: x in s ==> x.sequence <= r.sequence
    ensures Own(Insert(r, s), op) == if r.Operation() == op then Insert(r, Own(s, op)) else Own(s, op)
  {
    InsertAtEnd(r, s);
    OwnAppend(s, [r], op);
    OwnOperations(s, op);
    InsertAtEnd(r, Own(s, op));
    OwnSingle(r, op);
  }

  lemma {:induction false} InsertOwn(r: Record, s: seq<Record>, op: string)
    requires Ascending(s)
    ensures Own(Insert(r, s), op) == if r.Operation() == op then Insert(r, Own(s, op)) else Own(s, op)
  {
    if s == [] || s[|s| - 1].sequence <= r.sequence {
      InsertOwnAtEnd(r, s, op);
    } else {
      var front, last := s[..|s| - 1], s[|s| - 1];
      assert s == front + [last];
      InsertOwn(r, front, op);
      InsertOwnBeforeLast(r, front, last, op);
    }
  }

  lemma InsertOwnBeforeLast(r: Record, front: seq<Record>, last: Record, op: string)
    requires r.sequence < last.sequence
    requires Own(Insert(r, front), op) == if r.Operation() == op then Insert(r, Own(front, op)) else Own(front, op)
    ensures Own(Insert(r, front + [last]), op)
            == if r.Operation() == op then Insert(r, Own(front + [last], op)) else Own(front + [last], op)
  {
    InsertBeforeLast(r, front, last);
    OwnAppend(Insert(r, front), [last], op);
    OwnAppend(front, [last], op);
    OwnSingle(last, op);
    InsertBeforeLast(r, Own(front, op), last);
    if last.Operation() != op {
      assert Own(front, op) + [] == Own(front, op);
      assert Own(Insert(r, front), op) + [] == Own(Insert(r, front), op);
    }
  }

  lemma OwnSingle(r: Record, op: string)
    ensures Own([r], op) == if r.Operation() == op then [r] else []
  {
    assert [r][..0] == [];
  }

  /** Sorting commutes with selecting an operation. */
  lemma {:induction false} SortOwn(records: seq<Record>, op: string)
    ensures Own(SortBySequence(records), op) == SortBySequence(Own(records, op))
  {
    if records != [] {
      var front, last := records[..|records| - 1], records[|records| - 1];
      SortOwn(front, op);
      SortAscending(front);
      InsertOwn(last, SortBySequence(front), op);
      if last.Operation() == op {
        assert (Own(front, op) + [last])[..|Own(front, op)|] == Own(front, op);
      } else {
        assert Own(front, op) + [] == Own(front, op);
      }
    }
  }

  // ---------------------------------------------------------------- what the operations compute

  function Operations(records: seq<Record>): set<string> {
    set r | r in records :: r.Operation()
  }

  function Replayed(op: string, records: seq<Record>): OperationReplay {
    var latest := if records == [] then None else Some(records[|records| - 1].input.phase);
    OperationReplay(op, records, latest, latest.Some? && latest.value.IsTerminal())
  }

  /** One replay per key, from the records in reading order. */
  function ReplaysOf(read: seq<Record>, keys: seq<string>): seq<OperationReplay> {
    if keys == [] then []
    else
      var op := keys[|keys| - 1];
      ReplaysOf(read, keys[..|keys| - 1]) + [Replayed(op, SortBySequence(Own(read, op)))]
  }

  /** The replay of a journal file. */
  function ReplayOf(records: seq<Record>): seq<OperationReplay> {
    ReplaysOf(SortBySequence(records), SortedKeys(Operations(records)))
  }

  function NextSequence(records: seq<Record>): u64 {
    var sorted := SortBySequence(records);
    if sorted == [] then 1 else SaturatingAdd(sorted[|sorted| - 1].sequence, 1)
  }

  /** The records cleanup keeps, operation by operation. */
  function Retained(replays: seq<OperationReplay>): seq<Record> {
    if replays == [] then []
    else
      var last := replays[|replays| - 1];
      Retained(replays[..|replays| - 1]) + (if last.terminal then [] else last.records)
  }

  function RemovedCount(replays: seq<OperationReplay>): nat {
    if replays == [] then 0
    else
      var last := replays[|replays| - 1];
      RemovedCount(replays[..|replays| - 1]) + (if last.terminal then |last.records| else 0)
  }

  function CleanedUp(records: seq<Record>): seq<Record> {
    Retained(ReplayOf(records))
  }

  // ---------------------------------------------------------------- the files of a cleanup

  /** The journal file, absent until the first append or cleanup, and the temporary file. */
  datatype Disk = Disk(file: Option<seq<Record>>, temp: Option<seq<Record>>) {
    function Contents(): seq<Record> {
      file.GetOr([])
    }
  }

  /** What `rewrite_records` asks of the file system, one call at a time. */
  datatype FileOp = TruncateTemp | WriteRecord(record: Record) | RenameTemp

  function Exec(d: Disk, op: FileOp): Disk {
    match op
    case TruncateTemp => d.(temp := Some([]))
    case WriteRecord(r) => d.(temp := Some(d.temp.GetOr([]) + [r]))
    case RenameTemp => if d.temp.None? then d else Disk(d.temp, None)
  }

  function ExecAll(d: Disk, ops: seq<FileOp>): Disk {
    if ops == [] then d else Exec(ExecAll(d, ops[..|ops| - 1]), ops[|ops| - 1])
  }

  function RewriteOps(records: seq<Record>): (ops: seq<FileOp>)
    ensures |ops| == |records| + 2 && ops[0] == TruncateTemp && ops[|records| + 1] == RenameTemp
    ensures forall i :: 0 <= i < |records| ==> ops[i + 1] == WriteRecord(records[i])
  {
    [TruncateTemp] + seq(|records|, i requires 0 <= i < |records| => WriteRecord(records[i])) + [RenameTemp]
  }

  /** The operations a process carries out that dies after so many of them. */
  function Within(ops: seq<FileOp>, budget: nat): seq<FileOp> {
    if budget < |ops| then ops[..budget] else ops
  }

  lemma ExecOneMore(d: Disk, ops: seq<FileOp>, k: nat)
    requires k < |ops|
    ensures ExecAll(d, ops[..k + 1]) == Exec(ExecAll(d, ops[..k]), ops[k])
  {
    assert ops[..k + 1][..k] == ops[..k];
  }

  class Journal {
    /** The journal file, absent until the first append or cleanup. */
    var file: Option<seq<Record>>
    /** The temporary file of a cleanup. */
    var temp: Option<seq<Record>>
    var fault: Option<FaultPoint>

    ghost function Contents(): seq<Record>
      reads this
    {
      file.GetOr([])
    }

    ghost function OnDisk(): Disk
      reads this
    {
      Disk(file, temp)
    }

    constructor ()
      ensures file == None && temp == None && fault == None
    {
      file, temp, fault := None, None, None;
    }

    method SetFaultInjection(point: Option<FaultPoint>)
      modifies this`fault
      ensures fault == point
    {
      fault := point;
    }

    method Records() returns (records: seq<Record>)
      ensures records == SortBySequence(Contents())
    {
      if file.None? {
        return [];
      }
      var lines := file.value;
      records := [];
      var i := 0;
      while i < |lines|
        invariant 0 <= i <= |lines|
        invariant records == lines[..i]
      {
        records := records + [lines[i]];
        i := i + 1;
      }
      assert lines[..i] == lines;
      records := SortBySequence(records);
    }

    method NextSequenceNumber() returns (next: u64)
      ensures next == NextSequence(Contents())
    {
      var records := Records();
      if records == [] {
        return 1;
      }
      return SaturatingAdd(records[|records| - 1].sequence, 1);
    }

    /** A fault after the write reports an error although the record is in the file. */
    method AppendRecord(input: Input, now: u64) returns (appended: Option<Record>)
      modifies this`file
      ensures fault == Some(BeforeAppend) ==> appended == None && file == old(file)
      ensures fault != Some(BeforeAppend) ==>
                var record := Record(NextSequence(old(Contents())), input, now);
                && file == Some(old(Contents()) + [record])
                && appended == (if fault == Some(AfterRecordWrite) then None else Some(record))
    {
      if fault == Some(BeforeAppend) {
        return None;
      }
      var sequence := NextSequenceNumber();
      var record := Record(sequence, input, now);
      file := Some(file.GetOr([]) + [record]);
      if fault == Some(AfterRecordWrite) {
        return None;
      }
      return Some(record);
    }

    /** The first loop of `replay`: the records of each operation, in reading order. */
    method GroupByOperation(records: seq<Record>) returns (byOperation: map<string, seq<Record>>)
      ensures byOperation.Keys == Operations(records)
      ensures forall op :: op in byOperation ==> byOperation[op] == Own(records, op)
    {
      byOperation := map[];
      var i := 0;
      while i < |records|
        invariant 0 <= i <= |records|
        invariant byOperation.Keys == Operations(records[..i])
        invariant forall op :: op in byOperation ==> byOperation[op] == Own(records[..i], op)
      {
        var record := records[i];
        var op := record.Operation();
        GroupStep(records, i);
        byOperation := byOperation[op := (if op in byOperation then byOperation[op] else []) + [record]];
        i := i + 1;
      }
      assert records[..i] == records;
    }

    method Replay() returns (operations: seq<OperationReplay>)
      ensures operations == ReplayOf(Contents())
    {
      var records := Records();
      var byOperation := GroupByOperation(records);
      SortKeepsOperations(Contents());
      var keys := SortedKeys(byOperation.Keys);
      assert byOperation.Keys == Operations(Contents());
      assert records == SortBySequence(Contents());
      operations := ReplayGroups(records, byOperation, keys);
      ReplayUnfolds(Contents(), records, keys);
    }

    /** The groups in key order, each sorted by sequence number. */
    method ReplayGroups(ghost records: seq<Record>, byOperation: map<string, seq<Record>>, keys: seq<string>)
      returns (operations: seq<OperationReplay>)
      requires forall k :: 0 <= k < |keys| ==> keys[k] in byOperation && byOperation[keys[k]] == Own(records, keys[k])
      ensures operations == ReplaysOf(records, keys)
    {
      operations := [];
      var k := 0;
      while k < |keys|
        invariant 0 <= k <= |keys|
        invariant operations == ReplaysOf(records, keys[..k])
      {
        assert keys[..k + 1][..k] == keys[..k];
        var sorted := SortBySequence(byOperation[keys[k]]);
        operations := operations + [Replayed(keys[k], sorted)];
        k := k + 1;
      }
      assert keys[..k] == keys;
    }

    /** The process dies after `budget` file operations; without a crash there are enough of them. */
    method CleanupCompleted(budget: nat) returns (removed: Option<nat>)
      modifies this`file, this`temp
      ensures OnDisk() == ExecAll(old(OnDisk()), Within(RewriteOps(CleanedUp(old(Contents()))), budget))
      ensures removed == if budget >= |CleanedUp(old(Contents()))| + 2
                         then Some(RemovedCount(ReplayOf(old(Contents())))) else None
      ensures removed.Some? ==> file == Some(CleanedUp(old(Contents()))) && temp == None
      ensures removed.None? ==> file == old(file)
    {
      var replay := Replay();
      var retained, count := Retain(replay);
      var finished := RewriteRecords(retained, budget);
      return if finished then Some(count) else None;
    }

    /** The loop over the replayed operations. */
    method Retain(replay: seq<OperationReplay>) returns (retained: seq<Record>, removed: nat)
      ensures retained == Retained(replay) && removed == RemovedCount(replay)
    {
      retained, removed := [], 0;
      var i := 0;
      while i < |replay|
        invariant 0 <= i <= |replay|
        invariant retained == Retained(replay[..i])
        invariant removed == RemovedCount(replay[..i])
      {
        assert replay[..i + 1][..i] == replay[..i];
        if replay[i].terminal {
          removed := removed + |replay[i].records|;
        } else {
          retained := retained + replay[i].records;
        }
        i := i + 1;
      }
      assert replay[..i] == replay;
    }

    /** One call of the file system. */
    method Perform(op: FileOp)
      modifies this`file, this`temp
      ensures OnDisk() == Exec(old(OnDisk()), op)
    {
      match op
      case TruncateTemp => temp := Some([]);
      case WriteRecord(r) => temp := Some(temp.GetOr([]) + [r]);
      case RenameTemp =>
        if temp.Some? {
          file, temp := temp, None;
        }
    }

    /** Writes the temporary file record by record, then renames it over the journal. */
    method RewriteRecords(records: seq<Record>, budget: nat) returns (finished: bool)
      modifies this`file, this`temp
      ensures OnDisk() == ExecAll(old(OnDisk()), Within(RewriteOps(records), budget))
      ensures finished <==> budget >= |records| + 2
      ensures finished ==> file == Some(records) && temp == None
      ensures !finished ==> file == old(file)
    {
      ghost var ops := RewriteOps(records);
      if budget == 0 {
        assert ops[..0] == [];
        return false;
      }
      ExecOneMore(OnDisk(), ops, 0);
      Perform(TruncateTemp);
      var i := 0;
      while i < |records|
        invariant 0 <= i <= |records| && i + 1 <= budget
        invariant temp == Some(records[..i]) && file == old(file)
        invariant OnDisk() == ExecAll(old(OnDisk()), ops[..i + 1])
      {
        if budget <= i + 1 {
          return false;
        }
        assert records[..i + 1] == records[..i] + [records[i]];
        ExecOneMore(old(OnDisk()), ops, i + 1);
        Perform(WriteRecord(records[i]));
        i := i + 1;
      }
      assert records[..i] == records;
      if budget <= i + 1 {
        return false;
      }
      ExecOneMore(old(OnDisk()), ops, i + 1);
      Perform(RenameTemp);
      assert ops[..i + 2] == ops;
      return true;
    }
  }

  lemma ReplayUnfolds(contents: seq<Record>, read: seq<Record>, keys: seq<string>)
    requires read == SortBySequence(contents) && keys == SortedKeys(Operations(contents))
    ensures ReplaysOf(read, keys) == ReplayOf(contents)
  {
  }

  lemma GroupStep(records: seq<Record>, i: nat)
    requires i < |records|
    ensures Operations(records[..i + 1]) == Operations(records[..i]) + {records[i].Operation()}
    ensures forall op :: Own(records[..i + 1], op)
                         == Own(records[..i], op) + (if records[i].Operation() == op then [records[i]] else [])
    ensures records[i].Operation() !in Operations(records[..i]) ==> Own(records[..i], records[i].Operation()) == []
  {
    assert records[..i + 1] == records[..i] + [records[i]];
    assert records[..i + 1][..i] == records[..i];
    OwnOperations(records[..i], records[i].Operation());
    if Own(records[..i], records[i].Operation()) != [] {
      assert Own(records[..i], records[i].Operation())[0] in records[..i];
    }
  }

  lemma SortKeepsOperations(records: seq<Record>)
    ensures Operations(SortBySequence(records)) == Operations(records)
  {
    SortAscending(records);
    forall r ensures r in SortBySequence(records) <==> r in records {
      assert r in multiset(records) <==> r in multiset(SortBySequence(records));
    }
  }
}
