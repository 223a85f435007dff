/**
 The background checkpoint manager and its pipeline with the debouncer: a change marks the
 workspace dirty and is observed; a drain or flush takes the pending paths and the outcome of
 the checkpoint is recorded before the next change.
 */
module Protection {
  import opened Common
  import opened Order
  import D = Debounce
  import opened DebounceHistory

  datatype CheckpointState = CheckpointState(
    dirty: bool,
    lastObserved: Option<u64>,
    lastCheckpoint: Option<u64>,
    snapshotId: Option<string>,
    stateHash: Option<string>,
    failures: u32)

  const CLEAN: CheckpointState := CheckpointState(false, None, None, None, None, 0)

  datatype Status = DirtyStatus | ProtectedStatus | UnchangedStatus | FailedStatus

  datatype StatusEvent = StatusEvent(
    workspaceId: string, status: Status, generation: u64, failures: u32, userVisible: bool)

  /** What reading Git and storing the snapshot came to. */
  datatype Outcome =
    | Created(snapshotId: string, stateHash: string)
    | Unchanged(snapshotId: string, stateHash: string)
    | Failed

  function Marked(s: CheckpointState, generation: u64): CheckpointState {
    s.(dirty := true, lastObserved := Some(Max(s.lastObserved.GetOr(0), generation)))
  }

  /** `record_success`: the generation is stored as it is, and dirty is cleared whatever was observed. */
  function Succeeded(s: CheckpointState, generation: u64, snapshotId: string, stateHash: string): CheckpointState {
    s.(dirty := false,
       lastObserved := Some(Max(s.lastObserved.GetOr(0), generation)),
       lastCheckpoint := Some(generation),
       snapshotId := Some(snapshotId),
       stateHash := Some(stateHash),
       failures := 0)
  }

  function FailedOnce(s: CheckpointState, generation: u64): CheckpointState {
    s.(dirty := true,
       lastObserved := Some(Max(s.lastObserved.GetOr(0), generation)),
       failures := if s.failures < U32_MAX then s.failures + 1 else U32_MAX)
  }

  function Recorded(s: CheckpointState, generation: u64, outcome: Outcome): CheckpointState {
    match outcome
    case Created(id, hash) => Succeeded(s, generation, id, hash)
    case Unchanged(id, hash) => Succeeded(s, generation, id, hash)
    case Failed => FailedOnce(s, generation)
  }

  type States = map<string, CheckpointState>

  function Lookup(m: States, w: string): CheckpointState {
    if w in m then m[w] else CLEAN
  }

  class BackgroundCheckpointManager {
    const threshold: u32
    var workspaces: States

    constructor (threshold: u32)
      ensures this.threshold == (if threshold < 1 then 1 else threshold) && workspaces == map[]
    {
      this.threshold := if threshold < 1 then 1 else threshold;
      workspaces := map[];
    }

    method MarkDirty(w: string, generation: u64) returns (event: StatusEvent)
      modifies this
      ensures workspaces == old(workspaces)[w := Marked(Lookup(old(workspaces), w), generation)]
      ensures event == StatusEvent(w, DirtyStatus, generation, Lookup(old(workspaces), w).failures, false)
    {
      var state := if w in workspaces then workspaces[w] else CLEAN;
      state := state.(dirty := true);
      var observed := state.lastObserved.GetOr(0);
      state := state.(lastObserved := Some(if observed < generation then generation else observed));
      workspaces := workspaces[w := state];
      return StatusEvent(w, DirtyStatus, generation, state.failures, false);
    }

    /** A checkpoint for another workspace fails before anything is read. */
    method HandleCheckpoint(w: string, checkpoint: D.Checkpoint, inner: Outcome) returns (event: StatusEvent)
      modifies this
      ensures var outcome := if checkpoint.workspaceId != w then Failed else inner;
              var after := Recorded(Lookup(old(workspaces), w), checkpoint.generation, outcome);
              && workspaces == old(workspaces)[w := after]
              && event == StatusEvent(w,
                                      match outcome {
                                        case Created(_, _) => ProtectedStatus
                                        case Unchanged(_, _) => UnchangedStatus
                                        case Failed => FailedStatus
                                      },
                                      checkpoint.generation, after.failures,
                                      outcome.Failed? && after.failures >= threshold)
    {
      var outcome := inner;
      if checkpoint.workspaceId != w {
        outcome := Failed;
      }
      match outcome
      case Created(id, hash) =>
        RecordSuccess(w, checkpoint.generation, id, hash);
        return StatusEvent(w, ProtectedStatus, checkpoint.generation, 0, false);
      case Unchanged(id, hash) =>
        RecordSuccess(w, checkpoint.generation, id, hash);
        return StatusEvent(w, UnchangedStatus, checkpoint.generation, 0, false);
      case Failed =>
        var failures := RecordFailure(w, checkpoint.generation);
        return StatusEvent(w, FailedStatus, checkpoint.generation, failures, failures >= threshold);
    }

    method RecordSuccess(w: string, generation: u64, snapshotId: string, stateHash: string)
      modifies this
      ensures workspaces
              == old(workspaces)[w := Succeeded(Lookup(old(workspaces), w), generation, snapshotId, stateHash)]
    {
      var state := if w in workspaces then workspaces[w] else CLEAN;
      state := state.(dirty := false);
      var observed := state.lastObserved.GetOr(0);
      state := state.(lastObserved := Some(if observed < generation then generation else observed));
      state := state.(lastCheckpoint := Some(generation));
      state := state.(snapshotId := Some(snapshotId));
      state := state.(stateHash := Some(stateHash));
      state := state.(failures := 0);
      workspaces := workspaces[w := state];
    }

    method RecordFailure(w: string, generation: u64) returns (failures: u32)
      modifies this
      ensures workspaces == old(workspaces)[w := FailedOnce(Lookup(old(workspaces), w), generation)]
      ensures failures == FailedOnce(Lookup(old(workspaces), w), generation).failures
    {
      var state := if w in workspaces then workspaces[w] else CLEAN;
      state := state.(dirty := true);
      var observed := state.lastObserved.GetOr(0);
      state := state.(lastObserved := Some(if observed < generation then generation else observed));
      failures := if state.failures < U32_MAX then state.failures + 1 else U32_MAX;
      state := state.(failures := failures);
      workspaces := workspaces[w := state];
    }
  }

  // ---------------------------------------------------------------- the pipeline of one workspace

  /** An observed change, or a drain or flush whose checkpoint, if one is taken, has an outcome. */
  datatype Action = Action(step: D.Step, outcome: Outcome)

  function Steps(actions: seq<Action>): seq<D.Step> {
    seq(|actions|, i requires 0 <= i < |actions| => actions[i].step)
  }

  predicate Takes(policy: D.Policy, actions: seq<Action>, n: nat)
    requires n < |actions|
  {
    Checkpoints(policy, Steps(actions), n)
  }

  /** The manager's state before action n. */
  function Managed(policy: D.Policy, actions: seq<Action>, n: nat): CheckpointState
    requires n <= |actions|
  {
    if n == 0 then CLEAN
    else
      var before, a := Managed(policy, actions, n - 1), actions[n - 1];
      if a.step.Observe? then Marked(before, a.step.generation)
      else if Takes(policy, actions, n - 1)
      then Recorded(before, State(policy, Steps(actions), n - 1).generation, a.outcome)
      else before
  }

  predicate IsSuccess(policy: D.Policy, actions: seq<Action>, i: int) {
    0 <= i < |actions| && Takes(policy, actions, i) && !actions[i].outcome.Failed?
  }

  predicate IsFailure(policy: D.Policy, actions: seq<Action>, i: int) {
    0 <= i < |actions| && Takes(policy, actions, i) && actions[i].outcome.Failed?
  }

  predicate IsNotice(actions: seq<Action>, i: int) {
    0 <= i < |actions| && actions[i].step.Observe?
  }

  function LastSuccess(policy: D.Policy, actions: seq<Action>, n: nat): (j: int)
    requires n <= |actions|
    ensures -1 <= j < n
    ensures j >= 0 ==> IsSuccess(policy, actions, j)
    ensures forall k :: j < k < n ==> !IsSuccess(policy, actions, k)
  {
    if n == 0 then -1
    else if IsSuccess(policy, actions, n - 1) then n - 1
    else LastSuccess(policy, actions, n - 1)
  }

  /** Failed checkpoints in [a, b). */
  function Failures(policy: D.Policy, actions: seq<Action>, a: nat, b: nat): nat
    requires a <= b <= |actions|
  {
    if a == b then 0
    else Failures(policy, actions, a, b - 1) + (if IsFailure(policy, actions, b - 1) then 1 else 0)
  }

  /** Something happened after the last success: a change was noticed or a checkpoint failed. */
  ghost predicate Unsettled(policy: D.Policy, actions: seq<Action>, n: nat)
    requires n <= |actions|
  {
    exists i :: LastSuccess(policy, actions, n) < i < n
                && (IsNotice(actions, i) || IsFailure(policy, actions, i))
  }

  lemma OnlyChangesObserve(policy: D.Policy, actions: seq<Action>, n: nat)
    requires n < |actions| && Takes(policy, actions, n)
    ensures !actions[n].step.Observe?
  {
  }

  ghost predicate PipelineOk(policy: D.Policy, actions: seq<Action>, n: nat)
    requires n <= |actions|
  {
    var m, j := Managed(policy, actions, n), LastSuccess(policy, actions, n);
    && (m.dirty <==> Unsettled(policy, actions, n))
    && m.failures == (var f := Failures(policy, actions, j + 1, n); if f < U32_MAX then f else U32_MAX)
    && m.lastCheckpoint == (if j < 0 then None else Some(MaxGeneration(Steps(actions), j)))
  }

  lemma UnsettledStep(policy: D.Policy, actions: seq<Action>, n: nat)
    requires n < |actions|
    ensures Unsettled(policy, actions, n + 1)
            <==> (if IsSuccess(policy, actions, n) then false
                  else Unsettled(policy, actions, n) || IsNotice(actions, n) || IsFailure(policy, actions, n))
  {
    if !IsSuccess(policy, actions, n) && (IsNotice(actions, n) || IsFailure(policy, actions, n)) {
      assert LastSuccess(policy, actions, n + 1) < n < n + 1;
    }
  }

  lemma ObservedGeneration(policy: D.Policy, steps: seq<D.Step>, n: nat)
    requires Clocked(steps) && n <= |steps|
    ensures State(policy, steps, n).generation == MaxGeneration(steps, n)
  {
    CheckpointHistory(policy, steps, n);
  }

  lemma PipelineStep(policy: D.Policy, actions: seq<Action>, n: nat)
    requires n < |actions| && PipelineOk(policy, actions, n)
    requires State(policy, Steps(actions), n).generation == MaxGeneration(Steps(actions), n)
    ensures PipelineOk(policy, actions, n + 1)
  {
    UnsettledStep(policy, actions, n);
    if Takes(policy, actions, n) {
      OnlyChangesObserve(policy, actions, n);
      if actions[n].outcome.Failed? {
        assert IsFailure(policy, actions, n);
      }
    }
  }

  lemma {:induction false} PipelineHistory(policy: D.Policy, actions: seq<Action>, n: nat)
    requires Clocked(Steps(actions)) && n <= |actions|
    ensures PipelineOk(policy, actions, n)
  {
    if n > 0 {
      PipelineHistory(policy, actions, n - 1);
      ObservedGeneration(policy, Steps(actions), n - 1);
      PipelineStep(policy, actions, n - 1);
    }
  }

  /**
   Over every run: the manager says dirty exactly when, since its last success, a change was
   noticed or a checkpoint failed; its failure counter is the saturated number of failures since
   then; its checkpoint generation is the largest one pending paths were observed with.
   */
  lemma PipelineStatus(policy: D.Policy, actions: seq<Action>, n: nat)
    requires Clocked(Steps(actions)) && n <= |actions|
    ensures var m, j := Managed(policy, actions, n), LastSuccess(policy, actions, n);
            && (m.dirty <==> exists i :: j < i < n && (IsNotice(actions, i) || IsFailure(policy, actions, i)))
            && m.failures == (var f := Failures(policy, actions, j + 1, n); if f < U32_MAX then f else U32_MAX)
            && m.lastCheckpoint == (if j < 0 then None else Some(MaxGeneration(Steps(actions), j)))
  {
    PipelineHistory(policy, actions, n);
  }

  lemma {:induction false} GenerationStays(steps: seq<D.Step>, a: nat, b: nat)
    requires a <= b <= |steps| && forall i :: a <= i < b ==> !IsChange(steps, i)
    ensures MaxGeneration(steps, b) == MaxGeneration(steps, a)
  {
    if a < b {
      GenerationStays(steps, a, b - 1);
    }
  }

  /** Not dirty means covered: the last checkpoint has the largest generation any pending path
      was ever observed with. */
  lemma NotDirtyMeansCovered(policy: D.Policy, actions: seq<Action>, n: nat)
    requires Clocked(Steps(actions)) && n <= |actions| && !Managed(policy, actions, n).dirty
    ensures var covered := Managed(policy, actions, n).lastCheckpoint;
            if covered.None? then forall i :: 0 <= i < n ==> !IsNotice(actions, i)
            else covered.value == MaxGeneration(Steps(actions), n)
  {
    PipelineHistory(policy, actions, n);
    var j := LastSuccess(policy, actions, n);
    if j >= 0 {
      forall i | j <= i < n ensures !IsChange(Steps(actions), i) {
        assert !IsNotice(actions, i);
      }
      GenerationStays(Steps(actions), j, n);
    }
  }

  /** A failed checkpoint is not tried again on its own: until the next change the workspace
      stays dirty and no drain or flush takes anything. */
  lemma {:induction false} FailureWaitsForChange(policy: D.Policy, actions: seq<Action>, f: nat, n: nat)
    requires Clocked(Steps(actions)) && f < n <= |actions| && IsFailure(policy, actions, f)
    requires forall i :: f < i < n ==> !IsNotice(actions, i)
    ensures State(policy, Steps(actions), n).pending == {}
    ensures Managed(policy, actions, n).dirty
    ensures n < |actions| ==> !Takes(policy, actions, n)
  {
    DirtyStep(policy, State(policy, Steps(actions), n - 1), Steps(actions)[n - 1]);
    if n > f + 1 {
      FailureWaitsForChange(policy, actions, f, n - 1);
      assert !IsNotice(actions, n - 1);
    }
  }

  /** A failure is shown to the user exactly when the failures since the last success, counting
      this one, reach the threshold. */
  lemma FailureVisibleExactlyAtThreshold(policy: D.Policy, actions: seq<Action>, n: nat, threshold: u32)
    requires Clocked(Steps(actions)) && n < |actions| && IsFailure(policy, actions, n) && threshold >= 1
    ensures Managed(policy, actions, n + 1).failures >= threshold
            <==> Failures(policy, actions, LastSuccess(policy, actions, n) + 1, n + 1) >= threshold
  {
    PipelineHistory(policy, actions, n);
    PipelineHistory(policy, actions, n + 1);
  }

  // ---------------------------------------------------------------- changes without paths

  /** A change without paths marks the workspace but is not observed, so its generation is never
      covered: after this run the manager is clean at generation 3 although 5 was noticed. */
  lemma EmptyChangeIsNotCovered(policy: D.Policy, p: Path)
    ensures var actions := [Action(D.Observe(5, [], 0), Failed),
                            Action(D.Observe(3, [p], 0), Failed),
                            Action(D.Flush(D.ExplicitCheckpoint, 0), Created("s", "h"))];
            var m := Managed(policy, actions, 3);
            !m.dirty && m.lastObserved == Some(5) && m.lastCheckpoint == Some(3)
  {
    var actions := [Action(D.Observe(5, [], 0), Failed),
                    Action(D.Observe(3, [p], 0), Failed),
                    Action(D.Flush(D.ExplicitCheckpoint, 0), Created("s", "h"))];
    var steps := Steps(actions);
    assert State(policy, steps, 1) == D.FRESH;
    assert p in State(policy, steps, 2).pending && State(policy, steps, 2).generation == 3;
    assert Managed(policy, actions, 1) == Marked(CLEAN, 5);
    assert Managed(policy, actions, 2) == Marked(Marked(CLEAN, 5), 3);
    assert Takes(policy, actions, 2);
  }

  /** The largest generation of all changes, with or without paths. */
  function MaxNoticed(actions: seq<Action>, n: nat): u64
    requires n <= |actions|
  {
    if n == 0 then 0
    else if IsNotice(actions, n - 1) then Max(MaxNoticed(actions, n - 1), actions[n - 1].step.generation)
    else MaxNoticed(actions, n - 1)
  }

  lemma {:induction false} ChangesAreNoticed(actions: seq<Action>, n: nat)
    requires n <= |actions|
    ensures MaxGeneration(Steps(actions), n) <= MaxNoticed(actions, n)
  {
    if n > 0 {
      ChangesAreNoticed(actions, n - 1);
    }
  }

  lemma NoticedStep(before: CheckpointState, a: Action, generation: u64)
    ensures a.step.Observe? ==>
              Marked(before, a.step.generation).lastObserved.GetOr(0)
              == Max(before.lastObserved.GetOr(0), a.step.generation)
    ensures generation <= before.lastObserved.GetOr(0) ==>
              Recorded(before, generation, a.outcome).lastObserved.GetOr(0) == before.lastObserved.GetOr(0)
  {
  }

  lemma NoticedNext(policy: D.Policy, actions: seq<Action>, n: nat)
    requires n < |actions| && Managed(policy, actions, n).lastObserved.GetOr(0) == MaxNoticed(actions, n)
    requires State(policy, Steps(actions), n).generation <= MaxNoticed(actions, n)
    ensures Managed(policy, actions, n + 1).lastObserved.GetOr(0) == MaxNoticed(actions, n + 1)
  {
    NoticedStep(Managed(policy, actions, n), actions[n], State(policy, Steps(actions), n).generation);
  }

  lemma {:induction false} NoticedGeneration(policy: D.Policy, actions: seq<Action>, n: nat)
    requires Clocked(Steps(actions)) && n <= |actions|
    ensures Managed(policy, actions, n).lastObserved.GetOr(0) == MaxNoticed(actions, n)
  {
    if n > 0 {
      NoticedGeneration(policy, actions, n - 1);
      ObservedGeneration(policy, Steps(actions), n - 1);
      ChangesAreNoticed(actions, n - 1);
      NoticedNext(policy, actions, n - 1);
    }
  }

  /** So a clean workspace has covered everything it noticed exactly when no change without paths
      carried a larger generation; the watcher never emits such a change. */
  lemma CleanCoversEverythingExactly(policy: D.Policy, actions: seq<Action>, n: nat)
    requires Clocked(Steps(actions)) && n <= |actions| && !Managed(policy, actions, n).dirty
    requires Managed(policy, actions, n).lastCheckpoint.Some?
    ensures Managed(policy, actions, n).lastCheckpoint == Managed(policy, actions, n).lastObserved
            <==> forall i :: 0 <= i < n && IsNotice(actions, i) && actions[i].step.paths == [] ==>
                               actions[i].step.generation <= MaxGeneration(Steps(actions), n)
  {
    NotDirtyMeansCovered(policy, actions, n);
    NoticedGeneration(policy, actions, n);
    ChangesAreNoticed(actions, n);
    ObservedIsSome(policy, actions, n);
    NoticedSplit(actions, n);
  }

  lemma {:induction false} ObservedIsSome(policy: D.Policy, actions: seq<Action>, n: nat)
    requires n <= |actions|
    ensures Managed(policy, actions, n).lastCheckpoint.Some? ==> Managed(policy, actions, n).lastObserved.Some?
  {
    if n > 0 {
      ObservedIsSome(policy, actions, n - 1);
    }
  }

  lemma {:induction false} NoticedSplit(actions: seq<Action>, n: nat)
    requires n <= |actions|
    ensures forall i :: 0 <= i < n && IsNotice(actions, i) ==> actions[i].step.generation <= MaxNoticed(actions, n)
    ensures MaxNoticed(actions, n) == 0
            || exists i :: 0 <= i < n && IsNotice(actions, i) && actions[i].step.generation == MaxNoticed(actions, n)
    ensures forall i :: 0 <= i < n && IsNotice(actions, i) && actions[i].step.paths != [] ==>
                          IsChange(Steps(actions), i)
  {
    if n > 0 {
      NoticedSplit(actions, n - 1);
    }
  }
}
