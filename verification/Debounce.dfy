/**
 The adaptive debouncer: per workspace, the paths waiting for a checkpoint and the checkpoint
 generation waiting to be published, with the clock readings that decide when each is due.
 The class runs the code's loops; the value functions say what one workspace does.
 */
module Debounce {
  import opened Common
  import opened Order

  datatype Policy = Policy(
    firstEventQuiet: nat,
    minCheckpointInterval: nat,
    maxDirtyInterval: nat,
    publishQuiet: nat,
    maxPublishInterval: nat)

  datatype Reason =
    | QuietWindow | MaxDirtyInterval | PublishQuietWindow | MaxPublishInterval
    | ExplicitCheckpoint | Handoff | SleepOrLock

  datatype Checkpoint = Checkpoint(workspaceId: string, generation: u64, reason: Reason, paths: seq<Path>)

  datatype Publish = Publish(workspaceId: string, generation: u64, reason: Reason)

  datatype DrainResult = DrainResult(checkpoints: seq<Checkpoint>, publishes: seq<Publish>)

  datatype Workspace = Workspace(
    pending: set<Path>,
    generation: u64,
    firstDirty: Option<nat>,
    lastDirty: Option<nat>,
    lastCheckpoint: Option<nat>,
    publishGeneration: Option<u64>,
    firstUnpublished: Option<nat>,
    lastUnpublished: Option<nat>,
    lastPublish: Option<nat>)

  const FRESH: Workspace := Workspace({}, 0, None, None, None, None, None, None, None)

  /** `now.checked_sub(then).unwrap_or_default()`. */
  function Elapsed(now: nat, earlier: nat): nat {
    if earlier <= now then now - earlier else 0
  }

  // ---------------------------------------------------------------- one workspace

  function Observed(ws: Workspace, generation: u64, paths: seq<Path>, now: nat): Workspace {
    if paths == [] then ws
    else ws.(firstDirty := if ws.firstDirty.None? then Some(now) else ws.firstDirty,
             lastDirty := Some(now),
             generation := if ws.generation < generation then generation else ws.generation,
             pending := ws.pending + (set p | p in paths))
  }

  function Completed(ws: Workspace, generation: u64, now: nat): Workspace {
    ws.(firstUnpublished := if ws.firstUnpublished.None? then Some(now) else ws.firstUnpublished,
        lastUnpublished := Some(now),
        publishGeneration := Some(if ws.publishGeneration.GetOr(0) < generation then generation
                                  else ws.publishGeneration.GetOr(0)))
  }

  /** Why a checkpoint is due now, if it is. */
  function CheckpointDue(policy: Policy, ws: Workspace, now: nat): Option<Reason> {
    if ws.pending == {} || ws.firstDirty.None? then None
    else
      var first := ws.firstDirty.value;
      var last := ws.lastDirty.GetOr(first);
      var minIntervalSatisfied :=
        ws.lastCheckpoint.None? || Elapsed(now, ws.lastCheckpoint.value) >= policy.minCheckpointInterval;
      if Elapsed(now, first) >= policy.maxDirtyInterval then Some(MaxDirtyInterval)
      else if Elapsed(now, last) >= policy.firstEventQuiet && minIntervalSatisfied then Some(QuietWindow)
      else None
  }

  function PublishDue(policy: Policy, ws: Workspace, now: nat): Option<Reason> {
    if ws.publishGeneration.None? || ws.firstUnpublished.None? then None
    else
      var first := ws.firstUnpublished.value;
      var last := ws.lastUnpublished.GetOr(first);
      if Elapsed(now, first) >= policy.maxPublishInterval then Some(MaxPublishInterval)
      else if Elapsed(now, last) >= policy.publishQuiet then Some(PublishQuietWindow)
      else None
  }

  /** The workspace after a checkpoint is taken for a reason, or left alone without one. */
  function TakenCheckpoint(ws: Workspace, reason: Option<Reason>, now: nat): Workspace {
    if reason.None? then ws
    else ws.(pending := {}, firstDirty := None, lastDirty := None, lastCheckpoint := Some(now))
  }

  function TakenPublish(ws: Workspace, reason: Option<Reason>, now: nat): Workspace {
    if reason.None? then ws
    else ws.(publishGeneration := None, firstUnpublished := None, lastUnpublished := None, lastPublish := Some(now))
  }

  function CheckpointFor(w: string, ws: Workspace, reason: Option<Reason>): Option<Checkpoint> {
    if reason.None? then None else Some(Checkpoint(w, ws.generation, reason.value, Paths(ws.pending)))
  }

  function PublishFor(w: string, ws: Workspace, reason: Option<Reason>): Option<Publish> {
    if reason.None? then None else Some(Publish(w, ws.publishGeneration.GetOr(0), reason.value))
  }

  /** A step of one workspace. `Drain` takes what is due, `Flush` takes everything. */
  datatype Step =
    | Observe(generation: u64, paths: seq<Path>, now: nat)
    | Complete(generation: u64, now: nat)
    | Drain(now: nat)
    | Flush(reason: Reason, now: nat)

  /** Why the step takes a checkpoint, if it does. */
  function TakesCheckpoint(policy: Policy, ws: Workspace, step: Step): Option<Reason> {
    match step
    case Drain(now) => CheckpointDue(policy, ws, now)
    case Flush(reason, _) => if ws.pending == {} then None else Some(reason)
    case _ => None
  }

  function TakesPublish(policy: Policy, ws: Workspace, step: Step): Option<Reason> {
    match step
    case Drain(now) => PublishDue(policy, ws, now)
    case Flush(reason, _) => if ws.publishGeneration.None? then None else Some(reason)
    case _ => None
  }

  function Next(policy: Policy, ws: Workspace, step: Step): Workspace {
    match step
    case Observe(generation, paths, now) => Observed(ws, generation, paths, now)
    case Complete(generation, now) => Completed(ws, generation, now)
    case _ => TakenPublish(TakenCheckpoint(ws, TakesCheckpoint(policy, ws, step), step.now),
                           TakesPublish(policy, ws, step), step.now)
  }

  function Paths(S: set<Path>): (s: seq<Path>)
    ensures |s| == |S| && forall p :: p in s <==> p in S
  {
    PathOrder();
    Listing(PATH_LESS, S)
  }

  function AsList<T>(o: Option<T>): seq<T> {
    if o.None? then [] else [o.value]
  }

  /** The checkpoint a step takes from a workspace, as a list of at most one. */
  function CheckpointOf(policy: Policy, w: string, ws: Workspace, step: Step): seq<Checkpoint> {
    AsList(CheckpointFor(w, ws, TakesCheckpoint(policy, ws, step)))
  }

  function PublishOf(policy: Policy, w: string, ws: Workspace, step: Step): seq<Publish> {
    AsList(PublishFor(w, ws, TakesPublish(policy, ws, step)))
  }

  // ---------------------------------------------------------------- all workspaces

  type Workspaces = map<string, Workspace>

  function Lookup(m: Workspaces, w: string): Workspace {
    if w in m then m[w] else FRESH
  }

  /** The checkpoints a drain or flush step takes, workspace by workspace in the given order. */
  function CheckpointsOf(policy: Policy, m: Workspaces, keys: seq<string>, step: Step): seq<Checkpoint> {
    if keys == [] then []
    else
      CheckpointsOf(policy, m, keys[..|keys| - 1], step)
      + CheckpointOf(policy, keys[|keys| - 1], Lookup(m, keys[|keys| - 1]), step)
  }

  function PublishesOf(policy: Policy, m: Workspaces, keys: seq<string>, step: Step): seq<Publish> {
    if keys == [] then []
    else
      PublishesOf(policy, m, keys[..|keys| - 1], step)
      + PublishOf(policy, keys[|keys| - 1], Lookup(m, keys[|keys| - 1]), step)
  }

  /** A drain or flush of every workspace. */
  function AllNext(policy: Policy, m: Workspaces, step: Step): Workspaces {
    map w | w in m :: Next(policy, m[w], step)
  }

  function AllTaken(policy: Policy, m: Workspaces, step: Step): DrainResult {
    DrainResult(CheckpointsOf(policy, m, SortedKeys(m.Keys), step), PublishesOf(policy, m, SortedKeys(m.Keys), step))
  }

  class AdaptiveDebouncer {
    const policy: Policy
    var workspaces: Workspaces

    constructor (policy: Policy)
      ensures this.policy == policy && workspaces == map[]
    {
      this.policy := policy;
      workspaces := map[];
    }

    method ObserveChange(w: string, generation: u64, paths: seq<Path>, now: nat)
      modifies this
      ensures workspaces == if paths == [] then old(workspaces)
                            else old(workspaces)[w := Next(policy, Lookup(old(workspaces), w),
                                                           Observe(generation, paths, now))]
    {
      if paths == [] {
        return;
      }
      var state := if w in workspaces then workspaces[w] else FRESH;
      if state.firstDirty.None? {
        state := state.(firstDirty := Some(now));
      }
      state := state.(lastDirty := Some(now));
      if state.generation < generation {
        state := state.(generation := generation);
      }
      state := state.(pending := state.pending + set p | p in paths);
      workspaces := workspaces[w := state];
    }

    method RecordCheckpointCompleted(w: string, generation: u64, now: nat)
      modifies this
      ensures workspaces == old(workspaces)[w := Next(policy, Lookup(old(workspaces), w), Complete(generation, now))]
    {
      var state := if w in workspaces then workspaces[w] else FRESH;
      if state.firstUnpublished.None? {
        state := state.(firstUnpublished := Some(now));
      }
      state := state.(lastUnpublished := Some(now));
      var current := state.publishGeneration.GetOr(0);
      state := state.(publishGeneration := Some(if current < generation then generation else current));
      workspaces := workspaces[w := state];
    }

    method TakeCheckpoint(w: string, now: nat, reason: Reason) returns (taken: Option<Checkpoint>)
      modifies this
      ensures w !in old(workspaces) ==> taken == None && workspaces == old(workspaces)
      ensures w in old(workspaces) ==>
                var ws := old(workspaces[w]);
                var take := if ws.pending == {} then None else Some(reason);
                && workspaces == old(workspaces)[w := TakenCheckpoint(ws, take, now)]
                && taken == CheckpointFor(w, ws, take)
    {
      if w !in workspaces {
        return None;
      }
      var state := workspaces[w];
      if state.pending == {} {
        return None;
      }
      var paths := state.pending;
      state := state.(pending := {});
      state := state.(firstDirty := None);
      state := state.(lastDirty := None);
      state := state.(lastCheckpoint := Some(now));
      workspaces := workspaces[w := state];
      return Some(Checkpoint(w, state.generation, reason, Paths(paths)));
    }

    method TakePublish(w: string, now: nat, reason: Reason) returns (taken: Option<Publish>)
      modifies this
      ensures w !in old(workspaces) ==> taken == None && workspaces == old(workspaces)
      ensures w in old(workspaces) ==>
                var ws := old(workspaces[w]);
                var take := if ws.publishGeneration.None? then None else Some(reason);
                && workspaces == old(workspaces)[w := TakenPublish(ws, take, now)]
                && taken == PublishFor(w, ws, take)
    {
      if w !in workspaces {
        return None;
      }
      var state := workspaces[w];
      var generation := state.publishGeneration;
      if generation.None? {
        return None;
      }
      state := state.(publishGeneration := None);
      state := state.(firstUnpublished := None);
      state := state.(lastUnpublished := None);
      state := state.(lastPublish := Some(now));
      workspaces := workspaces[w := state];
      return Some(Publish(w, generation.value, reason));
    }

    method TakeDueCheckpoint(w: string, now: nat) returns (taken: Option<Checkpoint>)
      modifies this
      ensures w !in old(workspaces) ==> taken == None && workspaces == old(workspaces)
      ensures w in old(workspaces) ==>
                var ws := old(workspaces[w]);
                && workspaces == old(workspaces)[w := TakenCheckpoint(ws, CheckpointDue(policy, ws, now), now)]
                && taken == CheckpointFor(w, ws, CheckpointDue(policy, ws, now))
    {
      if w !in workspaces {
        return None;
      }
      var state := workspaces[w];
      if state.pending == {} {
        return None;
      }
      if state.firstDirty.None? {
        return None;
      }
      var firstDirty := state.firstDirty.value;
      var lastDirty := state.lastDirty.GetOr(firstDirty);
      var minIntervalSatisfied := true;
      if state.lastCheckpoint.Some? {
        minIntervalSatisfied := Elapsed(now, state.lastCheckpoint.value) >= policy.minCheckpointInterval;
      }
      var reason;
      if Elapsed(now, firstDirty) >= policy.maxDirtyInterval {
        reason := MaxDirtyInterval;
      } else if Elapsed(now, lastDirty) >= policy.firstEventQuiet && minIntervalSatisfied {
        reason := QuietWindow;
      } else {
        return None;
      }
      taken := TakeCheckpoint(w, now, reason);
    }

    method TakeDuePublish(w: string, now: nat) returns (taken: Option<Publish>)
      modifies this
      ensures w !in old(workspaces) ==> taken == None && workspaces == old(workspaces)
      ensures w in old(workspaces) ==>
                var ws := old(workspaces[w]);
                && workspaces == old(workspaces)[w := TakenPublish(ws, PublishDue(policy, ws, now), now)]
                && taken == PublishFor(w, ws, PublishDue(policy, ws, now))
    {
      if w !in workspaces {
        return None;
      }
      var state := workspaces[w];
      if state.publishGeneration.None? {
        return None;
      }
      if state.firstUnpublished.None? {
        return None;
      }
      var first := state.firstUnpublished.value;
      var last := state.lastUnpublished.GetOr(first);
      var reason;
      if Elapsed(now, first) >= policy.maxPublishInterval {
        reason := MaxPublishInterval;
      } else if Elapsed(now, last) >= policy.publishQuiet {
        reason := PublishQuietWindow;
      } else {
        return None;
      }
      taken := TakePublish(w, now, reason);
    }

    /** The loop body of `drain_due` for one workspace: what it pushes, each as a list of at most one. */
    method ServeDue(w: string, now: nat) returns (checkpoint: seq<Checkpoint>, publish: seq<Publish>)
      requires w in workspaces
      modifies this
      ensures workspaces == old(workspaces)[w := Next(policy, old(workspaces[w]), Drain(now))]
      ensures checkpoint == CheckpointOf(policy, w, old(workspaces[w]), Drain(now))
      ensures publish == PublishOf(policy, w, old(workspaces[w]), Drain(now))
    {
      var due := TakeDueCheckpoint(w, now);
      var ready := TakeDuePublish(w, now);
      checkpoint, publish := AsList(due), AsList(ready);
    }

    /** Every workspace, in key order, gives up what is due. */
    method DrainDue(now: nat) returns (drain: DrainResult)
      modifies this
      ensures workspaces == AllNext(policy, old(workspaces), Drain(now))
      ensures drain == AllTaken(policy, old(workspaces), Drain(now))
    {
      ghost var before := workspaces;
      var ids := SortedKeys(workspaces.Keys);
      SortedKeysDistinct(workspaces.Keys);
      var checkpoints: seq<Checkpoint>, publishes: seq<Publish> := [], [];
      var i := 0;
      while i < |ids|
        invariant 0 <= i <= |ids|
        invariant Served(policy, before, ids, i, Drain(now), workspaces, checkpoints, publishes)
      {
        assert ids[i] in ids && ids[i] !in ids[..i];
        LoopRound(policy, before, ids, i, Drain(now), workspaces, checkpoints, publishes);
        var checkpoint, publish := ServeDue(ids[i], now);
        checkpoints, publishes := checkpoints + checkpoint, publishes + publish;
        i := i + 1;
      }
      LoopDone(policy, before, ids, Drain(now), workspaces, checkpoints, publishes);
      return DrainResult(checkpoints, publishes);
    }

    /** The loop body of `flush_all` for one workspace: what it pushes, each as a list of at most one. */
    method ServeAll(w: string, now: nat, reason: Reason) returns (checkpoint: seq<Checkpoint>, publish: seq<Publish>)
      requires w in workspaces
      modifies this
      ensures workspaces == old(workspaces)[w := Next(policy, old(workspaces[w]), Flush(reason, now))]
      ensures checkpoint == CheckpointOf(policy, w, old(workspaces[w]), Flush(reason, now))
      ensures publish == PublishOf(policy, w, old(workspaces[w]), Flush(reason, now))
    {
      var due := TakeCheckpoint(w, now, reason);
      var ready := TakePublish(w, now, reason);
      checkpoint, publish := AsList(due), AsList(ready);
    }

    /** Every workspace, in key order, gives up everything. */
    method FlushAll(now: nat, reason: Reason) returns (drain: DrainResult)
      modifies this
      ensures workspaces == AllNext(policy, old(workspaces), Flush(reason, now))
      ensures drain == AllTaken(policy, old(workspaces), Flush(reason, now))
    {
      ghost var before := workspaces;
      var ids := SortedKeys(workspaces.Keys);
      SortedKeysDistinct(workspaces.Keys);
      var checkpoints: seq<Checkpoint>, publishes: seq<Publish> := [], [];
      var i := 0;
      while i < |ids|
        invariant 0 <= i <= |ids|
        invariant Served(policy, before, ids, i, Flush(reason, now), workspaces, checkpoints, publishes)
      {
        assert ids[i] in ids && ids[i] !in ids[..i];
        LoopRound(policy, before, ids, i, Flush(reason, now), workspaces, checkpoints, publishes);
        var checkpoint, publish := ServeAll(ids[i], now, reason);
        checkpoints, publishes := checkpoints + checkpoint, publishes + publish;
        i := i + 1;
      }
      LoopDone(policy, before, ids, Flush(reason, now), workspaces, checkpoints, publishes);
      return DrainResult(checkpoints, publishes);
    }

    method FlushForSleepOrLock(now: nat) returns (drain: DrainResult)
      modifies this
      ensures workspaces == AllNext(policy, old(workspaces), Flush(SleepOrLock, now))
      ensures drain == AllTaken(policy, old(workspaces), Flush(SleepOrLock, now))
    {
      drain := FlushAll(now, SleepOrLock);
    }
  }

  /** The workspaces when the loop has served the listed keys. */
  ghost function Progress(policy: Policy, m: Workspaces, served: seq<string>, step: Step): Workspaces {
    map w | w in m :: if w in served then Next(policy, m[w], step) else m[w]
  }

  /** What holds when the loop has served the first i keys. */
  ghost predicate Served(policy: Policy, m: Workspaces, ids: seq<string>, i: nat, step: Step,
                         current: Workspaces, checkpoints: seq<Checkpoint>, publishes: seq<Publish>)
  {
    && i <= |ids|
    && current == Progress(policy, m, ids[..i], step)
    && checkpoints == CheckpointsOf(policy, m, ids[..i], step)
    && publishes == PublishesOf(policy, m, ids[..i], step)
  }

  /** One round of the drain and flush loops. */
  lemma LoopRound(policy: Policy, m: Workspaces, ids: seq<string>, i: nat, step: Step,
                  current: Workspaces, checkpoints: seq<Checkpoint>, publishes: seq<Publish>)
    requires i < |ids| && ids[i] in m && ids[i] !in ids[..i]
    requires Served(policy, m, ids, i, step, current, checkpoints, publishes)
    ensures ids[i] in current && current[ids[i]] == m[ids[i]]
    ensures Served(policy, m, ids, i + 1, step, current[ids[i] := Next(policy, m[ids[i]], step)],
                   checkpoints + CheckpointOf(policy, ids[i], m[ids[i]], step),
                   publishes + PublishOf(policy, ids[i], m[ids[i]], step))
  {
    var served, next := ids[..i], ids[..i + 1];
    assert next == served + [ids[i]];
    assert next[..|next| - 1] == served;
    ProgressRound(policy, m, served, ids[i], step);
  }

  lemma ProgressRound(policy: Policy, m: Workspaces, served: seq<string>, w: string, step: Step)
    requires w in m && w !in served
    ensures Progress(policy, m, served + [w], step) == Progress(policy, m, served, step)[w := Next(policy, m[w], step)]
  {
  }

  lemma ProgressDone(policy: Policy, m: Workspaces, ids: seq<string>, step: Step)
    requires forall w :: w in m ==> w in ids
    ensures Progress(policy, m, ids, step) == AllNext(policy, m, step)
  {
  }

  lemma LoopDone(policy: Policy, m: Workspaces, ids: seq<string>, step: Step,
                 current: Workspaces, checkpoints: seq<Checkpoint>, publishes: seq<Publish>)
    requires forall w :: w in m ==> w in ids
    requires Served(policy, m, ids, |ids|, step, current, checkpoints, publishes)
    ensures current == AllNext(policy, m, step)
    ensures checkpoints == CheckpointsOf(policy, m, ids, step)
    ensures publishes == PublishesOf(policy, m, ids, step)
  {
    assert ids[..|ids|] == ids;
    ProgressDone(policy, m, ids, step);
  }
}
