/**
 What the debouncer guarantees over whole runs of one workspace: nothing observed is lost,
 checkpoints are neither too frequent nor too late, and the same for publishes. The run of many
 workspaces is the product of such runs (DebounceProduct.dfy).
 */
module DebounceHistory {
  import opened Common
  import opened Order
  import opened Debounce

  /** The workspace before step n. */
  function State(policy: Policy, steps: seq<Step>, n: nat): Workspace
    requires n <= |steps|
  {
    if n == 0 then FRESH else Next(policy, State(policy, steps, n - 1), steps[n - 1])
  }

  predicate Checkpoints(policy: Policy, steps: seq<Step>, n: nat)
    requires n < |steps|
  {
    TakesCheckpoint(policy, State(policy, steps, n), steps[n]).Some?
  }

  predicate Publishes(policy: Policy, steps: seq<Step>, n: nat)
    requires n < |steps|
  {
    TakesPublish(policy, State(policy, steps, n), steps[n]).Some?
  }

  /** The last step before n that took a checkpoint, or -1. */
  function LastCheckpoint(policy: Policy, steps: seq<Step>, n: nat): (j: int)
    requires n <= |steps|
    ensures -1 <= j < n
    ensures j >= 0 ==> Checkpoints(policy, steps, j)
    ensures forall k :: j < k < n ==> !Checkpoints(policy, steps, k)
  {
    if n == 0 then -1
    else if Checkpoints(policy, steps, n - 1) then n - 1
    else LastCheckpoint(policy, steps, n - 1)
  }

  function LastPublish(policy: Policy, steps: seq<Step>, n: nat): (j: int)
    requires n <= |steps|
    ensures -1 <= j < n
    ensures j >= 0 ==> Publishes(policy, steps, j)
    ensures forall k :: j < k < n ==> !Publishes(policy, steps, k)
  {
    if n == 0 then -1
    else if Publishes(policy, steps, n - 1) then n - 1
    else LastPublish(policy, steps, n - 1)
  }

  ghost predicate Clocked(steps: seq<Step>) {
    forall i, j :: 0 <= i <= j < |steps| ==> steps[i].now <= steps[j].now
  }

  ghost predicate Observes(steps: seq<Step>, i: int, p: Path) {
    0 <= i < |steps| && steps[i].Observe? && p in steps[i].paths
  }

  /** p was observed strictly between lo and hi. */
  ghost predicate ObservedBetween(steps: seq<Step>, lo: int, hi: int, p: Path) {
    exists i :: lo < i < hi && Observes(steps, i, p)
  }

  predicate IsChange(steps: seq<Step>, i: int) {
    0 <= i < |steps| && steps[i].Observe? && steps[i].paths != []
  }

  predicate IsCompletion(steps: seq<Step>, i: int) {
    0 <= i < |steps| && steps[i].Complete?
  }

  /** The largest generation of the changes before n. */
  function MaxGeneration(steps: seq<Step>, n: nat): (g: u64)
    requires n <= |steps|
    ensures forall i :: 0 <= i < n && IsChange(steps, i) ==> steps[i].generation <= g
    ensures g == 0 || exists i :: 0 <= i < n && IsChange(steps, i) && steps[i].generation == g
  {
    if n == 0 then 0
    else
      var rest := MaxGeneration(steps, n - 1);
      if IsChange(steps, n - 1) && rest < steps[n - 1].generation then steps[n - 1].generation else rest
  }

  /** The largest generation completed strictly between lo and hi, with whether there is one. */
  function MaxCompleted(steps: seq<Step>, lo: int, hi: nat): (g: Option<u64>)
    requires hi <= |steps|
    ensures g.None? <==> forall i :: lo < i < hi ==> !IsCompletion(steps, i)
    ensures g.Some? ==> forall i :: lo < i < hi && IsCompletion(steps, i) ==> steps[i].generation <= g.value
    ensures g.Some? ==> exists i :: lo < i < hi && IsCompletion(steps, i) && steps[i].generation == g.value
  {
    if hi == 0 || hi - 1 <= lo then None
    else
      var rest := MaxCompleted(steps, lo, hi - 1);
      if !IsCompletion(steps, hi - 1) then rest
      else if rest.Some? && steps[hi - 1].generation < rest.value then rest
      else Some(steps[hi - 1].generation)
  }

  // ---------------------------------------------------------------- the history invariant

  /** A path is pending exactly when it was observed since step j. */
  ghost predicate PendingExplained(steps: seq<Step>, s: Workspace, j: int, n: nat, p: Path) {
    p in s.pending <==> ObservedBetween(steps, j, n, p)
  }

  /** The checkpoint side of the state before step n, read off the steps. */
  ghost predicate CheckpointSide(policy: Policy, steps: seq<Step>, n: nat)
    requires n <= |steps|
  {
    var s, j := State(policy, steps, n), LastCheckpoint(policy, steps, n);
    && (forall p :: PendingExplained(steps, s, j, n, p))
    && s.generation == MaxGeneration(steps, n)
    && s.lastCheckpoint == (if j < 0 then None else Some(steps[j].now))
    && DirtyTimers(steps, s, j, n)
  }

  /** The dirty timers run exactly with pending paths, and the first one holds the earliest change. */
  ghost predicate DirtyTimers(steps: seq<Step>, s: Workspace, j: int, n: nat) {
    && (s.pending != {} <==> s.firstDirty.Some?)
    && (s.pending != {} <==> s.lastDirty.Some?)
    && (s.firstDirty.None? ==> forall i :: j < i < n ==> !IsChange(steps, i))
    && (s.firstDirty.Some? ==>
          && (exists i :: j < i < n && IsChange(steps, i) && steps[i].now == s.firstDirty.value)
          && (forall i :: j < i < n && IsChange(steps, i) ==> s.firstDirty.value <= steps[i].now))
  }

  /** The publish side. */
  ghost predicate PublishSide(policy: Policy, steps: seq<Step>, n: nat)
    requires n <= |steps|
  {
    var s, j := State(policy, steps, n), LastPublish(policy, steps, n);
    && s.publishGeneration == MaxCompleted(steps, j, n)
    && s.lastPublish == (if j < 0 then None else Some(steps[j].now))
    && (s.publishGeneration.Some? <==> s.firstUnpublished.Some?)
    && (s.publishGeneration.Some? <==> s.lastUnpublished.Some?)
    && (s.firstUnpublished.Some? ==>
          forall i :: j < i < n && IsCompletion(steps, i) ==> s.firstUnpublished.value <= steps[i].now)
  }

  lemma PendingStep(policy: Policy, steps: seq<Step>, n: nat, p: Path)
    requires n < |steps| && CheckpointSide(policy, steps, n)
    ensures PendingExplained(steps, State(policy, steps, n + 1), LastCheckpoint(policy, steps, n + 1), n + 1, p)
  {
    var s, t := State(policy, steps, n), State(policy, steps, n + 1);
    var j, k := LastCheckpoint(policy, steps, n), LastCheckpoint(policy, steps, n + 1);
    assert PendingExplained(steps, s, j, n, p);
    if Checkpoints(policy, steps, n) {
      assert t.pending == {} && k == n;
    } else {
      assert k == j;
      assert p in t.pending <==> p in s.pending || Observes(steps, n, p);
      assert ObservedBetween(steps, j, n + 1, p) <==> ObservedBetween(steps, j, n, p) || Observes(steps, n, p);
    }
  }

  /** What a step does to the fields the dirty timers depend on. */
  lemma DirtyStep(policy: Policy, ws: Workspace, step: Step)
    ensures var t := Next(policy, ws, step);
            if TakesCheckpoint(policy, ws, step).Some? then
              t.pending == {} && t.firstDirty == None && t.lastDirty == None && t.lastCheckpoint == Some(step.now)
              && t.generation == ws.generation
            else if step.Observe? && step.paths != [] then
              && t.pending != {} && t.lastDirty == Some(step.now) && t.lastCheckpoint == ws.lastCheckpoint
              && t.firstDirty == Some(ws.firstDirty.GetOr(step.now))
            else
              t.pending == ws.pending && t.firstDirty == ws.firstDirty && t.lastDirty == ws.lastDirty
              && t.lastCheckpoint == ws.lastCheckpoint && t.generation == ws.generation
  {
    if step.Observe? && step.paths != [] {
      assert step.paths[0] in Next(policy, ws, step).pending;
    }
  }

  lemma TimersStep(steps: seq<Step>, s: Workspace, t: Workspace, j: int, n: nat)
    requires Clocked(steps) && n < |steps| && j < n && DirtyTimers(steps, s, j, n)
    requires IsChange(steps, n) ==>
               t.pending != {} && t.lastDirty.Some? && t.firstDirty == Some(s.firstDirty.GetOr(steps[n].now))
    requires !IsChange(steps, n) ==>
               t.pending == s.pending && t.firstDirty == s.firstDirty && t.lastDirty == s.lastDirty
    ensures DirtyTimers(steps, t, j, n + 1)
  {
  }

  lemma CheckpointSideStep(policy: Policy, steps: seq<Step>, n: nat)
    requires Clocked(steps) && n < |steps| && CheckpointSide(policy, steps, n)
    ensures CheckpointSide(policy, steps, n + 1)
  {
    var s, t, j := State(policy, steps, n), State(policy, steps, n + 1), LastCheckpoint(policy, steps, n);
    DirtyStep(policy, s, steps[n]);
    if !Checkpoints(policy, steps, n) {
      TimersStep(steps, s, t, j, n);
    }
    var k, m := LastCheckpoint(policy, steps, n + 1), n + 1;
    forall p ensures PendingExplained(steps, t, k, m, p) {
      PendingStep(policy, steps, n, p);
    }
  }

  lemma {:induction false} CheckpointHistory(policy: Policy, steps: seq<Step>, n: nat)
    requires Clocked(steps) && n <= |steps|
    ensures CheckpointSide(policy, steps, n)
  {
    if n > 0 {
      CheckpointHistory(policy, steps, n - 1);
      CheckpointSideStep(policy, steps, n - 1);
    }
  }

  lemma {:induction false} PublishHistory(policy: Policy, steps: seq<Step>, n: nat)
    requires Clocked(steps) && n <= |steps|
    ensures PublishSide(policy, steps, n)
  {
    if n == 0 {
      assert MaxCompleted(steps, -1, 0) == None;
    } else {
      PublishHistory(policy, steps, n - 1);
      PublishSideStep(policy, steps, n - 1);
    }
  }

  /** What a step does to the publish fields. */
  lemma PublishStep(policy: Policy, ws: Workspace, step: Step)
    ensures var t := Next(policy, ws, step);
            if TakesPublish(policy, ws, step).Some? then
              && t.publishGeneration == None && t.firstUnpublished == None && t.lastUnpublished == None
              && t.lastPublish == Some(step.now)
            else if step.Complete? then
              && t.lastPublish == ws.lastPublish && t.lastUnpublished == Some(step.now)
              && t.firstUnpublished == Some(ws.firstUnpublished.GetOr(step.now))
              && t.publishGeneration.Some?
              && t.publishGeneration.value == Max(ws.publishGeneration.GetOr(0), step.generation)
            else
              t.publishGeneration == ws.publishGeneration && t.firstUnpublished == ws.firstUnpublished
              && t.lastUnpublished == ws.lastUnpublished && t.lastPublish == ws.lastPublish
  {
  }

  lemma PublishSideStep(policy: Policy, steps: seq<Step>, n: nat)
    requires Clocked(steps) && n < |steps| && PublishSide(policy, steps, n)
    ensures PublishSide(policy, steps, n + 1)
  {
    PublishStep(policy, State(policy, steps, n), steps[n]);
  }

  // ---------------------------------------------------------------- conservation

  /** The checkpoint taken at step n. */
  function TakenAt(policy: Policy, steps: seq<Step>, w: string, n: nat): Checkpoint
    requires n < |steps| && Checkpoints(policy, steps, n)
  {
    CheckpointFor(w, State(policy, steps, n), TakesCheckpoint(policy, State(policy, steps, n), steps[n])).value
  }

  /** Each checkpoint carries, sorted and without duplicates, exactly the paths observed since the
      previous checkpoint, and the largest generation ever observed. */
  lemma CheckpointCarriesWhatWasObserved(policy: Policy, steps: seq<Step>, w: string, n: nat)
    requires Clocked(steps) && n < |steps| && Checkpoints(policy, steps, n)
    ensures var c := TakenAt(policy, steps, w, n);
            && c.workspaceId == w
            && Sorted(PATH_LESS, c.paths)
            && c.paths != []
            && (forall p :: p in c.paths <==> ObservedBetween(steps, LastCheckpoint(policy, steps, n), n, p))
            && c.generation == MaxGeneration(steps, n)
  {
    CheckpointHistory(policy, steps, n);
    var s, j := State(policy, steps, n), LastCheckpoint(policy, steps, n);
    forall p ensures p in s.pending <==> ObservedBetween(steps, j, n, p) {
      assert PendingExplained(steps, s, j, n, p);
    }
    PathOrder();
    ListingSorted(PATH_LESS, s.pending);
  }

  /** No observed path is lost: it is still pending or in a later checkpoint. */
  lemma {:induction false} NoPathIsLost(policy: Policy, steps: seq<Step>, w: string, i: nat, p: Path, n: nat)
    requires Clocked(steps) && Observes(steps, i, p) && i < n <= |steps|
    ensures p in State(policy, steps, n).pending
            || exists k :: i < k < n && Checkpoints(policy, steps, k) && p in TakenAt(policy, steps, w, k).paths
  {
    CheckpointHistory(policy, steps, n);
    var j := LastCheckpoint(policy, steps, n);
    assert PendingExplained(steps, State(policy, steps, n), j, n, p);
    if i < j {
      NoPathIsLost(policy, steps, w, i, p, j);
      CheckpointCarriesWhatWasObserved(policy, steps, w, j);
      if p in State(policy, steps, j).pending {
        assert p in TakenAt(policy, steps, w, j).paths;
      }
    }
  }

  /** The time of the first completion strictly between lo and hi. */
  function FirstCompleted(steps: seq<Step>, lo: int, hi: nat): (t: Option<nat>)
    requires hi <= |steps|
    ensures t.None? ==> forall i :: lo < i < hi ==> !IsCompletion(steps, i)
    ensures t.Some? ==> exists i :: && lo < i < hi && IsCompletion(steps, i) && steps[i].now == t.value
                                    && forall k :: lo < k < i ==> !IsCompletion(steps, k)
  {
    if hi == 0 || hi - 1 <= lo then None
    else
      var rest := FirstCompleted(steps, lo, hi - 1);
      if rest.None? && IsCompletion(steps, hi - 1) then Some(steps[hi - 1].now) else rest
  }

  /** The time of the last completion strictly between lo and hi. */
  function LastCompleted(steps: seq<Step>, lo: int, hi: nat): (t: Option<nat>)
    requires hi <= |steps|
    ensures t.None? ==> forall i :: lo < i < hi ==> !IsCompletion(steps, i)
    ensures t.Some? ==> exists i :: && lo < i < hi && IsCompletion(steps, i) && steps[i].now == t.value
                                    && forall k :: i < k < hi ==> !IsCompletion(steps, k)
  {
    if hi == 0 || hi - 1 <= lo then None
    else if IsCompletion(steps, hi - 1) then Some(steps[hi - 1].now)
    else LastCompleted(steps, lo, hi - 1)
  }

  lemma {:induction false} PublishTimers(policy: Policy, steps: seq<Step>, n: nat)
    requires n <= |steps|
    ensures var s, j := State(policy, steps, n), LastPublish(policy, steps, n);
            s.firstUnpublished == FirstCompleted(steps, j, n) && s.lastUnpublished == LastCompleted(steps, j, n)
  {
    if n > 0 {
      PublishTimers(policy, steps, n - 1);
      PublishStep(policy, State(policy, steps, n - 1), steps[n - 1]);
    }
  }

  /** Each publish carries the largest generation completed since the previous publish, and a step
      publishes exactly if something was completed since and it is a flush, or a drain that comes the
      maximum interval after the first or the quiet window after the last of those completions. */
  lemma PublishCarriesWhatWasCompleted(policy: Policy, steps: seq<Step>, w: string, n: nat)
    requires Clocked(steps) && n < |steps|
    ensures var ws, j := State(policy, steps, n), LastPublish(policy, steps, n);
            Publishes(policy, steps, n) ==>
              && MaxCompleted(steps, j, n).Some?
              && PublishOf(policy, w, ws, steps[n])
                 == [Publish(w, MaxCompleted(steps, j, n).value, TakesPublish(policy, ws, steps[n]).value)]
    ensures var first := FirstCompleted(steps, LastPublish(policy, steps, n), n);
            var last := LastCompleted(steps, LastPublish(policy, steps, n), n);
            Publishes(policy, steps, n) <==>
              && first.Some? && last.Some?
              && (|| steps[n].Flush?
                  || (steps[n].Drain? && (|| Elapsed(steps[n].now, first.value) >= policy.maxPublishInterval
                                          || Elapsed(steps[n].now, last.value) >= policy.publishQuiet)))
  {
    PublishHistory(policy, steps, n);
    PublishTimers(policy, steps, n);
  }

  // ---------------------------------------------------------------- not too often

  function MinGap(policy: Policy): nat {
    if policy.minCheckpointInterval < policy.maxDirtyInterval then policy.minCheckpointInterval
    else policy.maxDirtyInterval
  }

  /** A drained checkpoint comes at least the minimum gap after the checkpoint before it,
      whatever took that one. */
  lemma DrainedCheckpointKeepsDistance(policy: Policy, steps: seq<Step>, m: nat, n: nat)
    requires Clocked(steps) && m < n < |steps|
    requires Checkpoints(policy, steps, m) && Checkpoints(policy, steps, n) && steps[n].Drain?
    ensures steps[n].now - steps[m].now >= MinGap(policy)
  {
    CheckpointHistory(policy, steps, n);
    var j := LastCheckpoint(policy, steps, n);
    assert m <= j;
    var s := State(policy, steps, n);
    var i :| j < i < n && IsChange(steps, i) && steps[i].now == s.firstDirty.value;
  }

  /** The drained checkpoints in the window [a, b). */
  function DrainedIn(policy: Policy, steps: seq<Step>, a: nat, b: nat): nat
    requires a <= b <= |steps|
  {
    if a == b then 0
    else
      DrainedIn(policy, steps, a, b - 1)
      + (if steps[b - 1].Drain? && Checkpoints(policy, steps, b - 1) then 1 else 0)
  }

  /** The last drained checkpoint of a window that has one. */
  ghost predicate IsLastDrained(policy: Policy, steps: seq<Step>, a: nat, b: nat, l: nat)
    requires a <= b <= |steps|
  {
    && a <= l < b && steps[l].Drain? && Checkpoints(policy, steps, l)
    && (DrainedIn(policy, steps, a, b) - 1) * MinGap(policy) <= steps[l].now - steps[a].now
  }

  lemma OneMore(count: nat, gap: nat)
    requires count > 0
    ensures count * gap == (count - 1) * gap + gap
  {
  }

  lemma {:induction false} DrainedSpan(policy: Policy, steps: seq<Step>, a: nat, b: nat)
    requires Clocked(steps) && a <= b <= |steps| && DrainedIn(policy, steps, a, b) > 0
    ensures exists l: nat :: IsLastDrained(policy, steps, a, b, l)
  {
    var n := b - 1;
    var before := DrainedIn(policy, steps, a, n);
    if before > 0 {
      DrainedSpan(policy, steps, a, n);
      var l: nat :| IsLastDrained(policy, steps, a, n, l);
      if steps[n].Drain? && Checkpoints(policy, steps, n) {
        DrainedCheckpointKeepsDistance(policy, steps, l, n);
        OneMore(before, MinGap(policy));
        assert IsLastDrained(policy, steps, a, b, n);
      } else {
        assert IsLastDrained(policy, steps, a, b, l);
      }
    } else {
      assert IsLastDrained(policy, steps, a, b, n);
    }
  }

  /** The rate bound: k drained checkpoints need a span of (k - 1) minimum gaps, whatever
      flushes happen in between. */
  lemma CheckpointRateBound(policy: Policy, steps: seq<Step>, a: nat, b: nat)
    requires Clocked(steps) && a < b <= |steps|
    ensures (DrainedIn(policy, steps, a, b) - 1) * MinGap(policy) <= steps[b - 1].now - steps[a].now
  {
    if DrainedIn(policy, steps, a, b) > 0 {
      DrainedSpan(policy, steps, a, b);
      var l: nat :| IsLastDrained(policy, steps, a, b, l);
      assert steps[l].now <= steps[b - 1].now;
    }
  }

  // ---------------------------------------------------------------- not too late

  /** A change still pending after a drain is younger than the maximum dirty interval. */
  lemma PendingIsYoung(policy: Policy, steps: seq<Step>, k: nat, i: nat, n: nat)
    requires Clocked(steps) && i < k < n <= |steps| && steps[k].Drain?
    requires IsChange(steps, i) && LastCheckpoint(policy, steps, n) < i
    ensures steps[k].now - steps[i].now < policy.maxDirtyInterval
  {
    CheckpointHistory(policy, steps, k);
    assert !Checkpoints(policy, steps, k);
    assert LastCheckpoint(policy, steps, k) < i;
    var s := State(policy, steps, k);
    assert s.firstDirty.Some?;
  }

  /** With a drain no longer than d ago, no pending change is older than the maximum dirty
      interval plus d. */
  lemma BoundedStaleness(policy: Policy, steps: seq<Step>, k: nat, i: nat, d: nat)
    requires Clocked(steps) && k < |steps| && steps[k].Drain? && steps[|steps| - 1].now - steps[k].now <= d
    requires IsChange(steps, i) && LastCheckpoint(policy, steps, |steps|) < i
    ensures steps[|steps| - 1].now - steps[i].now < policy.maxDirtyInterval + d
            || steps[|steps| - 1].now - steps[i].now <= d
  {
    if i < k {
      PendingIsYoung(policy, steps, k, i, |steps|);
    }
  }

  /** The same for completed checkpoints waiting to be published. */
  lemma UnpublishedIsYoung(policy: Policy, steps: seq<Step>, k: nat, i: nat, n: nat)
    requires Clocked(steps) && i < k < n <= |steps| && steps[k].Drain?
    requires IsCompletion(steps, i) && LastPublish(policy, steps, n) < i
    ensures steps[k].now - steps[i].now < policy.maxPublishInterval
  {
    PublishHistory(policy, steps, k);
    assert !Publishes(policy, steps, k);
    assert LastPublish(policy, steps, k) < i;
  }

  /** Nothing gets stuck: the timers run exactly when there is work. */
  lemma TimersRunExactlyWithWork(policy: Policy, steps: seq<Step>, n: nat)
    requires Clocked(steps) && n <= |steps|
    ensures var s := State(policy, steps, n);
            && (s.pending != {} <==> s.firstDirty.Some?) && (s.firstDirty.Some? <==> s.lastDirty.Some?)
            && (s.publishGeneration.Some? <==> s.firstUnpublished.Some?)
            && (s.firstUnpublished.Some? <==> s.lastUnpublished.Some?)
  {
    CheckpointHistory(policy, steps, n);
    PublishHistory(policy, steps, n);
  }
}
