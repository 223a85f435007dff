/**
 A run over many workspaces is the product of independent runs, one per workspace: each
 workspace's state, checkpoints and publishes are those of its own calls alone.
 */
module DebounceProduct {
  import opened Common
  import opened Order
  import opened Debounce
  import opened DebounceHistory

  /** A call on the debouncer. Changes and completions name a workspace; drains and flushes do not. */
  datatype Op = One(w: string, step: Step) | Every(step: Step)

  ghost predicate WellFormed(op: Op) {
    if op.One? then op.step.Observe? || op.step.Complete? else op.step.Drain? || op.step.Flush?
  }

  /** The workspaces after a call, as the methods of the class leave them. */
  function After(policy: Policy, m: Workspaces, op: Op): Workspaces {
    match op
    case One(w, step) =>
      if step.Observe? && step.paths == [] then m else m[w := Next(policy, Lookup(m, w), step)]
    case Every(step) => AllNext(policy, m, step)
  }

  /** What a call emits. */
  function Emits(policy: Policy, m: Workspaces, op: Op): DrainResult {
    if op.One? then DrainResult([], []) else AllTaken(policy, m, op.step)
  }

  function AfterAll(policy: Policy, ops: seq<Op>, n: nat): Workspaces
    requires n <= |ops|
  {
    if n == 0 then map[] else After(policy, AfterAll(policy, ops, n - 1), ops[n - 1])
  }

  /** The steps a workspace takes part in among the first n calls. */
  function Own(ops: seq<Op>, w: string, n: nat): seq<Step>
    requires n <= |ops|
  {
    if n == 0 then []
    else Own(ops, w, n - 1) + (if Concerns(ops[n - 1], w) then [ops[n - 1].step] else [])
  }

  predicate Concerns(op: Op, w: string) {
    op.Every? || op.w == w
  }

  lemma {:induction false} StatePrefix(policy: Policy, steps: seq<Step>, more: seq<Step>, n: nat)
    requires n <= |steps|
    ensures State(policy, steps + more, n) == State(policy, steps, n)
  {
    if n > 0 {
      StatePrefix(policy, steps, more, n - 1);
    }
  }

  lemma {:induction false} OwnOrdered(ops: seq<Op>, w: string, n: nat)
    requires n <= |ops|
    requires forall i, j :: 0 <= i <= j < |ops| ==> ops[i].step.now <= ops[j].step.now
    ensures Clocked(Own(ops, w, n))
    ensures forall i :: 0 <= i < |Own(ops, w, n)| && n > 0 ==> Own(ops, w, n)[i].now <= ops[n - 1].step.now
  {
    if n > 0 {
      OwnOrdered(ops, w, n - 1);
    }
  }

  lemma AfterOne(policy: Policy, m: Workspaces, op: Op, w: string)
    requires WellFormed(op)
    ensures Lookup(After(policy, m, op), w)
            == if Concerns(op, w) then Next(policy, Lookup(m, w), op.step) else Lookup(m, w)
  {
  }

  /** The state of each workspace is that of its own steps. */
  lemma {:induction false} ProductState(policy: Policy, ops: seq<Op>, w: string, n: nat)
    requires n <= |ops| && forall op :: op in ops ==> WellFormed(op)
    ensures Lookup(AfterAll(policy, ops, n), w) == State(policy, Own(ops, w, n), |Own(ops, w, n)|)
  {
    if n > 0 {
      ProductState(policy, ops, w, n - 1);
      var before, op := Own(ops, w, n - 1), ops[n - 1];
      AfterOne(policy, AfterAll(policy, ops, n - 1), op, w);
      if Concerns(op, w) {
        StatePrefix(policy, before, [op.step], |before|);
        assert (before + [op.step])[|before|] == op.step;
      } else {
        assert before + [] == before;
      }
    }
  }

  // ---------------------------------------------------------------- what a call emits

  function Those<T>(items: seq<T>, keep: T -> bool): seq<T> {
    if items == [] then []
    else Those(items[..|items| - 1], keep) + (if keep(items[|items| - 1]) then [items[|items| - 1]] else [])
  }

  /** Appending the items of one key: all of them stay for that key, none for another. */
  lemma ThoseAppend<T>(before: seq<T>, here: seq<T>, keep: T -> bool, own: bool)
    requires |here| <= 1 && forall x :: x in here ==> keep(x) == own
    ensures Those(before + here, keep) == Those(before, keep) + (if own then here else [])
  {
    if here == [] {
      assert before + here == before;
    } else {
      assert (before + here)[..|before|] == before;
      assert here == [here[0]];
    }
  }

  function CheckpointOwner(w: string): Checkpoint -> bool {
    (c: Checkpoint) => c.workspaceId == w
  }

  function PublishOwner(w: string): Publish -> bool {
    (p: Publish) => p.workspaceId == w
  }

  function CheckpointsFor(checkpoints: seq<Checkpoint>, w: string): seq<Checkpoint> {
    Those(checkpoints, CheckpointOwner(w))
  }

  function PublishesFor(publishes: seq<Publish>, w: string): seq<Publish> {
    Those(publishes, PublishOwner(w))
  }

  lemma LastIsNew(keys: seq<string>, w: string)
    requires keys != [] && Distinct(keys)
    ensures var front, k := keys[..|keys| - 1], keys[|keys| - 1];
            && Distinct(front)
            && (w in keys <==> w in front || w == k)
            && (w == k ==> w !in front)
  {
    assert keys == keys[..|keys| - 1] + [keys[|keys| - 1]];
  }

  lemma {:induction false} CheckpointsForKeys(policy: Policy, m: Workspaces, keys: seq<string>, step: Step, w: string)
    requires Distinct(keys)
    ensures CheckpointsFor(CheckpointsOf(policy, m, keys, step), w)
            == if w in keys then CheckpointOf(policy, w, Lookup(m, w), step) else []
  {
    if keys != [] {
      var front, k := keys[..|keys| - 1], keys[|keys| - 1];
      LastIsNew(keys, w);
      CheckpointsForKeys(policy, m, front, step, w);
      ThoseAppend(CheckpointsOf(policy, m, front, step), CheckpointOf(policy, k, Lookup(m, k), step),
                  CheckpointOwner(w), k == w);
    }
  }

  lemma {:induction false} PublishesForKeys(policy: Policy, m: Workspaces, keys: seq<string>, step: Step, w: string)
    requires Distinct(keys)
    ensures PublishesFor(PublishesOf(policy, m, keys, step), w)
            == if w in keys then PublishOf(policy, w, Lookup(m, w), step) else []
  {
    if keys != [] {
      var front, k := keys[..|keys| - 1], keys[|keys| - 1];
      LastIsNew(keys, w);
      PublishesForKeys(policy, m, front, step, w);
      ThoseAppend(PublishesOf(policy, m, front, step), PublishOf(policy, k, Lookup(m, k), step),
                  PublishOwner(w), k == w);
    }
  }

  /** Every call emits, for each workspace, exactly what its own run emits at that step. */
  lemma ProductEmissions(policy: Policy, ops: seq<Op>, w: string, n: nat)
    requires n < |ops| && forall op :: op in ops ==> WellFormed(op)
    ensures var drain, own := Emits(policy, AfterAll(policy, ops, n), ops[n]), Own(ops, w, n);
            && CheckpointsFor(drain.checkpoints, w)
               == (if ops[n].One? then [] else CheckpointOf(policy, w, State(policy, own, |own|), ops[n].step))
            && PublishesFor(drain.publishes, w)
               == (if ops[n].One? then [] else PublishOf(policy, w, State(policy, own, |own|), ops[n].step))
  {
    var m := AfterAll(policy, ops, n);
    ProductState(policy, ops, w, n);
    if ops[n].Every? {
      SortedKeysDistinct(m.Keys);
      CheckpointsForKeys(policy, m, SortedKeys(m.Keys), ops[n].step, w);
      PublishesForKeys(policy, m, SortedKeys(m.Keys), ops[n].step, w);
    }
  }

  ghost predicate InOrder(cs: seq<Checkpoint>) {
    forall i, j :: 0 <= i < j < |cs| ==> STRING_LESS(cs[i].workspaceId, cs[j].workspaceId)
  }

  ghost predicate Within(cs: seq<Checkpoint>, keys: seq<string>) {
    forall i :: 0 <= i < |cs| ==> cs[i].workspaceId in keys
  }

  lemma {:induction false} EmittedInKeyOrder(policy: Policy, m: Workspaces, keys: seq<string>, step: Step)
    requires Sorted(STRING_LESS, keys)
    ensures Within(CheckpointsOf(policy, m, keys, step), keys) && InOrder(CheckpointsOf(policy, m, keys, step))
  {
    if keys != [] {
      var front, k := keys[..|keys| - 1], keys[|keys| - 1];
      EmittedInKeyOrder(policy, m, front, step);
      var before := CheckpointsOf(policy, m, front, step);
      forall i | 0 <= i < |before|
        ensures STRING_LESS(before[i].workspaceId, k) && before[i].workspaceId in keys
      {
        assert before[i].workspaceId in front;
        var x :| 0 <= x < |front| && front[x] == before[i].workspaceId;
        assert keys[x] == front[x];
      }
      AppendInOrder(before, CheckpointOf(policy, k, Lookup(m, k), step), keys, k);
    }
  }

  lemma AppendInOrder(before: seq<Checkpoint>, here: seq<Checkpoint>, keys: seq<string>, k: string)
    requires InOrder(before) && |here| <= 1 && k in keys
    requires forall i :: 0 <= i < |before| ==> STRING_LESS(before[i].workspaceId, k) && before[i].workspaceId in keys
    requires forall i :: 0 <= i < |here| ==> here[i].workspaceId == k
    ensures InOrder(before + here) && Within(before + here, keys)
  {
  }

  /** The workspaces of a drain appear in ascending order, each at most once. */
  lemma DrainIsInWorkspaceOrder(policy: Policy, m: Workspaces, step: Step)
    ensures InOrder(AllTaken(policy, m, step).checkpoints)
  {
    StringOrder();
    ListingSorted(STRING_LESS, m.Keys);
    EmittedInKeyOrder(policy, m, SortedKeys(m.Keys), step);
  }
}
