/**
 The pipeline of one workspace when handling is not tied to taking: a drained or flushed checkpoint
 waits in a queue until it is handled, with other steps in between. A success clears the dirty flag
 without comparing generations, so a change can be hidden; when exactly, and that prompt handling
 hides nothing.
 */
module LateHandling {
  import opened Common
  import opened Order
  import D = Debounce
  import opened DebounceHistory
  import opened Protection

  /** A step of the debouncer, or the k-th waiting checkpoint is handled. */
  datatype Event = Debounced(step: D.Step) | Handled(k: nat, outcome: Outcome)

  /** `queue` holds the generations of the checkpoints taken and not yet handled. */
  datatype Late = Late(held: D.Workspace, queue: seq<u64>, manager: CheckpointState)

  const START: Late := Late(D.FRESH, [], CLEAN)

  function LateStep(policy: D.Policy, s: Late, e: Event): Late {
    match e
    case Debounced(step) =>
      Late(D.Next(policy, s.held, step),
           if D.TakesCheckpoint(policy, s.held, step).Some? then s.queue + [s.held.generation] else s.queue,
           if step.Observe? then Marked(s.manager, step.generation) else s.manager)
    case Handled(k, outcome) =>
      if k >= |s.queue| then s
      else Late(s.held, s.queue[..k] + s.queue[k + 1..], Recorded(s.manager, s.queue[k], outcome))
  }

  /** The state before event n. */
  function After(policy: D.Policy, events: seq<Event>, n: nat): Late
    requires n <= |events|
  {
    if n == 0 then START else LateStep(policy, After(policy, events, n - 1), events[n - 1])
  }

  // ---------------------------------------------------------------- what happened when

  predicate NoticeAt(events: seq<Event>, i: int) {
    0 <= i < |events| && events[i].Debounced? && events[i].step.Observe?
  }

  /** A change that the debouncer keeps. */
  predicate ChangeAt(events: seq<Event>, i: int) {
    NoticeAt(events, i) && events[i].step.paths != []
  }

  predicate TakeAt(policy: D.Policy, events: seq<Event>, i: int) {
    && 0 <= i < |events| && events[i].Debounced?
    && D.TakesCheckpoint(policy, After(policy, events, i).held, events[i].step).Some?
  }

  predicate RecordAt(policy: D.Policy, events: seq<Event>, i: int) {
    0 <= i < |events| && events[i].Handled? && events[i].k < |After(policy, events, i).queue|
  }

  predicate SuccessAt(policy: D.Policy, events: seq<Event>, i: int) {
    RecordAt(policy, events, i) && !events[i].outcome.Failed?
  }

  predicate FailureAt(policy: D.Policy, events: seq<Event>, i: int) {
    RecordAt(policy, events, i) && events[i].outcome.Failed?
  }

  /** The last success before n, or -1. */
  function LastSuccessAt(policy: D.Policy, events: seq<Event>, n: nat): (r: int)
    requires n <= |events|
    ensures -1 <= r < n
    ensures r >= 0 ==> SuccessAt(policy, events, r)
    ensures forall i :: r < i < n ==> !SuccessAt(policy, events, i)
  {
    if n == 0 then -1
    else if SuccessAt(policy, events, n - 1) then n - 1
    else LastSuccessAt(policy, events, n - 1)
  }

  /** The last take before n, or -1. */
  function LastTakeAt(policy: D.Policy, events: seq<Event>, n: nat): (j: int)
    requires n <= |events|
    ensures -1 <= j < n
    ensures j >= 0 ==> TakeAt(policy, events, j)
    ensures forall i :: j < i < n ==> !TakeAt(policy, events, i)
  {
    if n == 0 then -1
    else if TakeAt(policy, events, n - 1) then n - 1
    else LastTakeAt(policy, events, n - 1)
  }

  ghost predicate UnsettledAt(policy: D.Policy, events: seq<Event>, r: int, n: nat) {
    exists i :: r < i < n && (NoticeAt(events, i) || FailureAt(policy, events, i))
  }

  ghost predicate ChangedBetween(events: seq<Event>, lo: int, hi: int) {
    exists c :: lo < c < hi && ChangeAt(events, c)
  }

  // ---------------------------------------------------------------- both sides read off the events

  /** The debouncer holds paths exactly when a change came after the last take. */
  lemma {:induction false} PendingExactly(policy: D.Policy, events: seq<Event>, n: nat)
    requires n <= |events|
    ensures After(policy, events, n).held.pending != {}
            <==> ChangedBetween(events, LastTakeAt(policy, events, n), n)
  {
    if n > 0 {
      PendingExactly(policy, events, n - 1);
      var before, e := After(policy, events, n - 1), events[n - 1];
      if e.Debounced? {
        DirtyStep(policy, before.held, e.step);
      }
      if ChangeAt(events, n - 1) {
        assert LastTakeAt(policy, events, n) < n - 1 < n;
      } else if !TakeAt(policy, events, n - 1) {
        SameChanges(events, LastTakeAt(policy, events, n), n - 1);
      }
    }
  }

  lemma SameChanges(events: seq<Event>, lo: int, hi: nat)
    requires !ChangeAt(events, hi)
    ensures ChangedBetween(events, lo, hi + 1) <==> ChangedBetween(events, lo, hi)
  {
  }

  /** The manager says dirty exactly when a change or a failure came after its last success. */
  lemma {:induction false} DirtyExactly(policy: D.Policy, events: seq<Event>, n: nat)
    requires n <= |events|
    ensures After(policy, events, n).manager.dirty
            <==> UnsettledAt(policy, events, LastSuccessAt(policy, events, n), n)
  {
    if n > 0 {
      DirtyExactly(policy, events, n - 1);
      if NoticeAt(events, n - 1) || FailureAt(policy, events, n - 1) {
        assert LastSuccessAt(policy, events, n) < n - 1 < n;
      }
    }
  }

  /** Paths are pending and the manager says clean. */
  predicate Hidden(s: Late) {
    s.held.pending != {} && !s.manager.dirty
  }

  /** r is a success with nothing noticed and nothing failed after it, and a change that no checkpoint
      took lies before it. */
  ghost predicate HiddenBy(policy: D.Policy, events: seq<Event>, n: nat, r: int)
    requires n <= |events|
  {
    && r < n && SuccessAt(policy, events, r) && !UnsettledAt(policy, events, r, n)
    && ChangedBetween(events, LastTakeAt(policy, events, n), r)
  }

  /**
   When late handling hides work: over every run, paths are pending while the manager says clean
   exactly if some success has neither a change nor a failure after it, and a change with paths lies
   between the last take and that success.
   */
  lemma LateHandlingHidesWork(policy: D.Policy, events: seq<Event>, n: nat)
    requires n <= |events|
    ensures Hidden(After(policy, events, n)) <==> exists r :: HiddenBy(policy, events, n, r)
  {
    PendingExactly(policy, events, n);
    DirtyExactly(policy, events, n);
    var j, r := LastTakeAt(policy, events, n), LastSuccessAt(policy, events, n);
    if Hidden(After(policy, events, n)) {
      var c :| j < c < n && ChangeAt(events, c);
      assert j < c < r;
      assert HiddenBy(policy, events, n, r);
    }
    if p :| HiddenBy(policy, events, n, p) {
      var c :| j < c < p && ChangeAt(events, c);
      assert j < c < n;
      assert p <= r;
    }
  }

  // ---------------------------------------------------------------- the stored generation

  /** The waiting generations never fall, and none is above the debouncer's. */
  ghost predicate QueueRises(s: Late) {
    && (forall i, j :: 0 <= i < j < |s.queue| ==> s.queue[i] <= s.queue[j])
    && (forall i :: 0 <= i < |s.queue| ==> s.queue[i] <= s.held.generation)
  }

  lemma GenerationNeverFalls(policy: D.Policy, ws: D.Workspace, step: D.Step)
    ensures D.Next(policy, ws, step).generation >= ws.generation
  {
  }

  lemma QueueStep(policy: D.Policy, s: Late, e: Event)
    requires QueueRises(s)
    ensures QueueRises(LateStep(policy, s, e))
  {
    if e.Debounced? {
      GenerationNeverFalls(policy, s.held, e.step);
    }
  }

  lemma {:induction false} QueueAlwaysRises(policy: D.Policy, events: seq<Event>, n: nat)
    requires n <= |events|
    ensures QueueRises(After(policy, events, n))
  {
    if n > 0 {
      QueueAlwaysRises(policy, events, n - 1);
      QueueStep(policy, After(policy, events, n - 1), events[n - 1]);
    }
  }

  /** The generation of the checkpoint a record handles. */
  function HandledGeneration(policy: D.Policy, events: seq<Event>, i: nat): u64
    requires RecordAt(policy, events, i)
  {
    After(policy, events, i).queue[events[i].k]
  }

  /** What the manager stores is the generation its last success handled. */
  lemma {:induction false} StoredIsLastHandled(policy: D.Policy, events: seq<Event>, n: nat)
    requires n <= |events|
    ensures var r := LastSuccessAt(policy, events, n);
            After(policy, events, n).manager.lastCheckpoint
            == if r < 0 then None else Some(HandledGeneration(policy, events, r))
  {
    if n > 0 {
      StoredIsLastHandled(policy, events, n - 1);
    }
  }

  /** A generation was passed over: it waits ahead of the one that is handled. */
  ghost predicate PassedOver(policy: D.Policy, events: seq<Event>, r: nat, g: u64) {
    RecordAt(policy, events, r) && exists i :: 0 <= i < events[r].k && After(policy, events, r).queue[i] == g
  }

  /** Whatever waits at n below the generation handled at r waited ahead of it at r. */
  lemma {:induction false} OlderWasWaiting(policy: D.Policy, events: seq<Event>, r: nat, n: nat, g: u64)
    requires r < n <= |events| && RecordAt(policy, events, r)
    requires g in After(policy, events, n).queue && g < HandledGeneration(policy, events, r)
    ensures PassedOver(policy, events, r, g)
  {
    var s := After(policy, events, n - 1);
    QueueAlwaysRises(policy, events, r);
    if n - 1 > r {
      HandledIsNotAhead(policy, events, r, n - 1);
      if g in s.queue {
        OlderWasWaiting(policy, events, r, n - 1, g);
      }
    }
  }

  /** The debouncer's generation is never below one that was handled. */
  lemma {:induction false} HandledIsNotAhead(policy: D.Policy, events: seq<Event>, r: nat, n: nat)
    requires r <= n <= |events| && RecordAt(policy, events, r)
    ensures HandledGeneration(policy, events, r) <= After(policy, events, n).held.generation
  {
    if n == r {
      QueueAlwaysRises(policy, events, r);
    } else {
      HandledIsNotAhead(policy, events, r, n - 1);
      if events[n - 1].Debounced? {
        GenerationNeverFalls(policy, After(policy, events, n - 1).held, events[n - 1].step);
      }
    }
  }

  /**
   When the stored generation falls: a success lowers it exactly if it handles a checkpoint of a smaller
   generation that the last success before it had passed over.
   */
  lemma StoredFallsExactly(policy: D.Policy, events: seq<Event>, n: nat)
    requires SuccessAt(policy, events, n) && LastSuccessAt(policy, events, n) >= 0
    ensures var before := After(policy, events, n).manager.lastCheckpoint;
            var after := After(policy, events, n + 1).manager.lastCheckpoint;
            var r, g := LastSuccessAt(policy, events, n), HandledGeneration(policy, events, n);
            && before.Some? && after.Some?
            && (after.value < before.value
                <==> PassedOver(policy, events, r, g) && g < HandledGeneration(policy, events, r))
  {
    var r, g := LastSuccessAt(policy, events, n), HandledGeneration(policy, events, n);
    StoredIsLastHandled(policy, events, n);
    StoredIsLastHandled(policy, events, n + 1);
    if g < HandledGeneration(policy, events, r) {
      OlderWasWaiting(policy, events, r, n, g);
    }
  }

  /** So it never falls if checkpoints are handled in the order they were taken. */
  lemma InOrderNeverFalls(policy: D.Policy, events: seq<Event>, n: nat)
    requires SuccessAt(policy, events, n) && LastSuccessAt(policy, events, n) >= 0
    requires forall i :: RecordAt(policy, events, i) ==> events[i].k == 0
    ensures After(policy, events, n).manager.lastCheckpoint.Some?
    ensures After(policy, events, n + 1).manager.lastCheckpoint.Some?
    ensures After(policy, events, n + 1).manager.lastCheckpoint.value
         >= After(policy, events, n).manager.lastCheckpoint.value
  {
    StoredFallsExactly(policy, events, n);
  }

  // ---------------------------------------------------------------- prompt handling

  /** No checkpoint waits when a change is noticed. */
  ghost predicate Prompt(policy: D.Policy, events: seq<Event>) {
    forall i :: NoticeAt(events, i) ==> After(policy, events, i).queue == []
  }

  lemma {:induction false} NothingWaits(policy: D.Policy, events: seq<Event>, c: nat, n: nat)
    requires c <= n <= |events| && After(policy, events, c).queue == []
    requires forall i :: c <= i < n ==> !TakeAt(policy, events, i)
    ensures After(policy, events, n).queue == []
  {
    if c < n {
      NothingWaits(policy, events, c, n - 1);
      assert !TakeAt(policy, events, n - 1);
    }
  }

  /** If every checkpoint is handled before the next change, nothing is ever hidden. */
  lemma PromptHidesNothing(policy: D.Policy, events: seq<Event>, n: nat)
    requires n <= |events| && Prompt(policy, events)
    ensures !Hidden(After(policy, events, n))
  {
    LateHandlingHidesWork(policy, events, n);
    if r :| HiddenBy(policy, events, n, r) {
      var c :| LastTakeAt(policy, events, n) < c < r && ChangeAt(events, c);
      NothingWaits(policy, events, c, r);
    }
  }

  /** The run of the pipeline in which each action handles at once what it takes. */
  function Unfolded(policy: D.Policy, actions: seq<Action>, n: nat): seq<Event>
    requires n <= |actions|
  {
    if n == 0 then []
    else
      Unfolded(policy, actions, n - 1) + [Debounced(actions[n - 1].step)]
      + (if Takes(policy, actions, n - 1) then [Handled(0, actions[n - 1].outcome)] else [])
  }

  lemma {:induction false} AfterPrefix(policy: D.Policy, first: seq<Event>, second: seq<Event>, n: nat)
    requires n <= |first|
    ensures After(policy, first + second, n) == After(policy, first, n)
  {
    if n > 0 {
      AfterPrefix(policy, first, second, n - 1);
    }
  }

  lemma AfterOneMore(policy: D.Policy, events: seq<Event>, e: Event)
    ensures After(policy, events + [e], |events| + 1) == LateStep(policy, After(policy, events, |events|), e)
  {
    AfterPrefix(policy, events, [e], |events|);
  }

  /** The state of the pipeline, with nothing waiting. */
  function Settled(policy: D.Policy, actions: seq<Action>, n: nat): Late
    requires n <= |actions|
  {
    Late(State(policy, Steps(actions), n), [], Managed(policy, actions, n))
  }

  /** Taking and handling at once is one action of the pipeline. */
  lemma ActionInTwo(policy: D.Policy, actions: seq<Action>, n: nat)
    requires n < |actions|
    ensures var taken := LateStep(policy, Settled(policy, actions, n), Debounced(actions[n].step));
            Settled(policy, actions, n + 1)
            == if Takes(policy, actions, n) then LateStep(policy, taken, Handled(0, actions[n].outcome)) else taken
  {
    if Takes(policy, actions, n) {
      OnlyChangesObserve(policy, actions, n);
    }
  }

  lemma AfterTwoMore(policy: D.Policy, events: seq<Event>, e: Event, f: Event)
    ensures After(policy, events + [e] + [f], |events + [e] + [f]|)
         == LateStep(policy, LateStep(policy, After(policy, events, |events|), e), f)
  {
    AfterOneMore(policy, events, e);
    AfterOneMore(policy, events + [e], f);
  }

  lemma UnfoldedStep(policy: D.Policy, actions: seq<Action>, n: nat)
    requires n < |actions|
    ensures var before, a := Unfolded(policy, actions, n), actions[n];
            Unfolded(policy, actions, n + 1)
            == if Takes(policy, actions, n) then before + [Debounced(a.step)] + [Handled(0, a.outcome)]
               else before + [Debounced(a.step)]
  {
  }

  lemma UnfoldedNext(policy: D.Policy, actions: seq<Action>, n: nat)
    requires n < |actions|
    requires After(policy, Unfolded(policy, actions, n), |Unfolded(policy, actions, n)|) == Settled(policy, actions, n)
    ensures var now := Unfolded(policy, actions, n + 1);
            After(policy, now, |now|) == Settled(policy, actions, n + 1)
  {
    var before, e, f := Unfolded(policy, actions, n), Debounced(actions[n].step), Handled(0, actions[n].outcome);
    UnfoldedStep(policy, actions, n);
    ActionInTwo(policy, actions, n);
    if Takes(policy, actions, n) {
      AfterTwoMore(policy, before, e, f);
    } else {
      AfterOneMore(policy, before, e);
    }
  }

  /** It goes through the states of the pipeline, with nothing waiting in between. */
  lemma {:induction false} UnfoldedStates(policy: D.Policy, actions: seq<Action>, n: nat)
    requires n <= |actions|
    ensures After(policy, Unfolded(policy, actions, n), |Unfolded(policy, actions, n)|) == Settled(policy, actions, n)
  {
    if n > 0 {
      UnfoldedStates(policy, actions, n - 1);
      UnfoldedNext(policy, actions, n - 1);
    }
  }

  lemma {:induction false} UnfoldedIsPrompt(policy: D.Policy, actions: seq<Action>, n: nat)
    requires n <= |actions|
    ensures Prompt(policy, Unfolded(policy, actions, n))
  {
    if n > 0 {
      var before := Unfolded(policy, actions, n - 1);
      var more := Unfolded(policy, actions, n)[|before|..];
      UnfoldedIsPrompt(policy, actions, n - 1);
      UnfoldedStates(policy, actions, n - 1);
      assert Unfolded(policy, actions, n) == before + more;
      forall i | NoticeAt(before + more, i) ensures After(policy, before + more, i).queue == [] {
        if i <= |before| {
          AfterPrefix(policy, before, more, i);
          assert i < |before| ==> NoticeAt(before, i);
        }
      }
    }
  }

  /** So in the pipeline pending work is always reported: the debouncer has paths only if the manager
      says dirty. */
  lemma PendingMeansDirty(policy: D.Policy, actions: seq<Action>, n: nat)
    requires n <= |actions|
    ensures State(policy, Steps(actions), n).pending != {} ==> Managed(policy, actions, n).dirty
  {
    var events := Unfolded(policy, actions, n);
    UnfoldedStates(policy, actions, n);
    UnfoldedIsPrompt(policy, actions, n);
    PromptHidesNothing(policy, events, |events|);
  }

  lemma FirstTaken(policy: D.Policy, p: Path, g: u64)
    ensures var one := LateStep(policy, START, Debounced(D.Observe(g, [p], 0)));
            var two := LateStep(policy, one, Debounced(D.Flush(D.ExplicitCheckpoint, 0)));
            two.held.pending == {} && two.queue == [g]
  {
    var one := LateStep(policy, START, Debounced(D.Observe(g, [p], 0)));
    assert p in one.held.pending && one.held.generation == g && one.queue == [];
  }

  lemma SecondHidden(policy: D.Policy, two: Late, q: Path, g: u64, g': u64, id: string, hash: string)
    requires two.held.pending == {} && two.queue == [g]
    ensures var three := LateStep(policy, two, Debounced(D.Observe(g', [q], 0)));
            var four := LateStep(policy, three, Handled(0, Created(id, hash)));
            Hidden(four) && four.held.pending == {q} && four.manager.lastCheckpoint == Some(g)
  {
    var three := LateStep(policy, two, Debounced(D.Observe(g', [q], 0)));
    assert q in three.held.pending && three.queue == [g];
  }

  lemma FourSteps(policy: D.Policy, events: seq<Event>)
    requires |events| == 4
    ensures After(policy, events, 4)
         == LateStep(policy, LateStep(policy, LateStep(policy, LateStep(policy, START, events[0]), events[1]),
                                      events[2]), events[3])
  {
    assert After(policy, events, 1) == LateStep(policy, After(policy, events, 0), events[0]);
    assert After(policy, events, 2) == LateStep(policy, After(policy, events, 1), events[1]);
    assert After(policy, events, 3) == LateStep(policy, After(policy, events, 2), events[2]);
  }

  /** Hidden work exists: a checkpoint that is handled only after the next change leaves the manager
      clean, and covered up to the first generation, while the debouncer holds the second path. */
  lemma HiddenWorkExists(policy: D.Policy, p: Path, q: Path, g: u64, g': u64, id: string, hash: string)
    ensures var events := [Debounced(D.Observe(g, [p], 0)), Debounced(D.Flush(D.ExplicitCheckpoint, 0)),
                           Debounced(D.Observe(g', [q], 0)), Handled(0, Created(id, hash))];
            var s := After(policy, events, 4);
            Hidden(s) && s.held.pending == {q} && s.manager.lastCheckpoint == Some(g)
  {
    var events := [Debounced(D.Observe(g, [p], 0)), Debounced(D.Flush(D.ExplicitCheckpoint, 0)),
                   Debounced(D.Observe(g', [q], 0)), Handled(0, Created(id, hash))];
    FourSteps(policy, events);
    FirstTaken(policy, p, g);
    SecondHidden(policy, LateStep(policy, LateStep(policy, START, events[0]), events[1]), q, g, g', id, hash);
  }
}
