/**
 The agent's event log: sequence allocation, replay for new subscribers and live delivery, each
 operation being one step under the log's lock. A channel remembers everything sent into it.
 */
module EventLog {
  import opened Common

  datatype Event = Event(sequence: u64, payload: string)

  /** None replays from the start. */
  type Cursor = Option<u64>

  datatype Channel = Channel(cursor: Cursor, replay: seq<Event>, sent: seq<Event>, connected: bool)

  /** Subscribers are the senders still held; a sender is named by the index of its channel. */
  datatype Log = Log(next: u64, events: seq<Event>, subscribers: seq<nat>, channels: seq<Channel>)

  predicate Accepts(cursor: Cursor, sequence: u64) {
    cursor.Some? ==> sequence > cursor.value
  }

  function Accepted(cursor: Cursor, events: seq<Event>): seq<Event> {
    if events == [] then []
    else
      var front, last := Accepted(cursor, events[..|events| - 1]), events[|events| - 1];
      if Accepts(cursor, last.sequence) then front + [last] else front
  }

  // ---------------------------------------------------------------- the steps

  function Received(channels: seq<Channel>, ids: seq<nat>, e: Event): (after: seq<Channel>)
    ensures |after| == |channels|
  {
    seq(|channels|, i requires 0 <= i < |channels| =>
      if i in ids && channels[i].connected then channels[i].(sent := channels[i].sent + [e]) else channels[i])
  }

  function Connected(channels: seq<Channel>, ids: seq<nat>): (kept: seq<nat>)
    ensures forall i :: i in kept ==> i in ids
  {
    if ids == [] then []
    else
      var front, last := Connected(channels, ids[..|ids| - 1]), ids[|ids| - 1];
      if last < |channels| && channels[last].connected then front + [last] else front
  }

  /** The payload is None when its envelope cannot be built; its number is consumed all the same. */
  function Published(log: Log, payload: Option<string>): Log {
    if log.next == 0 || log.next == U64_MAX then log
    else
      var numbered := log.(next := log.next + 1);
      match payload
      case None => numbered
      case Some(p) =>
        var e := Event(log.next, p);
        numbered.(events := log.events + [e],
                  subscribers := Connected(log.channels, log.subscribers),
                  channels := Received(log.channels, log.subscribers, e))
  }

  function Subscribed(log: Log, cursor: Cursor): Log {
    log.(subscribers := log.subscribers + [|log.channels|],
         channels := log.channels + [Channel(cursor, Accepted(cursor, log.events), [], true)])
  }

  function Disconnected(log: Log, id: nat): Log {
    if id < |log.channels| then log.(channels := log.channels[id := log.channels[id].(connected := false)]) else log
  }

  datatype Op = Publish(payload: Option<string>) | Subscribe(cursor: Cursor) | Disconnect(id: nat)

  function Step(log: Log, op: Op): Log {
    match op
    case Publish(payload) => Published(log, payload)
    case Subscribe(cursor) => Subscribed(log, cursor)
    case Disconnect(id) => Disconnected(log, id)
  }

  function Run(log: Log, ops: seq<Op>): Log {
    if ops == [] then log else Step(Run(log, ops[..|ops| - 1]), ops[|ops| - 1])
  }

  const EMPTY := Log(1, [], [], [])

  // ---------------------------------------------------------------- invariants of every run

  /** Logged numbers rise and stay below the next one. */
  ghost predicate Numbered(log: Log) {
    && log.next >= 1
    && (forall i :: 0 <= i < |log.events| ==> 1 <= log.events[i].sequence < log.next)
    && (forall i, j :: 0 <= i < j < |log.events| ==> log.events[i].sequence < log.events[j].sequence)
  }

  /** The senders held name distinct channels, every connected one among them. */
  ghost predicate Wired(log: Log) {
    && (forall i :: 0 <= i < |log.subscribers| ==> log.subscribers[i] < |log.channels|)
    && (forall i, j :: 0 <= i < j < |log.subscribers| ==> log.subscribers[i] != log.subscribers[j])
    && (forall id :: 0 <= id < |log.channels| && log.channels[id].connected ==> id in log.subscribers)
  }

  ghost predicate Inv(log: Log) {
    Numbered(log) && Wired(log)
  }

  lemma {:induction false} ConnectedKeeps(channels: seq<Channel>, ids: seq<nat>)
    requires forall i, j :: 0 <= i < j < |ids| ==> ids[i] != ids[j]
    requires forall i :: 0 <= i < |ids| ==> ids[i] < |channels|
    ensures var kept := Connected(channels, ids);
            && (forall i :: 0 <= i < |kept| ==> kept[i] < |channels|)
            && (forall i, j :: 0 <= i < j < |kept| ==> kept[i] != kept[j])
            && (forall id :: id in kept <==> id in ids && channels[id].connected)
  {
    if ids != [] {
      var n := |ids| - 1;
      ConnectedKeeps(channels, ids[..n]);
      assert ids == ids[..n] + [ids[n]];
      assert ids[n] !in ids[..n];
    }
  }

  lemma StepKeepsInv(log: Log, op: Op)
    requires Inv(log)
    ensures Inv(Step(log, op))
  {
    if op.Publish? {
      ConnectedKeeps(log.channels, log.subscribers);
    }
  }

  lemma {:induction false} RunKeepsInv(log: Log, ops: seq<Op>)
    requires Inv(log)
    ensures Inv(Run(log, ops))
  {
    if ops != [] {
      RunKeepsInv(log, ops[..|ops| - 1]);
      StepKeepsInv(Run(log, ops[..|ops| - 1]), ops[|ops| - 1]);
    }
  }

  /** In every reachable state the logged numbers rise strictly and lie below the next one. */
  lemma SequencesRise(ops: seq<Op>)
    ensures Numbered(Run(EMPTY, ops))
  {
    RunKeepsInv(EMPTY, ops);
  }

  // ---------------------------------------------------------------- replay and live delivery

  /** The channel replayed the first n events, got the later ones from the first on and, while
      connected, all of them. */
  ghost predicate Following(log: Log, id: nat, cursor: Cursor, n: nat) {
    && id < |log.channels| && n <= |log.events|
    && var c := log.channels[id];
       && c.cursor == cursor
       && c.replay == Accepted(cursor, log.events[..n])
       && c.sent <= log.events[n..]
       && (c.connected ==> c.sent == log.events[n..])
  }

  lemma StepKeepsFollowing(log: Log, op: Op, id: nat, cursor: Cursor, n: nat)
    requires Inv(log) && Following(log, id, cursor, n)
    ensures Following(Step(log, op), id, cursor, n)
    ensures |log.events| <= |Step(log, op).events| && Step(log, op).events[..|log.events|] == log.events
  {
    var after := Step(log, op);
    if after.events != log.events {
      var e := after.events[|log.events|];
      assert after.events == log.events + [e];
      assert after.events[..n] == log.events[..n];
      assert after.events[n..] == log.events[n..] + [e];
      assert after.events[..|log.events|] == log.events;
    }
  }

  lemma {:induction false} RunKeepsFollowing(log: Log, ops: seq<Op>, id: nat, cursor: Cursor, n: nat)
    requires Inv(log) && Following(log, id, cursor, n)
    ensures Following(Run(log, ops), id, cursor, n)
    ensures |log.events| <= |Run(log, ops).events| && Run(log, ops).events[..|log.events|] == log.events
  {
    if ops != [] {
      var front := ops[..|ops| - 1];
      RunKeepsFollowing(log, front, id, cursor, n);
      RunKeepsInv(log, front);
      StepKeepsFollowing(Run(log, front), ops[|ops| - 1], id, cursor, n);
      var mid, end := Run(log, front).events, Run(log, ops).events;
      assert end[..|log.events|] == end[..|mid|][..|log.events|];
    }
  }

  lemma {:induction false} AcceptedSplit(cursor: Cursor, events: seq<Event>, n: nat)
    requires n <= |events|
    ensures Accepted(cursor, events) == Accepted(cursor, events[..n]) + Accepted(cursor, events[n..])
  {
    if n == |events| {
      assert events[..n] == events && events[n..] == [];
    } else {
      var m := |events| - 1;
      AcceptedSplit(cursor, events[..m], n);
      assert events[..m][..n] == events[..n];
      assert events[n..][..m - n] == events[..m][n..];
    }
  }

  lemma {:induction false} AcceptedShorter(cursor: Cursor, events: seq<Event>)
    ensures |Accepted(cursor, events)| <= |events|
    ensures Accepted(cursor, events) == events
            <==> forall i :: 0 <= i < |events| ==> Accepts(cursor, events[i].sequence)
  {
    if events != [] {
      var n := |events| - 1;
      AcceptedShorter(cursor, events[..n]);
      if Accepted(cursor, events) == events {
        assert Accepted(cursor, events)[..n] == Accepted(cursor, events[..n]) == events[..n];
        forall i | 0 <= i < |events| ensures Accepts(cursor, events[i].sequence) {
          assert i < n ==> events[..n][i] == events[i];
        }
      }
      assert events == events[..n] + [events[n]];
    }
  }

  /** Replay and channel together are the events after the cursor exactly when every event sent
      live lies after the cursor. */
  lemma DeliveryExactly(log: Log, id: nat, cursor: Cursor, n: nat)
    requires Following(log, id, cursor, n) && log.channels[id].connected
    ensures log.channels[id].replay + log.channels[id].sent == Accepted(cursor, log.events)
            <==> forall i :: n <= i < |log.events| ==> Accepts(cursor, log.events[i].sequence)
  {
    var tail := log.events[n..];
    AcceptedSplit(cursor, log.events, n);
    AcceptedShorter(cursor, tail);
    var replay := log.channels[id].replay;
    if replay + tail == replay + Accepted(cursor, tail) {
      assert tail == (replay + tail)[|replay|..] == (replay + Accepted(cursor, tail))[|replay|..];
    }
    assert forall i :: n <= i < |log.events| ==> log.events[i] == tail[i - n];
  }

  predicate NotAhead(cursor: Cursor, next: u64) {
    cursor.Some? ==> cursor.value < next
  }

  /** What a subscriber has got lies at the head of the events after its cursor, without a hole, and
      while it is connected is all of them. */
  ghost predicate SeesExactly(log: Log, cursor: Cursor, ops: seq<Op>) {
    var id := |log.channels|;
    var end := Run(Subscribed(log, cursor), ops);
    && id < |end.channels|
    && var seen := end.channels[id].replay + end.channels[id].sent;
       && seen <= Accepted(cursor, end.events)
       && (end.channels[id].connected ==> seen == Accepted(cursor, end.events))
  }

  /** If every event sent live lies after the cursor, nothing else was seen and nothing was skipped. */
  lemma DeliveryIsPrefix(log: Log, id: nat, cursor: Cursor, n: nat)
    requires Following(log, id, cursor, n)
    requires forall i :: n <= i < |log.events| ==> Accepts(cursor, log.events[i].sequence)
    ensures log.channels[id].replay + log.channels[id].sent <= Accepted(cursor, log.events)
    ensures log.channels[id].connected
            ==> log.channels[id].replay + log.channels[id].sent == Accepted(cursor, log.events)
  {
    var tail := log.events[n..];
    AcceptedSplit(cursor, log.events, n);
    AcceptedShorter(cursor, tail);
    assert forall i :: 0 <= i < |tail| ==> tail[i] == log.events[n + i];
    assert Accepted(cursor, log.events) == log.channels[id].replay + tail;
  }

  lemma SubscriberFollows(log: Log, cursor: Cursor, ops: seq<Op>)
    requires Inv(log)
    ensures Following(Run(Subscribed(log, cursor), ops), |log.channels|, cursor, |log.events|)
    ensures Run(Subscribed(log, cursor), ops).events[..|log.events|] == log.events
    ensures Inv(Run(Subscribed(log, cursor), ops))
  {
    var start := Subscribed(log, cursor);
    StepKeepsInv(log, Subscribe(cursor));
    assert log.events[..|log.events|] == log.events && log.events[|log.events|..] == [];
    RunKeepsFollowing(start, ops, |log.channels|, cursor, |log.events|);
    RunKeepsInv(start, ops);
  }

  lemma {:induction false} LaterEventsAreLater(log: Log, ops: seq<Op>, i: nat)
    requires Inv(log) && |log.events| <= i < |Run(log, ops).events|
    ensures Run(log, ops).events[i].sequence >= log.next && Run(log, ops).next >= log.next
    decreases |ops|
  {
    if ops != [] {
      var front := ops[..|ops| - 1];
      NextRises(log, front);
      if i < |Run(log, front).events| {
        LaterEventsAreLater(log, front, i);
      }
    }
  }

  lemma {:induction false} NextRises(log: Log, ops: seq<Op>)
    ensures Run(log, ops).next >= log.next
  {
    if ops != [] {
      NextRises(log, ops[..|ops| - 1]);
    }
  }

  lemma NotAheadSees(log: Log, cursor: Cursor, ops: seq<Op>)
    requires Inv(log) && NotAhead(cursor, log.next)
    ensures SeesExactly(log, cursor, ops)
  {
    var start := Subscribed(log, cursor);
    var end := Run(start, ops);
    SubscriberFollows(log, cursor, ops);
    StepKeepsInv(log, Subscribe(cursor));
    forall i | |log.events| <= i < |end.events| ensures Accepts(cursor, end.events[i].sequence) {
      LaterEventsAreLater(start, ops, i);
    }
    DeliveryIsPrefix(end, |log.channels|, cursor, |log.events|);
  }

  lemma {:induction false} ExhaustedStays(log: Log, ops: seq<Op>)
    requires log.next == U64_MAX
    ensures Run(log, ops).next == U64_MAX && Run(log, ops).events == log.events
  {
    if ops != [] {
      ExhaustedStays(log, ops[..|ops| - 1]);
    }
  }

  /** The exact guard: in every run a new subscriber sees exactly the events after its cursor, up to
      where it was cut off, if the cursor is not ahead of the log (or no number is left). With a cursor
      that is ahead, the next publication is delivered live although it does not lie after the cursor. */
  lemma CursorGuardExactly(log: Log, cursor: Cursor)
    requires Inv(log)
    ensures (forall ops :: SeesExactly(log, cursor, ops)) <==> NotAhead(cursor, log.next) || log.next == U64_MAX
  {
    if NotAhead(cursor, log.next) {
      forall ops ensures SeesExactly(log, cursor, ops) {
        NotAheadSees(log, cursor, ops);
      }
    } else if log.next == U64_MAX {
      forall ops ensures SeesExactly(log, cursor, ops) {
        ExhaustedSees(log, cursor, ops);
      }
    } else {
      AheadFails(log, cursor);
    }
  }

  lemma ExhaustedSees(log: Log, cursor: Cursor, ops: seq<Op>)
    requires Inv(log) && log.next == U64_MAX
    ensures SeesExactly(log, cursor, ops)
  {
    SubscriberFollows(log, cursor, ops);
    ExhaustedStays(Subscribed(log, cursor), ops);
    DeliveryIsPrefix(Run(Subscribed(log, cursor), ops), |log.channels|, cursor, |log.events|);
  }

  lemma AheadFails(log: Log, cursor: Cursor)
    requires Inv(log) && !NotAhead(cursor, log.next) && log.next < U64_MAX
    ensures !SeesExactly(log, cursor, [Publish(Some(""))])
  {
    var ops, start := [Publish(Some(""))], Subscribed(log, cursor);
    assert ops[..0] == [] && Run(start, ops[..0]) == start;
    var end := Run(start, ops);
    assert end == Published(start, Some(""));
    assert |log.channels| in start.subscribers by {
      assert start.subscribers[|log.subscribers|] == |log.channels|;
    }
    SubscriberFollows(log, cursor, ops);
    assert end.channels[|log.channels|].connected && end.events[|log.events|].sequence == log.next;
    assert !Accepts(cursor, end.events[|log.events|].sequence);
    DeliveryExactly(end, |log.channels|, cursor, |log.events|);
  }

  // ---------------------------------------------------------------- holes in the numbering

  /** The numbers consumed by publications whose payload failed. */
  function FailedNumbers(log: Log, ops: seq<Op>): set<u64> {
    if ops == [] then {}
    else
      var before, last := Run(log, ops[..|ops| - 1]), ops[|ops| - 1];
      FailedNumbers(log, ops[..|ops| - 1])
      + if last == Publish(None) && before.next != 0 && before.next != U64_MAX then {before.next} else {}
  }

  ghost predicate IsLogged(log: Log, k: u64) {
    exists i :: 0 <= i < |log.events| && log.events[i].sequence == k
  }

  lemma {:induction false} FailedBelowNext(ops: seq<Op>)
    ensures forall k :: k in FailedNumbers(EMPTY, ops) ==> 1 <= k < Run(EMPTY, ops).next
  {
    if ops != [] {
      var front := ops[..|ops| - 1];
      FailedBelowNext(front);
      NextRises(EMPTY, front);
    }
  }

  lemma LoggedByStep(log: Log, op: Op, k: u64)
    requires Inv(log)
    ensures IsLogged(Step(log, op), k)
            <==> IsLogged(log, k) || (op.Publish? && op.payload.Some? && log.next != U64_MAX && k == log.next)
  {
    var after := Step(log, op);
    if after.events != log.events {
      assert after.events == log.events + [Event(log.next, op.payload.value)];
      assert after.events[|log.events|].sequence == log.next;
      if IsLogged(log, k) {
        var i :| 0 <= i < |log.events| && log.events[i].sequence == k;
        assert after.events[i].sequence == k;
      }
    }
  }

  /** Every number below the next one is logged or was consumed by a failed payload, never both. */
  lemma {:induction false} HolesAreFailures(ops: seq<Op>, k: u64)
    requires 1 <= k < Run(EMPTY, ops).next
    ensures IsLogged(Run(EMPTY, ops), k) <==> k !in FailedNumbers(EMPTY, ops)
  {
    if ops != [] {
      var front := ops[..|ops| - 1];
      var log := Run(EMPTY, front);
      RunKeepsInv(EMPTY, front);
      LoggedByStep(log, ops[|ops| - 1], k);
      FailedBelowNext(front);
      if k < log.next {
        HolesAreFailures(front, k);
      } else {
        assert !IsLogged(log, k);
      }
    }
  }

  // ---------------------------------------------------------------- the client's gap detector

  /** `EventGapDetector::observe_sequence`: the new cursor, or None for a gap. */
  function Observe(cursor: Cursor, sequence: u64): Option<Cursor> {
    if cursor.Some? && sequence != (if cursor.value == U64_MAX then cursor.value else cursor.value + 1) then None
    else Some(Some(sequence))
  }

  predicate GapFree(cursor: Cursor, events: seq<Event>)
    decreases |events|
  {
    events == [] ||
    match Observe(cursor, events[0].sequence)
    case None => false
    case Some(next) => GapFree(next, events[1..])
  }

  lemma {:induction false} GapFreeIsConsecutive(c: u64, events: seq<Event>)
    requires forall i :: 0 <= i < |events| ==> events[i].sequence < U64_MAX
    requires c < U64_MAX
    ensures GapFree(Some(c), events) <==> forall i :: 0 <= i < |events| ==> events[i].sequence == c + 1 + i
    decreases |events|
  {
    if events != [] {
      var tail := events[1..];
      if events[0].sequence == c + 1 {
        GapFreeIsConsecutive(c + 1, tail);
        if forall i :: 0 <= i < |tail| ==> tail[i].sequence == c + 2 + i {
          forall i | 0 <= i < |events| ensures events[i].sequence == c + 1 + i {
            assert i > 0 ==> events[i] == tail[i - 1];
          }
        }
        if forall i :: 0 <= i < |events| ==> events[i].sequence == c + 1 + i {
          forall i | 0 <= i < |tail| ensures tail[i].sequence == c + 2 + i {
            assert tail[i] == events[i + 1];
          }
        }
      }
    }
  }

  lemma {:induction false} AcceptedMembers(cursor: Cursor, events: seq<Event>)
    ensures forall e :: e in Accepted(cursor, events) <==> e in events && Accepts(cursor, e.sequence)
  {
    if events != [] {
      var n := |events| - 1;
      AcceptedMembers(cursor, events[..n]);
      assert events == events[..n] + [events[n]];
    }
  }

  ghost predicate Rising(events: seq<Event>) {
    forall i, j :: 0 <= i < j < |events| ==> events[i].sequence < events[j].sequence
  }

  lemma {:induction false} AcceptedRise(cursor: Cursor, events: seq<Event>)
    requires Rising(events)
    ensures Rising(Accepted(cursor, events))
  {
    if events != [] {
      var n := |events| - 1;
      AcceptedRise(cursor, events[..n]);
      AcceptedMembers(cursor, events[..n]);
      RisingAppend(events, Accepted(cursor, events[..n]));
    }
  }

  lemma RisingAppend(events: seq<Event>, front: seq<Event>)
    requires Rising(events) && events != [] && Rising(front)
    requires forall e :: e in front ==> e in events[..|events| - 1]
    ensures Rising(front + [events[|events| - 1]])
  {
    forall i | 0 <= i < |front| ensures front[i].sequence < events[|events| - 1].sequence {
      assert front[i] in front;
    }
  }

  /** A number after c up to the last one seen that did not fail is seen. */
  lemma NumberIsSeen(ops: seq<Op>, c: u64, k: u64)
    requires var s := Accepted(Some(c), Run(EMPTY, ops).events);
             s != [] && NoneFailedUpTo(ops, c, s[|s| - 1].sequence) && c < k <= s[|s| - 1].sequence
    ensures var s := Accepted(Some(c), Run(EMPTY, ops).events);
            exists m :: 0 <= m < |s| && s[m].sequence == k
  {
    var log := Run(EMPTY, ops);
    var s := Accepted(Some(c), log.events);
    SequencesRise(ops);
    AcceptedMembers(Some(c), log.events);
    assert s[|s| - 1] in s;
    HolesAreFailures(ops, k);
    var j :| 0 <= j < |log.events| && log.events[j].sequence == k;
    assert log.events[j] in s;
  }

  /** Without failures, the numbers seen after c are c + 1, c + 2 and so on. */
  lemma {:induction false} ConsecutiveWithoutHoles(ops: seq<Op>, c: u64, i: nat)
    requires var s := Accepted(Some(c), Run(EMPTY, ops).events);
             i < |s| && NoneFailedUpTo(ops, c, s[|s| - 1].sequence)
    ensures Accepted(Some(c), Run(EMPTY, ops).events)[i].sequence == c + 1 + i
  {
    var s := Accepted(Some(c), Run(EMPTY, ops).events);
    SequencesRise(ops);
    AcceptedMembers(Some(c), Run(EMPTY, ops).events);
    AcceptedRise(Some(c), Run(EMPTY, ops).events);
    assert s[i] in s && s[i].sequence > c;
    if i > 0 {
      ConsecutiveWithoutHoles(ops, c, i - 1);
      assert s[i - 1].sequence < s[i].sequence;
    }
    if s[i].sequence > c + 1 + i {
      assert s[i].sequence <= s[|s| - 1].sequence;
      NumberIsSeen(ops, c, c + 1 + i);
    }
  }

  /** A client that starts its gap detector at its cursor is told of a gap exactly when a number
      between the cursor and the last event it got was consumed by a failed payload. */
  lemma GapReportedExactly(ops: seq<Op>, c: u64)
    requires c < Run(EMPTY, ops).next
    ensures var s := Accepted(Some(c), Run(EMPTY, ops).events);
            GapFree(Some(c), s)
            <==> s == [] || NoneFailedUpTo(ops, c, s[|s| - 1].sequence)
  {
    var log := Run(EMPTY, ops);
    var s := Accepted(Some(c), log.events);
    SequencesRise(ops);
    AcceptedMembers(Some(c), log.events);
    forall i | 0 <= i < |s| ensures s[i].sequence < log.next <= U64_MAX {
      assert s[i] in s;
    }
    GapFreeIsConsecutive(c, s);
    if s != [] && NoneFailedUpTo(ops, c, s[|s| - 1].sequence) {
      forall i | 0 <= i < |s| ensures s[i].sequence == c + 1 + i {
        ConsecutiveWithoutHoles(ops, c, i);
      }
    }
    if s != [] && forall i :: 0 <= i < |s| ==> s[i].sequence == c + 1 + i {
      ConsecutiveHasNoHoles(ops, c);
    }
  }

  predicate NoneFailedUpTo(ops: seq<Op>, c: u64, last: u64) {
    forall k :: k in FailedNumbers(EMPTY, ops) && k > c ==> k > last
  }

  lemma ConsecutiveHasNoHoles(ops: seq<Op>, c: u64)
    requires var s := Accepted(Some(c), Run(EMPTY, ops).events);
             s != [] && forall i :: 0 <= i < |s| ==> s[i].sequence == c + 1 + i
    ensures var s := Accepted(Some(c), Run(EMPTY, ops).events);
            NoneFailedUpTo(ops, c, s[|s| - 1].sequence)
  {
    var log := Run(EMPTY, ops);
    var s := Accepted(Some(c), log.events);
    AcceptedMembers(Some(c), log.events);
    FailedBelowNext(ops);
    forall k: u64 | c < k <= c + |s| ensures IsLogged(log, k) {
      var e := s[k - c - 1];
      assert e in s && e.sequence == k;
    }
    forall k | k in FailedNumbers(EMPTY, ops) && k > c ensures k > s[|s| - 1].sequence {
      HolesAreFailures(ops, k);
    }
  }

  // ---------------------------------------------------------------- the log object

  lemma ReceivedStep(channels: seq<Channel>, ids: seq<nat>, n: nat, e: Event)
    requires n < |ids| && ids[n] < |channels| && ids[n] !in ids[..n]
    ensures var before, id := Received(channels, ids[..n], e), ids[n];
            && before[id] == channels[id]
            && Received(channels, ids[..n + 1], e)
               == if channels[id].connected
                  then before[id := channels[id].(sent := channels[id].sent + [e])] else before
  {
    assert ids[..n + 1] == ids[..n] + [ids[n]];
  }

  class AgentEventLog {
    var nextSequence: u64
    var events: seq<Event>
    var subscribers: seq<nat>
    var channels: seq<Channel>

    function State(): Log
      reads this
    {
      Log(nextSequence, events, subscribers, channels)
    }

    constructor ()
      ensures State() == EMPTY
    {
      nextSequence, events, subscribers, channels := 1, [], [], [];
    }

    method Publish(payload: Option<string>) returns (published: Option<Event>)
      requires Inv(State())
      modifies this
      ensures State() == Published(old(State()), payload) && Inv(State())
      ensures published.Some? <==> payload.Some? && old(nextSequence) != U64_MAX
      ensures published.Some? ==>
                && published.value == Event(old(nextSequence), payload.value)
                && events == old(events) + [published.value]
    {
      StepKeepsInv(State(), Op.Publish(payload));
      var sequence := nextSequence;
      if sequence == 0 || nextSequence == U64_MAX {
        return None;
      }
      nextSequence := nextSequence + 1;
      if payload.None? {
        return None;
      }
      var event := Event(sequence, payload.value);
      events := events + [event];
      RetainSubscribers(event);
      return Some(event);
    }

    /** Sends to every subscriber in turn and keeps those whose receiver is still there. */
    method RetainSubscribers(event: Event)
      requires Wired(State())
      modifies this`subscribers, this`channels
      ensures subscribers == Connected(old(channels), old(subscribers))
      ensures channels == Received(old(channels), old(subscribers), event)
    {
      ghost var before := channels;
      var senders := subscribers;
      var kept: seq<nat> := [];
      assert Received(before, [], event) == before;
      var i := 0;
      while i < |senders|
        invariant 0 <= i <= |senders|
        invariant kept == Connected(before, senders[..i])
        invariant channels == Received(before, senders[..i], event)
      {
        assert senders[..i + 1][..i] == senders[..i];
        var id := senders[i];
        var ok := channels[id].connected;
        ReceivedStep(before, senders, i, event);
        if ok {
          channels := channels[id := channels[id].(sent := channels[id].sent + [event])];
          kept := kept + [id];
        }
        i := i + 1;
      }
      assert senders[..i] == senders;
      subscribers := kept;
    }

    method Subscribe(cursor: Cursor) returns (id: nat, replay: seq<Event>, current: Option<u64>)
      requires Inv(State())
      modifies this`subscribers, this`channels
      ensures State() == Subscribed(old(State()), cursor) && Inv(State())
      ensures id == |old(channels)| && replay == Accepted(cursor, events)
      ensures current == if nextSequence == 1 then None else Some(nextSequence - 1)
    {
      StepKeepsInv(State(), Op.Subscribe(cursor));
      replay := [];
      var i := 0;
      while i < |events|
        invariant 0 <= i <= |events|
        invariant replay == Accepted(cursor, events[..i])
      {
        assert events[..i + 1][..i] == events[..i];
        if Accepts(cursor, events[i].sequence) {
          replay := replay + [events[i]];
        }
        i := i + 1;
      }
      assert events[..i] == events;
      current := if nextSequence == 1 then None else Some(nextSequence - 1);
      id := |channels|;
      channels := channels + [Channel(cursor, replay, [], true)];
      subscribers := subscribers + [id];
    }

    /** The connection's loop ended and dropped its receiver. */
    method Disconnect(id: nat)
      requires Inv(State()) && id < |channels|
      modifies this`channels
      ensures State() == Disconnected(old(State()), id) && Inv(State())
    {
      StepKeepsInv(State(), Op.Disconnect(id));
      channels := channels[id := channels[id].(connected := false)];
    }
  }
}
