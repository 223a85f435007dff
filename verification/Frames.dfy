/**
 Length-prefixed messages between agent and clients: the agent's blocking reader and writer, and
 the editor client's incremental decoder, which gets the stream in arbitrary pieces.
 */
module Frames {
  import opened Common
  import opened Zlib

  /** Both sides' default. */
  const MAX_MESSAGE: nat := 1024 * 1024

  // ---------------------------------------------------------------- the agent's side

  datatype ReadError = NoLength | TooLarge(len: nat) | Truncated
  datatype Read = Message(payload: seq<byte>, rest: seq<byte>) | Failed(error: ReadError)

  /** `write_framed_message`, None for a refused message. */
  function Framed(payload: seq<byte>, limit: nat): Option<seq<byte>> {
    if |payload| > limit || |payload| > U32_MAX then None else Some(BigEndian32(|payload|) + payload)
  }

  /** `read_framed_message` on a stream that ends after the given bytes. */
  function ReadFramed(s: seq<byte>, limit: nat): Read {
    if |s| < 4 then Failed(NoLength)
    else
      var len := FromBigEndian32(s[..4]);
      if len > limit then Failed(TooLarge(len))
      else if |s| < 4 + len then Failed(Truncated)
      else Message(s[4..4 + len], s[4 + len..])
  }

  /** A written message reads back, whatever follows it on the stream. */
  lemma FrameRoundTrip(payload: seq<byte>, limit: nat, rest: seq<byte>)
    requires Framed(payload, limit).Some?
    ensures ReadFramed(Framed(payload, limit).value + rest, limit) == Message(payload, rest)
  {
    var s := BigEndian32(|payload|) + payload + rest;
    assert s[..4] == BigEndian32(|payload|);
    BigEndianRoundTrip(|payload|);
    assert s[4..4 + |payload|] == payload && s[4 + |payload|..] == rest;
  }

  /** Messages written one after the other. */
  function Stream(messages: seq<seq<byte>>): seq<byte>
    requires forall m :: m in messages ==> |m| <= MAX_MESSAGE
  {
    if messages == [] then [] else Framed(messages[0], MAX_MESSAGE).value + Stream(messages[1..])
  }

  /** Reads until the stream fails; the messages read and the failure. */
  function ReadAll(s: seq<byte>): (seq<seq<byte>>, ReadError)
    decreases |s|
  {
    match ReadFramed(s, MAX_MESSAGE)
    case Failed(e) => ([], e)
    case Message(payload, rest) =>
      var (more, e) := ReadAll(rest);
      ([payload] + more, e)
  }

  /** A stream of messages, cut off anywhere inside a further length, reads back message by message. */
  lemma {:induction false} StreamRoundTrip(messages: seq<seq<byte>>, tail: seq<byte>)
    requires forall m :: m in messages ==> |m| <= MAX_MESSAGE
    requires |tail| < 4
    ensures ReadAll(Stream(messages) + tail) == (messages, NoLength)
  {
    if messages == [] {
      assert Stream(messages) + tail == tail;
    } else {
      var frame, more := Framed(messages[0], MAX_MESSAGE).value, Stream(messages[1..]);
      assert (frame + more) + tail == frame + (more + tail);
      FrameRoundTrip(messages[0], MAX_MESSAGE, more + tail);
      StreamRoundTrip(messages[1..], tail);
      assert [messages[0]] + messages[1..] == messages;
    }
  }

  // ---------------------------------------------------------------- the client's side

  /** What the caller's promise gets: the decoded response or one of the client's own errors. */
  datatype Outcome = Decoded(payload: seq<byte>) | TooLong | SocketError(message: string) | TimedOut

  function EncodeMessage(payload: seq<byte>): seq<byte>
    requires |payload| <= MAX_MESSAGE
  {
    BigEndian32(|payload|) + payload
  }

  function Concat(chunks: seq<seq<byte>>): seq<byte> {
    if chunks == [] then [] else Concat(chunks[..|chunks| - 1]) + chunks[|chunks| - 1]
  }

  /** The outcome as a function of the bytes received so far. */
  function OutcomeOf(s: seq<byte>): Option<Outcome> {
    if |s| < 4 then None
    else
      var len := FromBigEndian32(s[..4]);
      if len > MAX_MESSAGE then Some(TooLong)
      else if |s| >= len + 4 then Some(Decoded(s[4..len + 4])) else None
  }

  datatype Input = Data(chunk: seq<byte>) | Error(message: string) | Timeout

  /** The decoder's variables; `calls` are the promise's resolve and reject calls in order. */
  datatype State = State(
    chunks: seq<seq<byte>>, expected: Option<nat>, settled: bool, timerRuns: bool, calls: seq<Outcome>)

  const INITIAL := State([], None, false, true, [])

  function Settle(st: State, outcome: Outcome): State {
    if st.settled then st else st.(settled := true, timerRuns := false, calls := st.calls + [outcome])
  }

  function OnData(st: State, chunk: seq<byte>): State {
    var chunks := st.chunks + [chunk];
    var buffered := Concat(chunks);
    var expected := if st.expected.None? && |buffered| >= 4 then Some(FromBigEndian32(buffered[..4])) else st.expected;
    var next := st.(chunks := chunks, expected := expected);
    if st.expected.None? && expected.Some? && expected.value > MAX_MESSAGE then Settle(next, TooLong)
    else if expected.Some? && |buffered| >= expected.value + 4
    then Settle(next, Decoded(buffered[4..expected.value + 4]))
    else next
  }

  function Step(st: State, input: Input): State {
    match input
    case Data(chunk) => OnData(st, chunk)
    case Error(message) => Settle(st, SocketError(message))
    case Timeout => if st.timerRuns then st.(timerRuns := false, calls := st.calls + [TimedOut]) else st
  }

  function Run(inputs: seq<Input>): State {
    if inputs == [] then INITIAL else Step(Run(inputs[..|inputs| - 1]), inputs[|inputs| - 1])
  }

  /** A promise takes the first call. */
  function PromiseOf(st: State): Option<Outcome> {
    if st.calls == [] then None else Some(st.calls[0])
  }

  /** The bytes of the data events. */
  function Received(inputs: seq<Input>): seq<byte> {
    if inputs == [] then []
    else
      Received(inputs[..|inputs| - 1])
      + match inputs[|inputs| - 1] { case Data(chunk) => chunk case Error(_) => [] case Timeout => [] }
  }

  lemma OutcomeStays(s: seq<byte>, more: seq<byte>)
    requires OutcomeOf(s).Some?
    ensures OutcomeOf(s + more) == OutcomeOf(s)
  {
    assert (s + more)[..4] == s[..4];
    var len := FromBigEndian32(s[..4]);
    if len <= MAX_MESSAGE {
      assert (s + more)[4..len + 4] == s[4..len + 4];
    }
  }

  /** The variables agree with the bytes received: the length is known from the fourth byte on, and
      once the bytes determine an outcome the decoder has settled. */
  predicate InStep(st: State, s: seq<byte>) {
    && Concat(st.chunks) == s
    && st.expected == (if |s| < 4 then None else Some(FromBigEndian32(s[..4])))
    && (OutcomeOf(s).Some? ==> st.settled)
  }

  lemma DataStep(st: State, s: seq<byte>, chunk: seq<byte>)
    requires InStep(st, s)
    ensures InStep(OnData(st, chunk), s + chunk)
    ensures var after, outcome := OnData(st, chunk), OutcomeOf(s + chunk);
            && after.calls == (if !st.settled && outcome.Some? then st.calls + [outcome.value] else st.calls)
            && (after.settled <==> st.settled || outcome.Some?)
  {
    var chunks := st.chunks + [chunk];
    assert chunks[..|st.chunks|] == st.chunks;
    assert |s| >= 4 ==> (s + chunk)[..4] == s[..4];
    if OutcomeOf(s).Some? {
      OutcomeStays(s, chunk);
    }
  }

  lemma {:induction false} DecoderInStep(inputs: seq<Input>)
    ensures InStep(Run(inputs), Received(inputs))
  {
    if inputs != [] {
      var front, last := inputs[..|inputs| - 1], inputs[|inputs| - 1];
      DecoderInStep(front);
      if last.Data? {
        DataStep(Run(front), Received(front), last.chunk);
      } else {
        assert Received(front) + [] == Received(front);
      }
    }
  }

  /** The promise is settled at most once by the decoder, and at most once more by a timer that
      fired before; the timer never fires after the decoder settled. */
  lemma {:induction false} SettlesAtMostOnce(inputs: seq<Input>)
    ensures var st := Run(inputs);
            && |st.calls| == (if st.settled then 1 else 0) + (if TimedOut in st.calls then 1 else 0)
            && (st.settled ==> !st.timerRuns && st.calls[|st.calls| - 1] != TimedOut)
            && (!st.settled ==> forall c :: c in st.calls ==> c == TimedOut)
            && (TimedOut in st.calls ==> !st.timerRuns && st.calls[0] == TimedOut)
  {
    if inputs != [] {
      SettlesAtMostOnce(inputs[..|inputs| - 1]);
    }
  }

  predicate DataOnly(inputs: seq<Input>) {
    forall i :: 0 <= i < |inputs| ==> inputs[i].Data?
  }

  /** However the stream is cut into pieces, the outcome is a function of its bytes. */
  lemma {:induction false} FragmentationIsIrrelevant(inputs: seq<Input>)
    requires DataOnly(inputs)
    ensures PromiseOf(Run(inputs)) == OutcomeOf(Received(inputs))
    ensures Run(inputs).settled <==> OutcomeOf(Received(inputs)).Some?
  {
    if inputs != [] {
      var front, last := inputs[..|inputs| - 1], inputs[|inputs| - 1];
      FragmentationIsIrrelevant(front);
      SettlesAtMostOnce(front);
      DecoderInStep(front);
      DataStep(Run(front), Received(front), last.chunk);
      if OutcomeOf(Received(front)).Some? {
        OutcomeStays(Received(front), last.chunk);
      }
    }
  }

  /** A response within the limit is handed over byte for byte, exactly from the first piece on
      that completes it. */
  lemma ResponseDelivered(payload: seq<byte>, rest: seq<byte>, inputs: seq<Input>)
    requires |payload| <= MAX_MESSAGE && DataOnly(inputs)
    requires Received(inputs) <= EncodeMessage(payload) + rest
    ensures PromiseOf(Run(inputs)) == if |Received(inputs)| >= 4 + |payload| then Some(Decoded(payload)) else None
  {
    FragmentationIsIrrelevant(inputs);
    OutcomeOfPrefix(payload, rest, Received(inputs));
  }

  lemma OutcomeOfPrefix(payload: seq<byte>, rest: seq<byte>, s: seq<byte>)
    requires |payload| <= MAX_MESSAGE && s <= EncodeMessage(payload) + rest
    ensures OutcomeOf(s) == if |s| >= 4 + |payload| then Some(Decoded(payload)) else None
  {
    var whole := EncodeMessage(payload) + rest;
    if |s| >= 4 {
      assert s[..4] == whole[..4] == BigEndian32(|payload|);
      BigEndianRoundTrip(|payload|);
      if |s| >= 4 + |payload| {
        assert s[4..4 + |payload|] == whole[4..4 + |payload|] == payload;
      }
    }
  }

  lemma StepKeepsPromise(inputs: seq<Input>)
    requires inputs != [] && PromiseOf(Run(inputs[..|inputs| - 1])).Some?
    ensures PromiseOf(Run(inputs)) == PromiseOf(Run(inputs[..|inputs| - 1]))
  {
  }

  /** Whatever arrives afterwards, in any order, a promise keeps its outcome. */
  lemma {:induction false} OutcomeIsFinal(inputs: seq<Input>, more: seq<Input>)
    requires PromiseOf(Run(inputs)).Some?
    ensures PromiseOf(Run(inputs + more)) == PromiseOf(Run(inputs))
    decreases |more|
  {
    if more == [] {
      assert inputs + more == inputs;
    } else {
      var all := inputs + more;
      assert all[..|all| - 1] == inputs + more[..|more| - 1];
      OutcomeIsFinal(inputs, more[..|more| - 1]);
      StepKeepsPromise(all);
    }
  }

  /** The two decoders agree on every stream: same payload, same refusals, and the client waits
      exactly where the agent finds the message incomplete. */
  lemma DecodersAgree(inputs: seq<Input>)
    requires DataOnly(inputs)
    ensures match ReadFramed(Received(inputs), MAX_MESSAGE)
            case Message(payload, _) => PromiseOf(Run(inputs)) == Some(Decoded(payload))
            case Failed(TooLarge(_)) => PromiseOf(Run(inputs)) == Some(TooLong)
            case Failed(_) => PromiseOf(Run(inputs)) == None
  {
    FragmentationIsIrrelevant(inputs);
  }

  // ---------------------------------------------------------------- the exchange object

  class Exchange {
    var chunks: seq<seq<byte>>
    var expectedLength: Option<nat>
    var settled: bool
    var timerRuns: bool
    var calls: seq<Outcome>

    function Variables(): State
      reads this
    {
      State(chunks, expectedLength, settled, timerRuns, calls)
    }

    constructor ()
      ensures Variables() == INITIAL
    {
      chunks, expectedLength, settled, timerRuns, calls := [], None, false, true, [];
    }

    method SettleWith(outcome: Outcome)
      modifies this
      ensures Variables() == Settle(old(Variables()), outcome)
    {
      if settled {
        return;
      }
      settled := true;
      timerRuns := false;
      calls := calls + [outcome];
    }

    method HandleData(chunk: seq<byte>)
      modifies this
      ensures Variables() == OnData(old(Variables()), chunk)
    {
      chunks := chunks + [chunk];
      var buffered := Concat(chunks);
      if expectedLength.None? && |buffered| >= 4 {
        expectedLength := Some(FromBigEndian32(buffered[..4]));
        if expectedLength.value > MAX_MESSAGE {
          SettleWith(TooLong);
          return;
        }
      }
      if expectedLength.Some? && |buffered| >= expectedLength.value + 4 {
        SettleWith(Decoded(buffered[4..expectedLength.value + 4]));
      }
    }

    method HandleError(message: string)
      modifies this
      ensures Variables() == Step(old(Variables()), Error(message))
    {
      SettleWith(SocketError(message));
    }

    method HandleTimeout()
      modifies this
      ensures Variables() == Step(old(Variables()), Timeout)
    {
      if timerRuns {
        timerRuns := false;
        calls := calls + [TimedOut];
      }
    }
  }
}
