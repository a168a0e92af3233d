// The IO engine: AbstractIoManager's write, drain-all read, flushAll and the
// two writeAndRead compositions, with DirectIoManager's exact-length polling
// read, over an abstract duplex stream.
//
// The stream holds the bytes received and not yet read, the bytes written so
// far, and the clock that System.currentTimeMillis reads. Time passes only
// where the model says so: during a delay, and at the clock readings of the
// exact-length loop, which a script of poll observations drives.

module Engine {
  import opened Common
  import opened Protocol
  import opened IoResult

  class DuplexStream {
    /** Bytes that have arrived and are not yet read: what available() counts. */
    var input: Bytes
    /** Everything written and flushed so far. */
    var output: Bytes
    /** The value System.currentTimeMillis returns now. */
    var clock: int

    constructor (pending: Bytes, now: int)
      ensures input == pending && output == [] && clock == now
    {
      input, output, clock := pending, [], now;
    }

    /** One read() of a single byte, when one is available. */
    method ReadByte() returns (b: Byte)
      requires |input| > 0
      modifies this
      ensures b == old(input[0]) && input == old(input[1..])
      ensures output == old(output) && clock == old(clock)
    {
      b := input[0];
      input := input[1..];
    }

    /**
     * read(buf, off, len) when bytes are available: copies the first
     * min(available, len) bytes into buf from position off and returns their number.
     */
    method ReadInto(buf: array<Byte>, off: nat, len: nat) returns (k: nat)
      requires off + len <= buf.Length
      modifies this, buf
      ensures k == Min(|old(input)|, len)
      ensures input == old(input[k..])
      ensures output == old(output) && clock == old(clock)
      ensures forall j :: 0 <= j < buf.Length ==>
        buf[j] == if off <= j < off + k then old(input[j - off]) else old(buf[j])
    {
      k := Min(|input|, len);
      var i := 0;
      while i < k
        invariant 0 <= i <= k
        invariant input == old(input[i..])
        invariant output == old(output) && clock == old(clock)
        invariant forall j :: 0 <= j < buf.Length ==>
          buf[j] == if off <= j < off + i then old(input[j - off]) else old(buf[j])
      {
        buf[off + i] := input[0];
        input := input[1..];
        i := i + 1;
      }
    }

    /** write(bytes) followed by flush(). */
    method Write(b: Bytes)
      modifies this
      ensures output == old(output) + b
      ensures input == old(input) && clock == old(clock)
    {
      output := output + b;
    }

    /** Bytes arriving from the peer. */
    method Receive(b: Bytes)
      modifies this
      ensures input == old(input) + b
      ensures output == old(output) && clock == old(clock)
    {
      input := input + b;
    }

    /** A clock reading taken at time `at`; the clock never runs backwards. */
    method Tick(at: int)
      modifies this
      ensures clock == Max(old(clock), at)
      ensures input == old(input) && output == old(output)
    {
      if at > clock {
        clock := at;
      }
    }
  }

  // ---- The exact-length read loop, as a function of its observations ----

  /**
   * What one `available()` call of the loop observes. Arrive: by clock
   * reading `at`, `bytes` more have arrived. EndOfStream: by `at` the peer has
   * closed; available() still reports a positive estimate and the next read
   * returns -1. A closed stream whose available() reports 0 is a run of
   * observations with no bytes, and the loop times out.
   */
  datatype Poll = Arrive(bytes: Bytes, at: int) | EndOfStream(at: int)

  /** All bytes the observations deliver, in arrival order. */
  function Arrivals(polls: seq<Poll>): Bytes
  {
    if polls == [] then []
    else match polls[0]
      case Arrive(b, _) => b + Arrivals(polls[1..])
      case EndOfStream(_) => Arrivals(polls[1..])
  }

  predicate NoEndOfStream(polls: seq<Poll>)
  {
    forall i :: 0 <= i < |polls| ==> polls[i].Arrive?
  }

  /** Why the loop stopped. */
  datatype LoopEnd = Filled | StreamEnded | TimedOut

  /**
   * The loop's variables: the wire bytes collected so far, the unread input,
   * whether available() reports the end of the stream, the clock, and the
   * observations still to come.
   */
  datatype LoopState = LoopState(wire: Bytes, input: Bytes, atEnd: bool, clock: int, polls: seq<Poll>)

  datatype LoopResult = LoopResult(end: LoopEnd, state: LoopState)

  /** Every byte the state accounts for: collected, unread, and still to arrive. */
  function Bytes(s: LoopState): Bytes
  {
    s.wire + s.input + Arrivals(s.polls)
  }

  /** One read(ioOut, bytesRead, need - bytesRead) of whatever is available. */
  function Collect(need: nat, s: LoopState): (s1: LoopState)
    requires |s.wire| <= need
    ensures Bytes(s1) == Bytes(s) && s1.polls == s.polls && s1.clock == s.clock && s1.atEnd == s.atEnd
    ensures |s.wire| <= |s1.wire| <= need
    ensures |s1.wire| < need ==> s1.input == []
  {
    var k := Min(|s.input|, need - |s.wire|);
    assert s.input == s.input[..k] + s.input[k..];
    s.(wire := s.wire + s.input[..k], input := s.input[k..])
  }

  /** The clock reading and the available() call that consume the next observation. */
  function Advance(s: LoopState): (s2: LoopState)
    requires s.polls != []
    ensures Bytes(s2) == Bytes(s) && s2.wire == s.wire && s2.clock >= s.clock
    ensures |s2.polls| < |s.polls|
  {
    var p := s.polls[0];
    ArrivalsCons(s.polls);
    var s1 := s.(clock := Max(s.clock, p.at), polls := s.polls[1..]);
    match p
    case Arrive(b, _) => s1.(input := s1.input + b, atEnd := false)
    case EndOfStream(_) => s1.(atEnd := true)
  }

  /** How one turn of the polling loop ends: the loop stops, or goes on from a new state. */
  datatype RoundResult = Stopped(end: LoopEnd, state: LoopState) | Continues(state: LoopState)

  /**
   * One turn of the loop while the buffer is not full: stop if the stream has
   * ended and nothing is left to read, otherwise read what is available and
   * take the next observation, stopping once the clock passes the deadline.
   */
  function Round(need: nat, s: LoopState, start: int, timeout: int): (r: RoundResult)
    requires |s.wire| < need
    ensures |s.wire| <= |r.state.wire| <= need && r.state.clock >= s.clock
    ensures Bytes(r.state) == Bytes(s)
    ensures r.Continues? ==> |r.state.polls| < |s.polls|
  {
    if |s.input| == 0 && s.atEnd then Stopped(StreamEnded, s)
    else
      var s1 := Collect(need, s);
      if s1.polls == [] then
        Stopped(if |s1.wire| == need then Filled else TimedOut, s1)
      else
        var s2 := Advance(s1);
        if |s2.wire| != need && s2.clock - start > timeout then Stopped(TimedOut, s2)
        else Continues(s2)
  }

  /**
   * The loop of DirectIoManager.read(out, timeout, h) collecting `need` wire
   * bytes. When the observations run out the stream stays silent, so the
   * clock eventually passes the deadline.
   */
  function ExactLoop(need: nat, s: LoopState, start: int, timeout: int): (r: LoopResult)
    requires |s.wire| <= need
    ensures |s.wire| <= |r.state.wire| <= need
    ensures r.end == Filled <==> |r.state.wire| == need
    ensures r.state.clock >= s.clock
    decreases |s.polls|
  {
    if |s.wire| == need then LoopResult(Filled, s)
    else match Round(need, s, start, timeout)
      case Stopped(end, t) => LoopResult(end, t)
      case Continues(t) => ExactLoop(need, t, start, timeout)
  }

  lemma ArrivalsCons(polls: seq<Poll>)
    requires polls != []
    ensures Arrivals(polls) == (if polls[0].Arrive? then polls[0].bytes else []) + Arrivals(polls[1..])
  {
  }


  /**
   * The loop loses and reorders nothing: the collected bytes, the bytes left
   * unread and the bytes still to arrive are, in that order, the bytes there
   * were at the start. It stops with a full buffer exactly when it reports
   * Filled, never collects more than asked, and the clock only moves forward.
   */
  lemma {:induction false} ExactLoopConserves(need: nat, s: LoopState, start: int, timeout: int)
    requires |s.wire| <= need
    ensures var r := ExactLoop(need, s, start, timeout);
      Bytes(r.state) == Bytes(s)
    decreases |s.polls|
  {
    if |s.wire| < need {
      match Round(need, s, start, timeout)
      case Stopped(_, _) =>
      case Continues(t) => ExactLoopConserves(need, t, start, timeout);
    }
  }


  /**
   * Deadline: when no end of stream is observed, every clock reading stays
   * within the timeout, and the bytes at hand plus the bytes still to arrive
   * make up the request, the loop fills the buffer.
   */
  lemma {:induction false} ExactLoopMeetsDeadline(need: nat, s: LoopState, start: int, timeout: int)
    requires |s.wire| <= need && !s.atEnd
    requires NoEndOfStream(s.polls)
    requires s.clock - start <= timeout
    requires forall i :: 0 <= i < |s.polls| ==> s.polls[i].at - start <= timeout
    requires |Bytes(s)| >= need
    ensures ExactLoop(need, s, start, timeout).end == Filled
    decreases |s.polls|
  {
    if |s.wire| < need {
      var s1 := Collect(need, s);
      if s1.polls != [] {
        var s2 := Advance(s1);
        assert s1.polls[0].Arrive? && s1.polls[0].at - start <= timeout;
        forall i | 0 <= i < |s2.polls|
          ensures s2.polls[i].Arrive? && s2.polls[i].at - start <= timeout
        {
          assert s2.polls[i] == s.polls[i + 1];
        }
        ExactLoopMeetsDeadline(need, s2, start, timeout);
      }
    }
  }

  /** The outcome of read(out, timeout, h) and where its loop left the stream (None: it failed before reading). */
  datatype ExactRead = ExactRead(outcome: Result<Bytes>, loop: Option<LoopResult>)

  /**
   * DirectIoManager.read(out, timeout, h) for a buffer of `outLen` bytes on a
   * stream holding `input` at time `clock`.
   */
  function ExactReadSpec(h: Option<Handler>, outLen: nat, input: Bytes, clock: int, timeout: int, polls: seq<Poll>): (e: ExactRead)
    ensures e.loop.None? ==> e.outcome.Err?
    ensures e.loop.Some? <==> ResponseWireLength(h, outLen).Ok? && ResponseWireLength(h, outLen).value >= 0
    ensures e.loop.Some? ==> |e.loop.value.state.wire| <= ResponseWireLength(h, outLen).value
  {
    match ResponseWireLength(h, outLen)
    case Err(err) => ExactRead(Err(err), None)
    case Ok(n) =>
      if n < 0 then ExactRead(Err(NegativeArraySize(n)), None)
      else
        var r := ExactLoop(n, LoopState([], input, false, clock, polls), clock, timeout);
        var got := |r.state.wire|;
        var outcome :=
          if r.end == TimedOut then Err(Timeout(got, n))
          else if got != n then Err(IncompleteRead(got, outLen))
          else match UnwrapWith(h, r.state.wire)
            case Err(err) => Err(err)
            case Ok(u) => if |u| != outLen then Err(LengthMismatch(|u|, outLen)) else Ok(u);
        ExactRead(outcome, Some(r))
  }

  lemma PrefixOfWhole(w: Bytes, x: Bytes, y: Bytes, all: Bytes)
    requires w + x + y == all
    ensures |w| <= |all| && all[..|w|] == w
  {
    assert all[..|w|] == (w + x + y)[..|w|];
  }

  /** A loop that starts with nothing collected fills its buffer with the next `need` bytes in arrival order. */
  lemma ExactLoopPrefix(need: nat, input: Bytes, clock: int, timeout: int, polls: seq<Poll>)
    ensures var r := ExactLoop(need, LoopState([], input, false, clock, polls), clock, timeout);
      && (r.end == Filled <==> |r.state.wire| == need)
      && (r.end == Filled ==> need <= |input + Arrivals(polls)| && r.state.wire == (input + Arrivals(polls))[..need])
      && r.state.clock >= clock
  {
    var s0 := LoopState([], input, false, clock, polls);
    assert Bytes(s0) == input + Arrivals(polls);
    ExactLoopFillsWithPrefix(need, s0, clock, timeout);
  }

  /** A filled buffer holds the first `need` of the bytes the state accounts for. */
  lemma ExactLoopFillsWithPrefix(need: nat, s: LoopState, start: int, timeout: int)
    requires |s.wire| <= need
    ensures var r := ExactLoop(need, s, start, timeout);
      r.end == Filled ==> need <= |Bytes(s)| && r.state.wire == Bytes(s)[..need]
  {
    ExactLoopConserves(need, s, start, timeout);
    var r := ExactLoop(need, s, start, timeout);
    if r.end == Filled {
      PrefixOfWhole(r.state.wire, r.state.input, Arrivals(r.state.polls), Bytes(s));
    }
  }

  /**
   * What an exact read promises: on success the payload has exactly the
   * buffer's length and is (the unwrap of) the next wire-length bytes of the
   * stream in arrival order; a loop that stops short of the wire length
   * always ends in an error, never in a short buffer.
   */
  lemma ExactReadSound(h: Option<Handler>, outLen: nat, input: Bytes, clock: int, timeout: int, polls: seq<Poll>)
    ensures var e := ExactReadSpec(h, outLen, input, clock, timeout, polls);
      var all := input + Arrivals(polls);
      && (e.outcome.Ok? ==> |e.outcome.value| == outLen)
      && (e.outcome.Ok? ==>
            && ResponseWireLength(h, outLen).Ok?
            && 0 <= ResponseWireLength(h, outLen).value <= |all|
            && UnwrapWith(h, all[..ResponseWireLength(h, outLen).value]) == Ok(e.outcome.value))
      && (h.None? && e.outcome.Ok? ==> e.outcome.value == all[..outLen])
      && (e.loop.Some? ==> (ResponseWireLength(h, outLen).Ok?
            && (e.loop.value.end == Filled <==> |e.loop.value.state.wire| == ResponseWireLength(h, outLen).value)
            && (e.loop.value.end != Filled ==> e.outcome.Err?)))
  {
    match ResponseWireLength(h, outLen)
    case Err(_) =>
    case Ok(n) =>
      if n >= 0 {
        var r := ExactLoop(n, LoopState([], input, false, clock, polls), clock, timeout);
        ExactLoopPrefix(n, input, clock, timeout, polls);
        assert ExactReadSpec(h, outLen, input, clock, timeout, polls).loop == Some(r);
      }
  }

  /** Without a handler, bytes that all arrive in time are read in full and in order. */
  lemma ExactReadInTime(outLen: nat, input: Bytes, clock: int, timeout: int, polls: seq<Poll>)
    requires NoEndOfStream(polls)
    requires 0 <= timeout
    requires forall i :: 0 <= i < |polls| ==> polls[i].at - clock <= timeout
    requires |input| + |Arrivals(polls)| >= outLen
    ensures ExactReadSpec(None, outLen, input, clock, timeout, polls).outcome
         == Ok((input + Arrivals(polls))[..outLen])
  {
    var s0 := LoopState([], input, false, clock, polls);
    ExactLoopMeetsDeadline(outLen, s0, clock, timeout);
    ExactReadSound(None, outLen, input, clock, timeout, polls);
  }

  /** Observations that deliver bytes and then, last, close the stream, each by `deadline`. */
  predicate ClosesBy(polls: seq<Poll>, deadline: int)
  {
    polls != [] && polls[0].at <= deadline
    && if |polls| == 1 then polls[0].EndOfStream? else polls[0].Arrive? && ClosesBy(polls[1..], deadline)
  }

  /** Observations that each deliver bytes by `deadline`. */
  predicate ArrivesBy(polls: seq<Poll>, deadline: int)
  {
    polls == [] || (polls[0].Arrive? && polls[0].at <= deadline && ArrivesBy(polls[1..], deadline))
  }

  /**
   * When the peer closes the stream in time with fewer bytes sent than the
   * request needs, the loop collects every byte there is and reports the end
   * of the stream.
   */
  lemma {:induction false} ExactLoopEndsEarly(need: nat, s: LoopState, start: int, timeout: int)
    requires s.atEnd ==> s.polls == [] && s.input == []
    requires !s.atEnd ==> ClosesBy(s.polls, start + timeout)
    requires s.clock - start <= timeout
    requires |Bytes(s)| < need
    ensures var r := ExactLoop(need, s, start, timeout);
      r.end == StreamEnded && r.state.wire == Bytes(s)
    decreases |s.polls|
  {
    if !s.atEnd {
      var s1 := Collect(need, s);
      assert s1.wire == s.wire + s.input;
      ExactLoopEndsEarly(need, Advance(s1), start, timeout);
    }
  }

  lemma ClosedFromStart(n: nat, input: Bytes, clock: int, timeout: int, polls: seq<Poll>)
    requires 0 <= timeout
    requires ClosesBy(polls, clock + timeout)
    requires |input| + |Arrivals(polls)| < n
    ensures var r := ExactLoop(n, LoopState([], input, false, clock, polls), clock, timeout);
      r.end == StreamEnded && |r.state.wire| == |input| + |Arrivals(polls)|
  {
    var s0 := LoopState([], input, false, clock, polls);
    assert Bytes(s0) == input + Arrivals(polls);
    ExactLoopEndsEarly(n, s0, clock, timeout);
  }

  /** A loop that stops at the end of the stream makes read(out, timeout, h) fail with IncompleteRead. */
  lemma IncompleteOutcome(h: Option<Handler>, outLen: nat, input: Bytes, clock: int, timeout: int, polls: seq<Poll>, got: nat)
    requires ResponseWireLength(h, outLen).Ok? && ResponseWireLength(h, outLen).value >= 0
    requires var r := ExactLoop(ResponseWireLength(h, outLen).value, LoopState([], input, false, clock, polls), clock, timeout);
      r.end == StreamEnded && |r.state.wire| == got
    ensures ExactReadSpec(h, outLen, input, clock, timeout, polls).outcome == Err(IncompleteRead(got, outLen))
  {
  }

  /** A loop that runs past the deadline makes read(out, timeout, h) fail with Timeout. */
  lemma TimeoutOutcome(h: Option<Handler>, outLen: nat, input: Bytes, clock: int, timeout: int, polls: seq<Poll>, got: nat)
    requires ResponseWireLength(h, outLen).Ok? && ResponseWireLength(h, outLen).value >= 0
    requires var r := ExactLoop(ResponseWireLength(h, outLen).value, LoopState([], input, false, clock, polls), clock, timeout);
      r.end == TimedOut && |r.state.wire| == got
    ensures ExactReadSpec(h, outLen, input, clock, timeout, polls).outcome
         == Err(Timeout(got, ResponseWireLength(h, outLen).value))
  {
  }

  /**
   * Stream closed early: when the bytes at hand and those that arrive before
   * the peer closes the stream, all by the deadline, are fewer than the wire
   * length n, read(out, timeout, h) fails with IncompleteRead, giving the
   * number of bytes it did collect.
   */
  lemma ExactReadEndsEarly(h: Option<Handler>, outLen: nat, n: int, input: Bytes, clock: int, timeout: int, polls: seq<Poll>)
    requires ResponseWireLength(h, outLen) == Ok(n)
    requires 0 <= timeout
    requires ClosesBy(polls, clock + timeout)
    requires |input| + |Arrivals(polls)| < n
    ensures ExactReadSpec(h, outLen, input, clock, timeout, polls).outcome
         == Err(IncompleteRead(|input| + |Arrivals(polls)|, outLen))
  {
    ClosedFromStart(n, input, clock, timeout, polls);
    IncompleteOutcome(h, outLen, input, clock, timeout, polls, |input| + |Arrivals(polls)|);
  }

  /**
   * When the first k observations arrive by the deadline without closing the
   * stream, the next one (if any) comes after it, and the bytes collected by
   * then are fewer than the request needs, the loop times out holding exactly
   * those bytes.
   */
  lemma {:induction false} ExactLoopTooSlow(need: nat, s: LoopState, start: int, timeout: int, k: nat)
    requires !s.atEnd
    requires k <= |s.polls| && ArrivesBy(s.polls[..k], start + timeout)
    requires k < |s.polls| ==> s.polls[k].at - start > timeout
    requires s.clock - start <= timeout
    requires |s.wire| + |s.input| + |Arrivals(s.polls[..k])| < need
    ensures var r := ExactLoop(need, s, start, timeout);
      r.end == TimedOut && r.state.wire == s.wire + s.input + Arrivals(s.polls[..k])
    decreases |s.polls|
  {
    var s1 := Collect(need, s);
    assert s1.wire == s.wire + s.input;
    if k == 0 {
      assert s.polls[..k] == [];
    } else {
      TooSlowStep(need, s, start, timeout, k);
      ExactLoopTooSlow(need, Advance(s1), start, timeout, k - 1);
    }
  }

  /** One arrival in time moves its bytes to the input and leaves k - 1 early observations. */
  lemma TooSlowStep(need: nat, s: LoopState, start: int, timeout: int, k: nat)
    requires !s.atEnd
    requires 0 < k <= |s.polls| && ArrivesBy(s.polls[..k], start + timeout)
    requires k < |s.polls| ==> s.polls[k].at - start > timeout
    requires s.clock - start <= timeout
    requires |s.wire| + |s.input| + |Arrivals(s.polls[..k])| < need
    ensures var s2 := Advance(Collect(need, s));
      && Round(need, s, start, timeout) == Continues(s2)
      && !s2.atEnd && ArrivesBy(s2.polls[..k - 1], start + timeout)
      && (k - 1 < |s2.polls| ==> s2.polls[k - 1].at - start > timeout)
      && s2.clock - start <= timeout
      && s2.wire + s2.input + Arrivals(s2.polls[..k - 1]) == s.wire + s.input + Arrivals(s.polls[..k])
  {
    var s1 := Collect(need, s);
    assert s1.wire == s.wire + s.input;
    var s2 := Advance(s1);
    var early := s.polls[..k];
    ArrivalsCons(early);
    assert early[0] == s.polls[0];
    assert early[1..] == s2.polls[..k - 1];
  }

  /**
   * Too slow: when the first k observations arrive by the deadline without
   * closing the stream, the next one (if any) comes after it, and the bytes
   * at hand by then are fewer than the wire length n, read(out, timeout, h)
   * fails with Timeout, giving the bytes collected and the bytes wanted.
   */
  lemma ExactReadTooSlow(h: Option<Handler>, outLen: nat, n: int, input: Bytes, clock: int, timeout: int, polls: seq<Poll>, k: nat)
    requires ResponseWireLength(h, outLen) == Ok(n)
    requires 0 <= timeout
    requires k <= |polls| && ArrivesBy(polls[..k], clock + timeout)
    requires k < |polls| ==> polls[k].at - clock > timeout
    requires |input| + |Arrivals(polls[..k])| < n
    ensures ExactReadSpec(h, outLen, input, clock, timeout, polls).outcome
         == Err(Timeout(|input| + |Arrivals(polls[..k])|, n))
  {
    var s0 := LoopState([], input, false, clock, polls);
    ExactLoopTooSlow(n, s0, clock, timeout, k);
    TimeoutOutcome(h, outLen, input, clock, timeout, polls, |input| + |Arrivals(polls[..k])|);
  }

  /** The request the delay writeAndRead puts on the wire: wrapped once, then again by write. */
  function DelayRequest(h: Option<Handler>, command: Bytes): (r: Result<Bytes>)
    ensures h.None? ==> r == Ok(command)
  {
    match WrapWith(h, command)
    case Err(e) => Err(e)
    case Ok(once) => WrapWith(h, once)
  }

  /** With the test handler the delay writeAndRead sends two 0x00 bytes, the exact one a single one. */
  lemma TestHandlerRequests(command: Bytes)
    ensures DelayRequest(Some(TestProtocolManager), command) == Ok([0, 0] + command)
    ensures WrapWith(Some(TestProtocolManager), command) == Ok([0] + command)
  {
    assert [0] + ([0] + command) == [0, 0] + command;
  }

  class DirectIoManager {
    const stream: DuplexStream

    constructor (s: DuplexStream)
      ensures stream == s
    {
      stream := s;
    }

    /** write(command, h): send the (wrapped) command and flush; nothing is received. */
    method Write(command: Bytes, h: Option<Handler>) returns (r: Result<IoManagerResult>)
      modifies stream
      ensures r.Ok? <==> WrapWith(h, command).Ok?
      ensures r.Err? ==> r.error == WrapWith(h, command).error
      ensures stream.output == old(stream.output) + (if r.Ok? then WrapWith(h, command).value else [])
      ensures stream.input == old(stream.input) && stream.clock == old(stream.clock)
      ensures r.Ok? ==> (fresh(r.value)
        && r.value.Value() == Outcome(ReadStamps(old(stream.clock), old(stream.clock)), None)
        && r.value.Value().stamps.Ordered())
    {
      var t0 := stream.clock;
      var bytesToSend := WrapWith(h, command);
      if bytesToSend.Err? {
        return Err(bytesToSend.error);
      }
      stream.Write(bytesToSend.value);
      var t1 := stream.clock;
      var res := NewResult(Stamps(t0, t0, t1, t1, t1, t1), None);
      r := Ok(res);
    }

    /** flushAll(): output is already flushed; every available input byte is discarded. */
    method FlushAll()
      modifies stream
      ensures stream.input == []
      ensures stream.output == old(stream.output) && stream.clock == old(stream.clock)
    {
      while |stream.input| > 0
        invariant stream.output == old(stream.output) && stream.clock == old(stream.clock)
        decreases |stream.input|
      {
        var _ := stream.ReadByte();
      }
    }

    /** read(h): drain every available byte in arrival order, then unwrap when a handler is given. */
    method Read(h: Option<Handler>) returns (r: Result<IoManagerResult>)
      modifies stream
      ensures stream.input == []
      ensures stream.output == old(stream.output) && stream.clock == old(stream.clock)
      ensures r.Ok? <==> UnwrapWith(h, old(stream.input)).Ok?
      ensures r.Err? ==> r.error == UnwrapWith(h, old(stream.input)).error
      ensures r.Ok? ==> (fresh(r.value)
        && r.value.Value() == Outcome(ReadStamps(old(stream.clock), old(stream.clock)),
                                      Some(UnwrapWith(h, old(stream.input)).value)))
    {
      var t0 := stream.clock;
      var read: Bytes := [];
      while |stream.input| > 0
        invariant read + stream.input == old(stream.input)
        invariant stream.output == old(stream.output) && stream.clock == old(stream.clock)
        decreases |stream.input|
      {
        var b := stream.ReadByte();
        read := read + [b];
      }
      assert read == old(stream.input);
      var t1 := stream.clock;
      var payload := UnwrapWith(h, read);
      if payload.Err? {
        return Err(payload.error);
      }
      var res := NewResult(ReadStamps(t0, t1), Some(payload.value));
      r := Ok(res);
    }

    /** Thread.sleep(delay) while `reply` arrives; a negative delay throws. */
    method Delay(delay: int, reply: Bytes) returns (r: Result<()>)
      modifies stream
      ensures r.Ok? <==> delay >= 0
      ensures r.Err? ==> r.error == NegativeSleep(delay)
      ensures stream.output == old(stream.output)
      ensures r.Ok? ==> stream.input == old(stream.input) + reply && stream.clock == old(stream.clock) + delay
      ensures r.Err? ==> stream.input == old(stream.input) && stream.clock == old(stream.clock)
    {
      if delay < 0 {
        return Err(NegativeSleep(delay));
      }
      stream.Receive(reply);
      stream.Tick(stream.clock + delay);
      r := Ok(());
    }

    /**
     * writeAndRead(command, delay, h): flush, write, sleep, drain. The command
     * is wrapped before write, which wraps it again. `reply` is what the
     * device sends during the delay; input pending before the call is
     * discarded and never reaches the result.
     */
    method WriteAndReadDelay(command: Bytes, delay: int, h: Option<Handler>, reply: Bytes)
      returns (r: Result<IoManagerResult>)
      modifies stream
      ensures WrapWith(h, command).Err? ==> (r == Err(WrapWith(h, command).error)
        && stream.input == old(stream.input) && stream.output == old(stream.output))
      ensures DelayRequest(h, command).Ok? && delay >= 0 ==>
        stream.output == old(stream.output) + DelayRequest(h, command).value
        && stream.input == [] && stream.clock == old(stream.clock) + delay
        && (r.Ok? <==> UnwrapWith(h, reply).Ok?)
        && (r.Err? ==> r.error == UnwrapWith(h, reply).error)
        && (r.Ok? ==> (fresh(r.value)
              && r.value.Value() == Outcome(Stamps(old(stream.clock), old(stream.clock), old(stream.clock),
                                                   old(stream.clock) + delay, old(stream.clock) + delay,
                                                   old(stream.clock) + delay),
                                            Some(UnwrapWith(h, reply).value))
              && r.value.Value().stamps.Ordered()))
      ensures DelayRequest(h, command).Ok? && delay < 0 ==>
        r == Err(NegativeSleep(delay))
        && stream.output == old(stream.output) + DelayRequest(h, command).value && stream.input == []
      ensures WrapWith(h, command).Ok? && DelayRequest(h, command).Err? ==>
        r == Err(DelayRequest(h, command).error) && stream.output == old(stream.output) && stream.input == []
    {
      var t0 := stream.clock;
      var bytesToSend := WrapWith(h, command);
      if bytesToSend.Err? {
        return Err(bytesToSend.error);
      }
      FlushAll();
      var writeResult := Write(bytesToSend.value, h);
      if writeResult.Err? {
        return Err(writeResult.error);
      }
      var txStart, txEnd := writeResult.value.requestTxStartTime, writeResult.value.requestTxEndTime;
      var slept := Delay(delay, reply);
      if slept.Err? {
        return Err(slept.error);
      }
      assert stream.input == reply;
      var readResult := Read(h);
      if readResult.Err? {
        return Err(readResult.error);
      }
      var t1 := stream.clock;
      var res := NewResult(Stamps(t0, txStart, txEnd, readResult.value.requestRxStartTime,
                                  readResult.value.requestRxEndTime, t1),
                           readResult.value.result);
      r := Ok(res);
    }

    /**
     * The polling loop of read(out, timeout, h): fill `ioOut` from the stream
     * until it is full, the stream ends, or the clock passes the timeout.
     */
    method PollLoop(ioOut: array<Byte>, timeout: int, polls: seq<Poll>)
      returns (end: LoopEnd, bytesRead: nat, ghost wire: Bytes)
      modifies stream, ioOut
      ensures var r := ExactLoop(ioOut.Length, LoopState([], old(stream.input), false, old(stream.clock), polls),
                                 old(stream.clock), timeout);
        && end == r.end && wire == r.state.wire && bytesRead == |wire|
        && stream.input == r.state.input && stream.clock == r.state.clock
      ensures stream.output == old(stream.output)
      ensures bytesRead <= ioOut.Length
      ensures ioOut[..bytesRead] == wire
      ensures forall j :: bytesRead <= j < ioOut.Length ==> ioOut[j] == old(ioOut[j])
    {
      var nBytes := ioOut.Length;
      var start := stream.clock;
      bytesRead := 0;
      var atEnd := false;
      var rest := polls;
      end := Filled;
      wire := [];
      ghost var r0 := ExactLoop(nBytes, LoopState([], stream.input, false, stream.clock, polls), start, timeout);
      var done := false;
      while bytesRead < nBytes && !done
        invariant bytesRead == |wire| <= nBytes
        invariant !done ==> (end == Filled
          && ExactLoop(nBytes, LoopState(wire, stream.input, atEnd, stream.clock, rest), start, timeout) == r0)
        invariant done ==> r0 == LoopResult(end, LoopState(wire, stream.input, atEnd, stream.clock, rest))
        invariant ioOut[..bytesRead] == wire
        invariant forall j :: bytesRead <= j < nBytes ==> ioOut[j] == old(ioOut[j])
        invariant stream.output == old(stream.output)
        decreases |rest|, if done then 0 else 1
      {
        var stop;
        stop, bytesRead, atEnd, rest, wire := PollRound(ioOut, start, timeout, bytesRead, atEnd, rest, wire);
        if stop.Some? {
          end := stop.value;
          done := true;
        }
      }
    }

    /** One turn of the polling loop on the stream and the buffer, as Round describes it. */
    method PollRound(ioOut: array<Byte>, start: int, timeout: int, bytesRead: nat, atEnd: bool, rest: seq<Poll>, ghost wire: Bytes)
      returns (stop: Option<LoopEnd>, bytesRead1: nat, atEnd1: bool, rest1: seq<Poll>, ghost wire1: Bytes)
      requires bytesRead == |wire| < ioOut.Length && ioOut[..bytesRead] == wire
      modifies stream, ioOut
      ensures Round(ioOut.Length, LoopState(wire, old(stream.input), atEnd, old(stream.clock), rest), start, timeout)
        == var s1 := LoopState(wire1, stream.input, atEnd1, stream.clock, rest1);
           if stop.Some? then Stopped(stop.value, s1) else Continues(s1)
      ensures bytesRead <= bytesRead1 == |wire1| <= ioOut.Length && ioOut[..bytesRead1] == wire1
      ensures forall j :: bytesRead1 <= j < ioOut.Length ==> ioOut[j] == old(ioOut[j])
      ensures stream.output == old(stream.output)
      ensures |rest1| <= |rest|
    {
      var nBytes := ioOut.Length;
      ghost var s := LoopState(wire, stream.input, atEnd, stream.clock, rest);
      bytesRead1, atEnd1, rest1, wire1 := bytesRead, atEnd, rest, wire;
      if |stream.input| == 0 && atEnd {
        stop := Some(StreamEnded);
        return;
      }
      if |stream.input| > 0 {
        ghost var before := stream.input;
        var k := ReadStep(ioOut, bytesRead, nBytes - bytesRead);
        wire1 := wire + before[..k];
        bytesRead1 := bytesRead + k;
      }
      assert Collect(nBytes, s) == LoopState(wire1, stream.input, atEnd, stream.clock, rest);
      if rest == [] {
        stop := if bytesRead1 == nBytes then Some(Filled) else Some(TimedOut);
        return;
      }
      var p := rest[0];
      rest1 := rest[1..];
      atEnd1 := Observe(p);
      assert Advance(Collect(nBytes, s)) == LoopState(wire1, stream.input, atEnd1, stream.clock, rest1);
      if bytesRead1 != nBytes && stream.clock - start > timeout {
        stop := Some(TimedOut);
      } else {
        stop := None;
      }
    }

    /** One observation of the loop: a clock reading, then what available() reports. */
    method Observe(p: Poll) returns (atEnd: bool)
      modifies stream
      ensures stream.clock == Max(old(stream.clock), p.at) && stream.output == old(stream.output)
      ensures stream.input == if p.Arrive? then old(stream.input) + p.bytes else old(stream.input)
      ensures atEnd == p.EndOfStream?
    {
      stream.Tick(p.at);
      match p {
        case Arrive(b, _) =>
          stream.Receive(b);
          atEnd := false;
        case EndOfStream(_) =>
          atEnd := true;
      }
    }

    /** One read into ioOut at bytesRead, as seen by the loop: the prefix grows by the bytes taken from the input. */
    method ReadStep(buf: array<Byte>, off: nat, len: nat) returns (k: nat)
      requires off + len <= buf.Length && |stream.input| > 0 && len > 0
      modifies stream, buf
      ensures k == Min(|old(stream.input)|, len) && k > 0
      ensures buf[..off + k] == old(buf[..off]) + old(stream.input)[..k] && stream.input == old(stream.input)[k..]
      ensures forall j :: off + k <= j < buf.Length ==> buf[j] == old(buf[j])
      ensures stream.output == old(stream.output) && stream.clock == old(stream.clock)
    {
      k := stream.ReadInto(buf, off, len);
      assert buf[..off + k] == old(buf[..off]) + old(stream.input)[..k] by {
        forall j | 0 <= j < off + k
          ensures buf[..off + k][j] == (old(buf[..off]) + old(stream.input)[..k])[j]
        {
        }
      }
    }

    /**
     * read(out, timeout, h): collect exactly the wire length of out.Length
     * bytes, polling until the timeout. Without a handler the bytes land in
     * `out` as they arrive, so a failed read leaves a partial prefix there;
     * with one they are collected in a separate buffer, unwrapped, checked
     * against out.Length and only then copied into `out`.
     */
    method ReadExact(out: array<Byte>, timeout: int, h: Option<Handler>, polls: seq<Poll>)
      returns (r: Result<IoManagerResult>)
      modifies stream, out
      ensures stream.output == old(stream.output)
      ensures stream.clock >= old(stream.clock)
      ensures var e := ExactReadSpec(h, out.Length, old(stream.input), old(stream.clock), timeout, polls);
        r.Ok? <==> e.outcome.Ok?
      ensures var e := ExactReadSpec(h, out.Length, old(stream.input), old(stream.clock), timeout, polls);
        r.Err? ==> r.error == e.outcome.error
      ensures var e := ExactReadSpec(h, out.Length, old(stream.input), old(stream.clock), timeout, polls);
        r.Ok? ==> (fresh(r.value) && out[..] == e.outcome.value
                   && r.value.Value() == Outcome(ReadStamps(old(stream.clock), stream.clock), Some(out[..])))
      ensures var e := ExactReadSpec(h, out.Length, old(stream.input), old(stream.clock), timeout, polls);
        e.loop.None? ==> stream.input == old(stream.input) && stream.clock == old(stream.clock)
      ensures var e := ExactReadSpec(h, out.Length, old(stream.input), old(stream.clock), timeout, polls);
        e.loop.Some? ==> stream.input == e.loop.value.state.input && stream.clock == e.loop.value.state.clock
      ensures var e := ExactReadSpec(h, out.Length, old(stream.input), old(stream.clock), timeout, polls);
        h.None? ==> (var w := e.loop.value.state.wire; out[..|w|] == w && out[|w|..] == old(out[|w|..]))
      ensures h.Some? && r.Err? ==> out[..] == old(out[..])
    {
      var t0 := stream.clock;
      var ioOut := out;
      if h.Some? {
        var n := h.value.wrappedResponseLength(out.Length);
        if n.Err? {
          return Err(n.error);
        }
        if n.value < 0 {
          return Err(NegativeArraySize(n.value));
        }
        ioOut := new Byte[n.value];
      }
      var end: LoopEnd;
      var bytesRead: nat;
      ghost var wire: Bytes;
      end, bytesRead, wire := PollLoop(ioOut, timeout, polls);
      var nBytes := ioOut.Length;
      var t1 := stream.clock;
      if end == TimedOut {
        return Err(Timeout(bytesRead, nBytes));
      }
      if bytesRead != ioOut.Length {
        return Err(IncompleteRead(bytesRead, out.Length));
      }
      assert ioOut[..] == wire;
      if h.Some? {
        var unwrapped := h.value.unwrapResponse(ioOut[..]);
        if unwrapped.Err? {
          return Err(unwrapped.error);
        }
        if |unwrapped.value| != out.Length {
          return Err(LengthMismatch(|unwrapped.value|, out.Length));
        }
        CopyInto(unwrapped.value, out);
      }
      var res := NewResult(ReadStamps(t0, t1), Some(out[..]));
      r := Ok(res);
    }

    /**
     * writeAndRead(command, out, timeout, h): flush, write the command wrapped
     * once, then read(out, timeout) WITHOUT the handler, so the response is
     * not unwrapped. The wrap computed first is discarded, but its failure
     * still aborts the call.
     */
    method WriteAndReadExact(command: Bytes, out: array<Byte>, timeout: int, h: Option<Handler>, polls: seq<Poll>)
      returns (r: Result<IoManagerResult>)
      modifies stream, out
      ensures WrapWith(h, command).Err? ==> (r == Err(WrapWith(h, command).error)
        && stream.input == old(stream.input) && stream.output == old(stream.output) && out[..] == old(out[..]))
      ensures WrapWith(h, command).Ok? ==>
        var e := ExactReadSpec(None, out.Length, [], old(stream.clock), timeout, polls);
        && stream.output == old(stream.output) + WrapWith(h, command).value
        && (r.Ok? <==> e.outcome.Ok?)
        && (r.Err? ==> r.error == e.outcome.error)
        && (r.Ok? ==> (fresh(r.value) && out[..] == e.outcome.value
              && r.value.Value().result == Some(out[..]) && r.value.Value().stamps.Ordered()))
      ensures WrapWith(h, command).Ok? ==>
        var e := ExactReadSpec(None, out.Length, [], old(stream.clock), timeout, polls);
        var w := e.loop.value.state.wire;
        && stream.input == e.loop.value.state.input && stream.clock == e.loop.value.state.clock
        && out[..|w|] == w && out[|w|..] == old(out[|w|..])
    {
      var t0 := stream.clock;
      var bytesToSend := WrapWith(h, command);
      if bytesToSend.Err? {
        return Err(bytesToSend.error);
      }
      FlushAll();
      var writeResult := Write(command, h);
      assert writeResult.Ok?;
      var txStart, txEnd := writeResult.value.requestTxStartTime, writeResult.value.requestTxEndTime;
      var readResult := ReadExact(out, timeout, None, polls);
      if readResult.Err? {
        return Err(readResult.error);
      }
      var t1 := stream.clock;
      var res := NewResult(Stamps(t0, txStart, txEnd, readResult.value.requestRxStartTime,
                                  readResult.value.requestRxEndTime, t1),
                           readResult.value.result);
      r := Ok(res);
    }
  }
}
