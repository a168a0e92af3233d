// IoProtocolHandler: a protocol that decorates request and response payloads
// with its own framing. The interface is four stateless functions, each of
// which may throw an IOException; a null handler means "send and receive the
// payload as it is". TestProtocolManager is the concrete handler of the
// project's record/replay test: one 0x00 byte in front of every message.

module Protocol {
  import opened Common

  /** The four operations of an IoProtocolHandler. */
  datatype Handler = Handler(
    wrapRequest: Bytes -> Result<Bytes>,
    wrappedRequestLength: int -> Result<int>,
    unwrapResponse: Bytes -> Result<Bytes>,
    wrappedResponseLength: int -> Result<int>)

  /** The bytes that go on the wire for a request: wrapped when a handler is given. */
  function WrapWith(h: Option<Handler>, raw: Bytes): (r: Result<Bytes>)
    ensures h.None? ==> r == Ok(raw)
  {
    match h
    case None => Ok(raw)
    case Some(p) => p.wrapRequest(raw)
  }

  /** The payload carried by a response: unwrapped when a handler is given. */
  function UnwrapWith(h: Option<Handler>, wire: Bytes): (r: Result<Bytes>)
    ensures h.None? ==> r == Ok(wire)
  {
    match h
    case None => Ok(wire)
    case Some(p) => p.unwrapResponse(wire)
  }

  /** The number of wire bytes that carry a response of `n` payload bytes. */
  function ResponseWireLength(h: Option<Handler>, n: nat): (r: Result<int>)
    ensures h.None? ==> r == Ok(n)
  {
    match h
    case None => Ok(n)
    case Some(p) => p.wrappedResponseLength(n)
  }

  /**
   * What the interface documents but cannot enforce: the request length map
   * predicts the length of every successful wrap.
   */
  ghost predicate RequestLengthConsistent(h: Handler)
  {
    forall raw: Bytes :: h.wrapRequest(raw).Ok? ==>
      h.wrappedRequestLength(|raw|) == Ok(|h.wrapRequest(raw).value|)
  }

  /**
   * A handler whose unwrap undoes its wrap on every payload. The interface
   * does not promise this; a handler used for loop-back must have it.
   */
  ghost predicate RoundTrips(h: Handler)
  {
    forall raw: Bytes :: h.wrapRequest(raw).Ok? ==>
      h.unwrapResponse(h.wrapRequest(raw).value) == Ok(raw)
  }

  // ---- The handler of the record/replay test ----

  /** Prepends 0x00. */
  function TestWrap(raw: Bytes): (r: Result<Bytes>)
  {
    Ok([0] + raw)
  }

  /** Drops the first byte; on an empty message `new byte[-1]` throws. */
  function TestUnwrap(wrapped: Bytes): (r: Result<Bytes>)
  {
    if |wrapped| == 0 then Err(NegativeArraySize(-1)) else Ok(wrapped[1..])
  }

  function TestLength(n: int): (r: Result<int>)
  {
    Ok(n + 1)
  }

  const TestProtocolManager: Handler := Handler(TestWrap, TestLength, TestUnwrap, TestLength)

  /** The test handler undoes its own wrap and its two length maps match its wrap. */
  lemma TestProtocolManagerWellBehaved()
    ensures RoundTrips(TestProtocolManager)
    ensures RequestLengthConsistent(TestProtocolManager)
  {
    forall raw: Bytes
      ensures TestUnwrap(TestWrap(raw).value) == Ok(raw)
    {
      assert ([0] + raw)[1..] == raw;
    }
  }

  /** The test handler's unwrap fails exactly on the empty message and otherwise removes one byte. */
  lemma TestUnwrapShape(wrapped: Bytes)
    ensures TestUnwrap(wrapped).Err? <==> wrapped == []
    ensures TestUnwrap(wrapped).Ok? ==> |TestUnwrap(wrapped).value| + 1 == |wrapped|
    ensures TestUnwrap(wrapped).Ok? ==> [wrapped[0]] + TestUnwrap(wrapped).value == wrapped
  {
  }

  /** A response of `n` payload bytes takes `n + 1` wire bytes, the length of a wrapped message. */
  lemma TestResponseLength(payload: Bytes)
    ensures ResponseWireLength(Some(TestProtocolManager), |payload|) == Ok(|TestWrap(payload).value|)
    ensures UnwrapWith(Some(TestProtocolManager), TestWrap(payload).value) == Ok(payload)
  {
    assert ([0] + payload)[1..] == payload;
  }
}
