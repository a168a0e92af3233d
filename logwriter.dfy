// DebugLogWriterIoManager: an IoManager that forwards every call to a
// delegate and appends what went over the wire to a debug log. With a
// protocol handler it wraps the command itself and hands the delegate the
// wrapped bytes through the handler-free variant; the log holds wire bytes,
// and the handler unwraps the response after it was logged.
//
// The delegate is the record/replay test's TestIoManager; the log is kept as
// its sequence of lines, the text on the stream being Join of them.

module LogWriter {
  import opened Common
  import opened TextLines
  import opened Protocol
  import opened IoResult
  import opened FakeIo
  import opened DebugLog

  /** The length of the buffer an exact operation hands the delegate, when it can be created. */
  function BufferOf(h: Option<Handler>, n: nat): nat
  {
    if BufferLength(h, n).Ok? then BufferLength(h, n).value else n
  }

  /** TestIoManager's answer to the handler-free call the writer makes for `op`. */
  function FakeReply(op: Op): (reply: Result<Bytes>)
    ensures reply.Ok? && Fits(op, reply)
    ensures forall i :: 0 <= i < |reply.value| ==> reply.value[i] == 0xFF
  {
    match op
    case WriteOp(_, _) => Ok([])
    case WriteAndReadOp(_, _, _) => Ok(Filled(ResponseLength))
    case WriteAndReadExactOp(_, n, _, h) => Ok(Filled(BufferOf(h, n)))
    case ReadOp(_) => Ok(Filled(ResponseLength))
    case ReadExactOp(n, _, h) => Ok(Filled(BufferOf(h, n)))
  }

  /** The command the writer hands the delegate for `op`, when the call gets that far. */
  function DelegateWrites(op: Op): (sent: seq<Bytes>)
    ensures |sent| <= 1
    ensures sent != [] ==> op.Sends() && WrapWith(op.handler, op.command) == Ok(sent[0])
  {
    match op
    case WriteOp(c, h) => if WrapWith(h, c).Ok? then [WrapWith(h, c).value] else []
    case WriteAndReadOp(c, _, h) => if WrapWith(h, c).Ok? then [WrapWith(h, c).value] else []
    case WriteAndReadExactOp(c, n, _, h) =>
      if WrapWith(h, c).Ok? && BufferLength(h, n).Ok? then [WrapWith(h, c).value] else []
    case ReadOp(_) => []
    case ReadExactOp(_, _, _) => []
  }

  class DebugLogWriterIoManager {
    const delegate: TestIoManager
    /** The lines written to the log so far. */
    var log: seq<string>

    constructor (delegate: TestIoManager)
      ensures this.delegate == delegate && log == []
    {
      this.delegate := delegate;
      log := [];
    }

    /**
     * The text written to the output stream so far: every logged line and its
     * terminator, and a reader splitting it into lines gets the log back when
     * no logged line holds a break.
     */
    function Text(): (text: string)
      reads this
      ensures |text| >= 2 * |log|
      ensures log != [] ==> text == Join(log[..|log| - 1]) + log[|log| - 1] + "\r\n"
      ensures (forall i :: 0 <= i < |log| ==> NoBreaks(log[i])) ==> SplitLines(text) == log
    {
      if log != [] then
        JoinSnoc(log[..|log| - 1], log[|log| - 1]);
        assert log[..|log| - 1] + [log[|log| - 1]] == log;
        if forall i :: 0 <= i < |log| ==> NoBreaks(log[i]) then SplitJoin(log); Join(log) else Join(log)
      else
        Join(log)
    }

    method Write(command: Bytes, h: Option<Handler>) returns (r: Result<IoManagerResult>)
      modifies this, delegate, delegate.clock
      ensures var op := WriteOp(command, h); var rec := Record(op, FakeReply(op));
        log == old(log) + rec.lines && Observed(r) == rec.outcome
      ensures r.Ok? ==> fresh(r.value) && r.value.Value().stamps == FakeStamps(old(delegate.clock.now), true, false, 0)
      ensures delegate.writes == old(delegate.writes) + DelegateWrites(WriteOp(command, h))
    {
      var sent := WrapWith(h, command);
      if sent.Err? {
        return Err(sent.error);
      }
      log := log + WriteEntry(sent.value);
      var res := delegate.Write(sent.value);
      r := Ok(res);
    }

    method WriteAndRead(command: Bytes, delay: int, h: Option<Handler>) returns (r: Result<IoManagerResult>)
      modifies this, delegate, delegate.clock
      ensures var op := WriteAndReadOp(command, delay, h); var rec := Record(op, FakeReply(op));
        log == old(log) + rec.lines && Observed(r) == rec.outcome
      ensures r.Ok? ==> fresh(r.value) && r.value.Value().stamps == FakeStamps(old(delegate.clock.now), true, true, delay)
      ensures delegate.writes == old(delegate.writes) + DelegateWrites(WriteAndReadOp(command, delay, h))
    {
      var sent := WrapWith(h, command);
      if sent.Err? {
        return Err(sent.error);
      }
      var res := delegate.WriteAndRead(sent.value, delay);
      var received := res.result.value;
      log := log + WriteAndReadEntry(sent.value, received);
      if h.Some? {
        var payload := UnwrapWith(h, received);
        if payload.Err? {
          return Err(payload.error);
        }
        res.SetResult(Some(payload.value));
      }
      res.SetRequestEndTime(delegate.clock.now);
      r := Ok(res);
    }

    /**
     * The exact variant. With a handler the delegate fills a buffer of the
     * wrapped response length, and the unwrapped payload must fill `out`.
     */
    method WriteAndReadExact(command: Bytes, out: array<Byte>, timeout: int, h: Option<Handler>)
      returns (r: Result<IoManagerResult>)
      modifies this, delegate, delegate.clock, out
      ensures var op := WriteAndReadExactOp(command, out.Length, timeout, h); var rec := Record(op, FakeReply(op));
        log == old(log) + rec.lines && Observed(r) == rec.outcome
      ensures r.Ok? ==> fresh(r.value) && r.value.Value() == Outcome(
        FakeStamps(old(delegate.clock.now), true, true, JavaDiv(timeout, 2)), Some(out[..]))
      ensures r.Err? && h.Some? ==> out[..] == old(out[..])
      ensures delegate.writes == old(delegate.writes) + DelegateWrites(WriteAndReadExactOp(command, out.Length, timeout, h))
    {
      var sent := WrapWith(h, command);
      if sent.Err? {
        return Err(sent.error);
      }
      var ioOut := out;
      if h.Some? {
        var length := BufferLength(h, out.Length);
        if length.Err? {
          return Err(length.error);
        }
        ioOut := new Byte[length.value];
      }
      var res := delegate.WriteAndReadInto(sent.value, ioOut, timeout);
      log := log + WriteAndReadEntry(sent.value, res.result.value);
      if h.Some? {
        var payload := UnwrapWith(h, ioOut[..]);
        if payload.Err? {
          return Err(payload.error);
        }
        if |payload.value| != out.Length {
          return Err(LengthMismatch(|payload.value|, out.Length));
        }
        CopyInto(payload.value, out);
      }
      res.SetResult(Some(out[..]));
      res.SetRequestEndTime(delegate.clock.now);
      r := Ok(res);
    }

    method Read(h: Option<Handler>) returns (r: Result<IoManagerResult>)
      modifies this, delegate.clock
      ensures var op := ReadOp(h); var rec := Record(op, FakeReply(op));
        log == old(log) + rec.lines && Observed(r) == rec.outcome
      ensures r.Ok? ==> fresh(r.value) && r.value.Value().stamps == FakeStamps(old(delegate.clock.now), false, true, 0)
    {
      var res := delegate.Read();
      var received := res.result.value;
      log := log + ReadEntry(received);
      if h.Some? {
        var payload := UnwrapWith(h, received);
        if payload.Err? {
          return Err(payload.error);
        }
        res.SetResult(Some(payload.value));
      }
      res.SetRequestEndTime(delegate.clock.now);
      r := Ok(res);
    }

    method ReadExact(out: array<Byte>, timeout: int, h: Option<Handler>) returns (r: Result<IoManagerResult>)
      modifies this, delegate.clock, out
      ensures var op := ReadExactOp(out.Length, timeout, h); var rec := Record(op, FakeReply(op));
        log == old(log) + rec.lines && Observed(r) == rec.outcome
      ensures r.Ok? ==> fresh(r.value) && r.value.Value() == Outcome(
        FakeStamps(old(delegate.clock.now), false, true, JavaDiv(timeout, 2)), Some(out[..]))
      ensures r.Err? && h.Some? ==> out[..] == old(out[..])
    {
      var ioOut := out;
      if h.Some? {
        var length := BufferLength(h, out.Length);
        if length.Err? {
          return Err(length.error);
        }
        ioOut := new Byte[length.value];
      }
      var res := delegate.ReadInto(ioOut, timeout);
      log := log + ReadEntry(res.result.value);
      if h.Some? {
        var payload := UnwrapWith(h, ioOut[..]);
        if payload.Err? {
          return Err(payload.error);
        }
        if |payload.value| != out.Length {
          return Err(LengthMismatch(|payload.value|, out.Length));
        }
        CopyInto(payload.value, out);
      }
      res.SetResult(Some(out[..]));
      res.SetRequestEndTime(delegate.clock.now);
      r := Ok(res);
    }

    /** Forwards to the delegate; nothing is logged. */
    method FlushAll()
      ensures unchanged(this)
    {
      delegate.FlushAll();
    }
  }
}
