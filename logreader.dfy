// DebugLogReaderIoManager: replays a debug log instead of talking to a
// device. Every call reads the next entry of the log, checks that the command
// it is asked to send is the one recorded (wrapped first when a handler is
// given), sleeps where the original exchange waited, and answers with the
// recorded response (unwrapped when a handler is given).
//
// The log is the sequence of lines a BufferedReader yields over the text;
// `lines` holds those not yet read.

module LogReader {
  import opened Common
  import opened TextLines
  import opened Protocol
  import opened IoResult
  import opened DebugLog

  class DebugLogReaderIoManager {
    /** The lines of the log not read yet. */
    var lines: seq<string>
    const clock: Clock

    constructor (text: string, clock: Clock)
      ensures lines == SplitLines(text) && this.clock == clock
    {
      lines := SplitLines(text);
      this.clock := clock;
    }

    /** BufferedReader.readLine: the next line, or None (null) at the end of the log. */
    method ReadLine() returns (line: Option<string>)
      modifies this
      ensures (line, lines) == NextLine(old(lines))
    {
      if lines == [] {
        line := None;
      } else {
        line := Some(lines[0]);
        lines := lines[1..];
      }
    }

    /** lineToBytes: a missing line throws, any other is Base64-decoded. */
    method LineToBytes(line: Option<string>) returns (r: Result<Bytes>)
      ensures r == DebugLog.LineToBytes(line)
    {
      if line.None? {
        return Err(EndOfLog);
      }
      r := Ok(Base64.Decode(line.value));
    }

    method WriteInternal(command: Bytes, h: Option<Handler>) returns (r: Result<IoManagerResult>)
      modifies this
      ensures var e := ReplayWrite(command, h, old(lines)); lines == e.rest && Observed(r) == e.outcome
      ensures r.Ok? ==> fresh(r.value) && r.value.Value().stamps == Stamps(old(clock.now), old(clock.now),
        old(clock.now), old(clock.now), old(clock.now), old(clock.now))
      ensures clock.now == old(clock.now)
    {
      var t := clock.now;
      var line := ReadLine();
      var sent := WrapWith(h, command);
      if sent.Err? {
        return Err(sent.error);
      }
      if line != Some(WriteTag) {
        return Err(UnexpectedLine(WriteTag, line));
      }
      var outLine := ReadLine();
      var recorded := LineToBytes(outLine);
      if recorded.Err? {
        return Err(recorded.error);
      }
      if recorded.value != sent.value {
        return Err(CommandMismatch(sent.value, recorded.value));
      }
      var res := NewResult(Stamps(t, t, t, t, t, t), None);
      r := Ok(res);
    }

    method WriteAndReadInternal(command: Bytes, delay: int, h: Option<Handler>) returns (r: Result<IoManagerResult>)
      modifies this, clock
      ensures var e := ReplayWriteAndRead(command, delay, h, old(lines)); lines == e.rest && Observed(r) == e.outcome
      ensures r.Ok? ==> (fresh(r.value) && delay >= 0 && clock.now == old(clock.now) + delay
        && r.value.Value().stamps == Stamps(old(clock.now), old(clock.now), old(clock.now),
                                            clock.now, clock.now, clock.now))
    {
      var t := clock.now;
      var line := ReadLine();
      var sent := WrapWith(h, command);
      if sent.Err? {
        return Err(sent.error);
      }
      if line != Some(WriteAndReadTag) {
        return Err(UnexpectedLine(WriteAndReadTag, line));
      }
      var outLine := ReadLine();
      var recorded := LineToBytes(outLine);
      if recorded.Err? {
        return Err(recorded.error);
      }
      if recorded.value != sent.value {
        return Err(CommandMismatch(sent.value, recorded.value));
      }
      if delay < 0 {
        return Err(NegativeSleep(delay));
      }
      clock.Sleep(delay);
      var inLine := ReadLine();
      var received := LineToBytes(inLine);
      if received.Err? {
        return Err(received.error);
      }
      var payload := UnwrapWith(h, received.value);
      if payload.Err? {
        return Err(payload.error);
      }
      var res := NewResult(Stamps(t, t, t, clock.now, clock.now, clock.now), Some(payload.value));
      r := Ok(res);
    }

    /** readInternal sleeps before it reads, and reports half the sleep as the reception time. */
    method ReadInternal(delay: int, h: Option<Handler>) returns (r: Result<IoManagerResult>)
      modifies this, clock
      ensures var e := ReplayRead(delay, h, old(lines)); lines == e.rest && Observed(r) == e.outcome
      ensures r.Ok? ==> (fresh(r.value) && delay >= 0 && clock.now == old(clock.now) + delay
        && r.value.Value().stamps == Stamps(old(clock.now), old(clock.now), old(clock.now),
                                            old(clock.now), old(clock.now) + JavaDiv(delay, 2), clock.now)
        && r.value.Value().stamps.Ordered())
    {
      var t := clock.now;
      if delay < 0 {
        return Err(NegativeSleep(delay));
      }
      clock.Sleep(delay);
      var line := ReadLine();
      if line != Some(ReadTag) {
        return Err(UnexpectedLine(ReadTag, line));
      }
      var inLine := ReadLine();
      var received := LineToBytes(inLine);
      if received.Err? {
        return Err(received.error);
      }
      var payload := UnwrapWith(h, received.value);
      if payload.Err? {
        return Err(payload.error);
      }
      var res := NewResult(Stamps(t, t, t, t, t + JavaDiv(delay, 2), clock.now), Some(payload.value));
      r := Ok(res);
    }

    method Write(command: Bytes, h: Option<Handler>) returns (r: Result<IoManagerResult>)
      modifies this
      ensures var e := ReplayStep(WriteOp(command, h), old(lines)); lines == e.rest && Observed(r) == e.outcome
      ensures r.Ok? ==> fresh(r.value)
    {
      r := WriteInternal(command, h);
    }

    method WriteAndRead(command: Bytes, delay: int, h: Option<Handler>) returns (r: Result<IoManagerResult>)
      modifies this, clock
      ensures var e := ReplayStep(WriteAndReadOp(command, delay, h), old(lines)); lines == e.rest && Observed(r) == e.outcome
      ensures r.Ok? ==> fresh(r.value) && r.value.Value().stamps.Ordered()
    {
      r := WriteAndReadInternal(command, delay, h);
    }

    /** Replays with a tenth of the timeout as the delay; the replayed payload must fill `out` exactly. */
    method WriteAndReadExact(command: Bytes, out: array<Byte>, timeout: int, h: Option<Handler>)
      returns (r: Result<IoManagerResult>)
      modifies this, clock, out
      ensures var e := ReplayStep(WriteAndReadExactOp(command, out.Length, timeout, h), old(lines));
        lines == e.rest && Observed(r) == e.outcome
      ensures r.Ok? ==> fresh(r.value) && r.value.result == Some(out[..])
      ensures r.Err? ==> out[..] == old(out[..])
    {
      r := WriteAndReadInternal(command, JavaDiv(timeout, 10), h);
      if r.Err? {
        return;
      }
      var received := r.value.result.value;
      if |received| != out.Length {
        return Err(LengthMismatch(|received|, out.Length));
      }
      CopyInto(received, out);
    }

    method Read(h: Option<Handler>) returns (r: Result<IoManagerResult>)
      modifies this, clock
      ensures var e := ReplayStep(ReadOp(h), old(lines)); lines == e.rest && Observed(r) == e.outcome
      ensures r.Ok? ==> fresh(r.value) && r.value.Value().stamps.Ordered()
    {
      r := ReadInternal(0, h);
    }

    method ReadExact(out: array<Byte>, timeout: int, h: Option<Handler>) returns (r: Result<IoManagerResult>)
      modifies this, clock, out
      ensures var e := ReplayStep(ReadExactOp(out.Length, timeout, h), old(lines));
        lines == e.rest && Observed(r) == e.outcome
      ensures r.Ok? ==> fresh(r.value) && r.value.result == Some(out[..])
      ensures r.Err? ==> out[..] == old(out[..])
    {
      r := ReadInternal(JavaDiv(timeout, 10), h);
      if r.Err? {
        return;
      }
      var received := r.value.result.value;
      if |received| != out.Length {
        return Err(LengthMismatch(|received|, out.Length));
      }
      CopyInto(received, out);
    }

    /** Nothing to flush in a replay. */
    method FlushAll()
      ensures unchanged(this)
    {
    }
  }
}
