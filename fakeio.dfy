// TestIoManager, the delegate of the record/replay test: it remembers every
// command written, answers every read with bytes of 0xFF, stamps its results
// with a clock that advances 100 ms per simulated transmission or reception,
// and throws if one of its protocol-handler variants is called (the debug-log
// writer wraps and unwraps itself and only ever calls the handler-free ones).

module FakeIo {
  import opened Common
  import opened Protocol
  import opened IoResult

  /** How long the fake takes to transmit, and to receive. */
  const TransferMillis: int := 100

  /** The length of the responses the fake invents for the non-exact variants. */
  const ResponseLength: nat := 10

  /** The stamps createResult takes when it starts at `t0`. */
  function FakeStamps(t0: int, write: bool, read: bool, delay: int): (s: Stamps)
    ensures s.Ordered()
    ensures s.start == s.txStart == t0
    ensures s.end == s.rxEnd
    ensures s.end - s.start == (if write then TransferMillis else 0) + Max(delay, 0) + (if read then TransferMillis else 0)
  {
    var txEnd := if write then t0 + TransferMillis else t0;
    var rxStart := if delay > 0 then txEnd + delay else txEnd;
    var rxEnd := if read then rxStart + TransferMillis else rxStart;
    Stamps(t0, t0, txEnd, rxStart, rxEnd, rxEnd)
  }

  /** `n` bytes of 0xFF: Arrays.fill(out, (byte) 0xFF). */
  function Filled(n: nat): (s: Bytes)
    ensures |s| == n
    ensures forall i :: 0 <= i < n ==> s[i] == 0xFF
  {
    seq(n, _ => 0xFF)
  }

  method Fill(a: array<Byte>)
    modifies a
    ensures a[..] == Filled(a.Length)
  {
    var i := 0;
    while i < a.Length
      invariant 0 <= i <= a.Length
      invariant a[..i] == Filled(i)
    {
      a[i] := 0xFF;
      i := i + 1;
    }
  }

  class TestIoManager {
    /** Every command written, in order. */
    var writes: seq<Bytes>
    const clock: Clock

    constructor (clock: Clock)
      ensures this.clock == clock && writes == []
    {
      this.clock := clock;
      writes := [];
    }

    /** createResult: stamps as FakeStamps says; a given buffer is filled with 0xFF and becomes the result. */
    method CreateResult(write: bool, read: bool, delay: int, out: array?<Byte>) returns (r: IoManagerResult)
      modifies clock, out
      ensures fresh(r)
      ensures clock.now == FakeStamps(old(clock.now), write, read, delay).end
      ensures out != null ==> out[..] == Filled(out.Length)
      ensures r.Value() == Outcome(FakeStamps(old(clock.now), write, read, delay),
                                   if out == null then None else Some(Filled(out.Length)))
    {
      r := new IoManagerResult();
      r.SetRequestStartTime(clock.now);
      StampTransfer(r, write, true);
      if delay > 0 {
        clock.Sleep(delay);
      }
      StampTransfer(r, read, false);
      if out != null {
        Fill(out);
        r.SetResult(Some(out[..]));
      }
      r.SetRequestEndTime(clock.now);
    }

    /** The start and end stamps of the transmit (tx) or receive phase: 100 ms apart when the phase happens, equal otherwise. */
    method StampTransfer(r: IoManagerResult, happens: bool, tx: bool)
      modifies r, clock
      ensures clock.now == old(clock.now) + (if happens then TransferMillis else 0)
      ensures var st := old(r.Value()).stamps;
        r.Value() == old(r.Value()).(stamps :=
          if tx then st.(txStart := old(clock.now), txEnd := clock.now)
          else st.(rxStart := old(clock.now), rxEnd := clock.now))
    {
      if tx {
        r.SetRequestTxStartTime(clock.now);
      } else {
        r.SetRequestRxStartTime(clock.now);
      }
      if happens {
        clock.Sleep(TransferMillis);
      }
      if tx {
        r.SetRequestTxEndTime(clock.now);
      } else {
        r.SetRequestRxEndTime(clock.now);
      }
    }

    method Write(command: Bytes) returns (r: IoManagerResult)
      modifies this, clock
      ensures writes == old(writes) + [command]
      ensures fresh(r) && r.Value() == Outcome(FakeStamps(old(clock.now), true, false, 0), None)
      ensures clock.now == r.Value().stamps.end
    {
      writes := writes + [command];
      r := CreateResult(true, false, 0, null);
    }

    method WriteAndRead(command: Bytes, delay: int) returns (r: IoManagerResult)
      modifies this, clock
      ensures writes == old(writes) + [command]
      ensures fresh(r) && r.Value() == Outcome(FakeStamps(old(clock.now), true, true, delay), Some(Filled(ResponseLength)))
      ensures clock.now == r.Value().stamps.end
    {
      writes := writes + [command];
      var out := new Byte[ResponseLength];
      r := CreateResult(true, true, delay, out);
    }

    /** The exact variant: waits half the timeout and fills the caller's buffer. */
    method WriteAndReadInto(command: Bytes, out: array<Byte>, timeout: int) returns (r: IoManagerResult)
      modifies this, clock, out
      ensures writes == old(writes) + [command]
      ensures out[..] == Filled(out.Length)
      ensures fresh(r) && r.Value() == Outcome(FakeStamps(old(clock.now), true, true, JavaDiv(timeout, 2)), Some(out[..]))
      ensures clock.now == r.Value().stamps.end
    {
      writes := writes + [command];
      r := CreateResult(true, true, JavaDiv(timeout, 2), out);
    }

    method Read() returns (r: IoManagerResult)
      modifies clock
      ensures fresh(r) && r.Value() == Outcome(FakeStamps(old(clock.now), false, true, 0), Some(Filled(ResponseLength)))
      ensures clock.now == r.Value().stamps.end
    {
      var out := new Byte[ResponseLength];
      r := CreateResult(false, true, 0, out);
    }

    method ReadInto(out: array<Byte>, timeout: int) returns (r: IoManagerResult)
      modifies clock, out
      ensures out[..] == Filled(out.Length)
      ensures fresh(r) && r.Value() == Outcome(FakeStamps(old(clock.now), false, true, JavaDiv(timeout, 2)), Some(out[..]))
      ensures clock.now == r.Value().stamps.end
    {
      r := CreateResult(false, true, JavaDiv(timeout, 2), out);
    }

    /** Every protocol-handler variant throws "SHOULD NOT BE CALLED" and changes nothing. */
    method WithHandler(h: Handler) returns (r: Result<IoManagerResult>)
      ensures r == Err(NotCalledOnFake)
    {
      r := Err(NotCalledOnFake);
    }

    method FlushAll()
    {
    }
  }
}
