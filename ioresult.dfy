// IoManagerResult: the record every IO operation returns. Six timestamps
// (milliseconds since the epoch) and, when the operation produced data, the
// resulting bytes. The engines fill it in one field at a time.

module IoResult {
  import opened Common

  /** The six timestamps of one operation, in the order they are taken. */
  datatype Stamps = Stamps(start: int, txStart: int, txEnd: int, rxStart: int, rxEnd: int, end: int)
  {
    /** Every phase starts no earlier than the previous one ended. */
    predicate Ordered()
    {
      start <= txStart <= txEnd <= rxStart <= rxEnd <= end
    }
  }

  /** What a caller can observe of a finished result. */
  datatype Outcome = Outcome(stamps: Stamps, result: Option<Bytes>)

  /** Stamps of an operation that neither transmits nor receives after `t0` until `t1`. */
  function ReadStamps(t0: int, t1: int): (s: Stamps)
    requires t0 <= t1
    ensures s.Ordered()
    ensures s.start == s.txStart == s.txEnd == s.rxStart == t0
    ensures s.rxEnd == s.end == t1
  {
    Stamps(t0, t0, t0, t0, t1, t1)
  }

  class IoManagerResult {
    var requestStartTime: int
    var requestTxStartTime: int
    var requestTxEndTime: int
    var requestRxStartTime: int
    var requestRxEndTime: int
    var requestEndTime: int
    /** The output of the operation, if applicable; None stands for Java's null. */
    var result: Option<Bytes>

    /** The observable content of the record. */
    function Value(): (v: Outcome)
      reads this
    {
      Outcome(Stamps(requestStartTime, requestTxStartTime, requestTxEndTime,
                     requestRxStartTime, requestRxEndTime, requestEndTime), result)
    }

    /** A new record: all timestamps 0 and no result. */
    constructor ()
      ensures Value() == Outcome(Stamps(0, 0, 0, 0, 0, 0), None)
    {
      requestStartTime, requestTxStartTime, requestTxEndTime := 0, 0, 0;
      requestRxStartTime, requestRxEndTime, requestEndTime := 0, 0, 0;
      result := None;
    }

    method SetRequestStartTime(t: int)
      modifies this
      ensures Value() == old(Value()).(stamps := old(Value()).stamps.(start := t))
    {
      requestStartTime := t;
    }

    method SetRequestTxStartTime(t: int)
      modifies this
      ensures Value() == old(Value()).(stamps := old(Value()).stamps.(txStart := t))
    {
      requestTxStartTime := t;
    }

    method SetRequestTxEndTime(t: int)
      modifies this
      ensures Value() == old(Value()).(stamps := old(Value()).stamps.(txEnd := t))
    {
      requestTxEndTime := t;
    }

    method SetRequestRxStartTime(t: int)
      modifies this
      ensures Value() == old(Value()).(stamps := old(Value()).stamps.(rxStart := t))
    {
      requestRxStartTime := t;
    }

    method SetRequestRxEndTime(t: int)
      modifies this
      ensures Value() == old(Value()).(stamps := old(Value()).stamps.(rxEnd := t))
    {
      requestRxEndTime := t;
    }

    method SetRequestEndTime(t: int)
      modifies this
      ensures Value() == old(Value()).(stamps := old(Value()).stamps.(end := t))
    {
      requestEndTime := t;
    }

    method SetResult(out: Option<Bytes>)
      modifies this
      ensures Value() == old(Value()).(result := out)
    {
      result := out;
    }
  }

  /** What a caller of an IO operation gets: the result bytes (None for null), or the exception. */
  function Observed(r: Result<IoManagerResult>): (a: Result<Option<Bytes>>)
    reads if r.Ok? then {r.value} else {}
    ensures a.Ok? <==> r.Ok?
    ensures r.Ok? ==> a.value == r.value.result
    ensures r.Err? ==> a.error == r.error
  {
    if r.Ok? then Ok(r.value.result) else Err(r.error)
  }

  /**
   * System.currentTimeMillis and Thread.sleep as the IO managers see them:
   * reading the clock takes no time and a sleep lasts exactly its duration.
   */
  class Clock {
    var now: int

    constructor (start: int)
      ensures now == start
    {
      now := start;
    }

    /** Thread.sleep of a duration that is not negative (a negative one throws; callers check). */
    method Sleep(millis: int)
      requires millis >= 0
      modifies this
      ensures now == old(now) + millis
    {
      now := now + millis;
    }
  }

  /** A fresh record holding the given stamps and result. */
  method NewResult(s: Stamps, out: Option<Bytes>) returns (r: IoManagerResult)
    ensures fresh(r) && r.Value() == Outcome(s, out)
  {
    r := new IoManagerResult();
    r.SetRequestStartTime(s.start);
    r.SetRequestTxStartTime(s.txStart);
    r.SetRequestTxEndTime(s.txEnd);
    r.SetRequestRxStartTime(s.rxStart);
    r.SetRequestRxEndTime(s.rxEnd);
    r.SetRequestEndTime(s.end);
    r.SetResult(out);
  }
}
