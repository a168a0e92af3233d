// The debug log shared by DebugLogWriterIoManager and DebugLogReaderIoManager,
// as values: which lines the writer appends for each operation, what the
// reader makes of the lines in front of it, and the theorems that tie the two
// together. The imperative classes in logwriter.dfy and logreader.dfy are
// proved against these functions.

module DebugLog {
  import opened Common
  import opened Base64
  import opened TextLines
  import opened Protocol

  const WriteTag: string := "# Write:"
  const WriteAndReadTag: string := "# Write and read:"
  const ReadTag: string := "# Read:"

  lemma TagsHaveNoBreaks()
    ensures NoBreaks(WriteTag) && NoBreaks(WriteAndReadTag) && NoBreaks(ReadTag)
  {
  }

  /** The entry of a write: the tag, then a line that decodes to the bytes sent; no line holds a break. */
  function WriteEntry(sent: Bytes): (entry: seq<string>)
    ensures |entry| == 2 && entry[0] == WriteTag && Decode(entry[1]) == sent
    ensures NoBreaks(entry[0]) && NoBreaks(entry[1])
  {
    TagsHaveNoBreaks();
    DecodeEncode(sent);
    EncodeHasNoLineBreaks(sent);
    [WriteTag, Encode(sent)]
  }

  /**
   * The entry of a write-and-read: the tag, a line that decodes to the bytes
   * sent, a line that decodes to the bytes received; no line holds a break.
   */
  function WriteAndReadEntry(sent: Bytes, received: Bytes): (entry: seq<string>)
    ensures |entry| == 3 && entry[0] == WriteAndReadTag
    ensures Decode(entry[1]) == sent && Decode(entry[2]) == received
    ensures NoBreaks(entry[0]) && NoBreaks(entry[1]) && NoBreaks(entry[2])
  {
    TagsHaveNoBreaks();
    DecodeEncode(sent);
    DecodeEncode(received);
    EncodeHasNoLineBreaks(sent);
    EncodeHasNoLineBreaks(received);
    [WriteAndReadTag, Encode(sent), Encode(received)]
  }

  /** The entry of a read: the tag, then a line that decodes to the bytes received; no line holds a break. */
  function ReadEntry(received: Bytes): (entry: seq<string>)
    ensures |entry| == 2 && entry[0] == ReadTag && Decode(entry[1]) == received
    ensures NoBreaks(entry[0]) && NoBreaks(entry[1])
  {
    TagsHaveNoBreaks();
    DecodeEncode(received);
    EncodeHasNoLineBreaks(received);
    [ReadTag, Encode(received)]
  }

  /** One call on an IoManager, with the arguments that matter to the log. */
  datatype Op =
    | WriteOp(command: Bytes, handler: Option<Handler>)
    | WriteAndReadOp(command: Bytes, delay: int, handler: Option<Handler>)
    | WriteAndReadExactOp(command: Bytes, length: nat, timeout: int, handler: Option<Handler>)
    | ReadOp(handler: Option<Handler>)
    | ReadExactOp(length: nat, timeout: int, handler: Option<Handler>)
  {
    /** The number of log lines the operation's entry has. */
    function LineCount(): nat
    {
      if WriteAndReadOp? || WriteAndReadExactOp? then 3 else 2
    }

    predicate Sends()
    {
      WriteOp? || WriteAndReadOp? || WriteAndReadExactOp?
    }
  }

  /** What an operation hands back to its caller: the result bytes, if any, or the exception. */
  type Answer = Result<Option<Bytes>>

  function SomeOf(r: Result<Bytes>): (o: Answer)
    ensures o.Ok? <==> r.Ok?
    ensures o.Ok? ==> o.value == Some(r.value)
    ensures o.Err? ==> o.error == r.error
  {
    match r
    case Ok(b) => Ok(Some(b))
    case Err(e) => Err(e)
  }

  /** The length of the buffer an exact operation hands its delegate: `new byte[...]` of the wire length. */
  function BufferLength(h: Option<Handler>, n: nat): (r: Result<nat>)
    ensures h.None? ==> r == Ok(n)
  {
    match ResponseWireLength(h, n)
    case Err(e) => Err(e)
    case Ok(len) => if len < 0 then Err(NegativeArraySize(len)) else Ok(len)
  }

  /** The payload of an exact operation: unwrapped and checked against the caller's buffer length. */
  function CheckedPayload(h: Option<Handler>, n: nat, buffer: Bytes): (o: Answer)
    ensures o.Ok? ==> o.value.Some? && (h.Some? ==> |o.value.value| == n)
    ensures h.None? ==> o == Ok(Some(buffer))
  {
    match UnwrapWith(h, buffer)
    case Err(e) => Err(e)
    case Ok(u) => if h.Some? && |u| != n then Err(LengthMismatch(|u|, n)) else Ok(Some(u))
  }

  // ---- The writer ----

  datatype Recorded = Recorded(outcome: Answer, lines: seq<string>)

  /**
   * DebugLogWriterIoManager on one operation, given `reply`, the answer of
   * the delegate's handler-free counterpart (its result bytes; for an exact
   * operation, the contents of the buffer it was given). A write is logged
   * before the delegate is called; every other operation is logged after
   * the delegate answered and before the handler unwraps.
   */
  function Record(op: Op, reply: Result<Bytes>): (rec: Recorded)
    ensures rec.lines == [] || |rec.lines| == op.LineCount()
    ensures rec.outcome.Ok? ==> |rec.lines| == op.LineCount()
  {
    match op
    case WriteOp(c, h) =>
      var sent := WrapWith(h, c);
      if sent.Err? then Recorded(Err(sent.error), [])
      else Recorded(if reply.Err? then Err(reply.error) else Ok(None), WriteEntry(sent.value))
    case WriteAndReadOp(c, _, h) =>
      var sent := WrapWith(h, c);
      if sent.Err? then Recorded(Err(sent.error), [])
      else if reply.Err? then Recorded(Err(reply.error), [])
      else Recorded(SomeOf(UnwrapWith(h, reply.value)), WriteAndReadEntry(sent.value, reply.value))
    case WriteAndReadExactOp(c, n, _, h) =>
      var sent := WrapWith(h, c);
      if sent.Err? then Recorded(Err(sent.error), [])
      else if BufferLength(h, n).Err? then Recorded(Err(BufferLength(h, n).error), [])
      else if reply.Err? then Recorded(Err(reply.error), [])
      else Recorded(CheckedPayload(h, n, reply.value), WriteAndReadEntry(sent.value, reply.value))
    case ReadOp(h) =>
      if reply.Err? then Recorded(Err(reply.error), [])
      else Recorded(SomeOf(UnwrapWith(h, reply.value)), ReadEntry(reply.value))
    case ReadExactOp(n, _, h) =>
      if BufferLength(h, n).Err? then Recorded(Err(BufferLength(h, n).error), [])
      else if reply.Err? then Recorded(Err(reply.error), [])
      else Recorded(CheckedPayload(h, n, reply.value), ReadEntry(reply.value))
  }

  /** A reply the delegate can give: an exact operation's buffer keeps the length it was created with. */
  predicate Fits(op: Op, reply: Result<Bytes>)
  {
    (op.WriteAndReadExactOp? || op.ReadExactOp?) && reply.Ok? ==>
      BufferLength(op.handler, op.length).Ok? ==> |reply.value| == BufferLength(op.handler, op.length).value
  }

  // ---- The reader ----

  datatype Replayed = Replayed(outcome: Answer, rest: seq<string>)

  /**
   * BufferedReader.readLine over the lines not yet read: None stands for null
   * at the end. A line read is taken off the front; at the end nothing is left.
   */
  function NextLine(lines: seq<string>): (r: (Option<string>, seq<string>))
    ensures r.0.None? <==> lines == []
    ensures r.0.None? ==> r.1 == []
    ensures r.0.Some? ==> |r.1| == |lines| - 1
  {
    if lines == [] then (None, []) else (Some(lines[0]), lines[1..])
  }

  /** The line read is the first one, and what is left is everything after it. */
  lemma NextLineTakesFront(lines: seq<string>)
    requires lines != []
    ensures [NextLine(lines).0.value] + NextLine(lines).1 == lines
  {
  }

  /** lineToBytes: a missing line is an error, any other line is decoded. */
  function LineToBytes(line: Option<string>): (r: Result<Bytes>)
    ensures r.Err? <==> line.None?
    ensures r.Err? ==> r.error == EndOfLog
    ensures r.Ok? ==> r.value == Decode(line.value)
  {
    match line
    case None => Err(EndOfLog)
    case Some(l) => Ok(Decode(l))
  }

  /**
   * writeInternal: tag line, then the recorded command, compared with the
   * (wrapped) command. It reads only from the front of the log, and succeeds
   * exactly when the next entry is a write of this very command, which it
   * then consumes.
   */
  function ReplayWrite(c: Bytes, h: Option<Handler>, lines: seq<string>): (r: Replayed)
    ensures |lines| - 2 <= |r.rest| <= |lines|
    ensures r.outcome.Ok? <==>
      WrapWith(h, c).Ok? && |lines| >= 2 && lines[0] == WriteTag && Decode(lines[1]) == WrapWith(h, c).value
    ensures r.outcome.Ok? ==> r.outcome.value.None? && r.rest == lines[2..]
  {
    var (line, r1) := NextLine(lines);
    match WrapWith(h, c)
    case Err(e) => Replayed(Err(e), r1)
    case Ok(sent) =>
      if line != Some(WriteTag) then Replayed(Err(UnexpectedLine(WriteTag, line)), r1)
      else
        var (outLine, r2) := NextLine(r1);
        match LineToBytes(outLine)
        case Err(e) => Replayed(Err(e), r2)
        case Ok(recorded) =>
          if recorded != sent then Replayed(Err(CommandMismatch(sent, recorded)), r2)
          else Replayed(Ok(None), r2)
  }

  /**
   * writeAndReadInternal: tag line, recorded command, the sleep, then the
   * recorded response, unwrapped. It reads only from the front of the log,
   * and succeeds only when the next entry is a write-and-read of this very
   * command and the sleep is not negative; it then consumes that entry and
   * answers the unwrap of the recorded response.
   */
  function ReplayWriteAndRead(c: Bytes, delay: int, h: Option<Handler>, lines: seq<string>): (r: Replayed)
    ensures |lines| - 3 <= |r.rest| <= |lines|
    ensures r.outcome.Ok? ==>
      && WrapWith(h, c).Ok? && delay >= 0 && |lines| >= 3
      && lines[0] == WriteAndReadTag && Decode(lines[1]) == WrapWith(h, c).value
      && r.outcome == SomeOf(UnwrapWith(h, Decode(lines[2]))) && r.rest == lines[3..]
  {
    var (line, r1) := NextLine(lines);
    match WrapWith(h, c)
    case Err(e) => Replayed(Err(e), r1)
    case Ok(sent) =>
      if line != Some(WriteAndReadTag) then Replayed(Err(UnexpectedLine(WriteAndReadTag, line)), r1)
      else
        var (outLine, r2) := NextLine(r1);
        match LineToBytes(outLine)
        case Err(e) => Replayed(Err(e), r2)
        case Ok(recorded) =>
          if recorded != sent then Replayed(Err(CommandMismatch(sent, recorded)), r2)
          else if delay < 0 then Replayed(Err(NegativeSleep(delay)), r2)
          else
            var (inLine, r3) := NextLine(r2);
            match LineToBytes(inLine)
            case Err(e) => Replayed(Err(e), r3)
            case Ok(b) => Replayed(SomeOf(UnwrapWith(h, b)), r3)
  }

  /**
   * readInternal: the sleep comes first, so a negative one fails before any
   * line is read; then the tag line and the recorded response, unwrapped. It
   * reads only from the front of the log, and succeeds only on a read entry,
   * which it then consumes.
   */
  function ReplayRead(delay: int, h: Option<Handler>, lines: seq<string>): (r: Replayed)
    ensures delay < 0 ==> r == Replayed(Err(NegativeSleep(delay)), lines)
    ensures |lines| - 2 <= |r.rest| <= |lines|
    ensures r.outcome.Ok? ==>
      && delay >= 0 && |lines| >= 2 && lines[0] == ReadTag
      && r.outcome == SomeOf(UnwrapWith(h, Decode(lines[1]))) && r.rest == lines[2..]
  {
    if delay < 0 then Replayed(Err(NegativeSleep(delay)), lines)
    else
      var (line, r1) := NextLine(lines);
      if line != Some(ReadTag) then Replayed(Err(UnexpectedLine(ReadTag, line)), r1)
      else
        var (inLine, r2) := NextLine(r1);
        match LineToBytes(inLine)
        case Err(e) => Replayed(Err(e), r2)
        case Ok(b) => Replayed(SomeOf(UnwrapWith(h, b)), r2)
  }

  /** The exact variants: the replayed payload must have the caller's buffer length. */
  function LengthChecked(r: Replayed, n: nat): (c: Replayed)
    ensures c.rest == r.rest
    ensures c.outcome.Ok? ==> c.outcome == r.outcome && c.outcome.value.Some? && |c.outcome.value.value| == n
  {
    match r.outcome
    case Ok(Some(b)) => if |b| != n then Replayed(Err(LengthMismatch(|b|, n)), r.rest) else r
    case Ok(None) => Replayed(Err(LengthMismatch(0, n)), r.rest)
    case Err(_) => r
  }

  /**
   * DebugLogReaderIoManager on one operation, reading from the lines not yet
   * read: it takes lines from the front only, and never more than the
   * operation's entry has.
   */
  function ReplayStep(op: Op, lines: seq<string>): (r: Replayed)
    ensures |lines| - op.LineCount() <= |r.rest| <= |lines|
  {
    match op
    case WriteOp(c, h) => ReplayWrite(c, h, lines)
    case WriteAndReadOp(c, d, h) => ReplayWriteAndRead(c, d, h, lines)
    case WriteAndReadExactOp(c, n, t, h) => LengthChecked(ReplayWriteAndRead(c, JavaDiv(t, 10), h, lines), n)
    case ReadOp(h) => ReplayRead(0, h, lines)
    case ReadExactOp(n, t, h) => LengthChecked(ReplayRead(JavaDiv(t, 10), h, lines), n)
  }

  /** The sleeps the reader takes for the operation are not negative. */
  predicate Replayable(op: Op)
  {
    match op
    case WriteAndReadOp(_, d, _) => d >= 0
    case WriteAndReadExactOp(_, _, t, _) => JavaDiv(t, 10) >= 0
    case ReadExactOp(_, t, _) => JavaDiv(t, 10) >= 0
    case _ => true
  }

  /** A successful replay consumes exactly the operation's lines, in order, and nothing else. */
  lemma ReplayConsumesEntry(op: Op, lines: seq<string>)
    requires ReplayStep(op, lines).outcome.Ok?
    ensures |lines| >= op.LineCount()
    ensures ReplayStep(op, lines).rest == lines[op.LineCount()..]
  {
    match op
    case WriteOp(_, _) =>
      assert lines[1..][1..] == lines[2..];
    case WriteAndReadOp(_, _, _) =>
      assert lines[1..][1..][1..] == lines[3..];
    case WriteAndReadExactOp(_, _, _, _) =>
      assert lines[1..][1..][1..] == lines[3..];
    case ReadOp(_) =>
      assert lines[1..][1..] == lines[2..];
    case ReadExactOp(_, _, _) =>
      assert lines[1..][1..] == lines[2..];
  }

  /** With no lines left every operation fails: a missing tag line or a missing payload line. */
  lemma ReplayOfExhaustedLog(op: Op)
    ensures ReplayStep(op, []).outcome.Err?
    ensures ReplayStep(op, []).rest == []
  {
  }

  // ---- The two sides together ----

  /** Replaying one recorded entry reproduces the writer's outcome and leaves the following lines untouched. */
  lemma ReplayStepAfterRecord(op: Op, reply: Result<Bytes>, rest: seq<string>)
    requires Record(op, reply).outcome.Ok? && Replayable(op) && Fits(op, reply)
    ensures ReplayStep(op, Record(op, reply).lines + rest) == Replayed(Record(op, reply).outcome, rest)
  {
    match op
    case WriteOp(c, h) => WriteAfterRecord(c, h, reply, rest);
    case WriteAndReadOp(_, _, _) => WriteAndReadAfterRecord(op, reply, rest);
    case WriteAndReadExactOp(_, _, _, _) => WriteAndReadAfterRecord(op, reply, rest);
    case ReadOp(_) => ReadAfterRecord(op, reply, rest);
    case ReadExactOp(_, _, _) => ReadAfterRecord(op, reply, rest);
  }

  lemma WriteAfterRecord(c: Bytes, h: Option<Handler>, reply: Result<Bytes>, rest: seq<string>)
    requires Record(WriteOp(c, h), reply).outcome.Ok?
    ensures var rec := Record(WriteOp(c, h), reply); ReplayStep(WriteOp(c, h), rec.lines + rest) == Replayed(rec.outcome, rest)
  {
    var lines := Record(WriteOp(c, h), reply).lines + rest;
    assert lines[1..][1..] == rest;
  }

  lemma WriteAndReadAfterRecord(op: Op, reply: Result<Bytes>, rest: seq<string>)
    requires op.WriteAndReadOp? || op.WriteAndReadExactOp?
    requires Record(op, reply).outcome.Ok? && Replayable(op) && Fits(op, reply)
    ensures ReplayStep(op, Record(op, reply).lines + rest) == Replayed(Record(op, reply).outcome, rest)
  {
    var lines := Record(op, reply).lines + rest;
    assert lines[1..][1..][1..] == rest;
    if op.WriteAndReadExactOp? && op.handler.Some? {
      assert |UnwrapWith(op.handler, reply.value).value| == op.length;
    }
  }

  lemma ReadAfterRecord(op: Op, reply: Result<Bytes>, rest: seq<string>)
    requires op.ReadOp? || op.ReadExactOp?
    requires Record(op, reply).outcome.Ok? && Replayable(op) && Fits(op, reply)
    ensures ReplayStep(op, Record(op, reply).lines + rest) == Replayed(Record(op, reply).outcome, rest)
  {
    var lines := Record(op, reply).lines + rest;
    assert lines[1..][1..] == rest;
  }

  datatype Session = Session(outcomes: seq<Answer>, lines: seq<string>)

  /** The writer's entry for each operation of a session, in order. */
  function Records(ops: seq<Op>, replies: seq<Result<Bytes>>): (recs: seq<Recorded>)
    requires |ops| == |replies|
    ensures |recs| == |ops|
    ensures forall i :: 0 <= i < |ops| ==> recs[i] == Record(ops[i], replies[i])
  {
    seq(|ops|, i requires 0 <= i < |ops| => Record(ops[i], replies[i]))
  }

  /** The log: the lines of every entry, in order. */
  function LogOf(recs: seq<Recorded>): (lines: seq<string>)
  {
    if recs == [] then [] else recs[0].lines + LogOf(recs[1..])
  }

  lemma {:induction false} LogOfAppend(a: seq<Recorded>, b: seq<Recorded>)
    ensures LogOf(a + b) == LogOf(a) + LogOf(b)
  {
    if a == [] {
      assert a + b == b;
    } else {
      assert (a + b)[1..] == a[1..] + b;
      LogOfAppend(a[1..], b);
    }
  }

  /** The outcome of every entry, in order. */
  function OutcomesOf(recs: seq<Recorded>): seq<Answer>
  {
    seq(|recs|, i requires 0 <= i < |recs| => recs[i].outcome)
  }

  /** The writer on a sequence of operations: the outcome of each and the whole log. */
  function Recording(ops: seq<Op>, replies: seq<Result<Bytes>>): (s: Session)
    requires |ops| == |replies|
    ensures |s.outcomes| == |ops|
  {
    var recs := Records(ops, replies);
    Session(OutcomesOf(recs), LogOf(recs))
  }

  /** Each outcome of a recorded session is the outcome the writer gives that operation on its own. */
  lemma RecordingOutcomes(ops: seq<Op>, replies: seq<Result<Bytes>>)
    requires |ops| == |replies|
    ensures forall i :: 0 <= i < |ops| ==> Recording(ops, replies).outcomes[i] == Record(ops[i], replies[i]).outcome
  {
  }

  /**
   * The reader on a sequence of operations: outcomes in order and the lines
   * left unread, which are what remains of the log after the lines it read
   * from the front.
   */
  function Replay(ops: seq<Op>, lines: seq<string>): (s: Session)
    ensures |s.outcomes| == |ops|
    ensures |s.lines| <= |lines|
  {
    if ops == [] then Session([], lines)
    else
      var first := ReplayStep(ops[0], lines);
      var tail := Replay(ops[1..], first.rest);
      Session([first.outcome] + tail.outcomes, tail.lines)
  }

  /** The reader takes lines from the front of the log only: what it leaves is a suffix. */
  lemma ReplayStepReadsFront(op: Op, lines: seq<string>)
    ensures var r := ReplayStep(op, lines); r.rest == lines[|lines| - |r.rest|..]
  {
    match op
    case WriteOp(c, h) => ReplayWriteReadsFront(c, h, lines);
    case WriteAndReadOp(c, d, h) => ReplayWriteAndReadReadsFront(c, d, h, lines);
    case WriteAndReadExactOp(c, _, t, h) => ReplayWriteAndReadReadsFront(c, JavaDiv(t, 10), h, lines);
    case ReadOp(h) => ReplayReadReadsFront(0, h, lines);
    case ReadExactOp(_, t, h) => ReplayReadReadsFront(JavaDiv(t, 10), h, lines);
  }

  lemma ReplayWriteReadsFront(c: Bytes, h: Option<Handler>, lines: seq<string>)
    ensures var r := ReplayWrite(c, h, lines); r.rest == lines[|lines| - |r.rest|..]
  {
    if |lines| >= 2 {
      assert lines[1..][1..] == lines[2..];
    }
  }

  lemma ReplayWriteAndReadReadsFront(c: Bytes, delay: int, h: Option<Handler>, lines: seq<string>)
    ensures var r := ReplayWriteAndRead(c, delay, h, lines); r.rest == lines[|lines| - |r.rest|..]
  {
    var r := ReplayWriteAndRead(c, delay, h, lines);
    if |lines| >= 3 {
      assert r.rest == lines[1..] || r.rest == lines[1..][1..] || r.rest == lines[1..][1..][1..];
      assert lines[1..][1..] == lines[2..];
      assert lines[1..][1..][1..] == lines[3..];
    } else if |lines| == 2 {
      assert lines[1..][1..] == lines[2..];
    }
  }

  lemma ReplayReadReadsFront(delay: int, h: Option<Handler>, lines: seq<string>)
    ensures var r := ReplayRead(delay, h, lines); r.rest == lines[|lines| - |r.rest|..]
  {
    if |lines| >= 2 {
      assert lines[1..][1..] == lines[2..];
    }
  }

  lemma {:induction false} ReplayReadsFront(ops: seq<Op>, lines: seq<string>)
    ensures var s := Replay(ops, lines); s.lines == lines[|lines| - |s.lines|..]
  {
    if ops != [] {
      var first := ReplayStep(ops[0], lines);
      var tail := Replay(ops[1..], first.rest);
      ReplayStepReadsFront(ops[0], lines);
      ReplayReadsFront(ops[1..], first.rest);
      assert first.rest == lines[|lines| - |first.rest|..];
      assert tail.lines == first.rest[|first.rest| - |tail.lines|..];
    }
  }

  /** What the record/replay theorem assumes of a session the writer recorded. */
  predicate Faithful(ops: seq<Op>, replies: seq<Result<Bytes>>)
    requires |ops| == |replies|
  {
    forall i :: 0 <= i < |ops| ==>
      Record(ops[i], replies[i]).outcome.Ok? && Replayable(ops[i]) && Fits(ops[i], replies[i])
  }

  /**
   * Replaying the lines the writer recorded, with the same calls, reproduces
   * every outcome and consumes exactly the recorded lines.
   */
  lemma ReplayAfterRecording(ops: seq<Op>, replies: seq<Result<Bytes>>, rest: seq<string>)
    requires |ops| == |replies| && Faithful(ops, replies)
    ensures Replay(ops, Recording(ops, replies).lines + rest) == Session(Recording(ops, replies).outcomes, rest)
  {
    var recs := Records(ops, replies);
    forall i | 0 <= i < |ops|
      ensures Reproduces(ops[i], recs[i])
    {
      forall tail ensures ReplayStep(ops[i], recs[i].lines + tail) == Replayed(recs[i].outcome, tail) {
        ReplayStepAfterRecord(ops[i], replies[i], tail);
      }
    }
    ReplayOfLog(ops, recs, rest);
  }

  /** The reader, given an entry followed by anything, answers the entry's outcome and leaves what follows. */
  ghost predicate Reproduces(op: Op, rec: Recorded)
  {
    forall tail :: ReplayStep(op, rec.lines + tail) == Replayed(rec.outcome, tail)
  }

  /**
   * The induction behind the theorem, over any entries: when each operation
   * replays its own entry to that entry's outcome, the whole log replays to
   * all the outcomes and leaves what follows it.
   */
  lemma {:induction false} ReplayOfLog(ops: seq<Op>, recs: seq<Recorded>, rest: seq<string>)
    requires |ops| == |recs|
    requires forall i :: 0 <= i < |ops| ==> Reproduces(ops[i], recs[i])
    ensures Replay(ops, LogOf(recs) + rest) == Session(OutcomesOf(recs), rest)
  {
    if ops != [] {
      var lines := LogOf(recs) + rest;
      var after := LogOf(recs[1..]) + rest;
      assert lines == recs[0].lines + after;
      assert Reproduces(ops[0], recs[0]);
      assert ReplayStep(ops[0], lines) == Replayed(recs[0].outcome, after);
      assert forall i :: 0 <= i < |ops[1..]| ==> ops[1..][i] == ops[i + 1] && recs[1..][i] == recs[i + 1];
      ReplayOfLog(ops[1..], recs[1..], rest);
      ReplayCons(ops, lines);
      OutcomesOfCons(recs);
    }
  }

  lemma OutcomesOfCons(recs: seq<Recorded>)
    requires recs != []
    ensures OutcomesOf(recs) == [recs[0].outcome] + OutcomesOf(recs[1..])
  {
    assert forall i :: 0 < i < |recs| ==> recs[1..][i - 1] == recs[i];
  }

  /** An entry whose lines the writer can emit without changing how the log splits. */
  predicate WellFormed(rec: Recorded)
  {
    forall i :: 0 <= i < |rec.lines| ==> NoBreaks(rec.lines[i])
  }

  /** Every entry the writer produces holds a tag line and Base64 lines, none with a line break. */
  lemma RecordWellFormed(op: Op, reply: Result<Bytes>)
    ensures WellFormed(Record(op, reply))
  {
    TagsHaveNoBreaks();
    if op.Sends() && WrapWith(op.handler, op.command).Ok? {
      EncodeHasNoLineBreaks(WrapWith(op.handler, op.command).value);
    }
    if reply.Ok? {
      EncodeHasNoLineBreaks(reply.value);
    }
  }

  lemma {:induction false} LogHasNoBreaks(recs: seq<Recorded>)
    requires forall i :: 0 <= i < |recs| ==> WellFormed(recs[i])
    ensures var ls := LogOf(recs); forall i :: 0 <= i < |ls| ==> NoBreaks(ls[i])
  {
    if recs != [] {
      LogHasNoBreaks(recs[1..]);
      var first := recs[0].lines;
      var ls := LogOf(recs);
      forall i | 0 <= i < |ls| ensures NoBreaks(ls[i]) {
        if i < |first| {
          assert ls[i] == first[i];
        } else {
          assert ls[i] == LogOf(recs[1..])[i - |first|];
        }
      }
    }
  }

  lemma RecordingHasNoBreaks(ops: seq<Op>, replies: seq<Result<Bytes>>)
    requires |ops| == |replies|
    ensures var ls := Recording(ops, replies).lines; forall i :: 0 <= i < |ls| ==> NoBreaks(ls[i])
  {
    var recs := Records(ops, replies);
    assert forall i :: 0 <= i < |recs| ==> WellFormed(recs[i]) by {
      forall i | 0 <= i < |recs| ensures WellFormed(recs[i]) {
        RecordWellFormed(ops[i], replies[i]);
      }
    }
    LogHasNoBreaks(recs);
    var ls := Recording(ops, replies).lines;
    assert ls == LogOf(recs);
    forall i | 0 <= i < |ls| ensures NoBreaks(ls[i]) {
      assert ls[i] == LogOf(recs)[i];
      assert NoBreaks(LogOf(recs)[i]);
    }
  }

  /**
   * The record/replay round trip on the log file itself: the reader splits
   * the text the writer produced back into the recorded lines, and replaying
   * the same calls reproduces every outcome and reads the log to its end.
   */
  lemma ReplayOfWrittenLog(ops: seq<Op>, replies: seq<Result<Bytes>>)
    requires |ops| == |replies| && Faithful(ops, replies)
    ensures Replay(ops, SplitLines(Join(Recording(ops, replies).lines)))
         == Session(Recording(ops, replies).outcomes, [])
  {
    var ls := Recording(ops, replies).lines;
    RecordingHasNoBreaks(ops, replies);
    SplitJoin(ls);
    assert ls + [] == ls;
    ReplayAfterRecording(ops, replies, []);
  }

  /** The log of a session is the log of its first k operations followed by the log of the rest. */
  lemma RecordingSplit(ops: seq<Op>, replies: seq<Result<Bytes>>, k: nat)
    requires |ops| == |replies| && k <= |ops|
    ensures Recording(ops, replies).lines == Recording(ops[..k], replies[..k]).lines + Recording(ops[k..], replies[k..]).lines
    ensures Recording(ops, replies).outcomes[..k] == Recording(ops[..k], replies[..k]).outcomes
  {
    var a := Records(ops[..k], replies[..k]);
    var b := Records(ops[k..], replies[k..]);
    RecordsSplit(ops, replies, k);
    LogOfAppend(a, b);
  }

  lemma RecordsSplit(ops: seq<Op>, replies: seq<Result<Bytes>>, k: nat)
    requires |ops| == |replies| && k <= |ops|
    ensures Records(ops, replies) == Records(ops[..k], replies[..k]) + Records(ops[k..], replies[k..])
  {
    var a := Records(ops[..k], replies[..k]);
    var b := Records(ops[k..], replies[k..]);
    forall i | 0 <= i < |ops| ensures Records(ops, replies)[i] == (a + b)[i] {
      if i < k {
        assert ops[..k][i] == ops[i] && replies[..k][i] == replies[i];
      } else {
        assert ops[k..][i - k] == ops[i] && replies[k..][i - k] == replies[i];
      }
    }
  }

  /** Replay of a non-empty session: the first operation, then the rest on what it left. */
  lemma ReplayCons(ops: seq<Op>, lines: seq<string>)
    requires ops != []
    ensures var first := ReplayStep(ops[0], lines);
      var tail := Replay(ops[1..], first.rest);
      Replay(ops, lines) == Session([first.outcome] + tail.outcomes, tail.lines)
  {
  }

  lemma ShiftSlices<T>(s: seq<T>, k: nat)
    requires 0 < k <= |s|
    ensures s[..k][0] == s[0] && s[1..][..k - 1] == s[..k][1..] && s[1..][k - 1..] == s[k..]
  {
  }

  lemma ConsAppend<T>(x: T, a: seq<T>, b: seq<T>)
    ensures [x] + (a + b) == ([x] + a) + b
  {
  }

  lemma {:induction false} ReplaySplit(ops: seq<Op>, lines: seq<string>, k: nat)
    requires k <= |ops|
    ensures var a := Replay(ops[..k], lines); var b := Replay(ops[k..], a.lines);
      Replay(ops, lines) == Session(a.outcomes + b.outcomes, b.lines)
  {
    if k == 0 {
      assert ops[k..] == ops;
    } else {
      var first := ReplayStep(ops[0], lines);
      ShiftSlices(ops, k);
      ReplaySplit(ops[1..], first.rest, k - 1);
      ReplayCons(ops, lines);
      ReplayCons(ops[..k], lines);
      var a' := Replay(ops[..k][1..], first.rest);
      var b := Replay(ops[k..], a'.lines);
      ConsAppend(first.outcome, a'.outcomes, b.outcomes);
    }
  }

  /**
   * Tampering: replace the recorded outgoing bytes of operation k (one that
   * sends) by different bytes. The replay reproduces every outcome before k
   * and fails at k with a command mismatch naming both byte sequences.
   */
  lemma TamperedCommandDetected(ops: seq<Op>, replies: seq<Result<Bytes>>, k: nat, forged: Bytes)
    requires |ops| == |replies| && Faithful(ops, replies)
    requires k < |ops| && ops[k].Sends()
    requires forged != WrapWith(ops[k].handler, ops[k].command).value
    ensures var log := Recording(ops, replies).lines;
      var at := |Recording(ops[..k], replies[..k]).lines| + 1;
      && at < |log|
      && var r := Replay(ops, log[at := Encode(forged)]);
      && r.outcomes[..k] == Recording(ops, replies).outcomes[..k]
      && r.outcomes[k] == Err(CommandMismatch(WrapWith(ops[k].handler, ops[k].command).value, forged))
  {
    var pre := Recording(ops[..k], replies[..k]);
    var sent := WrapWith(ops[k].handler, ops[k].command).value;
    var entry := Record(ops[k], replies[k]).lines;
    var after := Recording(ops[k + 1..], replies[k + 1..]).lines;
    TamperedLog(ops, replies, k, forged);
    ReplayPastPrefix(ops, replies, k, entry[1 := Encode(forged)] + after);
    TamperedStep(ops[k], replies[k], forged, after);
    RecordingSplit(ops, replies, k);
  }

  /** The log around operation k: the log of the operations before it, its entry, the log of the rest. */
  lemma TamperedLog(ops: seq<Op>, replies: seq<Result<Bytes>>, k: nat, forged: Bytes)
    requires |ops| == |replies| && k < |ops|
    requires Record(ops[k], replies[k]).outcome.Ok? && ops[k].Sends()
    ensures var log := Recording(ops, replies).lines;
      var pre := Recording(ops[..k], replies[..k]).lines;
      var entry := Record(ops[k], replies[k]).lines;
      && |entry| >= 2
      && |pre| + 1 < |log|
      && log[|pre| + 1 := Encode(forged)]
         == pre + (entry[1 := Encode(forged)] + Recording(ops[k + 1..], replies[k + 1..]).lines)
  {
    RecordingSplit(ops, replies, k);
    RecordsCons(ops, replies, k);
    var entry := Record(ops[k], replies[k]).lines;
    UpdateInMiddle(Recording(ops[..k], replies[..k]).lines, entry,
                   Recording(ops[k + 1..], replies[k + 1..]).lines, 1, Encode(forged));
  }

  /** The entries from operation k on: the entry of operation k, then the entries after it. */
  lemma RecordsCons(ops: seq<Op>, replies: seq<Result<Bytes>>, k: nat)
    requires |ops| == |replies| && k < |ops|
    ensures Recording(ops[k..], replies[k..]).lines
         == Record(ops[k], replies[k]).lines + Recording(ops[k + 1..], replies[k + 1..]).lines
  {
    var post := Records(ops[k..], replies[k..]);
    assert ops[k..][0] == ops[k] && replies[k..][0] == replies[k];
    assert post[1..] == Records(ops[k + 1..], replies[k + 1..]) by {
      forall i | 0 <= i < |post| - 1 ensures post[1..][i] == Records(ops[k + 1..], replies[k + 1..])[i] {
        assert ops[k..][i + 1] == ops[k + 1..][i] && replies[k..][i + 1] == replies[k + 1..][i];
      }
    }
  }

  lemma UpdateInMiddle(a: seq<string>, b: seq<string>, c: seq<string>, i: nat, x: string)
    requires i < |b|
    ensures (a + (b + c))[|a| + i := x] == a + (b[i := x] + c)
  {
  }

  /**
   * A faithfully recorded prefix replays to the recorded outcomes and leaves
   * the next operation exactly the lines that follow it.
   */
  lemma ReplayPastPrefix(ops: seq<Op>, replies: seq<Result<Bytes>>, k: nat, suffix: seq<string>)
    requires |ops| == |replies| && Faithful(ops, replies) && k < |ops|
    ensures var r := Replay(ops, Recording(ops[..k], replies[..k]).lines + suffix);
      && r.outcomes[..k] == Recording(ops[..k], replies[..k]).outcomes
      && r.outcomes[k] == ReplayStep(ops[k], suffix).outcome
  {
    var pre := Recording(ops[..k], replies[..k]);
    FaithfulPrefix(ops, replies, k);
    ReplayAfterRecording(ops[..k], replies[..k], suffix);
    ReplaySplit(ops, pre.lines + suffix, k);
    assert ops[k..][0] == ops[k];
    var b := Replay(ops[k..], suffix);
    assert b.outcomes[0] == ReplayStep(ops[k], suffix).outcome;
  }

  lemma FaithfulPrefix(ops: seq<Op>, replies: seq<Result<Bytes>>, k: nat)
    requires |ops| == |replies| && Faithful(ops, replies) && k <= |ops|
    ensures Faithful(ops[..k], replies[..k])
  {
    forall i | 0 <= i < k
      ensures Record(ops[..k][i], replies[..k][i]).outcome.Ok?
        && Replayable(ops[..k][i]) && Fits(ops[..k][i], replies[..k][i])
    {
      assert ops[..k][i] == ops[i] && replies[..k][i] == replies[i];
    }
  }

  /** The step of TamperedCommandDetected at the tampered entry. */
  lemma TamperedStep(op: Op, reply: Result<Bytes>, forged: Bytes, after: seq<string>)
    requires Record(op, reply).outcome.Ok? && op.Sends()
    requires forged != WrapWith(op.handler, op.command).value
    ensures var entry := Record(op, reply).lines;
      && |entry| >= 2
      && ReplayStep(op, entry[1 := Encode(forged)] + after).outcome
         == Err(CommandMismatch(WrapWith(op.handler, op.command).value, forged))
  {
    DecodeEncode(forged);
  }
}
