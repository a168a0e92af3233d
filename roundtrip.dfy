// The record/replay test: a DebugLogWriterIoManager over the fake delegate
// records ten calls, then a DebugLogReaderIoManager over the text the writer
// produced replays the same ten calls. The calls are given as a list of Op
// values and run by two session drivers that issue them in order.

module RoundTrip {
  import opened Common
  import opened TextLines
  import opened Protocol
  import opened IoResult
  import opened FakeIo
  import opened DebugLog
  import opened LogWriter
  import opened LogReader

  /** The fake's replies to the calls of a session, in order. */
  function FakeReplies(ops: seq<Op>): (replies: seq<Result<Bytes>>)
    ensures |replies| == |ops|
    ensures forall i :: 0 <= i < |ops| ==> replies[i] == FakeReply(ops[i])
  {
    seq(|ops|, i requires 0 <= i < |ops| => FakeReply(ops[i]))
  }

  /** The commands a session hands the fake, in order. */
  function SessionWrites(ops: seq<Op>): seq<Bytes>
  {
    if ops == [] then [] else DelegateWrites(ops[0]) + SessionWrites(ops[1..])
  }

  lemma {:induction false} SessionWritesSnoc(ops: seq<Op>, op: Op)
    ensures SessionWrites(ops + [op]) == SessionWrites(ops) + DelegateWrites(op)
  {
    if ops == [] {
      assert ops + [op] == [op];
      assert [op][1..] == [];
    } else {
      var first := DelegateWrites(ops[0]);
      assert (ops + [op])[0] == ops[0];
      assert (ops + [op])[1..] == ops[1..] + [op];
      assert SessionWrites(ops + [op]) == first + SessionWrites(ops[1..] + [op]);
      SessionWritesSnoc(ops[1..], op);
      assert first + (SessionWrites(ops[1..]) + DelegateWrites(op))
          == (first + SessionWrites(ops[1..])) + DelegateWrites(op);
    }
  }

  /** The first i + 1 calls of a session: the first i, then call i. */
  lemma RecordingStep(ops: seq<Op>, replies: seq<Result<Bytes>>, i: nat)
    requires |ops| == |replies| && i < |ops|
    ensures Recording(ops[..i + 1], replies[..i + 1]).outcomes
         == Recording(ops[..i], replies[..i]).outcomes + [Record(ops[i], replies[i]).outcome]
    ensures Recording(ops[..i + 1], replies[..i + 1]).lines
         == Recording(ops[..i], replies[..i]).lines + Record(ops[i], replies[i]).lines
    ensures SessionWrites(ops[..i + 1]) == SessionWrites(ops[..i]) + DelegateWrites(ops[i])
  {
    assert ops[..i + 1] == ops[..i] + [ops[i]];
    assert replies[..i + 1] == replies[..i] + [replies[i]];
    RecordingSnoc(ops[..i], replies[..i], ops[i], replies[i]);
    SessionWritesSnoc(ops[..i], ops[i]);
  }

  /** The loop state of a recording session after one more call. */
  lemma RecordingStepState(ops: seq<Op>, replies: seq<Result<Bytes>>, i: nat,
                           log0: seq<string>, writes0: seq<Bytes>, answers: seq<Answer>)
    requires |ops| == |replies| && i < |ops|
    ensures answers == Recording(ops[..i], replies[..i]).outcomes ==>
      answers + [Record(ops[i], replies[i]).outcome] == Recording(ops[..i + 1], replies[..i + 1]).outcomes
    ensures (log0 + Recording(ops[..i], replies[..i]).lines) + Record(ops[i], replies[i]).lines
         == log0 + Recording(ops[..i + 1], replies[..i + 1]).lines
    ensures (writes0 + SessionWrites(ops[..i])) + DelegateWrites(ops[i]) == writes0 + SessionWrites(ops[..i + 1])
  {
    var pre := Recording(ops[..i], replies[..i]).lines;
    var entry := Record(ops[i], replies[i]).lines;
    RecordingStep(ops, replies, i);
    assert (log0 + pre) + entry == log0 + (pre + entry);
    assert (writes0 + SessionWrites(ops[..i])) + DelegateWrites(ops[i])
        == writes0 + (SessionWrites(ops[..i]) + DelegateWrites(ops[i]));
  }

  /** Recording one more call appends its entry to the log and its answer to the answers. */
  lemma RecordingSnoc(ops: seq<Op>, replies: seq<Result<Bytes>>, op: Op, reply: Result<Bytes>)
    requires |ops| == |replies|
    ensures Recording(ops + [op], replies + [reply]).outcomes == Recording(ops, replies).outcomes + [Record(op, reply).outcome]
    ensures Recording(ops + [op], replies + [reply]).lines == Recording(ops, replies).lines + Record(op, reply).lines
  {
    var recs := Records(ops, replies);
    assert Records(ops + [op], replies + [reply]) == recs + [Record(op, reply)] by {
      forall i | 0 <= i < |ops| + 1 ensures Records(ops + [op], replies + [reply])[i] == (recs + [Record(op, reply)])[i] {
        if i < |ops| {
          assert (ops + [op])[i] == ops[i] && (replies + [reply])[i] == replies[i];
        }
      }
    }
    LogOfAppend(recs, [Record(op, reply)]);
    assert LogOf([Record(op, reply)]) == Record(op, reply).lines by {
      assert [Record(op, reply)][1..] == [];
    }
  }

  /** One call on the writer; exact calls get a fresh buffer of the requested length, as the test passes. */
  method RecordCall(writer: DebugLogWriterIoManager, op: Op) returns (a: Answer)
    modifies writer, writer.delegate, writer.delegate.clock
    ensures a == Record(op, FakeReply(op)).outcome
    ensures writer.log == old(writer.log) + Record(op, FakeReply(op)).lines
    ensures writer.delegate.writes == old(writer.delegate.writes) + DelegateWrites(op)
  {
    var r: Result<IoManagerResult>;
    match op {
      case WriteOp(c, h) =>
        r := writer.Write(c, h);
      case WriteAndReadOp(c, d, h) =>
        r := writer.WriteAndRead(c, d, h);
      case WriteAndReadExactOp(c, n, t, h) =>
        var out := new Byte[n];
        r := writer.WriteAndReadExact(c, out, t, h);
      case ReadOp(h) =>
        r := writer.Read(h);
      case ReadExactOp(n, t, h) =>
        var out := new Byte[n];
        r := writer.ReadExact(out, t, h);
    }
    a := Observed(r);
  }

  /** One call on the reader. */
  method ReplayCall(reader: DebugLogReaderIoManager, op: Op) returns (a: Answer)
    modifies reader, reader.clock
    ensures Replayed(a, reader.lines) == ReplayStep(op, old(reader.lines))
  {
    var r: Result<IoManagerResult>;
    match op {
      case WriteOp(c, h) =>
        r := reader.Write(c, h);
      case WriteAndReadOp(c, d, h) =>
        r := reader.WriteAndRead(c, d, h);
      case WriteAndReadExactOp(c, n, t, h) =>
        var out := new Byte[n];
        r := reader.WriteAndReadExact(c, out, t, h);
      case ReadOp(h) =>
        r := reader.Read(h);
      case ReadExactOp(n, t, h) =>
        var out := new Byte[n];
        r := reader.ReadExact(out, t, h);
    }
    a := Observed(r);
  }

  /** Issues the calls on the writer, in order. */
  method RecordSession(writer: DebugLogWriterIoManager, ops: seq<Op>) returns (answers: seq<Answer>)
    modifies writer, writer.delegate, writer.delegate.clock
    ensures answers == Recording(ops, FakeReplies(ops)).outcomes
    ensures writer.log == old(writer.log) + Recording(ops, FakeReplies(ops)).lines
    ensures writer.delegate.writes == old(writer.delegate.writes) + SessionWrites(ops)
  {
    var replies := FakeReplies(ops);
    answers := [];
    var i := 0;
    while i < |ops|
      invariant 0 <= i <= |ops|
      invariant answers == Recording(ops[..i], replies[..i]).outcomes
      invariant writer.log == old(writer.log) + Recording(ops[..i], replies[..i]).lines
      invariant writer.delegate.writes == old(writer.delegate.writes) + SessionWrites(ops[..i])
    {
      var a := RecordCall(writer, ops[i]);
      RecordingStepState(ops, replies, i, old(writer.log), old(writer.delegate.writes), answers);
      answers := answers + [a];
      i := i + 1;
    }
    assert ops[..i] == ops && replies[..i] == replies;
  }

  /** Issues the calls on the reader, in order. */
  method ReplaySession(reader: DebugLogReaderIoManager, ops: seq<Op>) returns (answers: seq<Answer>)
    modifies reader, reader.clock
    ensures Session(answers, reader.lines) == Replay(ops, old(reader.lines))
  {
    answers := [];
    var i := 0;
    while i < |ops|
      invariant 0 <= i <= |ops|
      invariant Replay(ops, old(reader.lines))
             == Session(answers + Replay(ops[i..], reader.lines).outcomes, Replay(ops[i..], reader.lines).lines)
    {
      ghost var before := reader.lines;
      var a := ReplayCall(reader, ops[i]);
      assert ops[i..][1..] == ops[i + 1..];
      assert Replay(ops[i..], before)
          == Session([a] + Replay(ops[i + 1..], reader.lines).outcomes, Replay(ops[i + 1..], reader.lines).lines);
      assert answers + ([a] + Replay(ops[i + 1..], reader.lines).outcomes)
          == (answers + [a]) + Replay(ops[i + 1..], reader.lines).outcomes;
      answers := answers + [a];
      i := i + 1;
    }
  }

  /**
   * Any session recorded through the writer over the fake replays on a
   * reader of the written text to the same answers, and reads the log to
   * its end, provided the reader's sleeps are not negative.
   */
  method RecordThenReplay(ops: seq<Op>) returns (recorded: seq<Answer>, replayed: seq<Answer>, writes: seq<Bytes>)
    requires Faithful(ops, FakeReplies(ops))
    ensures recorded == replayed == Recording(ops, FakeReplies(ops)).outcomes
    ensures writes == SessionWrites(ops)
  {
    var clock := new Clock(0);
    var fake := new TestIoManager(clock);
    var writer := new DebugLogWriterIoManager(fake);
    recorded := RecordSession(writer, ops);
    writes := fake.writes;
    ghost var session := Recording(ops, FakeReplies(ops));
    assert writer.log == session.lines;
    var reader := new DebugLogReaderIoManager(writer.Text(), clock);
    assert reader.lines == SplitLines(Join(session.lines));
    ReplayOfWrittenLog(ops, FakeReplies(ops));
    replayed := ReplaySession(reader, ops);
    assert Session(replayed, reader.lines) == Session(session.outcomes, []);
  }

  // ---- testRoundTrip ----

  const TestCommand: Bytes := [0x00, 0x01]
  const TestHandler: Option<Handler> := Some(TestProtocolManager)

  /** The calls of testRoundTrip, in the order the test makes them on the writer and then on the reader. */
  function TestOps(): seq<Op>
  {
    [ WriteOp(TestCommand, None), WriteOp(TestCommand, TestHandler),
      WriteAndReadOp(TestCommand, 100, None), WriteAndReadOp(TestCommand, 100, TestHandler),
      WriteAndReadExactOp(TestCommand, 10, 100, None), WriteAndReadExactOp(TestCommand, 10, 100, TestHandler),
      ReadOp(None), ReadOp(TestHandler),
      ReadExactOp(10, 100, None), ReadExactOp(10, 100, TestHandler) ]
  }

  /** What the test asserts of each call's result: null for the writes, otherwise 10 or 9 bytes of 0xFF. */
  function TestExpected(): seq<Answer>
  {
    [ Ok(None), Ok(None),
      Ok(Some(Filled(10))), Ok(Some(Filled(9))),
      Ok(Some(Filled(10))), Ok(Some(Filled(10))),
      Ok(Some(Filled(10))), Ok(Some(Filled(9))),
      Ok(Some(Filled(10))), Ok(Some(Filled(10))) ]
  }

  /** The writer answers every call of the test as the test expects. */
  lemma TestCallsRecord()
    ensures forall i :: 0 <= i < |TestOps()| ==> CallAsExpected(i)
  {
    forall i | 0 <= i < |TestOps()|
      ensures CallAsExpected(i)
    {
      if i == 0 { TestCall0(); } else if i == 1 { TestCall1(); }
      else if i == 2 { TestCall2(); } else if i == 3 { TestCall3(); }
      else if i == 4 { TestCall4(); } else if i == 5 { TestCall5(); }
      else if i == 6 { TestCall6(); } else if i == 7 { TestCall7(); }
      else if i == 8 { TestCall8(); } else { TestCall9(); }
    }
  }

  /** Call i of the test answers as the test expects. */
  predicate CallAsExpected(i: nat)
    requires i < |TestOps()|
  {
    Record(TestOps()[i], FakeReply(TestOps()[i])).outcome == TestExpected()[i] && Replayable(TestOps()[i])
  }

  // Each call of the test on its own, so that only that call's entry is unfolded.

  lemma TestCall0()
    ensures CallAsExpected(0)
  {
    assert TestOps()[0] == WriteOp(TestCommand, None);
  }

  lemma TestCall1()
    ensures CallAsExpected(1)
  {
    assert TestOps()[1] == WriteOp(TestCommand, TestHandler);
  }

  lemma TestCall2()
    ensures CallAsExpected(2)
  {
    assert TestOps()[2] == WriteAndReadOp(TestCommand, 100, None);
  }

  lemma TestCall3()
    ensures CallAsExpected(3)
  {
    assert TestOps()[3] == WriteAndReadOp(TestCommand, 100, TestHandler);
    assert Filled(10)[1..] == Filled(9);
  }

  lemma TestCall4()
    ensures CallAsExpected(4)
  {
    assert TestOps()[4] == WriteAndReadExactOp(TestCommand, 10, 100, None);
  }

  lemma TestCall5()
    ensures CallAsExpected(5)
  {
    assert TestOps()[5] == WriteAndReadExactOp(TestCommand, 10, 100, TestHandler);
    assert Filled(11)[1..] == Filled(10);
  }

  lemma TestCall6()
    ensures CallAsExpected(6)
  {
    assert TestOps()[6] == ReadOp(None);
  }

  lemma TestCall7()
    ensures CallAsExpected(7)
  {
    assert TestOps()[7] == ReadOp(TestHandler);
    assert Filled(10)[1..] == Filled(9);
  }

  lemma TestCall8()
    ensures CallAsExpected(8)
  {
    assert TestOps()[8] == ReadExactOp(10, 100, None);
  }

  lemma TestCall9()
    ensures CallAsExpected(9)
  {
    assert TestOps()[9] == ReadExactOp(10, 100, TestHandler);
    assert Filled(11)[1..] == Filled(10);
  }

  /**
   * A write-and-read with a negative delay: the fake skips the sleep and
   * answers, so the writer records a complete entry, but the reader sleeps
   * the recorded delay and throws. Such a call is outside `Replayable`.
   */
  lemma NegativeDelayRecordsButFailsReplay(c: Bytes, d: int)
    requires d < 0
    ensures var op := WriteAndReadOp(c, d, None);
      var rec := Record(op, FakeReply(op));
      && rec.outcome.Ok?
      && ReplayStep(op, rec.lines).outcome == Err(NegativeSleep(d))
  {
  }

  /** A session whose every call records cleanly on the fake is faithful. */
  lemma FakeSessionFaithful(ops: seq<Op>)
    requires forall i :: 0 <= i < |ops| ==> Record(ops[i], FakeReply(ops[i])).outcome.Ok? && Replayable(ops[i])
    ensures Faithful(ops, FakeReplies(ops))
  {
    var replies := FakeReplies(ops);
    forall i | 0 <= i < |ops|
      ensures Record(ops[i], replies[i]).outcome.Ok? && Replayable(ops[i]) && Fits(ops[i], replies[i])
    {
      assert replies[i] == FakeReply(ops[i]);
    }
  }

  /** The answers of a session on the fake are the calls' answers, in order. */
  lemma FakeSessionOutcomes(ops: seq<Op>, expected: seq<Answer>)
    requires |expected| == |ops|
    requires forall i :: 0 <= i < |ops| ==> Record(ops[i], FakeReply(ops[i])).outcome == expected[i]
    ensures Recording(ops, FakeReplies(ops)).outcomes == expected
  {
    var replies := FakeReplies(ops);
    var outcomes := Recording(ops, replies).outcomes;
    RecordingOutcomes(ops, replies);
    forall i | 0 <= i < |ops| ensures outcomes[i] == expected[i] {
      assert replies[i] == FakeReply(ops[i]);
    }
  }

  /** The test's session records cleanly, to the answers the test asserts. */
  lemma TestSessionRecords()
    ensures Faithful(TestOps(), FakeReplies(TestOps()))
    ensures Recording(TestOps(), FakeReplies(TestOps())).outcomes == TestExpected()
  {
    TestCallsRecord();
    var expected := TestExpected();
    forall i | 0 <= i < |TestOps()|
      ensures Record(TestOps()[i], FakeReply(TestOps()[i])).outcome == expected[i] && Replayable(TestOps()[i])
    {
      assert CallAsExpected(i);
    }
    assert forall i :: 0 <= i < |expected| ==> expected[i].Ok?;
    FakeSessionFaithful(TestOps());
    FakeSessionOutcomes(TestOps(), expected);
  }

  /** The ten calls of testRoundTrip, for any command, handler, delay, buffer length and timeout. */
  function TestPattern(c: Bytes, h: Option<Handler>, d: int, n: nat, t: int): seq<Op>
  {
    [ WriteOp(c, None), WriteOp(c, h),
      WriteAndReadOp(c, d, None), WriteAndReadOp(c, d, h),
      WriteAndReadExactOp(c, n, t, None), WriteAndReadExactOp(c, n, t, h),
      ReadOp(None), ReadOp(h),
      ReadExactOp(n, t, None), ReadExactOp(n, t, h) ]
  }

  lemma {:induction false} SessionWritesAppend(a: seq<Op>, b: seq<Op>)
    ensures SessionWrites(a + b) == SessionWrites(a) + SessionWrites(b)
  {
    if a == [] {
      assert a + b == b;
    } else {
      assert (a + b)[0] == a[0];
      assert (a + b)[1..] == a[1..] + b;
      SessionWritesAppend(a[1..], b);
      assert DelegateWrites(a[0]) + (SessionWrites(a[1..]) + SessionWrites(b))
          == (DelegateWrites(a[0]) + SessionWrites(a[1..])) + SessionWrites(b);
    }
  }

  lemma PairWrites(x: Op, y: Op)
    ensures SessionWrites([x, y]) == DelegateWrites(x) + DelegateWrites(y)
  {
    assert [x, y][0] == x && [x, y][1..] == [y];
    assert [y][0] == y && [y][1..] == [];
    assert SessionWrites([y]) == DelegateWrites(y) + SessionWrites([]);
    assert SessionWrites([x, y]) == DelegateWrites(x) + SessionWrites([y]);
    assert DelegateWrites(y) + [] == DelegateWrites(y);
  }

  /** A pair of calls that hand the fake `c` and then `w`, ahead of the rest of a session. */
  lemma PairThen(x: Op, y: Op, rest: seq<Op>, c: Bytes, w: Bytes)
    requires DelegateWrites(x) == [c] && DelegateWrites(y) == [w]
    ensures SessionWrites([x, y] + rest) == [c, w] + SessionWrites(rest)
  {
    PairWrites(x, y);
    SessionWritesAppend([x, y], rest);
  }

  /** The reads of the test hand the fake nothing. */
  lemma ReadsWriteNothing(h: Option<Handler>, n: nat, t: int)
    ensures SessionWrites([ReadOp(None), ReadOp(h)] + [ReadExactOp(n, t, None), ReadExactOp(n, t, h)]) == []
  {
    PairWrites(ReadOp(None), ReadOp(h));
    PairWrites(ReadExactOp(n, t, None), ReadExactOp(n, t, h));
    SessionWritesAppend([ReadOp(None), ReadOp(h)], [ReadExactOp(n, t, None), ReadExactOp(n, t, h)]);
  }

  lemma ThreePairs<T>(c: T, w: T)
    ensures [c, w] + ([c, w] + ([c, w] + [])) == [c, w, c, w, c, w]
  {
    var p := [c, w];
    assert p + [] == p;
    assert p + p == [c, w, c, w];
  }

  /** The fake sees the command, plain and wrapped, for each of the three kinds of write, and nothing for the reads. */
  lemma PatternWrites(c: Bytes, h: Option<Handler>, w: Bytes, d: int, n: nat, t: int)
    requires WrapWith(h, c) == Ok(w) && BufferLength(h, n).Ok?
    ensures SessionWrites(TestPattern(c, h, d, n, t)) == [c, w, c, w, c, w]
  {
    var readCalls := [ReadOp(None), ReadOp(h)] + [ReadExactOp(n, t, None), ReadExactOp(n, t, h)];
    var exactCalls := [WriteAndReadExactOp(c, n, t, None), WriteAndReadExactOp(c, n, t, h)] + readCalls;
    var delayed := [WriteAndReadOp(c, d, None), WriteAndReadOp(c, d, h)] + exactCalls;
    var allCalls := [WriteOp(c, None), WriteOp(c, h)] + delayed;
    assert TestPattern(c, h, d, n, t) == allCalls;
    ReadsWriteNothing(h, n, t);
    PairThen(WriteAndReadExactOp(c, n, t, None), WriteAndReadExactOp(c, n, t, h), readCalls, c, w);
    PairThen(WriteAndReadOp(c, d, None), WriteAndReadOp(c, d, h), exactCalls, c, w);
    PairThen(WriteOp(c, None), WriteOp(c, h), delayed, c, w);
    ThreePairs(c, w);
  }

  /** The fake sees the test command, plain and wrapped, for each of the three kinds of write. */
  lemma TestSessionWrites()
    ensures SessionWrites(TestOps()) == [TestCommand, [0] + TestCommand, TestCommand, [0] + TestCommand, TestCommand, [0] + TestCommand]
  {
    assert TestOps() == TestPattern(TestCommand, TestHandler, 100, 10, 100);
    assert WrapWith(TestHandler, TestCommand) == Ok([0] + TestCommand);
    PatternWrites(TestCommand, TestHandler, [0] + TestCommand, 100, 10, 100);
  }

  /**
   * testRoundTrip: the writer's ten results and the reader's ten results are
   * those the test asserts, and the fake saw the command, plain and wrapped,
   * for each of the three kinds of write.
   */
  method TestRoundTrip() returns (recorded: seq<Answer>, replayed: seq<Answer>, writes: seq<Bytes>)
    ensures recorded == TestExpected() && replayed == TestExpected()
    ensures writes == [TestCommand, [0] + TestCommand, TestCommand, [0] + TestCommand, TestCommand, [0] + TestCommand]
  {
    TestSessionRecords();
    TestSessionWrites();
    recorded, replayed, writes := RecordThenReplay(TestOps());
  }
}
