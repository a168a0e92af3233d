# tracknalysis common: IO managers, debug log, command queue, listener registry

This project models the core of the tracknalysis common library in Dafny and
proves properties of the model.

- **IO engine** (`engine.dfy`, `protocol.dfy`, `ioresult.dfy`). This is
  `AbstractIoManager` together with `DirectIoManager`, running over a duplex
  stream.
  - `write` wraps the command with the optional `IoProtocolHandler`, then
    sends it and flushes.
  - `read(h)` takes every available byte and unwraps it.
  - `flushAll` throws away every pending input byte.
  - The delay `writeAndRead` flushes, writes, sleeps and reads. The command
    is wrapped by `writeAndRead` and then wrapped again by `write`. The model
    keeps this double wrap as written.
  - The exact `writeAndRead` wraps the command once and then reads with no
    handler.
  - `DirectIoManager.read(out, timeout, h)` polls until the wire length of
    the response has arrived. It stops on the timeout, or on a read that
    returns -1. That read happens only while `available()` reports a positive
    count. A stream that closes and then reports 0 is seen only by the
    timeout.
    The loop is a method that is proved against a pure function of the poll
    observations. That function is proved to lose no bytes, to keep them in
    order, and to meet its deadline.
  - `IoManagerResult` is a class with six timestamps and a result.
- **Debug log** (`debuglog.dfy`, `base64.dfy`, `textlines.dfy`,
  `logwriter.dfy`, `logreader.dfy`).
  - `DebugLogWriterIoManager` hands each call to a delegate. It then appends
    a tag line and Base64 lines to the log.
  - `DebugLogReaderIoManager` replays those lines for the same calls. It
    checks each recorded command against the one it is given.
  - The pure functions `Record` and `ReplayStep` state both sides. They are
    proved to round-trip entry by entry and session by session, down to the
    text of the log. Replay is proved to detect a tampered command.
- **The round-trip test** (`fakeio.dfy`, `roundtrip.dfy`). These model
  `TestIoManager`, `TestProtocolManager` and the test's ten calls.
  `TestRoundTrip` proves that the recorded and replayed answers agree. It
  also proves the expected answers and the commands the fake received.
- **Command manager** (`commands.dfy`). This is `DefaultIoCommandManager`:
  a bounded FIFO queue of 10 commands served by one worker.
  - `stop` drops the pending commands.
  - The worker's fault boundary keeps a throwing command from stopping the
    commands after it.
  - Commands are proved to be handled in acceptance order.
- **Listener registry** (`notification.dfy`). This covers
  `BaseListenerRegistry` and `DefaultNotificationListenerManager`.
  - Strong and weak listener lists are kept free of duplicates.
  - A cleared weak reference is scrubbed.
  - A listener added late hears the last notification.
  - `sendNotification` reaches exactly the registered listeners.
- **TimeUtil** (`timeutil.dfy`). This covers the millisecond constants and
  `getMillisecondInDay`, evaluated in Java `int` arithmetic, with
  `getTimeBeforeTodayInMilliseconds` on a given calendar. For every calendar
  whose fields are in range, the result is proved to be the exact time of
  day. On the UTC calendar it is proved to give midnight.

How Java maps onto the model:
- Java's `null` is `None`.
- A thrown exception is `Err(IoError)`.
- `long` values are unbounded integers.
- Java `int` overflow is written out (`TimeUtil.Int32`).
- Integer division truncates (`Common.JavaDiv`).

## Model

| member | source | states |
|---|---|---|
| Protocol.WrapWith | src/main/java/net/tracknalysis/common/io/AbstractIoManager.java:65-68 | without a handler the bytes to send are the command itself |
| Protocol.UnwrapWith | src/main/java/net/tracknalysis/common/io/AbstractIoManager.java:186-190 | without a handler the result is the raw bytes read |
| Protocol.ResponseWireLength | src/main/java/net/tracknalysis/common/io/DirectIoManager.java:52-58 | without a handler the wire length is the buffer length |
| Protocol.TestProtocolManagerWellBehaved | src/test/java/net/tracknalysis/common/io/DebugLogIoManagerTest.java:172-194 | the test handler's unwrap inverts its wrap, and its request length is the wrapped length |
| Protocol.TestUnwrapShape | src/test/java/net/tracknalysis/common/io/DebugLogIoManagerTest.java:172-194 | unwrap fails exactly on empty input; otherwise it drops the first byte and keeps the rest |
| Protocol.TestResponseLength | src/test/java/net/tracknalysis/common/io/DebugLogIoManagerTest.java:172-194 | the response wire length is one more than the payload |
| IoResult.ReadStamps | src/main/java/net/tracknalysis/common/io/AbstractIoManager.java:162-199 | stamps of a read are ordered, with no transmission phase |
| IoResult.IoManagerResult.constructor | src/main/java/net/tracknalysis/common/io/IoManagerResult.java:24-33 | a new record has all timestamps 0 and a null result |
| IoResult.IoManagerResult.SetRequestStartTime | src/main/java/net/tracknalysis/common/io/IoManagerResult.java:43-45 | sets that stamp and nothing else |
| IoResult.IoManagerResult.SetRequestTxStartTime | src/main/java/net/tracknalysis/common/io/IoManagerResult.java:55-57 | sets that stamp and nothing else |
| IoResult.IoManagerResult.SetRequestTxEndTime | src/main/java/net/tracknalysis/common/io/IoManagerResult.java:67-69 | sets that stamp and nothing else |
| IoResult.IoManagerResult.SetRequestRxStartTime | src/main/java/net/tracknalysis/common/io/IoManagerResult.java:79-81 | sets that stamp and nothing else |
| IoResult.IoManagerResult.SetRequestRxEndTime | src/main/java/net/tracknalysis/common/io/IoManagerResult.java:91-93 | sets that stamp and nothing else |
| IoResult.IoManagerResult.SetRequestEndTime | src/main/java/net/tracknalysis/common/io/IoManagerResult.java:103-105 | sets that stamp and nothing else |
| IoResult.IoManagerResult.SetResult | src/main/java/net/tracknalysis/common/io/IoManagerResult.java:115-117 | sets the result and nothing else |
| IoResult.NewResult | src/main/java/net/tracknalysis/common/io/IoManagerResult.java:24-117 | a fresh record holding exactly the given stamps and result |
| IoResult.Observed | src/main/java/net/tracknalysis/common/io/IoManagerResult.java:111-113 | a caller sees the result bytes exactly when the call did not throw, and otherwise sees the exception |
| Engine.DuplexStream.ReadInto | src/main/java/net/tracknalysis/common/io/DirectIoManager.java:80-84 | copies min(available, len) bytes in arrival order into the buffer at `off`; the rest of the buffer is untouched |
| Engine.DuplexStream.ReadByte | src/main/java/net/tracknalysis/common/io/AbstractIoManager.java:175-178 | reading one byte takes the oldest byte received and leaves the rest |
| Engine.DuplexStream.Write | src/main/java/net/tracknalysis/common/io/AbstractIoManager.java:72-73 | written bytes are appended to the output; input and clock are unchanged |
| Engine.DuplexStream.Receive | src/main/java/net/tracknalysis/common/io/DirectIoManager.java:98 | bytes from the peer are appended to the input |
| Engine.DuplexStream.Tick | src/main/java/net/tracknalysis/common/io/DirectIoManager.java:90 | a clock reading never moves the clock back |
| Engine.ExactLoop | src/main/java/net/tracknalysis/common/io/DirectIoManager.java:67-99 | never collects more than needed; ends Filled exactly when the buffer is full; the clock never runs backwards |
| Engine.Round | src/main/java/net/tracknalysis/common/io/DirectIoManager.java:67-99 | one turn of the loop never collects more than needed, loses no byte and never moves the clock back; a turn that goes on consumes an observation |
| Engine.DirectIoManager.PollRound | src/main/java/net/tracknalysis/common/io/DirectIoManager.java:67-99 | one turn on the stream and the buffer ends as Round says, and the buffer holds the collected bytes |
| Engine.DirectIoManager.PollLoop | src/main/java/net/tracknalysis/common/io/DirectIoManager.java:60-99 | the loop's end, the collected bytes, the stream left behind and the buffer are those of ExactLoop; bytes past the collected ones are untouched |
| Engine.DirectIoManager.Observe | src/main/java/net/tracknalysis/common/io/DirectIoManager.java:90-98 | one clock reading and available() check: the clock moves to the reading, arrived bytes join the input, and the end of stream is reported |
| Engine.DirectIoManager.ReadStep | src/main/java/net/tracknalysis/common/io/DirectIoManager.java:80-87 | one is.read into ioOut at bytesRead: takes min(available, room) bytes, more than none, in order from the input; the rest of the buffer is untouched |
| Engine.ExactLoopConserves | src/main/java/net/tracknalysis/common/io/DirectIoManager.java:67-99 | the loop loses no byte and reorders none: collected, pending and unobserved bytes are the same sequence as before |
| Engine.ExactLoopMeetsDeadline | src/main/java/net/tracknalysis/common/io/DirectIoManager.java:67-99 | when enough bytes arrive within the timeout and the stream stays open, the loop fills the buffer |
| Engine.ExactReadSpec | src/main/java/net/tracknalysis/common/io/DirectIoManager.java:42-129 | fails before reading exactly when the wire length is unavailable or negative; collects at most the wire length |
| Engine.ExactLoopPrefix | src/main/java/net/tracknalysis/common/io/DirectIoManager.java:67-99 | a filled buffer holds the next `need` bytes of the stream |
| Engine.ExactReadSound | src/main/java/net/tracknalysis/common/io/DirectIoManager.java:42-129 | a successful read returns exactly `out.length` bytes, namely the unwrapped next wire-length bytes; a loop that stops short always ends in an error |
| Engine.ExactReadInTime | src/main/java/net/tracknalysis/common/io/DirectIoManager.java:42-129 | without a handler, bytes that arrive in time are returned in full and in order |
| Engine.ExactLoopEndsEarly | src/main/java/net/tracknalysis/common/io/DirectIoManager.java:67-99 | when a read returns -1 before the buffer is full (the stream has closed while `available()` still reports bytes), the loop ends at the end of the stream holding every byte that arrived |
| Engine.ExactReadEndsEarly | src/main/java/net/tracknalysis/common/io/DirectIoManager.java:80-84 | when a read returns -1 within the timeout before enough bytes arrive (`available()` still positive after the close), the read throws the short-read error naming the bytes read and the caller's length; a closed stream whose `available()` is 0 ends in the timeout error instead (`Engine.ExactReadTooSlow`) |
| Engine.ExactLoopTooSlow | src/main/java/net/tracknalysis/common/io/DirectIoManager.java:90-96 | when too few bytes arrive within the timeout and the next observation is past it, the loop times out holding the bytes that came in time |
| Engine.ExactReadTooSlow | src/main/java/net/tracknalysis/common/io/DirectIoManager.java:92-96 | when too few bytes arrive within the timeout, the read throws the timeout error naming the bytes read and the wire length |
| Engine.DelayRequest | src/main/java/net/tracknalysis/common/io/AbstractIoManager.java:92-119 | the bytes the delay writeAndRead sends; without a handler they are the command |
| Engine.TestHandlerRequests | src/main/java/net/tracknalysis/common/io/AbstractIoManager.java:92-153 | with the test handler the delay writeAndRead sends 0x00 0x00 before the command and the exact one sends a single 0x00 |
| Engine.DirectIoManager.Write | src/main/java/net/tracknalysis/common/io/AbstractIoManager.java:58-83 | sends the wrapped command, or throws the handler's error and sends nothing; the result stamps are ordered |
| Engine.DirectIoManager.FlushAll | src/main/java/net/tracknalysis/common/io/AbstractIoManager.java:208-235 | every available input byte is discarded; output and clock unchanged |
| Engine.DirectIoManager.Read | src/main/java/net/tracknalysis/common/io/AbstractIoManager.java:162-199 | drains all input and returns its unwrap, or throws the unwrap's error |
| Engine.DirectIoManager.Delay | src/main/java/net/tracknalysis/common/io/AbstractIoManager.java:237-243 | a negative delay throws; otherwise the clock advances by the delay |
| Engine.DirectIoManager.WriteAndReadDelay | src/main/java/net/tracknalysis/common/io/AbstractIoManager.java:92-119 | flushes stale input, sends DelayRequest, sleeps, then returns the unwrap of what arrived |
| Engine.DirectIoManager.ReadExact | src/main/java/net/tracknalysis/common/io/DirectIoManager.java:42-129 | outcome, stream and buffer are those of ExactReadSpec |
| Engine.DirectIoManager.WriteAndReadExact | src/main/java/net/tracknalysis/common/io/AbstractIoManager.java:129-153 | flushes, sends the command wrapped once, then reads exactly with no handler |
| Base64.Encode | src/main/java/net/tracknalysis/common/io/DebugLogWriterIoManager.java:207-231 | the encoding is 4 characters per started 3-byte group |
| Base64.EncodeInAlphabet | src/main/java/net/tracknalysis/common/io/DebugLogWriterIoManager.java:207-231 | every character of an encoding is from the Base64 alphabet or is padding |
| Base64.DecodeEncode | src/main/java/net/tracknalysis/common/io/DebugLogReaderIoManager.java:257-264 | decoding the encoding of any bytes gives those bytes back |
| Base64.EncodeHasNoLineBreaks | src/main/java/net/tracknalysis/common/io/DebugLogWriterIoManager.java:207-231 | an encoded payload never contains a line break |
| Base64.Decode | src/main/java/net/tracknalysis/common/io/DebugLogReaderIoManager.java:257-264 | the decoded bytes are at most three for every four characters |
| TextLines.Join | src/main/java/net/tracknalysis/common/io/DebugLogWriterIoManager.java:207-231 | the text of a non-empty log ends with CR LF, and every line adds at least its two-character separator |
| TextLines.JoinSnoc | src/main/java/net/tracknalysis/common/io/DebugLogWriterIoManager.java:207-231 | logging one more line appends exactly that line and CR LF to the text |
| TextLines.SplitLines | src/main/java/net/tracknalysis/common/io/DebugLogReaderIoManager.java:146-154 | reading lines from a text gives no line at all exactly when the text is empty, and no line read contains a break |
| TextLines.SplitJoin | src/main/java/net/tracknalysis/common/io/DebugLogReaderIoManager.java:140-175 | reading the text line by line gives back the written lines when none contains a break |
| DebugLog.Record | src/main/java/net/tracknalysis/common/io/DebugLogWriterIoManager.java:69-200 | an entry is all of an operation's lines or none; a successful call always leaves a complete entry |
| DebugLog.WriteEntry | src/main/java/net/tracknalysis/common/io/DebugLogWriterIoManager.java:207-213 | a write entry is the write tag and a line that decodes to the bytes sent; neither line holds a break |
| DebugLog.WriteAndReadEntry | src/main/java/net/tracknalysis/common/io/DebugLogWriterIoManager.java:215-223 | a write-and-read entry is the tag, then lines that decode to the bytes sent and the bytes received; no line holds a break |
| DebugLog.ReadEntry | src/main/java/net/tracknalysis/common/io/DebugLogWriterIoManager.java:225-231 | a read entry is the read tag and a line that decodes to the bytes received; neither line holds a break |
| DebugLog.NextLine | src/main/java/net/tracknalysis/common/io/DebugLogReaderIoManager.java:146 | readLine gives null exactly at the end of the log and otherwise consumes one line |
| DebugLog.NextLineTakesFront | src/main/java/net/tracknalysis/common/io/DebugLogReaderIoManager.java:146 | the line read is the first line and the lines left are the rest |
| DebugLog.ReplayWrite | src/main/java/net/tracknalysis/common/io/DebugLogReaderIoManager.java:140-175 | succeeds exactly when the command wraps, the next line is the write tag and the line after it decodes to the wrapped command; success returns no bytes and consumes two lines; never more than two lines are consumed |
| DebugLog.ReplayWriteAndRead | src/main/java/net/tracknalysis/common/io/DebugLogReaderIoManager.java:177-224 | success needs the wrapped command to wrap, a delay that is not negative and the tag and command lines to match; it then answers the unwrap of the third line and consumes three lines |
| DebugLog.ReplayRead | src/main/java/net/tracknalysis/common/io/DebugLogReaderIoManager.java:226-255 | a negative delay throws before any line is read; success needs the read tag and answers the unwrap of the next line, consuming two lines |
| DebugLog.ReplayStep | src/main/java/net/tracknalysis/common/io/DebugLogReaderIoManager.java:53-130 | a replayed call consumes at most its operation's line count |
| DebugLog.ReplayStepReadsFront | src/main/java/net/tracknalysis/common/io/DebugLogReaderIoManager.java:140-255 | the lines left after a replayed call are a suffix of the log: only lines from the front are consumed |
| DebugLog.ReplayReadsFront | src/main/java/net/tracknalysis/common/io/DebugLogReaderIoManager.java:140-255 | the lines left after replaying a session are a suffix of the log |
| DebugLog.Replay | src/main/java/net/tracknalysis/common/io/DebugLogReaderIoManager.java:53-130 | a replay answers each call once and never adds lines |
| DebugLog.ReplayOfLog | src/main/java/net/tracknalysis/common/io/DebugLogReaderIoManager.java:140-255 | when each call replays its own entry in front of any lines, replaying the joined entries answers every call as recorded and leaves the following lines |
| DebugLog.LineToBytes | src/main/java/net/tracknalysis/common/io/DebugLogReaderIoManager.java:257-264 | fails with EndOfLog exactly when there is no line |
| DebugLog.LengthChecked | src/main/java/net/tracknalysis/common/io/DebugLogReaderIoManager.java:79-93 | an exact replay succeeds only with a payload of the caller's buffer length |
| DebugLog.ReplayConsumesEntry | src/main/java/net/tracknalysis/common/io/DebugLogReaderIoManager.java:140-255 | a successful replay step consumes exactly the operation's line count |
| DebugLog.ReplayOfExhaustedLog | src/main/java/net/tracknalysis/common/io/DebugLogReaderIoManager.java:140-255 | every replayed operation fails on an empty log |
| DebugLog.ReplayStepAfterRecord | src/main/java/net/tracknalysis/common/io/DebugLogReaderIoManager.java:140-255 | replaying a recorded entry reproduces the writer's outcome and leaves the following lines alone |
| DebugLog.Records | src/main/java/net/tracknalysis/common/io/DebugLogWriterIoManager.java:69-200 | a session's entries are the operations' entries, one per call |
| DebugLog.RecordingOutcomes | src/main/java/net/tracknalysis/common/io/DebugLogWriterIoManager.java:69-200 | the i-th outcome of a session is the i-th call's outcome |
| DebugLog.Recording | src/main/java/net/tracknalysis/common/io/DebugLogWriterIoManager.java:69-200 | a recorded session answers each call once |
| DebugLog.ReplayAfterRecording | src/main/java/net/tracknalysis/common/io/DebugLogReaderIoManager.java:140-255 | replaying a recorded session reproduces every outcome and consumes exactly its lines |
| DebugLog.RecordingHasNoBreaks | src/main/java/net/tracknalysis/common/io/DebugLogWriterIoManager.java:207-231 | no logged line contains a break |
| DebugLog.ReplayOfWrittenLog | src/test/java/net/tracknalysis/common/io/DebugLogIoManagerTest.java:52-167 | replaying the log text the writer produced reproduces every outcome and reads the log to its end |
| DebugLog.RecordingSplit | src/main/java/net/tracknalysis/common/io/DebugLogWriterIoManager.java:69-200 | a session's log is the log of its first k calls followed by the log of the rest |
| DebugLog.ReplaySplit | src/main/java/net/tracknalysis/common/io/DebugLogReaderIoManager.java:140-255 | replaying a session is replaying its first k calls, then the rest |
| DebugLog.TamperedCommandDetected | src/main/java/net/tracknalysis/common/io/DebugLogReaderIoManager.java:140-175 | with the recorded command of call k forged, calls before k replay unchanged and call k fails with a mismatch naming both commands |
| FakeIo.FakeStamps | src/test/java/net/tracknalysis/common/io/DebugLogIoManagerTest.java:273-311 | the fake's stamps are ordered and span 100 ms per transfer plus the delay |
| FakeIo.Filled | src/test/java/net/tracknalysis/common/io/DebugLogIoManagerTest.java:273-311 | n bytes, all 0xFF |
| FakeIo.Fill | src/test/java/net/tracknalysis/common/io/DebugLogIoManagerTest.java:273-311 | fills the buffer with 0xFF |
| FakeIo.TestIoManager.CreateResult | src/test/java/net/tracknalysis/common/io/DebugLogIoManagerTest.java:273-311 | stamps as FakeStamps; a given buffer is filled with 0xFF and becomes the result; without a buffer the result stays null |
| FakeIo.TestIoManager.StampTransfer | src/test/java/net/tracknalysis/common/io/DebugLogIoManagerTest.java:278-298 | a phase that happens spans 100 ms; one that does not has equal start and end stamps |
| FakeIo.TestIoManager.Write | src/test/java/net/tracknalysis/common/io/DebugLogIoManagerTest.java:197-312 | records the command; the result is null |
| FakeIo.TestIoManager.WriteAndRead | src/test/java/net/tracknalysis/common/io/DebugLogIoManagerTest.java:197-312 | records the command; answers 10 bytes of 0xFF |
| FakeIo.TestIoManager.WriteAndReadInto | src/test/java/net/tracknalysis/common/io/DebugLogIoManagerTest.java:197-312 | records the command; fills the caller's buffer, waiting half the timeout |
| FakeIo.TestIoManager.Read | src/test/java/net/tracknalysis/common/io/DebugLogIoManagerTest.java:197-312 | answers 10 bytes of 0xFF |
| FakeIo.TestIoManager.ReadInto | src/test/java/net/tracknalysis/common/io/DebugLogIoManagerTest.java:197-312 | fills the caller's buffer |
| FakeIo.TestIoManager.WithHandler | src/test/java/net/tracknalysis/common/io/DebugLogIoManagerTest.java:197-312 | every handler variant throws |
| LogWriter.FakeReply | src/test/java/net/tracknalysis/common/io/DebugLogIoManagerTest.java:197-312 | the fake always answers, with 0xFF bytes that fit an exact buffer |
| LogWriter.DelegateWrites | src/main/java/net/tracknalysis/common/io/DebugLogWriterIoManager.java:69-145 | the delegate receives at most one command, the wrapped one |
| LogWriter.DebugLogWriterIoManager.Text | src/main/java/net/tracknalysis/common/io/DebugLogWriterIoManager.java:207-231 | the output text is the text of all lines but the last, then the last line and CR LF; when no logged line holds a break, reading the text line by line gives the log back |
| LogWriter.DebugLogWriterIoManager.Write | src/main/java/net/tracknalysis/common/io/DebugLogWriterIoManager.java:69-79 | appends Record's lines, answers Record's outcome, and passes the wrapped command to the delegate |
| LogWriter.DebugLogWriterIoManager.WriteAndRead | src/main/java/net/tracknalysis/common/io/DebugLogWriterIoManager.java:86-105 | the same for the delay write-and-read |
| LogWriter.DebugLogWriterIoManager.WriteAndReadExact | src/main/java/net/tracknalysis/common/io/DebugLogWriterIoManager.java:113-145 | the same for the exact write-and-read; on an error with a handler the caller's buffer is untouched |
| LogWriter.DebugLogWriterIoManager.Read | src/main/java/net/tracknalysis/common/io/DebugLogWriterIoManager.java:152-165 | the same for read |
| LogWriter.DebugLogWriterIoManager.ReadExact | src/main/java/net/tracknalysis/common/io/DebugLogWriterIoManager.java:172-200 | the same for the exact read |
| LogWriter.DebugLogWriterIoManager.FlushAll | src/main/java/net/tracknalysis/common/io/DebugLogWriterIoManager.java:202-205 | passes flushAll to the delegate and logs nothing |
| LogReader.DebugLogReaderIoManager.constructor | src/main/java/net/tracknalysis/common/io/DebugLogReaderIoManager.java:38-40 | the reader starts at the first line of the log text |
| LogReader.DebugLogReaderIoManager.ReadLine | src/main/java/net/tracknalysis/common/io/DebugLogReaderIoManager.java:140-175 | the next line, or null at the end |
| LogReader.DebugLogReaderIoManager.LineToBytes | src/main/java/net/tracknalysis/common/io/DebugLogReaderIoManager.java:257-264 | as DebugLog.LineToBytes |
| LogReader.DebugLogReaderIoManager.WriteInternal | src/main/java/net/tracknalysis/common/io/DebugLogReaderIoManager.java:140-175 | consumes and checks a write entry as ReplayWrite says |
| LogReader.DebugLogReaderIoManager.WriteAndReadInternal | src/main/java/net/tracknalysis/common/io/DebugLogReaderIoManager.java:177-224 | consumes and checks a write-and-read entry after sleeping the delay |
| LogReader.DebugLogReaderIoManager.ReadInternal | src/main/java/net/tracknalysis/common/io/DebugLogReaderIoManager.java:226-255 | consumes a read entry after sleeping the delay |
| LogReader.DebugLogReaderIoManager.Write | src/main/java/net/tracknalysis/common/io/DebugLogReaderIoManager.java:53-61 | lines left and answer are ReplayStep's |
| LogReader.DebugLogReaderIoManager.WriteAndRead | src/main/java/net/tracknalysis/common/io/DebugLogReaderIoManager.java:64-72 | lines left and answer are ReplayStep's |
| LogReader.DebugLogReaderIoManager.WriteAndReadExact | src/main/java/net/tracknalysis/common/io/DebugLogReaderIoManager.java:79-93 | lines left and answer are ReplayStep's; the payload is copied into the buffer only on success |
| LogReader.DebugLogReaderIoManager.Read | src/main/java/net/tracknalysis/common/io/DebugLogReaderIoManager.java:96-104 | lines left and answer are ReplayStep's |
| LogReader.DebugLogReaderIoManager.ReadExact | src/main/java/net/tracknalysis/common/io/DebugLogReaderIoManager.java:111-125 | lines left and answer are ReplayStep's; the payload is copied into the buffer only on success |
| LogReader.DebugLogReaderIoManager.FlushAll | src/main/java/net/tracknalysis/common/io/DebugLogReaderIoManager.java:127-130 | changes nothing |
| RoundTrip.FakeReplies | src/test/java/net/tracknalysis/common/io/DebugLogIoManagerTest.java:197-312 | one successful fake reply per call |
| RoundTrip.RecordSession | src/test/java/net/tracknalysis/common/io/DebugLogIoManagerTest.java:52-113 | the writer's answers and log are the session's Recording |
| RoundTrip.ReplaySession | src/test/java/net/tracknalysis/common/io/DebugLogIoManagerTest.java:115-167 | the reader's answers and remaining lines are the session's Replay |
| RoundTrip.RecordCall | src/test/java/net/tracknalysis/common/io/DebugLogIoManagerTest.java:52-113 | one call on the writer answers and logs as Record with the fake's reply, and passes the delegate its writes |
| RoundTrip.ReplayCall | src/test/java/net/tracknalysis/common/io/DebugLogIoManagerTest.java:115-167 | one call on the reader answers and leaves the lines as ReplayStep |
| RoundTrip.RecordThenReplay | src/test/java/net/tracknalysis/common/io/DebugLogIoManagerTest.java:52-167 | for any faithful session, the recorded and replayed answers are equal |
| RoundTrip.TestSessionRecords | src/test/java/net/tracknalysis/common/io/DebugLogIoManagerTest.java:52-113 | the test's ten calls are faithful and give the expected answers |
| RoundTrip.TestCallsRecord | src/test/java/net/tracknalysis/common/io/DebugLogIoManagerTest.java:52-113 | each of the test's ten calls records the expected answer |
| RoundTrip.NegativeDelayRecordsButFailsReplay | src/test/java/net/tracknalysis/common/io/DebugLogIoManagerTest.java:287-289 | a write-and-read with a negative delay records a successful entry on the fake, but replaying that entry fails with the negative-sleep error |
| RoundTrip.TestSessionWrites | src/test/java/net/tracknalysis/common/io/DebugLogIoManagerTest.java:58-93 | the fake receives the plain command and the 0x00-prefixed command, alternately, six times |
| RoundTrip.TestRoundTrip | src/test/java/net/tracknalysis/common/io/DebugLogIoManagerTest.java:52-167 | the test's assertions: the written and replayed answers are null, ten 0xFF bytes or nine 0xFF bytes, as expected, and the fake's writes are as asserted |
| Commands.CommandsOf | src/main/java/net/tracknalysis/common/io/command/DefaultIoCommandManager.java:84-119 | the commands taken so far, in order |
| Commands.Outcome | src/main/java/net/tracknalysis/common/io/command/DefaultIoCommandManager.java:94-104 | a command taken by the worker fails exactly when its execute throws, and is never discarded |
| Commands.Started | src/main/java/net/tracknalysis/common/io/command/DefaultIoCommandManager.java:48-56 | start on a stopped manager starts one new worker and sets running; on a running one it changes nothing; the queue is untouched |
| Commands.Stopped | src/main/java/net/tracknalysis/common/io/command/DefaultIoCommandManager.java:58-67 | stop on a running manager clears the queue, discarding each pending command in order, and drops the worker; on a stopped one it changes nothing |
| Commands.Offer | src/main/java/net/tracknalysis/common/io/command/DefaultIoCommandManager.java:69-76 | enqueue throws exactly when stopped, accepts exactly when running with fewer than 10 queued, and then appends; otherwise nothing changes |
| Commands.Poll | src/main/java/net/tracknalysis/common/io/command/DefaultIoCommandManager.java:86-104 | a round with a queued command takes the first one and handles it by its outcome; an empty queue changes nothing; no command is lost |
| Commands.Rounds | src/main/java/net/tracknalysis/common/io/command/DefaultIoCommandManager.java:84-119 | n rounds handle min(n, pending) commands and leave the rest queued |
| Commands.Served | src/main/java/net/tracknalysis/common/io/command/DefaultIoCommandManager.java:94-104 | one handled record per command served |
| Commands.RoundsLeaveRest | src/main/java/net/tracknalysis/common/io/command/DefaultIoCommandManager.java:84-119 | after n rounds the queue is what followed the first min(n, pending) commands |
| Commands.RoundsHandleFront | src/main/java/net/tracknalysis/common/io/command/DefaultIoCommandManager.java:84-119 | after n rounds the handled list gained the outcomes of the first min(n, pending) commands, in order |
| Commands.Initial | src/main/java/net/tracknalysis/common/io/command/DefaultIoCommandManager.java:39-46 | a new manager is valid, not running and has an empty queue |
| Commands.StartKeepsValid | src/main/java/net/tracknalysis/common/io/command/DefaultIoCommandManager.java:48-56 | start keeps the invariant and leaves the manager running with its queue untouched |
| Commands.StopKeepsValid | src/main/java/net/tracknalysis/common/io/command/DefaultIoCommandManager.java:58-67 | stop keeps the invariant, ends the worker and discards every pending command in queue order |
| Commands.EnqueueKeepsValid | src/main/java/net/tracknalysis/common/io/command/DefaultIoCommandManager.java:69-76 | enqueue throws exactly when stopped; it returns true exactly when running with room, and then appends |
| Commands.PollKeepsValid | src/main/java/net/tracknalysis/common/io/command/DefaultIoCommandManager.java:84-119 | a worker round keeps the invariant |
| Commands.RoundsServeInOrder | src/main/java/net/tracknalysis/common/io/command/DefaultIoCommandManager.java:84-119 | n rounds handle the first min(n, pending) commands in queue order, each by its own outcome |
| Commands.RoundsKeepValid | src/main/java/net/tracknalysis/common/io/command/DefaultIoCommandManager.java:84-119 | any number of rounds keeps the invariant |
| Commands.RunHandlesInAcceptanceOrder | src/main/java/net/tracknalysis/common/io/command/DefaultIoCommandManager.java:39-119 | after any calls, handled commands are a prefix of the accepted ones and the queue holds at most 10 |
| Commands.DefaultIoCommandManager.constructor | src/main/java/net/tracknalysis/common/io/command/DefaultIoCommandManager.java:44-46 | the initial state |
| Commands.DefaultIoCommandManager.Start | src/main/java/net/tracknalysis/common/io/command/DefaultIoCommandManager.java:48-56 | the state is Started of the old one |
| Commands.DefaultIoCommandManager.Stop | src/main/java/net/tracknalysis/common/io/command/DefaultIoCommandManager.java:58-67 | the state is Stopped of the old one |
| Commands.DefaultIoCommandManager.Enqueue | src/main/java/net/tracknalysis/common/io/command/DefaultIoCommandManager.java:69-76 | answer and state are Offer's |
| Commands.DefaultIoCommandManager.PollOnce | src/main/java/net/tracknalysis/common/io/command/DefaultIoCommandManager.java:86-104 | the state is Poll of the old one |
| Commands.DefaultIoCommandManager.RunWorker | src/main/java/net/tracknalysis/common/io/command/DefaultIoCommandManager.java:84-119 | the state is Rounds of the old one |
| Notification.IndexOf | src/main/java/net/tracknalysis/common/notification/BaseListenerRegistry.java:159-174 | the first index holding the entry, or -1 exactly when it is absent |
| Notification.Scrub | src/main/java/net/tracknalysis/common/notification/BaseListenerRegistry.java:181-194 | keeps exactly the entries that still hold a listener |
| Notification.RemoveAt | src/main/java/net/tracknalysis/common/notification/BaseListenerRegistry.java:64-70 | removes exactly the entry at the index |
| Notification.Deliveries | src/main/java/net/tracknalysis/common/notification/BaseListenerRegistry.java:120-149 | one delivery to each listener present, with the given type and body |
| Notification.InvokeWith | src/main/java/net/tracknalysis/common/notification/BaseListenerRegistry.java:120-149 | the first invocation falls back to the initial strategy and later ones use the one given; with no strategy nothing is delivered, otherwise exactly the live weak and the strong listeners hear the last notification; the lists are untouched |
| Notification.Invoke | src/main/java/net/tracknalysis/common/notification/BaseListenerRegistry.java:111-115 | the same with the last strategy, which is kept after the first invocation |
| Notification.WithListener | src/main/java/net/tracknalysis/common/notification/BaseListenerRegistry.java:53-61 | the listener is registered afterwards; adding a registered one changes nothing and notifies no one; otherwise it is appended and every listener is invoked |
| Notification.WithoutListener | src/main/java/net/tracknalysis/common/notification/BaseListenerRegistry.java:64-70 | a registered listener is removed once; an unregistered one changes nothing; no other listener is affected |
| Notification.WithWeakListener | src/main/java/net/tracknalysis/common/notification/BaseListenerRegistry.java:73-86 | afterwards the weak list holds exactly the live references and the listener; a listener already held notifies no one |
| Notification.WithoutWeakListener | src/main/java/net/tracknalysis/common/notification/BaseListenerRegistry.java:89-100 | afterwards the weak list holds only live references that were there, and every one but the listener's |
| Notification.Notified | src/main/java/net/tracknalysis/common/notification/DefaultNotificationListenerManager.java:56-63 | the notification is stored and every delivery carries its type and body; the lists are untouched |
| Notification.Collected | src/main/java/net/tracknalysis/common/notification/BaseListenerRegistry.java:34-35 | collecting a weak listener clears its references and no other; the strong list is untouched |
| Notification.Cleared | src/main/java/net/tracknalysis/common/notification/BaseListenerRegistry.java:34-35 | clearing replaces exactly the references to the collected listener by cleared ones |
| Notification.Initial | src/main/java/net/tracknalysis/common/notification/DefaultNotificationListenerManager.java:45-48 | a new manager satisfies the manager invariant |
| Notification.AddListenerKeepsValid | src/main/java/net/tracknalysis/common/notification/BaseListenerRegistry.java:53-61 | addListener never registers a listener twice |
| Notification.RemoveListenerKeepsValid | src/main/java/net/tracknalysis/common/notification/BaseListenerRegistry.java:64-70 | removeListener keeps the lists distinct and leaves the listener unregistered |
| Notification.AddWeakReferenceListenerKeepsValid | src/main/java/net/tracknalysis/common/notification/BaseListenerRegistry.java:73-86 | addWeakReferenceListener never registers a listener twice |
| Notification.RemoveWeakReferenceListenerKeepsValid | src/main/java/net/tracknalysis/common/notification/BaseListenerRegistry.java:89-100 | removeWeakReferenceListener keeps the lists distinct and leaves the listener unregistered |
| Notification.CollectKeepsValid | src/main/java/net/tracknalysis/common/notification/BaseListenerRegistry.java:34-35 | a collected weak listener is gone and the lists stay distinct |
| Notification.InvokeKeepsStrategy | src/main/java/net/tracknalysis/common/notification/BaseListenerRegistry.java:111-149 | after an invocation the strategy is stored, and the deliveries go to the weak list, then the strong list |
| Notification.AddedListenerHearsLastNotification | src/main/java/net/tracknalysis/common/notification/BaseListenerRegistry.java:53-61 | a newly added listener, and every listener already registered, receives the last notification |
| Notification.AddedWeakListenerHearsLastNotification | src/main/java/net/tracknalysis/common/notification/BaseListenerRegistry.java:73-86 | a newly added weak listener receives the last notification |
| Notification.SendReachesEveryListener | src/main/java/net/tracknalysis/common/notification/DefaultNotificationListenerManager.java:51-86 | sendNotification stores the notification and delivers it to exactly the registered listeners, weak ones first |
| Notification.RegistrationsIndependent | src/main/java/net/tracknalysis/common/notification/ListenerRegistry.java:27-67 | strong and weak registrations never touch the other list |
| Notification.ApplyKeepsManagerValid | src/main/java/net/tracknalysis/common/notification/BaseListenerRegistry.java:53-100 | any one call keeps the manager invariant |
| Notification.RunKeepsManagerValid | src/main/java/net/tracknalysis/common/notification/BaseListenerRegistry.java:53-149 | any sequence of calls keeps the manager invariant |
| Notification.DefaultNotificationListenerManager.constructor | src/main/java/net/tracknalysis/common/notification/DefaultNotificationListenerManager.java:45-48 | the state is Initial |
| Notification.DefaultNotificationListenerManager.FindInWeakReferenceList | src/main/java/net/tracknalysis/common/notification/BaseListenerRegistry.java:159-174 | the loop's index is IndexOf over the weak list |
| Notification.DefaultNotificationListenerManager.ScrubStrategies | src/main/java/net/tracknalysis/common/notification/BaseListenerRegistry.java:181-194 | the weak list becomes its Scrub |
| Notification.DefaultNotificationListenerManager.InvokeListenersWith | src/main/java/net/tracknalysis/common/notification/BaseListenerRegistry.java:120-149 | state and deliveries are InvokeWith's |
| Notification.DefaultNotificationListenerManager.InvokeListeners | src/main/java/net/tracknalysis/common/notification/BaseListenerRegistry.java:111-115 | state and deliveries are Invoke's |
| Notification.DefaultNotificationListenerManager.InvokeEach | src/main/java/net/tracknalysis/common/notification/BaseListenerRegistry.java:136-146 | delivers to each target in order and changes no registration |
| Notification.DefaultNotificationListenerManager.SendNotificationInternal | src/main/java/net/tracknalysis/common/notification/DefaultNotificationListenerManager.java:73-86 | delivers the stored notification to the listener unless it is a cleared (null) reference, and changes no registration |
| Notification.DefaultNotificationListenerManager.AddListener | src/main/java/net/tracknalysis/common/notification/BaseListenerRegistry.java:53-61 | state and deliveries are WithListener's |
| Notification.DefaultNotificationListenerManager.RemoveListener | src/main/java/net/tracknalysis/common/notification/BaseListenerRegistry.java:64-70 | the state is WithoutListener's |
| Notification.DefaultNotificationListenerManager.AddWeakReferenceListener | src/main/java/net/tracknalysis/common/notification/BaseListenerRegistry.java:73-86 | state and deliveries are WithWeakListener's |
| Notification.DefaultNotificationListenerManager.RemoveWeakReferenceListener | src/main/java/net/tracknalysis/common/notification/BaseListenerRegistry.java:89-100 | the state is WithoutWeakListener's |
| Notification.DefaultNotificationListenerManager.SendNotification | src/main/java/net/tracknalysis/common/notification/DefaultNotificationListenerManager.java:56-63 | state and deliveries are Notified's |
| Notification.DefaultNotificationListenerManager.SendNotificationType | src/main/java/net/tracknalysis/common/notification/DefaultNotificationListenerManager.java:51-53 | as SendNotification with a null body |
| Notification.DefaultNotificationListenerManager.Collect | src/main/java/net/tracknalysis/common/notification/BaseListenerRegistry.java:34-35 | the state becomes Collected of the old one; nothing is delivered |
| TimeUtil.Int32 | src/main/java/net/tracknalysis/common/util/TimeUtil.java:40-52 | Java int arithmetic: every result is a 32-bit value |
| TimeUtil.Int32Congruent | src/main/java/net/tracknalysis/common/util/TimeUtil.java:40-52 | the wrapped value is congruent to the exact one modulo 2^32 |
| TimeUtil.Int32InRange | src/main/java/net/tracknalysis/common/util/TimeUtil.java:40-52 | values in range are not changed |
| TimeUtil.Hour24 | src/main/java/net/tracknalysis/common/util/TimeUtil.java:41-44 | for an hour field in [0, 12) the 24-hour value is in [0, 24), keeps the field modulo 12 and is 12 or more exactly in the afternoon |
| TimeUtil.MillisecondInDay | src/main/java/net/tracknalysis/common/util/TimeUtil.java:48-49 | the sum is evaluated in Java int arithmetic, including the final addition of the millisecond field, so the result is always a 32-bit value |
| TimeUtil.TimeBeforeToday | src/main/java/net/tracknalysis/common/util/TimeUtil.java:54-60 | for fields in range the time before today is at most the current time and less than a day before it |
| TimeUtil.MillisecondInDayInRange | src/main/java/net/tracknalysis/common/util/TimeUtil.java:26-52 | for calendar fields in range nothing overflows; the result is the exact time of day, in [0, MS_IN_DAY) |
| TimeUtil.UtcCalendar | src/main/java/net/tracknalysis/common/util/TimeUtil.java:35-38 | the UTC calendar's fields are in range |
| TimeUtil.UtcMidnight | src/main/java/net/tracknalysis/common/util/TimeUtil.java:35-60 | on the UTC calendar the millisecond in the day is the time since midnight, and the time before today is that midnight, a multiple of MS_IN_DAY |

## Left out

- Connecting and disconnecting the socket, `StreamSocketManager` and the `SocketManager` delegate are left out. They are streams and sockets; the engine runs over an abstract duplex stream.
- Threads, `synchronized`, `volatile` and the `GracefulShutdownThread` life cycle are left out. The command worker runs for a given number of rounds. The one-second timed poll, and an interrupt while waiting, are an empty round.
- Real time is a `Clock` object that only sleeps move forward. The readings inside the exact read loop come from a script of poll observations given as a parameter.
- SLF4J logging and the text of exception messages are left out. An exception is an `IoError` value that carries the numbers it reports.
- Character encoding, `BufferedReader` buffering and the commons-codec Base64 implementation are not modelled. The log is a sequence of lines, and Base64 is the standard alphabet with padding and no line breaks.
- Base64.Decode: the URL-safe characters '-' and '_' are skipped like any other character outside the standard alphabet. The commons-codec decoder maps them to 62 and 63. The writer never produces them.
- The garbage collector's timing for weak references is not modelled. A collection is an explicit `Collect` event.
- Listener identity is an id. A listener that throws from `onNotification` is caught by the manager, so the delivery is recorded anyway.
- A result array is returned by value. Aliasing between the caller's `out` buffer and `IoManagerResult.result` is kept only as equal contents.
- LogWriter.DebugLogWriterIoManager: the delegate is always the test's `TestIoManager`. Arbitrary delegates are not modelled, so replies are the fake's replies.
- RoundTrip.TestRoundTrip: the test's calls are a list of operations that the session drivers run, not ten separate statements.
- TimeUtil.UtcCalendar: `getCurrentMillisecondInDay` reads the current `GregorianCalendar`. The model takes the calendar as a parameter and proves the UTC case only. Other time zones and daylight saving are not modelled.
- TimeUtil.TimeBeforeToday: `long` overflow of the subtraction is not modelled. It cannot occur for a real clock.
- `IoCommand.execute` is modelled only by whether it throws. Its effects on the `IoManager` are not modelled.
- `TimeUtilTest` is not part of this model. It exercises a method that `TimeUtil` does not contain.
- DebugLog.ReplayAfterRecording: the round trip is stated for calls whose delays and timeouts are not negative (`Replayable`). The test's fake skips a sleep of a negative delay and answers, while the reader's `Thread.sleep` throws on it, so such a call records an answer but replays to an error (`RoundTrip.NegativeDelayRecordsButFailsReplay`).
- Engine.ExactReadEndsEarly: the early end of the stream is the poll observation `EndOfStream`. It stands for an `available()` that is still positive after the peer closed, followed by a read of -1. A stream whose `available()` drops to 0 at its end never reaches that read. The loop then waits for the timeout, and the model shows this case as empty arrivals (`Engine.ExactReadTooSlow`).
- Commands.Started: the thread counter is part of one manager's state. Java's `COMMAND_THREAD_INSTANCE_COUNTER` is static and shared by every manager in the process, so the numbers agree only when there is one manager.
