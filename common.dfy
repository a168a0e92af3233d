// Shared vocabulary of the IO core: bytes, optional values, the error kinds
// the Java code raises as exceptions, and Java's truncating long division.

module Common {

  /** One element of a Java byte[], as its unsigned value. */
  type Byte = x: int | 0 <= x < 256

  type Bytes = seq<Byte>

  /** A Java reference that may be null. */
  datatype Option<T> = None | Some(value: T)

  /** The exceptions of the core, by kind. Exception messages are not modelled. */
  datatype IoError =
    | Timeout(bytesRead: nat, expected: nat)          // exact read ran past its timeout
    | IncompleteRead(bytesRead: nat, expected: nat)   // end of stream before the exact length
    | LengthMismatch(actual: nat, expected: nat)      // unwrapped or replayed length differs
    | HandlerFailure(code: nat)                       // an IOException thrown by a protocol handler
    | NegativeArraySize(length: int)                  // new byte[n] with n < 0
    | NegativeSleep(millis: int)                      // Thread.sleep with a negative argument
    | UnexpectedLine(expectedTag: string, line: Option<string>)  // replay log out of step
    | CommandMismatch(sent: Bytes, recorded: Bytes)   // replayed command differs from the log
    | EndOfLog                                        // a payload line is missing from the log
    | DelegateFailure(code: nat)                      // an IOException thrown by a delegate
    | NotCalledOnFake                                 // a handler variant of the test fake
    | NotRunning                                      // enqueue on a stopped command manager

  /** The outcome of an operation that returns a T or throws. */
  datatype Result<T> = Ok(value: T) | Err(error: IoError) {
    predicate IsFailure() { Err? }

    function PropagateFailure<U>(): Result<U>
      requires Err?
    {
      Err(error)
    }

    function Extract(): T
      requires Ok?
    {
      value
    }
  }

  /** Java's `/` on long: the quotient truncated toward zero. */
  function JavaDiv(a: int, b: int): (q: int)
    requires b > 0
    ensures a >= 0 ==> 0 <= q && q * b <= a < q * b + b
    ensures a < 0 ==> q <= 0 && a <= q * b && q * b - b < a
  {
    if a >= 0 then a / b else -((-a) / b)
  }

  function Min(a: int, b: int): int
  {
    if a <= b then a else b
  }

  function Max(a: int, b: int): int
  {
    if a >= b then a else b
  }

  /** System.arraycopy of a whole payload into a buffer of the same length. */
  method CopyInto(src: Bytes, dst: array<Byte>)
    requires |src| == dst.Length
    modifies dst
    ensures dst[..] == src
  {
    var i := 0;
    while i < |src|
      invariant 0 <= i <= |src|
      invariant dst[..i] == src[..i]
    {
      dst[i] := src[i];
      i := i + 1;
    }
  }
}
