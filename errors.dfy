/** Error values and the result wrappers every other module returns.
    The Go code reports failures as `error` values built with `fmt.Errorf`;
    the model keeps the kind of each error and what it carries, not its text. */
module Errors {

  import opened Bytes

  /** What a connection's `Read` or `Write` reported. */
  datatype IoError =
    | Eof            // io.EOF: the peer closed the stream and no byte of this read arrived
    | UnexpectedEof  // io.ErrUnexpectedEOF: the stream ended part-way through an exact read
    | Broken         // any other network failure

  /** The context a `fmt.Errorf` names around an inner error: with `%w` it wraps
      the inner error (`Wrapped`), with `%s` it only quotes its text (`Described`). */
  datatype Stage =
    | ReadLength     // ReadProtocolString: reading the 4-byte length header failed
    | ParseLength    // ReadProtocolString: the header is not a base-16 number
    | ReadPayload    // ReadProtocolString: reading the payload failed
    | BlockLength    // ReadBlock: reading the 4-byte length header failed
    | BlockParse     // ReadBlock: the header is not a base-16 number
    | BlockRead      // ReadBlock: reading the payload failed
    | ReadingStatus  // ReadStatus: reading the 4-byte code failed
    | ReadingReply   // ReadStatus: draining the server's failure text failed
    | UntilEof       // ReadAll: the stream failed before its end
    | ParsePort      // parseTcpSocketSpec: the port text is not a decimal number
    | StartingServer // Dial: the bootstrap start-server command failed (a `%s` context)

  datatype Error =
    | TooLong                                              // the frame would exceed the payload limit
    | Io(cause: IoError)                                   // a connection error passed on as it is
    | Incomplete(expected: int, actual: nat, cause: IoError) // a short exact read, with the expected and actual byte counts
    | BadNumber                                            // a strconv.ParseInt failure
    | Panic                                                // make([]byte, n) with n < 0 panics
    | Wrapped(stage: Stage, inner: Error)                  // `%w`: errors.Unwrap gives `inner`
    | Described(stage: Stage, inner: Error)                // `%s`: the text of `inner` only; errors.Unwrap gives nil
    | Remote(message: seq<byte>)                            // the server's FAIL reply text
    | NotTcp                                               // the spec lacks the `tcp:` prefix
    | EmptyHost                                            // the host part of a spec is empty
    | PortRange(port: int)                                 // the port is outside 0..65535
    | Malformed                                            // a spec with more than one port separator
    | BadServiceName(length: nat)                          // a service name that is empty or over the payload limit
    | DialFailed                                           // net.Dial refused or failed
    | StartFailed(output: seq<byte>)                        // the start-server command failed; carries its trimmed output
    | CommandFailed(output: seq<byte>)                      // an adb command failed; carries its trimmed output

  /** Wraps an error in a `fmt.Errorf` context. A panic is not an error value:
      it unwinds through every wrapper unchanged. */
  function Wrap(stage: Stage, e: Error): (r: Error)
    ensures e == Panic <==> r == Panic
    ensures e != Panic ==> r.Wrapped? && r.inner == e
  {
    if e == Panic then Panic else Wrapped(stage, e)
  }

  datatype Option<+T> = None | Some(value: T)

  datatype Result<+T> = Ok(value: T) | Err(error: Error)

  /** The result of an operation that returns only an `error`. */
  datatype Outcome = Pass | Fail(error: Error)
}
