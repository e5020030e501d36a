# go-adb smart socket client, modelled in Dafny

This project models the client side of the ADB "smart socket" protocol as the
go-adb package implements it. A client opens a TCP connection to the local adb
server and sends requests as length-prefixed strings: four lower-case hex digits
giving the length, then the bytes. It then reads 4-byte status codes (`OKAY`,
`FAIL`, ...), length-prefixed blocks and raw replies. The model covers four parts:

- **Framing** (`framing.dfy`, `numbers.dfy`). The `%04x` header, `strconv.ParseInt`,
  and the frame, block and status formats are pure functions on byte
  sequences. Each `Decode...` function gives the result of the matching read
  and the bytes it leaves unread.
- **The connection** (`asocket.dfy`). One class, `Asocket`, holds the stream
  both Go wrappers (`Asocket` and `Conn`) share:
  - `input` holds the bytes the server will still send; reads consume it from the front.
  - `output` holds the bytes sent so far; writes append to it.
  - Two oracle lists of steps decide how many bytes each `Read`/`Write` call of
    the connection moves, or whether it fails.

  The exact-read loops fill a real array in place; the exact-write loop walks
  the buffer as a sequence.
  Every read method is proved against its `Decode...` function:
  - a successful read returns what the function gives;
  - without connection faults, so does every failed read.
- **Socket spec parser** (`socket_spec.dfy`). `parseTcpSocketSpec` exactly as written,
  and a corrected version.
- **Client bootstrap** (`adb.dfy`). The service-name guard of `Adb.Connect`,
  and the `Dial`, `StartServer` and `Command` sequences. They run against a
  `Machine` that answers dials and command runs from oracle lists and logs
  every attempt.

Go strings and byte slices are `seq<byte>`. Errors are kept as kinds with
their data (`Errors.Error`), not as message text. The `%w` wrappers are kept
as `Wrapped(stage, inner)`.

Two places where the code does not do what the code itself shows was meant:

- **Frame limit.** The comments on `SendProtocolString` and `ReadProtocolString`
  describe the frame as "a four hex digit length" (asocket_io.go:23-24, 37-38),
  and the reader takes exactly four digits (asocket_io.go:40-44). The guard at
  asocket_io.go:27, however, lets through every message up to `maxPayload - 4`
  = 1048572 bytes. The model keeps the guard as written and records the
  consequence under Findings.
- **Port parsing.** The branch for `host:port` range-checks a port
  (asocket_spec.go:34-35) and reports a port parse error (asocket_spec.go:32),
  so a port was meant to be parsed. The code parses the wrong text into a
  shadowing variable (asocket_spec.go:30). The model keeps that behaviour and
  records it under Findings.

## Model

| member | source | states |
|---|---|---|
| Errors.Wrap | asocket_io.go:40-51 | a `%w` wrapper keeps the inner error; a panic from `make` is never wrapped |
| Bytes.HasPrefix | asocket_spec.go:15 | `strings.HasPrefix` holds exactly when the prefix fits and agrees byte by byte; the text is then the prefix followed by the rest |
| Bytes.Trim | asocket.go:71 | `bytes.Trim` returns a slice b[i..j]: everything outside it is in the cut set, and it neither starts nor ends with a cut byte |
| Bytes.TrimUnique | asocket.go:71 | only one sequence meets that description, so it determines the trim |
| Bytes.TrimIdempotent | asocket.go:71 | trimming twice gives the same result as trimming once |
| Bytes.TrimShape | asocket.go:71 | cut bytes inside the kept slice survive: the trim of b is b[i..j] whenever only cut bytes lie outside [i, j) and b[i], b[j-1] are not cut |
| Bytes.TrimNul | asocket.go:71 | `bytes.Trim(b, "\x00")` is a trim of b by NUL, with no NUL at either end |
| Bytes.TrimSpace | adb.go:66 | `strings.TrimSpace` on ASCII text is a trim by white space, with none at either end |
| Bytes.Split | asocket_spec.go:22 | `strings.Split` gives one piece more than there are separators; the first piece ends at the first separator; no piece holds a separator; joining the pieces gives back the input |
| Bytes.SplitTwo | asocket_spec.go:22 | a text with one separator splits into the two pieces around it |
| Bytes.SplitNone | asocket_spec.go:22 | a text without a separator is one piece |
| Numbers.FormatUnsigned | asocket_io.go:30 | `fmt` digits are non-empty, valid in the base, and lower-case |
| Numbers.FormatUnsignedValue | asocket_io.go:30 | those digits read back as the number and have no leading zero |
| Numbers.Hex04 | asocket_io.go:30 | `%04x` prints at least four digits |
| Numbers.HexWidth | asocket_io.go:30 | the hex digits of n fit in k places exactly when n < 16^k |
| Numbers.ParseInt | asocket_io.go:44 | `strconv.ParseInt` gives a value within `bitSize` bits or a number error |
| Numbers.ParseIntRejects | asocket_io.go:44 | one byte that is not a digit, other than a leading sign, makes the parse fail |
| Numbers.Hex04RoundTrip | asocket_io.go:30-44 | for n <= 0xffff, `%04x` is four lower-case hex digits that parse back as n |
| Numbers.Hex04Overflow | asocket_io.go:27-30 | for 0x10000 <= n <= 0xfffff, `%04x` has five digits, and its first four parse as n / 16 |
| Numbers.FormatInt | adb.go:46 | `%d` starts with a minus sign exactly for negative numbers, followed by the digits of the magnitude |
| Numbers.FormatIntRoundTrip | adb.go:46 | `%d` parses back with base 10 at 32 and 64 bits |
| Numbers.FormatIntNoColon | adb.go:46 | `%d` never prints a colon |
| Framing.EncodeFrame | asocket_io.go:25-35 | as written, a message is refused exactly when it is over 1048572 bytes; otherwise the frame is a header of at least 4 bytes, then the message |
| Framing.EncodeFrameFixed | asocket_io.go:25-35 | the corrected frame refuses only with the too-long error |
| Framing.DecodeFrame | asocket_io.go:39-53 | a frame read leaves a suffix of the stream; a successful one is a 4-byte header that parses to the payload length, then the payload |
| Framing.ReadFullSpec | asocket.go:56-63 | an exact read of n bytes gives exactly n bytes; otherwise it fails with n expected and the count available, or panics for n < 0 |
| Framing.ReadMessageSpec | asocket.go:66-72 | ReadMessage returns the NUL trim of the exact read and fails exactly as the read does |
| Framing.DecodeBlock | asocket.go:84-103 | a block read leaves a suffix of the stream unread |
| Framing.BlockDecodes | asocket.go:84-103 | a block read succeeds exactly when a 4-byte header parses to a length n >= 0 with n bytes after it; the result is those bytes NUL-trimmed, and the rest stays unread |
| Framing.DecodeStatus | asocket.go:106-120 | a stream under 4 bytes fails the code read; a `FAIL` code turns the rest of the stream into the error and consumes it; any other code is returned NUL-trimmed with the rest unread |
| Framing.EncodeFrameShape | asocket_io.go:30-31 | for messages up to 0xffff bytes the frame is 4 lower-case hex digits of the length, then the message: 4 + len bytes |
| Framing.FrameRoundTrip | asocket_io.go:30-52 | reading the frame of a message up to 0xffff bytes returns the message and consumes exactly its 4 + len bytes |
| Framing.FrameOverflow | asocket_io.go:27-30 | for lengths 0x10000 to 1048572 the frame is accepted with a 5-digit header, and the reader returns len / 16 bytes, not the message |
| Framing.FixedFrameRoundTrip | asocket_io.go:27-30 | the corrected limit accepts exactly the messages whose frame round-trips |
| Framing.NegativeHeaderPanics | asocket_io.go:44-48 | a header "-001" parses to -1, and both the frame read and the block read panic |
| Framing.BlockRoundTrip | asocket.go:84-102 | a block of any length up to 0xffff is read whole and NUL-trimmed; it is not clipped to 255, and the bytes after it stay unread |
| Framing.MessageTrimmed | asocket.go:71 | ReadMessage's result is a slice of what it read with only NULs cut away, has no NUL at either end, and is its own trim |
| Framing.NoNulTrim | asocket.go:71 | a code with no NUL at either end is its own trim |
| Framing.FailureUntrimmed | asocket.go:107 | `FAIL` survives the NUL trim |
| Framing.SuccessUntrimmed | asocket.go:107 | `OKAY` survives the NUL trim |
| Framing.StatusAfterCode | asocket.go:106-120 | after a 4-byte code, a failure drains the whole rest of the stream into the error, and any other code comes back trimmed with the rest unread |
| Framing.StatusFailureDrains | asocket.go:111-116 | a failure code fails with exactly the drained text and leaves nothing unread |
| Framing.StatusPassThrough | asocket.go:107-119 | any other code, unknown ones included, passes through trimmed and without error |
| Framing.StatusShort | asocket.go:107-109 | a stream shorter than 4 bytes fails the status read with 4 expected and the count available |
| Asocket.Asocket.constructor | asocket.go:24-26 | a socket over a stream starts with nothing written |
| Asocket.Asocket.ConnRead | asocket_io.go:73 | one connection read moves the next 1 or more bytes into the buffer at the cursor, reports EOF only on an empty stream, and fails only at a fault step |
| Asocket.Asocket.ConnWrite | asocket_io.go:59 | one connection write appends a non-empty prefix of the data, or fails at a fault step having written nothing |
| Asocket.Asocket.WriteConnExactly | asocket_io.go:56-66 | on success the written chunks add up to the buffer; on a failure a prefix of it stays written; without faults it succeeds |
| Asocket.Asocket.ReadConnExactly | asocket_io.go:69-80 | success returns the next `length` bytes and consumes just them; a read error drops the partial data; a negative length panics; without faults it succeeds exactly when the stream holds `length` bytes |
| Asocket.Asocket.SendProtocolString | asocket_io.go:25-35 | an over-long message is refused before anything is written; otherwise exactly the frame is written |
| Asocket.Asocket.ReadProtocolString | asocket_io.go:39-53 | reads the frame DecodeFrame describes: same result and same unread bytes on success, and always without faults |
| Asocket.Asocket.SendMessage | asocket.go:40-42 | the message bytes are written as they are, with no length prefix |
| Asocket.Asocket.Read | asocket.go:56-63 | success gives exactly n bytes; a short stream fails with n expected and the count that arrived; it matches ReadFullSpec |
| Asocket.Asocket.ReadMessage | asocket.go:66-72 | the exact read, NUL-trimmed; a short stream fails with n expected and the count that arrived; it matches ReadMessageSpec |
| Asocket.Asocket.ReadAll | asocket.go:75-81 | reads to the end of the stream and returns every byte; a broken stream fails and drops what it read |
| Asocket.Asocket.ReadBlock | asocket.go:84-103 | reads the block DecodeBlock describes, with no 255-byte clip |
| Asocket.Asocket.ReadStatus | asocket.go:106-120 | reads the status DecodeStatus describes: a passed-through code, or a failure carrying the drained text; a break during the code read fails with 4 expected and the count that arrived; a break during the drain fails only after a `FAIL` code |
| Asocket.Asocket.SendAndCheck | asocket.go:45-53 | the status is read only after the whole request went out; without faults it succeeds exactly when the status is not a failure |
| SocketSpec.ParseTcpSocketSpec | asocket_spec.go:14-41 | every error carries host "" and port -1; a success has a non-empty host without a colon |
| SocketSpec.ParseTcpSocketSpecFixed | asocket_spec.go:14-41 | the corrected parser's successes have a non-empty host without a colon and a port in 0..65535 |
| SocketSpec.PortTextRejected | asocket_spec.go:30-33 | the text the parser as written reads as the port still holds the host's colon, so the read always fails |
| SocketSpec.SpecSuccess | asocket_spec.go:15-28 | the parser as written succeeds exactly on `tcp:` followed by non-empty text without a colon, with that text as the host and port 5555 |
| SocketSpec.SpecErrors | asocket_spec.go:15-38 | no prefix is NotTcp; `tcp:` and `tcp::x` are EmptyHost; one colon after the host always gives a number error; two or more give Malformed |
| SocketSpec.SpecRangeUnreachable | asocket_spec.go:34-35 | the port range error never occurs |
| SocketSpec.SpecWithPort | asocket_spec.go:29-36 | `tcp:host:port` fails in the parser as written and parses to (host, port) in the corrected one |
| SocketSpec.AsWrittenWithPort | asocket_spec.go:29-33 | the parser as written, given `host:port` after the prefix, fails with a port parse error |
| SocketSpec.FixedWithPort | asocket_spec.go:29-40 | the corrected parser, given `host` and a decimal port in range after the prefix, returns them |
| SocketSpec.SpecWithoutPort | asocket_spec.go:27-28 | `tcp:host` parses to (host, 5555) in both parsers |
| Client.CheckServiceName | adb.go:21-22 | a rejected service name is reported with its length |
| Client.ServiceNameBounds | adb.go:21 | the guard admits exactly the names of 1 to 1048576 bytes |
| Client.GuardLooserThanFrame | adb.go:21 | names of 1048573 to 1048576 bytes pass the guard, but the frame limit refuses them |
| Client.Machine.NetDial | asocket.go:29-35 | a dial logs one attempt and gives the network's next answer |
| Client.Machine.Exec | adb.go:48 | a command run logs its path and arguments and gives the next output and exit status |
| Client.DialPlan | adb.go:27-42 | a Dial starts with a dial, and when it returns a connection its last attempt was a dial; a failed start is reported as a `%s` context around the trimmed output; it uses up a prefix of the dial and command answers |
| Client.DialBounded | adb.go:27-42 | one Dial makes one or two dials, all to the same address, and at most one server start; it starts the server only after a failed dial, and dials again only after the start succeeded |
| Client.DialUsesAnswers | adb.go:29-36 | one Dial uses up one dial answer per dial and one command answer per start, leaving the answers after them for later calls |
| Client.DialFirstSucceeds | adb.go:29-30 | when the first dial succeeds, that is the result and nothing else is attempted |
| Client.DialResultFromNetwork | adb.go:36-41 | a connection Dial returns was given by one of its two dials |
| Client.Adb.constructor | adb.go:14-17 | the client keeps its host, port and executable path |
| Client.Adb.Address | adb.go:28 | the address is the host, a colon, then the port |
| Client.AddressSplits | adb.go:28 | for a host without a colon, `host:port` splits back into the host and the decimal port |
| Client.Adb.StartServerArgs | adb.go:45-47 | the arguments are exactly `-L`, `tcp:<host>:<port>`, `start-server` |
| Client.Adb.StartServer | adb.go:44-53 | runs the executable once with those arguments; a failure carries the trimmed output |
| Client.Adb.Dial | adb.go:27-42 | the result, the logged attempts and the answers left over are those of DialPlan |
| Client.Adb.Command | adb.go:63-71 | runs the executable once with the arguments, and returns the trimmed output on success and on failure alike |
| Client.StartServerSpecParses | adb.go:46 | the `-L` spec StartServer passes is refused by the parser as written and read back as (host, port) by the corrected one |
| Client.CommandOutputTrimmed | adb.go:66 | Command's output is a slice of the raw output with only white space cut away, has none at either end, and is its own trim |

## Left out

- The network (`net.Dial`, `net.Conn`) is not part of this model. The connection is a byte stream plus oracle lists of steps. Each successful step moves at least one byte, and a read never returns bytes and an error together.
- Running programs (`exec.Command`, `CombinedOutput`) is not part of this model. Each run's combined output and exit status come from an oracle list.
- Oracle lists that run out: an exhausted read or write list moves as many bytes as fit, an exhausted dial list refuses, and an exhausted command list fails with no output.
- `Conn.Send` and `isFailureStatus` are not part of this model. `Send` is taken to be the exact write (WriteConnExactly), and a failure status is taken to be exactly `FAIL`.
- protocol.go and error.go are not part of this model. protocol.go holds the `Conn` methods `Request`, `Version` and `Host` (protocol.go:9-33), which do not compile; error.go declares an `Error` struct and an `Error()` method on the undefined type `RequestError`, which the core never uses.
- `Asocket.Connect` (asocket_spec.go:9-12) has an empty body, so there is nothing to model.
- `Adb.Connect` has no code after its length guard (adb.go:19-25). Only the guard is modelled.
- `Adb.Device` (adb.go:55-60) builds a value of an undefined type and is left out.
- The `dopts` options that adb.go reads are undefined. The client's host, port and executable path are constants of the `Adb` class instead.
- `Adb.Dial` returns the value of the package-level `Dial`, which has a different type than the declared result. The model returns a connection number.
- Logging and the wording of error messages are left out. Errors are modelled as kinds with their data.
- Client.Adb.Address: `%d` of the port and `%s` of the host are modelled, but the result is described only for hosts without a colon.
- Numbers.ParseInt: every failure is one `BadNumber` kind. strconv's syntax and range errors are not told apart.
- Bytes.TrimSpace: only ASCII white space is cut. Unicode white space is not modelled.
- Asocket.Asocket.ReadAll: `ioutil.ReadAll` grows its buffer as it goes; the model reads into one 512-byte chunk at a time. Only the result and the bytes consumed are stated.
- Asocket.Asocket.ReadStatus: when the stream breaks while the failure text is drained, the contract does not say how much of the text was consumed. DecodeStatus assumes no faults.
- The text of a `%s` context (`Described`) is not modelled. StartServer's message drops the exec error through `%s` (adb.go:50); its error carries only the trimmed output.
- Go's `int` is taken to be 64 bits wide, so `int(length)` after a 64-bit parse changes nothing.
- Concurrency: none exists in the source. Each connection has a single owner.

## Findings

| source | as written | input that shows it | evidently intended | confidence | as-written member | corrected member |
|---|---|---|---|---|---|---|
| asocket_io.go:27 | refuses only messages over `maxPayload - 4` = 1048572 bytes, but `%04x` prints five digits for lengths from 0x10000, and the reader takes four | any message of 65536 bytes: header `10000`, read back as length 0x1000 | refuse messages whose length does not fit in four hex digits (over 0xffff), so that every accepted frame round-trips | not executed | Framing.FrameOverflow | Framing.EncodeFrameFixed |
| asocket_spec.go:30 | the port is parsed from the whole `host:port` text rather than the port segment, into a newly declared variable that shadows the returned port | `tcp:localhost:5037` fails with a number error instead of giving (localhost, 5037) | parse the second segment into the returned port, then range-check it | not executed | SocketSpec.ParseTcpSocketSpec | SocketSpec.ParseTcpSocketSpecFixed |
