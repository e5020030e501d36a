/** The client end of one smart-socket connection.

    The TCP stream is modelled as the bytes the server will still deliver
    (`input`, consumed from the front) and the bytes written so far
    (`output`, appended at the back). How many bytes each `Read` or `Write`
    call of the connection moves, and whether it fails, comes from two oracle
    lists of steps; once a list is used up, every call moves as much as it can.

    One class stands for both the `Asocket` and the `Conn` wrappers of the
    source: both hold the same `net.Conn`. */
module Asocket {

  import opened Bytes
  import opened Errors
  import opened Numbers
  import opened Framing

  type ChunkSize = n: nat | 1 <= n witness 1

  /** What the peer does on one `Read` or `Write` call: move at most `size`
      bytes, or fail. A call that does not fail moves at least one byte. */
  datatype Step = Chunk(size: ChunkSize) | Fault

  predicate NoFault(steps: seq<Step>)
  {
    forall i :: 0 <= i < |steps| ==> steps[i].Chunk?
  }

  predicate IsSuffix(t: seq<byte>, s: seq<byte>)
  {
    |t| <= |s| && t == s[|s| - |t|..]
  }

  /** An exact write of `buf` turned `before` into `after`: all of `buf` was
      appended, or it failed part-way with a prefix of `buf` appended. */
  predicate WroteExactly(before: seq<byte>, after: seq<byte>, buf: seq<byte>, r: Outcome)
  {
    match r
    case Pass => after == before + buf
    case Fail(e) =>
      e == Io(Broken) && |before| <= |after| < |before| + |buf|
      && after == before + buf[..|after| - |before|]
  }

  lemma StatusAfterMessage(s: seq<byte>, code: seq<byte>, rest: seq<byte>)
    requires ReadMessageSpec(s, 4) == Decoded(Ok(code), rest)
    ensures DecodeStatus(s) ==
      if IsFailureStatus(code) then Decoded(Err(Remote(rest)), []) else Decoded(Ok(code), rest)
  {
  }

  lemma StatusAfterError(s: seq<byte>)
    requires ReadMessageSpec(s, 4).result.Err?
    ensures DecodeStatus(s) ==
      Decoded(Err(Wrap(ReadingStatus, ReadMessageSpec(s, 4).result.error)), ReadMessageSpec(s, 4).rest)
  {
  }

  function Min3(a: nat, b: nat, c: nat): (m: nat)
    ensures m <= a && m <= b && m <= c && (m == a || m == b || m == c)
  {
    if a <= b && a <= c then a else if b <= c then b else c
  }

  class Asocket {
    var input: seq<byte>
    var output: seq<byte>
    var readSteps: seq<Step>
    var writeSteps: seq<Step>

    constructor (input: seq<byte>, readSteps: seq<Step>, writeSteps: seq<Step>)
      ensures this.input == input && this.readSteps == readSteps
      ensures this.writeSteps == writeSteps && output == []
    {
      this.input := input;
      this.output := [];
      this.readSteps := readSteps;
      this.writeSteps := writeSteps;
    }

    /** `conn.Read(buf[from:])`: fills buf[from..from + n] with the next
        n >= 1 bytes of the stream, or reports EOF once the stream is empty,
        or fails as the oracle says. */
    method ConnRead(buf: array<byte>, from: nat) returns (n: nat, err: Option<IoError>)
      requires from < buf.Length
      modifies this`input, this`readSteps, buf
      ensures err.None? ==>
        1 <= n <= buf.Length - from && n <= |old(input)|
        && buf[from..from + n] == old(input)[..n] && input == old(input)[n..]
      ensures err.Some? ==> n == 0 && input == old(input)
      ensures err == Some(Eof) ==> old(input) == []
      ensures err == Some(Broken) ==> !NoFault(old(readSteps))
      ensures err != Some(UnexpectedEof)
      ensures buf[..from] == old(buf[..from])
      ensures NoFault(old(readSteps)) ==> NoFault(readSteps)
    {
      var step := if readSteps == [] then Chunk(buf.Length - from) else readSteps[0];
      if step.Fault? {
        readSteps := readSteps[1..];
        return 0, Some(Broken);
      }
      if input == [] {
        return 0, Some(Eof);
      }
      n := Min3(step.size, buf.Length - from, |input|);
      forall i | from <= i < from + n {
        buf[i] := input[i - from];
      }
      input := input[n..];
      if readSteps != [] {
        readSteps := readSteps[1..];
      }
      err := None;
    }

    /** `conn.Write(data)`: appends the first n >= 1 bytes of `data` to the
        stream, or fails as the oracle says. */
    method ConnWrite(data: seq<byte>) returns (n: nat, err: Option<IoError>)
      requires |data| >= 1
      modifies this`output, this`writeSteps
      ensures err.None? ==> 1 <= n <= |data| && output == old(output) + data[..n]
      ensures err.Some? ==> err == Some(Broken) && n == 0 && output == old(output)
      ensures err.Some? ==> !NoFault(old(writeSteps))
      ensures NoFault(old(writeSteps)) ==> NoFault(writeSteps)
    {
      var step := if writeSteps == [] then Chunk(|data|) else writeSteps[0];
      if writeSteps != [] {
        writeSteps := writeSteps[1..];
      }
      if step.Fault? {
        return 0, Some(Broken);
      }
      n := if step.size < |data| then step.size else |data|;
      output := output + data[..n];
      err := None;
    }

    /** WriteConnExactly: hands the connection the rest of `buf` until all of it
        is written. On success the chunks written add up to `buf`; on a write
        error what was written so far stays written. */
    method WriteConnExactly(buf: seq<byte>) returns (r: Outcome)
      modifies this`output, this`writeSteps
      ensures WroteExactly(old(output), output, buf, r)
      ensures NoFault(old(writeSteps)) ==> r == Pass && NoFault(writeSteps)
    {
      var p := 0;
      while p < |buf|
        invariant 0 <= p <= |buf|
        invariant output == old(output) + buf[..p]
        invariant NoFault(old(writeSteps)) ==> NoFault(writeSteps)
        decreases |buf| - p
      {
        var n, err := ConnWrite(buf[p..]);
        if err.Some? {
          return Fail(Io(err.value));
        }
        assert buf[..p + n] == buf[..p] + buf[p..][..n];
        p := p + n;
      }
      assert buf[..p] == buf;
      return Pass;
    }

    /** ReadConnExactly: reads until `length` bytes have arrived. A read error
        discards whatever had arrived; a negative length panics. */
    method ReadConnExactly(length: int) returns (r: Result<seq<byte>>)
      modifies this`input, this`readSteps
      ensures IsSuffix(input, old(input))
      ensures r.Ok? ==>
        0 <= length <= |old(input)| && r.value == old(input)[..length]
        && input == old(input)[length..]
      ensures r.Err? && length < 0 ==>
        r.error == Panic && input == old(input) && readSteps == old(readSteps)
      ensures r.Err? && length >= 0 ==>
        (r.error == Io(Eof) || r.error == Io(Broken)) && |old(input)| - |input| < length
      ensures NoFault(old(readSteps)) ==> NoFault(readSteps)
      ensures NoFault(old(readSteps)) && length >= 0 ==>
        (r.Ok? <==> length <= |old(input)|) && (r.Err? ==> r.error == Io(Eof) && input == [])
    {
      if length < 0 {
        return Err(Panic);
      }
      var buf := new byte[length];
      var p := 0;
      while p < length
        invariant 0 <= p <= length && p <= |old(input)|
        invariant buf[..p] == old(input)[..p]
        invariant input == old(input)[p..]
        invariant NoFault(old(readSteps)) ==> NoFault(readSteps)
        decreases length - p
      {
        var n, err := ConnRead(buf, p);
        if err.Some? {
          assert err.value == Eof || err.value == Broken;
          return Err(Io(err.value));
        }
        assert old(input)[p..][..n] == old(input)[p..p + n];
        assert buf[..p + n] == buf[..p] + buf[p..p + n];
        assert old(input)[..p + n] == old(input)[..p] + old(input)[p..p + n];
        p := p + n;
      }
      assert buf[..] == buf[..p];
      return Ok(buf[..]);
    }

    /** SendProtocolString: refuses a message over MaxPayload - 4 bytes before
        writing anything; otherwise writes the `%04x` length and the message in
        one exact write. */
    method SendProtocolString(msg: seq<byte>) returns (r: Outcome)
      modifies this`output, this`writeSteps
      ensures EncodeFrame(msg).Err? ==>
        r == Fail(TooLong) && output == old(output) && writeSteps == old(writeSteps)
      ensures EncodeFrame(msg).Ok? ==> WroteExactly(old(output), output, EncodeFrame(msg).value, r)
      ensures NoFault(old(writeSteps)) && EncodeFrame(msg).Ok? ==> r == Pass
    {
      var length := |msg|;
      if length > MaxPayload - 4 {
        return Fail(TooLong);
      }
      var frame := Hex04(length) + msg;
      r := WriteConnExactly(frame);
    }

    /** ReadProtocolString: a 4-byte header parsed as base 16, then exactly that
        many bytes. A successful read is what DecodeFrame gives, and without
        faults so is every failure. */
    method ReadProtocolString() returns (r: Result<seq<byte>>)
      modifies this`input, this`readSteps
      ensures IsSuffix(input, old(input))
      ensures r.Ok? || NoFault(old(readSteps)) ==> Decoded(r, input) == DecodeFrame(old(input))
    {
      var header := ReadConnExactly(4);
      if header.Err? {
        return Err(Wrap(ReadLength, header.error));
      }
      var length := ParseInt(header.value, 16, 64);
      if length.Err? {
        return Err(Wrapped(ParseLength, length.error));
      }
      var payload := ReadConnExactly(length.value);
      if payload.Err? {
        return Err(Wrap(ReadPayload, payload.error));
      }
      assert old(input)[..4] == header.value;
      assert old(input)[4..][..length.value] == old(input)[4..4 + length.value];
      return Ok(payload.value);
    }
  
    /** SendMessage: Conn.Send is not part of this model; it is taken to be the
        exact write of the message bytes. */
    method SendMessage(msg: seq<byte>) returns (r: Outcome)
      modifies this`output, this`writeSteps
      ensures WroteExactly(old(output), output, msg, r)
      ensures NoFault(old(writeSteps)) ==> r == Pass
    {
      r := WriteConnExactly(msg);
    }

    /** Read(n): io.ReadFull into a fresh n-byte buffer. It fails when the
        stream ends or breaks first, reporting n and the count that arrived;
        the end of the stream after some bytes is an unexpected EOF. */
    method Read(n: int) returns (r: Result<seq<byte>>)
      modifies this`input, this`readSteps
      ensures IsSuffix(input, old(input))
      ensures n < 0 ==> r == Err(Panic) && input == old(input) && readSteps == old(readSteps)
      ensures r.Err? && n >= 0 ==>
        r.error.Incomplete? && r.error.expected == n && r.error.actual < n
        && |old(input)| - |input| == r.error.actual
      ensures r.Ok? || NoFault(old(readSteps)) ==> Decoded(r, input) == ReadFullSpec(old(input), n)
      ensures NoFault(old(readSteps)) ==> NoFault(readSteps)
    {
      if n < 0 {
        return Err(Panic);
      }
      var b := new byte[n];
      var got := 0;
      while got < n
        invariant 0 <= got <= n && got <= |old(input)|
        invariant b[..got] == old(input)[..got]
        invariant input == old(input)[got..]
        invariant NoFault(old(readSteps)) ==> NoFault(readSteps)
        decreases n - got
      {
        var k, err := ConnRead(b, got);
        if err.Some? {
          var cause := if err.value == Eof && got > 0 then UnexpectedEof else err.value;
          return Err(Incomplete(n, got, cause));
        }
        assert old(input)[got..][..k] == old(input)[got..got + k];
        assert b[..got + k] == b[..got] + b[got..got + k];
        assert old(input)[..got + k] == old(input)[..got] + old(input)[got..got + k];
        got := got + k;
      }
      assert b[..] == b[..got];
      return Ok(b[..]);
    }

    /** ReadMessage(n): Read(n) with the NULs at both ends trimmed. */
    method ReadMessage(n: int) returns (r: Result<seq<byte>>)
      modifies this`input, this`readSteps
      ensures IsSuffix(input, old(input))
      ensures n < 0 ==> r == Err(Panic) && input == old(input) && readSteps == old(readSteps)
      ensures r.Err? && n >= 0 ==>
        r.error.Incomplete? && r.error.expected == n && r.error.actual < n
        && |old(input)| - |input| == r.error.actual
      ensures r.Ok? || NoFault(old(readSteps)) ==> Decoded(r, input) == ReadMessageSpec(old(input), n)
      ensures NoFault(old(readSteps)) ==> NoFault(readSteps)
    {
      var b := Read(n);
      if b.Err? {
        return Err(b.error);
      }
      return Ok(TrimNul(b.value));
    }

    /** ReadAll: ioutil.ReadAll, reading until the stream ends. Reaching the end
        is success with every byte that arrived; a broken stream fails and the
        bytes read so far are dropped. */
    method ReadAll() returns (r: Result<seq<byte>>)
      modifies this`input, this`readSteps
      ensures IsSuffix(input, old(input))
      ensures r.Ok? ==> r.value == old(input) && input == []
      ensures r.Err? ==> r.error == Wrapped(UntilEof, Io(Broken)) && !NoFault(old(readSteps))
      ensures NoFault(old(readSteps)) ==> r == Ok(old(input)) && NoFault(readSteps)
    {
      var chunk := new byte[512];
      var data := [];
      while true
        invariant data + input == old(input)
        invariant NoFault(old(readSteps)) ==> NoFault(readSteps)
        decreases |input|
      {
        var k, err := ConnRead(chunk, 0);
        if err == Some(Eof) {
          return Ok(data);
        }
        if err.Some? {
          assert err.value == Broken;
          return Err(Wrapped(UntilEof, Io(err.value)));
        }
        assert old(input) == data + chunk[..k] + input by {
          assert chunk[0..k] == chunk[..k];
        }
        data := data + chunk[..k];
      }
    }

    /** ReadBlock: a 4-byte length read as base 16, then a NUL-trimmed message
        of that length, however long; nothing clips it to 255 bytes. */
    method ReadBlock() returns (r: Result<seq<byte>>)
      modifies this`input, this`readSteps
      ensures IsSuffix(input, old(input))
      ensures r.Ok? || NoFault(old(readSteps)) ==> Decoded(r, input) == DecodeBlock(old(input))
    {
      var lengthHex := Read(4);
      if lengthHex.Err? {
        return Err(Wrap(BlockLength, lengthHex.error));
      }
      var length := ParseInt(lengthHex.value, 16, 64);
      if length.Err? {
        return Err(Wrapped(BlockParse, length.error));
      }
      var msg := ReadMessage(length.value);
      if msg.Err? {
        return Err(Wrap(BlockRead, msg.error));
      }
      return Ok(msg.value);
    }

    /** ReadStatus: a 4-byte, NUL-trimmed status code. A failure code is followed
        by the server's reason, read to the end of the stream and returned as
        the error; any other code is returned as it is. */
    method ReadStatus() returns (r: Result<seq<byte>>)
      modifies this`input, this`readSteps
      ensures IsSuffix(input, old(input))
      ensures r.Ok? || r.error.Remote? || NoFault(old(readSteps)) ==>
        Decoded(r, input) == DecodeStatus(old(input))
      ensures r.Err? && !r.error.Remote? && |old(input)| - |input| < 4 ==>
        r.error.Wrapped? && r.error.stage == ReadingStatus && r.error.inner.Incomplete?
        && r.error.inner.expected == 4 && r.error.inner.actual == |old(input)| - |input|
      ensures r.Err? && !r.error.Remote? && |old(input)| - |input| >= 4 ==>
        r.error == Wrapped(ReadingReply, Wrapped(UntilEof, Io(Broken)))
        && IsFailureStatus(TrimNul(old(input)[..4])) && !NoFault(old(readSteps))
    {
      var status := ReadMessage(4);
      if status.Err? {
        if NoFault(old(readSteps)) {
          StatusAfterError(old(input));
        }
        return Err(Wrap(ReadingStatus, status.error));
      }
      StatusAfterMessage(old(input), status.value, input);
      if IsFailureStatus(status.value) {
        var msg := ReadAll();
        if msg.Err? {
          return Err(Wrapped(ReadingReply, msg.error));
        }
        return Err(Remote(msg.value));
      }
      return Ok(status.value);
    }

    /** SendAndCheck: sends the request, then reads its status. The status is
        read only when the whole request went out; the result is the status
        check's, whatever code came back other than a failure. */
    method SendAndCheck(msg: seq<byte>) returns (r: Outcome)
      modifies this
      ensures output != old(output) + msg ==>
        r.Fail? && input == old(input) && readSteps == old(readSteps)
      ensures |old(output)| <= |output| <= |old(output)| + |msg|
      ensures output == old(output) + msg[..|output| - |old(output)|]
      ensures r.Pass? ==>
        DecodeStatus(old(input)).result.Ok? && input == DecodeStatus(old(input)).rest
      ensures NoFault(old(writeSteps)) && NoFault(old(readSteps)) ==>
        output == old(output) + msg
        && r == (match DecodeStatus(old(input)).result case Ok(_) => Pass case Err(e) => Fail(e))
        && input == DecodeStatus(old(input)).rest
    {
      var sent := SendMessage(msg);
      if sent.Fail? {
        return sent;
      }
      var status := ReadStatus();
      if status.Err? {
        return Fail(status.error);
      }
      return Pass;
    }
}
}
