/** The smart-socket wire formats as pure functions on byte sequences:
    the length-prefixed string frame (a `%04x` length, then the payload),
    exact reads, the NUL-trimmed block and the 4-byte status code.
    Each `Decode...` function gives what the matching `Asocket` method returns,
    and the bytes it leaves unread, when the connection delivers its input
    without faults. */
module Framing {

  import opened Bytes
  import opened Errors
  import opened Numbers

  /** The largest payload the protocol allows: 1 MiB. */
  const MaxPayload: nat := 1024 * 1024

  const StatusSuccess: seq<byte> := [79, 75, 65, 89]  // "OKAY"
  const StatusFailure: seq<byte> := [70, 65, 73, 76]  // "FAIL"
  const StatusSyncData: seq<byte> := [68, 65, 84, 65]  // "DATA"
  const StatusSyncDone: seq<byte> := [68, 79, 78, 69]  // "DONE"
  const StatusDent: seq<byte> := [68, 69, 78, 84]  // "DENT"
  const StatusNone: seq<byte> := []

  /** isFailureStatus is not part of this model: a status is taken to be a
      failure exactly when it equals StatusFailure. */
  predicate IsFailureStatus(status: seq<byte>)
  {
    status == StatusFailure
  }

  /** What a read leaves behind: its result and the bytes still unread. */
  datatype Decoded<T> = Decoded(result: Result<T>, rest: seq<byte>)

  /** The frame SendProtocolString writes, as the source checks it: any
      message up to MaxPayload - 4 bytes is accepted, whatever width its
      `%04x` header takes. */
  function EncodeFrame(msg: seq<byte>): (r: Result<seq<byte>>)
    ensures r.Err? <==> |msg| > MaxPayload - 4
    ensures r.Err? ==> r.error == TooLong
    ensures r.Ok? ==> |r.value| >= 4 + |msg| && r.value[|r.value| - |msg|..] == msg
  {
    if |msg| > MaxPayload - 4 then Err(TooLong) else Ok(Hex04(|msg|) + msg)
  }

  /** The largest length four hex digits can carry. */
  const MaxFrameLength: nat := 0xffff

  /** The frame with the limit the four-digit header needs: messages longer
      than 0xffff bytes are refused. */
  function EncodeFrameFixed(msg: seq<byte>): (r: Result<seq<byte>>)
    ensures r.Err? ==> r.error == TooLong
  {
    if |msg| > MaxFrameLength then Err(TooLong) else Ok(Hex04(|msg|) + msg)
  }

  /** ReadProtocolString on a stream `s`: a 4-byte header read as base 16, then
      exactly that many payload bytes. */
  function DecodeFrame(s: seq<byte>): (r: Decoded<seq<byte>>)
    ensures |r.rest| <= |s| && r.rest == s[|s| - |r.rest|..]
    ensures r.result.Ok? ==>
      |s| >= 4 && s == s[..4] + r.result.value + r.rest
      && ParseInt(s[..4], 16, 64) == Ok(|r.result.value|)
  {
    if |s| < 4 then Decoded(Err(Wrapped(ReadLength, Io(Eof))), [])
    else
      match ParseInt(s[..4], 16, 64)
      case Err(e) => Decoded(Err(Wrapped(ParseLength, e)), s[4..])
      case Ok(n) =>
        if n < 0 then Decoded(Err(Panic), s[4..])
        else if |s| - 4 < n then Decoded(Err(Wrapped(ReadPayload, Io(Eof))), [])
        else
          assert s == s[..4] + s[4..4 + n] + s[4 + n..];
          Decoded(Ok(s[4..4 + n]), s[4 + n..])
  }

  /** io.ReadFull of `n` bytes from `s`: all `n` of them, or an error carrying
      the expected and the actual count. */
  function ReadFullSpec(s: seq<byte>, n: int): (r: Decoded<seq<byte>>)
    ensures r.result.Ok? ==> n >= 0 && |r.result.value| == n && s == r.result.value + r.rest
    ensures r.result.Err? && n < 0 ==> r.result.error == Panic && r.rest == s
    ensures r.result.Err? && n >= 0 ==>
      |s| < n && r.result.error.Incomplete? && r.result.error.expected == n
      && r.result.error.actual == |s| && r.rest == []
  {
    if n < 0 then Decoded(Err(Panic), s)
    else if |s| >= n then
      assert s == s[..n] + s[n..];
      Decoded(Ok(s[..n]), s[n..])
    else Decoded(Err(Incomplete(n, |s|, if s == [] then Eof else UnexpectedEof)), [])
  }

  /** ReadMessage(n): an exact read of `n` bytes with the NULs at both ends trimmed. */
  function ReadMessageSpec(s: seq<byte>, n: int): (r: Decoded<seq<byte>>)
    ensures r.result.Ok? ==> n >= 0 && n <= |s| && r.result.value == TrimNul(s[..n]) && r.rest == s[n..]
    ensures r.result.Err? ==> r.result == ReadFullSpec(s, n).result
  {
    var d := ReadFullSpec(s, n);
    if d.result.Err? then d else Decoded(Ok(TrimNul(d.result.value)), d.rest)
  }

  /** ReadBlock: a 4-byte base-16 length, then that many bytes, NUL-trimmed. */
  function DecodeBlock(s: seq<byte>): (r: Decoded<seq<byte>>)
    ensures |r.rest| <= |s| && r.rest == s[|s| - |r.rest|..]
  {
    var h := ReadFullSpec(s, 4);
    if h.result.Err? then Decoded(Err(Wrap(BlockLength, h.result.error)), h.rest)
    else
      match ParseInt(h.result.value, 16, 64)
      case Err(e) => Decoded(Err(Wrapped(BlockParse, e)), h.rest)
      case Ok(n) =>
        var m := ReadMessageSpec(h.rest, n);
        if m.result.Err? then Decoded(Err(Wrap(BlockRead, m.result.error)), m.rest) else m
  }

  /** A block read succeeds exactly when the stream holds a 4-byte header that
      parses to a length n >= 0 and at least n bytes after it; the result is
      those n bytes, NUL-trimmed, and the bytes after them stay unread. */
  lemma BlockDecodes(s: seq<byte>)
    ensures DecodeBlock(s).result.Ok? <==>
      |s| >= 4 && ParseInt(s[..4], 16, 64).Ok? && 0 <= ParseInt(s[..4], 16, 64).value <= |s| - 4
    ensures DecodeBlock(s).result.Ok? ==>
      var n := ParseInt(s[..4], 16, 64).value;
      DecodeBlock(s) == Decoded(Ok(TrimNul(s[4..4 + n])), s[4 + n..])
  {
    if |s| >= 4 {
      var h := ReadFullSpec(s, 4);
      assert h == Decoded(Ok(s[..4]), s[4..]);
      match ParseInt(s[..4], 16, 64)
      case Err(_) =>
      case Ok(n) =>
        if 0 <= n <= |s| - 4 {
          assert s[4..][..n] == s[4..4 + n] && s[4..][n..] == s[4 + n..];
          assert ReadMessageSpec(s[4..], n) == Decoded(Ok(TrimNul(s[4..4 + n])), s[4 + n..]);
        } else {
          assert ReadMessageSpec(s[4..], n).result.Err?;
        }
    }
  }

  /** ReadStatus: a 4-byte code, NUL-trimmed. A failure code drains the stream
      and turns what it held into the error; any other code is returned. */
  function DecodeStatus(s: seq<byte>): (r: Decoded<seq<byte>>)
    ensures |s| < 4 ==> r == Decoded(Err(Wrapped(ReadingStatus, ReadFullSpec(s, 4).result.error)), [])
    ensures |s| >= 4 && IsFailureStatus(TrimNul(s[..4])) ==> r == Decoded(Err(Remote(s[4..])), [])
    ensures |s| >= 4 && !IsFailureStatus(TrimNul(s[..4])) ==> r == Decoded(Ok(TrimNul(s[..4])), s[4..])
  {
    var st := ReadMessageSpec(s, 4);
    if st.result.Err? then Decoded(Err(Wrap(ReadingStatus, st.result.error)), st.rest)
    else if IsFailureStatus(st.result.value) then Decoded(Err(Remote(st.rest)), [])
    else st
  }

  /** For a message of at most 0xffff bytes the frame is exactly four lower-case,
      zero-padded hex digits of its length, then the message. */
  lemma EncodeFrameShape(msg: seq<byte>)
    requires |msg| <= MaxFrameLength
    ensures EncodeFrame(msg).Ok?
    ensures var frame := EncodeFrame(msg).value;
      |frame| == 4 + |msg| && frame[4..] == msg
      && (forall i :: 0 <= i < 4 ==> IsLowerHex(frame[i]))
      && ParseInt(frame[..4], 16, 64) == Ok(|msg|)
  {
    Hex04RoundTrip(|msg|);
    var frame := Hex04(|msg|) + msg;
    assert frame[..4] == Hex04(|msg|);
  }

  /** A frame of a message of at most 0xffff bytes reads back as the message
      and consumes exactly its 4 + |msg| bytes. */
  lemma FrameRoundTrip(msg: seq<byte>, rest: seq<byte>)
    requires |msg| <= MaxFrameLength
    ensures EncodeFrame(msg).Ok?
    ensures DecodeFrame(EncodeFrame(msg).value + rest) == Decoded(Ok(msg), rest)
  {
    EncodeFrameShape(msg);
    var s := EncodeFrame(msg).value + rest;
    assert s[..4] == EncodeFrame(msg).value[..4];
    assert s[4..4 + |msg|] == msg && s[4 + |msg|..] == rest;
  }

  /** The limit as written lets through messages of 0x10000 to MaxPayload - 4
      bytes; their header has five digits, the reader takes the first four as
      a length sixteen times too small, and the message does not come back. */
  lemma FrameOverflow(msg: seq<byte>, rest: seq<byte>)
    requires MaxFrameLength < |msg| <= MaxPayload - 4
    ensures EncodeFrame(msg).Ok? && |EncodeFrame(msg).value| == 5 + |msg|
    ensures var d := DecodeFrame(EncodeFrame(msg).value + rest);
      d.result.Ok? && |d.result.value| == |msg| / 16 && d.result != Ok(msg)
  {
    Hex04Overflow(|msg|);
    var frame := EncodeFrame(msg).value;
    var s := frame + rest;
    assert s[..4] == Hex04(|msg|)[..4];
  }

  /** The fixed limit accepts exactly the messages whose frame round-trips. */
  lemma FixedFrameRoundTrip(msg: seq<byte>, rest: seq<byte>)
    ensures EncodeFrameFixed(msg).Ok? <==> |msg| <= MaxFrameLength
    ensures EncodeFrameFixed(msg).Ok? ==>
      EncodeFrameFixed(msg) == EncodeFrame(msg)
      && DecodeFrame(EncodeFrameFixed(msg).value + rest) == Decoded(Ok(msg), rest)
  {
    if |msg| <= MaxFrameLength {
      FrameRoundTrip(msg, rest);
    }
  }

  /** A header with a minus sign parses to a negative length, and the payload
      buffer cannot be made: "-001" panics instead of failing. */
  lemma NegativeHeaderPanics(rest: seq<byte>)
    ensures DecodeFrame(Ascii("-001") + rest).result == Err(Panic)
    ensures DecodeBlock(Ascii("-001") + rest).result == Err(Panic)
  {
    var h := Ascii("-001");
    var s := h + rest;
    assert s[..4] == h;
    var digits := h[1..];
    assert digits == [48, 48, 49];
    assert digits[..2] == [48, 48] && digits[..2][..1] == [48] && digits[..2][..1][..0] == [];
    assert DigitsValue([48], 16) == 0;
    assert DigitsValue([48, 48], 16) == 0;
    assert DigitsValue(digits, 16) == 1;
    assert ParseInt(h, 16, 64) == Ok(-1);
  }

  /** No clipping to 255 bytes: a block of any length up to 0xffff is read whole,
      NUL-trimmed, and the bytes after it are left unread. */
  lemma BlockRoundTrip(payload: seq<byte>, rest: seq<byte>)
    requires |payload| <= MaxFrameLength
    ensures DecodeBlock(Hex04(|payload|) + payload + rest) == Decoded(Ok(TrimNul(payload)), rest)
  {
    Hex04RoundTrip(|payload|);
    var s := Hex04(|payload|) + payload + rest;
    assert s[..4] == Hex04(|payload|);
    assert s[4..] == payload + rest;
    assert (payload + rest)[..|payload|] == payload;
    assert (payload + rest)[|payload|..] == rest;
  }

  /** What ReadMessage returns for the bytes `raw` it read: a slice of `raw`
      with only NULs cut from either end, neither starting nor ending with a
      NUL, and unchanged by a second trim. */
  lemma MessageTrimmed(raw: seq<byte>)
    ensures var msg := TrimNul(raw);
      (msg == [] || (msg[0] != Nul && msg[|msg| - 1] != Nul))
      && IsTrimOf(msg, raw, {Nul})
      && TrimNul(msg) == msg
  {
    TrimIdempotent(raw, {Nul});
  }

  /** A code that neither starts nor ends with NUL is its own trim. */
  lemma NoNulTrim(code: seq<byte>)
    requires |code| > 0 && code[0] != Nul && code[|code| - 1] != Nul
    ensures TrimNul(code) == code
  {
    assert code[..0] == [] && code[|code|..] == [];
    TrimShape(code, {Nul}, 0, |code|);
  }

  /** Neither OKAY nor FAIL starts or ends with NUL, so trimming leaves them as they are. */
  lemma FailureUntrimmed()
    ensures TrimNul(StatusFailure) == StatusFailure
  {
    NoNulTrim(StatusFailure);
  }

  lemma SuccessUntrimmed()
    ensures TrimNul(StatusSuccess) == StatusSuccess
  {
    NoNulTrim(StatusSuccess);
  }

  /** After a full 4-byte code, a code that trims to FAIL drains the rest of
      the stream and fails with exactly that text; any other code, known or
      not, is returned NUL-trimmed, without error, and nothing after it is read. */
  lemma StatusAfterCode(code: seq<byte>, rest: seq<byte>)
    requires |code| == 4
    ensures DecodeStatus(code + rest) ==
      if IsFailureStatus(TrimNul(code)) then Decoded(Err(Remote(rest)), [])
      else Decoded(Ok(TrimNul(code)), rest)
  {
    var s := code + rest;
    assert s[..4] == code && s[4..] == rest;
  }

  /** A failure code (FAIL itself, by FailureUntrimmed) drains the rest of the
      stream and fails with exactly that text. */
  lemma StatusFailureDrains(code: seq<byte>, reply: seq<byte>)
    requires |code| == 4 && IsFailureStatus(TrimNul(code))
    ensures DecodeStatus(code + reply) == Decoded(Err(Remote(reply)), [])
  {
    StatusAfterCode(code, reply);
  }

  /** Any other 4-byte code, known or not, is returned NUL-trimmed without error,
      and nothing after it is read. */
  lemma StatusPassThrough(code: seq<byte>, rest: seq<byte>)
    requires |code| == 4 && !IsFailureStatus(TrimNul(code))
    ensures DecodeStatus(code + rest) == Decoded(Ok(TrimNul(code)), rest)
  {
    StatusAfterCode(code, rest);
  }

  /** A stream that ends after `k` < 4 bytes fails the status read, reporting
      4 expected and `k` read. */
  lemma StatusShort(s: seq<byte>)
    requires |s| < 4
    ensures DecodeStatus(s).result
      == Err(Wrapped(ReadingStatus, Incomplete(4, |s|, if s == [] then Eof else UnexpectedEof)))
  {
  }
}
