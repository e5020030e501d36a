/** parseTcpSocketSpec: splits a `tcp:<host>[:<port>]` socket spec into its
    host and port. `ParseTcpSocketSpec` follows the code as it is written, in
    which a spec with a port can never be parsed; `ParseTcpSocketSpecFixed`
    parses the port segment into the port it returns. */
module SocketSpec {

  import opened Bytes
  import opened Errors
  import opened Numbers

  /** The port a spec without one gets. */
  const DefaultAdbLocalTransportPort: int := 5555

  const TcpPrefix: seq<byte> := [116, 99, 112, 58]  // "tcp:"

  /** The host, the port and the error the parser returns together. */
  datatype SpecResult = SpecResult(host: seq<byte>, port: int, err: Option<Error>)

  function SpecError(e: Error): SpecResult
  {
    SpecResult([], -1, Some(e))
  }

  /** The parser as written. In the two-segment branch the port is parsed from
      the whole `host:port` text, into a new variable that shadows the port
      the function returns; that text holds a colon, so the parse always fails. */
  function ParseTcpSocketSpec(spec: seq<byte>): (r: SpecResult)
    ensures r.err.Some? ==> r.host == [] && r.port == -1
    ensures r.err.None? ==> r.host != [] && Colon !in r.host
  {
    if !HasPrefix(spec, TcpPrefix) then SpecError(NotTcp)
    else
      var addr := spec[4..];
      var hostAndPort := Split(addr, Colon);
      var hostname := hostAndPort[0];
      if hostname == [] then SpecError(EmptyHost)
      else if |hostAndPort| == 1 then SpecResult(hostname, DefaultAdbLocalTransportPort, None)
      else if |hostAndPort| == 2 then
        match ParseInt(addr, 10, 32)
        case Err(e) => SpecError(Wrapped(ParsePort, e))
        case Ok(port) =>
          // the outer port keeps its zero value
          if port < 0 || port > 65535 then SpecError(PortRange(port)) else SpecResult(hostname, 0, None)
      else SpecError(Malformed)
  }

  /** The parser with the port taken from the second segment and returned. */
  function ParseTcpSocketSpecFixed(spec: seq<byte>): (r: SpecResult)
    ensures r.err.Some? ==> r.host == [] && r.port == -1
    ensures r.err.None? ==> r.host != [] && Colon !in r.host && 0 <= r.port <= 65535
  {
    if !HasPrefix(spec, TcpPrefix) then SpecError(NotTcp)
    else
      var hostAndPort := Split(spec[4..], Colon);
      var hostname := hostAndPort[0];
      if hostname == [] then SpecError(EmptyHost)
      else if |hostAndPort| == 1 then SpecResult(hostname, DefaultAdbLocalTransportPort, None)
      else if |hostAndPort| == 2 then
        match ParseInt(hostAndPort[1], 10, 32)
        case Err(e) => SpecError(Wrapped(ParsePort, e))
        case Ok(port) =>
          if port < 0 || port > 65535 then SpecError(PortRange(port)) else SpecResult(hostname, port, None)
      else SpecError(Malformed)
  }

  /** The whole `host:port` text the parser as written reads as a number holds
      the colon, so the read always fails. */
  lemma PortTextRejected(addr: seq<byte>)
    requires addr != [] && addr[0] != Colon && Colon in addr
    ensures ParseInt(addr, 10, 32) == Err(BadNumber)
  {
    ParseIntRejects(addr, 10, 32, IndexOf(addr, Colon));
  }

  /** The parser as written succeeds exactly on `tcp:` followed by a non-empty
      text without a colon; it returns that text as the host and the default port. */
  lemma SpecSuccess(spec: seq<byte>)
    ensures ParseTcpSocketSpec(spec).err.None? <==>
      HasPrefix(spec, TcpPrefix) && spec[4..] != [] && Colon !in spec[4..]
    ensures ParseTcpSocketSpec(spec).err.None? ==>
      ParseTcpSocketSpec(spec) == SpecResult(spec[4..], DefaultAdbLocalTransportPort, None)
  {
    if HasPrefix(spec, TcpPrefix) {
      var addr := spec[4..];
      if Colon !in addr {
        SplitNone(addr, Colon);
      } else if addr[0] != Colon {
        PortTextRejected(addr);
      }
    }
  }

  /** Which error the parser as written reports: no `tcp:` prefix; an empty
      host, also when a colon follows the prefix at once; a bad number when
      there is exactly one colon after the host, whatever follows it; and a
      malformed spec for two colons or more. */
  lemma SpecErrors(spec: seq<byte>)
    ensures !HasPrefix(spec, TcpPrefix) ==> ParseTcpSocketSpec(spec) == SpecError(NotTcp)
    ensures HasPrefix(spec, TcpPrefix) && (spec[4..] == [] || spec[4] == Colon) ==>
      ParseTcpSocketSpec(spec) == SpecError(EmptyHost)
    ensures HasPrefix(spec, TcpPrefix) && spec[4..] != [] && spec[4] != Colon ==>
      (Count(spec[4..], Colon) == 1 ==>
        ParseTcpSocketSpec(spec) == SpecError(Wrapped(ParsePort, BadNumber)))
      && (Count(spec[4..], Colon) >= 2 ==> ParseTcpSocketSpec(spec) == SpecError(Malformed))
  {
    if HasPrefix(spec, TcpPrefix) {
      var addr := spec[4..];
      if addr == [] {
        SplitNone(addr, Colon);
      } else if addr[0] == Colon {
        IndexOfFirst(addr, Colon, 0);
      } else if Colon in addr {
        PortTextRejected(addr);
      }
    }
  }

  /** The parser as written can never report a port out of range. */
  lemma SpecRangeUnreachable(spec: seq<byte>)
    ensures !ParseTcpSocketSpec(spec).err.Some? || !ParseTcpSocketSpec(spec).err.value.PortRange?
  {
    if HasPrefix(spec, TcpPrefix) {
      var addr := spec[4..];
      if addr != [] && addr[0] != Colon && Colon in addr {
        PortTextRejected(addr);
      }
    }
  }

  /** `tcp:<host>:<port>` with a valid host and port: the parser as written
      fails to read the port, and the fixed parser returns the host and port. */
  lemma SpecWithPort(host: seq<byte>, port: int)
    requires host != [] && Colon !in host && 0 <= port <= 65535
    ensures ParseTcpSocketSpec(TcpPrefix + host + [Colon] + FormatInt(port))
      == SpecError(Wrapped(ParsePort, BadNumber))
    ensures ParseTcpSocketSpecFixed(TcpPrefix + host + [Colon] + FormatInt(port))
      == SpecResult(host, port, None)
  {
    var digits := FormatInt(port);
    var spec := TcpPrefix + host + [Colon] + digits;
    var addr := host + [Colon] + digits;
    assert HasPrefix(spec, TcpPrefix) && spec[4..] == addr by {
      assert spec[..4] == TcpPrefix;
    }
    FormatIntNoColon(port);
    SplitTwo(host, Colon, digits);
    AsWrittenWithPort(spec, addr, host, digits);
    FixedWithPort(spec, host, port, digits);
  }

  lemma AsWrittenWithPort(spec: seq<byte>, addr: seq<byte>, host: seq<byte>, digits: seq<byte>)
    requires HasPrefix(spec, TcpPrefix) && spec[4..] == addr && host != []
    requires Split(addr, Colon) == [host, digits] && addr == host + [Colon] + digits
    ensures ParseTcpSocketSpec(spec) == SpecError(Wrapped(ParsePort, BadNumber))
  {
    assert addr[|host|] == Colon;
    PortTextRejected(addr);
  }

  lemma FixedWithPort(spec: seq<byte>, host: seq<byte>, port: int, digits: seq<byte>)
    requires HasPrefix(spec, TcpPrefix) && host != [] && 0 <= port <= 65535
    requires digits == FormatInt(port) && Split(spec[4..], Colon) == [host, digits]
    ensures ParseTcpSocketSpecFixed(spec) == SpecResult(host, port, None)
  {
    FormatIntRoundTrip(port, 32);
  }

  /** `tcp:<host>` with a host without a colon parses to the host and the
      default port, in both parsers. */
  lemma SpecWithoutPort(host: seq<byte>)
    requires host != [] && Colon !in host
    ensures ParseTcpSocketSpec(TcpPrefix + host) == SpecResult(host, DefaultAdbLocalTransportPort, None)
    ensures ParseTcpSocketSpecFixed(TcpPrefix + host) == ParseTcpSocketSpec(TcpPrefix + host)
  {
    var spec := TcpPrefix + host;
    assert spec[..4] == TcpPrefix && spec[4..] == host;
    SplitNone(host, Colon);
  }
}
