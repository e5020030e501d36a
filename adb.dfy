/** The client bootstrap: the service-name guard of `Adb.Connect`, and the
    `Dial`, `StartServer` and `Command` sequences, run against a `Machine`
    that stands for the network and the local process table. The machine
    answers dials and command runs from two oracle lists and logs every
    attempt. */
module Client {

  import opened Bytes
  import opened Errors
  import opened Numbers
  import opened Framing
  import opened SocketSpec

  /** Connect's guard on the service name: neither empty nor over MaxPayload bytes. */
  function CheckServiceName(service: seq<byte>): (r: Outcome)
    ensures r.Fail? ==> r.error == BadServiceName(|service|)
  {
    if service == [] || |service| > MaxPayload then Fail(BadServiceName(|service|)) else Pass
  }

  /** The guard admits exactly the names of 1 to MaxPayload bytes, so a name of
      exactly MaxPayload bytes passes. */
  lemma ServiceNameBounds(service: seq<byte>)
    ensures CheckServiceName(service).Pass? <==> 1 <= |service| <= MaxPayload
  {
  }

  /** The guard is four bytes looser than the frame limit: names of
      MaxPayload - 3 to MaxPayload bytes pass it but cannot be framed. */
  lemma GuardLooserThanFrame(service: seq<byte>)
    requires MaxPayload - 4 < |service| <= MaxPayload
    ensures CheckServiceName(service).Pass? && EncodeFrame(service) == Err(TooLong)
  {
  }

  /** How the network answers one dial. A dial after the list is used up is refused. */
  datatype DialReply = Accepted(conn: nat) | Refused

  /** How one run of a local command ends: its combined output, and whether it
      exited successfully. A run after the list is used up fails with no output. */
  datatype ExecReply = ExecReply(output: seq<byte>, ok: bool)

  datatype Event =
    | DialAttempt(address: seq<byte>)
    | ExecAttempt(path: seq<byte>, args: seq<seq<byte>>)

  function NextDial(replies: seq<DialReply>): (r: Result<nat>)
  {
    if replies == [] then Err(DialFailed)
    else match replies[0]
      case Accepted(c) => Ok(c)
      case Refused => Err(DialFailed)
  }

  function NextExec(replies: seq<ExecReply>): ExecReply
  {
    if replies == [] then ExecReply([], false) else replies[0]
  }

  function Drop1<T>(s: seq<T>): (r: seq<T>)
    ensures |r| == if s == [] then 0 else |s| - 1
  {
    if s == [] then [] else s[1..]
  }

  class Machine {
    var dialReplies: seq<DialReply>
    var execReplies: seq<ExecReply>
    var log: seq<Event>

    constructor (dialReplies: seq<DialReply>, execReplies: seq<ExecReply>)
      ensures this.dialReplies == dialReplies && this.execReplies == execReplies && log == []
    {
      this.dialReplies := dialReplies;
      this.execReplies := execReplies;
      this.log := [];
    }

    /** net.Dial("tcp", address). */
    method NetDial(address: seq<byte>) returns (r: Result<nat>)
      modifies this
      ensures r == NextDial(old(dialReplies)) && dialReplies == Drop1(old(dialReplies))
      ensures log == old(log) + [DialAttempt(address)] && execReplies == old(execReplies)
    {
      r := NextDial(dialReplies);
      dialReplies := Drop1(dialReplies);
      log := log + [DialAttempt(address)];
    }

    /** exec.Command(path, args...).CombinedOutput(). */
    method Exec(path: seq<byte>, args: seq<seq<byte>>) returns (output: seq<byte>, ok: bool)
      modifies this
      ensures ExecReply(output, ok) == NextExec(old(execReplies))
      ensures execReplies == Drop1(old(execReplies))
      ensures log == old(log) + [ExecAttempt(path, args)] && dialReplies == old(dialReplies)
    {
      var reply := NextExec(execReplies);
      output, ok := reply.output, reply.ok;
      execReplies := Drop1(execReplies);
      log := log + [ExecAttempt(path, args)];
    }
  }

  const LocalFlag: seq<byte> := [45, 76]  // "-L"
  const StartServerCommand: seq<byte> := [115, 116, 97, 114, 116, 45, 115, 101, 114, 118, 101, 114]  // "start-server"

  /** What one Dial does: its result, the attempts it logs, and the dial and
      command answers it leaves for later calls. */
  datatype DialRun = DialRun(result: Result<nat>, events: seq<Event>,
                             dials: seq<DialReply>, execs: seq<ExecReply>)

  /** The run of one Dial, given how the network and the start-server command
      will answer: dial; on failure start the server; if that worked, dial once
      more and return what that dial gives. A failed start is reported through
      a `%s` context, so it does not wrap the start error. */
  function DialPlan(dials: seq<DialReply>, execs: seq<ExecReply>, address: seq<byte>,
                    path: seq<byte>, args: seq<seq<byte>>): (p: DialRun)
    ensures p.events != [] && p.events[0] == DialAttempt(address)
    ensures p.result.Ok? ==> p.events[|p.events| - 1] == DialAttempt(address)
    ensures p.result.Err? && p.result.error != DialFailed ==>
      p.result.error == Described(StartingServer, StartFailed(TrimSpace(NextExec(execs).output)))
  {
    var first := NextDial(dials);
    if first.Ok? then DialRun(first, [DialAttempt(address)], Drop1(dials), execs)
    else
      var start := NextExec(execs);
      if !start.ok then
        DialRun(Err(Described(StartingServer, StartFailed(TrimSpace(start.output)))),
                [DialAttempt(address), ExecAttempt(path, args)], Drop1(dials), Drop1(execs))
      else
        DialRun(NextDial(Drop1(dials)), [DialAttempt(address), ExecAttempt(path, args), DialAttempt(address)],
                Drop1(Drop1(dials)), Drop1(execs))
  }

  function Min(a: nat, b: nat): nat
  {
    if a <= b then a else b
  }

  function DialCount(events: seq<Event>): nat
  {
    if events == [] then 0 else (if events[0].DialAttempt? then 1 else 0) + DialCount(events[1..])
  }

  function ExecCount(events: seq<Event>): nat
  {
    if events == [] then 0 else (if events[0].ExecAttempt? then 1 else 0) + ExecCount(events[1..])
  }

  /** One Dial makes one or two dials and at most one start, every dial to the
      same address; it starts the server only after a failed dial, and dials a
      second time only after the server started. */
  lemma DialBounded(dials: seq<DialReply>, execs: seq<ExecReply>, address: seq<byte>,
                    path: seq<byte>, args: seq<seq<byte>>)
    ensures var p := DialPlan(dials, execs, address, path, args);
      var events := p.events;
      1 <= DialCount(events) <= 2 && ExecCount(events) <= 1
      && events[0] == DialAttempt(address)
      && (forall k :: 0 <= k < |events| && events[k].DialAttempt? ==> events[k].address == address)
      && (ExecCount(events) == 1 <==> NextDial(dials).Err?)
      && (DialCount(events) == 2 <==> NextDial(dials).Err? && NextExec(execs).ok)
  {
    var dial, exec := DialAttempt(address), ExecAttempt(path, args);
    assert [dial, exec, dial][1..] == [exec, dial] && [exec, dial][1..] == [dial];
    assert [dial, exec][1..] == [exec] && [dial][1..] == [] && [exec][1..] == [];
    assert DialCount([dial]) == 1 && DialCount([exec, dial]) == 1 && DialCount([dial, exec, dial]) == 2;
    assert ExecCount([]) == 0 && ExecCount([dial]) == 0 && ExecCount([exec]) == 1;
    assert ExecCount([exec, dial]) == 1 && ExecCount([dial, exec]) == 1 && ExecCount([dial, exec, dial]) == 1;
  }

  /** One Dial uses up one dial answer per dial and one command answer per
      start, so the answers left over are the ones after those. */
  lemma DialUsesAnswers(dials: seq<DialReply>, execs: seq<ExecReply>, address: seq<byte>,
                        path: seq<byte>, args: seq<seq<byte>>)
    ensures var p := DialPlan(dials, execs, address, path, args);
      p.dials == dials[Min(DialCount(p.events), |dials|)..]
      && p.execs == execs[Min(ExecCount(p.events), |execs|)..]
  {
    DialBounded(dials, execs, address, path, args);
    var p := DialPlan(dials, execs, address, path, args);
    if NextDial(dials).Err? && NextExec(execs).ok {
      assert p.dials == Drop1(Drop1(dials));
      assert |dials| >= 2 ==> Drop1(Drop1(dials)) == dials[2..];
    }
  }

  /** A first dial that succeeds is the result, and the server is not started. */
  lemma DialFirstSucceeds(dials: seq<DialReply>, execs: seq<ExecReply>, address: seq<byte>,
                          path: seq<byte>, args: seq<seq<byte>>, conn: nat)
    requires dials != [] && dials[0] == Accepted(conn)
    ensures DialPlan(dials, execs, address, path, args) ==
      DialRun(Ok(conn), [DialAttempt(address)], dials[1..], execs)
  {
  }

  /** A Dial result is a connection only if one of its (at most two) dials was accepted. */
  lemma DialResultFromNetwork(dials: seq<DialReply>, execs: seq<ExecReply>, address: seq<byte>,
                              path: seq<byte>, args: seq<seq<byte>>)
    ensures var r := DialPlan(dials, execs, address, path, args).result;
      r.Ok? ==> exists k :: 0 <= k < 2 && k < |dials| && dials[k] == Accepted(r.value)
  {
    var r := DialPlan(dials, execs, address, path, args).result;
    if r.Ok? {
      if NextDial(dials).Ok? {
        assert dials[0] == Accepted(r.value);
      } else {
        assert dials[1..][0] == dials[1];
        assert dials[1] == Accepted(r.value);
      }
    }
  }

  /** An adb client talking to the server at `host`:`port`, running the adb
      executable at `adbExecPath` when it needs to start the server or run a
      command. */
  class Adb {
    const host: seq<byte>
    const port: int
    const adbExecPath: seq<byte>

    constructor (host: seq<byte>, port: int, adbExecPath: seq<byte>)
      ensures this.host == host && this.port == port && this.adbExecPath == adbExecPath
    {
      this.host := host;
      this.port := port;
      this.adbExecPath := adbExecPath;
    }

    /** `fmt.Sprintf("%s:%d", host, port)`. */
    function Address(): (a: seq<byte>)
      ensures |a| > |host| && a[..|host|] == host && a[|host|] == Colon
    {
      host + [Colon] + FormatInt(port)
    }

    /** The arguments StartServer passes: `-L tcp:<host>:<port> start-server`. */
    function StartServerArgs(): (args: seq<seq<byte>>)
      ensures |args| == 3 && args[0] == LocalFlag && args[2] == StartServerCommand
      ensures args[1] == TcpPrefix + Address()
    {
      [LocalFlag, TcpPrefix + host + [Colon] + FormatInt(port), StartServerCommand]
    }

    /** StartServer: runs `adb -L tcp:<host>:<port> start-server`; on failure
        the error carries the command's whitespace-trimmed output. */
    method StartServer(m: Machine) returns (r: Outcome)
      modifies m
      ensures m.log == old(m.log) + [ExecAttempt(adbExecPath, StartServerArgs())]
      ensures m.execReplies == Drop1(old(m.execReplies)) && m.dialReplies == old(m.dialReplies)
      ensures var reply := NextExec(old(m.execReplies));
        r == if reply.ok then Pass else Fail(StartFailed(TrimSpace(reply.output)))
    {
      var output, ok := m.Exec(adbExecPath, StartServerArgs());
      if !ok {
        var stdoutStderr := TrimSpace(output);
        return Fail(StartFailed(stdoutStderr));
      }
      return Pass;
    }

    /** Dial: dials the server; when that fails it starts the server and dials
        once more. The result and the attempts are those of DialPlan. */
    method Dial(m: Machine) returns (r: Result<nat>)
      modifies m
      ensures var plan := DialPlan(old(m.dialReplies), old(m.execReplies), Address(),
                                   adbExecPath, StartServerArgs());
        r == plan.result && m.log == old(m.log) + plan.events
        && m.dialReplies == plan.dials && m.execReplies == plan.execs
    {
      var address := Address();
      r := m.NetDial(address);
      if r.Err? {
        var started := StartServer(m);
        if started.Fail? {
          return Err(Described(StartingServer, started.error));
        }
        r := m.NetDial(address);
      }
    }

    /** Command: runs adb with `args` and returns its combined output with
        white space trimmed from both ends, on success and on failure alike. */
    method Command(m: Machine, args: seq<seq<byte>>) returns (output: seq<byte>, r: Outcome)
      modifies m
      ensures m.log == old(m.log) + [ExecAttempt(adbExecPath, args)]
      ensures m.execReplies == Drop1(old(m.execReplies)) && m.dialReplies == old(m.dialReplies)
      ensures var reply := NextExec(old(m.execReplies));
        output == TrimSpace(reply.output)
        && r == if reply.ok then Pass else Fail(CommandFailed(output))
    {
      var raw, ok := m.Exec(adbExecPath, args);
      output := TrimSpace(raw);
      if !ok {
        return output, Fail(CommandFailed(output));
      }
      r := Pass;
    }
  }

  /** For a host without a colon, the address splits back into the host and
      the decimal port. */
  lemma AddressSplits(a: Adb)
    requires Colon !in a.host
    ensures Split(a.Address(), Colon) == [a.host, FormatInt(a.port)]
  {
    FormatIntNoColon(a.port);
    SplitTwo(a.host, Colon, FormatInt(a.port));
  }

  /** The `-L` spec StartServer passes, for a host without a colon and a valid
      port, is refused by parseTcpSocketSpec as written and read back as that
      host and port by the fixed parser. */
  lemma StartServerSpecParses(a: Adb)
    requires a.host != [] && Colon !in a.host && 0 <= a.port <= 65535
    ensures ParseTcpSocketSpec(a.StartServerArgs()[1]).err == Some(Wrapped(ParsePort, BadNumber))
    ensures ParseTcpSocketSpecFixed(a.StartServerArgs()[1]) == SpecResult(a.host, a.port, None)
  {
    SpecWithPort(a.host, a.port);
  }

  /** Command's output neither starts nor ends with white space, is a slice of
      the raw output with only white space cut away, and trimming it again
      changes nothing. */
  lemma CommandOutputTrimmed(raw: seq<byte>)
    ensures var out := TrimSpace(raw);
      (out == [] || (out[0] !in AsciiSpace && out[|out| - 1] !in AsciiSpace))
      && IsTrimOf(out, raw, AsciiSpace)
      && TrimSpace(out) == out
  {
    TrimIdempotent(raw, AsciiSpace);
  }
}
