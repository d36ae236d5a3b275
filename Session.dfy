/**
 * The state of one `Connection` to a Folding@home client as a value, and
 * each of its operations as a function from the old state to the new one.
 * Sockets, `select` and the clock are not modelled: what they report comes
 * in as parameters (a readiness answer, the result of `connect_ex`, scripts
 * of `send`/`recv` outcomes, the time `now`). `eval` of a payload is the
 * `decode` parameter.
 */
module Session {
  import opened Wrappers
  import opened Text
  import opened PyOn

  /** Socket error numbers that the connection tells apart. */
  datatype Errno =
    | EAgain | EWouldBlock | WsaEWouldBlock | EInProgress
    | EConnRefused | ETimedOut | ENetDown | ENetUnreach
    | OtherErrno(code: int)

  /** A non-blocking socket has nothing to give or no room to take. */
  predicate IsWouldBlock(e: Errno)
  {
    e == EAgain || e == EWouldBlock || e == WsaEWouldBlock
  }

  /**
   * `connect_ex` results that mean the connection is still being made.
   * EAGAIN and EWOULDBLOCK are one number on Linux and macOS, so a connect
   * that reports EAGAIN is pending too.
   */
  predicate ConnectPending(e: Errno)
  {
    e == EInProgress || IsWouldBlock(e)
  }

  /** `fail_reason`: 'refused', 'connect', 'closed' or 'error'. */
  datatype FailReason = Refused | ConnectFailed | Closed | Error

  /**
   * How the socket calls of `open` end: `connect_ex` returns an error
   * number (None for 0), or an exception is raised by `socket()` before
   * there is a socket or by `connect_ex` after (an address that does not
   * resolve, say).
   */
  datatype ConnectResult = Returned(err: Option<Errno>) | SocketRaises | ConnectRaises

  /** `connect_ex` returned an error other than "in progress" or "would block". */
  predicate ConnectRefused(c: ConnectResult)
  {
    c.Returned? && c.err.Some? && !ConnectPending(c.err.value)
  }

  /** What `select` reports for the socket: in the write list, in the error list. */
  datatype Readiness = Readiness(writable: bool, exceptional: bool)

  /** One `recv`: some bytes (none means the peer closed), or a socket error. */
  datatype RecvOutcome = Chunk(data: string) | RecvError(err: Errno)

  /** One `send`: the peer takes up to `room` bytes, or a socket error. */
  datatype SendOutcome = Accepts(room: nat) | SendError(err: Errno)

  /** What `read_some` and `write_some` end with: a byte count, or an exception. */
  datatype Transfer = Moved(count: nat) | Raised

  /** What one `parse` ends with: `True`, `False`, or an exception. */
  datatype ParseOutcome = Consumed | NothingYet | Rejected

  /** A decoded message: `(version, type, value)`. */
  datatype Message<V> = Message(version: int, msgType: string, value: V)

  /** The settings a connection is made with. */
  datatype Config = Config(address: string, port: int, password: Option<string>, retryRate: int)

  /** What the environment answers during one `update`. */
  datatype Env = Env(
    firstSelect: Readiness,       // the `is_connected` at the top of `update`
    secondSelect: Readiness,      // the `is_connected` before the transfer
    connectResult: ConnectResult, // `socket()` and `connect_ex`
    sends: seq<SendOutcome>,      // successive `send` results; exhausted = would block
    recvs: seq<RecvOutcome>)      // successive `recv` results; exhausted = would block

  /** Every field of a `Connection`; `hasSocket` says whether `socket` is not None. */
  datatype State<V> = State(
    config: Config,
    initCommands: seq<string>,
    hasSocket: bool,
    connected: bool,
    messages: seq<Message<V>>,
    readBuf: string,
    writeBuf: string,
    failReason: Option<FailReason>,
    lastMessage: int,
    lastConnect: int)

  /** A connected session always has its socket. */
  predicate Consistent<V>(s: State<V>)
  {
    s.connected ==> s.hasSocket
  }

  /** The fields no transfer or parse touches. */
  predicate SameSetup<V>(a: State<V>, b: State<V>)
  {
    a.config == b.config && a.initCommands == b.initCommands && a.lastConnect == b.lastConnect
  }

  /** The socket-related fields agree. */
  predicate SameLink<V>(a: State<V>, b: State<V>)
  {
    a.hasSocket == b.hasSocket && a.connected == b.connected && a.failReason == b.failReason
  }

  // ---------------------------------------------------------------------
  // Lifecycle

  /** `close`: drop the socket; the connection is no longer up. */
  function Close<V>(s: State<V>): (r: State<V>)
    ensures !r.hasSocket && !r.connected && Consistent(r)
  {
    s.(hasSocket := false, connected := false)
  }

  /** `reset`: close, then empty the buffers and the inbox and clear the timers. */
  function Reset<V>(s: State<V>): (r: State<V>)
    ensures !r.hasSocket && !r.connected
    ensures r.messages == [] && r.readBuf == "" && r.writeBuf == "" && r.failReason == None
    ensures r.lastMessage == 0 && r.lastConnect == 0
    ensures r.config == s.config && r.initCommands == s.initCommands
  {
    Close(s).(messages := [], readBuf := "", writeBuf := "", failReason := None,
               lastMessage := 0, lastConnect := 0)
  }

  /** The constructor: no init commands, no socket, then `reset`. */
  function Init<V>(config: Config): (r: State<V>)
    ensures Consistent(r) && r.config == config && r.initCommands == []
    ensures !r.hasSocket && !r.connected
    ensures r.messages == [] && r.readBuf == "" && r.writeBuf == "" && r.failReason == None
    ensures r.lastMessage == 0 && r.lastConnect == 0
  {
    Reset(State(config, [], false, false, [], "", "", None, 0, 0))
  }

  /** `get_status`. */
  function Status<V>(s: State<V>): (r: string)
    ensures r == "Online" <==> s.connected
  {
    if s.connected then "Online" else "Connecting"
  }

  /** `connection_error`: the error number decides the failure reason. */
  function Classify(err: Errno): (r: FailReason)
    ensures r == Refused <==> err == EConnRefused
    ensures r == ConnectFailed <==> err in {ETimedOut, ENetDown, ENetUnreach}
    ensures r != Closed
  {
    if err == EConnRefused then Refused
    else if err in {ETimedOut, ENetDown, ENetUnreach} then ConnectFailed
    else Error
  }

  /** `connection_error`: close and record why. The caller raises. */
  function ConnectionError<V>(s: State<V>, err: Errno): (r: State<V>)
    ensures !r.hasSocket && !r.connected
    ensures r.failReason == Some(Classify(err)) && r.(failReason := s.failReason) == Close(s)
  {
    Close(s).(failReason := Some(Classify(err)))
  }

  /** `connection_lost`: close and record that the peer closed. The caller raises. */
  function ConnectionLost<V>(s: State<V>): (r: State<V>)
    ensures !r.hasSocket && !r.connected
    ensures r.failReason == Some(Closed) && r.(failReason := s.failReason) == Close(s)
  {
    Close(s).(failReason := Some(Closed))
  }

  /**
   * `is_connected`: no socket means no; a connection already up stays up;
   * otherwise `select` decides: writable means the connect finished, an
   * error means it was refused and the socket is closed.
   */
  function IsConnected<V>(s: State<V>, sel: Readiness): (r: (State<V>, bool))
    ensures Consistent(s) ==> r.1 == r.0.connected && Consistent(r.0)
  {
    if !s.hasSocket then (s, false)
    else if s.connected then (s, true)
    else if sel.writable then (s.(connected := true), true)
    else if sel.exceptional then (Close(s).(failReason := Some(Refused)), false)
    else (s, false)
  }

  /**
   * `close` touches only the socket and the connected flag, so closing
   * twice is closing once.
   */
  lemma CloseOnlyDrops<V>(s: State<V>)
    ensures Close(s).(hasSocket := s.hasSocket, connected := s.connected) == s
    ensures Close(Close(s)) == Close(s)
  {
  }

  /**
   * `reset` puts a session back where the constructor left it, keeping the
   * settings and the init commands; a second `reset` changes nothing.
   */
  lemma ResetRestarts<V>(s: State<V>)
    ensures Reset(s) == Init<V>(s.config).(initCommands := s.initCommands)
    ensures Reset(Reset(s)) == Reset(s)
  {
  }

  /**
   * `is_connected` on a consistent session answers yes exactly when there
   * is a socket that was up already or that `select` reports writable. A
   * session that was up stays up untouched; a pending socket that `select`
   * reports in error is closed with reason 'refused'; otherwise only the
   * connected flag may change.
   */
  lemma IsConnectedRule<V>(s: State<V>, sel: Readiness)
    requires Consistent(s)
    ensures var (r, up) := IsConnected(s, sel);
      var refused := s.hasSocket && !s.connected && !sel.writable && sel.exceptional;
      && (up <==> s.hasSocket && (s.connected || sel.writable))
      && (s.connected ==> r == s)
      && (refused ==> r == ConnectionError(s, EConnRefused))
      && (!refused ==> r == s.(connected := up))
  {
  }

  // ---------------------------------------------------------------------
  // Commands

  /** `queue_command`: the command and a newline go to the end of the write buffer. */
  function QueueCommand<V>(s: State<V>, command: string): (r: State<V>)
    ensures |r.writeBuf| == |s.writeBuf| + |command| + 1 && r.writeBuf[..|s.writeBuf|] == s.writeBuf
    ensures r.writeBuf[|s.writeBuf|..|r.writeBuf| - 1] == command && r.writeBuf[|r.writeBuf| - 1] == '\n'
    ensures r.(writeBuf := s.writeBuf) == s
  {
    s.(writeBuf := s.writeBuf + command + "\n")
  }

  /** The text of a list of commands, one per line. */
  function Lines(commands: seq<string>): (t: string)
    decreases |commands|
  {
    if commands == [] then "" else commands[0] + "\n" + Lines(commands[1..])
  }

  /**
   * `map(self.queue_command, commands)`: queue each command in order. The
   * write buffer grows by the commands' lines and nothing else changes.
   */
  function QueueAll<V>(s: State<V>, commands: seq<string>): (r: State<V>)
    ensures r == s.(writeBuf := s.writeBuf + Lines(commands))
    decreases |commands|
  {
    if commands == [] then s
    else
      var q := s.(writeBuf := s.writeBuf + commands[0] + "\n");
      assert QueueCommand(s, commands[0]) == q;
      var r := QueueAll(q, commands[1..]);
      assert s.writeBuf + commands[0] + "\n" + Lines(commands[1..]) == s.writeBuf + Lines(commands);
      r
  }

  /** Lines of two lists, one after the other. */
  lemma {:induction false} LinesAppend(a: seq<string>, b: seq<string>)
    ensures Lines(a + b) == Lines(a) + Lines(b)
    decreases |a|
  {
    if a == [] {
      assert a + b == b;
    } else {
      assert (a + b)[0] == a[0] && (a + b)[1..] == a[1..] + b;
      LinesAppend(a[1..], b);
      var head := a[0] + "\n";
      assert Lines(a) == head + Lines(a[1..]);
      assert Lines(a + b) == head + (Lines(a[1..]) + Lines(b));
      assert head + (Lines(a[1..]) + Lines(b)) == (head + Lines(a[1..])) + Lines(b);
    }
  }

  /** Lines of a list ending in `c`. */
  lemma LinesSnoc(a: seq<string>, c: string)
    ensures Lines(a + [c]) == Lines(a) + c + "\n"
  {
    LinesAppend(a, [c]);
    assert Lines([c]) == c + "\n" + Lines([]);
  }

  /** `set_init_commands`: remember the commands; queue them now if connected. */
  function SetInitCommands<V>(s: State<V>, commands: seq<string>, sel: Readiness): (r: State<V>)
    ensures r.initCommands == commands && r.config == s.config
    ensures r.messages == s.messages && r.readBuf == s.readBuf
    ensures |s.writeBuf| <= |r.writeBuf| && r.writeBuf[..|s.writeBuf|] == s.writeBuf
  {
    var (t, up) := IsConnected(s.(initCommands := commands), sel);
    if up then QueueAll(t, commands) else t
  }

  /** The new list is kept, and its lines are queued exactly when the session is up. */
  lemma SetInitCommandsQueues<V>(s: State<V>, commands: seq<string>, sel: Readiness)
    requires Consistent(s)
    ensures var r := SetInitCommands(s, commands, sel);
      && r.initCommands == commands
      && r.writeBuf == s.writeBuf + (if r.connected then Lines(commands) else "")
      && r.readBuf == s.readBuf && r.messages == s.messages
  {
  }

  // ---------------------------------------------------------------------
  // Opening

  /** The command that authenticates with the client's password. */
  function AuthCommand(password: string): (c: string)
    ensures |c| == |password| + 7
    ensures c[..6] == "auth \"" && c[6..|c| - 1] == password && c[|c| - 1] == '"'
  {
    "auth \"" + password + "\""
  }

  /**
   * The password is not escaped: the `auth` line is one line of the
   * protocol (its first newline is the one `queue_command` adds) exactly
   * when the password holds no newline. Otherwise the text after the
   * password's first newline reaches the peer as a command of its own.
   */
  lemma AuthLineSingle(password: string)
    ensures var line := AuthCommand(password) + "\n";
      Find(line, "\n", 0) == |line| - 1 <==> forall i :: 0 <= i < |password| ==> password[i] != '\n'
  {
    var c := AuthCommand(password);
    var line := c + "\n";
    if forall i :: 0 <= i < |password| ==> password[i] != '\n' {
      forall k | 0 <= k < |c|
        ensures !IsAt(line, "\n", k)
      {
        IsAtChar(line, '\n', k);
        assert line[k] == c[k];
        if 6 <= k < |c| - 1 {
          assert c[k] == c[6..|c| - 1][k - 6];
        } else if k < 6 {
          assert c[k] == c[..6][k];
        }
      }
      IsAtChar(line, '\n', |c|);
      FindIs(line, "\n", 0, |c|);
    } else {
      var i :| 0 <= i < |password| && password[i] == '\n';
      assert line[6 + i] == c[6..|c| - 1][i];
      IsAtChar(line, '\n', 6 + i);
    }
  }

  /** What `open` queues before the init commands: `auth` when a non-empty password is set. */
  function AuthLines(password: Option<string>): (t: string)
  {
    match password
    case Some(p) => if p != "" then AuthCommand(p) + "\n" else ""
    case None => ""
  }

  /**
   * `open`: reset, note the time, make a socket and start connecting. An
   * exception from `socket()` leaves no socket, one from `connect_ex` leaves
   * the new socket; either propagates (the second component is true) with
   * no reason recorded. A `connect_ex` error other than "in progress" or
   * "would block" sets the reason to 'connect' and raises, leaving the new
   * socket in place. Otherwise the password and the init commands are
   * queued.
   */
  function Open<V>(s: State<V>, now: int, connectResult: ConnectResult): (r: (State<V>, bool))
    ensures Consistent(r.0) && r.0.lastConnect == now
    ensures r.0.hasSocket <==> !connectResult.SocketRaises?
  {
    var bare := Reset(s).(lastConnect := now);
    var t := bare.(hasSocket := true);
    if connectResult.SocketRaises? then (bare, true)
    else if connectResult.ConnectRaises? then (t, true)
    else if ConnectRefused(connectResult) then
      (t.(failReason := Some(ConnectFailed)), true)
    else
      var authed := match s.config.password
        case Some(p) => if p != "" then QueueCommand(t, AuthCommand(p)) else t
        case None => t;
      (QueueAll(authed, s.initCommands), false)
  }

  /**
   * After `open`: the inbox and read buffer are empty, the timers restart at
   * `now`, and `open` raises exactly when a socket call raised or the connect
   * was refused; only a refused connect records a reason. Unless it raised,
   * the write buffer holds exactly the `auth` line and the init commands in
   * order — whatever was queued before is gone either way.
   */
  lemma OpenBootstrap<V>(s: State<V>, now: int, connectResult: ConnectResult)
    ensures var (r, raised) := Open(s, now, connectResult);
      && raised == (!connectResult.Returned? || ConnectRefused(connectResult))
      && (r.hasSocket <==> !connectResult.SocketRaises?)
      && !r.connected && r.lastConnect == now && r.lastMessage == 0
      && r.messages == [] && r.readBuf == ""
      && r.config == s.config && r.initCommands == s.initCommands
      && r.failReason == (if ConnectRefused(connectResult) then Some(ConnectFailed) else None)
      && (raised ==> r.writeBuf == "")
      && (!raised ==> r.writeBuf == AuthLines(s.config.password) + Lines(s.initCommands))
  {
  }

  // ---------------------------------------------------------------------
  // Transfers

  /** How a `recv` or `send` loop ends: with a byte count, the peer gone, or a hard error. */
  datatype LoopEnd = Done(count: nat) | PeerClosed | Failed(err: Errno)

  /**
   * The `recv` loop of `read_some` from the point where `read` bytes have
   * arrived, on the read buffer alone: keep appending while chunks arrive;
   * an empty chunk or a hard error ends it, and is fatal only if nothing
   * arrived; would-block (or no more outcomes) ends it normally.
   */
  function RecvLoop(buf: string, recvs: seq<RecvOutcome>, read: nat): (r: (string, LoopEnd))
    ensures r.0 == buf + Received(recvs)
    ensures r.1.Done? ==> r.1.count == read + |Received(recvs)|
    ensures !r.1.Done? ==> read == 0 && Received(recvs) == []
    decreases |recvs|
  {
    if recvs == [] then (buf, Done(read))
    else match recvs[0]
      case Chunk(data) =>
        if data != [] then
          var r := RecvLoop(buf + data, recvs[1..], read + |data|);
          assert buf + data + Received(recvs[1..]) == buf + (data + Received(recvs[1..]));
          r
        else if read != 0 then (buf, Done(read))
        else (buf, PeerClosed)
      case RecvError(err) =>
        if IsWouldBlock(err) || read != 0 then (buf, Done(read))
        else (buf, Failed(err))
  }

  /** The bytes of the leading non-empty chunks of a `recv` script, in order. */
  function Received(recvs: seq<RecvOutcome>): (got: string)
    decreases |recvs|
  {
    if recvs != [] && recvs[0].Chunk? && recvs[0].data != [] then
      recvs[0].data + Received(recvs[1..])
    else []
  }

  /** What ends the leading run of chunks, if it is fatal: an empty chunk or a hard error. */
  function RecvFailure(recvs: seq<RecvOutcome>): (f: Option<LoopEnd>)
    decreases |recvs|
  {
    if recvs == [] then None
    else match recvs[0]
      case Chunk(data) => if data != [] then RecvFailure(recvs[1..]) else Some(PeerClosed)
      case RecvError(err) => if IsWouldBlock(err) then None else Some(Failed(err))
  }

  /** The recv loop fails exactly when nothing arrives before a fatal outcome, and then says which. */
  lemma {:induction false} RecvLoopFails(buf: string, recvs: seq<RecvOutcome>, read: nat)
    ensures var end := RecvLoop(buf, recvs, read).1;
      (!end.Done? <==> read + |Received(recvs)| == 0 && RecvFailure(recvs).Some?)
      && (!end.Done? ==> RecvFailure(recvs) == Some(end))
    decreases |recvs|
  {
    if recvs != [] && recvs[0].Chunk? && recvs[0].data != [] {
      var data := recvs[0].data;
      RecvLoopFails(buf + data, recvs[1..], read + |data|);
    }
  }

  /** The state after a loop ended: `connection_lost` or `connection_error` when it failed. */
  function Finish<V>(s: State<V>, end: LoopEnd): (r: (State<V>, Transfer))
  {
    match end
    case Done(n) => (s, Moved(n))
    case PeerClosed => (ConnectionLost(s), Raised)
    case Failed(err) => (ConnectionError(s, err), Raised)
  }

  /** The failure reason a fatal loop end records. */
  function EndReason(end: LoopEnd): FailReason
  {
    match end
    case Done(_) => Error
    case PeerClosed => Closed
    case Failed(err) => Classify(err)
  }

  /** `read_some`. */
  function ReadSome<V>(s: State<V>, recvs: seq<RecvOutcome>): (r: (State<V>, Transfer))
    ensures r.0.readBuf == s.readBuf + Received(recvs)
    ensures r.1.Moved? ==> r.1.count == |Received(recvs)|
    ensures SameSetup(r.0, s) && r.0.messages == s.messages && r.0.writeBuf == s.writeBuf
  {
    var (buf, end) := RecvLoop(s.readBuf, recvs, 0);
    Finish(s.(readBuf := buf), end)
  }

  /**
   * `read_some` appends the received chunks to the read buffer in order and
   * reports how many bytes that was. It raises only when nothing arrived
   * before the peer closed or a hard error: then the socket is closed and the
   * reason recorded ('closed', or as `connection_error` classifies the error).
   * Nothing else changes.
   */
  lemma ReadSomeAppends<V>(s: State<V>, recvs: seq<RecvOutcome>)
    ensures var (r, t) := ReadSome(s, recvs);
      var got := Received(recvs);
      && r.readBuf == s.readBuf + got
      && SameSetup(r, s) && r.messages == s.messages && r.writeBuf == s.writeBuf
      && r.lastMessage == s.lastMessage
      && (t == Raised <==> got == [] && RecvFailure(recvs).Some?)
      && (t.Moved? ==> t.count == |got| && SameLink(r, s))
      && (t == Raised ==> !r.hasSocket && !r.connected
                          && r.failReason == Some(EndReason(RecvFailure(recvs).value)))
  {
    RecvLoopFails(s.readBuf, recvs, 0);
  }

  function Min(a: nat, b: nat): nat
  {
    if a <= b then a else b
  }

  /**
   * The `send` loop of `write_some` from the point where `written` bytes
   * have gone, on the write buffer alone: offer the whole buffer; the peer
   * takes a prefix. Taking nothing ends the loop, fatally if nothing went;
   * a hard error ends it likewise; would-block ends it normally.
   */
  function SendLoop(buf: string, sends: seq<SendOutcome>, written: nat): (r: (string, LoopEnd))
    ensures !r.1.Done? ==> written == 0 && r.0 == buf
    ensures r.1.Failed? ==> !IsWouldBlock(r.1.err)
    decreases |sends|
  {
    if sends == [] then (buf, Done(written))
    else match sends[0]
      case Accepts(room) =>
        var count := Min(room, |buf|);
        if count != 0 then SendLoop(buf[count..], sends[1..], written + count)
        else if written != 0 then (buf, Done(written))
        else (buf, PeerClosed)
      case SendError(err) =>
        if IsWouldBlock(err) || written != 0 then (buf, Done(written))
        else (buf, Failed(err))
  }

  /**
   * The `i`-th `send` takes `count` bytes: the loop from there goes on with
   * the rest of the buffer and the next outcome.
   */
  lemma SendLoopTakes(buf: string, sends: seq<SendOutcome>, i: nat, written: nat, count: nat)
    requires i < |sends| && sends[i].Accepts? && count == Min(sends[i].room, |buf|) && count != 0
    ensures SendLoop(buf, sends[i..], written) == SendLoop(buf[count..], sends[i + 1..], written + count)
  {
    assert sends[i..][0] == sends[i] && sends[i..][1..] == sends[i + 1..];
  }

  /**
   * When the send loop ends normally, the count it reports covers what was
   * sent before plus a prefix of the buffer, and the buffer keeps the rest.
   */
  lemma {:induction false} SendLoopTrims(buf: string, sends: seq<SendOutcome>, written: nat)
    ensures var r := SendLoop(buf, sends, written);
      r.1.Done? ==> written <= r.1.count <= written + |buf| && r.0 == buf[r.1.count - written..]
    decreases |sends|
  {
    if sends != [] && sends[0].Accepts? && Min(sends[0].room, |buf|) != 0 {
      var count := Min(sends[0].room, |buf|);
      var rest := buf[count..];
      var r := SendLoop(rest, sends[1..], written + count);
      assert SendLoop(buf, sends, written) == r;
      SendLoopTrims(rest, sends[1..], written + count);
      if r.1.Done? {
        SuffixOfSuffix(buf, count, r.1.count - (written + count));
      }
    } else {
      assert buf[0..] == buf;
    }
  }

  lemma SuffixOfSuffix(s: string, a: nat, b: nat)
    requires a + b <= |s|
    ensures s[a..][b..] == s[a + b..]
  {
  }

  /** `write_some`: nothing to send returns 0 at once. */
  function WriteSome<V>(s: State<V>, sends: seq<SendOutcome>): (r: (State<V>, Transfer))
    ensures SameSetup(r.0, s) && r.0.messages == s.messages && r.0.readBuf == s.readBuf
    ensures r.1 == Raised ==> r.0.writeBuf == s.writeBuf && !r.0.hasSocket && !r.0.connected
  {
    if |s.writeBuf| == 0 then (s, Moved(0))
    else
      var (buf, end) := SendLoop(s.writeBuf, sends, 0);
      Finish(s.(writeBuf := buf), end)
  }

  /**
   * `write_some` trims exactly the bytes it reports as sent from the front
   * of the write buffer, and an empty buffer sends nothing. It sends as much
   * as the peer has room for, up to the whole buffer. It raises exactly when
   * there was something to send and the first `send` took nothing or failed
   * with an error other than would-block; then nothing was sent, the socket
   * is closed and a reason recorded. Nothing else changes.
   */
  lemma WriteSomeTrims<V>(s: State<V>, sends: seq<SendOutcome>)
    ensures var (r, t) := WriteSome(s, sends);
      && SameSetup(r, s) && r.messages == s.messages && r.readBuf == s.readBuf
      && r.lastMessage == s.lastMessage
      && (s.writeBuf == "" ==> r == s && t == Moved(0))
      && (t.Moved? ==> t.count <= |s.writeBuf| && r.writeBuf == s.writeBuf[t.count..] && SameLink(r, s))
      && (t == Raised ==> r.writeBuf == s.writeBuf && !r.hasSocket && !r.connected
                          && (sends[0].Accepts? ==> r.failReason == Some(Closed))
                          && (sends[0].SendError? ==> r.failReason == Some(Classify(sends[0].err))))
      && (s.writeBuf != "" ==>
            (t == Raised <==> sends != [] && (sends[0] == Accepts(0)
                                              || (sends[0].SendError? && !IsWouldBlock(sends[0].err)))))
      && (t.Moved? ==> t.count == Min(Room(sends), |s.writeBuf|))
  {
    SendLoopTrims(s.writeBuf, sends, 0);
    SendLoopCount(s.writeBuf, sends, 0);
  }

  /** The room the peer offers, summed, before it first errors or takes nothing. */
  function Room(sends: seq<SendOutcome>): nat
    decreases |sends|
  {
    if sends == [] || sends[0].SendError? || sends[0].room == 0 then 0
    else sends[0].room + Room(sends[1..])
  }

  /**
   * When the send loop ends normally, what it sent is the room the peer
   * offered, capped by the size of the buffer.
   */
  lemma {:induction false} SendLoopCount(buf: string, sends: seq<SendOutcome>, written: nat)
    ensures var r := SendLoop(buf, sends, written);
      r.1.Done? ==> r.1.count == written + Min(Room(sends), |buf|)
    decreases |sends|
  {
    if sends != [] && sends[0].Accepts? && Min(sends[0].room, |buf|) != 0 {
      var count := Min(sends[0].room, |buf|);
      SendLoopCount(buf[count..], sends[1..], written + count);
      assert SendLoop(buf, sends, written) == SendLoop(buf[count..], sends[1..], written + count);
      assert Room(sends) == sends[0].room + Room(sends[1..]);
    }
  }

  /** Room for every byte, offered in non-zero amounts before any error, drains the buffer. */
  lemma {:induction false} SendLoopDrains(buf: string, sends: seq<SendOutcome>, written: nat)
    requires Room(sends) >= |buf| && written + |buf| != 0
    ensures SendLoop(buf, sends, written) == ("", Done(written + |buf|))
    decreases |sends|
  {
    if buf == [] {
      assert buf == "";
    } else {
      assert sends != [] && sends[0].Accepts? && sends[0].room != 0;
      var count := Min(sends[0].room, |buf|);
      var rest := buf[count..];
      assert Room(sends[1..]) >= |rest|;
      SendLoopDrains(rest, sends[1..], written + count);
      assert SendLoop(buf, sends, written) == SendLoop(rest, sends[1..], written + count);
    }
  }

  /** With room for all of it, `write_some` sends the whole write buffer. */
  lemma WriteSomeDrains<V>(s: State<V>, sends: seq<SendOutcome>)
    requires Room(sends) >= |s.writeBuf|
    ensures WriteSome(s, sends) == (s.(writeBuf := ""), Moved(|s.writeBuf|))
  {
    if s.writeBuf != "" {
      SendLoopDrains(s.writeBuf, sends, 0);
    }
  }

  // ---------------------------------------------------------------------
  // Receiving messages

  /**
   * `parse_message`: a payload that decodes becomes the next message and
   * restarts the idle timer; one that does not is dropped.
   */
  function ParseMessage<V>(s: State<V>, version: int, msgType: string, payload: string,
                           decode: string -> Option<V>, now: int): (r: State<V>)
    ensures r == s <==> decode(payload).None?
    ensures r.readBuf == s.readBuf && r.writeBuf == s.writeBuf && SameSetup(r, s)
  {
    match decode(payload)
    case Some(value) => s.(messages := s.messages + [Message(version, msgType, value)], lastMessage := now)
    case None => s
  }

  /** Exactly one record is appended, and it is the decoded frame; or nothing changes. */
  lemma ParseMessageAppends<V>(s: State<V>, version: int, msgType: string, payload: string,
                               decode: string -> Option<V>, now: int)
    ensures var r := ParseMessage(s, version, msgType, payload, decode, now);
      && r.readBuf == s.readBuf && r.writeBuf == s.writeBuf && SameSetup(r, s) && SameLink(r, s)
      && (decode(payload).Some? ==>
            && |r.messages| == |s.messages| + 1 && r.messages[..|s.messages|] == s.messages
            && r.messages[|s.messages|] == Message(version, msgType, decode(payload).value)
            && r.lastMessage == now)
      && (decode(payload).None? ==> r.messages == s.messages && r.lastMessage == s.lastMessage)
  {
  }

  /**
   * `parse`: act on the first frame in the read buffer. A complete frame is
   * handed to `parse_message` and cut off; a short header cuts the buffer
   * back to its line end and raises; a version that is not an integer
   * raises with the buffer unchanged.
   */
  function Parse<V>(s: State<V>, decode: string -> Option<V>, now: int): (r: (State<V>, ParseOutcome))
    ensures r.1 != Consumed ==> r.0.messages == s.messages
    ensures SameSetup(r.0, s) && SameLink(r.0, s) && r.0.writeBuf == s.writeBuf
  {
    ApplyScan(s, ScanFrame(s.readBuf), decode, now)
  }

  /** What `parse` does with what it found in the read buffer. */
  function ApplyScan<V>(s: State<V>, scan: Scan, decode: string -> Option<V>, now: int): (r: (State<V>, ParseOutcome))
  {
    match scan
    case NoFrame => (s, NothingYet)
    case BadHeader(_, rest) => (s.(readBuf := rest), Rejected)
    case BadVersion(_) => (s, Rejected)
    case Frame(version, msgType, payload, rest) =>
      (ParseMessage(s, version, msgType, payload, decode, now).(readBuf := rest), Consumed)
  }

  /**
   * From `s` to `r`: the inbox only grew at the end, the read buffer was
   * only cut at the front, and no other field but the idle timer changed.
   */
  ghost predicate Trimmed<V>(s: State<V>, r: State<V>)
  {
    && |s.messages| <= |r.messages| && r.messages[..|s.messages|] == s.messages
    && |r.readBuf| <= |s.readBuf| && r.readBuf == s.readBuf[|s.readBuf| - |r.readBuf|..]
    && SameSetup(r, s) && SameLink(r, s) && r.writeBuf == s.writeBuf
  }

  /**
   * What one `parse` may do, from `s` to `r`: keep a prefix of the inbox and
   * a suffix of the buffer, consume bytes when it succeeds, add no message
   * when it does not, and leave every other field alone.
   */
  ghost predicate ParseKept<V>(s: State<V>, r: State<V>, outcome: ParseOutcome)
  {
    && Trimmed(s, r)
    && (outcome == Consumed ==> |r.readBuf| < |s.readBuf|)
    && (outcome != Consumed ==> r.messages == s.messages && r.lastMessage == s.lastMessage)
  }

  /** Whatever `parse` does with a scan whose rest is a proper suffix, it keeps to `ParseKept`. */
  lemma ApplyScanKeeps<V>(s: State<V>, scan: Scan, decode: string -> Option<V>, now: int)
    requires scan.BadHeader? || scan.Frame? ==>
      |scan.rest| < |s.readBuf| && scan.rest == s.readBuf[|s.readBuf| - |scan.rest|..]
    ensures ParseKept(s, ApplyScan(s, scan, decode, now).0, ApplyScan(s, scan, decode, now).1)
  {
  }

  /** One `parse` keeps a prefix of the inbox and a suffix of the buffer, and consumes bytes when it succeeds. */
  lemma ParseKeeps<V>(s: State<V>, decode: string -> Option<V>, now: int)
    ensures ParseKept(s, Parse(s, decode, now).0, Parse(s, decode, now).1)
  {
    ApplyScanKeeps(s, ScanFrame(s.readBuf), decode, now);
  }

  /** `parse` returns False, changing nothing, exactly when no frame is complete yet. */
  lemma ParseNothingYet<V>(s: State<V>, decode: string -> Option<V>, now: int)
    ensures Parse(s, decode, now).1 == NothingYet <==> Incomplete(s.readBuf)
    ensures Incomplete(s.readBuf) ==> Parse(s, decode, now).0 == s
  {
    ScanNoFrame(s.readBuf);
  }

  /**
   * A complete frame: the payload between the header line and the delimiter
   * is decoded, and the buffer keeps only what follows the delimiter's
   * `\n---`.
   */
  lemma ParseFrame<V>(s: State<V>, decode: string -> Option<V>, now: int, start: int, eol: int, end: int)
    requires FrameAt(s.readBuf, start, eol, end)
    ensures var h := ReadHeader(s.readBuf[start + 1..eol]);
      eol <= end && end + 5 <= |s.readBuf|
      && Parse(s, decode, now)
         == (ParseMessage(s, h.version, h.msgType, Between(s.readBuf, eol + 1, end), decode, now)
               .(readBuf := s.readBuf[end + 4..]), Consumed)
  {
    ScanFrameAt(s.readBuf, start, eol, end);
  }

  /**
   * `while self.parse(): continue`: parse until no frame is complete or a
   * frame is rejected (the second component says it raised).
   */
  function Drain<V>(s: State<V>, decode: string -> Option<V>, now: int): (r: (State<V>, bool))
    ensures |r.0.readBuf| <= |s.readBuf| && |s.messages| <= |r.0.messages|
    ensures SameSetup(r.0, s) && SameLink(r.0, s) && r.0.writeBuf == s.writeBuf
    decreases |s.readBuf|
  {
    ParseKeeps(s, decode, now);
    var (t, outcome) := Parse(s, decode, now);
    match outcome
    case Consumed => Drain(t, decode, now)
    case NothingYet => (t, false)
    case Rejected => (t, true)
  }

  lemma TrimmedChain<V>(s: State<V>, t: State<V>, r: State<V>)
    requires Trimmed(s, t) && Trimmed(t, r)
    ensures Trimmed(s, r)
  {
    assert r.messages[..|s.messages|] == r.messages[..|t.messages|][..|s.messages|];
    SuffixOfSuffix(s.readBuf, |s.readBuf| - |t.readBuf|, |t.readBuf| - |r.readBuf|);
  }

  /**
   * Draining only appends messages and only cuts the front of the read
   * buffer; when it ends without an exception, what is left is incomplete.
   */
  lemma {:induction false} DrainEnds<V>(s: State<V>, decode: string -> Option<V>, now: int)
    ensures var (r, raised) := Drain(s, decode, now);
      Trimmed(s, r) && (!raised ==> Incomplete(r.readBuf))
    decreases |s.readBuf|
  {
    var (t, outcome) := Parse(s, decode, now);
    ParseKeeps(s, decode, now);
    assert Trimmed(s, t);
    match outcome
    case Consumed =>
      assert Drain(s, decode, now) == Drain(t, decode, now);
      DrainEnds(t, decode, now);
      TrimmedChain(s, t, Drain(t, decode, now).0);
    case NothingYet =>
      ParseNothingYet(s, decode, now);
    case Rejected =>
  }

  /**
   * How the bytes are split across reads does not change what a drain
   * delivers: when draining `s` ends without an exception, draining `s`
   * with `more` bytes already appended ends where draining the remainder
   * with `more` appended does.
   */
  lemma {:induction false} DrainSplit<V>(s: State<V>, more: string, decode: string -> Option<V>, now: int)
    ensures var (r, raised) := Drain(s, decode, now);
      !raised ==> Drain(s.(readBuf := s.readBuf + more), decode, now)
                  == Drain(r.(readBuf := r.readBuf + more), decode, now)
    decreases |s.readBuf|
  {
    var (t, outcome) := Parse(s, decode, now);
    ParseKeeps(s, decode, now);
    if outcome == Consumed {
      var s2 := s.(readBuf := s.readBuf + more);
      var t2 := t.(readBuf := t.readBuf + more);
      ScanExtend(s.readBuf, more);
      assert Parse(s2, decode, now) == (t2, Consumed);
      assert Drain(s, decode, now) == Drain(t, decode, now);
      assert Drain(s2, decode, now) == Drain(t2, decode, now);
      DrainSplit(t, more, decode, now);
    }
  }

  /**
   * A header whose version is not an integer stalls the stream: `parse`
   * raises on it without consuming anything, so however many bytes arrive
   * afterwards, every later `parse` raises on the same header and no later
   * frame is ever read.
   */
  lemma BadVersionStalls<V>(s: State<V>, more: string, decode: string -> Option<V>, now: int)
    requires ScanFrame(s.readBuf).BadVersion?
    ensures var t := s.(readBuf := s.readBuf + more);
      Parse(t, decode, now) == (t, Rejected) && Drain(t, decode, now) == (t, true)
  {
    ScanExtend(s.readBuf, more);
  }

  /** A frame as the client sends it. */
  datatype WireFrame = WireFrame(version: int, msgType: string, payload: string)

  /** The bytes of a sequence of frames, one after the other. */
  function Wires(frames: seq<WireFrame>): (w: string)
    decreases |frames|
  {
    if frames == [] then ""
    else Wire(frames[0].version, frames[0].msgType, frames[0].payload) + Wires(frames[1..])
  }

  /** The messages the frames whose payloads decode become, in order. */
  function Decoded<V>(frames: seq<WireFrame>, decode: string -> Option<V>): (ms: seq<Message<V>>)
    ensures |ms| <= |frames|
    decreases |frames|
  {
    if frames == [] then []
    else
      var f := frames[0];
      match decode(f.payload)
      case Some(value) => [Message(f.version, f.msgType, value)] + Decoded(frames[1..], decode)
      case None => Decoded(frames[1..], decode)
  }

  /**
   * Draining a buffer that holds whole frames as the client writes them,
   * behind the newline that ends whatever came before: every frame is read,
   * the decodable ones become messages in order, the idle timer restarts if
   * any did, and only the last delimiter's newline is left.
   */
  lemma {:induction false} DrainWires<V>(s: State<V>, frames: seq<WireFrame>, decode: string -> Option<V>, now: int)
    requires forall i :: 0 <= i < |frames| ==> Frameable(frames[i].msgType, frames[i].payload)
    requires s.readBuf == "\n" + Wires(frames)
    ensures Drain(s, decode, now)
      == (s.(readBuf := "\n", messages := s.messages + Decoded(frames, decode),
             lastMessage := if Decoded(frames, decode) == [] then s.lastMessage else now), false)
    decreases |frames|
  {
    if frames == [] {
      assert Parse(s, decode, now) == (s, NothingYet) by {
        assert s.readBuf == "\n";
        assert ScanFrame(s.readBuf) == NoFrame;
      }
      assert s.(readBuf := "\n", messages := s.messages + [], lastMessage := s.lastMessage) == s;
    } else {
      var f, rest := frames[0], frames[1..];
      var t := ParseMessage(s, f.version, f.msgType, f.payload, decode, now).(readBuf := "\n" + Wires(rest));
      assert Drain(s, decode, now) == Drain(t, decode, now) by {
        assert s.readBuf == "\n" + Wire(f.version, f.msgType, f.payload) + Wires(rest);
        DrainWireStep(s, f, Wires(rest), decode, now);
      }
      assert forall i :: 0 <= i < |rest| ==> Frameable(rest[i].msgType, rest[i].payload) by {
        forall i | 0 <= i < |rest|
          ensures Frameable(rest[i].msgType, rest[i].payload)
        {
          assert rest[i] == frames[i + 1];
        }
      }
      DrainWires(t, rest, decode, now);
      match decode(f.payload)
      case Some(value) =>
        var m := Message(f.version, f.msgType, value);
        assert Decoded(frames, decode) == [m] + Decoded(rest, decode);
        assert t.messages == s.messages + [m];
        AppendAssoc(s.messages, [m], Decoded(rest, decode));
      case None =>
        assert Decoded(frames, decode) == Decoded(rest, decode);
    }
  }

  lemma AppendAssoc<T>(a: seq<T>, b: seq<T>, c: seq<T>)
    ensures (a + b) + c == a + (b + c)
  {
  }

  /** One frame at the front of the buffer is consumed and handed to `parse_message`. */
  lemma DrainWireStep<V>(s: State<V>, f: WireFrame, more: string, decode: string -> Option<V>, now: int)
    requires Frameable(f.msgType, f.payload)
    requires s.readBuf == "\n" + Wire(f.version, f.msgType, f.payload) + more
    ensures Drain(s, decode, now)
      == Drain(ParseMessage(s, f.version, f.msgType, f.payload, decode, now).(readBuf := "\n" + more), decode, now)
  {
    ScanWire(f.version, f.msgType, f.payload, more);
    assert Parse(s, decode, now)
      == (ParseMessage(s, f.version, f.msgType, f.payload, decode, now).(readBuf := "\n" + more), Consumed);
  }

  /**
   * The stream recovers from a short header: `parse` raises on it but keeps
   * the newline that ended its line, so whole frames that follow stay
   * readable, and the next drain delivers every decodable one of them, in
   * order.
   */
  lemma ShortHeaderRecovers<V>(s: State<V>, line: string, frames: seq<WireFrame>,
                               decode: string -> Option<V>, now: int)
    requires |line| >= 5 && line[..5] == "PyON " && forall i :: 0 <= i < |line| ==> line[i] != '\n'
    requires |SplitWhitespace(line, 2)| < 3
    requires forall i :: 0 <= i < |frames| ==> Frameable(frames[i].msgType, frames[i].payload)
    requires s.readBuf == "\n" + line + "\n" + Wires(frames)
    ensures var t := s.(readBuf := "\n" + Wires(frames));
      && Drain(s, decode, now) == (t, true)
      && Drain(t, decode, now).0.messages == s.messages + Decoded(frames, decode)
      && Drain(t, decode, now).0.readBuf == "\n"
  {
    ShortHeaderAtFront(s.readBuf, line, Wires(frames));
    var t := s.(readBuf := "\n" + Wires(frames));
    assert Parse(s, decode, now) == (t, Rejected);
    DrainWires(t, frames, decode, now);
  }

  // ---------------------------------------------------------------------
  // Polling

  /** Seconds a connect may stay pending before `update` closes it to retry. */
  const ConnectTimeout: int := 60
  /** Seconds without a message after which `update` drops a connection. */
  const IdleTimeout: int := 10

  /** A message has been seen and the last one is older than the idle timeout. */
  predicate IdleExpired<V>(s: State<V>, now: int)
  {
    s.lastMessage != 0 && s.lastMessage + IdleTimeout < now
  }

  /** The timeout at the end of `update`: close a connected session that has gone quiet. */
  function IdleCheck<V>(s: State<V>, now: int): (r: State<V>)
    ensures r.connected <==> s.connected && !IdleExpired(s, now)
    ensures r.failReason == s.failReason && r.messages == s.messages && r.lastMessage == s.lastMessage
    ensures r.readBuf == s.readBuf && r.writeBuf == s.writeBuf && SameSetup(r, s)
    ensures Consistent(s) ==> Consistent(r)
  {
    if s.connected && IdleExpired(s, now) then Close(s) else s
  }

  /**
   * The first part of `update`: ask whether the connection is up; if not,
   * open a new socket when there is none and the retry interval has passed,
   * or close a pending one that has waited longer than the connect timeout.
   * The second component says `open` raised.
   */
  function Connect<V>(s: State<V>, now: int, env: Env): (r: (State<V>, bool))
    ensures r.0.config == s.config && r.0.initCommands == s.initCommands
    ensures r.1 ==> r.0.lastConnect == now && !r.0.connected
  {
    var (t, up) := IsConnected(s, env.firstSelect);
    if up then (t, false)
    else if !t.hasSocket then
      if t.lastConnect + t.config.retryRate < now then Open(t, now, env.connectResult) else (t, false)
    else if t.lastConnect + ConnectTimeout < now then (Close(t), false)
    else (t, false)
  }

  /**
   * The transfer part of `update`: write what is queued, read what has
   * arrived and, only if something arrived, parse frames until none is
   * complete or one is rejected. An exception from any step ends it.
   */
  function Exchange<V>(s: State<V>, now: int, env: Env, decode: string -> Option<V>): (r: State<V>)
    ensures SameSetup(r, s)
    ensures r.hasSocket ==> r.connected == s.connected && r.failReason == s.failReason
  {
    var (t, w) := WriteSome(s, env.sends);
    if w.Raised? then t
    else
      var (u, got) := ReadSome(t, env.recvs);
      if got == Moved(0) || got.Raised? then u else Drain(u, decode, now).0
  }

  /**
   * `update`: one poll. If `open` raised, only the idle check follows; if
   * the connection is not up by the second check, `update` returns at once,
   * skipping the idle check; otherwise transfer, then the idle check.
   */
  function Update<V>(s: State<V>, now: int, env: Env, decode: string -> Option<V>): (r: State<V>)
    ensures r.config == s.config && r.initCommands == s.initCommands
  {
    var (t, raised) := Connect(s, now, env);
    if raised then IdleCheck(t, now)
    else
      var (u, up) := IsConnected(t, env.secondSelect);
      if !up then u else IdleCheck(Exchange(u, now, env, decode), now)
  }

  /** The transfer keeps the session consistent and never touches the setup or the connect time. */
  lemma ExchangeKeeps<V>(s: State<V>, now: int, env: Env, decode: string -> Option<V>)
    requires Consistent(s)
    ensures var r := Exchange(s, now, env, decode);
      Consistent(r) && SameSetup(r, s)
  {
    var (t, w) := WriteSome(s, env.sends);
    WriteSomeTrims(s, env.sends);
    if !w.Raised? {
      var (u, got) := ReadSome(t, env.recvs);
      ReadSomeAppends(t, env.recvs);
      DrainEnds(u, decode, now);
    }
  }

  /** `update` keeps a consistent session consistent. */
  lemma UpdateConsistent<V>(s: State<V>, now: int, env: Env, decode: string -> Option<V>)
    requires Consistent(s)
    ensures Consistent(Update(s, now, env, decode))
  {
    var (t, raised) := Connect(s, now, env);
    if !raised {
      var (u, up) := IsConnected(t, env.secondSelect);
      if up {
        ExchangeKeeps(u, now, env, decode);
      }
    }
  }

  /**
   * The retry rule: `update` opens a new socket (and so restarts the connect
   * timer at `now`) exactly when, after the first check, there is no socket
   * and more than the retry interval has passed since the last attempt.
   */
  lemma UpdateRetryRule<V>(s: State<V>, now: int, env: Env, decode: string -> Option<V>)
    requires Consistent(s)
    ensures var r := Update(s, now, env, decode);
      var gone := !s.hasSocket || (!s.connected && !env.firstSelect.writable && env.firstSelect.exceptional);
      var due := s.lastConnect + s.config.retryRate < now;
      && (gone && due ==> r.lastConnect == now)
      && (!(gone && due) ==> r.lastConnect == s.lastConnect)
  {
    var (t, raised) := Connect(s, now, env);
    if !raised {
      var (u, up) := IsConnected(t, env.secondSelect);
      if up {
        ExchangeKeeps(u, now, env, decode);
      }
    }
  }

  /** No socket and the retry interval not yet over: `update` changes nothing. */
  lemma UpdateWaits<V>(s: State<V>, now: int, env: Env, decode: string -> Option<V>)
    requires Consistent(s) && !s.hasSocket && !(s.lastConnect + s.config.retryRate < now)
    ensures Update(s, now, env, decode) == s
  {
  }

  /**
   * The connect timeout: a pending socket that `select` reports neither
   * writable nor failed is closed once the connect has waited longer than
   * the timeout, and is left alone before that (unless the second check
   * sees it finish or fail).
   */
  lemma UpdateConnectTimeout<V>(s: State<V>, now: int, env: Env, decode: string -> Option<V>)
    requires s.hasSocket && !s.connected
    requires !env.firstSelect.writable && !env.firstSelect.exceptional
    ensures s.lastConnect + ConnectTimeout < now ==> Update(s, now, env, decode) == Close(s)
    ensures !(s.lastConnect + ConnectTimeout < now)
            && !env.secondSelect.writable && !env.secondSelect.exceptional
            ==> Update(s, now, env, decode) == s
  {
  }

  /**
   * The idle timeout: after `update`, a session that is still connected has
   * heard a message within the timeout (or none at all yet). So a connected
   * session whose last message is stale and that receives no new one is
   * closed; the close leaves the failure reason as it was.
   */
  lemma UpdateIdleRule<V>(s: State<V>, now: int, env: Env, decode: string -> Option<V>)
    requires Consistent(s)
    ensures var r := Update(s, now, env, decode);
      && (r.connected ==> !IdleExpired(r, now))
      && (IdleExpired(s, now) && r.lastMessage == s.lastMessage ==> !r.connected)
  {
    var (t, raised) := Connect(s, now, env);
  }

  /** Nothing received: `update` on a connected session does not parse, even if a frame is waiting. */
  lemma UpdateNoDataNoParse<V>(s: State<V>, now: int, env: Env, decode: string -> Option<V>)
    requires s.hasSocket && s.connected && Received(env.recvs) == []
    ensures var r := Update(s, now, env, decode);
      r.readBuf == s.readBuf && r.messages == s.messages
  {
    WriteSomeTrims(s, env.sends);
    var (t, w) := WriteSome(s, env.sends);
    if !w.Raised? {
      ReadSomeAppends(t, env.recvs);
    }
  }

  /**
   * One poll of a connected session delivers the frames that arrive: if
   * the write does not fail and the bytes received are whole frames behind
   * a newline, the decodable ones are appended to the inbox in order.
   */
  lemma UpdateDelivers<V>(s: State<V>, now: int, env: Env, decode: string -> Option<V>, frames: seq<WireFrame>)
    requires s.hasSocket && s.connected && s.readBuf == ""
    requires WriteSome(s, env.sends).1.Moved?
    requires Received(env.recvs) == "\n" + Wires(frames)
    requires forall i :: 0 <= i < |frames| ==> Frameable(frames[i].msgType, frames[i].payload)
    ensures var r := Update(s, now, env, decode);
      r.messages == s.messages + Decoded(frames, decode) && r.readBuf == "\n"
  {
    assert Update(s, now, env, decode) == IdleCheck(Exchange(s, now, env, decode), now);
    ExchangeDelivers(s, now, env, decode, frames);
  }

  /** The transfer part of `UpdateDelivers`: what arrives is drained frame by frame. */
  lemma ExchangeDelivers<V>(s: State<V>, now: int, env: Env, decode: string -> Option<V>, frames: seq<WireFrame>)
    requires s.readBuf == "" && WriteSome(s, env.sends).1.Moved?
    requires Received(env.recvs) == "\n" + Wires(frames)
    requires forall i :: 0 <= i < |frames| ==> Frameable(frames[i].msgType, frames[i].payload)
    ensures var r := Exchange(s, now, env, decode);
      r.messages == s.messages + Decoded(frames, decode) && r.readBuf == "\n"
  {
    ExchangeDrains(s, now, env, decode);
    var u := ReadSome(WriteSome(s, env.sends).0, env.recvs).0;
    DrainWires(u, frames, decode, now);
  }

  /** When something arrives and nothing raises, the exchange ends by draining what was read. */
  lemma ExchangeDrains<V>(s: State<V>, now: int, env: Env, decode: string -> Option<V>)
    requires WriteSome(s, env.sends).1.Moved? && Received(env.recvs) != ""
    ensures var u := ReadSome(WriteSome(s, env.sends).0, env.recvs).0;
      && Exchange(s, now, env, decode) == Drain(u, decode, now).0
      && u.readBuf == s.readBuf + Received(env.recvs) && u.messages == s.messages
  {
    var t := WriteSome(s, env.sends).0;
    WriteSomeTrims(s, env.sends);
    ReadSomeAppends(t, env.recvs);
  }
}
