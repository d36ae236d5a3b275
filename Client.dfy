/**
 * The `Connection` object itself: the same fields, updated in place by the
 * same methods. Each method is proved to leave the object in the state the
 * matching function of `Session` computes from the state before the call,
 * so every property proved there about a function holds of the method.
 */
module Client {
  import opened Wrappers
  import opened Text
  import opened PyOn
  import opened Session

  class Connection<V> {
    var address: string
    var port: int
    var password: Option<string>
    var retryRate: int
    var initCommands: seq<string>
    /** `socket is not None`. */
    var hasSocket: bool
    var connected: bool
    var messages: seq<Message<V>>
    var readBuf: string
    var writeBuf: string
    var failReason: Option<FailReason>
    var lastMessage: int
    var lastConnect: int

    /** The object's fields as a `Session.State`. */
    function Snapshot(): State<V>
      reads this
    {
      State(Config(address, port, password, retryRate), initCommands, hasSocket, connected,
            messages, readBuf, writeBuf, failReason, lastMessage, lastConnect)
    }

    /** `__init__`: keep the settings, no init commands, no socket, then `reset`. */
    constructor (address: string, port: int, password: Option<string>, retryRate: int)
      ensures Snapshot() == Session.Init(Config(address, port, password, retryRate))
    {
      this.address := address;
      this.port := port;
      this.password := password;
      this.retryRate := retryRate;
      initCommands := [];
      hasSocket := false;
      connected := false;
      messages := [];
      readBuf := "";
      writeBuf := "";
      failReason := None;
      lastMessage := 0;
      lastConnect := 0;
      new;
      Reset();
    }

    /** `set_init_commands`. */
    method SetInitCommands(commands: seq<string>, sel: Readiness)
      modifies this
      ensures Snapshot() == Session.SetInitCommands(old(Snapshot()), commands, sel)
    {
      initCommands := commands;
      var up := IsConnected(sel);
      if up {
        QueueAll(initCommands);
      }
    }

    /** `get_status`. */
    method GetStatus() returns (status: string)
      ensures status == Session.Status(Snapshot())
      ensures status == "Online" <==> connected
    {
      if connected {
        return "Online";
      }
      return "Connecting";
    }

    /** `is_connected`, with `sel` for what `select` reports. */
    method IsConnected(sel: Readiness) returns (up: bool)
      modifies this
      ensures (Snapshot(), up) == Session.IsConnected(old(Snapshot()), sel)
    {
      if !hasSocket {
        return false;
      }
      if connected {
        return true;
      }
      if sel.writable {
        connected := true;
      } else if sel.exceptional {
        failReason := Some(Refused);
        Close();
      }
      up := connected;
    }

    /** `reset`. */
    method Reset()
      modifies this
      ensures Snapshot() == Session.Reset(old(Snapshot()))
    {
      Close();
      messages := [];
      readBuf := "";
      writeBuf := "";
      failReason := None;
      lastMessage := 0;
      lastConnect := 0;
    }

    /**
     * `open` at time `now`, where `connectResult` says how `socket()` and
     * `connect_ex` ended. The result says it raised.
     */
    method Open(now: int, connectResult: ConnectResult) returns (raised: bool)
      modifies this
      ensures (Snapshot(), raised) == Session.Open(old(Snapshot()), now, connectResult)
    {
      Reset();
      lastConnect := now;
      if connectResult.SocketRaises? {
        return true;
      }
      hasSocket := true;
      if connectResult.ConnectRaises? {
        return true;
      }
      if ConnectRefused(connectResult) {
        failReason := Some(ConnectFailed);
        return true;
      }
      if password.Some? && password.value != "" {
        QueueCommand(AuthCommand(password.value));
      }
      QueueAll(initCommands);
      raised := false;
    }

    /** `close`. */
    method Close()
      modifies this
      ensures Snapshot() == Session.Close(old(Snapshot()))
    {
      hasSocket := false;
      connected := false;
    }

    /** `connection_lost`, up to the exception it raises. */
    method ConnectionLost()
      modifies this
      ensures Snapshot() == Session.ConnectionLost(old(Snapshot()))
    {
      Close();
      failReason := Some(Closed);
    }

    /** `connection_error`. */
    method ConnectionError(err: Errno)
      modifies this
      ensures Snapshot() == Session.ConnectionError(old(Snapshot()), err)
    {
      Close();
      if err == EConnRefused {
        failReason := Some(Refused);
      } else if err in {ETimedOut, ENetDown, ENetUnreach} {
        failReason := Some(ConnectFailed);
      } else {
        failReason := Some(Error);
      }
    }

    /**
     * `read_some`, where `recvs` lists what the successive `recv` calls
     * return; once it runs out, `recv` would block.
     */
    method ReadSome(recvs: seq<RecvOutcome>) returns (t: Transfer)
      modifies this
      ensures (Snapshot(), t) == Session.ReadSome(old(Snapshot()), recvs)
    {
      var bytesRead: nat := 0;
      var i := 0;
      while i < |recvs|
        invariant 0 <= i <= |recvs|
        invariant RecvLoop(readBuf, recvs[i..], bytesRead) == RecvLoop(old(readBuf), recvs, 0)
        invariant Snapshot() == old(Snapshot()).(readBuf := readBuf)
      {
        assert recvs[i..][0] == recvs[i] && recvs[i..][1..] == recvs[i + 1..];
        match recvs[i]
        case Chunk(data) =>
          if data != [] {
            readBuf := readBuf + data;
            bytesRead := bytesRead + |data|;
            i := i + 1;
          } else if bytesRead != 0 {
            return Moved(bytesRead);
          } else {
            ConnectionLost();
            return Raised;
          }
        case RecvError(err) =>
          if IsWouldBlock(err) || bytesRead != 0 {
            return Moved(bytesRead);
          }
          ConnectionError(err);
          return Raised;
      }
      return Moved(bytesRead);
    }

    /**
     * `write_some`, where `sends` lists what the successive `send` calls
     * do; once it runs out, `send` would block.
     */
    method WriteSome(sends: seq<SendOutcome>) returns (t: Transfer)
      modifies this
      ensures (Snapshot(), t) == Session.WriteSome(old(Snapshot()), sends)
    {
      if |writeBuf| == 0 {
        return Moved(0);
      }
      ghost var s0 := Snapshot();
      ghost var target := SendLoop(writeBuf, sends, 0);
      var bytesWritten: nat := 0;
      var i := 0;
      var end := None;
      while i < |sends| && end == None
        invariant 0 <= i <= |sends|
        invariant end == None ==> SendLoop(writeBuf, sends[i..], bytesWritten) == target
        invariant end != None ==> (writeBuf, end.value) == target
        invariant Snapshot() == s0.(writeBuf := writeBuf)
        decreases |sends| - i + (if end == None then 1 else 0)
      {
        match sends[i]
        case Accepts(room) =>
          var count := Min(room, |writeBuf|);
          if count != 0 {
            SendLoopTakes(writeBuf, sends, i, bytesWritten, count);
            writeBuf := writeBuf[count..];
            bytesWritten := bytesWritten + count;
            i := i + 1;
          } else if bytesWritten != 0 {
            end := Some(Done(bytesWritten));
          } else {
            end := Some(PeerClosed);
          }
        case SendError(err) =>
          if IsWouldBlock(err) || bytesWritten != 0 {
            end := Some(Done(bytesWritten));
          } else {
            end := Some(Failed(err));
          }
      }
      if end == None {
        end := Some(Done(bytesWritten));
      }
      match end.value
      case Done(n) =>
        t := Moved(n);
      case PeerClosed =>
        ConnectionLost();
        t := Raised;
      case Failed(err) =>
        ConnectionError(err);
        t := Raised;
    }

    /** `queue_command`. */
    method QueueCommand(command: string)
      modifies this
      ensures Snapshot() == Session.QueueCommand(old(Snapshot()), command)
    {
      writeBuf := writeBuf + command + "\n";
    }

    /** `map(self.queue_command, commands)`. */
    method QueueAll(commands: seq<string>)
      modifies this
      ensures Snapshot() == Session.QueueAll(old(Snapshot()), commands)
    {
      for i := 0 to |commands|
        invariant Snapshot() == old(Snapshot()).(writeBuf := old(writeBuf) + Lines(commands[..i]))
      {
        LinesSnoc(commands[..i], commands[i]);
        assert commands[..i + 1] == commands[..i] + [commands[i]];
        QueueCommand(commands[i]);
      }
      assert commands[..|commands|] == commands;
    }

    /** `parse_message`, with `decode` in place of `eval` and `now` for the time. */
    method ParseMessage(version: int, msgType: string, payload: string,
                        decode: string -> Option<V>, now: int)
      modifies this
      ensures Snapshot() == Session.ParseMessage(old(Snapshot()), version, msgType, payload, decode, now)
    {
      match decode(payload)
      case Some(value) =>
        messages := messages + [Message(version, msgType, value)];
        lastMessage := now;
      case None =>
    }

    /** `parse`: `Consumed` for True, `NothingYet` for False, `Rejected` when it raises. */
    method Parse(decode: string -> Option<V>, now: int) returns (outcome: ParseOutcome)
      modifies this
      ensures (Snapshot(), outcome) == Session.Parse(old(Snapshot()), decode, now)
    {
      var start := Find(readBuf, HeaderTag, 0);
      if start == -1 {
        ScanFrameNoTag(readBuf);
        return NothingYet;
      }
      var eol := Find(readBuf, "\n", start + 1);
      if eol == -1 {
        ScanFrameNoLineEnd(readBuf, start);
        return NothingYet;
      }
      ScanFrameLine(readBuf, start, eol);
      outcome := ParseLine(start, eol, decode, now);
    }

    /** The rest of `parse` once the header line is known to lie between `start` and `eol`. */
    method ParseLine(start: nat, eol: nat, decode: string -> Option<V>, now: int) returns (outcome: ParseOutcome)
      requires start < eol < |readBuf| && Find(readBuf, Delimiter, start) + 5 <= |readBuf|
      modifies this
      ensures var buf := old(readBuf);
        (Snapshot(), outcome)
        == ApplyScan(old(Snapshot()),
                     ScanLine(buf, start, eol, ReadHeader(buf[start + 1..eol]), Find(buf, Delimiter, start)),
                     decode, now)
    {
      var header := ReadHeader(readBuf[start + 1..eol]);
      var end := Find(readBuf, Delimiter, start);
      ghost var scan := ScanLine(readBuf, start, eol, header, end);
      match header
      case ShortHeader =>
        readBuf := readBuf[eol..];
        return Rejected;
      case NonIntegerVersion =>
        return Rejected;
      case Header(version, msgType) =>
        if end == -1 {
          return NothingYet;
        }
        var payload, rest := Between(readBuf, eol + 1, end), readBuf[end + 4..];
        assert scan == Frame(version, msgType, payload, rest);
        ParseMessage(version, msgType, payload, decode, now);
        readBuf := rest;
        return Consumed;
    }

    /** `while self.parse(): continue`; the result says the last `parse` raised. */
    method ParseAll(decode: string -> Option<V>, now: int) returns (raised: bool)
      modifies this
      ensures (Snapshot(), raised) == Session.Drain(old(Snapshot()), decode, now)
    {
      raised := false;
      var more := true;
      while more
        invariant more ==> Session.Drain(Snapshot(), decode, now) == Session.Drain(old(Snapshot()), decode, now)
        invariant !more ==> (Snapshot(), raised) == Session.Drain(old(Snapshot()), decode, now)
        decreases |readBuf| + (if more then 1 else 0)
      {
        ParseKeeps(Snapshot(), decode, now);
        var outcome := Parse(decode, now);
        if outcome != Consumed {
          more := false;
          raised := outcome == Rejected;
        }
      }
    }

    /**
     * `update` at time `now`, with `env` for what the network answers and
     * `decode` for `eval`. Exceptions end the step they come from, as the
     * handlers in `update` do; the idle timeout follows unless `update`
     * returned because the connection is not up.
     */
    method Update(now: int, env: Env, decode: string -> Option<V>)
      modifies this
      ensures Snapshot() == Session.Update(old(Snapshot()), now, env, decode)
    {
      var raised := false;
      var up := IsConnected(env.firstSelect);
      if !up {
        if !hasSocket {
          if lastConnect + retryRate < now {
            raised := Open(now, env.connectResult);
          }
        } else if lastConnect + ConnectTimeout < now {
          Close();
        }
      }
      if !raised {
        up := IsConnected(env.secondSelect);
        if !up {
          return;
        }
        var wrote := WriteSome(env.sends);
        if !wrote.Raised? {
          var got := ReadSome(env.recvs);
          if got != Moved(0) && !got.Raised? {
            raised := ParseAll(decode, now);
          }
        }
      }
      if connected && lastMessage != 0 && lastMessage + IdleTimeout < now {
        Close();
      }
    }
  }
}
