# fahstatus `Connection` in Dafny

This project models the `Connection` class of `fahstatus.py`. The class is
the client side of the Folding@home client's command port: it connects
without blocking, queues commands, and writes what is queued. It also reads
what has arrived, cuts the PyON frames out of the received text and keeps
their decoded values. A timer decides when to retry a connect, when to give
up on a pending connect, and when to drop a connection that has gone quiet.

There are five modules:

- `Wrappers` defines `Option`.
- `Text` models the Python 2 string operations that `parse` uses:
  - `str.find`;
  - `str.split(None, 2)`;
  - `int()` on a version token;
  - the decimal rendering a peer uses to write a version.
- `PyOn` models one `parse` as a pure scan of the receive buffer. `ScanFrame`
  reports one of four outcomes:
  - no complete frame;
  - a bad header line;
  - a version that is not an integer;
  - a frame with its version, type, payload and the text that remains.

  The module also proves how frames written by a peer (`Wire`) are read back.
- `Session` holds the whole object as a value, `State`, with one function per
  method of the class:
  - `Init`, `Close`, `Reset`, `ConnectionError`, `ConnectionLost`;
  - `IsConnected`, `Status`, `SetInitCommands`, `QueueCommand`, `QueueAll`;
  - `Open`, `ReadSome`, `WriteSome`, `ParseMessage`, `Parse`;
  - `Drain`, for the `while self.parse()` loop;
  - `Update`.

  Its lemmas state what these operations promise.
- `Client` is the class itself: `Client.Connection` has the same fields,
  updated in place by methods with the same loops. Each method's
  postcondition says that the object's `Snapshot()` after the call is what
  the matching `Session` function computes from the snapshot before the call.
  Every lemma proved about `Session` therefore holds for the object.

The world outside the object comes in as parameters:

- The clock is an integer `now`.
- What `select` reports is a `Readiness`.
- The result of `connect_ex` is an `Option<Errno>`, with `None` standing
  for 0.
- `send` and `recv` are scripts of outcomes. A script that runs out means
  the call would block.
- One `update` receives all of these in an `Env`.
- `eval` of a payload is a `decode` function that either yields a value or
  fails.

## Model

| member | source | states |
|---|---|---|
| Session.Init | fahstatus.py:42-51 | A new connection keeps its settings and has no init commands. It has no socket, is not connected, and is consistent (never connected without a socket). Its inbox and both buffers are empty, no failure reason is set, and both timers are 0. |
| Session.Status | fahstatus.py:61-64 | The status is "Online" exactly when the connection is up. |
| Session.Close | fahstatus.py:118-128 | After `close` there is no socket and the connection is down. |
| Session.CloseOnlyDrops | fahstatus.py:118-128 | `close` changes only the socket and the connected flag, so closing twice is the same as closing once. |
| Session.Reset | fahstatus.py:91-98 | After `reset` there is no socket and the connection is down. The inbox and both buffers are empty, the failure reason is cleared, and both timers are 0. The settings and the init commands are kept. |
| Session.ResetRestarts | fahstatus.py:91-98 | `reset` returns the session to the state the constructor builds, keeping the settings and the init commands. A second `reset` changes nothing. |
| Session.Classify | fahstatus.py:138-144 | The reason is 'refused' exactly for ECONNREFUSED and 'connect' exactly for ETIMEDOUT, ENETDOWN or ENETUNREACH. It is never 'closed'. |
| Session.ConnectionError | fahstatus.py:138-144 | After `connection_error` there is no socket and the connection is down. The recorded reason is the classified error number. Nothing else changes. |
| Session.ConnectionLost | fahstatus.py:131-135 | After `connection_lost` there is no socket and the connection is down. The recorded reason is 'closed'. Nothing else changes. |
| Session.IsConnected | fahstatus.py:67-78 | On a consistent session the answer equals the new connected flag, and the session stays consistent. |
| Session.IsConnectedRule | fahstatus.py:67-78 | The answer is yes exactly when there is a socket that was already up or that `select` reports writable. A session that was up is left untouched. A pending socket reported in error is closed with reason 'refused'. Otherwise only the connected flag changes. |
| Session.QueueCommand | fahstatus.py:196-198 | `queue_command` appends the command and then a newline to the write buffer, keeping what was queued before. Nothing else changes. `LinesSnoc` and `QueueAll` extend this to a list of commands. |
| Session.QueueAll | fahstatus.py:58 | Queueing a list of commands appends their lines to the write buffer, in order. Nothing else changes. |
| Session.LinesAppend | fahstatus.py:196-198 | The lines of two command lists, one after the other, are the lines of their concatenation. |
| Session.LinesSnoc | fahstatus.py:196-198 | Queueing one more command appends that command and a newline. |
| Session.SetInitCommands | fahstatus.py:54-58 | The new list is kept with the settings. The messages and the read buffer are unchanged, and the write buffer only grows at the end. `SetInitCommandsQueues` says exactly what is queued. |
| Session.SetInitCommandsQueues | fahstatus.py:54-58 | The new list is kept. Its lines are queued exactly when the connection is up afterwards. The read buffer and the messages are unchanged. |
| Session.AuthCommand | fahstatus.py:114 | The command is `auth "`, then the password as given, then a closing quote. |
| Session.AuthLineSingle | fahstatus.py:114 | The password is not escaped. The queued `auth` line is a single protocol line exactly when the password holds no newline. Otherwise the text after the password's first newline reaches the peer as a separate command. |
| Session.Open | fahstatus.py:101-115 | After `open` the session is consistent and records `now` as the connect time. It has a socket unless `socket()` itself raised. |
| Session.OpenBootstrap | fahstatus.py:101-115 | `open` raises exactly when `socket()` or `connect_ex` raises, or `connect_ex` returns something other than 0, "in progress" or "would block" (EAGAIN, EWOULDBLOCK or WSAEWOULDBLOCK). Only that last case records a reason, 'connect'. A raise queues nothing, and the new socket is kept unless `socket()` raised. Otherwise the write buffer holds exactly the `auth` line (if a non-empty password is set) and then the init commands. Earlier queued commands, messages and buffered input are gone either way. |
| Session.RecvLoop | fahstatus.py:147-168 | The loop appends the received chunks to the buffer. It counts them when it ends normally. It ends fatally only when nothing has arrived yet. |
| Session.RecvLoopFails | fahstatus.py:147-168 | The loop fails exactly when no byte arrives before an empty chunk or a hard error, and it reports that outcome. |
| Session.ReadSome | fahstatus.py:147-168 | `read_some` appends the received chunks to the read buffer, and a normal return reports their total length. The settings, the messages and the write buffer are unchanged. `ReadSomeAppends` says when it raises. |
| Session.ReadSomeAppends | fahstatus.py:147-168 | `read_some` appends what arrived to the read buffer, in order, and returns its length. It raises exactly when nothing arrived before the peer closed or a hard error. Then the socket is closed and the reason is 'closed' or the classified error. Nothing else changes. |
| Session.SendLoop | fahstatus.py:171-193 | When the loop does not end normally, nothing was sent and the buffer is unchanged. A fatal error is never "would block". |
| Session.SendLoopTrims | fahstatus.py:171-193 | When the loop ends normally, the count covers a prefix of the buffer, and exactly that prefix has been removed. |
| Session.WriteSome | fahstatus.py:171-193 | `write_some` leaves the settings, the messages and the read buffer alone. When it raises, the write buffer is unchanged and the socket is closed. Its full contract is `WriteSomeTrims`. |
| Session.WriteSomeTrims | fahstatus.py:171-193 | `write_some` removes exactly the bytes it reports as sent from the front of the write buffer. It sends the room the peer offered, capped by the buffer's size. An empty buffer sends nothing and changes nothing. With something to send, it raises exactly when the first `send` takes nothing or fails with an error other than would-block. Then nothing was sent, the socket is closed and the reason is recorded. Nothing else changes. |
| Session.SendLoopCount | fahstatus.py:176-193 | When the loop ends normally, it has sent the room the peer offered before its first error or refusal, capped by the size of the buffer. |
| Session.SendLoopDrains | fahstatus.py:174-180 | If the peer offers room for every byte before it errors or takes nothing, the loop sends the whole buffer. |
| Session.WriteSomeDrains | fahstatus.py:171-193 | With room for all of it, `write_some` empties the write buffer and reports its length. |
| Session.ParseMessage | fahstatus.py:201-209 | The session is unchanged exactly when the payload does not decode. Both buffers and the settings are always kept. `ParseMessageAppends` says what is appended. |
| Session.ParseMessageAppends | fahstatus.py:201-209 | A payload that decodes appends exactly one message, `(version, type, value)`, and restarts the idle timer. One that does not decode changes nothing. |
| Session.Parse | fahstatus.py:212-234 | `parse` never touches the settings, the socket, the failure reason or the write buffer. It adds no message unless it consumes a frame. `ParseKeeps`, `ParseNothingYet` and `ParseFrame` state the rest. |
| Session.ApplyScanKeeps | fahstatus.py:212-234 | Whatever one `parse` does keeps a prefix of the messages and a suffix of the buffer, and consumes bytes when it succeeds. On failure it adds no message. It leaves the other fields alone. |
| Session.ParseKeeps | fahstatus.py:212-234 | The same bounds hold for `parse` on the current buffer. |
| Session.ParseNothingYet | fahstatus.py:212-234 | `parse` returns False exactly when no frame is complete yet, and then changes nothing. |
| Session.ParseFrame | fahstatus.py:227-232 | For a complete frame, the payload between the header line and the delimiter goes to `parse_message`. The buffer keeps what follows the delimiter's `\n---`. |
| Session.Drain | fahstatus.py:251-252 | Draining never grows the read buffer and never removes a message. It leaves the settings, the socket, the failure reason and the write buffer alone. `DrainEnds` and `DrainWires` state the rest. |
| Session.DrainSplit | fahstatus.py:250-252 | How the bytes are split across reads does not change what a drain delivers. Take a drain that ends without an exception. Draining the same buffer with more bytes already appended ends where draining its remainder with those bytes appended ends. |
| Session.DrainEnds | fahstatus.py:251-252 | Draining only appends messages and only cuts the front of the buffer. When it stops without an exception, what is left is incomplete. |
| Session.BadVersionStalls | fahstatus.py:224 | A header whose version is not an integer makes every later `parse` raise on it, whatever arrives afterwards. |
| Session.ShortHeaderRecovers | fahstatus.py:220-222 | The stream recovers from a short header. The drain that meets it raises and keeps the newline that ended the line. The next drain then delivers every decodable frame that followed, in order. |
| Session.Decoded | fahstatus.py:201-209 | Frames yield at most one message each. |
| Session.DrainWires | fahstatus.py:212-234 | Draining whole frames, as a peer writes them, reads every frame. The decodable ones become messages in order, and only the last delimiter's newline is left. |
| Session.DrainWireStep | fahstatus.py:229-231 | The frame at the front of the buffer is consumed and handed to `parse_message`. |
| Session.IdleCheck | fahstatus.py:265-269 | The connection stays up exactly when it was up and the idle timeout has not expired. Only the connected flag and the socket may change. |
| Session.Connect | fahstatus.py:240-246 | The first part of `update` keeps the settings and the init commands. When `open` raises, the connect time is `now` and the connection is down. `UpdateRetryRule` and `UpdateConnectTimeout` say when it opens or closes. |
| Session.Exchange | fahstatus.py:249-252 | Writing, reading and parsing keep the settings and the connect time. While the socket stays open, the connected flag and the failure reason are unchanged. `ExchangeDrains` says what is parsed. |
| Session.ExchangeKeeps | fahstatus.py:249-252 | Writing, reading and parsing keep the session consistent and leave the settings and the connect time alone. |
| Session.Update | fahstatus.py:237-269 | `update` keeps the settings and the init commands. `UpdateConsistent`, `UpdateIdleRule` and `UpdateDelivers` state the rest. |
| Session.UpdateConsistent | fahstatus.py:237-269 | `update` keeps a consistent session consistent. |
| Session.UpdateRetryRule | fahstatus.py:240-243 | `update` opens a new socket, restarting the connect timer at `now`, exactly when the first check finds no socket and the retry interval has passed. |
| Session.UpdateWaits | fahstatus.py:240-248 | With no socket and the retry interval not over, `update` changes nothing. |
| Session.UpdateConnectTimeout | fahstatus.py:245-246 | A pending connect that `select` reports neither writable nor failed is closed once it has waited more than 60 seconds, and left alone before that. |
| Session.UpdateIdleRule | fahstatus.py:265-269 | After `update`, a session that is still up has had a message within 10 seconds, or none yet. A stale session that receives nothing new is dropped. |
| Session.UpdateNoDataNoParse | fahstatus.py:250-252 | When nothing arrives, `update` does not parse, even if a complete frame is waiting in the buffer. |
| Session.UpdateDelivers | fahstatus.py:237-269 | One `update` of a connected session whose write succeeds delivers the arriving frames: the decodable ones are appended to the messages in order. |
| Session.ExchangeDelivers | fahstatus.py:249-252 | The write, read and parse steps of `UpdateDelivers`. |
| Session.ExchangeDrains | fahstatus.py:249-252 | When something arrives and nothing raises, the exchange ends by draining the read buffer, extended by what arrived. |
| PyOn.ReadHeader | fahstatus.py:217-225 | A header is short exactly when the split has fewer than three tokens. A good header's type starts with a non-blank. |
| PyOn.ScanFrame | fahstatus.py:212-234 | What `parse` keeps after cutting is a proper suffix of the buffer. |
| PyOn.ScanNoFrame | fahstatus.py:212-234 | `parse` finds nothing exactly when the buffer is incomplete: there is no header tag, or the header line has not ended, or a good header has no delimiter yet. |
| PyOn.ScanFindsFrame | fahstatus.py:212-234 | `parse` consumes a frame exactly when a complete, well-formed one is buffered. |
| PyOn.ScanLine | fahstatus.py:220-232 | Once the header line is known, what `parse` keeps after a short header or a complete frame is a proper suffix of the buffer. `ScanFrameAt` and `ScanShortHeader` say which suffix. |
| PyOn.ScanFrameAt | fahstatus.py:227-231 | For a complete frame, the payload is every byte between the header's newline and the delimiter. What is kept starts with the delimiter's final newline. |
| PyOn.ScanShortHeader | fahstatus.py:220-222 | A header line with fewer than three tokens cuts the buffer back to that line's newline. |
| PyOn.ShortHeaderWords | fahstatus.py:218-220 | A header is short exactly when its line has fewer than three words. |
| PyOn.ShortHeaderAtFront | fahstatus.py:220-222 | A short `PyON ` header line at the front of the buffer is rejected. The buffer is cut back to the newline that ended it, so everything after that line is kept. |
| PyOn.ScanNonIntegerVersion | fahstatus.py:224 | A non-integer version raises before any trimming. |
| PyOn.ScanExtend | fahstatus.py:212-234 | Appending bytes never changes what `parse` found. Only the text it keeps grows. |
| PyOn.DelimiterAfterLine | fahstatus.py:213-227 | The delimiter cannot start before the end of the header line. |
| PyOn.ScanWire | fahstatus.py:212-234 | A frame written by a peer, behind a newline, is read back with its version, type and payload. The delimiter's final newline stays in front of what followed. |
| PyOn.HeaderLineReads | fahstatus.py:217-224 | A header line a peer writes splits back into its version and type. |
| PyOn.OneLineFrameable | fahstatus.py:227 | A one-line payload other than `---` cannot hide a delimiter. |
| PyOn.UnitsSample | fahstatus.py:271-300 | The daemon's `units` reply, cut down to one slot on one line, is read back as version 1 of type `units`. |
| Text.Find | fahstatus.py:213 | `find` returns -1 exactly when the pattern does not occur from the start position. Otherwise it returns the first occurrence. |
| Text.FindExtend | fahstatus.py:213-227 | An occurrence found is still the first one after more text is appended. |
| Text.SplitTokens | fahstatus.py:218 | `split(None, 2)` yields non-empty tokens starting with a non-blank. The first two hold no whitespace. |
| Text.SplitCount | fahstatus.py:218 | `split(None, maxsplit)` returns one token per word of the line, independently counted as the starts of runs of non-blank bytes, up to `maxsplit + 1` tokens. |
| Text.SplitThree | fahstatus.py:218 | A line `w1 w2 rest` splits into exactly those three tokens. |
| Text.ParseInt | fahstatus.py:224 | `int()` succeeds exactly on an optionally signed run of decimal digits. |
| Text.ParseShowInt | fahstatus.py:224 | Reading back a rendered integer gives the integer. |
| Client.Connection.constructor | fahstatus.py:42-51 | The new object is `Session.Init` of its settings. |
| Client.Connection.SetInitCommands | fahstatus.py:54-58 | The object moves as `Session.SetInitCommands` says. |
| Client.Connection.GetStatus | fahstatus.py:61-64 | Returns "Online" exactly when connected. |
| Client.Connection.IsConnected | fahstatus.py:67-78 | The object and the answer are as `Session.IsConnected` says. |
| Client.Connection.Reset | fahstatus.py:91-98 | As `Session.Reset`. |
| Client.Connection.Open | fahstatus.py:101-115 | As `Session.Open`, including whether it raised. |
| Client.Connection.Close | fahstatus.py:118-128 | As `Session.Close`. |
| Client.Connection.ConnectionLost | fahstatus.py:131-135 | As `Session.ConnectionLost`. |
| Client.Connection.ConnectionError | fahstatus.py:138-144 | As `Session.ConnectionError`. |
| Client.Connection.ReadSome | fahstatus.py:147-168 | The `recv` loop leaves the object and the result as `Session.ReadSome` says. |
| Client.Connection.WriteSome | fahstatus.py:171-193 | The `send` loop leaves the object and the result as `Session.WriteSome` says. |
| Client.Connection.QueueCommand | fahstatus.py:196-198 | The command and a newline are appended to the write buffer. |
| Client.Connection.QueueAll | fahstatus.py:58 | Each command is queued in turn, as `Session.QueueAll` says. |
| Client.Connection.ParseMessage | fahstatus.py:201-209 | As `Session.ParseMessage`. |
| Client.Connection.Parse | fahstatus.py:212-234 | The object and the outcome are as `Session.Parse` says. |
| Client.Connection.ParseLine | fahstatus.py:217-234 | Once the header line is located, the rest of `parse` acts as `ScanLine` says. |
| Client.Connection.ParseAll | fahstatus.py:251-252 | The `while self.parse()` loop ends as `Session.Drain` says. |
| Client.Connection.Update | fahstatus.py:237-269 | One poll leaves the object as `Session.Update` says. |

## Left out

- Sockets, `select` and the clock are parameters. What they report comes in
  as `Readiness`, `connect_ex`'s result, `send`/`recv` scripts and an integer
  `now`. Error numbers are a symbolic `Errno`.
- Time is an integer rather than a float. The timeouts compare it the same
  way: `last + 60 < now`, `last + retry_rate < now`, `last + 10 < now`.
- `eval` is the `decode` parameter, and Python's evaluation of a payload is
  not modelled. `parse_message` catches any exception from `eval`, which is
  a `decode` result of `None`.
- The 10 MiB bound per `recv` is a property of the `recv` script, not of
  the model.
- `print`, exception messages and `debug` output are left out. An exception
  becomes an outcome value (`Raised`, `Rejected`, or the flag `Open`
  returns).
- `can_write` and `can_read` (fahstatus.py:81-88) are never called, so they
  are left out.
- The Darwin EPIPE handler in `update` (fahstatus.py:254-258) and the
  Windows error number are left out. `WSAEWOULDBLOCK` is one more
  would-block `Errno`.
- `get_uptime`, `get_nvidia`, `send_to_tsdb` and the `__main__` script
  (fahstatus.py:390-496) are not part of this model.
- Error numbers follow Linux and macOS, where EAGAIN and EWOULDBLOCK are
  one number: a `connect_ex` result of EAGAIN is pending, as for `send`
  and `recv`.
- `int(port)` in the constructor is not modelled: the port is already an
  integer.
- `shutdown` and `close` on the socket may fail silently. `hasSocket` only
  records whether there is a socket.
- Session.SetInitCommands keeps the list as a value. `set_init_commands`
  (fahstatus.py:55) stores the caller's list itself, so changes the caller
  makes to that list afterwards are not modelled.
- Session.UpdateDelivers covers only frames written by a peer into an empty
  buffer, with the write not raising. That the split of the bytes across
  reads does not matter is proved separately, for the drain loop, by
  `DrainSplit`.
- Each `char` of a string stands for one byte of a Python 2 `str`. A `char`
  above 255 has no counterpart in the program.
- PyOn.UnitsSample uses a payload of one short line, not the multi-line
  sample in the source comment.

Behaviour of the code a caller may not expect:

- `open` calls `reset`, so commands queued while disconnected are dropped
  when the next connection is opened. Only the `auth` line and the init
  commands are sent (`OpenBootstrap`).
- A header whose version is not an integer raises before the buffer is
  trimmed. Every later `parse` raises on the same header
  (`BadVersionStalls`).
- An exception from `parse` ends the drain loop. Frames still buffered wait
  for the next `update` that reads something (`UpdateNoDataNoParse`).
- The failure reasons are 'refused', 'connect', 'closed' and 'error'.
- When `update` returns because the connection is not up, it skips the idle
  timeout.
- A short header line is dropped with the rest of its line, and the frames
  behind it are read by the next drain (`ShortHeaderRecovers`).
- The password is placed in the `auth` command unescaped, so a password
  containing a newline sends a second command (`AuthLineSingle`).
