/** The connection handler as it runs: a read buffer, a pending header and a response buffer,
    changed in place around the shared server. */
module Connection {
  import opened Bytes
  import opened Command
  import opened Parser
  import opened ParserCode
  import opened Response
  import opened Conversation
  import opened Handler
  import opened Session
  import opened Admission

  class Connection {
    var readBuf: bytes
    var pendingStorage: Option<PendingStorageCommand>
    var status: Status
    const response: ResponseWriter
    ghost var received: bytes
    var written: bytes
    var broken: bool
    const limit: Option<nat>

    constructor (limit: Option<nat>)
      ensures View() == Opened(limit) && fresh(response) && response.buf == []
    {
      readBuf, pendingStorage, status := [], None, Waiting;
      received, written, broken := [], [], false;
      this.limit := limit;
      response := new ResponseWriter();
    }

    ghost function View(): Session
      reads this
    {
      Session(Conn(readBuf, pendingStorage, status), received, written, limit, broken)
    }

    /** `stream.write_all` of one reply. */
    method WriteOut(buf: bytes)
      modifies this`written, this`broken
      ensures View() == WriteAll(old(View()), buf)
    {
      var room := if limit.None? || |written| + |buf| <= limit.value then |buf|
                  else if |written| <= limit.value then limit.value - |written| else 0;
      written := written + buf[..room];
      broken := broken || room < |buf|;
    }

    /** The inner loop over a non-empty read buffer. The response buffer is empty at every parse. */
    method ProcessBuffer(server: Server, clock: Clock)
      requires status == Draining && !broken && response.buf == []
      modifies this, response, server, server.storage, server.metrics
      ensures (server.View(), View()) == Drain(old(server.View()), old(View()), clock)
      ensures response.buf == []
      ensures received == old(received)
    {
      while true
        invariant status == Draining && !broken && response.buf == []
        invariant Drain(server.View(), View(), clock) == Drain(old(server.View()), old(View()), clock)
        invariant received == old(received)
        decreases |readBuf|
      {
        ghost var s, x := server.View(), View();
        TurnShrinks(x.conn);
        ProcessOne(server, clock);
        if status != Draining || broken {
          break;
        }
      }
    }

    /** One turn: parse, execute, consume, answer. */
    method ProcessOne(server: Server, clock: Clock)
      requires status == Draining && !broken && response.buf == []
      modifies this, response, server, server.storage, server.metrics
      ensures (server.View(), View()) == TurnSession(old(server.View()), old(View()), clock)
      ensures response.buf == []
      ensures received == old(received)
    {
      hide Parse, StorageData, StorageCommandLine, Exec, Wire, WriteAll, ProtocolError.Text;
      var parseResult;
      if pendingStorage.Some? {
        parseResult := StorageData(readBuf, pendingStorage.value);
      } else {
        parseResult := ParseBuffer(readBuf);
      }
      match parseResult
      case Complete(cmd, consumed) =>
        ConsumedFits(View().conn);
        TakeCommand(server, clock, cmd, consumed);
      case NeedMoreData =>
        if pendingStorage.None? {
          var header := ParseStorageCommandLine(readBuf);
          if header.Ok? && header.value.Some? {
            pendingStorage := header.value;
          }
        }
        status := Waiting;
      case Error(e) =>
        Recover(server, e, clock);
      case Panic =>
        status := Gone(false);
        WriteNothing(View());
    }

    /** Answer a parse error and drop the offending line. */
    method Recover(server: Server, e: ProtocolError, ghost clock: Clock)
      requires status == Draining && !broken && response.buf == []
      modifies this, response, server.metrics
      ensures var n := match FindCrlf(old(readBuf)) case Some(pos) => pos + 2 case None => |old(readBuf)|;
              var (s', sent) := Serve(old(server.View()), Rejected(e, old(readBuf)[..n]), clock);
              var c := Conn(old(readBuf)[n..], None, Waiting);
              server.View() == s' && View() == WriteAll(old(View()).(conn := c), OptionalWire(sent))
      ensures response.buf == []
      ensures received == old(received)
    {
      hide Wire, WriteAll, FindCrlf, ProtocolError.Text, Exec;
      server.metrics.protocolErrors := server.metrics.protocolErrors + 1;
      response.Line(ClientError(e.Text()));
      var pos := FindCrlf(readBuf);
      if pos.Some? {
        readBuf := readBuf[pos.value + 2..];
      } else {
        readBuf := [];
        assert readBuf == old(readBuf)[|old(readBuf)|..];
      }
      pendingStorage := None;
      status := Waiting;
      var buf := response.Take();
      server.metrics.bytesWritten := server.metrics.bytesWritten + |buf|;
      assert buf == Wire(ClientError(e.Text()));
      WriteOut(buf);
    }

    method TakeCommand(server: Server, clock: Clock, cmd: Command, consumed: nat)
      requires status == Draining && !broken && response.buf == []
      requires consumed <= |readBuf|
      modifies this, response, server, server.storage, server.metrics
      ensures var e := Executed(cmd, old(readBuf)[..consumed]);
              var (s', sent) := Serve(old(server.View()), e, clock);
              var c := Conn(old(readBuf)[consumed..], None, if cmd.Quit? then Gone(true) else Draining);
              server.View() == s' && View() == WriteAll(old(View()).(conn := c), OptionalWire(sent))
      ensures response.buf == []
      ensures received == old(received)
    {
      hide Exec, Wire, WriteAll;
      pendingStorage := None;
      var shouldQuit := cmd.Quit?;
      var noreply := cmd.IsNoreply();
      ghost var reply := Exec(server.View(), cmd, clock).1;
      server.Execute(cmd, clock, response);
      assert response.buf == OptionalWire(reply);
      readBuf := readBuf[consumed..];
      status := if shouldQuit then Gone(true) else Draining;
      if !noreply && response.buf != [] {
        var buf := response.Take();
        server.metrics.bytesWritten := server.metrics.bytesWritten + |buf|;
        WriteOut(buf);
      } else {
        WriteNothing(View());
      }
      response.Clear();
    }

    /** One successful read of `chunk`, and everything it lets the handler do. */
    method OnRead(chunk: bytes, server: Server, clock: Clock)
      requires chunk != [] && status == Waiting && !broken && response.buf == []
      modifies this, response, server, server.storage, server.metrics
      ensures (server.View(), View()) == Drain(old(server.View()), Receive(old(View()), chunk), clock)
      ensures response.buf == []
    {
      readBuf := readBuf + chunk;
      received := received + chunk;
      status := Draining;
      ProcessBuffer(server, clock);
    }

    /** The handler: one read after another, then `stop`: the peer closes, a read fails or the server
        is cancelled. A quit and a failed write return from inside the loop; only the way out of the
        loop passes the statement that lowers the gauge. */
    method Handle(chunks: seq<bytes>, stop: Ending, server: Server, clock: Clock, gate: Gate)
      returns (ending: Option<Ending>)
      requires forall i :: 0 <= i < |chunks| ==> chunks[i] != []
      requires stop.PeerClosed? || stop.ReadFailed? || stop.Cancelled?
      requires status == Waiting && !broken && response.buf == []
      modifies this, response, server, server.storage, server.metrics, gate`activeConnections
      ensures (server.View(), View()) == RunReads(old(server.View()), old(View()), chunks, clock)
      ensures broken ==> ending == Some(WriteFailed)
      ensures !broken ==> ending == match status
                                    case Gone(byQuit) => if byQuit then Some(QuitCommand) else None
                                    case _ => Some(stop)
      ensures gate.activeConnections == old(gate.activeConnections) - if broken || status.Gone? then 0 else 1
    {
      hide Drain;
      for i := 0 to |chunks|
        invariant response.buf == [] && status == Waiting && !broken
        invariant RunReads(server.View(), View(), chunks[i..], clock)
                  == RunReads(old(server.View()), old(View()), chunks, clock)
        invariant gate.activeConnections == old(gate.activeConnections)
      {
        ghost var s, x := server.View(), View();
        DrainSettles(s, Receive(x, chunks[i]), clock);
        OnRead(chunks[i], server, clock);
        assert chunks[i..][1..] == chunks[i + 1..];
        if broken {
          return Some(WriteFailed);
        }
        if status.Gone? {
          return if status.byQuit then Some(QuitCommand) else None;
        }
      }
      gate.LowerGauge();
      return Some(stop);
    }
  }

  /** The spawned task: the handler with its permit. Its effect on the gate is the step `End` with
      the ending the handler really had. */
  method RunHandler(conn: Connection, chunks: seq<bytes>, stop: Ending, server: Server, clock: Clock,
                    gate: Gate, ghost id: nat)
    returns (ending: Option<Ending>)
    requires forall i :: 0 <= i < |chunks| ==> chunks[i] != []
    requires stop.PeerClosed? || stop.ReadFailed? || stop.Cancelled?
    requires conn.status == Waiting && !conn.broken && conn.response.buf == []
    requires id in gate.live
    modifies conn, conn.response, server, server.storage, server.metrics, gate
    ensures (server.View(), conn.View()) == RunReads(old(server.View()), old(conn.View()), chunks, clock)
    ensures conn.broken ==> ending == Some(WriteFailed)
    ensures !conn.broken ==> ending == match conn.status
                                       case Gone(byQuit) => if byQuit then Some(QuitCommand) else None
                                       case _ => Some(stop)
    ensures gate.activeConnections == old(gate.activeConnections) - if conn.broken || conn.status.Gone? then 0 else 1
    ensures gate.View() ==
            if ending.Some? then Next(old(gate.View()), End(id, ending.value)) else old(gate.View())
  {
    hide RunReads;
    ending := conn.Handle(chunks, stop, server, clock, gate);
    if ending.Some? {
      gate.DropPermit(id);
    }
  }
}
