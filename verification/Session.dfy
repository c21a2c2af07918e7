/** A connection with its socket, served against the shared server state: one turn of the loop. */
module Session {
  import opened Bytes
  import opened Response
  import opened Conversation
  import opened Handler

  /** `limit` is the number of bytes the peer accepts before its socket fails, if it ever does. */
  datatype Session = Session(conn: Conn, received: bytes, written: bytes, limit: Option<nat>, broken: bool)

  function Opened(limit: Option<nat>): Session {
    Session(FRESH, [], [], limit, false)
  }

  /** How much of `buf` a `write_all` gets out. */
  function Accepted(x: Session, buf: bytes): (n: nat)
    ensures n <= |buf|
  {
    if x.limit.None? || |x.written| + |buf| <= x.limit.value then |buf|
    else if |x.written| <= x.limit.value then x.limit.value - |x.written|
    else 0
  }

  /** `write_all`; a short write breaks the connection. */
  function WriteAll(x: Session, buf: bytes): Session {
    x.(written := x.written + buf[..Accepted(x, buf)], broken := x.broken || Accepted(x, buf) < |buf|)
  }

  /** The effect of an event on the server, and the reply that goes out. */
  function Serve(s: ServerState, e: Event, clock: Clock): (ServerState, Option<Reply>) {
    match e
    case Executed(cmd, _) =>
      var (s', reply) := Exec(s, cmd, clock);
      var sent := if cmd.IsNoreply() then None else reply;
      (s'.(bytesWritten := s'.bytesWritten + |OptionalWire(sent)|), sent)
    case Rejected(error, _) =>
      var sent := Some(ClientError(error.Text()));
      (s.(protocolErrors := s.protocolErrors + 1, bytesWritten := s.bytesWritten + |OptionalWire(sent)|), sent)
    case Panicked => (s, None)
  }

  function Receive(x: Session, chunk: bytes): Session {
    x.(conn := Deliver(x.conn, chunk), received := x.received + chunk)
  }

  /** One turn of the inner loop. */
  function TurnSession(s: ServerState, x: Session, clock: Clock): (ServerState, Session) {
    var (c, event) := Turn(x.conn);
    match event
    case None => (s, x.(conn := c))
    case Some(e) =>
      var (s', sent) := Serve(s, e, clock);
      (s', WriteAll(x.(conn := c), OptionalWire(sent)))
  }

  lemma WriteNothing(x: Session)
    ensures WriteAll(x, []) == x
  {
  }

  /** The inner loop: turns until the buffer decides nothing more, an error is answered, the client
      quits or its socket fails. */
  function Drain(s: ServerState, x: Session, clock: Clock): (ServerState, Session)
    decreases |x.conn.buf|
  {
    if x.conn.status != Draining || x.broken then (s, x)
    else
      TurnShrinks(x.conn);
      var (s', x') := TurnSession(s, x, clock);
      if x'.conn.status == Draining then Drain(s', x', clock) else (s', x')
  }

  lemma {:induction false} DrainSettles(s: ServerState, x: Session, clock: Clock)
    ensures Drain(s, x, clock).1.conn.status != Draining || Drain(s, x, clock).1.broken
    decreases |x.conn.buf|
  {
    hide Turn, Serve;
    if x.conn.status == Draining && !x.broken {
      TurnShrinks(x.conn);
      var (s', x') := TurnSession(s, x, clock);
      if x'.conn.status == Draining {
        DrainSettles(s', x', clock);
      }
    }
  }

  /** The outer loop: reads until the peer closes, or the handler leaves on its own. */
  function RunReads(s: ServerState, x: Session, chunks: seq<bytes>, clock: Clock): (ServerState, Session)
    decreases |chunks|
  {
    if chunks == [] || x.conn.status.Gone? || x.broken then (s, x)
    else
      var (s', x') := Drain(s, Receive(x, chunks[0]), clock);
      RunReads(s', x', chunks[1..], clock)
  }

  lemma {:induction false} DrainReceivesNothing(s: ServerState, x: Session, clock: Clock)
    ensures Drain(s, x, clock).1.received == x.received
    decreases |x.conn.buf|
  {
    hide Turn, Serve;
    if x.conn.status == Draining && !x.broken {
      TurnShrinks(x.conn);
      var (s', x') := TurnSession(s, x, clock);
      if x'.conn.status == Draining {
        DrainReceivesNothing(s', x', clock);
      }
    }
  }

  /** The handler takes its reads in order, and stops short of the last only when it leaves on its own:
      after a quit, a failed write or a panic. */
  lemma {:induction false} ReadsAreTaken(s: ServerState, x: Session, chunks: seq<bytes>, clock: Clock)
    ensures var x' := RunReads(s, x, chunks, clock).1;
            exists k: nat ::
              && k <= |chunks| && x'.received == x.received + Joined(chunks[..k])
              && (k < |chunks| ==> x'.broken || x'.conn.status.Gone?)
    decreases |chunks|
  {
    hide Drain;
    if chunks == [] || x.conn.status.Gone? || x.broken {
      assert x.received + Joined(chunks[..0]) == x.received;
    } else {
      var (s1, x1) := Drain(s, Receive(x, chunks[0]), clock);
      DrainReceivesNothing(s, Receive(x, chunks[0]), clock);
      ReadsAreTaken(s1, x1, chunks[1..], clock);
      var x' := RunReads(s1, x1, chunks[1..], clock).1;
      var k: nat :| && k <= |chunks[1..]| && x'.received == x1.received + Joined(chunks[1..][..k])
                    && (k < |chunks[1..]| ==> x'.broken || x'.conn.status.Gone?);
      assert chunks[..k + 1][1..] == chunks[1..][..k] && chunks[..k + 1][0] == chunks[0];
      assert x.received + chunks[0] + Joined(chunks[1..][..k]) == x.received + Joined(chunks[..k + 1]);
    }
  }
}
