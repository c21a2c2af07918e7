/** One connection's parsing side: the one-shot trace of a byte stream, and the read loop that
    produces it from chunks. */
module Conversation {
  import opened Bytes
  import opened Command
  import opened Parser
  import opened ParserLaws

  /** What the loop does with a stretch of input; `raw` is that stretch. */
  datatype Event =
    | Executed(cmd: Command, raw: bytes)
    | Rejected(error: ProtocolError, raw: bytes)
    | Panicked
  {
    function Raw(): bytes {
      if Panicked? then [] else raw
    }

    /** Nothing of this connection is handled after such an event. */
    predicate Terminal() {
      Panicked? || (Executed? && cmd.Quit?)
    }
  }

  // ---- The reference: one pass over all the bytes ---------------------------------------------

  /** The first event of a buffer, if it already decides one. */
  function First(b: bytes): (r: Option<Event>)
    ensures r.Some? && !r.value.Terminal() ==> 2 <= |r.value.Raw()| <= |b|
    ensures r.Some? ==> r.value.Raw() <= b
  {
    match Parse(b)
    case NeedMoreData => None
    case Panic => Some(Panicked)
    case Error(e) =>
      ErrorHasLine(b);
      Some(Rejected(e, b[..FindCrlf(b).value + 2]))
    case Complete(cmd, n) =>
      ConsumedEndsAtCrlf(b);
      Some(Executed(cmd, b[..n]))
  }

  /** All events of a stream received at once, up to and including the first that ends it. */
  function Trace(b: bytes): seq<Event>
    decreases |b|
  {
    match First(b)
    case None => []
    case Some(e) => if e.Terminal() then [e] else [e] + Trace(b[|e.Raw()|..])
  }

  lemma FirstExtend(b: bytes, x: bytes)
    requires First(b).Some?
    ensures First(b + x) == First(b)
  {
    hide Parse;
    PrefixStability(b, x);
    if Parse(b).Error? {
      ErrorHasLine(b);
      LineExtend(b, x);
      var n := FindCrlf(b).value + 2;
      assert (b + x)[..n] == b[..n];
    } else if Parse(b).Complete? {
      ConsumedEndsAtCrlf(b);
      var n := Parse(b).consumed;
      assert (b + x)[..n] == b[..n];
    }
  }

  /** A decided first event can be taken off before the rest of the stream is known. */
  lemma TraceAfterFirst(b: bytes, x: bytes)
    requires First(b).Some?
    ensures var e := First(b).value;
            Trace(b + x) == if e.Terminal() then [e] else [e] + Trace(b[|e.Raw()|..] + x)
  {
    hide First;
    FirstExtend(b, x);
    var e := First(b).value;
    if !e.Terminal() {
      assert (b + x)[|e.Raw()|..] == b[|e.Raw()|..] + x;
    }
  }

  // ---- The loop -------------------------------------------------------------------------------

  /** `Waiting` for a read, `Draining` the buffer, or gone: by a quit, or by a panic. */
  datatype Status = Waiting | Draining | Gone(byQuit: bool)

  datatype Conn = Conn(buf: bytes, pending: Option<PendingStorageCommand>, status: Status)

  const FRESH := Conn([], None, Waiting)

  /** A kept header is the one the buffer's first line still yields. */
  predicate PendingFits(c: Conn) {
    c.pending.Some? ==> StartsSet(c.buf, c.pending.value)
  }

  function Deliver(c: Conn, chunk: bytes): Conn {
    c.(buf := c.buf + chunk, status := Draining)
  }

  function ParseTurn(c: Conn): ParseResult {
    if c.pending.Some? then StorageData(c.buf, c.pending.value) else Parse(c.buf)
  }

  /** The header to keep when the buffer decides nothing yet. */
  function HeaderToKeep(c: Conn): Option<PendingStorageCommand> {
    if c.pending.Some? then c.pending
    else match StorageCommandLine(c.buf)
      case Ok(p) => p
      case Err(_) => None
  }

  /** One turn of the inner loop: the new connection state and what was handled, if anything. */
  function Turn(c: Conn): (r: (Conn, Option<Event>))
  {
    match ParseTurn(c)
    case NeedMoreData => (c.(pending := HeaderToKeep(c), status := Waiting), None)
    case Panic => (c.(status := Gone(false)), Some(Panicked))
    case Error(e) =>
      var n := match FindCrlf(c.buf) case Some(pos) => pos + 2 case None => |c.buf|;
      (Conn(c.buf[n..], None, Waiting), Some(Rejected(e, c.buf[..n])))
    case Complete(cmd, n) =>
      var n := if n <= |c.buf| then n else |c.buf|;
      (Conn(c.buf[n..], None, if cmd.Quit? then Gone(true) else Draining), Some(Executed(cmd, c.buf[..n])))
  }

  /** With a fitting header the loop's parse is the plain parse, so a turn takes the first event. */
  lemma TurnTakesFirst(c: Conn)
    requires PendingFits(c)
    ensures Turn(c).1 == First(c.buf)
    ensures PendingFits(Turn(c).0)
    ensures match First(c.buf)
            case None => Turn(c).0.buf == c.buf && Turn(c).0.status == Waiting
            case Some(e) => Turn(c).0.buf == c.buf[|e.Raw()|..]
    ensures Turn(c).1.Some? ==> (Turn(c).0.status.Gone? <==> Turn(c).1.value.Terminal())
    ensures Turn(c).1.Some? ==>
              (Turn(c).0.status == Gone(true) <==> Turn(c).1.value.Executed? && Turn(c).1.value.cmd.Quit?)
    ensures Turn(c).1.Some? ==> (Turn(c).0.status == Waiting <==> Turn(c).1.value.Rejected?)
  {
    hide Line, VerbOf, SetHeader;
    if c.pending.Some? {
      StartsSetParse(c.buf, c.pending.value);
    }
    if Parse(c.buf).Complete? {
      ConsumedEndsAtCrlf(c.buf);
    }
  }

  /** While it waits, the loop has kept a header exactly when its buffer holds a whole line. */
  lemma HeaderIsKept(c: Conn)
    requires PendingFits(c) && First(c.buf) == None
    ensures Turn(c).0.pending.Some? <==> FindCrlf(c.buf).Some?
  {
    hide Line, VerbOf, SetHeader, StorageData;
    TurnTakesFirst(c);
    if c.pending.Some? {
      StartsSetParse(c.buf, c.pending.value);
    }
    BlockNeedsHeader(c.buf);
  }

  // ---- Chunking independence ------------------------------------------------------------------

  /** If `x` is what comes next, the one-shot trace of everything is what was handled so far
      followed by the trace of the leftover buffer and `x`. */
  predicate TrackAt(received: bytes, events: seq<Event>, c: Conn, x: bytes) {
    Trace(received + x) == events + (if c.status.Gone? then [] else Trace(c.buf + x))
  }

  ghost predicate OnTrack(received: bytes, events: seq<Event>, c: Conn) {
    forall x: bytes :: TrackAt(received, events, c, x)
  }

  /** The loop is only ever idle with work left in its buffer right after an error. */
  predicate IdleOnlyAfterError(events: seq<Event>, c: Conn) {
    c.status == Waiting && First(c.buf).Some? ==> events != [] && events[|events| - 1].Rejected?
  }

  function RawOf(events: seq<Event>): bytes {
    if events == [] then [] else RawOf(events[..|events| - 1]) + events[|events| - 1].Raw()
  }

  /** What holds of a connection that received `received` and handled `events`. */
  ghost predicate Coherent(received: bytes, events: seq<Event>, c: Conn) {
    && PendingFits(c)
    && OnTrack(received, events, c)
    && IdleOnlyAfterError(events, c)
    && RawOf(events) + c.buf == received
  }

  lemma FreshCoherent()
    ensures Coherent([], [], FRESH)
  {
    hide Trace, Parse;
    NoLineYet([]);
    forall x: bytes ensures TrackAt([], [], FRESH, x) {
      assert [] + x == x;
    }
  }

  lemma DeliverOnTrack(received: bytes, events: seq<Event>, c: Conn, chunk: bytes)
    requires OnTrack(received, events, c) && c.status == Waiting
    ensures OnTrack(received + chunk, events, Deliver(c, chunk))
  {
    hide First, Trace, Turn, StartsSet, StorageData;
    forall x: bytes ensures TrackAt(received + chunk, events, Deliver(c, chunk), x) {
      assert TrackAt(received, events, c, chunk + x);
      assert received + chunk + x == received + (chunk + x);
      assert c.buf + chunk + x == c.buf + (chunk + x);
    }
  }

  /** A read of any size keeps the connection coherent. */
  lemma DeliverCoherent(received: bytes, events: seq<Event>, c: Conn, chunk: bytes)
    requires Coherent(received, events, c) && c.status == Waiting
    ensures Coherent(received + chunk, events, Deliver(c, chunk))
  {
    hide First, Trace, Turn, StartsSet, StorageData, OnTrack, RawOf, Parse;
    DeliverOnTrack(received, events, c, chunk);
    if c.pending.Some? {
      ResumeRefinesDirect(c.buf, chunk, c.pending.value);
    }
    assert RawOf(events) + (c.buf + chunk) == received + chunk;
  }

  lemma TurnOnTrack(received: bytes, events: seq<Event>, c: Conn)
    requires OnTrack(received, events, c) && c.status == Draining
    requires PendingFits(c) && Turn(c).1.Some?
    ensures OnTrack(received, events + [Turn(c).1.value], Turn(c).0)
  {
    hide First, Trace, Turn, StartsSet, StorageData;
    TurnTakesFirst(c);
    var (d, turn) := Turn(c);
    forall x: bytes ensures TrackAt(received, events + [turn.value], d, x) {
      assert TrackAt(received, events, c, x);
      TraceAfterFirst(c.buf, x);
    }
  }

  lemma IdleOnTrack(received: bytes, events: seq<Event>, c: Conn, d: Conn)
    requires OnTrack(received, events, c)
    requires d.buf == c.buf && (d.status.Gone? <==> c.status.Gone?)
    ensures OnTrack(received, events, d)
  {
    hide First, Trace;
    forall x: bytes ensures TrackAt(received, events, d, x) {
      assert TrackAt(received, events, c, x);
    }
  }

  lemma RawOfAppend(events: seq<Event>, e: Event)
    ensures RawOf(events + [e]) == RawOf(events) + e.Raw()
  {
    assert (events + [e])[..|events|] == events;
  }

  /** So does every turn of the inner loop. */
  lemma TurnCoherent(received: bytes, events: seq<Event>, c: Conn)
    requires Coherent(received, events, c) && c.status == Draining
    ensures Turn(c).1.None? ==> Coherent(received, events, Turn(c).0)
    ensures Turn(c).1.Some? ==> Coherent(received, events + [Turn(c).1.value], Turn(c).0)
  {
    hide First, Trace, Turn, StartsSet, StorageData, OnTrack, RawOf, PendingFits;
    TurnTakesFirst(c);
    var (d, turn) := Turn(c);
    if turn.Some? {
      TurnOnTrack(received, events, c);
      RawOfAppend(events, turn.value);
      assert c.buf == turn.value.Raw() + d.buf;
    } else {
      IdleOnTrack(received, events, c, d);
    }
  }

  predicate EndsInError(events: seq<Event>) {
    events != [] && events[|events| - 1].Rejected?
  }

  /** What coherence says about a connection at rest. */
  lemma WholeTrace(received: bytes, events: seq<Event>, c: Conn)
    requires Coherent(received, events, c)
    ensures Trace(received) == events + (if c.status.Gone? then [] else Trace(c.buf))
    ensures c.status == Waiting && Trace(c.buf) != [] ==> EndsInError(events)
  {
    hide First, PendingFits, RawOf;
    assert TrackAt(received, events, c, []);
    assert received + [] == received && c.buf + [] == c.buf;
  }

  // ---- Chunks of one stream -------------------------------------------------------------------

  /** The inner loop, with the events it handles. */
  function DrainConn(c: Conn, events: seq<Event>): (Conn, seq<Event>)
    decreases |c.buf|
  {
    if c.status != Draining then (c, events)
    else
      TurnShrinks(c);
      var (d, turn) := Turn(c);
      var events' := if turn.None? then events else events + [turn.value];
      if d.status == Draining then DrainConn(d, events') else (d, events')
  }

  lemma ConsumedFits(c: Conn)
    requires ParseTurn(c).Complete?
    ensures 2 <= ParseTurn(c).consumed <= |c.buf|
  {
    hide Parse;
    if c.pending.None? {
      ConsumedEndsAtCrlf(c.buf);
    }
  }

  lemma TurnShrinks(c: Conn)
    ensures Turn(c).0.status == Draining ==> |Turn(c).0.buf| < |c.buf|
  {
    hide ParseTurn, HeaderToKeep;
    if ParseTurn(c).Complete? {
      ConsumedFits(c);
    }
  }

  lemma {:induction false} DrainCoherent(received: bytes, events: seq<Event>, c: Conn)
    requires Coherent(received, events, c)
    ensures Coherent(received, DrainConn(c, events).1, DrainConn(c, events).0)
    ensures DrainConn(c, events).0.status != Draining
    decreases |c.buf|
  {
    hide Coherent, Turn;
    if c.status == Draining {
      TurnShrinks(c);
      TurnCoherent(received, events, c);
      var (d, turn) := Turn(c);
      if d.status == Draining {
        DrainCoherent(received, if turn.None? then events else events + [turn.value], d);
      }
    }
  }

  /** One read after another; nothing is read once the connection is gone. */
  function Feed(chunks: seq<bytes>, c: Conn, events: seq<Event>): (Conn, seq<Event>)
    decreases |chunks|
  {
    if chunks == [] || c.status.Gone? then (c, events)
    else
      var (d, events') := DrainConn(Deliver(c, chunks[0]), events);
      Feed(chunks[1..], d, events')
  }

  function Joined(chunks: seq<bytes>): bytes {
    if chunks == [] then [] else chunks[0] + Joined(chunks[1..])
  }

  lemma {:induction false} FeedTrace(chunks: seq<bytes>, received: bytes, events: seq<Event>, c: Conn)
    requires Coherent(received, events, c) && c.status != Draining
    ensures var (d, events') := Feed(chunks, c, events);
            && d.status != Draining
            && Trace(received + Joined(chunks)) == events' + (if d.status.Gone? then [] else Trace(d.buf))
            && (d.status == Waiting && Trace(d.buf) != [] ==> EndsInError(events'))
    decreases |chunks|
  {
    hide First, PendingFits, RawOf, Trace, DrainConn, Deliver, EndsInError;
    if c.status.Gone? {
      assert TrackAt(received, events, c, Joined(chunks));
    } else if chunks == [] {
      WholeTrace(received, events, c);
      assert received + [] == received;
    } else {
      FeedStep(chunks, received, events, c);
      var (d, events') := DrainConn(Deliver(c, chunks[0]), events);
      FeedTrace(chunks[1..], received + chunks[0], events', d);
      assert received + chunks[0] + Joined(chunks[1..]) == received + Joined(chunks);
    }
  }

  lemma FeedStep(chunks: seq<bytes>, received: bytes, events: seq<Event>, c: Conn)
    requires Coherent(received, events, c) && c.status == Waiting && chunks != []
    ensures var (d, events') := DrainConn(Deliver(c, chunks[0]), events);
            Coherent(received + chunks[0], events', d) && d.status != Draining
  {
    hide Coherent, DrainConn;
    DeliverCoherent(received, events, c, chunks[0]);
    DrainCoherent(received + chunks[0], events, Deliver(c, chunks[0]));
  }

  /** For every stream and every split: the handled events, followed by the one-shot trace of the
      leftover, are the one-shot trace of the stream; something is left only after an error. */
  lemma ChunkingIndependence(chunks: seq<bytes>)
    ensures var (c, events) := Feed(chunks, FRESH, []);
            && Trace(Joined(chunks)) == events + (if c.status.Gone? then [] else Trace(c.buf))
            && (events != Trace(Joined(chunks)) ==> EndsInError(events))
  {
    hide Coherent, Trace, Feed, EndsInError;
    FreshCoherent();
    FeedTrace(chunks, [], [], FRESH);
    assert [] + Joined(chunks) == Joined(chunks);
  }

  // ---- What one read does ---------------------------------------------------------------------

  /** A trace up to and including its first error. */
  function UpToError(events: seq<Event>): seq<Event> {
    if events == [] then []
    else if events[0].Rejected? then [events[0]]
    else [events[0]] + UpToError(events[1..])
  }

  lemma {:induction false} UpToErrorIsAllIff(events: seq<Event>)
    ensures UpToError(events) == events <==> forall i :: 0 <= i < |events| - 1 ==> !events[i].Rejected?
  {
    if events != [] {
      UpToErrorIsAllIff(events[1..]);
      assert events == [events[0]] + events[1..];
      if UpToError(events) == events && |events| > 1 {
        assert UpToError(events[1..]) == events[1..];
        assert forall i :: 0 < i < |events| - 1 ==> events[i] == events[1..][i - 1];
      }
      if forall i :: 0 <= i < |events| - 1 ==> !events[i].Rejected? {
        assert forall i :: 0 <= i < |events[1..]| - 1 ==> events[1..][i] == events[i + 1];
      }
    }
  }

  lemma TraceUnfolds(b: bytes)
    ensures Trace(b) == match First(b)
                        case None => []
                        case Some(e) => if e.Terminal() then [e] else [e] + Trace(b[|e.Raw()|..])
  {
    hide First;
  }

  lemma UpToErrorCons(e: Event, rest: seq<Event>)
    ensures UpToError([e] + rest) == if e.Rejected? then [e] else [e] + UpToError(rest)
    ensures UpToError([e]) == [e]
  {
    assert ([e] + rest)[1..] == rest && [e][1..] == [];
  }

  lemma {:induction false} DrainHandles(c: Conn, events: seq<Event>)
    requires PendingFits(c) && c.status == Draining
    ensures DrainConn(c, events).1 == events + UpToError(Trace(c.buf))
    decreases |c.buf|
  {
    hide First, Turn, PendingFits, Trace, UpToError;
    TurnTakesFirst(c);
    TurnShrinks(c);
    TraceUnfolds(c.buf);
    var (d, turn) := Turn(c);
    if turn.None? {
      NoEvents();
    } else {
      var e := turn.value;
      UpToErrorCons(e, Trace(d.buf));
      if d.status == Draining {
        DrainHandles(d, events + [e]);
        assert events + [e] + UpToError(Trace(d.buf)) == events + ([e] + UpToError(Trace(d.buf)));
      }
    }
  }

  lemma NoEvents()
    ensures UpToError([]) == []
  {
  }

  /** A read is handled exactly up to the first error in its buffer... */
  lemma ReadHandlesUpToError(received: bytes, events: seq<Event>, c: Conn, chunk: bytes)
    requires Coherent(received, events, c) && c.status == Waiting
    ensures DrainConn(Deliver(c, chunk), events).1 == events + UpToError(Trace(c.buf + chunk))
  {
    hide Trace, OnTrack, RawOf, First, DrainConn;
    DeliverCoherent(received, events, c, chunk);
    DrainHandles(Deliver(c, chunk), events);
  }

  /** ...so it is handled in full if and only if no error comes before its last event. */
  lemma ReadIsCompleteIff(received: bytes, events: seq<Event>, c: Conn, chunk: bytes)
    requires Coherent(received, events, c) && c.status == Waiting
    ensures var todo := Trace(c.buf + chunk);
            DrainConn(Deliver(c, chunk), events).1 == events + todo <==>
            forall i :: 0 <= i < |todo| - 1 ==> !todo[i].Rejected?
  {
    hide Coherent, Trace, DrainConn, UpToError, Deliver;
    var todo := Trace(c.buf + chunk);
    ReadHandlesUpToError(received, events, c, chunk);
    UpToErrorIsAllIff(todo);
    if events + UpToError(todo) == events + todo {
      assert (events + todo)[|events|..] == todo && (events + UpToError(todo))[|events|..] == UpToError(todo);
    }
  }

  // ---- When every split is handled alike ------------------------------------------------------

  /** No error comes before the last event. */
  predicate ErrorOnlyLast(events: seq<Event>) {
    forall i :: 0 <= i < |events| - 1 ==> !events[i].Rejected?
  }

  /** This split of `s` leads to all of its one-shot trace. */
  predicate HandledInFull(chunks: seq<bytes>, s: bytes) {
    Joined(chunks) == s ==> Feed(chunks, FRESH, []).1 == Trace(s)
  }

  /** The loop only sees reads of at least one byte. */
  predicate Reads(chunks: seq<bytes>) {
    forall i :: 0 <= i < |chunks| ==> chunks[i] != []
  }

  lemma NoErrorInside(events: seq<Event>, all: seq<Event>)
    requires events <= all && events != all && ErrorOnlyLast(all)
    ensures !EndsInError(events)
  {
    if events != [] {
      assert all[|events| - 1] == events[|events| - 1];
    }
  }

  lemma ErrorOnlyLastSuffices(chunks: seq<bytes>, s: bytes)
    requires ErrorOnlyLast(Trace(s))
    ensures HandledInFull(chunks, s)
  {
    hide Trace, Feed, Joined;
    if Joined(chunks) == s {
      ChunkingIndependence(chunks);
      var (c, events) := Feed(chunks, FRESH, []);
      if events != Trace(s) {
        NoErrorInside(events, Trace(s));
      }
    }
  }

  lemma OneRead(s: bytes)
    ensures Feed([s], FRESH, []).1 == UpToError(Trace(s))
    ensures Joined([s]) == s
  {
    hide Trace, DrainConn, UpToError, Coherent, Deliver;
    FreshCoherent();
    ReadHandlesUpToError([], [], FRESH, s);
    assert FRESH.buf + s == s;
    assert [s][1..] == [];
    assert Joined([s]) == s + Joined([]) == s;
  }

  /** Every way of cutting the stream into reads leads to the same events, those of its one-shot
      trace, if and only if no error comes before the last of them. */
  lemma SplitsAgreeIff(s: bytes)
    ensures (forall chunks :: HandledInFull(chunks, s)) <==> ErrorOnlyLast(Trace(s))
    ensures (forall chunks :: Reads(chunks) ==> HandledInFull(chunks, s)) <==> ErrorOnlyLast(Trace(s))
  {
    hide Trace, Feed, Joined, UpToError;
    if ErrorOnlyLast(Trace(s)) {
      forall chunks ensures HandledInFull(chunks, s) {
        ErrorOnlyLastSuffices(chunks, s);
      }
    } else {
      OneRead(s);
      UpToErrorIsAllIff(Trace(s));
      assert !HandledInFull([s], s);
      if s == [] {
        NothingToHandle(s);
      } else {
        assert Reads([s]);
      }
    }
  }

  lemma NothingToHandle(s: bytes)
    requires s == []
    ensures Trace(s) == []
  {
    hide Parse;
    assert Parse(s).NeedMoreData? by { NoLineYet(s); }
  }

  lemma NoLineYet(b: bytes)
    requires FindCrlf(b).None?
    ensures Parse(b).NeedMoreData?
  {
  }

  // ---- A lone CR ------------------------------------------------------------------------------

  lemma WedgedTrace(b: bytes, x: bytes)
    requires Wedged(b)
    ensures Trace(b + x) == []
  {
    hide Parse;
    WedgedNeverParses(b, x);
  }

  /** Once its buffer starts with a line whose CR stands alone, a connection handles nothing more,
      whatever it receives. */
  lemma {:induction false} WedgedHandlesNothing(chunks: seq<bytes>, received: bytes, events: seq<Event>, c: Conn)
    requires Coherent(received, events, c) && c.status == Waiting && Wedged(c.buf)
    ensures Feed(chunks, c, events).1 == events
    decreases |chunks|
  {
    hide Coherent, DrainConn, Deliver, Trace, Wedged;
    if chunks != [] {
      var (d, events') := DrainConn(Deliver(c, chunks[0]), events);
      ReadHandlesUpToError(received, events, c, chunks[0]);
      WedgedTrace(c.buf, chunks[0]);
      assert events + [] == events;
      FeedStep(chunks, received, events, c);
      WedgedStays(received, events, c, chunks[0]);
      WedgedHandlesNothing(chunks[1..], received + chunks[0], events', d);
    }
  }

  lemma WedgedStays(received: bytes, events: seq<Event>, c: Conn, chunk: bytes)
    requires Coherent(received, events, c) && c.status == Waiting && Wedged(c.buf)
    ensures var d := DrainConn(Deliver(c, chunk), events).0; d.status == Waiting && Wedged(d.buf)
  {
    hide Trace, OnTrack, RawOf, Wedged, Turn, StartsSet;
    var e := Deliver(c, chunk);
    DeliverCoherent(received, events, c, chunk);
    TurnTakesFirst(e);
    WedgedNeverParses(c.buf, chunk);
    hide Parse;
  }
}
