/** Whole runs of the server with commands executed one at a time: any number of connections, fed in
    any chunks and served in any order, with compaction at any point, against a plain reference map. */
module ServerRun {
  import opened Bytes
  import opened Command
  import opened Value
  import opened Store
  import opened StoreRefinement
  import R = Response
  import opened Conversation
  import opened Handler
  import opened Session
  import ParserLaws

  /** One handled event: who, what, the reply sent, and the reference and clock position before. */
  datatype Entry = Entry(id: nat, event: Event, sent: Option<R.Reply>, reference: Reference, tick: nat)

  /** A panic of any handler ends the whole process: the world is `down`. */
  datatype World = World(
    server: ServerState, sessions: map<nat, Session>, log: seq<Entry>, reference: Reference, down: bool)

  const START := World(EMPTY, map[], [], map[], false)

  datatype Step =
    | Accept(id: nat, limit: Option<nat>)
    | Read(id: nat, chunk: bytes)
    | LoopTurn(id: nat)
    | Compaction(key: bytes)

  predicate Active(w: World, id: nat, status: Status) {
    !w.down && id in w.sessions && w.sessions[id].conn.status == status && !w.sessions[id].broken
  }

  predicate Enabled(w: World, step: Step) {
    match step
    case Accept(id, _) => !w.down && id !in w.sessions
    case Read(id, chunk) => Active(w, id, Waiting) && chunk != []
    case LoopTurn(id) => Active(w, id, Draining)
    case Compaction(key) => !w.down
  }

  function AdvanceBy(m: Reference, e: Event, now: u64): Reference {
    if !e.Executed? then m
    else match e.cmd
      case Set(key, flags, exptime, data, _) => m[key := NewValue(flags, exptime, data, now)]
      case Delete(key, _) => m - {key}
      case _ => m
  }

  function Next(w: World, step: Step, clock: Clock): World
    requires Enabled(w, step)
  {
    match step
    case Accept(id, limit) => w.(sessions := w.sessions[id := Opened(limit)])
    case Read(id, chunk) => w.(sessions := w.sessions[id := Receive(w.sessions[id], chunk)])
    case LoopTurn(id) =>
      var x := w.sessions[id];
      var (server, x') := TurnSession(w.server, x, clock);
      var event := Turn(x.conn).1;
      if event.None? then w.(sessions := w.sessions[id := x'])
      else
        var e := event.value;
        World(server, w.sessions[id := x'],
              w.log + [Entry(id, e, Serve(w.server, e, clock).1, w.reference, w.server.tick)],
              AdvanceBy(w.reference, e, clock(w.server.tick)), e.Panicked?)
    case Compaction(key) =>
      var db := AfterCompaction(w.server.db, key, clock(w.server.tick));
      w.(server := w.server.(db := db, tick := w.server.tick + 1,
                             compactionRemoved := w.server.compactionRemoved + if db == w.server.db then 0 else 1))
  }

  ghost predicate Reachable(w: World, steps: seq<Step>, clock: Clock)
    decreases |steps|
  {
    if steps == [] then w == START
    else
      var n := |steps| - 1;
      exists p :: Reachable(p, steps[..n], clock) && Enabled(p, steps[n]) && w == Next(p, steps[n], clock)
  }

  // ---- Reading the log ------------------------------------------------------------------------

  function EventsOf(log: seq<Entry>, id: nat): seq<Event> {
    if log == [] then [] else
      var last := log[|log| - 1];
      EventsOf(log[..|log| - 1], id) + if last.id == id then [last.event] else []
  }

  /** The replies sent to one connection, in order. */
  function RepliesOf(log: seq<Entry>, id: nat): seq<R.Reply> {
    if log == [] then [] else
      var last := log[|log| - 1];
      RepliesOf(log[..|log| - 1], id) + if last.id == id && last.sent.Some? then [last.sent.value] else []
  }

  function KeysAsked(e: Event): nat {
    if e.Executed? && e.cmd.Get? then |e.cmd.keys| else 0
  }

  function ItemsSent(r: Option<R.Reply>): nat {
    if r.Some? && r.value.Values? then |r.value.items| else 0
  }

  datatype Kind = GetKind | SetKind | DeleteKind | ErrorKind | OtherKind

  function KindOf(e: Event): Kind {
    match e
    case Executed(cmd, _) =>
      if cmd.Get? then GetKind else if cmd.Set? then SetKind else if cmd.Delete? then DeleteKind else OtherKind
    case Rejected(_, _) => ErrorKind
    case Panicked => OtherKind
  }

  /** How often a kind of event was handled. */
  function Tally(log: seq<Entry>, kind: Kind): nat {
    if log == [] then 0 else Tally(log[..|log| - 1], kind) + if KindOf(log[|log| - 1].event) == kind then 1 else 0
  }

  function TotalKeys(log: seq<Entry>): nat {
    if log == [] then 0 else TotalKeys(log[..|log| - 1]) + KeysAsked(log[|log| - 1].event)
  }

  function TotalItems(log: seq<Entry>): nat {
    if log == [] then 0 else TotalItems(log[..|log| - 1]) + ItemsSent(log[|log| - 1].sent)
  }

  function TotalBytes(log: seq<Entry>): nat {
    if log == [] then 0 else TotalBytes(log[..|log| - 1]) + |OptionalWire(log[|log| - 1].sent)|
  }

  // ---- What a reply must be -------------------------------------------------------------------

  /** The latest clock reading before position `tick`. */
  function LastTime(clock: Clock, tick: nat): u64 {
    if tick == 0 then 0 else clock(tick - 1)
  }

  ghost predicate Monotone(clock: Clock) {
    forall i: nat, j: nat :: i <= j ==> clock(i) <= clock(j)
  }

  function LiveAll(m: Reference, keys: seq<bytes>, nows: seq<u64>): (r: seq<Option<StoredValue>>)
    requires |nows| == |keys|
    ensures |r| == |keys|
  {
    seq(|keys|, i requires 0 <= i < |keys| => Live(m, keys[i], nows[i]))
  }

  /** The replies the reference map allows to a command. */
  predicate ReplyAllowed(m: Reference, cmd: Command, clock: Clock, tick: nat, r: Option<R.Reply>) {
    match cmd
    case Get(keys) => r == Some(R.Values(ItemsFor(keys, LiveAll(m, keys, Sample(clock, tick, |keys|)))))
    case Set(_, _, _, _, _) => r == Some(R.Stored)
    case Delete(key, _) =>
      && (r == Some(R.Deleted) || r == Some(R.NotFound))
      && (Live(m, key, LastTime(clock, tick)).Some? ==> r == Some(R.Deleted))
      && (key !in m ==> r == Some(R.NotFound))
    case Version => r == Some(R.VersionIs(VERSION_TEXT))
    case Quit => r == None
  }

  ghost predicate EntryAllowed(e: Entry, clock: Clock) {
    match e.event
    case Executed(cmd, _) =>
      if cmd.IsNoreply() then e.sent == None else ReplyAllowed(e.reference, cmd, clock, e.tick, e.sent)
    case Rejected(error, _) => e.sent == Some(R.ClientError(error.Text()))
    case Panicked => e.sent == None
  }

  // ---- The invariant --------------------------------------------------------------------------

  /** What the peer's socket took: everything, or exactly what it accepts, of more than that. */
  predicate SocketFits(x: Session, output: bytes) {
    if x.broken then
      x.limit.Some? && x.limit.value < |output| && x.written == output[..x.limit.value]
    else
      x.written == output && (x.limit.Some? ==> |output| <= x.limit.value)
  }

  predicate QuitLast(events: seq<Event>) {
    events != [] && events[|events| - 1].Executed? && events[|events| - 1].cmd.Quit?
  }

  predicate PanicLast(events: seq<Event>) {
    events != [] && events[|events| - 1].Panicked?
  }

  /** A connection is gone exactly after a quit or a panic. */
  predicate GoneFits(status: Status, events: seq<Event>) {
    && (status == Gone(true) <==> QuitLast(events))
    && (status == Gone(false) <==> PanicLast(events))
  }

  ghost predicate SessionOk(x: Session, events: seq<Event>, output: bytes) {
    Coherent(x.received, events, x.conn) && SocketFits(x, output) && GoneFits(x.conn.status, events)
  }

  ghost predicate CountersOk(s: ServerState, log: seq<Entry>) {
    && s.getHits == TotalItems(log)
    && s.getHits + s.getMisses == TotalKeys(log)
    && s.bytesWritten == TotalBytes(log)
    && s.storageErrors == 0
    && s.cmdGet == Tally(log, GetKind) && s.cmdSet == Tally(log, SetKind) && s.cmdDelete == Tally(log, DeleteKind)
    && s.protocolErrors == Tally(log, ErrorKind)
  }

  /** The command and error counters after one event. */
  predicate Tallied(s: ServerState, s': ServerState, e: Event) {
    && s'.cmdGet == s.cmdGet + (if KindOf(e) == GetKind then 1 else 0)
    && s'.cmdSet == s.cmdSet + (if KindOf(e) == SetKind then 1 else 0)
    && s'.cmdDelete == s.cmdDelete + (if KindOf(e) == DeleteKind then 1 else 0)
    && s'.protocolErrors == s.protocolErrors + (if KindOf(e) == ErrorKind then 1 else 0)
  }

  ghost predicate StoreOk(w: World, clock: Clock) {
    && Simulates(w.server.db, w.reference, LastTime(clock, w.server.tick))
    && (forall k :: k in w.reference ==> IsValidKey(k))
  }

  ghost predicate LogOk(log: seq<Entry>, clock: Clock) {
    forall i :: 0 <= i < |log| ==>
      EntryAllowed(log[i], clock) && (log[i].sent.Some? ==> R.Clean(log[i].sent.value))
  }

  /** Every connection is on track with its input and has written its replies. */
  ghost predicate SessionsInv(w: World) {
    && (forall id :: id in w.sessions ==>
          SessionOk(w.sessions[id], EventsOf(w.log, id), R.WireAll(RepliesOf(w.log, id))))
    && (forall i :: 0 <= i < |w.log| ==> w.log[i].id in w.sessions)
  }

  /** Counters, store and replies agree with the log and the reference. */
  ghost predicate ServerInv(w: World, clock: Clock) {
    CountersOk(w.server, w.log) && StoreOk(w, clock) && LogOk(w.log, clock)
  }

  // ---- Commands against the reference ---------------------------------------------------------

  /** A command as an operation on the store. */
  function OpOf(cmd: Command, clock: Clock, tick: nat): Op
    requires cmd.Get? || cmd.Set? || cmd.Delete?
  {
    match cmd
    case Get(keys) => GetMultiOp(keys, Sample(clock, tick, |keys|))
    case Set(key, flags, exptime, data, _) => SetOp(key, flags, exptime, data, clock(tick))
    case Delete(key, _) => DeleteOp(key, LastTime(clock, tick))
  }

  lemma OpIsTimed(cmd: Command, clock: Clock, tick: nat)
    requires Monotone(clock) && (cmd.Get? || cmd.Set? || cmd.Delete?)
    ensures WellTimed(OpOf(cmd, clock, tick), LastTime(clock, tick))
    ensures cmd.Get? ==> TimeAfter(OpOf(cmd, clock, tick), LastTime(clock, tick)) == LastTime(clock, tick + |cmd.keys|)
    ensures cmd.Set? ==> TimeAfter(OpOf(cmd, clock, tick), LastTime(clock, tick)) == LastTime(clock, tick + 1)
    ensures cmd.Delete? ==> TimeAfter(OpOf(cmd, clock, tick), LastTime(clock, tick)) == LastTime(clock, tick)
  {
  }

  lemma BatchIsLive(db: Db, m: Reference, t: u64, keys: seq<bytes>, nows: seq<u64>)
    requires |nows| == |keys| && WellTimed(GetMultiOp(keys, nows), t) && Simulates(db, m, t)
    ensures BatchError(db, keys).None?
    ensures BatchAnswers(db, keys, nows) == LiveAll(m, keys, nows)
    ensures Simulates(Without(db, ExpiredKeys(db, keys, nows)), m, TimeAfter(GetMultiOp(keys, nows), t))
  {
    hide Simulates, WellTimed, TimeAfter, Found, Live, Without, ExpiredKeys, BatchError;
    NoBatchError(db, m, t, keys);
    StepSimulates(db, m, t, GetMultiOp(keys, nows));
    var answers := BatchAnswers(db, keys, nows);
    assert Apply(db, GetMultiOp(keys, nows)).1 == GotMany(answers);
    assert forall i :: 0 <= i < |keys| ==> answers[i] == Live(m, keys[i], nows[i]);
  }

  lemma ReadKeysAllowed(s: ServerState, keys: seq<bytes>, nows: seq<u64>, m: Reference, t: u64)
    requires |nows| == |keys| && WellTimed(GetMultiOp(keys, nows), t) && Simulates(s.db, m, t)
    ensures var (s', found) := ReadKeys(s, keys, nows);
            && found == Ok(ItemsFor(keys, LiveAll(m, keys, nows)))
            && Simulates(s'.db, m, TimeAfter(GetMultiOp(keys, nows), t))
            && s' == s.(db := s'.db, expiredRemoved := s'.expiredRemoved, getHits := s.getHits + |found.value|,
                        getMisses := s.getMisses + |keys| - |found.value|)
  {
    hide Simulates, ItemsFor, LiveAll, BatchAnswers, ExpiredKeys, Without, BatchError, WellTimed, TimeAfter;
    BatchIsLive(s.db, m, t, keys, nows);
  }

  lemma GetIsTimed(keys: seq<bytes>, clock: Clock, tick: nat)
    requires Monotone(clock)
    ensures var op := GetMultiOp(keys, Sample(clock, tick, |keys|));
            && WellTimed(op, LastTime(clock, tick))
            && TimeAfter(op, LastTime(clock, tick)) == LastTime(clock, tick + |keys|)
  {
    hide WellTimed, TimeAfter, LastTime, Sample, Monotone;
    OpIsTimed(Get(keys), clock, tick);
  }

  lemma ExecGetUnfolds(s: ServerState, keys: seq<bytes>, clock: Clock, s': ServerState, items: seq<R.Item>)
    requires ReadKeys(s.(tick := s.tick + |keys|), keys, Sample(clock, s.tick, |keys|)) == (s', Ok(items))
    ensures ExecGet(s, keys, clock) == (s', R.Values(items))
  {
    hide ReadKeys, Sample;
  }

  /** A get is answered with what the reference shows, whatever was physically removed. */
  lemma GetAllowed(s: ServerState, keys: seq<bytes>, m: Reference, clock: Clock)
    requires Monotone(clock) && Simulates(s.db, m, LastTime(clock, s.tick))
    ensures var (s', reply) := ExecGet(s, keys, clock);
            && reply == R.Values(ItemsFor(keys, LiveAll(m, keys, Sample(clock, s.tick, |keys|))))
            && Simulates(s'.db, m, LastTime(clock, s'.tick))
            && s' == s.(db := s'.db, tick := s.tick + |keys|, expiredRemoved := s'.expiredRemoved,
                        getHits := s.getHits + |reply.items|, getMisses := s.getMisses + |keys| - |reply.items|)
  {
    hide Simulates, ItemsFor, LiveAll, ReadKeys, ExecGet, LastTime, Sample, Monotone, WellTimed, TimeAfter;
    GetIsTimed(keys, clock, s.tick);
    var nows := Sample(clock, s.tick, |keys|);
    var s1 := s.(tick := s.tick + |keys|);
    ReadKeysAllowed(s1, keys, nows, m, LastTime(clock, s.tick));
    ExecGetUnfolds(s, keys, clock, ReadKeys(s1, keys, nows).0, ReadKeys(s1, keys, nows).1.value);
  }

  lemma {:induction false} ItemsForValid(keys: seq<bytes>, answers: seq<Option<StoredValue>>)
    requires |answers| == |keys| && forall i :: 0 <= i < |keys| ==> IsValidKey(keys[i])
    ensures forall i :: 0 <= i < |ItemsFor(keys, answers)| ==> IsValidKey(ItemsFor(keys, answers)[i].key)
  {
    hide IsValidKey;
    if keys != [] {
      var n := |keys| - 1;
      ItemsForValid(keys[..n], answers[..n]);
    }
  }

  lemma VersionHasNoCr()
    ensures CR !in VERSION_TEXT
  {
  }

  /** Executing a parsed command keeps the simulation and answers as the reference allows. */
  lemma ExecAllowed(s: ServerState, e: Event, m: Reference, clock: Clock)
    requires Monotone(clock) && Simulates(s.db, m, LastTime(clock, s.tick))
    requires e.Executed? && HasValidKeys(e.cmd)
    ensures var (s', reply) := Exec(s, e.cmd, clock);
            && ReplyAllowed(m, e.cmd, clock, s.tick, reply)
            && Simulates(s'.db, AdvanceBy(m, e, clock(s.tick)), LastTime(clock, s'.tick))
            && s'.getHits == s.getHits + ItemsSent(reply)
            && s'.getHits + s'.getMisses == s.getHits + s.getMisses + KeysAsked(e)
            && s'.storageErrors == s.storageErrors && s'.bytesWritten == s.bytesWritten
            && Tallied(s, s', e)
            && (reply.Some? ==> R.Clean(reply.value))
  {
    hide Simulates, LastTime, Sample, Monotone, IsExpired, Encoded;
    var t := LastTime(clock, s.tick);
    match e.cmd
    case Get(keys) =>
      GetAllowed(s.(cmdGet := s.cmdGet + 1), keys, m, clock);
      ItemsForValid(keys, LiveAll(m, keys, Sample(clock, s.tick, |keys|)));
      hide ItemsFor, LiveAll, ExecGet, IsValidKey;
    case Version => VersionHasNoCr();
    case Quit =>
    case _ =>
      OpIsTimed(e.cmd, clock, s.tick);
      StepSimulates(s.db, m, t, OpOf(e.cmd, clock, s.tick));
  }

  // ---- Steps keep the invariant ---------------------------------------------------------------

  /** Events taken by the loop carry valid keys and clean error texts. */
  lemma TurnIsWellFormed(c: Conn)
    requires PendingFits(c) && Turn(c).1.Some?
    ensures var e := Turn(c).1.value;
            && (e.Executed? ==> HasValidKeys(e.cmd))
            && (e.Rejected? ==> CR !in e.error.Text())
  {
    hide Turn, PendingFits, HasValidKeys, ProtocolError.Text, Parser.Parse;
    TurnTakesFirst(c);
    var parsed := Parser.Parse(c.buf);
    if parsed.Complete? {
      ParserLaws.ConsumedEndsAtCrlf(c.buf);
    } else if parsed.Error? {
      ParserLaws.ErrorTextHasNoCr(c.buf);
    }
  }

  ghost predicate WellFormedEvent(e: Event) {
    (e.Executed? ==> HasValidKeys(e.cmd)) && (e.Rejected? ==> CR !in e.error.Text())
  }

  /** Serving an event: counters, simulation, the reply and its cleanliness. */
  lemma ServeAllowed(s: ServerState, e: Event, m: Reference, clock: Clock)
    requires Monotone(clock) && Simulates(s.db, m, LastTime(clock, s.tick)) && WellFormedEvent(e)
    ensures var (s', sent) := Serve(s, e, clock);
            && (forall id :: EntryAllowed(Entry(id, e, sent, m, s.tick), clock))
            && (sent.Some? ==> R.Clean(sent.value))
            && Simulates(s'.db, AdvanceBy(m, e, clock(s.tick)), LastTime(clock, s'.tick))
            && s'.getHits == s.getHits + ItemsSent(sent)
            && s'.getHits + s'.getMisses == s.getHits + s.getMisses + KeysAsked(e)
            && s'.storageErrors == s.storageErrors
            && s'.bytesWritten == s.bytesWritten + |OptionalWire(sent)|
            && Tallied(s, s', e)
  {
    hide Simulates, LastTime, Monotone, R.Wire, ProtocolError.Text, HasValidKeys;
    if e.Executed? {
      ExecAllowed(s, e, m, clock);
      hide ReplyAllowed, Exec, AdvanceBy;
      if e.cmd.IsNoreply() {
        NoreplyIsNotGet(s, e.cmd, clock);
      }
    }
  }

  /** Only gets are answered with items, and gets are always answered. */
  lemma NoreplyIsNotGet(s: ServerState, cmd: Command, clock: Clock)
    requires cmd.IsNoreply()
    ensures ItemsSent(Exec(s, cmd, clock).1) == 0 && !cmd.Get?
  {
  }

  lemma LogGrows(log: seq<Entry>, entry: Entry, id: nat)
    ensures EventsOf(log + [entry], id) == EventsOf(log, id) + if entry.id == id then [entry.event] else []
    ensures RepliesOf(log + [entry], id) ==
            RepliesOf(log, id) + if entry.id == id && entry.sent.Some? then [entry.sent.value] else []
    ensures TotalKeys(log + [entry]) == TotalKeys(log) + KeysAsked(entry.event)
    ensures TotalItems(log + [entry]) == TotalItems(log) + ItemsSent(entry.sent)
    ensures TotalBytes(log + [entry]) == TotalBytes(log) + |OptionalWire(entry.sent)|
  {
    hide OptionalWire, KeysAsked, ItemsSent;
    assert (log + [entry])[..|log|] == log;
  }

  lemma TallyGrows(log: seq<Entry>, entry: Entry, k: Kind)
    ensures Tally(log + [entry], k) == Tally(log, k) + if KindOf(entry.event) == k then 1 else 0
  {
    hide KindOf;
    assert (log + [entry])[..|log|] == log;
  }

  lemma WireAllAppend(replies: seq<R.Reply>, sent: Option<R.Reply>)
    ensures R.WireAll(replies + if sent.Some? then [sent.value] else []) == R.WireAll(replies) + OptionalWire(sent)
  {
    hide R.Wire;
    if sent.Some? {
      assert (replies + [sent.value])[..|replies|] == replies;
    } else {
      assert replies + [] == replies;
    }
  }

  /** A handled event on the acting session. */
  lemma ActingSessionOk(x: Session, events: seq<Event>, output: bytes, buf: bytes)
    requires SessionOk(x, events, output) && x.conn.status == Draining && !x.broken && Turn(x.conn).1.Some?
    ensures SessionOk(WriteAll(x.(conn := Turn(x.conn).0), buf), events + [Turn(x.conn).1.value], output + buf)
  {
    hide Coherent, Turn, GoneFits;
    TurnCoherent(x.received, events, x.conn);
    SessionFits(x, events, output);
    TurnGone(x.conn, events);
    WriteFits(x.(conn := Turn(x.conn).0), output, buf);
  }

  lemma TurnGone(c: Conn, events: seq<Event>)
    requires PendingFits(c) && Turn(c).1.Some?
    ensures GoneFits(Turn(c).0.status, events + [Turn(c).1.value])
  {
    hide PendingFits, Turn;
    TurnTakesFirst(c);
  }

  lemma WriteFits(x: Session, output: bytes, buf: bytes)
    requires SocketFits(x, output) && !x.broken
    ensures SocketFits(WriteAll(x, buf), output + buf)
  {
  }

  lemma TurnKeepsSessions(w: World, id: nat, clock: Clock)
    requires SessionsInv(w) && Active(w, id, Draining) && Turn(w.sessions[id].conn).1.Some?
    ensures SessionsInv(Next(w, LoopTurn(id), clock))
  {
    hide SessionOk, Turn, Serve, AdvanceBy, OptionalWire, WriteAll, EventsOf, RepliesOf, R.WireAll;
    var w' := Next(w, LoopTurn(id), clock);
    var entry := w'.log[|w.log|];
    var x := w.sessions[id];
    forall j | j in w'.sessions
      ensures SessionOk(w'.sessions[j], EventsOf(w'.log, j), R.WireAll(RepliesOf(w'.log, j)))
    {
      LogGrows(w.log, entry, j);
      assert SessionOk(w.sessions[j], EventsOf(w.log, j), R.WireAll(RepliesOf(w.log, j)));
      if j == id {
        WireAllAppend(RepliesOf(w.log, id), entry.sent);
        ActingSessionOk(x, EventsOf(w.log, id), R.WireAll(RepliesOf(w.log, id)), OptionalWire(entry.sent));
      } else {
        assert EventsOf(w.log, j) + [] == EventsOf(w.log, j) && RepliesOf(w.log, j) + [] == RepliesOf(w.log, j);
      }
    }
  }

  lemma SessionFits(x: Session, events: seq<Event>, output: bytes)
    requires SessionOk(x, events, output)
    ensures PendingFits(x.conn)
  {
  }

  lemma AdvanceKeepsValid(m: Reference, e: Event, now: u64)
    requires WellFormedEvent(e) && forall k :: k in m ==> IsValidKey(k)
    ensures forall k :: k in AdvanceBy(m, e, now) ==> IsValidKey(k)
  {
    hide IsValidKey, ProtocolError.Text;
  }

  /** The parts of the world after a handled event. */
  lemma TurnParts(w: World, id: nat, clock: Clock)
    requires Active(w, id, Draining) && Turn(w.sessions[id].conn).1.Some?
    ensures var w', e := Next(w, LoopTurn(id), clock), Turn(w.sessions[id].conn).1.value;
            && w'.server == Serve(w.server, e, clock).0
            && w'.log == w.log + [Entry(id, e, Serve(w.server, e, clock).1, w.reference, w.server.tick)]
            && w'.reference == AdvanceBy(w.reference, e, clock(w.server.tick))
  {
    hide Turn, Serve, AdvanceBy, WriteAll, OptionalWire;
  }

  lemma LogOkAppend(log: seq<Entry>, entry: Entry, clock: Clock)
    requires LogOk(log, clock) && EntryAllowed(entry, clock)
    requires entry.sent.Some? ==> R.Clean(entry.sent.value)
    ensures LogOk(log + [entry], clock)
  {
    hide EntryAllowed, R.Clean;
  }

  lemma CountersAppend(s: ServerState, s': ServerState, log: seq<Entry>, entry: Entry)
    requires CountersOk(s, log)
    requires s'.getHits == s.getHits + ItemsSent(entry.sent)
    requires s'.getHits + s'.getMisses == s.getHits + s.getMisses + KeysAsked(entry.event)
    requires s'.storageErrors == s.storageErrors
    requires s'.bytesWritten == s.bytesWritten + |OptionalWire(entry.sent)| && Tallied(s, s', entry.event)
    ensures CountersOk(s', log + [entry])
  {
    hide ItemsSent, KeysAsked, OptionalWire, TotalItems, TotalKeys, TotalBytes, Tally, KindOf;
    LogGrows(log, entry, 0);
    TallyGrows(log, entry, GetKind);
    TallyGrows(log, entry, SetKind);
    TallyGrows(log, entry, DeleteKind);
    TallyGrows(log, entry, ErrorKind);
  }

  lemma TurnKeepsServer(w: World, id: nat, clock: Clock)
    requires SessionsInv(w) && ServerInv(w, clock) && Monotone(clock)
    requires Active(w, id, Draining) && Turn(w.sessions[id].conn).1.Some?
    ensures ServerInv(Next(w, LoopTurn(id), clock), clock)
  {
    hide SessionOk, Turn, Simulates, Serve, AdvanceBy, OptionalWire, LastTime, Monotone, EntryAllowed,
      R.Clean, R.WireAll, KeysAsked, ItemsSent, Tallied, Next, CountersOk, LogOk, EventsOf, RepliesOf, IsValidKey;
    var e := Turn(w.sessions[id].conn).1.value;
    TurnParts(w, id, clock);
    SessionFits(w.sessions[id], EventsOf(w.log, id), R.WireAll(RepliesOf(w.log, id)));
    TurnIsWellFormed(w.sessions[id].conn);
    ServeAllowed(w.server, e, w.reference, clock);
    var (s', sent) := Serve(w.server, e, clock);
    var entry := Entry(id, e, sent, w.reference, w.server.tick);
    LogOkAppend(w.log, entry, clock);
    CountersAppend(w.server, s', w.log, entry);
    AdvanceKeepsValid(w.reference, e, clock(w.server.tick));
  }

  lemma CompactionSimulates(w: World, key: bytes, clock: Clock)
    requires StoreOk(w, clock) && Monotone(clock) && !w.down
    ensures StoreOk(Next(w, Compaction(key), clock), clock)
  {
    hide Simulates, IsValidKey;
    var tick := w.server.tick;
    StepSimulates(w.server.db, w.reference, LastTime(clock, tick), CompactOp(key, clock(tick)));
  }

  lemma SessionChanges(w: World, id: nat, x: Session)
    requires SessionsInv(w) && SessionOk(x, EventsOf(w.log, id), R.WireAll(RepliesOf(w.log, id)))
    ensures SessionsInv(w.(sessions := w.sessions[id := x]))
  {
    hide SessionOk, EventsOf, RepliesOf, R.WireAll;
  }

  lemma AcceptKeeps(w: World, id: nat, limit: Option<nat>, clock: Clock)
    requires SessionsInv(w) && !w.down && id !in w.sessions
    ensures SessionsInv(Next(w, Accept(id, limit), clock))
  {
    hide Coherent, EventsOf, RepliesOf;
    FreshCoherent();
    Unheard(w.log, id);
    SessionChanges(w, id, Opened(limit));
  }

  lemma ReadKeeps(w: World, id: nat, chunk: bytes, clock: Clock)
    requires SessionsInv(w) && Active(w, id, Waiting) && chunk != []
    ensures SessionsInv(Next(w, Read(id, chunk), clock))
  {
    hide Coherent, EventsOf, RepliesOf, R.WireAll;
    DeliverCoherent(w.sessions[id].received, EventsOf(w.log, id), w.sessions[id].conn, chunk);
    SessionChanges(w, id, Receive(w.sessions[id], chunk));
  }

  lemma IdleTurnKeeps(w: World, id: nat, clock: Clock)
    requires SessionsInv(w) && Active(w, id, Draining) && Turn(w.sessions[id].conn).1.None?
    ensures SessionsInv(Next(w, LoopTurn(id), clock))
  {
    hide Coherent, EventsOf, RepliesOf, R.WireAll, Turn;
    var x := w.sessions[id];
    TurnCoherent(x.received, EventsOf(w.log, id), x.conn);
    IdleWaits(x.conn);
    SessionChanges(w, id, x.(conn := Turn(x.conn).0));
  }

  lemma IdleWaits(c: Conn)
    ensures Turn(c).1.None? ==> Turn(c).0.status == Waiting
  {
    hide ParseTurn;
  }

  lemma SessionsKept(w: World, step: Step, clock: Clock)
    requires SessionsInv(w) && Enabled(w, step)
    ensures SessionsInv(Next(w, step, clock))
  {
    hide SessionOk, Turn, TurnSession, Serve, EventsOf, RepliesOf, R.WireAll;
    match step
    case Accept(id, limit) => AcceptKeeps(w, id, limit, clock);
    case Read(id, chunk) => ReadKeeps(w, id, chunk, clock);
    case Compaction(_) =>
    case LoopTurn(id) =>
      if Turn(w.sessions[id].conn).1.Some? {
        TurnKeepsSessions(w, id, clock);
      } else {
        IdleTurnKeeps(w, id, clock);
      }
  }

  lemma ServerUntouched(w: World, w': World, clock: Clock)
    requires ServerInv(w, clock) && w'.server == w.server && w'.log == w.log && w'.reference == w.reference
    ensures ServerInv(w', clock)
  {
    hide CountersOk, Simulates, LogOk;
  }

  lemma ServerKept(w: World, step: Step, clock: Clock)
    requires SessionsInv(w) && ServerInv(w, clock) && Monotone(clock) && Enabled(w, step)
    ensures ServerInv(Next(w, step, clock), clock)
  {
    hide SessionsInv, Turn, Serve, LogOk, StoreOk, WriteAll, Monotone;
    if step.Compaction? {
      CompactionSimulates(w, step.key, clock);
    } else if step.LoopTurn? && Turn(w.sessions[step.id].conn).1.Some? {
      TurnKeepsServer(w, step.id, clock);
    } else {
      ServerUntouched(w, Next(w, step, clock), clock);
    }
  }

  /** A connection nobody has served yet has no entries. */
  lemma {:induction false} Unheard(log: seq<Entry>, id: nat)
    requires forall i :: 0 <= i < |log| ==> log[i].id != id
    ensures EventsOf(log, id) == [] && RepliesOf(log, id) == []
  {
    if log != [] {
      Unheard(log[..|log| - 1], id);
    }
  }

  lemma {:induction false} ReachableSessions(w: World, steps: seq<Step>, clock: Clock)
    requires Reachable(w, steps, clock)
    ensures SessionsInv(w)
    decreases |steps|
  {
    hide Next, Enabled, SessionOk, EventsOf, RepliesOf;
    if steps != [] {
      var n := |steps| - 1;
      var p :| Reachable(p, steps[..n], clock) && Enabled(p, steps[n]) && w == Next(p, steps[n], clock);
      ReachableSessions(p, steps[..n], clock);
      SessionsKept(p, steps[n], clock);
    }
  }

  lemma StartServer(w: World, clock: Clock)
    requires w.log == [] && w.reference == map[] && w.server.db == map[]
    requires w.server.getHits == w.server.getMisses == w.server.bytesWritten == w.server.storageErrors == 0
    requires w.server.cmdGet == w.server.cmdSet == w.server.cmdDelete == w.server.protocolErrors == 0
    ensures ServerInv(w, clock)
  {
    hide EntryAllowed, R.Clean, LastTime;
  }

  lemma {:induction false} ReachableServer(w: World, steps: seq<Step>, clock: Clock)
    requires Reachable(w, steps, clock) && Monotone(clock)
    ensures ServerInv(w, clock)
    decreases |steps|
  {
    hide Next, Enabled, SessionsInv, ServerInv, Monotone;
    if steps == [] {
      StartServer(w, clock);
    } else {
      var n := |steps| - 1;
      var p :| Reachable(p, steps[..n], clock) && Enabled(p, steps[n]) && w == Next(p, steps[n], clock);
      ReachableSessions(p, steps[..n], clock);
      ReachableServer(p, steps[..n], clock);
      ServerKept(p, steps[n], clock);
    }
  }

  // ---- Theorems about every run ---------------------------------------------------------------

  /** However the input was cut into reads and however connections took turns: what was handled,
      followed by the one-shot trace of the leftover, is the one-shot trace of all bytes received;
      no byte is lost; and the loop waits with work left only right after an error. */
  lemma ChunkingIndependence(w: World, steps: seq<Step>, clock: Clock, id: nat)
    requires Reachable(w, steps, clock) && id in w.sessions
    ensures var x, events := w.sessions[id], EventsOf(w.log, id);
            && Trace(x.received) == events + (if x.conn.status.Gone? then [] else Trace(x.conn.buf))
            && RawOf(events) + x.conn.buf == x.received
            && (x.conn.status == Waiting && events != Trace(x.received) ==> EndsInError(events))
  {
    hide EventsOf, RepliesOf, PendingFits, R.WireAll, Reachable, OnTrack, RawOf, Trace;
    ReachableSessions(w, steps, clock);
    var x, events := w.sessions[id], EventsOf(w.log, id);
    assert SessionOk(x, events, R.WireAll(RepliesOf(w.log, id)));
    WholeTrace(x.received, events, x.conn);
  }

  /** The bytes on the wire are the replies, one after another. A write fails exactly when there is more
      to write than the socket accepts, and then exactly what it accepts has been written. */
  lemma OutputIsReplies(w: World, steps: seq<Step>, clock: Clock, id: nat)
    requires Reachable(w, steps, clock) && id in w.sessions
    ensures var x, output := w.sessions[id], R.WireAll(RepliesOf(w.log, id));
            if x.broken then
              x.limit.Some? && x.limit.value < |output| && x.written == output[..x.limit.value]
            else
              x.written == output && (x.limit.Some? ==> |output| <= x.limit.value)
  {
    hide EventsOf, RepliesOf, R.WireAll, Reachable, Coherent;
    ReachableSessions(w, steps, clock);
    assert SessionOk(w.sessions[id], EventsOf(w.log, id), R.WireAll(RepliesOf(w.log, id)));
  }

  /** A connection is gone exactly when its last handled event is a quit or a panic. */
  lemma GoneIff(w: World, steps: seq<Step>, clock: Clock, id: nat)
    requires Reachable(w, steps, clock) && id in w.sessions
    ensures var status, events := w.sessions[id].conn.status, EventsOf(w.log, id);
            && (status == Gone(true) <==> QuitLast(events))
            && (status == Gone(false) <==> PanicLast(events))
  {
    hide EventsOf, RepliesOf, R.WireAll, Reachable, Coherent, SocketFits;
    ReachableSessions(w, steps, clock);
    assert SessionOk(w.sessions[id], EventsOf(w.log, id), R.WireAll(RepliesOf(w.log, id)));
  }

  /** Every reply is one the reference map allows at that point of the run. */
  lemma RepliesFollowReference(w: World, steps: seq<Step>, clock: Clock, i: nat)
    requires Reachable(w, steps, clock) && Monotone(clock) && i < |w.log|
    ensures EntryAllowed(w.log[i], clock)
    ensures w.log[i].sent.Some? ==> R.Clean(w.log[i].sent.value)
  {
    hide Reachable, Monotone, StoreOk, CountersOk, EntryAllowed, R.Clean;
    ReachableServer(w, steps, clock);
  }

  lemma {:induction false} RepliesClean(log: seq<Entry>, id: nat, clock: Clock)
    requires LogOk(log, clock)
    ensures forall i :: 0 <= i < |RepliesOf(log, id)| ==> R.Clean(RepliesOf(log, id)[i])
  {
    hide R.Clean, EntryAllowed;
    if log != [] {
      RepliesClean(log[..|log| - 1], id, clock);
      assert log[|log| - 1].sent.Some? ==> R.Clean(log[|log| - 1].sent.value);
    }
  }

  /** A client that follows announced lengths recovers the exact replies from its socket. */
  lemma ClientReadsReplies(w: World, steps: seq<Step>, clock: Clock, id: nat)
    requires Reachable(w, steps, clock) && Monotone(clock)
    requires id in w.sessions && !w.sessions[id].broken
    ensures R.DecodeAll(w.sessions[id].written) == Some(RepliesOf(w.log, id))
  {
    hide Reachable, Monotone, RepliesOf, R.DecodeAll, R.WireAll, CountersOk, StoreOk, LogOk, R.Clean;
    OutputIsReplies(w, steps, clock, id);
    ReachableServer(w, steps, clock);
    RepliesClean(w.log, id, clock);
    R.ClientDecodes(RepliesOf(w.log, id));
  }

  /** Hits and misses add up to the keys asked for, hits are the items sent, the byte counter is the
      length of all replies, and each command and error counter is the number of such events. */
  lemma CountersConserve(w: World, steps: seq<Step>, clock: Clock)
    requires Reachable(w, steps, clock) && Monotone(clock)
    ensures w.server.getHits + w.server.getMisses == TotalKeys(w.log)
    ensures w.server.getHits == TotalItems(w.log)
    ensures w.server.bytesWritten == TotalBytes(w.log)
    ensures w.server.storageErrors == 0
    ensures w.server.cmdGet == Tally(w.log, GetKind) && w.server.cmdSet == Tally(w.log, SetKind)
    ensures w.server.cmdDelete == Tally(w.log, DeleteKind) && w.server.protocolErrors == Tally(w.log, ErrorKind)
  {
    hide Reachable, Monotone, StoreOk, LogOk, TotalKeys, TotalItems, TotalBytes, Tally;
    ReachableServer(w, steps, clock);
  }

  /** The output of connections 0 to `n` - 1, in bytes. */
  function OutputBytes(log: seq<Entry>, n: nat): nat {
    if n == 0 then 0 else OutputBytes(log, n - 1) + |R.WireAll(RepliesOf(log, n - 1))|
  }

  lemma {:induction false} OutputBytesGrow(log: seq<Entry>, entry: Entry, n: nat)
    ensures OutputBytes(log + [entry], n) ==
            OutputBytes(log, n) + if entry.id < n then |OptionalWire(entry.sent)| else 0
  {
    hide RepliesOf, R.WireAll, OptionalWire;
    if n > 0 {
      OutputBytesGrow(log, entry, n - 1);
      LogGrows(log, entry, n - 1);
      WireAllAppend(RepliesOf(log, n - 1), entry.sent);
      assert RepliesOf(log, n - 1) + [] == RepliesOf(log, n - 1);
    }
  }

  lemma {:induction false} OutputBytesEmpty(log: seq<Entry>, n: nat)
    requires log == []
    ensures OutputBytes(log, n) == 0
  {
    if n > 0 {
      OutputBytesEmpty(log, n - 1);
    }
  }

  lemma {:induction false} OutputBytesAreTotal(log: seq<Entry>, n: nat)
    requires forall i :: 0 <= i < |log| ==> log[i].id < n
    ensures OutputBytes(log, n) == TotalBytes(log)
    decreases |log|
  {
    hide OptionalWire, OutputBytes;
    if log == [] {
      OutputBytesEmpty(log, n);
    } else {
      var m := |log| - 1;
      OutputBytesAreTotal(log[..m], n);
      OutputBytesGrow(log[..m], log[m], n);
      assert log[..m] + [log[m]] == log;
    }
  }

  /** Bytes actually written by connections 0 to `n` - 1. */
  function Written(sessions: map<nat, Session>, n: nat): nat {
    if n == 0 then 0 else Written(sessions, n - 1) + if n - 1 in sessions then |sessions[n - 1].written| else 0
  }

  lemma {:induction false} WrittenIsOutput(w: World, n: nat)
    requires SessionsInv(w) && forall id :: id in w.sessions ==> !w.sessions[id].broken
    ensures Written(w.sessions, n) == OutputBytes(w.log, n)
  {
    hide Coherent, EventsOf, RepliesOf, R.WireAll;
    if n > 0 {
      WrittenIsOutput(w, n - 1);
      if n - 1 in w.sessions {
        assert SessionOk(w.sessions[n - 1], EventsOf(w.log, n - 1), R.WireAll(RepliesOf(w.log, n - 1)));
      } else {
        Unheard(w.log, n - 1);
        NothingSent(RepliesOf(w.log, n - 1));
      }
    }
  }

  lemma NothingSent(replies: seq<R.Reply>)
    requires replies == []
    ensures R.WireAll(replies) == []
  {
  }

  /** When no write fails, the byte counter is the number of bytes on all sockets together. */
  lemma BytesWrittenReachSockets(w: World, steps: seq<Step>, clock: Clock, n: nat)
    requires Reachable(w, steps, clock) && Monotone(clock)
    requires forall id :: id in w.sessions ==> id < n && !w.sessions[id].broken
    ensures w.server.bytesWritten == Written(w.sessions, n)
  {
    hide Reachable, Monotone, SessionOk, Written, OutputBytes, TotalBytes, EventsOf, RepliesOf, R.WireAll;
    ReachableSessions(w, steps, clock);
    CountersConserve(w, steps, clock);
    WrittenIsOutput(w, n);
    OutputBytesAreTotal(w.log, n);
  }

  /** Every entry of a reachable store has a valid key and a decodable value, and the compaction
      filter removes it exactly when a get would call it expired. */
  lemma ReachableStore(w: World, steps: seq<Step>, clock: Clock, key: bytes, now: u64)
    requires Reachable(w, steps, clock) && Monotone(clock) && key in w.server.db
    ensures IsValidKey(key) && Decode(w.server.db[key]).Ok?
    ensures FilterRemoves(w.server.db[key], now) <==> HoldsExpired(w.server.db, key, now)
  {
    hide Reachable, Monotone, IsValidKey, LastTime, CountersOk, LogOk, Encoded;
    ReachableServer(w, steps, clock);
    DecodeEncoded(w.reference[key]);
    FilterIffExpired(w.server.db[key], now);
  }

  /** The process is down exactly when some handler panicked, and that was the last event. */
  predicate DownFits(w: World) {
    && (w.down <==> exists i :: 0 <= i < |w.log| && w.log[i].event.Panicked?)
    && forall i :: 0 <= i < |w.log| && w.log[i].event.Panicked? ==> i == |w.log| - 1
  }

  lemma DownKept(w: World, step: Step, clock: Clock)
    requires DownFits(w) && Enabled(w, step)
    ensures DownFits(Next(w, step, clock))
  {
    hide Turn, TurnSession, Serve, AdvanceBy, AfterCompaction;
    var w' := Next(w, step, clock);
    if step.LoopTurn? && Turn(w.sessions[step.id].conn).1.Some? {
      assert w'.log[..|w.log|] == w.log;
      assert w'.down <==> w'.log[|w.log|].event.Panicked?;
    }
  }

  lemma {:induction false} DownIffPanicked(w: World, steps: seq<Step>, clock: Clock)
    requires Reachable(w, steps, clock)
    ensures DownFits(w)
    decreases |steps|
  {
    hide Next, Enabled;
    if steps == [] {
      assert DownFits(START);
    } else {
      hide DownFits;
      var n := |steps| - 1;
      var p :| Reachable(p, steps[..n], clock) && Enabled(p, steps[n]) && w == Next(p, steps[n], clock);
      DownIffPanicked(p, steps[..n], clock);
      DownKept(p, steps[n], clock);
    }
  }

  // ---- The handler's runs are such runs -------------------------------------------------------

  lemma Extend(w: World, steps: seq<Step>, clock: Clock, step: Step) returns (w': World, steps': seq<Step>)
    requires Reachable(w, steps, clock) && Enabled(w, step)
    ensures w' == Next(w, step, clock) && Reachable(w', steps', clock)
  {
    w', steps' := Next(w, step, clock), steps + [step];
    assert steps'[..|steps|] == steps;
  }

  lemma {:induction false} DrainIsRun(w: World, steps: seq<Step>, clock: Clock, id: nat)
    returns (w': World, steps': seq<Step>)
    requires Reachable(w, steps, clock) && id in w.sessions
    requires w.down ==> w.sessions[id].conn.status.Gone?
    ensures Reachable(w', steps', clock) && id in w'.sessions
    ensures (w'.server, w'.sessions[id]) == Drain(w.server, w.sessions[id], clock)
    ensures w'.down ==> w'.sessions[id].conn.status.Gone?
    decreases |w.sessions[id].conn.buf|
  {
    hide Reachable, Turn, Serve, WriteAll, AdvanceBy;
    var x := w.sessions[id];
    if x.conn.status != Draining || x.broken {
      w', steps' := w, steps;
    } else {
      TurnShrinks(x.conn);
      w', steps' := Extend(w, steps, clock, LoopTurn(id));
      TurnWorld(w, id, clock);
      if w'.sessions[id].conn.status == Draining {
        w', steps' := DrainIsRun(w', steps', clock, id);
      }
    }
  }

  lemma TurnWorld(w: World, id: nat, clock: Clock)
    requires Active(w, id, Draining)
    ensures var w' := Next(w, LoopTurn(id), clock);
            && id in w'.sessions
            && (w'.server, w'.sessions[id]) == TurnSession(w.server, w.sessions[id], clock)
            && w'.sessions[id].conn == Turn(w.sessions[id].conn).0
            && (w'.down ==> w'.sessions[id].conn.status.Gone?)
  {
    hide Turn, Serve;
    PanicIsGone(w.sessions[id].conn);
  }

  lemma PanicIsGone(c: Conn)
    ensures Turn(c).1 == Some(Panicked) ==> Turn(c).0.status == Gone(false)
  {
    hide ParseTurn;
  }

  lemma {:induction false} ReadsAreRun(w: World, steps: seq<Step>, clock: Clock, id: nat, chunks: seq<bytes>)
    returns (w': World, steps': seq<Step>)
    requires Reachable(w, steps, clock) && id in w.sessions
    requires w.sessions[id].conn.status != Draining || w.sessions[id].broken
    requires w.down ==> w.sessions[id].conn.status.Gone?
    requires forall i :: 0 <= i < |chunks| ==> chunks[i] != []
    ensures Reachable(w', steps', clock) && id in w'.sessions
    ensures (w'.server, w'.sessions[id]) == RunReads(w.server, w.sessions[id], chunks, clock)
    decreases |chunks|
  {
    hide Reachable, Drain;
    var x := w.sessions[id];
    if chunks == [] || x.conn.status.Gone? || x.broken {
      w', steps' := w, steps;
    } else {
      w', steps' := Extend(w, steps, clock, Read(id, chunks[0]));
      DrainSettles(w'.server, w'.sessions[id], clock);
      w', steps' := DrainIsRun(w', steps', clock, id);
      w', steps' := ReadsAreRun(w', steps', clock, id, chunks[1..]);
    }
  }

  lemma AcceptedRun(w0: World, clock: Clock, limit: Option<nat>, chunks: seq<bytes>)
    returns (w: World, steps: seq<Step>)
    requires Reachable(w0, [], clock) && !w0.down && 0 !in w0.sessions
    requires forall i :: 0 <= i < |chunks| ==> chunks[i] != []
    ensures Reachable(w, steps, clock) && 0 in w.sessions
    ensures (w.server, w.sessions[0]) == RunReads(w0.server, Opened(limit), chunks, clock)
  {
    hide Reachable, RunReads;
    w, steps := Extend(w0, [], clock, Accept(0, limit));
    w, steps := ReadsAreRun(w, steps, clock, 0, chunks);
  }

  /** What the connection handler computes from an empty server is a reachable world, so all of the
      above holds of it. */
  lemma HandlerRunIsReachable(clock: Clock, limit: Option<nat>, chunks: seq<bytes>)
    requires forall i :: 0 <= i < |chunks| ==> chunks[i] != []
    ensures exists w, steps ::
              && Reachable(w, steps, clock) && 0 in w.sessions
              && (w.server, w.sessions[0]) == RunReads(EMPTY, Opened(limit), chunks, clock)
  {
    assert Reachable(START, [], clock);
    hide Reachable, RunReads;
    var w, steps := AcceptedRun(START, clock, limit, chunks);
  }
}
