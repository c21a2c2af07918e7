/** Concrete inputs: where splits of a stream are handled differently, and where the gauge drifts. */
module Witnesses {
  import opened Bytes
  import opened Command
  import opened Parser
  import opened Conversation
  import opened Grammar
  import opened Handler
  import opened Session
  import opened Response
  import Utf8

  // ---- An error in the middle of a read -------------------------------------------------------

  const BAD: bytes := Ascii("bad") + CRLF

  lemma BadIsUnknown(word: bytes)
    requires word == Ascii("bad")
    ensures VerbOf(word) == UnknownVerb && SPACE !in word && CR !in word
  {
    assert Ascii("get")[0] != word[0] && Ascii("set")[0] != word[0];
  }

  lemma BadLine(word: bytes, x: bytes)
    requires VerbOf(word) == UnknownVerb && SPACE !in word && CR !in word
    ensures First(word + CRLF + x) == Some(Rejected(InvalidCommand(Utf8.Lossy(word)), word + CRLF))
  {
    hide VerbOf, Split;
    var b := word + CRLF + x;
    FindCrlfAt(word, x);
    assert b[..|word|] == word && b[..|word| + 2] == word + CRLF;
    SplitWord(word);
  }

  lemma VersionLine()
    ensures First(Render(Version)) == Some(Executed(Version, Render(Version)))
  {
    hide Parse, Render;
    RoundTrip(Version, []);
    assert Render(Version) + [] == Render(Version);
    assert Render(Version)[..|Render(Version)|] == Render(Version);
  }

  /** The trace of an unknown command and a version request. */
  lemma TwoLines(bad: bytes, v: bytes, e: Event, f: Event)
    requires First(bad) == Some(e) && e.Rejected? && e.Raw() == bad
    requires First(v) == Some(f) && f.Executed? && !f.Terminal() && f.Raw() == v
    ensures Trace(bad) == [e] && Trace(v) == [f] && Trace(bad + v) == [e, f]
  {
    hide First;
    TraceAfterFirst(bad, v);
    TraceUnfolds(bad);
    TraceUnfolds(v);
    hide Trace;
    assert bad[|bad|..] == [] && v[|v|..] == [] && bad[|bad|..] + v == v;
    NothingToHandle(bad[|bad|..]);
  }

  /** The state after the first of two reads. */
  lemma AfterBad(bad: bytes, e: Event)
    requires First(bad) == Some(e) && e.Rejected? && e.Raw() == bad
    ensures var (d, events) := DrainConn(Deliver(FRESH, bad), []);
            events == [e] && d.status == Waiting && d.buf == [] && Coherent(bad, [e], d)
  {
    hide First, Turn, Coherent;
    FreshCoherent();
    FeedStep([bad], [], [], FRESH);
    assert [] + bad == bad && FRESH.buf + bad == bad;
    var c := Deliver(FRESH, bad);
    TurnTakesFirst(c);
    assert bad[|bad|..] == [] && [] + [e] == [e];
  }

  lemma FeedTwo(a: bytes, b: bytes)
    requires DrainConn(Deliver(FRESH, a), []).0.status == Waiting
    ensures var (d, events) := DrainConn(Deliver(FRESH, a), []);
            Feed([a, b], FRESH, []) == DrainConn(Deliver(d, b), events)
    ensures Joined([a, b]) == a + b
  {
    hide DrainConn, Deliver;
    var (d, events) := DrainConn(Deliver(FRESH, a), []);
    var (d', events') := DrainConn(Deliver(d, b), events);
    assert [a, b][1..] == [b] && |[b][1..]| == 0;
    assert Feed([b], d, events) == Feed([], d', events') == (d', events');
    assert Joined([b]) == b + Joined([]) == b;
  }

  lemma TwoReads(bad: bytes, v: bytes, e: Event, f: Event)
    requires First(bad) == Some(e) && e.Rejected? && e.Raw() == bad
    requires First(v) == Some(f) && f.Executed? && !f.Terminal() && f.Raw() == v
    ensures Feed([bad, v], FRESH, []).1 == [e, f] && Joined([bad, v]) == bad + v
  {
    hide First, Trace, DrainConn, Coherent, Deliver, Feed, UpToError, Joined;
    TwoLines(bad, v, e, f);
    AfterBad(bad, e);
    FeedTwo(bad, v);
    var (d, events) := DrainConn(Deliver(FRESH, bad), []);
    ReadHandlesUpToError(bad, [e], d, v);
    assert d.buf + v == v;
    UpToErrorCons(f, []);
  }

  lemma BadIsRejected()
    ensures First(BAD) == Some(Rejected(InvalidCommand(Utf8.Lossy(Ascii("bad"))), BAD))
  {
    hide First;
    BadIsUnknown(Ascii("bad"));
    BadLine(Ascii("bad"), []);
    assert Ascii("bad") + CRLF + [] == BAD;
  }

  /** One stream, two splits, different numbers of events: `bad\r\nversion\r\n` read at once is
      answered once, read line by line it is answered twice. */
  lemma SplitsCanDiffer()
    ensures Joined([BAD + Render(Version)]) == Joined([BAD, Render(Version)])
    ensures |Feed([BAD + Render(Version)], FRESH, []).1| == 1
    ensures |Feed([BAD, Render(Version)], FRESH, []).1| == 2
  {
    hide First, Feed, Trace, Render, Ascii, UpToError, Joined;
    var bad: bytes, v: bytes := BAD, Render(Version);
    BadIsRejected();
    VersionLine();
    var e, f := First(bad).value, First(v).value;
    TwoLines(bad, v, e, f);
    TwoReads(bad, v, e, f);
    OneRead(bad + v);
    UpToErrorCons(e, [f]);
    assert [e] + [f] == [e, f];
  }

  // ---- A client that quits --------------------------------------------------------------------

  lemma QuitLine(q: bytes)
    requires q == Render(Quit)
    ensures First(q) == Some(Executed(Quit, q))
  {
    hide Parse, Render;
    RoundTrip(Quit, []);
    assert q + [] == q && q[..|q|] == q;
  }

  /** A client that sends `quit` is gone after it, on any server and any socket. */
  lemma QuitEndsEarly(s: ServerState, limit: Option<nat>, clock: Clock)
    ensures var (s', x) := RunReads(s, Opened(limit), [Render(Quit)], clock);
            && s' == s && x.written == []
            && x.conn.status == Gone(true) && !x.broken
  {
    var q: bytes := Render(Quit);
    QuitLine(q);
    QuitTurn(s, limit, clock, q);
    hide Render, First, TurnSession, Turn;
    var x := Receive(Opened(limit), q);
    var x' := TurnSession(s, x, clock).1;
    assert Drain(s, x, clock) == (s, x');
    assert |[q][1..]| == 0;
    assert RunReads(s, x', [], clock) == (s, x');
  }

  lemma QuitTurn(s: ServerState, limit: Option<nat>, clock: Clock, q: bytes)
    requires First(q) == Some(Executed(Quit, q))
    ensures var (s', x) := TurnSession(s, Receive(Opened(limit), q), clock);
            s' == s && x.written == [] && !x.broken && x.conn.status == Gone(true)
  {
    hide First, Turn;
    var x := Receive(Opened(limit), q);
    assert x.conn.buf == q;
    TurnTakesFirst(x.conn);
    WriteNothing(x.(conn := Turn(x.conn).0));
  }

  // ---- A client whose socket fails --------------------------------------------------------------

  lemma VersionTurn(s: ServerState, limit: nat, clock: Clock, v: bytes)
    requires First(v) == Some(Executed(Version, v))
    requires limit < |Wire(VersionIs(VERSION_TEXT))|
    ensures var (s', x) := TurnSession(s, Receive(Opened(Some(limit)), v), clock);
            x.broken && |x.written| == limit && x.conn.status == Draining
  {
    hide First, Turn, Wire;
    var x := Receive(Opened(Some(limit)), v);
    assert x.conn.buf == v;
    TurnTakesFirst(x.conn);
  }

  /** A client whose socket accepts less than the answer to its `version` is broken after it, with just
      that much written and the loop not left. */
  lemma FailedWriteEndsEarly(s: ServerState, limit: nat, clock: Clock)
    requires limit < 26
    ensures var x := RunReads(s, Opened(Some(limit)), [Render(Version)], clock).1;
            x.broken && |x.written| == limit && !x.conn.status.Gone?
  {
    var v: bytes := Render(Version);
    VersionLine();
    LineBytes(VersionIs(VERSION_TEXT));
    VersionTurn(s, limit, clock, v);
    hide Render, First, TurnSession, Turn, Wire;
    var x := Receive(Opened(Some(limit)), v);
    var (s', x') := TurnSession(s, x, clock);
    assert Drain(s, x, clock) == (s', x');
    assert |[v][1..]| == 0;
    assert RunReads(s', x', [], clock) == (s', x');
  }
}
