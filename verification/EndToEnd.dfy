/** A stored value and its way back, as bytes on the socket. */
module EndToEnd {
  import opened Bytes
  import opened Command
  import opened Value
  import opened Store
  import opened Parser
  import opened Grammar
  import opened Conversation
  import opened Response
  import opened Handler
  import opened Session
  import Decimal

  /** What a client sends to store `data` for ever: `set <key> <flags> 0 <length>`, then the data. */
  function SetText(key: bytes, flags: u32, data: bytes): bytes {
    [115, 101, 116, 32] + key + [32] + Decimal.Format(flags) + [32, 48, 32] + Decimal.Format(|data|) + [13, 10]
    + data + [13, 10]
  }

  /** And to read it: `get <key>`. */
  function GetText(key: bytes): bytes {
    [103, 101, 116, 32] + key + [13, 10]
  }

  /** STORED, then the item and END. */
  function AnswerText(key: bytes, flags: u32, data: bytes): bytes {
    [83, 84, 79, 82, 69, 68, 13, 10]
    + ([86, 65, 76, 85, 69, 32] + key + [32] + Decimal.Format(flags) + [32] + Decimal.Format(|data|) + [13, 10]
       + data + [13, 10]
       + [69, 78, 68, 13, 10])
  }

  lemma CommandWords()
    ensures Ascii("set") == [115, 101, 116] && Ascii("get") == [103, 101, 116]
    ensures Decimal.Format(0) == [48]
  {
  }

  lemma JoinTwo(a: bytes, b: bytes)
    ensures Join([a, b]) == a + [SPACE] + b
  {
    assert [a, b][1..] == [b];
  }

  lemma JoinFive(a: bytes, b: bytes, c: bytes, d: bytes, e: bytes)
    ensures Join([a, b, c, d, e]) == a + [SPACE] + b + [SPACE] + c + [SPACE] + d + [SPACE] + e
  {
    hide Join;
    var words := [a, b, c, d, e];
    assert words[1..] == [b, c, d, e] && words[1..][1..] == [c, d, e] && words[1..][1..][1..] == [d, e];
    JoinCons([d, e]);
    JoinCons([c, d, e]);
    JoinCons([b, c, d, e]);
    JoinCons(words);
    assert [d, e][1..] == [e] && [c, d, e][1..] == [d, e] && [b, c, d, e][1..] == [c, d, e];
    JoinOne(e);
  }

  lemma JoinCons(words: seq<bytes>)
    requires |words| > 1
    ensures Join(words) == words[0] + [SPACE] + Join(words[1..])
  {
  }

  lemma JoinOne(word: bytes)
    ensures Join([word]) == word
  {
  }

  lemma SetLineIsJoin(key: bytes, f: bytes, n: bytes)
    ensures Join([[115, 101, 116], key, f, [48], n]) ==
            [115, 101, 116, 32] + key + [32] + f + [32, 48, 32] + n
  {
    hide Join;
    JoinFive([115, 101, 116], key, f, [48], n);
  }

  lemma SetTextIsRender(key: bytes, flags: u32, data: bytes)
    ensures SetText(key, flags, data) == Render(Set(key, flags, 0, data, false))
  {
    hide Decimal.Format, Ascii, Join;
    CommandWords();
    var f, n := Decimal.Format(flags), Decimal.Format(|data|);
    SetLineIsJoin(key, f, n);
    var words := [[115, 101, 116], key, f, [48], n];
    assert [[115, 101, 116]] + Arguments(Set(key, flags, 0, data, false)) == words;
    assert Render(Set(key, flags, 0, data, false)) == Join(words) + CRLF + (data + CRLF);
  }

  lemma GetTextIsRender(key: bytes)
    ensures GetText(key) == Render(Get([key]))
  {
    hide Ascii, Join;
    CommandWords();
    JoinTwo([103, 101, 116], key);
    assert [[103, 101, 116]] + [key] == [[103, 101, 116], key];
  }

  /** A turn on a buffer that starts with the canonical text of a command. */
  lemma TurnOn(text: bytes, cmd: Command, rest: bytes)
    requires text == Render(cmd) && NamesKeys(cmd) && !cmd.Quit? && (cmd.Set? ==> |text| <= USIZE_MAX)
    ensures Turn(Conn(text + rest, None, Draining)) == (Conn(rest, None, Draining), Some(Executed(cmd, text)))
  {
    hide Render, Parse;
    NamesKeysIff(cmd);
    RoundTrip(cmd, rest);
    assert (text + rest)[|text|..] == rest && (text + rest)[..|text|] == text;
  }

  lemma TurnOnNothing()
    ensures Turn(Conn([], None, Draining)) == (Conn([], None, Waiting), None)
  {
    hide Parse;
    NoLineYet([]);
  }

  /** A set for ever, on the socket. */
  lemma SetTurn(s: ServerState, x: Session, clock: Clock, text: bytes, key: bytes, flags: u32, data: bytes, rest: bytes)
    requires x.limit == None && !x.broken && x.conn == Conn(text + rest, None, Draining)
    requires text == Render(Set(key, flags, 0, data, false)) && IsKey(key) && |text| <= USIZE_MAX
    ensures var (s', x') := TurnSession(s, x, clock);
            && s'.db == s.db[key := Encoded(StoredValue(0, flags, data))]
            && x' == x.(conn := Conn(rest, None, Draining), written := x.written + [83, 84, 79, 82, 69, 68, 13, 10])
  {
    hide Render, Turn, Encoded, Wire;
    TurnOn(text, Set(key, flags, 0, data, false), rest);
    LineBytes(Stored);
  }

  lemma GetFound(s: ServerState, key: bytes, flags: u32, data: bytes, clock: Clock)
    requires key in s.db && s.db[key] == Encoded(StoredValue(0, flags, data))
    ensures ExecGet(s, [key], clock).1 == Values([Item(key, flags, data)])
  {
    hide Encoded, Lookup, BatchError, BatchAnswers, HoldsExpired, AfterGet, AfterCompaction, Without, ExpiredKeys;
    var now := clock(s.tick);
    EntryOutcome(s.db, key, StoredValue(0, flags, data), now);
    SingleKeyBatch(s.db, key, now);
    assert Sample(clock, s.tick, 1) == [now];
    OneItem([key], [Some(StoredValue(0, flags, data))]);
  }

  lemma GetTurn(s: ServerState, x: Session, clock: Clock, text: bytes, key: bytes, flags: u32, data: bytes)
    requires x.limit == None && !x.broken && x.conn == Conn(text, None, Draining)
    requires text == Render(Get([key])) && IsKey(key)
    requires key in s.db && s.db[key] == Encoded(StoredValue(0, flags, data))
    ensures var (s', x') := TurnSession(s, x, clock);
            && x' == x.(conn := Conn([], None, Draining),
                        written := x.written + Wire(Values([Item(key, flags, data)])))
  {
    hide Render, Turn, Encoded, Wire, ExecGet, IsKey;
    assert text + [] == text;
    TurnOn(text, Get([key]), []);
    GetFound(s.(cmdGet := s.cmdGet + 1), key, flags, data, clock);
  }

  lemma OneItemBytes(key: bytes, flags: u32, data: bytes)
    ensures [83, 84, 79, 82, 69, 68, 13, 10] + Wire(Values([Item(key, flags, data)])) == AnswerText(key, flags, data)
  {
    hide Wire, ItemBytes, Decimal.Format;
    var item := Item(key, flags, data);
    ValuesBytes([item]);
    assert [item][1..] == [];
    ValuesBytes([]);
    ItemIsBytes(item);
  }

  /** On any server, at any time: a client that sends a set without expiry and a get of its key gets
      back STORED and its own data, whatever bytes that holds. */
  lemma SetThenGet(s: ServerState, clock: Clock, key: bytes, flags: u32, data: bytes)
    requires IsKey(key) && |SetText(key, flags, data)| <= USIZE_MAX
    ensures RunReads(s, Opened(None), [SetText(key, flags, data) + GetText(key)], clock).1.written
            == AnswerText(key, flags, data)
  {
    var a, b := SetText(key, flags, data), GetText(key);
    SetTextIsRender(key, flags, data);
    GetTextIsRender(key);
    OneItemBytes(key, flags, data);
    hide SetText, GetText, AnswerText, Render, Turn, TurnSession, Encoded, Wire, IsKey, Drain, RunReads;
    var x0 := Receive(Opened(None), a + b);
    assert x0.conn.buf == a + b;
    var (s1, x1) := TurnSession(s, x0, clock);
    SetTurn(s, x0, clock, a, key, flags, data, b);
    var (s2, x2) := TurnSession(s1, x1, clock);
    GetTurn(s1, x1, clock, b, key, flags, data);
    DrainEnds(s2, x2, clock);
    DrainStep(s1, x1, clock);
    DrainStep(s, x0, clock);
    OneChunk(s, Opened(None), a + b, clock);
  }

  lemma DrainStep(s: ServerState, x: Session, clock: Clock)
    requires x.conn.status == Draining && !x.broken
    requires TurnSession(s, x, clock).1.conn.status == Draining
    ensures Drain(s, x, clock) == Drain(TurnSession(s, x, clock).0, TurnSession(s, x, clock).1, clock)
  {
    hide TurnSession;
  }

  lemma DrainEnds(s: ServerState, x: Session, clock: Clock)
    requires x.conn == Conn([], None, Draining) && !x.broken
    ensures Drain(s, x, clock) == (s, x.(conn := Conn([], None, Waiting)))
  {
    hide Turn;
    TurnOnNothing();
  }

  lemma OneChunk(s: ServerState, x: Session, chunk: bytes, clock: Clock)
    requires x.conn.status == Waiting && !x.broken
    ensures RunReads(s, x, [chunk], clock) == Drain(s, Receive(x, chunk), clock)
  {
    hide Drain;
    var (s', x') := Drain(s, Receive(x, chunk), clock);
    assert |[chunk][1..]| == 0;
    assert RunReads(s', x', [chunk][1..], clock) == (s', x');
  }
}
