/** Which lines are refused and with what answer, told from the grammar, and what every handled event
    of a run was spelled by. */
module Refusals {
  import opened Bytes
  import opened Command
  import opened Parser
  import opened ParserLaws
  import opened Grammar
  import opened Conversation
  import opened Value
  import opened Store
  import opened Response
  import opened Handler
  import opened ServerRun
  import Decimal
  import Utf8

  // ---- The rules ------------------------------------------------------------------------------

  /** The refusal of a word that should be a key and is none. */
  predicate BadKey(word: bytes, e: ProtocolError) {
    && word != [] && !IsKey(word)
    && e == if |word| > 250 then KeyTooLong else InvalidKey(Utf8.Lossy(word))
  }

  /** Word `i` is missing or the text of no number up to `max`. */
  ghost predicate NoNumber(parts: seq<bytes>, i: nat, max: nat) {
    i >= |parts| || forall n: nat :: n <= max ==> !Decimal.IsTextOf(parts[i], n)
  }

  /** The first word that is no key decides; a line without any word is refused too. */
  predicate GetRefused(parts: seq<bytes>, e: ProtocolError) {
    || (exists i :: && 0 <= i < |parts| && BadKey(parts[i], e)
                    && forall j :: 0 <= j < i ==> parts[j] == [] || IsKey(parts[j]))
    || ((forall i :: 0 <= i < |parts| ==> parts[i] == [])
        && e == InvalidCommand(Ascii("get requires at least one key")))
  }

  predicate DeleteRefused(parts: seq<bytes>, e: ProtocolError) {
    if parts == [] || parts[0] == [] then e == InvalidCommand(Ascii("delete requires a key"))
    else BadKey(parts[0], e)
  }

  /** The first bad word of a set line decides: key, flags, exptime, length. */
  ghost predicate SetRefused(parts: seq<bytes>, e: ProtocolError) {
    if parts == [] || parts[0] == [] then e == InvalidCommand(Ascii("missing key"))
    else if !IsKey(parts[0]) then BadKey(parts[0], e)
    else if NoNumber(parts, 1, 0xFFFF_FFFF) then e == InvalidFlags
    else if NoNumber(parts, 2, 0xFFFF_FFFF_FFFF_FFFF) then e == InvalidExptime
    else NoNumber(parts, 3, 0xFFFF_FFFF_FFFF_FFFF) && e == InvalidBytesLength
  }

  /** What a line is refused with for its own words. */
  ghost predicate LineRefused(words: seq<bytes>, e: ProtocolError)
    requires |words| > 0
  {
    var verb, parts := words[0], words[1..];
    if verb == [] then e == InvalidCommand(Ascii("empty command"))
    else if CaseVariant(verb, Ascii("get")) then GetRefused(parts, e)
    else if CaseVariant(verb, Ascii("set")) then SetRefused(parts, e)
    else if CaseVariant(verb, Ascii("delete")) then DeleteRefused(parts, e)
    else if CaseVariant(verb, Ascii("version")) || CaseVariant(verb, Ascii("quit")) then false
    else e == InvalidCommand(Utf8.Lossy(verb))
  }

  /** A good set line that announces `n` bytes. */
  ghost predicate Announces(words: seq<bytes>, n: nat)
    requires |words| > 0
  {
    var parts := words[1..];
    && CaseVariant(words[0], Ascii("set"))
    && |parts| >= 4 && IsKey(parts[0])
    && !NoNumber(parts, 1, 0xFFFF_FFFF) && !NoNumber(parts, 2, 0xFFFF_FFFF_FFFF_FFFF)
    && n <= 0xFFFF_FFFF_FFFF_FFFF && Decimal.IsTextOf(parts[3], n)
  }

  /** `n` bytes were announced on a line of `line` bytes, and `rest` is no such block with its CRLF. */
  predicate BlockRefused(line: nat, n: nat, rest: bytes) {
    if line + 4 + n <= USIZE_MAX then n + 2 <= |rest| && rest[n..n + 2] != CRLF
    else n != USIZE_MAX - 1 && line + 4 + n > USIZE_MAX + 2 && (n == USIZE_MAX ==> rest != [])
  }

  // ---- Lines ----------------------------------------------------------------------------------

  lemma KeyErrorIff(word: bytes, e: ProtocolError)
    requires word != [] && !IsValidKey(word)
    ensures BadKey(word, e) <==> e == KeyError(word)
  {
    hide Utf8.Lossy;
    KeyIff(word);
  }

  lemma FieldIff(parts: seq<bytes>, i: nat, max: nat)
    ensures Field(parts, i, max).None? <==> NoNumber(parts, i, max)
  {
    hide Decimal.Parse, Decimal.IsTextOf;
    if i < |parts| {
      forall n: nat ensures Decimal.Parse(parts[i], max) == Some(n) <==> n <= max && Decimal.IsTextOf(parts[i], n) {
        Decimal.ParseIff(parts[i], max, n);
      }
    }
  }

  lemma {:induction false} GetKeysIff(parts: seq<bytes>, e: ProtocolError)
    ensures GetKeys(parts) == Err(e) <==>
            exists i :: && 0 <= i < |parts| && BadKey(parts[i], e)
                        && forall j :: 0 <= j < i ==> parts[j] == [] || IsKey(parts[j])
    ensures GetKeys(parts) == Ok([]) <==> forall i :: 0 <= i < |parts| ==> parts[i] == []
  {
    hide IsKey, IsValidKey, KeyError, Utf8.Lossy;
    if parts != [] {
      var rest := parts[1..];
      assert forall i :: 0 < i < |parts| ==> parts[i] == rest[i - 1];
      GetKeysIff(rest, e);
      KeyIff(parts[0]);
      FirstOrLater(parts, e);
      if parts[0] != [] && !IsValidKey(parts[0]) {
        KeyErrorIff(parts[0], e);
      }
    }
  }

  /** The first bad key is the first word or lies behind it. */
  lemma FirstOrLater(parts: seq<bytes>, e: ProtocolError)
    requires parts != []
    ensures (exists i :: && 0 <= i < |parts| && BadKey(parts[i], e)
                         && forall j :: 0 <= j < i ==> parts[j] == [] || IsKey(parts[j]))
            <==>
            || BadKey(parts[0], e)
            || ((parts[0] == [] || IsKey(parts[0]))
                && exists i :: && 0 <= i < |parts[1..]| && BadKey(parts[1..][i], e)
                               && forall j :: 0 <= j < i ==> parts[1..][j] == [] || IsKey(parts[1..][j]))
  {
    hide IsKey, BadKey;
    var rest := parts[1..];
    if i :| && 0 < i < |parts| && BadKey(parts[i], e)
            && forall j :: 0 <= j < i ==> parts[j] == [] || IsKey(parts[j]) {
      assert BadKey(rest[i - 1], e);
      assert forall j :: 0 <= j < i - 1 ==> rest[j] == parts[j + 1];
    }
    if i :| && 0 <= i < |rest| && BadKey(rest[i], e)
            && forall j :: 0 <= j < i ==> rest[j] == [] || IsKey(rest[j]) {
      assert BadKey(parts[i + 1], e);
      assert forall j :: 0 < j < i + 1 ==> parts[j] == rest[j - 1];
    }
  }

  lemma GetLineIff(parts: seq<bytes>, n: nat, e: ProtocolError)
    ensures GetLine(parts, n) == Error(e) <==> GetRefused(parts, e)
  {
    hide BadKey, IsKey, GetKeys;
    GetKeysIff(parts, e);
    if GetKeys(parts).Err? {
      GetKeysIff(parts, GetKeys(parts).error);
      assert GetKeys(parts) != Ok([]);
    }
  }

  lemma SetHeaderIff(parts: seq<bytes>, lineEnd: nat, e: ProtocolError)
    ensures SetHeader(parts, lineEnd) == Err(e) <==> SetRefused(parts, e)
  {
    hide Field, NoNumber, IsKey, IsValidKey, KeyError, BadKey;
    FieldIff(parts, 1, U32_MAX);
    FieldIff(parts, 2, U64_MAX);
    FieldIff(parts, 3, USIZE_MAX);
    if parts != [] && parts[0] != [] {
      KeyIff(parts[0]);
      if !IsValidKey(parts[0]) {
        KeyErrorIff(parts[0], e);
      }
    }
  }

  lemma DeleteLineIff(parts: seq<bytes>, n: nat, e: ProtocolError)
    ensures DeleteLine(parts, n) == Error(e) <==> DeleteRefused(parts, e)
  {
    hide IsKey, IsValidKey, KeyError, Ascii;
    if parts != [] && parts[0] != [] {
      KeyIff(parts[0]);
      if !IsValidKey(parts[0]) {
        KeyErrorIff(parts[0], e);
      }
    }
  }

  lemma AnnouncesIff(words: seq<bytes>, lineEnd: nat, n: nat)
    requires |words| > 0
    ensures Announces(words, n) <==>
            && VerbOf(words[0]) == SetVerb
            && SetHeader(words[1..], lineEnd).Ok? && SetHeader(words[1..], lineEnd).value.bytes == n
  {
    hide VerbOf, CaseVariant, Field, NoNumber, IsValidKey, KeyError, Decimal.IsTextOf, Ascii, Decimal.Parse;
    var parts := words[1..];
    VerbIff(words[0]);
    FieldIff(parts, 1, U32_MAX);
    FieldIff(parts, 2, U64_MAX);
    if |parts| >= 4 {
      KeyIff(parts[0]);
      Decimal.ParseIff(parts[3], USIZE_MAX, n);
      FieldIs(parts, 3, USIZE_MAX);
    } else {
      FieldIff(parts, 3, USIZE_MAX);
      NumberMissing(parts, 3, USIZE_MAX);
    }
  }

  lemma FieldIs(parts: seq<bytes>, i: nat, max: nat)
    requires i < |parts|
    ensures Field(parts, i, max) == Decimal.Parse(parts[i], max)
  {
  }

  lemma NumberMissing(parts: seq<bytes>, i: nat, max: nat)
    requires i >= |parts|
    ensures NoNumber(parts, i, max)
  {
  }

  /** An error of a line is a refusal of its words or of its data block. */
  lemma LineIff(words: seq<bytes>, b: bytes, lineEnd: nat, e: ProtocolError)
    requires |words| > 0
    ensures Line(VerbOf(words[0]), words, b, lineEnd) == Error(e) <==>
            || LineRefused(words, e)
            || (&& e == UnexpectedData && VerbOf(words[0]) == SetVerb && SetHeader(words[1..], lineEnd).Ok?
                && StorageData(b, SetHeader(words[1..], lineEnd).value) == Error(e))
  {
    hide CaseVariant, GetLine, SetHeader, DeleteLine, StorageData, GetRefused, SetRefused, DeleteRefused, Ascii,
      Utf8.Lossy;
    var parts := words[1..];
    VerbIff(words[0]);
    GetLineIff(parts, lineEnd + 2, e);
    SetHeaderIff(parts, lineEnd, e);
    DeleteLineIff(parts, lineEnd + 2, e);
    DataErrorIs(b, lineEnd, parts);
    NotEmptyVerb(words[0]);
  }

  lemma NotEmptyVerb(word: bytes)
    ensures VerbOf(word) == EmptyVerb <==> word == []
    ensures CaseVariant([], Ascii("get")) == CaseVariant([], Ascii("set")) == false
  {
  }

  lemma DataErrorIs(b: bytes, lineEnd: nat, parts: seq<bytes>)
    ensures SetHeader(parts, lineEnd).Ok? && StorageData(b, SetHeader(parts, lineEnd).value).Error? ==>
              StorageData(b, SetHeader(parts, lineEnd).value).error == UnexpectedData
    ensures SetHeader(parts, lineEnd).Ok? ==> SetHeader(parts, lineEnd).value.commandLineEnd == lineEnd
  {
    hide Field, KeyError, IsValidKey;
  }

  // ---- Buffers --------------------------------------------------------------------------------

  lemma BlockRefusedIff(line: bytes, rest: bytes, p: PendingStorageCommand)
    requires CR !in line && p.commandLineEnd == |line| && |line| + 2 + |rest| <= ISIZE_MAX
    ensures StorageData(line + CRLF + rest, p) == Error(UnexpectedData) <==> BlockRefused(|line|, p.bytes, rest)
  {
    hide StorageData;
    var b := line + CRLF + rest;
    FindCrlfAt(line, rest);
    if Fits(p) {
      FittingHeader(b, p);
      var n := p.bytes;
      assert b[|line| + 2..] == rest;
      assert n + 2 <= |rest| ==> b[|line| + 2 + n..|line| + 4 + n] == b[|line| + 2..][n..n + 2];
    } else {
      WrappedHeader(b, p);
    }
  }

  /** A buffer with a line in front is refused with `e` exactly when the words of the line are, or when
      the line announces a block and what follows is no such block. */
  lemma RefusedIff(words: seq<bytes>, rest: bytes, e: ProtocolError)
    requires |words| > 0 && Free(words, SPACE) && Free(words, CR)
    requires |Join(words)| + 2 + |rest| <= ISIZE_MAX
    ensures Parse(Join(words) + CRLF + rest) == Error(e) <==>
            || LineRefused(words, e)
            || (e == UnexpectedData && exists n: nat :: Announces(words, n) && BlockRefused(|Join(words)|, n, rest))
  {
    hide Line, VerbOf, SetHeader, StorageData, LineRefused, Announces, BlockRefused, Join, Split, FindCrlf;
    var line := Join(words);
    var b := line + CRLF + rest;
    JoinFree(words, CR);
    SpellingLayout(words, rest, []);
    assert b + [] == b;
    LineIff(words, b, |line|, e);
    forall n: nat
      ensures Announces(words, n) <==>
              && VerbOf(words[0]) == SetVerb
              && SetHeader(words[1..], |line|).Ok? && SetHeader(words[1..], |line|).value.bytes == n
    {
      AnnouncesIff(words, |line|, n);
    }
    DataErrorIs(b, |line|, words[1..]);
    if SetHeader(words[1..], |line|).Ok? {
      BlockRefusedIff(line, rest, SetHeader(words[1..], |line|).value);
    }
  }

  // ---- Streams --------------------------------------------------------------------------------

  /** `raw` is one line, with its CRLF, that is refused with `e`: for its words, or for its block. */
  ghost predicate RefusedLine(raw: bytes, words: seq<bytes>, e: ProtocolError) {
    && |words| > 0 && Free(words, SPACE) && Free(words, CR)
    && raw == Join(words) + CRLF
    && (LineRefused(words, e) || (e == UnexpectedData && exists n: nat :: Announces(words, n)))
  }

  /** What an event took from the stream says what was done. */
  ghost predicate Spelled(e: Event) {
    match e
    case Executed(cmd, raw) => exists words :: Spells(raw, words, cmd)
    case Rejected(error, raw) => exists words :: RefusedLine(raw, words, error)
    case Panicked => true
  }

  lemma FirstIsSpelled(b: bytes)
    requires First(b).Some?
    ensures Spelled(First(b).value)
  {
    hide Line, VerbOf, SetHeader, StorageData, LineRefused, Announces, Join, Split, Spells;
    match Parse(b)
    case Complete(cmd, n) => ParsedIsSpelled(b);
    case Error(e) =>
      var lineEnd := FindCrlf(b).value;
      var words := Split(b[..lineEnd]);
      CutAtLine(b, lineEnd, lineEnd + 2);
      assert b[lineEnd + 2..lineEnd + 2] == [];
      LineIff(words, b, lineEnd, e);
      if !LineRefused(words, e) {
        AnnouncesIff(words, lineEnd, SetHeader(words[1..], lineEnd).value.bytes);
      }
      assert RefusedLine(b[..lineEnd + 2], words, e);
    case _ =>
  }

  lemma {:induction false} TraceIsSpelled(b: bytes)
    ensures forall i :: 0 <= i < |Trace(b)| ==> Spelled(Trace(b)[i])
    decreases |b|
  {
    hide First, Spelled;
    if First(b).Some? {
      FirstIsSpelled(b);
      var e := First(b).value;
      if !e.Terminal() {
        TraceIsSpelled(b[|e.Raw()|..]);
      }
    }
  }

  // ---- The answer to a refusal ------------------------------------------------------------------

  /** The line that answers each refusal: CLIENT_ERROR, the text and what it quotes. */
  lemma ErrorLine(e: ProtocolError)
    ensures var client := [67, 76, 73, 69, 78, 84, 95, 69, 82, 82, 79, 82, 32];
            Wire(ClientError(e.Text())) ==
            match e
            case InvalidCommand(m) => client + (Ascii("Invalid command: ") + m) + [13, 10]
            case InvalidKey(k) => client + (Ascii("Invalid key: ") + k) + [13, 10]
            case InvalidFlags => client + Ascii("Invalid flags") + [13, 10]
            case InvalidExptime => client + Ascii("Invalid exptime") + [13, 10]
            case InvalidBytesLength => client + Ascii("Invalid bytes length") + [13, 10]
            case KeyTooLong => client + Ascii("Key too long (max 250 bytes)") + [13, 10]
            case UnexpectedData => client + Ascii("Unexpected data") + [13, 10]
  {
    hide Ascii, Wire;
    LineBytes(ClientError(e.Text()));
  }

  /** The answer to a version request. */
  lemma VersionAnswer()
    ensures Wire(VersionIs(VERSION_TEXT)) == [86, 69, 82, 83, 73, 79, 78, 32] + Ascii("petracache 0.1.0") + [13, 10]
  {
    hide Ascii, Wire;
    LineBytes(VersionIs(VERSION_TEXT));
  }

  /** The answer to a get that meets an entry too short to decode. */
  lemma BadEntryAnswer(db: Db, key: bytes, now: u64)
    requires key in db && |db[key]| < 12
    ensures Lookup(db, key, now).Err?
    ensures Wire(ServerError(Lookup(db, key, now).error.Text())) ==
            [83, 69, 82, 86, 69, 82, 95, 69, 82, 82, 79, 82, 32]
            + (Ascii("Value decoding error: ") + Ascii("Value too short to decode")) + [13, 10]
  {
    hide Ascii, Wire;
    LineBytes(ServerError(Lookup(db, key, now).error.Text()));
  }

  // ---- Whole runs -----------------------------------------------------------------------------

  lemma {:induction false} EntryHasEvent(log: seq<Entry>, i: nat)
    requires i < |log|
    ensures log[i].event in EventsOf(log, log[i].id)
    decreases |log|
  {
    var n := |log| - 1;
    if i < n {
      EntryHasEvent(log[..n], i);
    }
  }

  /** In every run, whatever was executed had been spelled by exactly the bytes it took, and whatever
      was refused took exactly one line that is refused so. */
  lemma EntriesAreSpelled(w: World, steps: seq<Step>, clock: Clock, i: nat)
    requires Reachable(w, steps, clock) && i < |w.log|
    ensures w.log[i].id in w.sessions
    ensures Spelled(w.log[i].event)
  {
    hide Reachable, EventsOf, RepliesOf, Trace, RawOf, Spelled, SessionOk;
    var id := w.log[i].id;
    ReachableSessions(w, steps, clock);
    ServerRun.ChunkingIndependence(w, steps, clock, id);
    EntryHasEvent(w.log, i);
    var events, received := EventsOf(w.log, id), w.sessions[id].received;
    var k :| 0 <= k < |events| && events[k] == w.log[i].event;
    TraceIsSpelled(received);
    assert Trace(received)[k] == events[k];
  }

  /** Who gets no answer: exactly a panic, a quit, and a set or delete that asked for none. */
  lemma SilentIff(w: World, steps: seq<Step>, clock: Clock, i: nat)
    requires Reachable(w, steps, clock) && Monotone(clock) && i < |w.log|
    ensures w.log[i].sent == None <==>
            match w.log[i].event
            case Executed(Quit, _) => true
            case Executed(Set(_, _, _, _, noreply), _) => noreply
            case Executed(Delete(_, noreply), _) => noreply
            case Panicked => true
            case _ => false
  {
    hide Reachable, Monotone, ItemsFor, LiveAll, ProtocolError.Text;
    RepliesFollowReference(w, steps, clock, i);
  }
}
