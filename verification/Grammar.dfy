/** The language of the protocol, stated without the parser, and the proof that the parser accepts
    exactly that language. */
module Grammar {
  import opened Bytes
  import opened Command
  import opened Parser
  import opened ParserLaws
  import Decimal

  // ---- The grammar ----------------------------------------------------------------------------

  /** `word` is the lower-case `lower` with any of its letters capitalised. */
  predicate CaseVariant(word: bytes, lower: bytes) {
    && |word| == |lower|
    && forall i :: 0 <= i < |word| ==> word[i] == lower[i] || (lower[i] >= 97 && word[i] == lower[i] - 32)
  }

  /** A key: 1 to 250 visible ASCII characters. */
  predicate IsKey(word: bytes) {
    1 <= |word| <= 250 && forall i :: 0 <= i < |word| ==> 33 <= word[i] <= 126
  }

  /** A get names at least one key, and all keys of a command are keys. */
  predicate NamesKeys(cmd: Command) {
    match cmd
    case Get(keys) => |keys| >= 1 && forall i :: 0 <= i < |keys| ==> IsKey(keys[i])
    case Set(key, _, _, _, _) => IsKey(key)
    case Delete(key, _) => IsKey(key)
    case _ => true
  }

  /** The words between the gaps of a line, where repeated spaces make empty pieces. */
  function NonEmpty(parts: seq<bytes>): seq<bytes> {
    if parts == [] then [] else
      (if parts[0] == [] then [] else [parts[0]]) + NonEmpty(parts[1..])
  }

  /** The words of a line (verb first, empty ones where spaces repeat) that say `cmd`. */
  ghost predicate Written(words: seq<bytes>, cmd: Command)
    requires |words| > 0
  {
    var verb, parts := words[0], words[1..];
    match cmd
    case Get(keys) => CaseVariant(verb, Ascii("get")) && NonEmpty(parts) == keys
    case Set(key, flags, exptime, data, noreply) =>
      && CaseVariant(verb, Ascii("set"))
      && |parts| >= 4
      && parts[0] == key
      && Decimal.IsTextOf(parts[1], flags)
      && Decimal.IsTextOf(parts[2], exptime)
      && Decimal.IsTextOf(parts[3], |data|)
      && noreply == (|parts| > 4 && parts[4] == Ascii("noreply"))
    case Delete(key, noreply) =>
      && CaseVariant(verb, Ascii("delete"))
      && |parts| >= 1
      && parts[0] == key
      && noreply == (Ascii("noreply") in parts[1..])
    case Version => CaseVariant(verb, Ascii("version"))
    case Quit => CaseVariant(verb, Ascii("quit"))
  }

  /** The bytes that follow the line: nothing, or the data block. */
  function Block(cmd: Command): bytes {
    if cmd.Set? then cmd.data + CRLF else []
  }

  /** A full spelling of `cmd` on the wire. */
  ghost predicate Spells(text: bytes, words: seq<bytes>, cmd: Command) {
    && |words| > 0 && Free(words, SPACE) && Free(words, CR)
    && NamesKeys(cmd)
    && Written(words, cmd)
    && text == Join(words) + CRLF + Block(cmd)
    && (cmd.Set? ==> |text| <= USIZE_MAX)
  }

  // ---- What the parser reads ------------------------------------------------------------------

  /** The server's key check is the key rule. */
  lemma KeyIff(word: bytes)
    ensures IsKey(word) <==> IsValidKey(word)
  {
  }

  lemma NamesKeysIff(cmd: Command)
    ensures NamesKeys(cmd) <==> HasValidKeys(cmd)
  {
    hide IsKey, IsValidKey;
    forall word: bytes ensures IsKey(word) <==> IsValidKey(word) {
      KeyIff(word);
    }
  }

  /** The same line in the parser's terms. */
  predicate ReadsAs(verb: Verb, parts: seq<bytes>, cmd: Command) {
    match cmd
    case Get(keys) => verb == GetVerb && NonEmpty(parts) == keys
    case Set(key, flags, exptime, data, noreply) =>
      && verb == SetVerb
      && |parts| >= 4
      && parts[0] == key
      && Decimal.Parse(parts[1], U32_MAX) == Some(flags)
      && Decimal.Parse(parts[2], U64_MAX) == Some(exptime)
      && Decimal.Parse(parts[3], USIZE_MAX) == Some(|data|)
      && noreply == (|parts| > 4 && parts[4] == NOREPLY)
    case Delete(key, noreply) =>
      && verb == DeleteVerb
      && |parts| >= 1
      && parts[0] == key
      && noreply == (NOREPLY in parts[1..])
    case Version => verb == VersionVerb
    case Quit => verb == QuitVerb
  }

  lemma VariantIffEq(word: bytes, lower: bytes)
    requires forall i :: 0 <= i < |lower| ==> 97 <= lower[i] <= 122
    ensures CaseVariant(word, lower) <==> CmdEq(word, lower)
  {
  }

  /** The verbs are five different words, so the order in which the parser tries them is no matter. */
  lemma VerbIff(word: bytes)
    ensures VerbOf(word) == GetVerb <==> CaseVariant(word, Ascii("get"))
    ensures VerbOf(word) == SetVerb <==> CaseVariant(word, Ascii("set"))
    ensures VerbOf(word) == DeleteVerb <==> CaseVariant(word, Ascii("delete"))
    ensures VerbOf(word) == VersionVerb <==> CaseVariant(word, Ascii("version"))
    ensures VerbOf(word) == QuitVerb <==> CaseVariant(word, Ascii("quit"))
  {
    hide CaseVariant;
    VariantIffEq(word, Ascii("get"));
    VariantIffEq(word, Ascii("set"));
    VariantIffEq(word, Ascii("delete"));
    VariantIffEq(word, Ascii("version"));
    VariantIffEq(word, Ascii("quit"));
    assert Ascii("get")[0] != Ascii("set")[0];
  }

  /** Grammar and parser agree on what a line says. */
  lemma WrittenIffRead(words: seq<bytes>, cmd: Command)
    requires |words| > 0 && (cmd.Set? ==> |cmd.data| <= USIZE_MAX)
    ensures Written(words, cmd) <==> ReadsAs(VerbOf(words[0]), words[1..], cmd)
  {
    hide CaseVariant, VerbOf, Decimal.Parse, Decimal.IsTextOf, NonEmpty, Ascii;
    VerbIff(words[0]);
    if cmd.Set? && |words| > 4 {
      Decimal.ParseIff(words[2], U32_MAX, cmd.flags);
      Decimal.ParseIff(words[3], U64_MAX, cmd.exptime);
      Decimal.ParseIff(words[4], USIZE_MAX, |cmd.data|);
    }
  }

  lemma {:induction false} GetKeysOfValid(parts: seq<bytes>)
    requires forall i :: 0 <= i < |NonEmpty(parts)| ==> IsValidKey(NonEmpty(parts)[i])
    ensures GetKeys(parts) == Ok(NonEmpty(parts))
  {
    if parts != [] {
      var rest := NonEmpty(parts[1..]);
      if parts[0] == [] {
        assert NonEmpty(parts) == rest;
      } else {
        assert NonEmpty(parts)[1..] == rest && NonEmpty(parts)[0] == parts[0];
      }
      GetKeysOfValid(parts[1..]);
    }
  }

  lemma {:induction false} GetKeysAreNonEmpty(parts: seq<bytes>)
    requires GetKeys(parts).Ok?
    ensures GetKeys(parts).value == NonEmpty(parts)
  {
    hide IsValidKey, KeyError;
    if parts != [] {
      GetKeysAreNonEmpty(parts[1..]);
    }
  }

  lemma SpelledSetLine(parts: seq<bytes>, cmd: Command, b: bytes, lineEnd: nat)
    requires cmd.Set? && ReadsAs(SetVerb, parts, cmd) && IsValidKey(cmd.key)
    requires lineEnd + 4 + |cmd.data| <= |b| && lineEnd + 4 + |cmd.data| <= USIZE_MAX
    requires b[lineEnd + 2..lineEnd + 2 + |cmd.data|] == cmd.data
    requires b[lineEnd + 2 + |cmd.data|] == CR && b[lineEnd + 3 + |cmd.data|] == LF
    ensures SetLine(parts, b, lineEnd) == Complete(cmd, lineEnd + 4 + |cmd.data|)
  {
    hide Decimal.Parse;
  }

  lemma BlockParts(b: bytes, start: nat, data: bytes)
    requires start + |data| + 2 <= |b| && b[start..start + |data| + 2] == data + CRLF
    ensures b[start..start + |data|] == data
    ensures b[start + |data|] == CR && b[start + |data| + 1] == LF
  {
    var block := b[start..start + |data| + 2];
    assert block[..|data|] == data && block[|data|] == CR && block[|data| + 1] == LF;
  }

  lemma SpelledLine(verb: Verb, words: seq<bytes>, cmd: Command, b: bytes, lineEnd: nat)
    requires |words| > 0 && ReadsAs(verb, words[1..], cmd) && HasValidKeys(cmd)
    requires lineEnd + 2 + |Block(cmd)| <= |b|
    requires cmd.Set? ==> lineEnd + 2 + |Block(cmd)| <= USIZE_MAX
    requires b[lineEnd + 2..lineEnd + 2 + |Block(cmd)|] == Block(cmd)
    ensures Line(verb, words, b, lineEnd) == Complete(cmd, lineEnd + 2 + |Block(cmd)|)
  {
    hide SetLine, Decimal.Parse, GetKeys, NonEmpty, KeyError;
    if cmd.Get? {
      GetKeysOfValid(words[1..]);
    } else if cmd.Set? {
      BlockParts(b, lineEnd + 2, cmd.data);
      SpelledSetLine(words[1..], cmd, b, lineEnd);
    }
  }

  /** Where the line, the words and the data block of a spelling lie in the buffer. */
  lemma SpellingLayout(words: seq<bytes>, block: bytes, rest: bytes)
    requires |words| > 0 && Free(words, SPACE) && Free(words, CR)
    ensures var b := Join(words) + CRLF + block + rest;
            var lineEnd := |Join(words)|;
            && FindCrlf(b) == Some(lineEnd)
            && Split(b[..lineEnd]) == words
            && b[lineEnd + 2..lineEnd + 2 + |block|] == block
  {
    var line := Join(words);
    var b := line + CRLF + block + rest;
    JoinFree(words, CR);
    FindCrlfAt(line, block + rest);
    assert b == line + CRLF + (block + rest);
    assert b[..|line|] == line;
    SplitJoin(words);
  }

  /** Every spelling of a command is parsed to that command and to its own length, whatever
      follows: any letter case, any runs of spaces between keys, any data bytes. */
  lemma SpelledIsParsed(text: bytes, words: seq<bytes>, cmd: Command, rest: bytes)
    requires Spells(text, words, cmd)
    ensures Parse(text + rest) == Complete(cmd, |text|)
  {
    hide Line, VerbOf, ReadsAs, Written, HasValidKeys, NamesKeys, Split, Join;
    NamesKeysIff(cmd);
    WrittenIffRead(words, cmd);
    SpellingLayout(words, Block(cmd), rest);
    SpelledLine(VerbOf(words[0]), words, cmd, text + rest, |Join(words)|);
  }

  lemma HeaderIsSpelled(parts: seq<bytes>, lineEnd: nat, data: bytes)
    requires SetHeader(parts, lineEnd).Ok? && |data| == SetHeader(parts, lineEnd).value.bytes
    ensures var p := SetHeader(parts, lineEnd).value;
            ReadsAs(SetVerb, parts, Set(p.key, p.flags, p.exptime, data, p.noreply))
  {
  }

  lemma StorageDataIsBlock(b: bytes, p: PendingStorageCommand)
    requires StorageData(b, p).Complete?
    ensures p.commandLineEnd + 4 <= StorageData(b, p).consumed <= |b|
    ensures b[p.commandLineEnd + 2..StorageData(b, p).consumed] == Block(StorageData(b, p).cmd)
  {
    var start, n := p.commandLineEnd + 2, StorageData(b, p).consumed;
    assert b[n - 2..n] == [b[n - 2], b[n - 1]];
    assert b[start..n] == b[start..n - 2] + b[n - 2..n];
  }

  lemma SetLineIsSpelled(parts: seq<bytes>, b: bytes, lineEnd: nat)
    requires SetLine(parts, b, lineEnd).Complete?
    ensures var r := SetLine(parts, b, lineEnd);
            && ReadsAs(SetVerb, parts, r.cmd)
            && lineEnd + 4 <= r.consumed <= |b|
            && b[lineEnd + 2..r.consumed] == Block(r.cmd)
            && (r.cmd.Set? ==> r.consumed <= USIZE_MAX)
  {
    StorageDataIsBlock(b, SetHeader(parts, lineEnd).value);
    HeaderIsSpelled(parts, lineEnd, SetLine(parts, b, lineEnd).cmd.data);
  }

  lemma LineIsSpelled(verb: Verb, words: seq<bytes>, b: bytes, lineEnd: nat)
    requires |words| > 0 && lineEnd + 2 <= |b| && Line(verb, words, b, lineEnd).Complete?
    ensures var r := Line(verb, words, b, lineEnd);
            && ReadsAs(verb, words[1..], r.cmd)
            && lineEnd + 2 <= r.consumed <= |b|
            && b[lineEnd + 2..r.consumed] == Block(r.cmd)
            && (r.cmd.Set? ==> r.consumed <= USIZE_MAX)
  {
    if verb == SetVerb {
      SetLineIsSpelled(words[1..], b, lineEnd);
    } else if verb == GetVerb {
      GetKeysAreNonEmpty(words[1..]);
    }
  }

  lemma CutAtLine(b: bytes, lineEnd: nat, n: nat)
    requires FindCrlf(b) == Some(lineEnd) && lineEnd + 2 <= n <= |b|
    ensures b[..n] == Join(Split(b[..lineEnd])) + CRLF + b[lineEnd + 2..n]
    ensures Free(Split(b[..lineEnd]), SPACE) && Free(Split(b[..lineEnd]), CR)
  {
    JoinSplit(b[..lineEnd]);
    assert b[..n] == b[..lineEnd] + b[lineEnd..lineEnd + 2] + b[lineEnd + 2..n];
  }

  /** Conversely, whatever is parsed was spelled by exactly the consumed bytes. */
  lemma ParsedIsSpelled(b: bytes)
    requires Parse(b).Complete?
    ensures Parse(b).consumed <= |b|
    ensures exists words :: Spells(b[..Parse(b).consumed], words, Parse(b).cmd)
  {
    hide Line, VerbOf, ReadsAs, Written, HasValidKeys, NamesKeys, Split, Join;
    ConsumedEndsAtCrlf(b);
    NamesKeysIff(Parse(b).cmd);
    var lineEnd, n := FindCrlf(b).value, Parse(b).consumed;
    var words := Split(b[..lineEnd]);
    LineIsSpelled(VerbOf(words[0]), words, b, lineEnd);
    CutAtLine(b, lineEnd, n);
    WrittenIffRead(words, Parse(b).cmd);
    assert Spells(b[..n], words, Parse(b).cmd);
  }

  /** The accepted language: a buffer yields `cmd` after `n` bytes exactly when those bytes spell it. */
  lemma ParseIffSpelled(b: bytes, cmd: Command, n: nat)
    ensures Parse(b) == Complete(cmd, n) <==>
            n <= |b| && exists words :: Spells(b[..n], words, cmd)
  {
    hide Parse, Spells;
    if Parse(b) == Complete(cmd, n) {
      ParsedIsSpelled(b);
    }
    if n <= |b| && exists words :: Spells(b[..n], words, cmd) {
      var words :| Spells(b[..n], words, cmd);
      SpelledIsParsed(b[..n], words, cmd, b[n..]);
      assert b == b[..n] + b[n..];
    }
  }

  /** Wire spellings are unambiguous and prefix-free. */
  lemma SpellingsPrefixFree(text1: bytes, words1: seq<bytes>, cmd1: Command,
                            text2: bytes, words2: seq<bytes>, cmd2: Command)
    requires Spells(text1, words1, cmd1) && Spells(text2, words2, cmd2) && text1 <= text2
    ensures text1 == text2 && cmd1 == cmd2
  {
    hide Parse, Spells;
    SpelledIsParsed(text1, words1, cmd1, text2[|text1|..]);
    SpelledIsParsed(text2, words2, cmd2, []);
    assert text2 == text1 + text2[|text1|..] == text2 + [];
  }

  /** The words a client library sends for `cmd`: a verb and its arguments. */
  function VerbFor(cmd: Command): Verb {
    match cmd
    case Get(_) => GetVerb
    case Set(_, _, _, _, _) => SetVerb
    case Delete(_, _) => DeleteVerb
    case Version => VersionVerb
    case Quit => QuitVerb
  }

  function VerbWord(cmd: Command): bytes {
    match cmd
    case Get(_) => Ascii("get")
    case Set(_, _, _, _, _) => Ascii("set")
    case Delete(_, _) => Ascii("delete")
    case Version => Ascii("version")
    case Quit => Ascii("quit")
  }

  function Arguments(cmd: Command): seq<bytes> {
    match cmd
    case Get(keys) => keys
    case Set(key, flags, exptime, data, noreply) =>
      [key, Decimal.Format(flags), Decimal.Format(exptime), Decimal.Format(|data|)]
      + NoreplyWord(noreply)
    case Delete(key, noreply) => [key] + NoreplyWord(noreply)
    case _ => []
  }

  function NoreplyWord(noreply: bool): (words: seq<bytes>)
    ensures Free(words, SPACE) && Free(words, CR)
  {
    if noreply then [NOREPLY] else []
  }

  function Render(cmd: Command): bytes {
    Join([VerbWord(cmd)] + Arguments(cmd)) + CRLF + Block(cmd)
  }

  lemma VerbWordIsFree(cmd: Command)
    ensures SPACE !in VerbWord(cmd) && CR !in VerbWord(cmd)
  {
  }

  lemma VerbWordIsRead(cmd: Command)
    ensures VerbOf(VerbWord(cmd)) == VerbFor(cmd)
  {
    assert Ascii("get")[0] != Ascii("set")[0];
  }

  lemma {:induction false} NonEmptyOfKeys(keys: seq<bytes>)
    requires forall i :: 0 <= i < |keys| ==> IsValidKey(keys[i])
    ensures NonEmpty(keys) == keys
  {
    if keys != [] {
      NonEmptyOfKeys(keys[1..]);
    }
  }

  /** A set line in any spelling of its three numbers. */
  lemma SetArguments(cmd: Command, f: bytes, e: bytes, n: bytes)
    requires cmd.Set?
    requires Decimal.Parse(f, U32_MAX) == Some(cmd.flags)
    requires Decimal.Parse(e, U64_MAX) == Some(cmd.exptime)
    requires Decimal.Parse(n, USIZE_MAX) == Some(|cmd.data|)
    ensures ReadsAs(SetVerb, [cmd.key, f, e, n] + NoreplyWord(cmd.noreply), cmd)
  {
  }

  lemma FreeOfFour(a: bytes, b: bytes, c: bytes, d: bytes, tail: seq<bytes>, x: byte)
    requires x !in a && x !in b && x !in c && x !in d && Free(tail, x)
    ensures Free([a, b, c, d] + tail, x)
  {
  }

  lemma ArgumentsSpell(cmd: Command)
    requires HasValidKeys(cmd) && (cmd.Set? ==> |cmd.data| <= USIZE_MAX)
    ensures ReadsAs(VerbFor(cmd), Arguments(cmd), cmd)
    ensures Free(Arguments(cmd), SPACE) && Free(Arguments(cmd), CR)
  {
    if cmd.Get? {
      NonEmptyOfKeys(cmd.keys);
    } else if cmd.Set? {
      var f, e, n := Decimal.Format(cmd.flags), Decimal.Format(cmd.exptime), Decimal.Format(|cmd.data|);
      Decimal.ParseFormat(cmd.flags, U32_MAX);
      Decimal.ParseFormat(cmd.exptime, U64_MAX);
      Decimal.ParseFormat(|cmd.data|, USIZE_MAX);
      SetArguments(cmd, f, e, n);
      FreeOfFour(cmd.key, f, e, n, NoreplyWord(cmd.noreply), SPACE);
      FreeOfFour(cmd.key, f, e, n, NoreplyWord(cmd.noreply), CR);
    }
  }

  /** Round trip: the canonical text of a command, followed by anything, parses to it. */
  lemma RoundTrip(cmd: Command, rest: bytes)
    requires HasValidKeys(cmd) && (cmd.Set? ==> |Render(cmd)| <= USIZE_MAX)
    ensures Parse(Render(cmd) + rest) == Complete(cmd, |Render(cmd)|)
  {
    hide Parse, VerbOf, VerbWord, Arguments, ReadsAs, Written, HasValidKeys, NamesKeys, Join;
    NamesKeysIff(cmd);
    var words := [VerbWord(cmd)] + Arguments(cmd);
    VerbWordIsFree(cmd);
    VerbWordIsRead(cmd);
    ArgumentsSpell(cmd);
    assert words[1..] == Arguments(cmd);
    WrittenIffRead(words, cmd);
    SpelledIsParsed(Render(cmd), words, cmd, rest);
  }

  // ---- Headers whose announced end wraps ------------------------------------------------------

  function SetLineFor(key: bytes, n: usize): (words: seq<bytes>)
    ensures |words| == 5
  {
    [Ascii("set"), key, Decimal.Format(0), Decimal.Format(0), Decimal.Format(n)]
  }

  lemma HugeHeader(key: bytes, n: usize)
    requires IsValidKey(key)
    ensures var words := SetLineFor(key, n);
            StartsSet(Join(words) + CRLF, PendingStorageCommand(key, 0, 0, n, false, |Join(words)|))
  {
    hide Decimal.Format, Decimal.Parse, VerbOf, Join, Split;
    var words := SetLineFor(key, n);
    Decimal.ParseFormat(0, U32_MAX);
    Decimal.ParseFormat(0, U64_MAX);
    Decimal.ParseFormat(n, USIZE_MAX);
    var cmd := Set([], 0, 0, [], false);
    VerbWordIsFree(cmd);
    VerbWordIsRead(cmd);
    SpellingLayout(words, [], []);
    assert Join(words) + CRLF == Join(words) + CRLF + [] + [];
  }

  lemma HugeOutcome(key: bytes, n: usize, x: bytes)
    requires IsValidKey(key) && n >= USIZE_MAX - 1
    requires |Join(SetLineFor(key, n))| + 2 + |x| <= ISIZE_MAX
    ensures var b := Join(SetLineFor(key, n)) + CRLF + x;
            Parse(b) == if n == USIZE_MAX - 1 then Panic else if x == [] then NeedMoreData else Error(UnexpectedData)
  {
    hide Decimal.Format, Join, Parse, StartsSet;
    var words := SetLineFor(key, n);
    var line := Join(words) + CRLF;
    var p := PendingStorageCommand(key, 0, 0, n, false, |Join(words)|);
    HugeHeader(key, n);
    ResumeRefinesDirect(line, x, p);
    HeaderDecides(line + x, p);
  }

  lemma {:induction false} FormatIsShort(n: nat)
    ensures |Decimal.Format(n)| <= n / 10 + 1
  {
    if n >= 10 {
      FormatIsShort(n / 10);
    }
  }

  lemma SetLineIsShort(key: bytes, n: usize)
    requires IsValidKey(key)
    ensures |Join(SetLineFor(key, n))| <= |key| + n / 10 + 11
  {
    hide IsValidKey, Decimal.Format;
    FormatIsShort(0);
    FormatIsShort(n);
    var words := SetLineFor(key, n);
    assert |Join(words[4..])| == |words[4]|;
    assert |Join(words[3..])| == |words[3]| + 1 + |Join(words[3..][1..])|;
    assert |Join(words[2..])| == |words[2]| + 1 + |Join(words[2..][1..])|;
    assert |Join(words[1..])| == |words[1]| + 1 + |Join(words[1..][1..])|;
    assert words[1..][1..] == words[2..] && words[2..][1..] == words[3..] && words[3..][1..] == words[4..];
  }

  /** `set k 0 0 18446744073709551614` panics as soon as its line is there, whatever the key. With one
      more, the line waits for one byte and is then refused for its data. */
  lemma PanicOccurs(key: bytes, x: byte)
    requires IsValidKey(key)
    ensures Parse(Join(SetLineFor(key, USIZE_MAX - 1)) + CRLF) == Panic
    ensures Parse(Join(SetLineFor(key, USIZE_MAX)) + CRLF) == NeedMoreData
    ensures Parse(Join(SetLineFor(key, USIZE_MAX)) + CRLF + [x]) == Error(UnexpectedData)
  {
    hide SetLineFor, Join, Parse;
    SetLineIsShort(key, USIZE_MAX - 1);
    SetLineIsShort(key, USIZE_MAX);
    HugeOutcome(key, USIZE_MAX - 1, []);
    HugeOutcome(key, USIZE_MAX, []);
    HugeOutcome(key, USIZE_MAX, [x]);
    assert Join(SetLineFor(key, USIZE_MAX - 1)) + CRLF + [] == Join(SetLineFor(key, USIZE_MAX - 1)) + CRLF;
    assert Join(SetLineFor(key, USIZE_MAX)) + CRLF + [] == Join(SetLineFor(key, USIZE_MAX)) + CRLF;
  }
}
