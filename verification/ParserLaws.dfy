/** Laws of the parser: stability under more input, the resume path, progress and clean errors. */
module ParserLaws {
  import opened Bytes
  import opened Command
  import opened Parser
  import Utf8

  // ---- More input -----------------------------------------------------------------------------

  lemma StorageDataExtend(b: bytes, x: bytes, p: PendingStorageCommand)
    requires !StorageData(b, p).NeedMoreData?
    ensures StorageData(b + x, p) == StorageData(b, p)
  {
    var dataStart := p.commandLineEnd + 2;
    var dataEnd := WrappingAdd(dataStart, p.bytes);
    if StorageData(b, p).Complete? {
      assert (b + x)[dataStart..dataEnd] == b[dataStart..dataEnd];
    }
  }

  /** The first line, and with it the header, is fixed once its CRLF is in the buffer. */
  lemma LineExtend(b: bytes, x: bytes)
    requires FindCrlf(b).Some?
    ensures FindCrlf(b + x) == FindCrlf(b)
    ensures (b + x)[..FindCrlf(b).value] == b[..FindCrlf(b).value]
    ensures StorageCommandLine(b + x) == StorageCommandLine(b)
  {
    hide VerbOf, SetHeader;
    FindCrlfExtend(b, x);
    assert (b + x)[..FindCrlf(b).value] == b[..FindCrlf(b).value];
  }

  /** A decided buffer stays decided: no later byte changes the answer. */
  lemma PrefixStability(b: bytes, x: bytes)
    requires !Parse(b).NeedMoreData?
    ensures Parse(b + x) == Parse(b)
  {
    hide VerbOf, StorageData, SetHeader, GetLine, DeleteLine;
    LineExtend(b, x);
    var lineEnd := FindCrlf(b).value;
    var words := Split(b[..lineEnd]);
    if VerbOf(words[0]) == SetVerb {
      var h := SetHeader(words[1..], lineEnd);
      if h.Ok? {
        StorageDataExtend(b, x, h.value);
      }
    }
  }

  // ---- What a set header leads to -------------------------------------------------------------

  /** A panic, an answer about the data block and a wait for it come from a good set header. */
  lemma BlockNeedsHeader(b: bytes)
    ensures FindCrlf(b).None? ==> Parse(b).NeedMoreData?
    ensures Parse(b).Panic? || Parse(b) == Error(UnexpectedData) || (Parse(b).NeedMoreData? && FindCrlf(b).Some?)
            ==> exists p :: StartsSet(b, p)
  {
    hide VerbOf, Field, KeyError, StorageData;
    if FindCrlf(b).Some? {
      var lineEnd := FindCrlf(b).value;
      var words := Split(b[..lineEnd]);
      GetKeysErrorIsFirst(words[1..]);
      if VerbOf(words[0]) == SetVerb && SetHeader(words[1..], lineEnd).Ok? {
        assert StartsSet(b, SetHeader(words[1..], lineEnd).value);
      }
    }
  }

  /** The data block and its CRLF end at a `usize`. */
  predicate Fits(p: PendingStorageCommand) {
    p.commandLineEnd + 4 + p.bytes <= USIZE_MAX
  }

  /** The answer when the announced end is a number. */
  predicate FittingOutcome(b: bytes, p: PendingStorageCommand, r: ParseResult) {
    var end := p.commandLineEnd + 2 + p.bytes;
    if |b| < end + 2 then r.NeedMoreData?
    else if b[end..end + 2] != CRLF then r == Error(UnexpectedData)
    else r.Complete?
  }

  /** The answer when the additions wrap: the block seems to end inside the line. */
  function WrappedOutcome(b: bytes, p: PendingStorageCommand): ParseResult {
    if p.bytes == USIZE_MAX - 1 || p.commandLineEnd + 4 + p.bytes <= USIZE_MAX + 2 then Panic
    else if p.bytes == USIZE_MAX && |b| == p.commandLineEnd + 2 then NeedMoreData
    else Error(UnexpectedData)
  }

  lemma FittingHeader(b: bytes, p: PendingStorageCommand)
    requires Fits(p)
    ensures FittingOutcome(b, p, StorageData(b, p))
  {
    var end := p.commandLineEnd + 2 + p.bytes;
    assert end + 2 <= |b| ==> b[end..end + 2] == [b[end], b[end + 1]];
  }

  lemma WrappedHeader(b: bytes, p: PendingStorageCommand)
    requires FindCrlf(b) == Some(p.commandLineEnd) && !Fits(p) && |b| <= ISIZE_MAX
    ensures StorageData(b, p) == WrappedOutcome(b, p)
  {
    var lineEnd := p.commandLineEnd;
    assert b[lineEnd] == b[lineEnd..lineEnd + 2][0] && b[lineEnd + 1] == b[lineEnd..lineEnd + 2][1];
    assert forall i :: 0 <= i < lineEnd ==> b[i] == b[..lineEnd][i];
  }

  /** A buffer that starts with a header is answered by what the header leads to. */
  lemma HeaderDecides(b: bytes, p: PendingStorageCommand)
    requires StartsSet(b, p) && |b| <= ISIZE_MAX
    ensures p.commandLineEnd + 2 <= |b|
    ensures if Fits(p) then FittingOutcome(b, p, Parse(b)) else Parse(b) == WrappedOutcome(b, p)
  {
    hide Parse, StorageData, StartsSet;
    StartsSetParse(b, p);
    if Fits(p) {
      FittingHeader(b, p);
    } else {
      WrappedHeader(b, p);
    }
  }

  /** The only reasons to wait: no line yet, or a good set header short of its data block, which for
      the greatest length wraps to end one byte after the line. */
  lemma NeedMoreDataIff(b: bytes)
    requires |b| <= ISIZE_MAX
    ensures Parse(b).NeedMoreData? <==>
            || FindCrlf(b).None?
            || exists p :: && StartsSet(b, p)
                           && (if Fits(p) then |b| < p.commandLineEnd + 4 + p.bytes
                               else p.bytes == USIZE_MAX && |b| == p.commandLineEnd + 2)
  {
    hide Parse, StorageCommandLine;
    BlockNeedsHeader(b);
    if p :| StartsSet(b, p) {
      HeaderDecides(b, p);
      assert forall q :: StartsSet(b, q) ==> q == p;
    }
  }

  /** The process panics on exactly three lengths: one that wraps to the line's own CRLF, so that the
      block would end before it starts, and two for which only the last addition wraps. */
  lemma PanicIff(b: bytes)
    requires |b| <= ISIZE_MAX
    ensures Parse(b).Panic? <==>
            exists p :: && StartsSet(b, p)
                        && (|| p.bytes == USIZE_MAX - 1
                            || p.commandLineEnd + 4 + p.bytes == USIZE_MAX + 1
                            || p.commandLineEnd + 4 + p.bytes == USIZE_MAX + 2)
  {
    hide Parse, StorageCommandLine;
    BlockNeedsHeader(b);
    if p :| StartsSet(b, p) {
      HeaderDecides(b, p);
      assert forall q :: StartsSet(b, q) ==> q == p;
    }
  }

  /** The one error a data block can cause: it is all there and no CRLF closes it, or its announced
      end wraps without a panic. */
  lemma UnexpectedDataIff(b: bytes)
    requires |b| <= ISIZE_MAX
    ensures Parse(b) == Error(UnexpectedData) <==>
            exists p :: && StartsSet(b, p)
                        && (if Fits(p) then
                              && p.commandLineEnd + 4 + p.bytes <= |b|
                              && b[p.commandLineEnd + 2 + p.bytes..p.commandLineEnd + 4 + p.bytes] != CRLF
                            else
                              && p.bytes != USIZE_MAX - 1 && p.commandLineEnd + 4 + p.bytes > USIZE_MAX + 2
                              && (p.bytes == USIZE_MAX ==> |b| > p.commandLineEnd + 2))
  {
    hide Parse, StorageCommandLine;
    BlockNeedsHeader(b);
    if p :| StartsSet(b, p) {
      HeaderDecides(b, p);
      assert forall q :: StartsSet(b, q) ==> q == p;
    }
  }

  /** A get line fails on its first bad key, and only then. */
  lemma {:induction false} GetKeysErrorIsFirst(parts: seq<bytes>)
    ensures GetKeys(parts).Err? <==> exists i :: 0 <= i < |parts| && parts[i] != [] && !IsValidKey(parts[i])
    ensures GetKeys(parts).Err? ==>
              exists i :: && 0 <= i < |parts| && parts[i] != [] && !IsValidKey(parts[i])
                          && GetKeys(parts).error == KeyError(parts[i])
                          && forall j :: 0 <= j < i ==> parts[j] == [] || IsValidKey(parts[j])
    ensures GetKeys(parts).Err? ==> GetKeys(parts).error.KeyTooLong? || GetKeys(parts).error.InvalidKey?
  {
    hide IsValidKey;
    if parts != [] {
      GetKeysErrorIsFirst(parts[1..]);
      if GetKeys(parts[1..]).Err? && (parts[0] == [] || IsValidKey(parts[0])) {
        var rest := parts[1..];
        var i :| && 0 <= i < |rest| && rest[i] != [] && !IsValidKey(rest[i])
                 && GetKeys(rest).error == KeyError(rest[i])
                 && forall j :: 0 <= j < i ==> rest[j] == [] || IsValidKey(rest[j]);
        assert parts[i + 1] == rest[i];
        assert forall j :: 0 < j < i + 1 ==> parts[j] == rest[j - 1];
      }
    }
  }

  // ---- A lone CR ------------------------------------------------------------------------------

  /** The first CR is followed by something other than LF. */
  predicate Wedged(b: bytes) {
    var i := IndexOf(b, CR);
    i + 1 < |b| && b[i + 1] != LF
  }

  /** Such a buffer never parses again, whatever arrives... */
  lemma WedgedNeverParses(b: bytes, x: bytes)
    requires Wedged(b)
    ensures Wedged(b + x) && Parse(b + x) == NeedMoreData
  {
    IndexOfExtend(b, CR, x);
  }

  /** ...and it is the only kind of buffer no input can complete a line of. */
  lemma WedgedIff(b: bytes)
    ensures Wedged(b) <==> forall x :: FindCrlf(b + x).None?
  {
    var i := IndexOf(b, CR);
    if Wedged(b) {
      forall x ensures FindCrlf(b + x).None? {
        IndexOfExtend(b, CR, x);
      }
    } else if i < |b| {
      var x := if i + 1 < |b| then [] else [LF];
      IndexOfExtend(b, CR, x);
      assert FindCrlf(b + x).Some?;
    } else {
      assert b[..i] == b;
      FindCrlfAt(b, []);
      assert b + CRLF == b + CRLF + [];
      assert FindCrlf(b + CRLF).Some?;
    }
  }

  // ---- The resume path ------------------------------------------------------------------------

  lemma StartsSetParse(b: bytes, p: PendingStorageCommand)
    requires StartsSet(b, p)
    ensures Parse(b) == StorageData(b, p)
    ensures FindCrlf(b) == Some(p.commandLineEnd)
  {
    hide VerbOf, StorageData;
  }

  /** A header kept from an earlier, shorter buffer answers on every longer one as a fresh parse. */
  lemma ResumeRefinesDirect(b0: bytes, x: bytes, p: PendingStorageCommand)
    requires StartsSet(b0, p)
    ensures StorageData(b0 + x, p) == Parse(b0 + x)
    ensures StartsSet(b0 + x, p)
  {
    hide StorageData, Parse, VerbOf, SetHeader;
    LineExtend(b0, x);
    StartsSetParse(b0 + x, p);
  }

  // ---- Progress -------------------------------------------------------------------------------

  lemma StorageDataConsumed(b: bytes, p: PendingStorageCommand)
    requires StorageData(b, p).Complete?
    ensures var n := StorageData(b, p).consumed; 2 <= n <= |b| && b[n - 2..n] == CRLF
  {
    var n := StorageData(b, p).consumed;
    assert b[n - 2..n] == [b[n - 2], b[n - 1]];
  }

  lemma LineConsumed(verb: Verb, words: seq<bytes>, b: bytes, lineEnd: nat)
    requires |words| > 0 && lineEnd + 2 <= |b| && b[lineEnd..lineEnd + 2] == CRLF
    requires Line(verb, words, b, lineEnd).Complete?
    ensures var n := Line(verb, words, b, lineEnd).consumed; 2 <= n <= |b| && b[n - 2..n] == CRLF
    ensures HasValidKeys(Line(verb, words, b, lineEnd).cmd)
  {
    if verb == GetVerb {
      GetKeysValid(words[1..]);
    } else if verb == SetVerb {
      StorageDataConsumed(b, SetHeader(words[1..], lineEnd).value);
    }
  }

  /** A complete command takes at least its line, ends at a CRLF inside the buffer and has only
      valid keys. */
  lemma ConsumedEndsAtCrlf(b: bytes)
    requires Parse(b).Complete?
    ensures 2 <= Parse(b).consumed <= |b|
    ensures b[Parse(b).consumed - 2..Parse(b).consumed] == CRLF
    ensures HasValidKeys(Parse(b).cmd)
  {
    hide Line, VerbOf, HasValidKeys, Split;
    var lineEnd := FindCrlf(b).value;
    var words := Split(b[..lineEnd]);
    LineConsumed(VerbOf(words[0]), words, b, lineEnd);
  }

  lemma {:induction false} GetKeysValid(parts: seq<bytes>)
    ensures GetKeys(parts).Ok? ==>
              forall i :: 0 <= i < |GetKeys(parts).value| ==> IsValidKey(GetKeys(parts).value[i])
  {
    if parts != [] {
      GetKeysValid(parts[1..]);
    }
  }

  /** An error is only ever reported with the offending line's CRLF in the buffer. */
  lemma ErrorHasLine(b: bytes)
    requires Parse(b).Error?
    ensures FindCrlf(b).Some?
  {
  }

  /** Nothing quoted from the input in the error holds a CR. */
  predicate QuotesNoCr(e: ProtocolError) {
    match e
    case InvalidCommand(message) => CR !in message
    case InvalidKey(key) => CR !in key
    case _ => true
  }

  lemma KeyErrorQuotesNoCr(key: bytes)
    requires CR !in key
    ensures QuotesNoCr(KeyError(key))
  {
    Utf8.LossyKeepsOut(key, CR);
  }

  lemma {:induction false} GetKeysErrorQuotesNoCr(parts: seq<bytes>)
    requires Free(parts, CR)
    ensures GetKeys(parts).Err? ==> QuotesNoCr(GetKeys(parts).error)
  {
    if parts != [] {
      KeyErrorQuotesNoCr(parts[0]);
      GetKeysErrorQuotesNoCr(parts[1..]);
    }
  }

  lemma LineErrorQuotesNoCr(verb: Verb, words: seq<bytes>, b: bytes, lineEnd: nat)
    requires |words| > 0 && Free(words, CR)
    requires Line(verb, words, b, lineEnd).Error?
    ensures QuotesNoCr(Line(verb, words, b, lineEnd).error)
  {
    hide Field, IsValidKey, KeyError, GetKeys;
    if verb == GetVerb {
      GetKeysErrorQuotesNoCr(words[1..]);
    } else if verb == UnknownVerb {
      Utf8.LossyKeepsOut(words[0], CR);
    } else if |words| > 1 {
      KeyErrorQuotesNoCr(words[1]);
    }
  }

  lemma ErrorQuotesNoCr(b: bytes)
    requires Parse(b).Error?
    ensures QuotesNoCr(Parse(b).error)
  {
    hide Line, VerbOf, QuotesNoCr, Split;
    var lineEnd := FindCrlf(b).value;
    JoinSplit(b[..lineEnd]);
    var words := Split(b[..lineEnd]);
    LineErrorQuotesNoCr(VerbOf(words[0]), words, b, lineEnd);
  }

  lemma TextHasNoCr(e: ProtocolError)
    requires QuotesNoCr(e)
    ensures CR !in e.Text()
  {
    hide Ascii;
    match e
    case InvalidCommand(_) => assert '\r' !in "Invalid command: ";
    case InvalidKey(_) => assert '\r' !in "Invalid key: ";
    case _ =>
  }

  /** Error texts carry no CR, so the reply to an error is one line. */
  lemma ErrorTextHasNoCr(b: bytes)
    requires Parse(b).Error?
    ensures CR !in Parse(b).error.Text()
  {
    hide Parse, QuotesNoCr;
    ErrorQuotesNoCr(b);
    TextHasNoCr(Parse(b).error);
  }
}
