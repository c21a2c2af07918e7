/** The parser as it runs: words are taken one after another from the split line. */
module ParserCode {
  import opened Bytes
  import opened Command
  import opened Parser
  import Decimal
  import Utf8

  /** `keys` so far, and the outcome `rest` of the words still to come, make up `all`. */
  ghost predicate Continues(all: Result<seq<bytes>, ProtocolError>, keys: seq<bytes>,
                            rest: Result<seq<bytes>, ProtocolError>)
  {
    match rest
    case Err(_) => all == rest
    case Ok(tail) => all.Ok? && all.value == keys + tail
  }

  method ParseGet(parts: seq<bytes>, consumed: nat) returns (r: ParseResult)
    ensures r == GetLine(parts, consumed)
  {
    var keys: seq<bytes> := [];
    assert parts[0..] == parts;
    for i := 0 to |parts|
      invariant Continues(GetKeys(parts), keys, GetKeys(parts[i..]))
    {
      var part := parts[i];
      assert parts[i..][1..] == parts[i + 1..];
      if part == [] {
        continue;
      }
      if !IsValidKey(part) {
        if |part| > MAX_KEY_LENGTH {
          return Error(KeyTooLong);
        }
        return Error(InvalidKey(Utf8.Lossy(part)));
      }
      keys := keys + [part];
    }
    assert parts[|parts|..] == [] && keys + [] == keys;
    if keys == [] {
      return Error(InvalidCommand(Ascii("get requires at least one key")));
    }
    return Complete(Get(keys), consumed);
  }

  method ParseDelete(parts: seq<bytes>, consumed: nat) returns (r: ParseResult)
    ensures r == DeleteLine(parts, consumed)
  {
    if |parts| == 0 || parts[0] == [] {
      return Error(InvalidCommand(Ascii("delete requires a key")));
    }
    var key := parts[0];
    if !IsValidKey(key) {
      if |key| > MAX_KEY_LENGTH {
        return Error(KeyTooLong);
      }
      return Error(InvalidKey(Utf8.Lossy(key)));
    }
    var noreply := false;
    for i := 1 to |parts|
      invariant noreply == (NOREPLY in parts[1..i])
    {
      assert parts[1..i + 1] == parts[1..i] + [parts[i]];
      if parts[i] == [] {
        continue;
      }
      if parts[i] == NOREPLY {
        noreply := true;
      }
    }
    return Complete(Delete(key, noreply), consumed);
  }

  /** `parts.next().and_then(parse_..)`: the word at the cursor as a number, and the cursor moved. */
  method NextNumber(parts: seq<bytes>, cursor: nat, max: nat) returns (n: Option<nat>, after: nat)
    ensures n == Field(parts, cursor, max)
    ensures after == cursor + 1
  {
    after := cursor + 1;
    n := if cursor < |parts| then Decimal.Parse(parts[cursor], max) else None;
  }

  method ParseSet(parts: seq<bytes>, buf: bytes, lineEnd: nat) returns (r: ParseResult)
    ensures r == SetLine(parts, buf, lineEnd)
  {
    hide Decimal.Parse, Utf8.Lossy, Ascii;
    if |parts| == 0 || parts[0] == [] {
      return Error(InvalidCommand(Ascii("missing key")));
    }
    var key := parts[0];
    if !IsValidKey(key) {
      if |key| > MAX_KEY_LENGTH {
        return Error(KeyTooLong);
      }
      return Error(InvalidKey(Utf8.Lossy(key)));
    }
    var flags, cursor := NextNumber(parts, 1, U32_MAX);
    if flags.None? {
      return Error(InvalidFlags);
    }
    var exptime;
    exptime, cursor := NextNumber(parts, cursor, U64_MAX);
    if exptime.None? {
      return Error(InvalidExptime);
    }
    var count;
    count, cursor := NextNumber(parts, cursor, USIZE_MAX);
    if count.None? {
      return Error(InvalidBytesLength);
    }
    var noreply := cursor < |parts| && parts[cursor] == NOREPLY;
    ghost var p := PendingStorageCommand(key, flags.value, exptime.value, count.value, noreply, lineEnd);
    assert SetHeader(parts, lineEnd) == Ok(p);
    hide SetHeader, Field;

    var dataStart := lineEnd + 2;
    var dataEnd := WrappingAdd(dataStart, count.value);
    var totalNeeded := dataEnd + 2;
    if totalNeeded > USIZE_MAX {
      return Panic;
    }
    if |buf| < totalNeeded {
      return NeedMoreData;
    }
    if buf[dataEnd] != CR || buf[dataEnd + 1] != LF {
      return Error(UnexpectedData);
    }
    if dataEnd < dataStart {
      return Panic;
    }
    var data := buf[dataStart..dataEnd];
    return Complete(Set(key, flags.value, exptime.value, data, noreply), totalNeeded);
  }

  method ParseStorageCommandLine(buf: bytes)
    returns (r: Result<Option<PendingStorageCommand>, ProtocolError>)
    ensures r == StorageCommandLine(buf)
  {
    hide Decimal.Parse, Utf8.Lossy, Ascii;
    var lineEnd := FindCrlf(buf);
    if lineEnd.None? {
      return Ok(None);
    }
    var words := Split(buf[..lineEnd.value]);
    if words[0] == [] {
      return Err(InvalidCommand(Ascii("empty command")));
    }
    if VerbOf(words[0]) != SetVerb {
      return Ok(None);
    }
    var parts := words[1..];
    if |parts| == 0 || parts[0] == [] {
      return Err(InvalidCommand(Ascii("missing key")));
    }
    var key := parts[0];
    if !IsValidKey(key) {
      if |key| > MAX_KEY_LENGTH {
        return Err(KeyTooLong);
      }
      return Err(InvalidKey(Utf8.Lossy(key)));
    }
    var flags, cursor := NextNumber(parts, 1, U32_MAX);
    if flags.None? {
      return Err(InvalidFlags);
    }
    var exptime;
    exptime, cursor := NextNumber(parts, cursor, U64_MAX);
    if exptime.None? {
      return Err(InvalidExptime);
    }
    var count;
    count, cursor := NextNumber(parts, cursor, USIZE_MAX);
    if count.None? {
      return Err(InvalidBytesLength);
    }
    var noreply := cursor < |parts| && parts[cursor] == NOREPLY;
    return Ok(Some(PendingStorageCommand(
      key, flags.value, exptime.value, count.value, noreply, lineEnd.value)));
  }

  method ParseBuffer(buf: bytes) returns (r: ParseResult)
    ensures r == Parse(buf)
  {
    var lineEnd := FindCrlf(buf);
    if lineEnd.None? {
      return NeedMoreData;
    }
    var words := Split(buf[..lineEnd.value]);
    match VerbOf(words[0])
    case EmptyVerb => r := Error(InvalidCommand(Ascii("empty command")));
    case GetVerb => r := ParseGet(words[1..], lineEnd.value + 2);
    case SetVerb => r := ParseSet(words[1..], buf, lineEnd.value);
    case DeleteVerb => r := ParseDelete(words[1..], lineEnd.value + 2);
    case VersionVerb => r := Complete(Version, lineEnd.value + 2);
    case QuitVerb => r := Complete(Quit, lineEnd.value + 2);
    case UnknownVerb => r := Error(InvalidCommand(Utf8.Lossy(words[0])));
  }
}
