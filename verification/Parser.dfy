/** What the protocol parser answers on a buffer. */
module Parser {
  import opened Bytes
  import opened Command
  import Decimal
  import Utf8

  datatype ParseResult =
    | Complete(cmd: Command, consumed: nat)
    | NeedMoreData
    | Error(error: ProtocolError)
    /** An index or a slice bound out of range; in the release build it ends the process. */
    | Panic

  type usize = n: nat | n <= USIZE_MAX

  datatype PendingStorageCommand = PendingStorageCommand(
    key: bytes, flags: u32, exptime: u64, bytes: usize, noreply: bool, commandLineEnd: nat)

  const NOREPLY: bytes := Ascii("noreply")

  function ToLower(b: byte): byte {
    if 65 <= b <= 90 then b + 32 else b
  }

  /** Letter case of `cmd` does not matter; `expected` is lower case. */
  predicate CmdEq(cmd: bytes, expected: bytes) {
    |cmd| == |expected| && forall i :: 0 <= i < |cmd| ==> ToLower(cmd[i]) == expected[i]
  }

  /** The keys of a get line, or the error of its first bad one. */
  function GetKeys(parts: seq<bytes>): Result<seq<bytes>, ProtocolError> {
    if parts == [] then Ok([])
    else if parts[0] != [] && !IsValidKey(parts[0]) then Err(KeyError(parts[0]))
    else
      var rest := GetKeys(parts[1..]);
      if rest.Err? || parts[0] == [] then rest else Ok([parts[0]] + rest.value)
  }

  function GetLine(parts: seq<bytes>, consumed: nat): ParseResult {
    match GetKeys(parts)
    case Err(e) => Error(e)
    case Ok(keys) =>
      if keys == [] then Error(InvalidCommand(Ascii("get requires at least one key")))
      else Complete(Get(keys), consumed)
  }

  function DeleteLine(parts: seq<bytes>, consumed: nat): ParseResult {
    if parts == [] || parts[0] == [] then Error(InvalidCommand(Ascii("delete requires a key")))
    else if !IsValidKey(parts[0]) then Error(KeyError(parts[0]))
    else Complete(Delete(parts[0], NOREPLY in parts[1..]), consumed)
  }

  /** The number in word `i`, if there is such a word and it reads as one. */
  function Field(parts: seq<bytes>, i: nat, max: nat): (r: Option<nat>)
    ensures r.Some? ==> r.value <= max
  {
    if i < |parts| then Decimal.Parse(parts[i], max) else None
  }

  /** A set line after its verb: `<key> <flags> <exptime> <bytes> [noreply]`. */
  function SetHeader(parts: seq<bytes>, lineEnd: nat): Result<PendingStorageCommand, ProtocolError> {
    if parts == [] || parts[0] == [] then Err(InvalidCommand(Ascii("missing key")))
    else if !IsValidKey(parts[0]) then Err(KeyError(parts[0]))
    else if Field(parts, 1, U32_MAX).None? then Err(InvalidFlags)
    else if Field(parts, 2, U64_MAX).None? then Err(InvalidExptime)
    else if Field(parts, 3, USIZE_MAX).None? then Err(InvalidBytesLength)
    else Ok(PendingStorageCommand(
      parts[0], Field(parts, 1, U32_MAX).value, Field(parts, 2, U64_MAX).value,
      Field(parts, 3, USIZE_MAX).value, |parts| > 4 && parts[4] == NOREPLY, lineEnd))
  }

  /** `usize` addition of the release build, where overflow wraps around. */
  function WrappingAdd(x: nat, n: usize): (r: nat) {
    if x + n <= USIZE_MAX then x + n else x + n - (USIZE_MAX + 1)
  }

  /** `parse_storage_data`: the data block that follows a header. When `dataEnd + 2` wraps, the length
      test passes and `dataEnd` is an index no buffer has. */
  function StorageData(b: bytes, p: PendingStorageCommand): ParseResult {
    var dataStart := p.commandLineEnd + 2;
    var dataEnd := WrappingAdd(dataStart, p.bytes);
    if dataEnd + 2 > USIZE_MAX then Panic
    else if |b| < dataEnd + 2 then NeedMoreData
    else if b[dataEnd] != CR || b[dataEnd + 1] != LF then Error(UnexpectedData)
    else if dataEnd < dataStart then Panic
    else Complete(Set(p.key, p.flags, p.exptime, b[dataStart..dataEnd], p.noreply), dataEnd + 2)
  }

  function SetLine(parts: seq<bytes>, b: bytes, lineEnd: nat): ParseResult {
    match SetHeader(parts, lineEnd)
    case Err(e) => Error(e)
    case Ok(p) => StorageData(b, p)
  }

  datatype Verb = EmptyVerb | GetVerb | SetVerb | DeleteVerb | VersionVerb | QuitVerb | UnknownVerb

  function VerbOf(word: bytes): Verb {
    if word == [] then EmptyVerb
    else if CmdEq(word, Ascii("get")) then GetVerb
    else if CmdEq(word, Ascii("set")) then SetVerb
    else if CmdEq(word, Ascii("delete")) then DeleteVerb
    else if CmdEq(word, Ascii("version")) then VersionVerb
    else if CmdEq(word, Ascii("quit")) then QuitVerb
    else UnknownVerb
  }

  /** One line, already cut into words; `b` is the buffer it came from. */
  function Line(verb: Verb, words: seq<bytes>, b: bytes, lineEnd: nat): ParseResult
    requires |words| > 0
  {
    match verb
    case EmptyVerb => Error(InvalidCommand(Ascii("empty command")))
    case GetVerb => GetLine(words[1..], lineEnd + 2)
    case SetVerb => SetLine(words[1..], b, lineEnd)
    case DeleteVerb => DeleteLine(words[1..], lineEnd + 2)
    case VersionVerb => Complete(Version, lineEnd + 2)
    case QuitVerb => Complete(Quit, lineEnd + 2)
    case UnknownVerb => Error(InvalidCommand(Utf8.Lossy(words[0])))
  }

  function Parse(b: bytes): ParseResult {
    match FindCrlf(b)
    case None => NeedMoreData
    case Some(lineEnd) =>
      var words := Split(b[..lineEnd]);
      Line(VerbOf(words[0]), words, b, lineEnd)
  }

  /** `parse_storage_command_line`: the header of a set line, if the buffer starts with one. */
  function StorageCommandLine(b: bytes): Result<Option<PendingStorageCommand>, ProtocolError> {
    match FindCrlf(b)
    case None => Ok(None)
    case Some(lineEnd) =>
      var words := Split(b[..lineEnd]);
      var verb := VerbOf(words[0]);
      if verb == EmptyVerb then Err(InvalidCommand(Ascii("empty command")))
      else if verb != SetVerb then Ok(None)
      else match SetHeader(words[1..], lineEnd)
        case Err(e) => Err(e)
        case Ok(p) => Ok(Some(p))
  }

  /** The buffer starts with a complete, well-formed set line with header `p`. */
  predicate StartsSet(b: bytes, p: PendingStorageCommand) {
    StorageCommandLine(b) == Ok(Some(p))
  }
}
