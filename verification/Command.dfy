/** Commands, key validity and protocol errors. */
module Command {
  import opened Bytes
  import Utf8

  const MAX_KEY_LENGTH: nat := 250

  type u32 = n: int | 0 <= n <= 0xFFFF_FFFF
  type u64 = n: int | 0 <= n <= 0xFFFF_FFFF_FFFF_FFFF

  datatype Command =
    | Get(keys: seq<bytes>)
    | Set(key: bytes, flags: u32, exptime: u64, data: bytes, noreply: bool)
    | Delete(key: bytes, noreply: bool)
    | Version
    | Quit
  {
    predicate IsNoreply() {
      match this
      case Set(_, _, _, _, noreply) => noreply
      case Delete(_, noreply) => noreply
      case _ => false
    }
  }

  predicate IsValidKey(key: bytes) {
    0 < |key| <= MAX_KEY_LENGTH && forall i :: 0 <= i < |key| ==> 32 < key[i] < 127
  }

  /** What every parsed command satisfies: at least one key in a get, and only valid keys. */
  predicate HasValidKeys(cmd: Command) {
    match cmd
    case Get(keys) => |keys| > 0 && forall i :: 0 <= i < |keys| ==> IsValidKey(keys[i])
    case Set(key, _, _, _, _) => IsValidKey(key)
    case Delete(key, _) => IsValidKey(key)
    case _ => true
  }

  datatype ProtocolError =
    | InvalidCommand(message: bytes)
    | InvalidKey(key: bytes)
    | InvalidFlags
    | InvalidExptime
    | InvalidBytesLength
    | KeyTooLong
    | UnexpectedData
  {
    /** The `Display` text sent back after `CLIENT_ERROR `. */
    function Text(): bytes {
      match this
      case InvalidCommand(m) => Ascii("Invalid command: ") + m
      case InvalidKey(k) => Ascii("Invalid key: ") + k
      case InvalidFlags => Ascii("Invalid flags")
      case InvalidExptime => Ascii("Invalid exptime")
      case InvalidBytesLength => Ascii("Invalid bytes length")
      case KeyTooLong => Ascii("Key too long (max 250 bytes)")
      case UnexpectedData => Ascii("Unexpected data")
    }
  }

  /** The error for a key that is not valid. */
  function KeyError(key: bytes): ProtocolError {
    if |key| > MAX_KEY_LENGTH then KeyTooLong else InvalidKey(Utf8.Lossy(key))
  }
}
