/** Replies on the wire: the writer that builds them and the client that reads them back. */
module Response {
  import opened Bytes
  import opened Command
  import Decimal

  datatype Item = Item(key: bytes, flags: u32, data: bytes)

  datatype Reply =
    | Values(items: seq<Item>)
    | Stored
    | NotFound
    | Deleted
    | VersionIs(version: bytes)
    | ClientError(message: bytes)
    | ServerError(message: bytes)

  function ItemArguments(item: Item): bytes {
    item.key + [SPACE] + Decimal.Format(item.flags) + [SPACE] + Decimal.Format(|item.data|)
  }

  function ItemBytes(item: Item): bytes {
    Ascii("VALUE ") + ItemArguments(item) + CRLF + item.data + CRLF
  }

  function ItemsBytes(items: seq<Item>): bytes {
    if items == [] then [] else ItemsBytes(items[..|items| - 1]) + ItemBytes(items[|items| - 1])
  }

  /** The reply line of everything but a get. */
  function LineOf(r: Reply): bytes
    requires !r.Values?
  {
    match r
    case Stored => Ascii("STORED")
    case NotFound => Ascii("NOT_FOUND")
    case Deleted => Ascii("DELETED")
    case VersionIs(v) => Ascii("VERSION ") + v
    case ClientError(m) => Ascii("CLIENT_ERROR ") + m
    case ServerError(m) => Ascii("SERVER_ERROR ") + m
  }

  function Wire(r: Reply): bytes {
    if r.Values? then ItemsBytes(r.items) + (Ascii("END") + CRLF) else LineOf(r) + CRLF
  }

  class ResponseWriter {
    var buf: bytes

    constructor ()
      ensures buf == []
    {
      buf := [];
    }

    method Value(key: bytes, flags: u32, data: bytes)
      modifies this
      ensures buf == old(buf) + ItemBytes(Item(key, flags, data))
    {
      hide Ascii, Decimal.Format;
      buf := buf + Ascii("VALUE ");
      buf := buf + key;
      buf := buf + [SPACE];
      buf := buf + Decimal.Format(flags);
      buf := buf + [SPACE];
      buf := buf + Decimal.Format(|data|);
      assert buf == old(buf) + (Ascii("VALUE ") + ItemArguments(Item(key, flags, data)));
      buf := buf + CRLF;
      buf := buf + data;
      buf := buf + CRLF;
      assert buf == old(buf) + ItemBytes(Item(key, flags, data));
    }

    method End()
      modifies this
      ensures buf == old(buf) + (Ascii("END") + CRLF)
    {
      buf := buf + (Ascii("END") + CRLF);
    }

    /** `stored`, `not_found`, `deleted`, `version`, `client_error` and `server_error`. */
    method Line(r: Reply)
      requires !r.Values?
      modifies this
      ensures buf == old(buf) + Wire(r)
    {
      buf := buf + LineOf(r);
      buf := buf + CRLF;
      assert buf == old(buf) + (LineOf(r) + CRLF);
    }

    method Take() returns (taken: bytes)
      modifies this
      ensures taken == old(buf) && buf == []
    {
      taken := buf;
      buf := [];
    }

    method Clear()
      modifies this
      ensures buf == []
    {
      buf := [];
    }
  }

  // ---- The bytes ------------------------------------------------------------------------------

  lemma StatusWords()
    ensures Ascii("STORED") == [83, 84, 79, 82, 69, 68]
    ensures Ascii("NOT_FOUND") == [78, 79, 84, 95, 70, 79, 85, 78, 68]
    ensures Ascii("DELETED") == [68, 69, 76, 69, 84, 69, 68]
    ensures Ascii("END") == [69, 78, 68]
  {
  }

  lemma PrefixWords()
    ensures Ascii("VALUE ") == [86, 65, 76, 85, 69, 32]
    ensures Ascii("VERSION ") == [86, 69, 82, 83, 73, 79, 78, 32]
  {
  }

  lemma ErrorWords()
    ensures Ascii("CLIENT_ERROR ") == [67, 76, 73, 69, 78, 84, 95, 69, 82, 82, 79, 82, 32]
    ensures Ascii("SERVER_ERROR ") == [83, 69, 82, 86, 69, 82, 95, 69, 82, 82, 79, 82, 32]
  {
  }

  /** The reply lines as bytes: STORED, NOT_FOUND, DELETED, VERSION, CLIENT_ERROR, SERVER_ERROR. */
  lemma LineBytes(r: Reply)
    requires !r.Values?
    ensures Wire(r) ==
            match r
            case Stored => [83, 84, 79, 82, 69, 68, 13, 10]
            case NotFound => [78, 79, 84, 95, 70, 79, 85, 78, 68, 13, 10]
            case Deleted => [68, 69, 76, 69, 84, 69, 68, 13, 10]
            case VersionIs(v) => [86, 69, 82, 83, 73, 79, 78, 32] + v + [13, 10]
            case ClientError(m) => [67, 76, 73, 69, 78, 84, 95, 69, 82, 82, 79, 82, 32] + m + [13, 10]
            case ServerError(m) => [83, 69, 82, 86, 69, 82, 95, 69, 82, 82, 79, 82, 32] + m + [13, 10]
  {
    hide Ascii;
    StatusWords();
    PrefixWords();
    ErrorWords();
  }

  /** An item as bytes: VALUE, key, flags and length, then the data. */
  lemma ItemIsBytes(item: Item)
    ensures ItemBytes(item) ==
            [86, 65, 76, 85, 69, 32] + item.key + [32] + Decimal.Format(item.flags) + [32]
            + Decimal.Format(|item.data|) + [13, 10] + item.data + [13, 10]
  {
    hide Decimal.Format, Ascii;
    PrefixWords();
    var line := [86, 65, 76, 85, 69, 32] + item.key + [32] + Decimal.Format(item.flags) + [32]
      + Decimal.Format(|item.data|);
    assert Ascii("VALUE ") + ItemArguments(item) == line;
  }

  /** A get reply as bytes: item after item, then END. */
  lemma ValuesBytes(items: seq<Item>)
    ensures Wire(Values(items)) ==
            if items == [] then [69, 78, 68, 13, 10] else ItemBytes(items[0]) + Wire(Values(items[1..]))
  {
    hide ItemBytes, Ascii;
    StatusWords();
    if items != [] {
      ItemsBytesCons(items);
      hide ItemsBytes;
    }
  }

  // ---- The client -----------------------------------------------------------------------------

  datatype LineKind = EndLine | ItemLine(arguments: bytes) | OtherLine(reply: Reply) | NoReplyLine

  function Classify(line: bytes): LineKind {
    if line == Ascii("END") then EndLine
    else if line == Ascii("STORED") then OtherLine(Stored)
    else if line == Ascii("NOT_FOUND") then OtherLine(NotFound)
    else if line == Ascii("DELETED") then OtherLine(Deleted)
    else if Ascii("VALUE ") <= line then ItemLine(line[6..])
    else if Ascii("VERSION ") <= line then OtherLine(VersionIs(line[8..]))
    else if Ascii("CLIENT_ERROR ") <= line then OtherLine(ClientError(line[13..]))
    else if Ascii("SERVER_ERROR ") <= line then OtherLine(ServerError(line[13..]))
    else NoReplyLine
  }

  /** An item whose line has the given arguments and whose data block starts `rest`: the announced
      length alone says where the block ends. */
  function DecodeItem(arguments: bytes, rest: bytes): (r: Option<(Item, bytes)>)
    ensures r.Some? ==> |r.value.1| < |rest|
  {
    var words := Split(arguments);
    if |words| != 3 then None
    else
      var flags, length := Decimal.Parse(words[1], U32_MAX), Decimal.Parse(words[2], |rest|);
      if flags.None? || length.None? || length.value + 2 > |rest| then None
      else if rest[length.value..length.value + 2] != CRLF then None
      else Some((Item(words[0], flags.value, rest[..length.value]), rest[length.value + 2..]))
  }

  function DecodeItems(s: bytes): Option<(seq<Item>, bytes)>
    decreases |s|
  {
    match FindCrlf(s)
    case None => None
    case Some(n) =>
      var rest := s[n + 2..];
      match Classify(s[..n])
      case EndLine => Some(([], rest))
      case ItemLine(arguments) =>
        (match DecodeItem(arguments, rest)
         case None => None
         case Some((item, rest')) =>
           (match DecodeItems(rest')
            case None => None
            case Some((items, rest'')) => Some(([item] + items, rest''))))
      case _ => None
  }

  /** One reply off the front of the stream. */
  function DecodeReply(s: bytes): (r: Option<(Reply, bytes)>) {
    match FindCrlf(s)
    case None => None
    case Some(n) =>
      match Classify(s[..n])
      case OtherLine(reply) => Some((reply, s[n + 2..]))
      case NoReplyLine => None
      case _ =>
        (match DecodeItems(s)
         case None => None
         case Some((items, rest)) => Some((Values(items), rest)))
  }

  /** All replies of a stream, in order; stuck on anything that does not shrink or decode. */
  function DecodeAll(s: bytes): Option<seq<Reply>>
    decreases |s|
  {
    if s == [] then Some([])
    else match DecodeReply(s)
      case None => None
      case Some((reply, rest)) =>
        if |rest| >= |s| then None
        else match DecodeAll(rest)
          case None => None
          case Some(replies) => Some([reply] + replies)
  }

  // ---- Decodability ---------------------------------------------------------------------------

  /** Echoed keys are valid and texts hold no CR; data may hold anything. */
  predicate Clean(r: Reply) {
    match r
    case Values(items) => forall i :: 0 <= i < |items| ==> IsValidKey(items[i].key)
    case VersionIs(v) => CR !in v
    case ClientError(m) => CR !in m
    case ServerError(m) => CR !in m
    case _ => true
  }

  lemma ClassifyOther(r: Reply)
    requires !r.Values?
    ensures Classify(LineOf(r)) == OtherLine(r)
  {
    var line := LineOf(r);
    assert line[0] == match r
                      case Stored => 83
                      case NotFound => 78
                      case Deleted => 68
                      case VersionIs(_) => 86
                      case ClientError(_) => 67
                      case ServerError(_) => 83;
    assert line[1] == match r
                      case Stored => 84
                      case NotFound => 79
                      case Deleted => 69
                      case VersionIs(_) => 69
                      case ClientError(_) => 76
                      case ServerError(_) => 69;
  }

  lemma ClassifyItem(arguments: bytes)
    ensures Classify(Ascii("VALUE ") + arguments) == ItemLine(arguments)
  {
    var line := Ascii("VALUE ") + arguments;
    assert line[0] == 86 && line[1] == 65;
    assert line[6..] == arguments;
  }

  lemma LineHasNoCr(r: Reply)
    requires !r.Values? && Clean(r)
    ensures CR !in LineOf(r)
  {
  }

  lemma SplitThree(a: bytes, b: bytes, c: bytes)
    requires SPACE !in a && SPACE !in b && SPACE !in c
    ensures Split(a + [SPACE] + b + [SPACE] + c) == [a, b, c]
  {
    hide Split;
    SplitWord(c);
    SplitFirst(b, c);
    SplitFirst(a, b + [SPACE] + c);
    assert a + [SPACE] + b + [SPACE] + c == a + [SPACE] + (b + [SPACE] + c);
  }

  lemma ItemArgumentsSplit(item: Item)
    requires IsValidKey(item.key)
    ensures Split(ItemArguments(item)) == [item.key, Decimal.Format(item.flags), Decimal.Format(|item.data|)]
    ensures CR !in ItemArguments(item)
  {
    hide Decimal.Format, Decimal.Parse, Split;
    Decimal.ParseFormat(item.flags, U32_MAX);
    Decimal.ParseFormat(|item.data|, |item.data|);
    SplitThree(item.key, Decimal.Format(item.flags), Decimal.Format(|item.data|));
  }

  lemma DecodeItemBack(item: Item, rest: bytes)
    requires IsValidKey(item.key)
    ensures DecodeItem(ItemArguments(item), item.data + CRLF + rest) == Some((item, rest))
  {
    ItemArgumentsSplit(item);
    var s := item.data + CRLF + rest;
    Decimal.ParseFormat(item.flags, U32_MAX);
    Decimal.ParseFormat(|item.data|, |s|);
    hide Decimal.Format, Decimal.Parse, ItemArguments, Split;
    var n := |item.data|;
    assert s[..n] == item.data && s[n..n + 2] == CRLF && s[n + 2..] == rest;
  }

  lemma {:induction false} ItemsBytesCons(items: seq<Item>)
    requires items != []
    ensures ItemsBytes(items) == ItemBytes(items[0]) + ItemsBytes(items[1..])
  {
    hide ItemBytes;
    var n := |items| - 1;
    if n > 0 {
      ItemsBytesCons(items[..n]);
      assert items[..n][1..] == items[1..][..n - 1];
    }
  }

  /** Cutting the stream at the first line end. */
  lemma CutLine(line: bytes, rest: bytes)
    requires CR !in line
    ensures var s := line + CRLF + rest;
            FindCrlf(s) == Some(|line|) && s[..|line|] == line && s[|line| + 2..] == rest
  {
    FindCrlfAt(line, rest);
  }

  lemma EndHasNoCr()
    ensures CR !in Ascii("END") && CR !in Ascii("VALUE ") && Classify(Ascii("END")) == EndLine
  {
  }

  lemma DecodeItemsStep(line: bytes, arguments: bytes, block: bytes, item: Item, tail: bytes,
                        items: seq<Item>, rest: bytes)
    requires CR !in line && Classify(line) == ItemLine(arguments)
    requires DecodeItem(arguments, block) == Some((item, tail))
    requires DecodeItems(tail) == Some((items, rest))
    ensures DecodeItems(line + CRLF + block) == Some(([item] + items, rest))
  {
    hide Classify, DecodeItem;
    CutLine(line, block);
  }

  lemma DecodeItemsEnd(rest: bytes)
    ensures DecodeItems(Ascii("END") + CRLF + rest) == Some(([], rest))
  {
    EndHasNoCr();
    hide Classify, Ascii;
    CutLine(Ascii("END"), rest);
  }

  /** The stream of a get reply, opened at its first item. */
  lemma ItemsLayout(items: seq<Item>, end: bytes)
    requires items != []
    ensures ItemsBytes(items) + end ==
            Ascii("VALUE ") + ItemArguments(items[0]) + CRLF
            + (items[0].data + CRLF + (ItemsBytes(items[1..]) + end))
  {
    ItemsBytesCons(items);
    hide Ascii, ItemArguments, ItemsBytes;
  }

  /** One item read back, given that the rest of the reply is. */
  lemma DecodeItemsCons(items: seq<Item>, end: bytes, rest: bytes)
    requires items != [] && IsValidKey(items[0].key)
    requires DecodeItems(ItemsBytes(items[1..]) + end) == Some((items[1..], rest))
    ensures DecodeItems(ItemsBytes(items) + end) == Some((items, rest))
  {
    hide Classify, DecodeItem, DecodeItems, ItemArguments, ItemsBytes, Split;
    var item, arguments := items[0], ItemArguments(items[0]);
    var tail := ItemsBytes(items[1..]) + end;
    EndHasNoCr();
    hide Ascii;
    ItemArgumentsSplit(item);
    ClassifyItem(arguments);
    DecodeItemBack(item, tail);
    ItemsLayout(items, end);
    DecodeItemsStep(Ascii("VALUE ") + arguments, arguments, item.data + CRLF + tail, item, tail, items[1..], rest);
    assert items == [item] + items[1..];
  }

  lemma {:induction false} DecodeItemsBack(items: seq<Item>, rest: bytes)
    requires forall i :: 0 <= i < |items| ==> IsValidKey(items[i].key)
    ensures DecodeItems(ItemsBytes(items) + (Ascii("END") + CRLF + rest)) == Some((items, rest))
    decreases |items|
  {
    hide DecodeItems, Ascii;
    var end := Ascii("END") + CRLF + rest;
    if items == [] {
      DecodeItemsEnd(rest);
      assert ItemsBytes(items) + end == end;
    } else {
      DecodeItemsBack(items[1..], rest);
      DecodeItemsCons(items, end, rest);
    }
  }

  lemma DecodeValues(s: bytes)
    requires DecodeItems(s).Some?
    ensures DecodeReply(s) == Some((Values(DecodeItems(s).value.0), DecodeItems(s).value.1))
  {
    hide Classify, DecodeItem;
  }

  lemma DecodeLine(line: bytes, r: Reply, rest: bytes)
    requires CR !in line && Classify(line) == OtherLine(r)
    ensures DecodeReply(line + CRLF + rest) == Some((r, rest))
  {
    hide Classify;
    CutLine(line, rest);
  }

  /** A clean reply comes back whole, and the rest of the stream is untouched, even when data holds
      CRLF or the bytes of another reply. */
  lemma DecodeReplyBack(r: Reply, rest: bytes)
    requires Clean(r)
    ensures DecodeReply(Wire(r) + rest) == Some((r, rest))
  {
    hide DecodeItems, DecodeReply, Classify, LineOf, ItemsBytes, Ascii;
    if r.Values? {
      DecodeItemsBack(r.items, rest);
      assert Wire(r) + rest == ItemsBytes(r.items) + (Ascii("END") + CRLF + rest);
      DecodeValues(Wire(r) + rest);
    } else {
      LineHasNoCr(r);
      ClassifyOther(r);
      DecodeLine(LineOf(r), r, rest);
    }
  }

  function WireAll(replies: seq<Reply>): bytes {
    if replies == [] then [] else WireAll(replies[..|replies| - 1]) + Wire(replies[|replies| - 1])
  }

  lemma {:induction false} WireAllCons(replies: seq<Reply>)
    requires replies != []
    ensures WireAll(replies) == Wire(replies[0]) + WireAll(replies[1..])
  {
    hide Wire;
    var n := |replies| - 1;
    if n > 0 {
      WireAllCons(replies[..n]);
      assert replies[..n][1..] == replies[1..][..n - 1];
    }
  }

  lemma WireNonEmpty(r: Reply)
    ensures |Wire(r)| > 0
  {
  }

  /** A client that follows announced lengths recovers exactly the replies sent. */
  lemma {:induction false} ClientDecodes(replies: seq<Reply>)
    requires forall i :: 0 <= i < |replies| ==> Clean(replies[i])
    ensures DecodeAll(WireAll(replies)) == Some(replies)
    decreases |replies|
  {
    hide Wire, DecodeReply, Clean;
    if replies != [] {
      var rest := WireAll(replies[1..]);
      WireAllCons(replies);
      ClientDecodes(replies[1..]);
      DecodeReplyBack(replies[0], rest);
      WireNonEmpty(replies[0]);
      assert replies == [replies[0]] + replies[1..];
    }
  }
}
