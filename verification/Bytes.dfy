/** Byte strings, the delimiters of the protocol, and cutting a line at its spaces. */
module Bytes {

  type byte = b: int | 0 <= b < 256
  type bytes = seq<byte>

  datatype Option<+T> = None | Some(value: T)
  datatype Result<+T, +E> = Ok(value: T) | Err(error: E)

  const CR: byte := 13
  const LF: byte := 10
  const SPACE: byte := 32
  const CRLF: bytes := [CR, LF]

  const U32_MAX: nat := 0xFFFF_FFFF
  const U64_MAX: nat := 0xFFFF_FFFF_FFFF_FFFF
  /** `usize` on the 64-bit targets the server is released for. */
  const USIZE_MAX: nat := U64_MAX
  /** No buffer is longer. */
  const ISIZE_MAX: nat := 0x7FFF_FFFF_FFFF_FFFF

  /** The bytes of an ASCII string literal. */
  function Ascii(s: string): (r: bytes)
    ensures |r| == |s|
    ensures '\r' !in s ==> CR !in r
    ensures ' ' !in s ==> SPACE !in r
  {
    seq(|s|, i requires 0 <= i < |s| => if s[i] as int < 128 then s[i] as int else 63)
  }

  /** Every ASCII character keeps its code. */
  lemma AsciiCodes(s: string, i: nat)
    ensures i < |s| && s[i] as int < 128 ==> Ascii(s)[i] == s[i] as int
  {
  }

  /** Position of the first `c`, or the length when there is none (`memchr`). */
  function IndexOf(s: bytes, c: byte): (i: nat)
    ensures i <= |s|
    ensures c !in s[..i]
    ensures i < |s| ==> s[i] == c
  {
    if s == [] || s[0] == c then 0 else
      var i := 1 + IndexOf(s[1..], c);
      assert s[..i] == [s[0]] + s[1..][..i - 1];
      i
  }

  lemma IndexOfUnique(s: bytes, c: byte, i: nat)
    requires i <= |s| && c !in s[..i]
    requires i < |s| ==> s[i] == c
    ensures IndexOf(s, c) == i
  {
  }

  /** A found position does not move when bytes are appended. */
  lemma IndexOfExtend(s: bytes, c: byte, x: bytes)
    requires IndexOf(s, c) < |s|
    ensures IndexOf(s + x, c) == IndexOf(s, c)
  {
    var i := IndexOf(s, c);
    assert (s + x)[..i] == s[..i];
    IndexOfUnique(s + x, c, i);
  }

  /** `find_crlf`: only the first CR is looked at. */
  function FindCrlf(b: bytes): (r: Option<nat>)
    ensures r.Some? ==> r.value + 2 <= |b| && CR !in b[..r.value]
    ensures r.Some? ==> b[r.value..r.value + 2] == CRLF
  {
    var i := IndexOf(b, CR);
    if i + 1 < |b| && b[i + 1] == LF then
      assert b[i..i + 2] == [b[i], b[i + 1]];
      Some(i)
    else None
  }

  /** The answer is the one CRLF with no CR before it, and there is no answer without one. */
  lemma FindCrlfIff(b: bytes, i: nat)
    ensures FindCrlf(b) == Some(i) <==> i + 2 <= |b| && b[i..i + 2] == CRLF && CR !in b[..i]
  {
    if i + 2 <= |b| && b[i..i + 2] == CRLF && CR !in b[..i] {
      assert b[i] == b[i..i + 2][0] && b[i + 1] == b[i..i + 2][1];
      IndexOfUnique(b, CR, i);
    }
  }

  lemma FindCrlfExtend(b: bytes, x: bytes)
    requires FindCrlf(b).Some?
    ensures FindCrlf(b + x) == FindCrlf(b)
  {
    IndexOfExtend(b, CR, x);
  }

  /** A line without CR, closed by CRLF, ends where it should, whatever follows. */
  lemma FindCrlfAt(line: bytes, rest: bytes)
    requires CR !in line
    ensures FindCrlf(line + CRLF + rest) == Some(|line|)
  {
    var b := line + CRLF + rest;
    assert b[..|line|] == line;
    IndexOfUnique(b, CR, |line|);
  }

  /** `slice::split` on the space byte: always at least one piece. */
  function Split(s: bytes): (parts: seq<bytes>)
    ensures |parts| > 0
    decreases |s|
  {
    var i := IndexOf(s, SPACE);
    if i == |s| then [s] else [s[..i]] + Split(s[i + 1..])
  }

  /** Pieces put back together with one space between neighbours. */
  function Join(parts: seq<bytes>): bytes
    requires |parts| > 0
  {
    if |parts| == 1 then parts[0] else parts[0] + [SPACE] + Join(parts[1..])
  }

  ghost predicate Free(parts: seq<bytes>, c: byte) {
    forall i :: 0 <= i < |parts| ==> c !in parts[i]
  }

  lemma SplitFirst(word: bytes, rest: bytes)
    requires SPACE !in word
    ensures Split(word + [SPACE] + rest) == [word] + Split(rest)
  {
    var s := word + [SPACE] + rest;
    assert s[..|word|] == word && s[|word| + 1..] == rest;
    IndexOfUnique(s, SPACE, |word|);
  }

  lemma SplitWord(word: bytes)
    requires SPACE !in word
    ensures Split(word) == [word]
  {
    IndexOfUnique(word, SPACE, |word|);
  }

  lemma {:induction false} SplitJoin(parts: seq<bytes>)
    requires |parts| > 0 && Free(parts, SPACE)
    ensures Split(Join(parts)) == parts
  {
    if |parts| == 1 {
      SplitWord(parts[0]);
    } else {
      SplitJoin(parts[1..]);
      SplitFirst(parts[0], Join(parts[1..]));
    }
  }

  lemma {:induction false} JoinSplit(s: bytes)
    ensures Join(Split(s)) == s
    ensures Free(Split(s), SPACE)
    ensures CR !in s ==> Free(Split(s), CR)
    decreases |s|
  {
    var i := IndexOf(s, SPACE);
    if i == |s| {
      assert s[..i] == s;
    } else {
      JoinSplit(s[i + 1..]);
      assert s == s[..i] + [SPACE] + s[i + 1..];
      assert Split(s)[1..] == Split(s[i + 1..]);
    }
  }

  lemma {:induction false} JoinFree(parts: seq<bytes>, c: byte)
    requires |parts| > 0 && Free(parts, c) && c != SPACE
    ensures c !in Join(parts)
  {
    if |parts| > 1 {
      JoinFree(parts[1..], c);
    }
  }
}
