/** `String::from_utf8_lossy`: each ill-formed stretch becomes one U+FFFD. */
module Utf8 {
  import opened Bytes

  const REPLACEMENT: bytes := [0xEF, 0xBF, 0xBD]

  function At(s: bytes, i: nat): byte {
    if i < |s| then s[i] else 0
  }

  predicate IsContinuation(b: byte) {
    0x80 <= b <= 0xBF
  }

  /** The second bytes that may follow a lead byte of a three- or four-byte character. */
  predicate SecondFits(lead: byte, b: byte) {
    if lead == 0xE0 then 0xA0 <= b <= 0xBF
    else if lead == 0xED then 0x80 <= b <= 0x9F
    else if lead == 0xF0 then 0x90 <= b <= 0xBF
    else if lead == 0xF4 then 0x80 <= b <= 0x8F
    else IsContinuation(b)
  }

  /** Bytes taken from the front of `s`, and whether they form one character. */
  function Scan(s: bytes): (r: (nat, bool))
    requires s != []
    ensures 1 <= r.0 <= |s|
  {
    var lead := s[0];
    if lead < 0x80 then (1, true)
    else if 0xC2 <= lead <= 0xDF then
      if IsContinuation(At(s, 1)) then (2, true) else (1, false)
    else if 0xE0 <= lead <= 0xEF then
      if !SecondFits(lead, At(s, 1)) then (1, false)
      else if IsContinuation(At(s, 2)) then (3, true) else (2, false)
    else if 0xF0 <= lead <= 0xF4 then
      if !SecondFits(lead, At(s, 1)) then (1, false)
      else if !IsContinuation(At(s, 2)) then (2, false)
      else if IsContinuation(At(s, 3)) then (4, true) else (3, false)
    else (1, false)
  }

  function Lossy(s: bytes): bytes
    decreases |s|
  {
    if s == [] then [] else
      var (n, ok) := Scan(s);
      (if ok then s[..n] else REPLACEMENT) + Lossy(s[n..])
  }

  /** The conversion brings in no ASCII byte that was not there, CR in particular. */
  lemma {:induction false} LossyKeepsOut(s: bytes, c: byte)
    requires c < 0x80 && c !in s
    ensures c !in Lossy(s)
    decreases |s|
  {
    if s != [] {
      LossyKeepsOut(s[Scan(s).0..], c);
    }
  }

  /** Plain ASCII comes through unchanged. */
  lemma {:induction false} LossyAscii(s: bytes)
    requires forall i :: 0 <= i < |s| ==> s[i] < 0x80
    ensures Lossy(s) == s
    decreases |s|
  {
    if s != [] {
      LossyAscii(s[1..]);
    }
  }

  // ---- Against the encoding form --------------------------------------------------------------

  predicate IsScalar(c: nat) {
    c < 0xD800 || 0xE000 <= c < 0x11_0000
  }

  /** The UTF-8 bytes of a Unicode scalar value. */
  function CharBytes(c: nat): (r: bytes)
    requires IsScalar(c)
    ensures 1 <= |r| <= 4
  {
    if c < 0x80 then [c]
    else if c < 0x800 then [0xC0 + c / 64, 0x80 + c % 64]
    else if c < 0x1_0000 then [0xE0 + c / 4096, 0x80 + c / 64 % 64, 0x80 + c % 64]
    else [0xF0 + c / 262144, 0x80 + c / 4096 % 64, 0x80 + c / 64 % 64, 0x80 + c % 64]
  }

  /** `s` begins the bytes of some character. */
  ghost predicate BeginsChar(s: bytes) {
    exists c: nat :: IsScalar(c) && s <= CharBytes(c)
  }

  /** What the bytes of a character look like. */
  predicate Shaped(s: bytes) {
    || (|s| == 1 && s[0] < 0x80)
    || (|s| == 2 && 0xC2 <= s[0] <= 0xDF && IsContinuation(s[1]))
    || (|s| == 3 && 0xE0 <= s[0] <= 0xEF && SecondFits(s[0], s[1]) && IsContinuation(s[2]))
    || (|s| == 4 && 0xF0 <= s[0] <= 0xF4 && SecondFits(s[0], s[1]) && IsContinuation(s[2]) && IsContinuation(s[3]))
  }

  lemma CharIsShaped(c: nat)
    requires IsScalar(c)
    ensures Shaped(CharBytes(c))
  {
  }

  lemma Digits(x: nat, y: nat)
    requires y < 64
    ensures (64 * x + y) / 64 == x && (64 * x + y) % 64 == y
  {
  }

  /** Conversely such bytes are those of a character. */
  lemma ShapedIsChar(s: bytes) returns (c: nat)
    requires Shaped(s)
    ensures IsScalar(c) && CharBytes(c) == s
  {
    if |s| == 1 {
      c := s[0];
    } else if |s| == 2 {
      c := 64 * (s[0] as int - 0xC0) + (s[1] as int - 0x80);
    } else if |s| == 3 {
      c := ThreeBytes(s);
    } else {
      c := FourBytes(s);
    }
  }

  lemma ThreeBytes(s: bytes) returns (c: nat)
    requires Shaped(s) && |s| == 3
    ensures IsScalar(c) && CharBytes(c) == s
  {
    var a, x, y := s[0] as int - 0xE0, s[1] as int - 0x80, s[2] as int - 0x80;
    Digits(a, x);
    Digits(64 * a + x, y);
    c := 64 * (64 * a + x) + y;
    assert c / 4096 == a && c / 64 == 64 * a + x;
    assert 0x800 <= c < 0x1_0000;
  }

  lemma FourBytes(s: bytes) returns (c: nat)
    requires Shaped(s) && |s| == 4
    ensures IsScalar(c) && CharBytes(c) == s
  {
    var a, x, y, z := s[0] as int - 0xF0, s[1] as int - 0x80, s[2] as int - 0x80, s[3] as int - 0x80;
    Digits(a, x);
    Digits(64 * a + x, y);
    Digits(64 * (64 * a + x) + y, z);
    c := 64 * (64 * (64 * a + x) + y) + z;
    assert c / 262144 == a && c / 4096 == 64 * a + x && c / 64 == 64 * (64 * a + x) + y;
    assert 0x1_0000 <= c < 0x11_0000;
  }

  lemma ScanIff(s: bytes)
    requires s != []
    ensures Scan(s).1 <==> Shaped(s[..Scan(s).0])
    ensures forall k :: 1 <= k <= |s| && Shaped(s[..k]) ==> Scan(s) == (k, true)
  {
  }

  /** The scan goes at least as far as `s` agrees with some character. */
  lemma ScanReaches(s: bytes, t: bytes, k: nat)
    requires 1 <= k <= |s| && Shaped(t) && s[..k] <= t
    ensures Scan(s).0 >= k || Scan(s).1
  {
    forall i | 0 <= i < k ensures t[i] == s[i] {
      assert s[..k][i] == s[i];
    }
  }

  /** More than one byte scanned of a broken character begins one. */
  lemma BrokenBegins(s: bytes) returns (t: bytes)
    requires s != [] && !Scan(s).1 && Scan(s).0 > 1
    ensures Shaped(t) && s[..Scan(s).0] <= t
  {
    var n, lead := Scan(s).0, s[0];
    if n == 2 {
      t := [lead, s[1]] + if lead < 0xF0 then [0x80] else [0x80, 0x80];
    } else {
      t := [lead, s[1], s[2], 0x80];
    }
  }

  /** A character in front passes through as it is. */
  lemma LossyOfChar(c: nat, rest: bytes)
    requires IsScalar(c)
    ensures Lossy(CharBytes(c) + rest) == CharBytes(c) + Lossy(rest)
  {
    hide CharBytes, Scan, Shaped;
    var s := CharBytes(c) + rest;
    CharIsShaped(c);
    ScanIff(s);
    assert s[..|CharBytes(c)|] == CharBytes(c) && s[|CharBytes(c)|..] == rest;
  }

  /** Where no character is in front, one U+FFFD stands for the longest stretch that begins one, or for
      one byte when none does. */
  lemma LossyOfBroken(s: bytes)
    requires s != [] && forall c: nat :: IsScalar(c) ==> !(CharBytes(c) <= s)
    ensures exists n: nat ::
              && 1 <= n <= |s| && Lossy(s) == [0xEF, 0xBF, 0xBD] + Lossy(s[n..])
              && (n > 1 ==> BeginsChar(s[..n]))
              && (n < |s| ==> !BeginsChar(s[..n + 1]))
  {
    hide CharBytes, Scan, Shaped;
    var (n, ok) := Scan(s);
    ScanIff(s);
    if ok {
      var c := ShapedIsChar(s[..n]);
    }
    if n > 1 {
      var t := BrokenBegins(s);
      var c := ShapedIsChar(t);
      assert s[..n] <= CharBytes(c);
    }
    if n < |s| {
      forall c: nat | IsScalar(c) ensures !(s[..n + 1] <= CharBytes(c)) {
        CharIsShaped(c);
        if s[..n + 1] <= CharBytes(c) {
          ScanReaches(s, CharBytes(c), n + 1);
        }
      }
    }
  }
}
