/** Unsigned decimal numbers as text: `itoa` on the way out, Rust's `FromStr` on the way in. */
module Decimal {
  import opened Bytes

  const PLUS: byte := 43
  const ZERO: byte := 48

  predicate AllDigits(s: bytes) {
    forall i :: 0 <= i < |s| ==> ZERO <= s[i] <= ZERO + 9
  }

  function Value(digits: bytes): nat
    requires AllDigits(digits)
  {
    if digits == [] then 0 else Value(digits[..|digits| - 1]) * 10 + (digits[|digits| - 1] - ZERO)
  }

  /** The shortest decimal text of `n`. */
  function Format(n: nat): (r: bytes)
    ensures |r| > 0 && AllDigits(r)
    ensures Value(r) == n
    ensures |r| > 1 ==> r[0] != ZERO
  {
    if n < 10 then [ZERO + n] else
      var head := Format(n / 10);
      var r := head + [ZERO + n % 10];
      assert r[..|r| - 1] == head;
      r
  }

  /** Rust's `FromStr` for an unsigned type with greatest value `max`: one optional `+`, then at
      least one digit, nothing else; leading zeros are fine, values above `max` are refused. */
  function Parse(s: bytes, max: nat): (r: Option<nat>)
    ensures r.Some? ==> r.value <= max
  {
    var digits := if s != [] && s[0] == PLUS then s[1..] else s;
    if digits == [] || !AllDigits(digits) || Value(digits) > max then None else Some(Value(digits))
  }

  /** Whatever the server prints it can read back, within the range of the field. */
  lemma ParseFormat(n: nat, max: nat)
    ensures Parse(Format(n), max) == if n <= max then Some(n) else None
    ensures SPACE !in Format(n) && CR !in Format(n)
  {
    var s := Format(n);
    assert s[0] != PLUS;
  }

  // ---- Which texts are numbers ----------------------------------------------------------------

  function Zeros(k: nat): (z: bytes)
    ensures |z| == k && AllDigits(z)
  {
    seq(k, _ => ZERO)
  }

  /** The texts of `n`: an optional `+`, any number of zeros, the shortest decimal text. */
  ghost predicate IsTextOf(s: bytes, n: nat) {
    exists plus: bool, k: nat :: s == Text(plus, k, n)
  }

  function Text(plus: bool, k: nat, n: nat): bytes {
    (if plus then [43] else []) + Zeros(k) + Format(n)
  }

  lemma {:induction false} ZerosAddNothing(k: nat, digits: bytes)
    requires AllDigits(digits)
    ensures AllDigits(Zeros(k) + digits) && Value(Zeros(k) + digits) == Value(digits)
    decreases |digits|, k
  {
    var s := Zeros(k) + digits;
    if digits != [] {
      var n := |digits| - 1;
      ZerosAddNothing(k, digits[..n]);
      assert s[..|s| - 1] == Zeros(k) + digits[..n];
    } else if k > 0 {
      ZerosAddNothing(k - 1, digits);
      assert s[..|s| - 1] == Zeros(k - 1) + digits;
    }
  }

  lemma FormatAppends(n: nat, d: nat)
    requires d < 10
    ensures n > 0 ==> Format(n * 10 + d) == Format(n) + [ZERO + d]
    ensures n == 0 ==> Format(n * 10 + d) == [ZERO + d]
  {
    hide Value;
    var m := n * 10 + d;
    assert m / 10 == n && m % 10 == d;
  }

  lemma ValueAppends(head: bytes, last: byte)
    requires AllDigits(head) && ZERO <= last <= ZERO + 9
    ensures Value(head + [last]) == Value(head) * 10 + (last - ZERO)
  {
    var s := head + [last];
    assert s[..|s| - 1] == head && s[|s| - 1] == last;
  }

  lemma AppendDigit(head: bytes, last: byte)
    requires AllDigits(head) && ZERO <= last <= ZERO + 9
    ensures Value(head) > 0 ==> Format(Value(head + [last])) == Format(Value(head)) + [last]
    ensures Value(head) == 0 ==> Format(Value(head + [last])) == [last]
  {
    hide Format, Value;
    ValueAppends(head, last);
    FormatAppends(Value(head), last - ZERO);
  }

  /** A digit string is the shortest text of its value after some zeros. */
  lemma {:induction false} DigitsAreText(digits: bytes) returns (k: nat)
    requires digits != [] && AllDigits(digits)
    ensures digits == Zeros(k) + Format(Value(digits))
  {
    var n := |digits| - 1;
    var head, last := digits[..n], digits[n];
    assert digits == head + [last];
    AppendDigit(head, last);
    if n == 0 {
      k := 0;
    } else {
      k := DigitsAreText(head);
      if Value(head) == 0 {
        hide Value;
        assert Format(0) == [ZERO];
        assert head == Zeros(k + 1);
        k := k + 1;
      } else {
        hide Value, Format, Zeros;
        assert head + [last] == Zeros(k) + (Format(Value(head)) + [last]);
      }
    }
  }

  lemma TextParts(plus: bool, k: nat, n: nat)
    ensures Text(plus, k, n) == (if plus then [PLUS] else []) + (Zeros(k) + Format(n))
  {
    hide Format, Zeros;
  }

  lemma ParsedIsText(s: bytes, max: nat, n: nat)
    requires Parse(s, max) == Some(n)
    ensures n <= max && IsTextOf(s, n)
  {
    hide Format, Value, Zeros, Text, AllDigits;
    var plus := s[0] == PLUS;
    var digits := if plus then s[1..] else s;
    var k := DigitsAreText(digits);
    TextParts(plus, k, n);
    if plus {
      assert s == [PLUS] + digits;
    } else {
      assert s == [] + digits;
    }
  }

  /** The numbers a field accepts, and no others. */
  lemma ParseIff(s: bytes, max: nat, n: nat)
    ensures Parse(s, max) == Some(n) <==> n <= max && IsTextOf(s, n)
  {
    hide Parse, Text;
    if Parse(s, max) == Some(n) {
      ParsedIsText(s, max, n);
    }
    if n <= max && IsTextOf(s, n) {
      var plus: bool, k: nat :| s == Text(plus, k, n);
      ParseText(plus, k, n, max);
    }
  }

  lemma ParseText(plus: bool, k: nat, n: nat, max: nat)
    requires n <= max
    ensures Parse(Text(plus, k, n), max) == Some(n)
  {
    hide Value, Format, Zeros;
    var s, digits := Text(plus, k, n), Zeros(k) + Format(n);
    ZerosAddNothing(k, Format(n));
    assert digits[0] != PLUS;
    if plus {
      assert s[1..] == digits;
    } else {
      assert s == digits;
    }
  }
}
