/** Stored values: binary layout `[8: expire_at][4: flags][data]`, little endian, and time to live. */
module Value {
  import opened Bytes
  import opened Command

  datatype StoredValue = StoredValue(expireAt: u64, flags: u32, data: bytes)

  datatype StorageError = Decoding(message: bytes)
  {
    function Text(): bytes {
      Ascii("Value decoding error: ") + message
    }
  }

  function Pow256(k: nat): nat {
    if k == 0 then 1 else 256 * Pow256(k - 1)
  }

  function ToLe(n: nat, k: nat): (r: bytes)
    ensures |r| == k
  {
    if k == 0 then [] else [n % 256] + ToLe(n / 256, k - 1)
  }

  function FromLe(b: bytes): (n: nat)
    ensures n < Pow256(|b|)
  {
    if b == [] then 0 else b[0] + 256 * FromLe(b[1..])
  }

  lemma {:induction false} FromToLe(n: nat, k: nat)
    requires n < Pow256(k)
    ensures FromLe(ToLe(n, k)) == n
  {
    if k > 0 {
      FromToLe(n / 256, k - 1);
      assert ToLe(n, k)[1..] == ToLe(n / 256, k - 1);
    }
  }

  lemma LowByte(n: nat, x: byte)
    ensures (x + 256 * n) % 256 == x && (x + 256 * n) / 256 == n
  {
  }

  lemma ToLeLow(n: nat, x: byte, k: nat)
    ensures ToLe(x + 256 * n, k + 1) == [x] + ToLe(n, k)
  {
    LowByte(n, x);
  }

  lemma {:induction false} ToFromLe(b: bytes)
    ensures ToLe(FromLe(b), |b|) == b
  {
    if b != [] {
      ToFromLe(b[1..]);
      ToLeLow(FromLe(b[1..]), b[0], |b| - 1);
      hide ToLe;
      assert b == [b[0]] + b[1..];
    }
  }

  lemma PowTimes(k: nat, x: nat)
    ensures Pow256(k + 1) * x == 256 * (Pow256(k) * x)
    ensures Pow256(0) * x == x
  {
  }

  lemma FromLeCons(x: byte, b: bytes)
    ensures FromLe([x] + b) == x + 256 * FromLe(b)
    ensures FromLe([x]) == x
  {
    assert ([x] + b)[1..] == b && [x][1..] == [];
  }

  /** Little endian: the last byte of a field weighs most, and one byte is its own number. */
  lemma {:induction false} HighByteLast(b: bytes, x: byte)
    ensures FromLe(b + [x]) == FromLe(b) + Pow256(|b|) * x
    ensures FromLe([x]) == x
  {
    FromLeCons(x, []);
    hide Pow256;
    if b == [] {
      PowTimes(0, x);
      assert b + [x] == [x];
    } else {
      HighByteLast(b[1..], x);
      PowTimes(|b| - 1, x);
      FromLeCons(b[0], b[1..] + [x]);
      FromLeCons(b[0], b[1..]);
      hide FromLe;
      assert b + [x] == [b[0]] + (b[1..] + [x]) && b == [b[0]] + b[1..];
    }
  }

  lemma FieldWidths()
    ensures Pow256(4) == U32_MAX + 1 && Pow256(8) == U64_MAX + 1
  {
    assert Pow256(2) == 65536;
    assert Pow256(4) == 65536 * Pow256(2);
    assert Pow256(6) == 65536 * Pow256(4);
    assert Pow256(8) == 65536 * Pow256(6);
  }

  function Encoded(v: StoredValue): (r: bytes)
    ensures |r| == 12 + |v.data|
  {
    ToLe(v.expireAt, 8) + ToLe(v.flags, 4) + v.data
  }

  /** `encode`, which fills a growing buffer. */
  method Encode(v: StoredValue) returns (buf: bytes)
    ensures buf == Encoded(v)
  {
    buf := [];
    buf := buf + ToLe(v.expireAt, 8);
    buf := buf + ToLe(v.flags, 4);
    buf := buf + v.data;
  }

  /** Where the parts of an encoding lie: expiry in the first 8 bytes, flags in the next 4, then data. */
  lemma EncodedLayout(v: StoredValue)
    ensures FromLe(Encoded(v)[..8]) == v.expireAt
    ensures FromLe(Encoded(v)[8..12]) == v.flags
    ensures Encoded(v)[12..] == v.data
  {
    FieldWidths();
    FromToLe(v.expireAt, 8);
    FromToLe(v.flags, 4);
    hide ToLe, FromLe;
    var b := Encoded(v);
    assert b[..8] == ToLe(v.expireAt, 8) && b[8..12] == ToLe(v.flags, 4) && b[12..] == v.data;
  }

  function Decode(b: bytes): Result<StoredValue, StorageError> {
    if |b| < 12 then Err(Decoding(Ascii("Value too short to decode"))) else
      FieldWidths();
      Ok(StoredValue(FromLe(b[..8]), FromLe(b[8..12]), b[12..]))
  }

  /** Encoding loses nothing... */
  lemma DecodeEncoded(v: StoredValue)
    ensures Decode(Encoded(v)) == Ok(v)
  {
    EncodedLayout(v);
    hide FromLe;
  }

  /** ...and reaches every byte string that decodes, which is every one of at least 12 bytes. */
  lemma EncodedDecode(b: bytes)
    ensures Decode(b).Ok? <==> |b| >= 12
    ensures Decode(b).Ok? ==> Encoded(Decode(b).value) == b
  {
    hide ToLe, FromLe;
    if |b| >= 12 {
      ToFromLe(b[..8]);
      ToFromLe(b[8..12]);
      assert b == b[..8] + b[8..12] + b[12..];
    }
  }

  // ---- Time to live ---------------------------------------------------------------------------

  const MAX_RELATIVE_TTL: nat := 2_592_000

  predicate IsExpired(v: StoredValue, now: u64) {
    v.expireAt != 0 && now >= v.expireAt
  }

  /** `calculate_expire_at`, with the clock reading passed in; the addition saturates. */
  function ExpireAt(exptime: u64, now: u64): u64 {
    if exptime == 0 then 0
    else if exptime <= MAX_RELATIVE_TTL then
      if now + exptime > U64_MAX then U64_MAX else now + exptime
    else exptime
  }

  function NewValue(flags: u32, exptime: u64, data: bytes, now: u64): StoredValue {
    StoredValue(ExpireAt(exptime, now), flags, data)
  }

  /** The lifetime a client asked for: is a value set at `set` with `exptime` visible at `now`? */
  predicate Visible(exptime: u64, set_: u64, now: u64) {
    || exptime == 0
    || (1 <= exptime <= 2592000 && now < set_ + exptime && now < U64_MAX)
    || (exptime > 2592000 && now < exptime)
  }

  lemma ExpiryMatchesRequest(flags: u32, exptime: u64, data: bytes, set_: u64, now: u64)
    ensures !IsExpired(NewValue(flags, exptime, data, set_), now) <==> Visible(exptime, set_, now)
    ensures NewValue(flags, exptime, data, set_).expireAt == 0 <==> exptime == 0
  {
  }

  /** `ttl_compaction_filter`, which looks at raw bytes only. */
  predicate FilterRemoves(raw: bytes, now: u64) {
    |raw| >= 8 && FromLe(raw[..8]) != 0 && now >= FromLe(raw[..8])
  }

  /** On a decodable entry the filter removes exactly what a get would call expired. */
  lemma FilterIffExpired(raw: bytes, now: u64)
    requires Decode(raw).Ok?
    ensures FilterRemoves(raw, now) <==> IsExpired(Decode(raw).value, now)
  {
  }
}
