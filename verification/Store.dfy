/** The TTL store over an abstract key-value database: what each operation answers and leaves. */
module Store {
  import opened Bytes
  import opened Command
  import opened Value

  type Db = map<bytes, bytes>

  /** Every entry decodes. */
  predicate Decodable(db: Db) {
    forall k :: k in db ==> Decode(db[k]).Ok?
  }

  /** The entry under `key` is there and past its time. */
  predicate HoldsExpired(db: Db, key: bytes, now: u64) {
    key in db && Decode(db[key]).Ok? && IsExpired(Decode(db[key]).value, now)
  }

  function Lookup(db: Db, key: bytes, now: u64): Result<Option<StoredValue>, StorageError> {
    if key !in db then Ok(None)
    else match Decode(db[key])
      case Err(e) => Err(e)
      case Ok(v) => Ok(if IsExpired(v, now) then None else Some(v))
  }

  /** Lazy expiration: a get drops the entry it finds expired. */
  function AfterGet(db: Db, key: bytes, now: u64): Db {
    if HoldsExpired(db, key, now) then db - {key} else db
  }

  /** Keys found expired in one batch, in order, repeats included. */
  function ExpiredKeys(db: Db, keys: seq<bytes>, nows: seq<u64>): seq<bytes>
    requires |nows| == |keys|
  {
    if keys == [] then [] else
      var n := |keys| - 1;
      ExpiredKeys(db, keys[..n], nows[..n])
      + (if HoldsExpired(db, keys[n], nows[n]) then [keys[n]] else [])
  }

  /** The entry of the first key in the batch that does not decode, if any. */
  function BatchError(db: Db, keys: seq<bytes>): Option<StorageError> {
    if keys == [] then None
    else
      var n := |keys| - 1;
      var earlier := BatchError(db, keys[..n]);
      if earlier.Some? then earlier
      else if keys[n] in db && Decode(db[keys[n]]).Err? then Some(Decode(db[keys[n]]).error)
      else None
  }

  function Found(db: Db, key: bytes, now: u64): Option<StoredValue> {
    match Lookup(db, key, now)
    case Ok(v) => v
    case Err(_) => None
  }

  /** The answers of a batch, each key looked up in the same database. */
  function BatchAnswers(db: Db, keys: seq<bytes>, nows: seq<u64>): (r: seq<Option<StoredValue>>)
    requires |nows| == |keys|
    ensures |r| == |keys|
  {
    seq(|keys|, i requires 0 <= i < |keys| => Found(db, keys[i], nows[i]))
  }

  function Without(db: Db, keys: seq<bytes>): Db {
    map k | k in db && k !in keys :: db[k]
  }

  /** `set` stores the encoding of a value stamped with the clock. */
  function AfterSet(db: Db, key: bytes, flags: u32, exptime: u64, data: bytes, now: u64): Db {
    db[key := Encoded(NewValue(flags, exptime, data, now))]
  }

  /** A compaction visits one entry. */
  function AfterCompaction(db: Db, key: bytes, now: u64): Db {
    if key in db && FilterRemoves(db[key], now) then db - {key} else db
  }

  // ---- One entry at one time --------------------------------------------------------------------

  /** An encoded entry lives or has expired, and everything that looks at it agrees: an expired one
      is not found, a get drops it and a compaction drops it; a living one is found and both leave it. */
  lemma EntryOutcome(db: Db, key: bytes, v: StoredValue, now: u64)
    requires key in db && db[key] == Encoded(v)
    ensures var expired := v.expireAt != 0 && v.expireAt <= now;
            && (HoldsExpired(db, key, now) <==> expired)
            && Lookup(db, key, now) == Ok(if expired then None else Some(v))
            && AfterGet(db, key, now) == (if expired then db - {key} else db)
            && AfterCompaction(db, key, now) == (if expired then db - {key} else db)
  {
    DecodeEncoded(v);
    FilterIffExpired(db[key], now);
  }

  /** A compaction reads the first 8 bytes of any entry as its expiry, whether or not the rest decodes;
      entries shorter than that stay. */
  lemma CompactionOutcome(db: Db, key: bytes, expireAt: u64, rest: bytes, now: u64)
    ensures key in db && db[key] == ToLe(expireAt, 8) + rest ==>
              AfterCompaction(db, key, now) == if expireAt != 0 && expireAt <= now then db - {key} else db
    ensures key !in db || |db[key]| < 8 ==> AfterCompaction(db, key, now) == db
  {
    FieldWidths();
    FromToLe(expireAt, 8);
    hide FromLe, ToLe;
    if key in db && db[key] == ToLe(expireAt, 8) + rest {
      assert db[key][..8] == ToLe(expireAt, 8);
    }
  }

  // ---- Batched and one-by-one reads -----------------------------------------------------------

  datatype Reads = Reads(answers: seq<Option<StoredValue>>, db: Db, removed: nat, failed: Option<StorageError>)

  /** The simple form of a batched read: one get after another, up to the first that fails. */
  function OneByOne(db: Db, keys: seq<bytes>, nows: seq<u64>): Reads
    requires |nows| == |keys|
  {
    if keys == [] then Reads([], db, 0, None) else
      var n := |keys| - 1;
      var r := OneByOne(db, keys[..n], nows[..n]);
      if r.failed.Some? then r
      else match Lookup(r.db, keys[n], nows[n])
        case Err(e) => r.(failed := Some(e))
        case Ok(v) =>
          r.(answers := r.answers + [v], db := AfterGet(r.db, keys[n], nows[n]),
             removed := r.removed + if HoldsExpired(r.db, keys[n], nows[n]) then 1 else 0)
  }

  predicate NonDecreasing(nows: seq<u64>) {
    forall i, j :: 0 <= i < j < |nows| ==> nows[i] <= nows[j]
  }

  predicate Distinct(keys: seq<bytes>) {
    forall i, j :: 0 <= i < j < |keys| ==> keys[i] != keys[j]
  }

  lemma {:induction false} ExpiredKeysAreIn(db: Db, keys: seq<bytes>, nows: seq<u64>, k: bytes)
    requires |nows| == |keys| && NonDecreasing(nows)
    requires k in ExpiredKeys(db, keys, nows)
    ensures k in keys && k in db && HoldsExpired(db, k, nows[|nows| - 1])
  {
    var n := |keys| - 1;
    if k in ExpiredKeys(db, keys[..n], nows[..n]) {
      ExpiredKeysAreIn(db, keys[..n], nows[..n], k);
    }
  }

  lemma RemovedStayMissing(db: Db, expired: seq<bytes>, key: bytes, now: u64)
    requires key in expired ==> HoldsExpired(db, key, now)
    ensures var left := Without(db, expired);
            && Lookup(left, key, now) == Lookup(db, key, now)
            && (HoldsExpired(left, key, now) <==> HoldsExpired(db, key, now) && key !in expired)
            && AfterGet(left, key, now)
               == Without(db, expired + if HoldsExpired(db, key, now) then [key] else [])
  {
    hide Decode, IsExpired;
  }

  /** A batch of one more key fails as the lookup of that key does. */
  lemma BatchErrorNext(db: Db, keys: seq<bytes>, now: u64)
    requires keys != [] && BatchError(db, keys[..|keys| - 1]).None?
    ensures BatchError(db, keys) ==
            match Lookup(db, keys[|keys| - 1], now) case Err(e) => Some(e) case Ok(_) => None
  {
    hide Decode, IsExpired;
  }

  /** A batched read fails exactly when successive gets do, with the same error. Otherwise it answers
      as they do and leaves the same database; its removal count can only differ upwards, and not at
      all when the keys are distinct. */
  lemma {:induction false} BatchAgreesWithOneByOne(db: Db, keys: seq<bytes>, nows: seq<u64>)
    requires |nows| == |keys| && NonDecreasing(nows)
    ensures var r := OneByOne(db, keys, nows);
            && r.failed == BatchError(db, keys)
            && (r.failed.None? ==>
                  && r.answers == BatchAnswers(db, keys, nows)
                  && r.db == Without(db, ExpiredKeys(db, keys, nows))
                  && r.removed <= |ExpiredKeys(db, keys, nows)|
                  && (Distinct(keys) ==> r.removed == |ExpiredKeys(db, keys, nows)|))
  {
    hide Lookup, Found, AfterGet, HoldsExpired, BatchAnswers, Without;
    if keys == [] {
      NothingAsked(db);
    } else {
      var n := |keys| - 1;
      var expired := ExpiredKeys(db, keys[..n], nows[..n]);
      BatchAgreesWithOneByOne(db, keys[..n], nows[..n]);
      if BatchError(db, keys[..n]).None? {
        if keys[n] in expired {
          ExpiredKeysAreIn(db, keys[..n], nows[..n], keys[n]);
          ExpiredStaysExpired(db, keys[n], nows[n - 1], nows[n]);
        }
        RemovedStayMissing(db, expired, keys[n], nows[n]);
        BatchErrorNext(db, keys, nows[n]);
        BatchAnswersNext(db, keys, nows);
        if Lookup(db, keys[n], nows[n]).Ok? {
          FoundIsLookup(db, keys[n], nows[n]);
        }
      }
    }
  }

  lemma FoundIsLookup(db: Db, key: bytes, now: u64)
    requires Lookup(db, key, now).Ok?
    ensures Found(db, key, now) == Lookup(db, key, now).value
  {
  }

  /** The two forms part only where they fail: the batch then removes nothing, while the successive
      gets have already dropped the expired entries they met. */
  lemma FailedReadsDiffer(db: Db, key: bytes, bad: bytes, now: u64)
    requires HoldsExpired(db, key, now) && bad in db && Decode(db[bad]).Err?
    ensures BatchError(db, [key, bad]).Some? && OneByOne(db, [key, bad], [now, now]).db == db - {key}
  {
    hide Decode, IsExpired;
    assert [key, bad][..1] == [key] && [now, now][..1] == [now] && [key][..0] == [] && [now][..0] == [];
    assert OneByOne(db, [key], [now]).db == db - {key};
  }

  lemma NothingAsked(db: Db)
    ensures BatchAnswers(db, [], []) == [] && Without(db, []) == db
  {
  }

  lemma BatchAnswersNext(db: Db, keys: seq<bytes>, nows: seq<u64>)
    requires |nows| == |keys| && keys != []
    ensures var n := |keys| - 1;
            BatchAnswers(db, keys, nows) ==
            BatchAnswers(db, keys[..n], nows[..n]) + [Found(db, keys[n], nows[n])]
  {
    hide Found;
  }

  /** A batched read removes exactly the entries it was asked for and found expired. */
  lemma {:induction false} BatchRemovesExpired(db: Db, keys: seq<bytes>, nows: seq<u64>, k: bytes)
    requires |nows| == |keys|
    ensures k in ExpiredKeys(db, keys, nows) <==>
            exists i :: 0 <= i < |keys| && keys[i] == k && HoldsExpired(db, k, nows[i])
    ensures k in Without(db, ExpiredKeys(db, keys, nows)) <==>
            k in db && forall i :: 0 <= i < |keys| && keys[i] == k ==> !HoldsExpired(db, k, nows[i])
  {
    hide HoldsExpired;
    if keys != [] {
      var n := |keys| - 1;
      BatchRemovesExpired(db, keys[..n], nows[..n], k);
      assert forall i :: 0 <= i < n ==> keys[..n][i] == keys[i] && nows[..n][i] == nows[i];
    }
  }

  lemma ExpiredStaysExpired(db: Db, key: bytes, now: u64, later: u64)
    requires HoldsExpired(db, key, now) && now <= later
    ensures HoldsExpired(db, key, later)
  {
  }
}
