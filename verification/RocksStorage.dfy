/** The storage object: a database handle and the two removal counters, changed in place. */
module RocksStorage {
  import opened Bytes
  import opened Command
  import opened Value
  import opened Store

  class RocksStorage {
    var db: Db
    var expiredRemoved: nat
    var compactionRemoved: nat

    constructor ()
      ensures db == map[] && expiredRemoved == 0 && compactionRemoved == 0
    {
      db, expiredRemoved, compactionRemoved := map[], 0, 0;
    }

    /** `now` is the reading of the clock at the expiry check. */
    method Get(key: bytes, now: u64) returns (r: Result<Option<StoredValue>, StorageError>)
      modifies this`db, this`expiredRemoved
      ensures r == Lookup(old(db), key, now)
      ensures db == AfterGet(old(db), key, now)
      ensures expiredRemoved == old(expiredRemoved) + if HoldsExpired(old(db), key, now) then 1 else 0
    {
      if key !in db {
        return Ok(None);
      }
      var decoded := Decode(db[key]);
      if decoded.Err? {
        return Err(decoded.error);
      }
      if IsExpired(decoded.value, now) {
        expiredRemoved := expiredRemoved + 1;
        db := db - {key};
        return Ok(None);
      }
      return Ok(Some(decoded.value));
    }

    /** `nows[i]` is the reading at the expiry check of `keys[i]`. On an undecodable entry the batch
        fails and nothing is removed. */
    method GetMulti(keys: seq<bytes>, nows: seq<u64>)
      returns (r: Result<seq<(bytes, Option<StoredValue>)>, StorageError>)
      requires |nows| == |keys|
      modifies this`db, this`expiredRemoved
      ensures BatchError(old(db), keys).Some? ==>
                r == Err(BatchError(old(db), keys).value) && db == old(db) && expiredRemoved == old(expiredRemoved)
      ensures BatchError(old(db), keys).None? ==>
                && r.Ok? && |r.value| == |keys|
                && (forall i :: 0 <= i < |keys| ==>
                      r.value[i] == (keys[i], BatchAnswers(old(db), keys, nows)[i]))
                && db == Without(old(db), ExpiredKeys(old(db), keys, nows))
                && expiredRemoved == old(expiredRemoved) + |ExpiredKeys(old(db), keys, nows)|
    {
      hide Decode, IsExpired;
      var raw := db;  // one multi_get
      var results: seq<(bytes, Option<StoredValue>)> := [];
      var expiredKeys: seq<bytes> := [];
      for i := 0 to |keys|
        invariant BatchError(raw, keys[..i]).None?
        invariant |results| == i
        invariant forall j :: 0 <= j < i ==> results[j] == (keys[j], Found(raw, keys[j], nows[j]))
        invariant expiredKeys == ExpiredKeys(raw, keys[..i], nows[..i])
      {
        assert keys[..i + 1][..i] == keys[..i] && nows[..i + 1][..i] == nows[..i];
        if keys[i] in raw {
          var decoded := Decode(raw[keys[i]]);
          if decoded.Err? {
            BatchErrorStays(raw, keys, i + 1);
            return Err(decoded.error);
          }
          if IsExpired(decoded.value, nows[i]) {
            expiredKeys := expiredKeys + [keys[i]];
            results := results + [(keys[i], None)];
          } else {
            results := results + [(keys[i], Some(decoded.value))];
          }
        } else {
          results := results + [(keys[i], None)];
        }
      }
      assert keys[..|keys|] == keys && nows[..|keys|] == nows;

      if expiredKeys != [] {
        expiredRemoved := expiredRemoved + |expiredKeys|;
        for i := 0 to |expiredKeys|
          invariant db == Without(raw, expiredKeys[..i])
          invariant expiredRemoved == old(expiredRemoved) + |expiredKeys|
        {
          assert expiredKeys[..i + 1] == expiredKeys[..i] + [expiredKeys[i]];
          db := db - {expiredKeys[i]};
        }
        assert expiredKeys[..|expiredKeys|] == expiredKeys;
      }
      return Ok(results);
    }

    method Set(key: bytes, value: StoredValue)
      modifies this`db
      ensures db == old(db)[key := Encoded(value)]
    {
      var encoded := Encode(value);
      db := db[key := encoded];
    }

    method Delete(key: bytes) returns (existed: bool)
      modifies this`db
      ensures existed == (key in old(db))
      ensures db == old(db) - {key}
    {
      existed := key in db;
      db := db - {key};
    }

    /** A compaction visits `key`: `ttl_compaction_filter` decides. */
    method Compact(key: bytes, now: u64)
      modifies this`db, this`compactionRemoved
      ensures db == AfterCompaction(old(db), key, now)
      ensures compactionRemoved == old(compactionRemoved) + |old(db)| - |db|
    {
      if key in db && |db[key]| >= 8 {
        var expireAt := FromLe(db[key][..8]);
        if expireAt != 0 && now >= expireAt {
          compactionRemoved := compactionRemoved + 1;
          db := db - {key};
          assert |old(db)| == |db| + 1 by {
            assert old(db).Keys == db.Keys + {key};
          }
        }
      }
    }
  }

  lemma {:induction false} BatchErrorStays(db: Db, keys: seq<bytes>, n: nat)
    requires n <= |keys| && BatchError(db, keys[..n]).Some?
    ensures BatchError(db, keys) == BatchError(db, keys[..n])
    decreases |keys|
  {
    if n < |keys| {
      var m := |keys| - 1;
      assert keys[..m][..n] == keys[..n];
      BatchErrorStays(db, keys[..m], n);
    } else {
      assert keys[..n] == keys;
    }
  }
}
