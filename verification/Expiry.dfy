/** What lazy expiry and compaction physically remove, and what they count, in whole runs; and how a
    get fails. */
module Expiry {
  import opened Bytes
  import opened Command
  import opened Value
  import opened Store
  import opened StoreRefinement
  import opened Response
  import opened Handler
  import opened ServerRun

  /** The positions of `keys` whose entry is there and has expired at its reading of the clock. */
  function ExpiredPositions(db: Db, keys: seq<bytes>, nows: seq<u64>): set<nat>
    requires |nows| == |keys|
  {
    set p: nat | p < |keys| && HoldsExpired(db, keys[p], nows[p])
  }

  lemma {:induction false} ExpiredKeysCount(db: Db, keys: seq<bytes>, nows: seq<u64>)
    requires |nows| == |keys|
    ensures |ExpiredKeys(db, keys, nows)| == |ExpiredPositions(db, keys, nows)|
  {
    hide HoldsExpired;
    if keys != [] {
      var n := |keys| - 1;
      ExpiredKeysCount(db, keys[..n], nows[..n]);
      assert ExpiredPositions(db, keys, nows) ==
        ExpiredPositions(db, keys[..n], nows[..n]) + if HoldsExpired(db, keys[n], nows[n]) then {n} else {};
    } else {
      assert ExpiredPositions(db, keys, nows) == {};
    }
  }

  /** In an honest store the entries that have expired are those the reference no longer shows. */
  lemma ExpiredIffNotLive(db: Db, m: Reference, t: u64, key: bytes, now: u64)
    requires Simulates(db, m, t)
    ensures HoldsExpired(db, key, now) <==> key in db && Live(m, key, now) == None
  {
    if key in db {
      EntryOutcome(db, key, m[key], now);
    }
  }

  lemma ExecGetParts(s: ServerState, keys: seq<bytes>, clock: Clock)
    requires BatchError(s.db, keys).None?
    ensures var s', expired := ExecGet(s, keys, clock).0, ExpiredKeys(s.db, keys, Sample(clock, s.tick, |keys|));
            s'.db == Without(s.db, expired) && s'.expiredRemoved == s.expiredRemoved + |expired|
  {
    hide BatchError, Without, ExpiredKeys, Sample, ItemsFor;
  }

  /** The positions that have expired are those the reference shows nothing for. */
  lemma PositionsNotLive(s: ServerState, m: Reference, keys: seq<bytes>, clock: Clock, t: u64)
    requires Simulates(s.db, m, t)
    ensures var nows := Sample(clock, s.tick, |keys|);
            && (forall p: nat :: p < |keys| ==>
                  (HoldsExpired(s.db, keys[p], nows[p]) <==>
                   keys[p] in s.db && Live(m, keys[p], clock(s.tick + p)) == None))
            && ExpiredPositions(s.db, keys, nows) ==
               set p: nat | p < |keys| && keys[p] in s.db && Live(m, keys[p], clock(s.tick + p)) == None
  {
    hide HoldsExpired, Live, Simulates;
    var nows := Sample(clock, s.tick, |keys|);
    forall p: nat | p < |keys|
      ensures HoldsExpired(s.db, keys[p], nows[p]) <==>
              keys[p] in s.db && Live(m, keys[p], clock(s.tick + p)) == None
    {
      ExpiredIffNotLive(s.db, m, t, keys[p], nows[p]);
    }
  }

  /** In every run: a get leaves of the keys it asks for exactly the entries the reference still shows at
      each of its readings, touches no other key, and counts one removal for each asked position whose
      entry it found expired. */
  lemma GetRemovesExpired(w: World, steps: seq<Step>, clock: Clock, keys: seq<bytes>, k: bytes)
    requires Reachable(w, steps, clock) && Monotone(clock)
    ensures var s, s' := w.server, ExecGet(w.server, keys, clock).0;
            && (k in s'.db <==>
                  && k in s.db
                  && forall p: nat :: p < |keys| && keys[p] == k ==> Live(w.reference, k, clock(s.tick + p)).Some?)
            && (k in s'.db ==> s'.db[k] == s.db[k])
            && s'.expiredRemoved == s.expiredRemoved
               + |set p: nat | p < |keys| && keys[p] in s.db && Live(w.reference, keys[p], clock(s.tick + p)) == None|
  {
    hide Reachable, Monotone, CountersOk, LogOk, LastTime, HoldsExpired, Live, ExecGet, Simulates, ExpiredPositions,
      ExpiredKeys, BatchError;
    ReachableServer(w, steps, clock);
    var s, t := w.server, LastTime(clock, w.server.tick);
    var nows := Sample(clock, s.tick, |keys|);
    NoBatchError(s.db, w.reference, t, keys);
    ExecGetParts(s, keys, clock);
    BatchRemovesExpired(s.db, keys, nows, k);
    ExpiredKeysCount(s.db, keys, nows);
    PositionsNotLive(s, w.reference, keys, clock, t);
  }

  /** In every run: a compaction that visits an entry removes it exactly when the reference no longer
      shows it, counts it then, and touches nothing else. */
  lemma CompactionRemovesExpired(w: World, steps: seq<Step>, clock: Clock, key: bytes)
    requires Reachable(w, steps, clock) && Monotone(clock) && Enabled(w, Compaction(key))
    ensures var w' := Next(w, Compaction(key), clock);
            var dead := key in w.server.db && Live(w.reference, key, clock(w.server.tick)) == None;
            && w'.server.db == (if dead then w.server.db - {key} else w.server.db)
            && w'.server.compactionRemoved == w.server.compactionRemoved + (if dead then 1 else 0)
            && w'.reference == w.reference && w'.log == w.log && w'.sessions == w.sessions
  {
    hide Reachable, Monotone, CountersOk, LogOk, LastTime;
    ReachableServer(w, steps, clock);
    if key in w.server.db {
      EntryOutcome(w.server.db, key, w.reference[key], clock(w.server.tick));
    }
  }

  /** A get fails exactly when some key it asks for has an entry too short to decode. It then removes
      nothing, counts one storage error, no hit and no miss, and answers with the one error there is. */
  lemma GetFailsIff(s: ServerState, keys: seq<bytes>, clock: Clock)
    ensures var (s', reply) := ExecGet(s, keys, clock);
            var fails := exists p :: 0 <= p < |keys| && keys[p] in s.db && |s.db[keys[p]]| < 12;
            && (if fails then reply == ServerError(BAD_ENTRY.Text()) else reply.Values?)
            && (fails ==> s' == s.(tick := s.tick + |keys|, storageErrors := s.storageErrors + 1))
            && s'.storageErrors == s.storageErrors + if fails then 1 else 0
  {
    hide ItemsFor, Sample, StorageError.Text;
    BatchErrorIff(s.db, keys);
  }

  const BAD_ENTRY := Decoding(Ascii("Value too short to decode"))

  lemma {:induction false} BatchErrorIff(db: Db, keys: seq<bytes>)
    ensures BatchError(db, keys) ==
            if exists p :: 0 <= p < |keys| && keys[p] in db && |db[keys[p]]| < 12 then Some(BAD_ENTRY) else None
  {
    hide Ascii, FromLe;
    if keys != [] {
      var n := |keys| - 1;
      BatchErrorIff(db, keys[..n]);
      assert forall p :: 0 <= p < n ==> keys[..n][p] == keys[p];
    }
  }
}
