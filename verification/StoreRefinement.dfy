/** The store against a plain map that never forgets: lazy expiry and compaction cannot be seen. */
module StoreRefinement {
  import opened Bytes
  import opened Command
  import opened Value
  import opened Store

  /** Atomic operations with their clock readings. `DeleteOp.now` is the time of the delete, which
      the code does not read. */
  datatype Op =
    | SetOp(key: bytes, flags: u32, exptime: u64, data: bytes, now: u64)
    | GetOp(key: bytes, now: u64)
    | GetMultiOp(keys: seq<bytes>, nows: seq<u64>)
    | DeleteOp(key: bytes, now: u64)
    | CompactOp(key: bytes, now: u64)
  {
    function Times(): seq<u64> {
      if GetMultiOp? then nows else [now]
    }
  }

  datatype Answer =
    | Stored
    | Got(value: Option<StoredValue>)
    | GotMany(values: seq<Option<StoredValue>>)
    | Existed(existed: bool)
    | Silent
    | Failed

  predicate WellTimed(op: Op, t: u64) {
    && (op.GetMultiOp? ==> |op.nows| == |op.keys|)
    && NonDecreasing(op.Times())
    && forall i :: 0 <= i < |op.Times()| ==> t <= op.Times()[i]
  }

  function TimeAfter(op: Op, t: u64): u64 {
    if op.Times() == [] then t else op.Times()[|op.Times()| - 1]
  }

  /** The store as it is. */
  function Apply(db: Db, op: Op): (Db, Answer)
    requires op.GetMultiOp? ==> |op.nows| == |op.keys|
  {
    match op
    case SetOp(key, flags, exptime, data, now) =>
      (AfterSet(db, key, flags, exptime, data, now), Stored)
    case GetOp(key, now) =>
      (AfterGet(db, key, now), if Lookup(db, key, now).Ok? then Got(Lookup(db, key, now).value) else Failed)
    case GetMultiOp(keys, nows) =>
      if BatchError(db, keys).Some? then (db, Failed)
      else (Without(db, ExpiredKeys(db, keys, nows)), GotMany(BatchAnswers(db, keys, nows)))
    case DeleteOp(key, _) => (db - {key}, Existed(key in db))
    case CompactOp(key, now) => (AfterCompaction(db, key, now), Silent)
  }

  // ---- The reference --------------------------------------------------------------------------

  type Reference = map<bytes, StoredValue>

  function Live(m: Reference, key: bytes, now: u64): Option<StoredValue> {
    if key in m && !IsExpired(m[key], now) then Some(m[key]) else None
  }

  /** Only sets and deletes change the reference. */
  function Advance(m: Reference, op: Op): Reference {
    match op
    case SetOp(key, flags, exptime, data, now) => m[key := NewValue(flags, exptime, data, now)]
    case DeleteOp(key, _) => m - {key}
    case _ => m
  }

  /** The answers the reference allows; only a delete of an expired key leaves a choice. */
  predicate Allows(m: Reference, op: Op, a: Answer) {
    match op
    case SetOp(_, _, _, _, _) => a == Stored
    case GetOp(key, now) => a == Got(Live(m, key, now))
    case GetMultiOp(keys, nows) =>
      && |nows| == |keys|
      && a.GotMany? && |a.values| == |keys|
      && forall i :: 0 <= i < |keys| ==> a.values[i] == Live(m, keys[i], nows[i])
    case DeleteOp(key, now) =>
      && a.Existed?
      && (Live(m, key, now).Some? ==> a.existed)
      && (key !in m ==> !a.existed)
    case CompactOp(_, _) => a == Silent
  }

  // ---- Simulation -----------------------------------------------------------------------------

  /** The database holds exactly the reference's entries, less some that are expired by `now`. */
  ghost predicate Simulates(db: Db, m: Reference, now: u64) {
    && (forall k :: k in db ==> k in m && db[k] == Encoded(m[k]))
    && (forall k :: k in m && k !in db ==> IsExpired(m[k], now))
  }

  lemma SimulatesEntry(db: Db, m: Reference, t: u64, key: bytes, now: u64)
    requires Simulates(db, m, t) && t <= now
    ensures Lookup(db, key, now) == Ok(Live(m, key, now))
    ensures HoldsExpired(db, key, now) ==> IsExpired(m[key], now)
    ensures key in db ==> Decode(db[key]) == Ok(m[key])
  {
    if key in db {
      DecodeEncoded(m[key]);
    }
  }

  lemma SimulatesLater(db: Db, m: Reference, t: u64, now: u64)
    requires Simulates(db, m, t) && t <= now
    ensures Simulates(db, m, now)
  {
  }

  lemma {:induction false} NoBatchError(db: Db, m: Reference, t: u64, keys: seq<bytes>)
    requires Simulates(db, m, t)
    ensures BatchError(db, keys).None?
  {
    if keys != [] {
      NoBatchError(db, m, t, keys[..|keys| - 1]);
      SimulatesEntry(db, m, t, keys[|keys| - 1], t);
    }
  }

  lemma BatchSimulates(db: Db, m: Reference, t: u64, op: Op)
    requires op.GetMultiOp? && WellTimed(op, t) && Simulates(db, m, t)
    ensures Allows(m, op, Apply(db, op).1)
    ensures Simulates(Apply(db, op).0, m, TimeAfter(op, t))
  {
    hide IsExpired, Encoded, Lookup;
    NoBatchError(db, m, t, op.keys);
    forall i | 0 <= i < |op.keys| ensures Found(db, op.keys[i], op.nows[i]) == Live(m, op.keys[i], op.nows[i]) {
      SimulatesEntry(db, m, t, op.keys[i], op.nows[i]);
    }
    var now := TimeAfter(op, t);
    SimulatesLater(db, m, t, now);
    forall k | k in ExpiredKeys(db, op.keys, op.nows) ensures k in m && IsExpired(m[k], now) {
      ExpiredKeysAreIn(db, op.keys, op.nows, k);
      SimulatesEntry(db, m, t, k, now);
    }
  }

  /** One operation: the answer is allowed and the simulation goes on. */
  lemma StepSimulates(db: Db, m: Reference, t: u64, op: Op)
    requires WellTimed(op, t) && Simulates(db, m, t)
    ensures Allows(m, op, Apply(db, op).1)
    ensures Simulates(Apply(db, op).0, Advance(m, op), TimeAfter(op, t))
  {
    if op.GetMultiOp? {
      BatchSimulates(db, m, t, op);
    } else {
      assert op.Times()[0] == op.now;
      SimulatesEntry(db, m, t, op.key, op.now);
      SimulatesLater(db, m, t, op.now);
      if op.CompactOp? && op.key in db {
        FilterIffExpired(db[op.key], op.now);
      }
    }
  }

  // ---- Whole runs -----------------------------------------------------------------------------

  predicate RunTimed(ops: seq<Op>, t: u64) {
    ops != [] ==> WellTimed(ops[0], t) && RunTimed(ops[1..], TimeAfter(ops[0], t))
  }

  ghost predicate RunAllowed(ops: seq<Op>, db: Db, m: Reference, t: u64)
    requires RunTimed(ops, t)
  {
    ops != [] ==>
      && Allows(m, ops[0], Apply(db, ops[0]).1)
      && RunAllowed(ops[1..], Apply(db, ops[0]).0, Advance(m, ops[0]), TimeAfter(ops[0], t))
  }

  function RunDb(ops: seq<Op>, db: Db, t: u64): Db
    requires RunTimed(ops, t)
  {
    if ops == [] then db else RunDb(ops[1..], Apply(db, ops[0]).0, TimeAfter(ops[0], t))
  }

  function RunReference(ops: seq<Op>, m: Reference): Reference {
    if ops == [] then m else RunReference(ops[1..], Advance(m, ops[0]))
  }

  function RunTime(ops: seq<Op>, t: u64): u64 {
    if ops == [] then t else RunTime(ops[1..], TimeAfter(ops[0], t))
  }

  lemma {:induction false} RunRefines(ops: seq<Op>, db: Db, m: Reference, t: u64)
    requires RunTimed(ops, t) && Simulates(db, m, t)
    ensures RunAllowed(ops, db, m, t)
    ensures Simulates(RunDb(ops, db, t), RunReference(ops, m), RunTime(ops, t))
  {
    if ops != [] {
      StepSimulates(db, m, t, ops[0]);
      RunRefines(ops[1..], Apply(db, ops[0]).0, Advance(m, ops[0]), TimeAfter(ops[0], t));
    }
  }

  /** Every run from an empty store answers as the reference allows, whatever lazy expiry and
      compaction removed on the way. */
  lemma StoreRefinement(ops: seq<Op>)
    requires RunTimed(ops, 0)
    ensures RunAllowed(ops, map[], map[], 0)
  {
    RunRefines(ops, map[], map[], 0);
  }

  // ---- Time to live, end to end ---------------------------------------------------------------

  predicate Writes(op: Op, key: bytes) {
    (op.SetOp? || op.DeleteOp?) && op.key == key
  }

  lemma {:induction false} UnwrittenStays(ops: seq<Op>, m: Reference, key: bytes)
    requires key in m
    requires forall i :: 0 <= i < |ops| ==> !Writes(ops[i], key)
    ensures key in RunReference(ops, m) && RunReference(ops, m)[key] == m[key]
  {
    if ops != [] {
      UnwrittenStays(ops[1..], Advance(m, ops[0]), key);
    }
  }

  /** After any run, a set, and any operations that do not write its key: a get hits, with the same
      flags and bytes, exactly while the requested lifetime lasts. */
  lemma TimeToLive(before: seq<Op>, set_: Op, after: seq<Op>, now: u64)
    requires RunTimed(before, 0) && set_.SetOp? && RunTime(before, 0) <= set_.now
    requires RunTimed(after, set_.now) && RunTime(after, set_.now) <= now
    requires forall i :: 0 <= i < |after| ==> !Writes(after[i], set_.key)
    ensures var db := RunDb(after, Apply(RunDb(before, map[], 0), set_).0, set_.now);
            match Lookup(db, set_.key, now)
            case Ok(Some(v)) =>
              Visible(set_.exptime, set_.now, now) && v.flags == set_.flags && v.data == set_.data
            case Ok(None) => !Visible(set_.exptime, set_.now, now)
            case Err(_) => false
  {
    var t := RunTime(before, 0);
    RunRefines(before, map[], map[], 0);
    var db, m := RunDb(before, map[], 0), RunReference(before, map[]);
    StepSimulates(db, m, t, set_);
    var db1, m1 := Apply(db, set_).0, Advance(m, set_);
    RunRefines(after, db1, m1, set_.now);
    UnwrittenStays(after, m1, set_.key);
    SimulatesEntry(RunDb(after, db1, set_.now), RunReference(after, m1), RunTime(after, set_.now), set_.key, now);
    ExpiryMatchesRequest(set_.flags, set_.exptime, set_.data, set_.now, now);
  }
}
