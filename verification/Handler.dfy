/** Executing commands: the effect on the server's state and the reply, then the handlers. */
module Handler {
  import opened Bytes
  import opened Command
  import opened Value
  import opened Store
  import opened Response
  import R = RocksStorage

  /** The n-th reading of the system clock. */
  type Clock = nat -> u64

  const VERSION_TEXT: bytes := Ascii("petracache 0.1.0")

  /** Database, clock readings taken so far, removal counters and metrics. */
  datatype ServerState = ServerState(
    db: Db, tick: nat, expiredRemoved: nat, compactionRemoved: nat,
    cmdGet: nat, cmdSet: nat, cmdDelete: nat, getHits: nat, getMisses: nat,
    protocolErrors: nat, storageErrors: nat, bytesWritten: nat)

  const EMPTY := ServerState(map[], 0, 0, 0, 0, 0, 0, 0, 0, 0, 0, 0)

  function Sample(clock: Clock, tick: nat, n: nat): (r: seq<u64>)
    ensures |r| == n
  {
    seq(n, i requires 0 <= i < n => clock(tick + i))
  }

  /** One item per key that was found, in the order of the keys. */
  function ItemsFor(keys: seq<bytes>, answers: seq<Option<StoredValue>>): (items: seq<Item>)
    requires |answers| == |keys|
    ensures |items| <= |keys|
  {
    if keys == [] then [] else
      var n := |keys| - 1;
      ItemsFor(keys[..n], answers[..n])
      + (if answers[n].Some? then [Item(keys[n], answers[n].value.flags, answers[n].value.data)] else [])
  }

  /** The effect of looking up `keys`, and the items found, or the error of a bad entry. */
  function ReadKeys(s: ServerState, keys: seq<bytes>, nows: seq<u64>)
    : (r: (ServerState, Result<seq<Item>, StorageError>))
    requires |nows| == |keys|
  {
    var failed := BatchError(s.db, keys);
    if failed.Some? then
      (s.(storageErrors := s.storageErrors + 1), Err(failed.value))
    else
      var expired := ExpiredKeys(s.db, keys, nows);
      var items := ItemsFor(keys, BatchAnswers(s.db, keys, nows));
      (s.(db := Without(s.db, expired), expiredRemoved := s.expiredRemoved + |expired|,
          getHits := s.getHits + |items|, getMisses := s.getMisses + |keys| - |items|),
       Ok(items))
  }

  function ExecGet(s: ServerState, keys: seq<bytes>, clock: Clock): (ServerState, Reply) {
    var (s', found) := ReadKeys(s.(tick := s.tick + |keys|), keys, Sample(clock, s.tick, |keys|));
    (s', match found case Ok(items) => Values(items) case Err(e) => ServerError(e.Text()))
  }

  /** What a lookup writes before the end line. */
  function FoundBytes(found: Result<seq<Item>, StorageError>): bytes {
    match found case Ok(items) => ItemsBytes(items) case Err(e) => Wire(ServerError(e.Text()))
  }

  /** What `execute` does, and what it writes to the response. */
  function Exec(s: ServerState, cmd: Command, clock: Clock): (ServerState, Option<Reply>) {
    match cmd
    case Get(keys) =>
      var (s', reply) := ExecGet(s.(cmdGet := s.cmdGet + 1), keys, clock);
      (s', Some(reply))
    case Set(key, flags, exptime, data, _) =>
      (s.(db := AfterSet(s.db, key, flags, exptime, data, clock(s.tick)),
          tick := s.tick + 1, cmdSet := s.cmdSet + 1),
       Some(Stored))
    case Delete(key, _) =>
      (s.(db := s.db - {key}, cmdDelete := s.cmdDelete + 1),
       Some(if key in s.db then Deleted else NotFound))
    case Version => (s, Some(VersionIs(VERSION_TEXT)))
    case Quit => (s, None)
  }

  function OptionalWire(r: Option<Reply>): bytes {
    if r.None? then [] else Wire(r.value)
  }

  // ---- The handlers ---------------------------------------------------------------------------

  class Metrics {
    var cmdGet: nat
    var cmdSet: nat
    var cmdDelete: nat
    var getHits: nat
    var getMisses: nat
    var protocolErrors: nat
    var storageErrors: nat
    var bytesWritten: nat

    constructor ()
      ensures cmdGet == cmdSet == cmdDelete == getHits == getMisses == 0
      ensures protocolErrors == storageErrors == bytesWritten == 0
    {
      cmdGet, cmdSet, cmdDelete, getHits, getMisses := 0, 0, 0, 0, 0;
      protocolErrors, storageErrors, bytesWritten := 0, 0, 0;
    }
  }

  class Server {
    const storage: R.RocksStorage
    const metrics: Metrics
    var tick: nat

    constructor ()
      ensures View() == EMPTY && fresh(storage) && fresh(metrics)
    {
      storage := new R.RocksStorage();
      metrics := new Metrics();
      tick := 0;
    }

    ghost function View(): ServerState
      reads this, storage, metrics
    {
      ServerState(storage.db, tick, storage.expiredRemoved, storage.compactionRemoved,
                  metrics.cmdGet, metrics.cmdSet, metrics.cmdDelete, metrics.getHits, metrics.getMisses,
                  metrics.protocolErrors, metrics.storageErrors, metrics.bytesWritten)
    }

    method HandleGet(keys: seq<bytes>, clock: Clock, response: ResponseWriter)
      modifies this, storage, metrics, response
      ensures View() == ExecGet(old(View()), keys, clock).0
      ensures response.buf == old(response.buf) + Wire(ExecGet(old(View()), keys, clock).1)
    {
      hide Ascii, ItemsBytes, Sample, Wire, StorageError.Text, ReadKeys;
      var nows := Sample(clock, tick, |keys|);
      tick := tick + |keys|;
      ghost var found := ReadKeys(View(), keys, nows).1;
      var ok;
      if |keys| == 1 {
        assert keys == [keys[0]] && nows == [nows[0]];
        ok := GetOne(keys[0], nows[0], response);
      } else {
        ok := GetMany(keys, nows, response);
      }
      if !ok {
        return;
      }
      response.End();
      WireOfValues(found.value);
      assert response.buf == old(response.buf) + (ItemsBytes(found.value) + (Ascii("END") + CRLF));
    }

    /** The path of a get with one key. */
    method GetOne(key: bytes, now: u64, response: ResponseWriter) returns (ok: bool)
      modifies storage, metrics, response
      ensures View() == ReadKeys(old(View()), [key], [now]).0
      ensures response.buf == old(response.buf) + FoundBytes(ReadKeys(old(View()), [key], [now]).1)
      ensures ok == ReadKeys(old(View()), [key], [now]).1.Ok?
    {
      hide ItemsBytes, ItemsFor, ItemBytes, BatchAnswers, BatchError, ExpiredKeys, Without, Lookup, AfterGet,
        HoldsExpired, Wire, StorageError.Text;
      SingleKeyBatch(storage.db, key, now);
      OneItem([key], BatchAnswers(storage.db, [key], [now]));
      var found := storage.Get(key, now);
      if found.Err? {
        metrics.storageErrors := metrics.storageErrors + 1;
        response.Line(ServerError(found.error.Text()));
        return false;
      }
      WriteOne(key, found.value, response);
      return true;
    }

    /** The path of a get with any other number of keys. */
    method GetMany(keys: seq<bytes>, nows: seq<u64>, response: ResponseWriter) returns (ok: bool)
      requires |nows| == |keys|
      modifies storage, metrics, response
      ensures View() == ReadKeys(old(View()), keys, nows).0
      ensures response.buf == old(response.buf) + FoundBytes(ReadKeys(old(View()), keys, nows).1)
      ensures ok == ReadKeys(old(View()), keys, nows).1.Ok?
    {
      hide ItemsBytes, ItemsFor, BatchAnswers, BatchError, ExpiredKeys, Without, Wire, StorageError.Text;
      ghost var answers := BatchAnswers(storage.db, keys, nows);
      var results := storage.GetMulti(keys, nows);
      if results.Err? {
        metrics.storageErrors := metrics.storageErrors + 1;
        response.Line(ServerError(results.error.Text()));
        return false;
      }
      WriteResults(keys, answers, results.value, response);
      return true;
    }

    method WriteOne(key: bytes, found: Option<StoredValue>, response: ResponseWriter)
      modifies metrics`getHits, metrics`getMisses, response
      ensures response.buf == old(response.buf)
                + if found.Some? then ItemBytes(Item(key, found.value.flags, found.value.data)) else []
      ensures metrics.getHits == old(metrics.getHits) + if found.Some? then 1 else 0
      ensures metrics.getMisses == old(metrics.getMisses) + if found.Some? then 0 else 1
    {
      hide ItemBytes;
      if found.Some? {
        metrics.getHits := metrics.getHits + 1;
        response.Value(key, found.value.flags, found.value.data);
      } else {
        metrics.getMisses := metrics.getMisses + 1;
      }
    }

    /** The loop over a batch: count and write. */
    method WriteResults(ghost keys: seq<bytes>, ghost answers: seq<Option<StoredValue>>,
                        results: seq<(bytes, Option<StoredValue>)>, response: ResponseWriter)
      requires |answers| == |keys| == |results|
      requires forall i :: 0 <= i < |keys| ==> results[i] == (keys[i], answers[i])
      modifies metrics`getHits, metrics`getMisses, response
      ensures response.buf == old(response.buf) + ItemsBytes(ItemsFor(keys, answers))
      ensures metrics.getHits == old(metrics.getHits) + |ItemsFor(keys, answers)|
      ensures metrics.getMisses == old(metrics.getMisses) + |keys| - |ItemsFor(keys, answers)|
    {
      hide ItemBytes, ItemsBytes, ItemsFor;
      ItemsForEmpty(keys[..0], answers[..0]);
      for i := 0 to |results|
        invariant response.buf == old(response.buf) + ItemsBytes(ItemsFor(keys[..i], answers[..i]))
        invariant metrics.getHits == old(metrics.getHits) + |ItemsFor(keys[..i], answers[..i])|
        invariant metrics.getMisses == old(metrics.getMisses) + i - |ItemsFor(keys[..i], answers[..i])|
      {
        ItemsForNext(keys, answers, i);
        var (key, found) := results[i];
        ghost var items := ItemsFor(keys[..i], answers[..i]);
        if found.Some? {
          ghost var item := Item(key, found.value.flags, found.value.data);
          ItemsBytesAppend(items, item);
          metrics.getHits := metrics.getHits + 1;
          response.Value(key, found.value.flags, found.value.data);
          assert response.buf == old(response.buf) + (ItemsBytes(items) + ItemBytes(item));
        } else {
          assert items + [] == items;
          metrics.getMisses := metrics.getMisses + 1;
        }
      }
      assert keys[..|results|] == keys && answers[..|results|] == answers;
    }

    method Execute(cmd: Command, clock: Clock, response: ResponseWriter)
      modifies this, storage, metrics, response
      ensures View() == Exec(old(View()), cmd, clock).0
      ensures response.buf == old(response.buf) + OptionalWire(Exec(old(View()), cmd, clock).1)
    {
      hide ExecGet, Wire, Encoded, ExpireAt;
      match cmd
      case Get(keys) =>
        metrics.cmdGet := metrics.cmdGet + 1;
        HandleGet(keys, clock, response);
      case Set(key, flags, exptime, data, _) =>
        metrics.cmdSet := metrics.cmdSet + 1;
        var value := NewValue(flags, exptime, data, clock(tick));
        tick := tick + 1;
        storage.Set(key, value);
        response.Line(Stored);
      case Delete(key, _) =>
        metrics.cmdDelete := metrics.cmdDelete + 1;
        var existed := storage.Delete(key);
        if existed {
          response.Line(Deleted);
        } else {
          response.Line(NotFound);
        }
      case Version =>
        response.Line(VersionIs(VERSION_TEXT));
      case Quit =>
        assert response.buf + [] == response.buf;
    }
  }

  lemma WireOfValues(items: seq<Item>)
    ensures Wire(Values(items)) == ItemsBytes(items) + (Ascii("END") + CRLF)
  {
  }

  lemma ItemsForEmpty(keys: seq<bytes>, answers: seq<Option<StoredValue>>)
    requires keys == [] && answers == []
    ensures ItemsFor(keys, answers) == [] && ItemsBytes([]) == []
  {
  }

  lemma ItemsForNext(keys: seq<bytes>, answers: seq<Option<StoredValue>>, i: nat)
    requires |answers| == |keys| && i < |keys|
    ensures ItemsFor(keys[..i + 1], answers[..i + 1]) ==
            ItemsFor(keys[..i], answers[..i])
            + if answers[i].Some? then [Item(keys[i], answers[i].value.flags, answers[i].value.data)] else []
  {
    assert keys[..i + 1][..i] == keys[..i] && answers[..i + 1][..i] == answers[..i];
  }

  lemma ItemsBytesAppend(items: seq<Item>, item: Item)
    ensures ItemsBytes(items + [item]) == ItemsBytes(items) + ItemBytes(item)
  {
    assert (items + [item])[..|items|] == items;
  }

  /** The single-key path is the batch of one key. */
  lemma SingleKeyBatch(db: Db, key: bytes, now: u64)
    ensures BatchError(db, [key]) == match Lookup(db, key, now) case Err(e) => Some(e) case Ok(_) => None
    ensures Lookup(db, key, now).Ok? ==> BatchAnswers(db, [key], [now]) == [Lookup(db, key, now).value]
    ensures ExpiredKeys(db, [key], [now]) == if HoldsExpired(db, key, now) then [key] else []
    ensures Without(db, ExpiredKeys(db, [key], [now])) == AfterGet(db, key, now)
    ensures Lookup(db, key, now).Err? ==> AfterGet(db, key, now) == db && !HoldsExpired(db, key, now)
  {
    hide Decode;
    assert [key][..0] == [] && [now][..0] == [];
    assert BatchError(db, [key][..0]).None? && ExpiredKeys(db, [key][..0], [now][..0]) == [];
  }

  lemma OneItem(keys: seq<bytes>, answers: seq<Option<StoredValue>>)
    requires |keys| == |answers| == 1
    ensures ItemsFor(keys, answers) ==
            if answers[0].Some? then [Item(keys[0], answers[0].value.flags, answers[0].value.data)] else []
    ensures ItemsBytes(ItemsFor(keys, answers)) ==
            if answers[0].Some? then ItemBytes(Item(keys[0], answers[0].value.flags, answers[0].value.data)) else []
  {
    hide ItemBytes;
    assert ItemsFor(keys[..0], answers[..0]) == [];
    if answers[0].Some? {
      ItemsBytesAppend([], Item(keys[0], answers[0].value.flags, answers[0].value.data));
    }
  }
}
