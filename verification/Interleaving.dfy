/** Any number of connections on one database, interleaved at single database steps: a get is a
    read, an expiry check and possibly a delete; a delete is a read and a delete. A batched get is
    one such get per key. */
module Interleaving {
  import opened Bytes
  import opened Command
  import opened Value
  import opened Store

  /** Why an entry was deleted. A lazy delete remembers how much of the log its read had seen. */
  datatype Cause = Asked | Lazy(readAt: nat) | Compacted

  /** The writes the database has performed, in order. */
  datatype Write =
    | Put(key: bytes, value: StoredValue)
    | Remove(key: bytes, cause: Cause)

  /** A request in progress or answered; `readAt` is the length of the log at its read,
      `checkedAt` the time a get checked for expiry or a delete looked. */
  datatype Task =
    | GetRead(key: bytes, readAt: nat, raw: Option<bytes>)
    | GetDoomed(key: bytes, readAt: nat)
    | GetDone(key: bytes, readAt: nat, value: Option<StoredValue>, checkedAt: u64)
    | GetFailed(key: bytes)
    | DeleteRead(key: bytes, readAt: nat, existed: bool, checkedAt: u64)
    | DeleteDone(key: bytes, readAt: nat, existed: bool, checkedAt: u64)

  datatype State = State(db: Db, log: seq<Write>, tasks: map<nat, Task>, now: u64)

  const INITIAL := State(map[], [], map[], 0)

  datatype Step =
    | Tick(now: u64)
    | PutStep(key: bytes, value: StoredValue)
    | ReadForGet(id: nat, key: bytes)
    | Check(id: nat)
    | LazyDelete(id: nat)
    | ReadForDelete(id: nat, key: bytes)
    | Delete(id: nat)
    | Compact(key: bytes)

  predicate Enabled(s: State, step: Step) {
    match step
    case Tick(now) => s.now <= now
    case PutStep(_, _) => true
    case ReadForGet(id, _) => id !in s.tasks
    case Check(id) => id in s.tasks && s.tasks[id].GetRead?
    case LazyDelete(id) => id in s.tasks && s.tasks[id].GetDoomed?
    case ReadForDelete(id, _) => id !in s.tasks
    case Delete(id) => id in s.tasks && s.tasks[id].DeleteRead?
    case Compact(key) => key in s.db && FilterRemoves(s.db[key], s.now)
  }

  function Raw(db: Db, key: bytes): Option<bytes> {
    if key in db then Some(db[key]) else None
  }

  function RemoveEntry(s: State, key: bytes, cause: Cause): State {
    s.(db := s.db - {key}, log := s.log + [Remove(key, cause)])
  }

  /** The outcome of the expiry check on what was read. */
  function Checked(task: Task, now: u64): Task
    requires task.GetRead?
  {
    if task.raw.None? then GetDone(task.key, task.readAt, None, now)
    else match Decode(task.raw.value)
      case Err(_) => GetFailed(task.key)
      case Ok(v) =>
        if IsExpired(v, now) then GetDoomed(task.key, task.readAt)
        else GetDone(task.key, task.readAt, Some(v), now)
  }

  function Next(s: State, step: Step): State
    requires Enabled(s, step)
  {
    match step
    case Tick(now) => s.(now := now)
    case PutStep(key, value) => s.(db := s.db[key := Encoded(value)], log := s.log + [Put(key, value)])
    case ReadForGet(id, key) => s.(tasks := s.tasks[id := GetRead(key, |s.log|, Raw(s.db, key))])
    case Check(id) => s.(tasks := s.tasks[id := Checked(s.tasks[id], s.now)])
    case LazyDelete(id) =>
      var task := s.tasks[id];
      RemoveEntry(s, task.key, Lazy(task.readAt))
        .(tasks := s.tasks[id := GetDone(task.key, task.readAt, None, s.now)])
    case ReadForDelete(id, key) =>
      s.(tasks := s.tasks[id := DeleteRead(key, |s.log|, key in s.db, s.now)])
    case Delete(id) =>
      var task := s.tasks[id];
      RemoveEntry(s, task.key, Asked)
        .(tasks := s.tasks[id := DeleteDone(task.key, task.readAt, task.existed, task.checkedAt)])
    case Compact(key) => RemoveEntry(s, key, Compacted)
  }

  /** `s` is reached from `q` by `steps`. */
  ghost predicate From(q: State, s: State, steps: seq<Step>)
    decreases |steps|
  {
    if steps == [] then s == q
    else
      var n := |steps| - 1;
      exists p :: From(q, p, steps[..n]) && Enabled(p, steps[n]) && s == Next(p, steps[n])
  }

  ghost predicate Reachable(s: State, steps: seq<Step>) {
    From(INITIAL, s, steps)
  }

  lemma FromNext(q: State, s: State, steps: seq<Step>, step: Step) returns (s': State, steps': seq<Step>)
    requires From(q, s, steps) && Enabled(s, step)
    ensures s' == Next(s, step) && From(q, s', steps')
  {
    s', steps' := Next(s, step), steps + [step];
    assert steps'[..|steps|] == steps;
  }

  // ---- What the log says ----------------------------------------------------------------------

  /** The value a log leaves under `key`. */
  function Last(log: seq<Write>, key: bytes): Option<StoredValue> {
    if log == [] then None
    else
      var w := log[|log| - 1];
      if w.key != key then Last(log[..|log| - 1], key)
      else if w.Put? then Some(w.value) else None
  }

  /** `log[i]` is the latest write to its key within the first `n`. */
  predicate LatestAt(log: seq<Write>, i: nat, n: nat) {
    i < n <= |log| && forall j :: i < j < n ==> log[j].key != log[i].key
  }

  lemma {:induction false} LastIsLatest(log: seq<Write>, i: nat, n: nat)
    requires LatestAt(log, i, n)
    ensures Last(log[..n], log[i].key) == if log[i].Put? then Some(log[i].value) else None
  {
    assert log[..n][..n - 1] == log[..n - 1];
    if i < n - 1 {
      LastIsLatest(log, i, n - 1);
    }
  }

  lemma {:induction false} LastHasPut(log: seq<Write>, key: bytes, n: nat)
    requires n <= |log| && Last(log[..n], key).Some?
    ensures exists i: nat :: LatestAt(log, i, n) && log[i] == Put(key, Last(log[..n], key).value)
  {
    assert log[..n][..n - 1] == log[..n - 1];
    if log[n - 1].key == key {
      assert LatestAt(log, n - 1, n);
    } else {
      LastHasPut(log, key, n - 1);
      var i: nat :| LatestAt(log, i, n - 1) && log[i] == Put(key, Last(log[..n - 1], key).value);
      assert LatestAt(log, i, n);
    }
  }

  // ---- The invariant --------------------------------------------------------------------------

  predicate ReadSaw(log: seq<Write>, key: bytes, readAt: nat, v: Option<StoredValue>) {
    readAt <= |log| && Last(log[..readAt], key) == v
  }

  function Encoding(v: Option<StoredValue>): Option<bytes> {
    if v.None? then None else Some(Encoded(v.value))
  }

  /** A lazy delete was decided on a value that was expired. */
  predicate SawExpired(log: seq<Write>, key: bytes, readAt: nat, now: u64) {
    readAt <= |log| && Last(log[..readAt], key).Some? && IsExpired(Last(log[..readAt], key).value, now)
  }

  predicate TaskFits(log: seq<Write>, task: Task, now: u64) {
    match task
    case GetRead(key, readAt, raw) => readAt <= |log| && raw == Encoding(Last(log[..readAt], key))
    case GetDoomed(key, readAt) => SawExpired(log, key, readAt, now)
    case GetDone(key, readAt, value, checkedAt) =>
      && checkedAt <= now
      && (if value.Some? then ReadSaw(log, key, readAt, value) && !IsExpired(value.value, checkedAt)
          else ReadSaw(log, key, readAt, None) || SawExpired(log, key, readAt, checkedAt))
    case GetFailed(_) => false
    case DeleteRead(key, readAt, existed, _) => readAt <= |log| && existed == Last(log[..readAt], key).Some?
    case DeleteDone(key, readAt, existed, _) => readAt <= |log| && existed == Last(log[..readAt], key).Some?
  }

  predicate RemoveFits(log: seq<Write>, i: nat, now: u64)
    requires i < |log|
  {
    log[i].Remove? ==>
      match log[i].cause
      case Asked => true
      case Lazy(readAt) => readAt <= i && SawExpired(log, log[i].key, readAt, now)
      case Compacted => SawExpired(log, log[i].key, i, now)
  }

  ghost predicate Inv(s: State) {
    && (forall key :: Raw(s.db, key) == Encoding(Last(s.log, key)))
    && (forall id :: id in s.tasks ==> TaskFits(s.log, s.tasks[id], s.now))
    && (forall i :: 0 <= i < |s.log| ==> RemoveFits(s.log, i, s.now))
  }

  lemma PrefixOfGrown(log: seq<Write>, w: Write, n: nat)
    requires n <= |log|
    ensures (log + [w])[..n] == log[..n]
  {
  }

  lemma TaskFitsLater(log: seq<Write>, ws: seq<Write>, task: Task, now: u64, later: u64)
    requires TaskFits(log, task, now) && now <= later
    ensures TaskFits(log + ws, task, later)
  {
    hide Last;
    if !task.GetFailed? {
      assert (log + ws)[..task.readAt] == log[..task.readAt];
    }
  }

  lemma RemoveFitsLater(log: seq<Write>, ws: seq<Write>, i: nat, now: u64, later: u64)
    requires i < |log| && RemoveFits(log, i, now) && now <= later
    ensures RemoveFits(log + ws, i, later)
  {
    hide Last;
    if log[i].Remove? && !log[i].cause.Asked? {
      var n := if log[i].cause.Lazy? then log[i].cause.readAt else i;
      assert (log + ws)[..n] == log[..n];
    }
  }

  /** Writes logged and time passed: old tasks and old removals still fit. */
  lemma OldFits(s: State, ws: seq<Write>, later: u64)
    requires Inv(s) && s.now <= later
    ensures forall id :: id in s.tasks ==> TaskFits(s.log + ws, s.tasks[id], later)
    ensures forall i :: 0 <= i < |s.log| ==> RemoveFits(s.log + ws, i, later)
  {
    hide TaskFits, RemoveFits, Last;
    forall id | id in s.tasks ensures TaskFits(s.log + ws, s.tasks[id], later) {
      TaskFitsLater(s.log, ws, s.tasks[id], s.now, later);
    }
    forall i | 0 <= i < |s.log| ensures RemoveFits(s.log + ws, i, later) {
      RemoveFitsLater(s.log, ws, i, s.now, later);
    }
  }

  lemma WriteKeepsDb(s: State, w: Write, db: Db)
    requires forall key :: Raw(s.db, key) == Encoding(Last(s.log, key))
    requires db == if w.Put? then s.db[w.key := Encoded(w.value)] else s.db - {w.key}
    ensures forall key :: Raw(db, key) == Encoding(Last(s.log + [w], key))
  {
    forall key ensures Raw(db, key) == Encoding(Last(s.log + [w], key)) {
      assert (s.log + [w])[..|s.log|] == s.log;
      assert Raw(s.db, key) == Encoding(Last(s.log, key));
    }
  }

  lemma CheckFits(log: seq<Write>, task: Task, now: u64)
    requires TaskFits(log, task, now) && task.GetRead?
    ensures TaskFits(log, Checked(task, now), now)
  {
    hide Last;
    if task.raw.Some? {
      DecodeEncoded(Last(log[..task.readAt], task.key).value);
    }
  }

  lemma ReadFits(s: State, key: bytes)
    requires Inv(s)
    ensures TaskFits(s.log, GetRead(key, |s.log|, Raw(s.db, key)), s.now)
    ensures TaskFits(s.log, DeleteRead(key, |s.log|, key in s.db, s.now), s.now)
  {
    assert s.log[..|s.log|] == s.log;
    assert Raw(s.db, key) == Encoding(Last(s.log, key));
  }

  lemma CompactFits(s: State, key: bytes)
    requires Inv(s) && key in s.db && FilterRemoves(s.db[key], s.now)
    ensures SawExpired(s.log, key, |s.log|, s.now)
  {
    assert s.log[..|s.log|] == s.log;
    assert Raw(s.db, key) == Encoding(Last(s.log, key));
    DecodeEncoded(Last(s.log, key).value);
    FilterIffExpired(s.db[key], s.now);
  }

  lemma RemoveKeepsInv(s: State, key: bytes, cause: Cause)
    requires Inv(s)
    requires match cause
             case Asked => true
             case Lazy(readAt) => SawExpired(s.log, key, readAt, s.now)
             case Compacted => SawExpired(s.log, key, |s.log|, s.now)
    ensures Inv(RemoveEntry(s, key, cause))
  {
    hide TaskFits, Last;
    var w := Remove(key, cause);
    OldFits(s, [w], s.now);
    WriteKeepsDb(s, w, s.db - {key});
    var n := |s.log|;
    if cause.Lazy? {
      PrefixOfGrown(s.log, w, cause.readAt);
    } else {
      PrefixOfGrown(s.log, w, n);
      assert s.log[..n] == s.log;
    }
    assert RemoveFits(s.log + [w], n, s.now);
  }

  lemma InvKept(s: State, step: Step)
    requires Inv(s) && Enabled(s, step)
    ensures Inv(Next(s, step))
  {
    hide TaskFits, RemoveFits, Last, Encoding, Raw, Checked;
    match step
    case Tick(now) =>
      assert s.log + [] == s.log;
      OldFits(s, [], now);
    case PutStep(key, value) =>
      var w := Put(key, value);
      OldFits(s, [w], s.now);
      WriteKeepsDb(s, w, s.db[key := Encoded(value)]);
      PutRemoveFits(s.log, w, s.now);
    case ReadForGet(_, key) => ReadFits(s, key);
    case Check(id) => CheckFits(s.log, s.tasks[id], s.now);
    case LazyDelete(id) =>
      var task := s.tasks[id];
      DoomedFits(s.log, task, s.now);
      RemoveKeepsInv(s, task.key, Lazy(task.readAt));
      LazyDoneFits(s.log, Remove(task.key, Lazy(task.readAt)), task, s.now);
    case ReadForDelete(_, key) => ReadFits(s, key);
    case Delete(id) =>
      var task := s.tasks[id];
      RemoveKeepsInv(s, task.key, Asked);
      DeleteDoneFits(s.log, Remove(task.key, Asked), task, s.now);
    case Compact(key) =>
      CompactFits(s, key);
      RemoveKeepsInv(s, key, Compacted);
  }

  lemma PutRemoveFits(log: seq<Write>, w: Write, now: u64)
    requires w.Put?
    ensures RemoveFits(log + [w], |log|, now)
  {
  }

  lemma DoomedFits(log: seq<Write>, task: Task, now: u64)
    requires task.GetDoomed? && TaskFits(log, task, now)
    ensures SawExpired(log, task.key, task.readAt, now)
  {
  }

  lemma LazyDoneFits(log: seq<Write>, w: Write, task: Task, now: u64)
    requires task.GetDoomed? && TaskFits(log, task, now)
    ensures TaskFits(log + [w], GetDone(task.key, task.readAt, None, now), now)
  {
    hide Last;
    PrefixOfGrown(log, w, task.readAt);
  }

  lemma DeleteDoneFits(log: seq<Write>, w: Write, task: Task, now: u64)
    requires task.DeleteRead? && TaskFits(log, task, now)
    ensures TaskFits(log + [w], DeleteDone(task.key, task.readAt, task.existed, task.checkedAt), now)
  {
    hide Last;
    PrefixOfGrown(log, w, task.readAt);
  }

  lemma {:induction false} ReachableInv(s: State, steps: seq<Step>)
    requires Reachable(s, steps)
    ensures Inv(s)
    decreases |steps|
  {
    if steps != [] {
      var n := |steps| - 1;
      var p :| From(INITIAL, p, steps[..n]) && Enabled(p, steps[n]) && s == Next(p, steps[n]);
      ReachableInv(p, steps[..n]);
      InvKept(p, steps[n]);
    }
  }

  // ---- Safety under every interleaving --------------------------------------------------------

  /** A get that returns a value returns what the latest write to its key before its read had put
      there, and that value was not expired when it was checked. No get ever fails to decode. */
  lemma GetReturnsLatestPut(s: State, steps: seq<Step>, id: nat)
    requires Reachable(s, steps) && id in s.tasks
    ensures !s.tasks[id].GetFailed?
    ensures s.tasks[id].GetDone? && s.tasks[id].value.Some? ==>
              var task := s.tasks[id];
              && task.readAt <= |s.log|
              && !IsExpired(task.value.value, task.checkedAt)
              && exists i: nat :: LatestAt(s.log, i, task.readAt) && s.log[i] == Put(task.key, task.value.value)
  {
    ReachableInv(s, steps);
    var task := s.tasks[id];
    assert TaskFits(s.log, task, s.now);
    if task.GetDone? && task.value.Some? {
      LastHasPut(s.log, task.key, task.readAt);
    }
  }

  /** The task's read found no entry. */
  predicate SawNothing(task: Task) {
    match task
    case GetRead(_, _, raw) => raw == None
    case GetDoomed(_, _) => false
    case GetDone(_, _, value, _) => value == None
    case GetFailed(_) => false
    case DeleteRead(_, _, existed, _) => !existed
    case DeleteDone(_, _, existed, _) => !existed
  }

  /** Once a key is removed and not put again, every later read of it finds nothing. */
  lemma RemovedIsNotRead(s: State, steps: seq<Step>, id: nat, d: nat)
    requires Reachable(s, steps) && id in s.tasks
    requires d < |s.log| && s.log[d].Remove? && s.log[d].key == s.tasks[id].key
    requires !s.tasks[id].GetFailed? && d < s.tasks[id].readAt <= |s.log|
    requires forall j :: d < j < s.tasks[id].readAt ==> s.log[j].key == s.log[d].key ==> s.log[j].Remove?
    ensures SawNothing(s.tasks[id])
  {
    ReachableInv(s, steps);
    RemovedIsUnseen(s, id, d);
  }

  lemma RemovedIsUnseen(s: State, id: nat, d: nat)
    requires Inv(s) && id in s.tasks
    requires d < |s.log| && s.log[d].Remove? && s.log[d].key == s.tasks[id].key
    requires !s.tasks[id].GetFailed? && d < s.tasks[id].readAt <= |s.log|
    requires forall j :: d < j < s.tasks[id].readAt ==> s.log[j].key == s.log[d].key ==> s.log[j].Remove?
    ensures SawNothing(s.tasks[id])
  {
    var task := s.tasks[id];
    assert TaskFits(s.log, task, s.now);
    LastAfterRemove(s.log, d, task.readAt);
  }

  lemma {:induction false} LastAfterRemove(log: seq<Write>, d: nat, n: nat)
    requires d < n <= |log| && log[d].Remove?
    requires forall j :: d < j < n ==> log[j].key == log[d].key ==> log[j].Remove?
    ensures Last(log[..n], log[d].key) == None
  {
    assert log[..n][..n - 1] == log[..n - 1];
    if d < n - 1 {
      LastAfterRemove(log, d, n - 1);
    }
  }

  // ---- What every step does to the database -----------------------------------------------------

  /** The entries after a step: a put stores, each of the three removals removes, and nothing else
      changes any entry. */
  lemma StepEffect(s: State, step: Step, key: bytes)
    requires Enabled(s, step)
    ensures Raw(Next(s, step).db, key) ==
            match step
            case PutStep(k, value) => if k == key then Some(Encoded(value)) else Raw(s.db, key)
            case LazyDelete(id) => if s.tasks[id].key == key then None else Raw(s.db, key)
            case Delete(id) => if s.tasks[id].key == key then None else Raw(s.db, key)
            case Compact(k) => if k == key then None else Raw(s.db, key)
            case _ => Raw(s.db, key)
  {
    hide Encoded, Checked, FilterRemoves;
  }

  /** A compaction may remove an entry exactly when the value under its key has expired. */
  lemma CompactEnabledIff(s: State, steps: seq<Step>, key: bytes)
    requires Reachable(s, steps)
    ensures Enabled(s, Compact(key)) <==> Last(s.log, key).Some? && IsExpired(Last(s.log, key).value, s.now)
  {
    ReachableInv(s, steps);
    assert Raw(s.db, key) == Encoding(Last(s.log, key));
    if key in s.db {
      DecodeEncoded(Last(s.log, key).value);
      FilterIffExpired(s.db[key], s.now);
    }
  }

  /** An answered delete has removed its key, after its read. */
  ghost predicate DeleteLogged(log: seq<Write>, task: Task) {
    task.DeleteDone? ==> exists d: nat :: task.readAt <= d < |log| && log[d] == Remove(task.key, Asked)
  }

  ghost predicate DeletesLogged(s: State) {
    forall id :: id in s.tasks ==> DeleteLogged(s.log, s.tasks[id])
  }

  lemma DeleteLoggedLater(log: seq<Write>, ws: seq<Write>, task: Task)
    requires DeleteLogged(log, task)
    ensures DeleteLogged(log + ws, task)
  {
    if task.DeleteDone? {
      var d: nat :| task.readAt <= d < |log| && log[d] == Remove(task.key, Asked);
      assert (log + ws)[d] == log[d];
    }
  }

  lemma DeletesLoggedLater(s: State, ws: seq<Write>)
    requires DeletesLogged(s)
    ensures forall id :: id in s.tasks ==> DeleteLogged(s.log + ws, s.tasks[id])
  {
    hide DeleteLogged;
    forall id | id in s.tasks ensures DeleteLogged(s.log + ws, s.tasks[id]) {
      DeleteLoggedLater(s.log, ws, s.tasks[id]);
    }
  }

  lemma DeletesLoggedKept(s: State, step: Step)
    requires Inv(s) && DeletesLogged(s) && Enabled(s, step)
    ensures DeletesLogged(Next(s, step))
  {
    hide Encoded, FilterRemoves, Decode, Last;
    var s' := Next(s, step);
    DeletesLoggedLater(s, s'.log[|s.log|..]);
    assert s'.log == s.log + s'.log[|s.log|..];
    if step.Delete? {
      var task := s.tasks[step.id];
      assert TaskFits(s.log, task, s.now);
      assert s'.log[|s.log|] == Remove(task.key, Asked);
    }
  }

  /** In every run, an answered delete has a removal on request of its key in the log, at or after
      its own read. */
  lemma {:induction false} DeleteRemoves(s: State, steps: seq<Step>)
    requires Reachable(s, steps)
    ensures DeletesLogged(s)
    decreases |steps|
  {
    if steps != [] {
      hide Inv, DeletesLogged, Next;
      var n := |steps| - 1;
      var p :| From(INITIAL, p, steps[..n]) && Enabled(p, steps[n]) && s == Next(p, steps[n]);
      ReachableInv(p, steps[..n]);
      DeleteRemoves(p, steps[..n]);
      DeletesLoggedKept(p, steps[n]);
    }
  }

  lemma LogKept(s: State, step: Step)
    requires Enabled(s, step)
    ensures s.log <= Next(s, step).log
  {
    hide Checked, Encoded, FilterRemoves;
  }

  lemma {:induction false} FromKeeps(q: State, s: State, steps: seq<Step>)
    requires From(q, s, steps) && Inv(q)
    ensures Inv(s) && q.log <= s.log
    decreases |steps|
  {
    if steps != [] {
      hide Inv, Next;
      var n := |steps| - 1;
      var p :| From(q, p, steps[..n]) && Enabled(p, steps[n]) && s == Next(p, steps[n]);
      FromKeeps(q, p, steps[..n]);
      InvKept(p, steps[n]);
      LogKept(p, steps[n]);
    }
  }

  /** After the step of a delete that removes, and until the next put of its key, every read of that
      key finds nothing, whatever the delete's own read had found. */
  lemma DeletedIsNotRead(p: State, before: seq<Step>, id: nat, s: State, after: seq<Step>, reader: nat)
    requires Reachable(p, before) && Enabled(p, Step.Delete(id))
    requires From(Next(p, Step.Delete(id)), s, after)
    requires reader in s.tasks && !s.tasks[reader].GetFailed? && s.tasks[reader].key == p.tasks[id].key
    requires |p.log| < s.tasks[reader].readAt <= |s.log|
    requires forall j :: |p.log| < j < s.tasks[reader].readAt ==> s.log[j].key == p.tasks[id].key ==> s.log[j].Remove?
    ensures p.tasks[id].key !in Next(p, Step.Delete(id)).db
    ensures SawNothing(s.tasks[reader])
  {
    hide From, Inv;
    var q := Next(p, Step.Delete(id));
    ReachableInv(p, before);
    InvKept(p, Step.Delete(id));
    FromKeeps(q, s, after);
    assert s.log[|p.log|] == q.log[|p.log|];
    RemovedIsUnseen(s, reader, |p.log|);
  }

  /** A lazy delete decided on a read older than the put at `i` hits that put. */
  predicate Overtaken(log: seq<Write>, i: nat, n: nat) {
    exists j :: i < j < n <= |log| && log[j].key == log[i].key && log[j].Remove? && log[j].cause.Lazy?
                && log[j].cause.readAt <= i
  }

  /** Read off the log, exactly when a put is lost: a value that is not expired, not deleted on request and not
      overwritten is still there, unless a lazy delete decided before the put lands after it. */
  lemma PutLostIffOvertaken(s: State, i: nat, n: nat)
    requires Inv(s) && i < n <= |s.log| && s.log[i].Put?
    requires !IsExpired(s.log[i].value, s.now)
    requires forall j :: i < j < n && s.log[j].key == s.log[i].key ==> s.log[j].Remove? && !s.log[j].cause.Asked?
    ensures Last(s.log[..n], s.log[i].key) ==
            if Overtaken(s.log, i, n) then None else Some(s.log[i].value)
  {
    if j :| i < j < n && s.log[j].key == s.log[i].key {
      var first := FirstRemoval(s.log, i, j);
      assert RemoveFits(s.log, first, s.now);
      var cause := s.log[first].cause;
      var seen := if cause.Lazy? then cause.readAt else first;
      if i < seen {
        assert LatestAt(s.log, i, seen);
        LastIsLatest(s.log, i, seen);
        assert false;
      }
      assert Overtaken(s.log, i, n);
      LastAfterRemove(s.log, first, n);
    } else {
      assert LatestAt(s.log, i, n);
      LastIsLatest(s.log, i, n);
    }
  }

  /** The first later write to the key of `log[i]`. */
  lemma {:induction false} FirstRemoval(log: seq<Write>, i: nat, j: nat) returns (first: nat)
    requires i < j < |log| && log[j].key == log[i].key
    ensures i < first <= j && log[first].key == log[i].key
    ensures forall k :: i < k < first ==> log[k].key != log[i].key
    decreases j
  {
    if k :| i < k < j && log[k].key == log[i].key {
      first := FirstRemoval(log, i, k);
    } else {
      first := j;
    }
  }

  // ---- When a put is safe, told before it is made ---------------------------------------------

  /** The put at `i` is neither expired, nor overwritten, nor deleted on request, and yet gone. */
  predicate Lost(s: State, i: nat) {
    && i < |s.log| && s.log[i].Put? && !IsExpired(s.log[i].value, s.now)
    && (forall j :: i < j < |s.log| && s.log[j].key == s.log[i].key ==>
          s.log[j].Remove? && !s.log[j].cause.Asked?)
    && s.log[i].key !in s.db
  }

  /** What was read expires, at the earliest now, while `v` still lives. */
  predicate Outlived(raw: Option<bytes>, v: StoredValue, now: u64) {
    && raw.Some? && Decode(raw.value).Ok?
    && var expireAt := Decode(raw.value).value.expireAt;
       expireAt != 0 && !IsExpired(v, if now >= expireAt then now else expireAt)
  }

  /** A get in flight that can still delete the key: it found the old value expired, or has read it
      and may yet find it so. */
  predicate Threatens(task: Task, key: bytes, v: StoredValue, now: u64) {
    && !task.GetFailed? && task.key == key && !IsExpired(v, now)
    && (task.GetDoomed? || (task.GetRead? && Outlived(task.raw, v, now)))
  }

  ghost predicate Threatened(p: State, key: bytes, v: StoredValue) {
    exists id :: id in p.tasks && Threatens(p.tasks[id], key, v, p.now)
  }

  /** Some continuation of the put loses it. */
  ghost predicate CanLose(p: State, key: bytes, v: StoredValue) {
    exists s, steps :: From(Next(p, PutStep(key, v)), s, steps) && Lost(s, |p.log|)
  }

  /** A get of `p` that has found, or by `now` finds, the old value expired. */
  predicate Blamed(task: Task, key: bytes, now: u64) {
    && !task.GetFailed? && task.key == key
    && (task.GetDoomed?
        || (task.GetRead? && task.raw.Some? && Decode(task.raw.value).Ok?
            && IsExpired(Decode(task.raw.value).value, now)))
  }

  ghost predicate SomeoneBlamed(p: State, key: bytes, now: u64) {
    exists id :: id in p.tasks && Blamed(p.tasks[id], key, now)
  }

  predicate IsOld(task: Task, p: State, key: bytes)
    requires !task.GetFailed?
  {
    task.key == key && task.readAt <= |p.log|
  }

  /** Reads older than the put belong to gets of `p`, and so do lazy deletes decided on them. */
  ghost predicate OldReads(p: State, s: State, key: bytes) {
    && (forall id :: id in s.tasks && s.tasks[id].GetRead? && IsOld(s.tasks[id], p, key) ==>
          id in p.tasks && p.tasks[id] == s.tasks[id])
    && (forall id :: id in s.tasks && s.tasks[id].GetDoomed? && IsOld(s.tasks[id], p, key) ==>
          SomeoneBlamed(p, key, s.now))
  }

  ghost predicate OldRemovals(p: State, s: State, key: bytes) {
    forall j :: (&& |p.log| < j < |s.log| && s.log[j].key == key && s.log[j].Remove?
                 && s.log[j].cause.Lazy? && s.log[j].cause.readAt <= |p.log|)
                ==> SomeoneBlamed(p, key, s.now)
  }

  ghost predicate Tracked(p: State, s: State, key: bytes, v: StoredValue) {
    && |p.log| < |s.log| && s.log[|p.log|] == Put(key, v) && p.now <= s.now
    && OldReads(p, s, key) && OldRemovals(p, s, key)
  }

  lemma BlamedLater(p: State, key: bytes, now: u64, later: u64)
    requires SomeoneBlamed(p, key, now) && now <= later
    ensures SomeoneBlamed(p, key, later)
  {
    hide Decode;
    var id :| id in p.tasks && Blamed(p.tasks[id], key, now);
    assert Blamed(p.tasks[id], key, later);
  }

  lemma CheckTracked(p: State, s: State, key: bytes, v: StoredValue, id: nat)
    requires Tracked(p, s, key, v) && Enabled(s, Check(id))
    ensures Tracked(p, Next(s, Check(id)), key, v)
  {
    hide Decode, IsExpired;
    var task, task' := s.tasks[id], Checked(s.tasks[id], s.now);
    if task'.GetDoomed? && task'.key == key && task'.readAt <= |p.log| {
      assert p.tasks[id] == task;
      assert Blamed(p.tasks[id], key, s.now);
    }
  }

  lemma TickTracked(p: State, s: State, key: bytes, v: StoredValue, now: u64)
    requires Tracked(p, s, key, v) && s.now <= now
    ensures Tracked(p, s.(now := now), key, v)
  {
    hide SomeoneBlamed;
    if SomeoneBlamed(p, key, s.now) {
      BlamedLater(p, key, s.now, now);
    }
  }

  lemma StepTracked(p: State, s: State, key: bytes, v: StoredValue, step: Step)
    requires Tracked(p, s, key, v) && Enabled(s, step)
    ensures Tracked(p, Next(s, step), key, v)
  {
    hide SomeoneBlamed, Checked, Decode, FilterRemoves;
    if step.Tick? {
      TickTracked(p, s, key, v, step.now);
    } else if step.Check? {
      CheckTracked(p, s, key, v, step.id);
    }
  }

  lemma {:induction false} FromTracked(p: State, key: bytes, v: StoredValue, s: State, steps: seq<Step>)
    requires Inv(p) && From(Next(p, PutStep(key, v)), s, steps)
    ensures Tracked(p, s, key, v) && Inv(s)
    decreases |steps|
  {
    var q := Next(p, PutStep(key, v));
    if steps == [] {
      PutTracked(p, key, v);
      InvKept(p, PutStep(key, v));
    } else {
      hide Inv, Tracked, Next;
      var n := |steps| - 1;
      var r :| From(q, r, steps[..n]) && Enabled(r, steps[n]) && s == Next(r, steps[n]);
      FromTracked(p, key, v, r, steps[..n]);
      StepTracked(p, r, key, v, steps[n]);
      InvKept(r, steps[n]);
    }
  }

  lemma PutTracked(p: State, key: bytes, v: StoredValue)
    requires Inv(p)
    ensures Tracked(p, Next(p, PutStep(key, v)), key, v)
  {
    hide Encoded, SomeoneBlamed;
    forall id | id in p.tasks && p.tasks[id].GetDoomed? && p.tasks[id].key == key
      ensures SomeoneBlamed(p, key, p.now)
    {
      DoomedIsBlamed(p, key, id);
    }
  }

  lemma DoomedIsBlamed(p: State, key: bytes, id: nat)
    requires id in p.tasks && p.tasks[id].GetDoomed? && p.tasks[id].key == key
    ensures SomeoneBlamed(p, key, p.now)
  {
    assert Blamed(p.tasks[id], key, p.now);
  }

  lemma BlamedThreatens(p: State, key: bytes, v: StoredValue, now: u64)
    requires SomeoneBlamed(p, key, now) && p.now <= now && !IsExpired(v, now)
    ensures Threatened(p, key, v)
  {
    hide Decode;
    var id :| id in p.tasks && Blamed(p.tasks[id], key, now);
    assert Threatens(p.tasks[id], key, v, p.now);
  }

  /** A put nobody threatens is safe in every continuation. */
  lemma LostIsThreatened(p: State, key: bytes, v: StoredValue, s: State, steps: seq<Step>)
    requires Inv(p) && From(Next(p, PutStep(key, v)), s, steps) && Lost(s, |p.log|)
    ensures Threatened(p, key, v)
  {
    hide From, Next, SomeoneBlamed, Threatened;
    FromTracked(p, key, v, s, steps);
    var i := |p.log|;
    PutLostIffOvertaken(s, i, |s.log|);
    assert s.log[..|s.log|] == s.log;
    assert Raw(s.db, key) == Encoding(Last(s.log, key));
    assert Overtaken(s.log, i, |s.log|);
    BlamedThreatens(p, key, v, s.now);
  }

  lemma DoomedLoses(p: State, key: bytes, v: StoredValue, id: nat)
    requires Inv(p) && id in p.tasks && p.tasks[id].GetDoomed? && Threatens(p.tasks[id], key, v, p.now)
    ensures CanLose(p, key, v)
  {
    hide Encoded;
    var q := Next(p, PutStep(key, v));
    assert From(q, q, []);
    hide From;
    var s, steps := FromNext(q, q, [], LazyDelete(id));
    assert Lost(s, |p.log|);
  }

  lemma ReadLoses(p: State, key: bytes, v: StoredValue, id: nat)
    requires Inv(p) && id in p.tasks && p.tasks[id].GetRead? && Threatens(p.tasks[id], key, v, p.now)
    ensures CanLose(p, key, v)
  {
    hide Encoded, Decode, Inv;
    var expireAt := Decode(p.tasks[id].raw.value).value.expireAt;
    var t := if p.now >= expireAt then p.now else expireAt;
    var q := Next(p, PutStep(key, v));
    assert From(q, q, []);
    hide From;
    var s1, r1 := FromNext(q, q, [], Tick(t));
    var s2, r2 := FromNext(q, s1, r1, Check(id));
    var s3, r3 := FromNext(q, s2, r2, LazyDelete(id));
    assert Lost(s3, |p.log|);
  }

  /** Told from the state before the put: it can be lost while it lives if and only if some get in
      flight has read the old value of the key and found it expired, or may still find it so before
      the new value expires. */
  lemma PutCanBeLostIff(p: State, steps: seq<Step>, key: bytes, v: StoredValue)
    requires Reachable(p, steps)
    ensures CanLose(p, key, v) <==> Threatened(p, key, v)
  {
    hide Reachable, Inv, Lost, Threatens, From, Next;
    ReachableInv(p, steps);
    if CanLose(p, key, v) {
      var s, more :| From(Next(p, PutStep(key, v)), s, more) && Lost(s, |p.log|);
      LostIsThreatened(p, key, v, s, more);
    }
    if Threatened(p, key, v) {
      var id :| id in p.tasks && Threatens(p.tasks[id], key, v, p.now);
      ThreatLoses(p, key, v, id);
    }
  }

  lemma ThreatLoses(p: State, key: bytes, v: StoredValue, id: nat)
    requires Inv(p) && id in p.tasks && Threatens(p.tasks[id], key, v, p.now)
    ensures CanLose(p, key, v)
  {
    hide Inv, CanLose, Outlived;
    if p.tasks[id].GetDoomed? {
      DoomedLoses(p, key, v, id);
    } else {
      ReadLoses(p, key, v, id);
    }
  }

  /** Run without interruption, the steps of a get are the atomic get... */
  lemma UninterruptedGet(s: State, id: nat, key: bytes)
    requires id !in s.tasks && Decodable(s.db)
    ensures var read := Next(s, ReadForGet(id, key));
            var checked := Next(read, Check(id));
            var done := if checked.tasks[id].GetDoomed? then Next(checked, LazyDelete(id)) else checked;
            && done.db == AfterGet(s.db, key, s.now)
            && done.tasks[id] == GetDone(key, |s.log|, Found(s.db, key, s.now), s.now)
  {
    hide Decode, IsExpired;
  }

  /** ...and those of a delete are the atomic delete. */
  lemma UninterruptedDelete(s: State, id: nat, key: bytes)
    requires id !in s.tasks
    ensures var done := Next(Next(s, ReadForDelete(id, key)), Step.Delete(id));
            && done.db == s.db - {key}
            && done.tasks[id] == DeleteDone(key, |s.log|, key in s.db, s.now)
  {
  }

  /** The last write but one put a value that never expires, and yet it is gone. */
  predicate LostFresh(s: State) {
    && |s.log| >= 2
    && s.log[|s.log| - 2].Put? && s.log[|s.log| - 2].value.expireAt == 0
    && Overtaken(s.log, |s.log| - 2, |s.log|)
    && s.log[|s.log| - 2].key !in s.db
  }

  lemma DoomedGet(key: bytes, v: StoredValue) returns (s: State, steps: seq<Step>)
    requires v.expireAt == 1
    ensures Reachable(s, steps)
    ensures s == State(map[key := Encoded(v)], [Put(key, v)], map[0 := GetDoomed(key, 1)], 1)
  {
    DecodeEncoded(v);
    assert Checked(GetRead(key, 1, Some(Encoded(v))), 1) == GetDoomed(key, 1);
    assert From(INITIAL, INITIAL, []);
    hide From, Encoded, Decode, Checked;
    s, steps := FromNext(INITIAL, INITIAL, [], Tick(1));
    assert s == State(map[], [], map[], 1);
    s, steps := FromNext(INITIAL, s, steps, PutStep(key, v));
    assert s == State(map[key := Encoded(v)], [Put(key, v)], map[], 1);
    s, steps := FromNext(INITIAL, s, steps, ReadForGet(0, key));
    s, steps := FromNext(INITIAL, s, steps, Check(0));
  }

  /** So the stronger promise, that a fresh set survives until it expires or is deleted on request,
      does not hold. */
  lemma FreshPutCanBeLost()
    ensures exists s, steps :: Reachable(s, steps) && LostFresh(s)
  {
    hide From, Encoded, Decode;
    var key: bytes := [65];
    var s, steps := DoomedGet(key, StoredValue(1, 0, []));
    s, steps := FromNext(INITIAL, s, steps, PutStep(key, StoredValue(0, 0, [])));
    s, steps := FromNext(INITIAL, s, steps, LazyDelete(0));
    assert s.log[2] == Remove(key, Lazy(1));
    assert s.log[2].cause.readAt <= 1;
    assert Reachable(s, steps);
  }
}
