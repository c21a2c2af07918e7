/** Requests cut into database steps, against the reference map that the same writes build. */
module StepReference {
  import opened Bytes
  import opened Command
  import opened Value
  import opened StoreRefinement
  import opened Interleaving

  /** The reference after the writes of `log`: lazy deletes and compactions leave it alone. */
  function Folded(log: seq<Write>): Reference {
    if log == [] then map[]
    else
      var m, w := Folded(log[..|log| - 1]), log[|log| - 1];
      match w
      case Put(key, value) => m[key := value]
      case Remove(key, cause) => if cause.Asked? then m - {key} else m
  }

  /** `log[i]` put `key`, and nothing since overwrote it or deleted it on request. */
  predicate LatestPut(log: seq<Write>, i: nat, key: bytes) {
    && i < |log| && log[i].Put? && log[i].key == key
    && forall j :: i < j < |log| && log[j].key == key ==> log[j].Remove? && !log[j].cause.Asked?
  }

  /** A lazy delete decided on a read older than the latest put of `key` has landed after it. */
  ghost predicate Raced(log: seq<Write>, key: bytes) {
    exists i: nat :: LatestPut(log, i, key) && Overtaken(log, i, |log|)
  }

  predicate Answered(task: Task) {
    task.GetDone? || task.DeleteDone?
  }

  function OpOf(task: Task): Op
    requires Answered(task)
  {
    if task.GetDone? then GetOp(task.key, task.checkedAt) else DeleteOp(task.key, task.checkedAt)
  }

  function AnswerOf(task: Task): Answer
    requires Answered(task)
  {
    if task.GetDone? then Got(task.value) else Existed(task.existed)
  }

  // ---- The database and the reference at one point of the log ---------------------------------

  lemma {:induction false} FoldedHasLatestPut(log: seq<Write>, key: bytes) returns (i: nat)
    requires key in Folded(log)
    ensures LatestPut(log, i, key) && log[i].value == Folded(log)[key]
  {
    var n := |log| - 1;
    if log[n] == Put(key, Folded(log)[key]) {
      i := n;
    } else {
      i := FoldedHasLatestPut(log[..n], key);
    }
  }

  lemma {:induction false} LastIsFolded(log: seq<Write>, key: bytes)
    requires Last(log, key).Some?
    ensures key in Folded(log) && Folded(log)[key] == Last(log, key).value
  {
    var n := |log| - 1;
    if log[n].key != key {
      LastIsFolded(log[..n], key);
    }
  }

  lemma LatestPutIsOne(log: seq<Write>, key: bytes, i: nat, j: nat)
    requires LatestPut(log, i, key) && LatestPut(log, j, key)
    ensures i == j
  {
  }

  /** What the database holds of `key` is what the reference shows at `t`, unless the put was raced. */
  ghost predicate Agrees(log: seq<Write>, key: bytes, t: u64) {
    var shown := Live(Folded(log), key, t);
    shown.Some? ==> Last(log, key) == if Raced(log, key) then None else shown
  }

  lemma AgreesNow(s: State, key: bytes)
    requires Inv(s)
    ensures Agrees(s.log, key, s.now)
  {
    hide Inv, Overtaken, Folded, Last;
    var log := s.log;
    if Live(Folded(log), key, s.now).Some? {
      var i := FoldedHasLatestPut(log, key);
      PutLostIffOvertaken(s, i, |log|);
      assert log[..|log|] == log;
      forall j: nat | LatestPut(log, j, key) ensures i == j {
        LatestPutIsOne(log, key, i, j);
      }
    }
  }

  lemma AgreesLater(log: seq<Write>, key: bytes, t: u64, later: u64)
    requires Agrees(log, key, t) && t <= later
    ensures Agrees(log, key, later)
  {
    hide Folded, Last, Raced;
  }

  // ---- Every task's read ----------------------------------------------------------------------

  /** The read of a task agreed with the reference, up to the time the task looked, if it has. */
  ghost predicate TaskAgrees(log: seq<Write>, task: Task, now: u64) {
    !task.GetFailed? ==>
      && task.readAt <= |log|
      && var t := if task.GetRead? || task.GetDoomed? then now else task.checkedAt;
         t <= now && Agrees(log[..task.readAt], task.key, t)
  }

  ghost predicate TasksAgree(s: State) {
    forall id :: id in s.tasks ==> TaskAgrees(s.log, s.tasks[id], s.now)
  }

  lemma TaskAgreesLater(log: seq<Write>, ws: seq<Write>, task: Task, now: u64, later: u64)
    requires TaskAgrees(log, task, now) && now <= later
    ensures TaskAgrees(log + ws, task, later)
  {
    hide Agrees;
    if !task.GetFailed? {
      assert (log + ws)[..task.readAt] == log[..task.readAt];
      if task.GetRead? || task.GetDoomed? {
        AgreesLater(log[..task.readAt], task.key, now, later);
      }
    }
  }

  lemma OldAgree(s: State, ws: seq<Write>, later: u64)
    requires TasksAgree(s) && s.now <= later
    ensures forall id :: id in s.tasks ==> TaskAgrees(s.log + ws, s.tasks[id], later)
  {
    hide TaskAgrees;
    forall id | id in s.tasks ensures TaskAgrees(s.log + ws, s.tasks[id], later) {
      TaskAgreesLater(s.log, ws, s.tasks[id], s.now, later);
    }
  }

  /** The writes a step performs. */
  function WritesOf(s: State, step: Step): (ws: seq<Write>)
    requires Enabled(s, step)
    ensures Next(s, step).log == s.log + ws
  {
    match step
    case PutStep(key, value) => [Put(key, value)]
    case LazyDelete(id) => [Remove(s.tasks[id].key, Lazy(s.tasks[id].readAt))]
    case Delete(id) => [Remove(s.tasks[id].key, Asked)]
    case Compact(key) => [Remove(key, Compacted)]
    case _ => []
  }

  lemma ReadAgrees(s: State, key: bytes)
    requires Inv(s)
    ensures forall raw :: TaskAgrees(s.log, GetRead(key, |s.log|, raw), s.now)
    ensures forall existed :: TaskAgrees(s.log, DeleteRead(key, |s.log|, existed, s.now), s.now)
  {
    hide Agrees;
    AgreesNow(s, key);
    assert s.log[..|s.log|] == s.log;
  }

  lemma StepAgrees(s: State, step: Step)
    requires Inv(s) && TasksAgree(s) && Enabled(s, step)
    ensures TasksAgree(Next(s, step))
  {
    hide Inv, Agrees, FilterRemoves, Decode, Encoded;
    var s' := Next(s, step);
    OldAgree(s, WritesOf(s, step), s'.now);
    if step.ReadForGet? || step.ReadForDelete? {
      ReadAgrees(s, step.key);
    }
  }

  lemma {:induction false} ReachableAgrees(s: State, steps: seq<Step>)
    requires Reachable(s, steps)
    ensures Inv(s) && TasksAgree(s)
    decreases |steps|
  {
    ReachableInv(s, steps);
    if steps != [] {
      hide Inv, TasksAgree, Next;
      var n := |steps| - 1;
      var p :| From(INITIAL, p, steps[..n]) && Enabled(p, steps[n]) && s == Next(p, steps[n]);
      ReachableAgrees(p, steps[..n]);
      StepAgrees(p, steps[n]);
    }
  }

  // ---- The exact condition --------------------------------------------------------------------

  /** In every interleaving, a get or a delete answers as the reference at its read allows if and only
      if it is not so that the reference shows the key and its latest put was raced. */
  lemma AnswersReferenceIff(s: State, steps: seq<Step>, id: nat)
    requires Reachable(s, steps) && id in s.tasks && Answered(s.tasks[id])
    ensures var task := s.tasks[id];
            && task.readAt <= |s.log|
            && var before := s.log[..task.readAt];
               && (Allows(Folded(before), OpOf(task), AnswerOf(task)) <==>
                   !(Live(Folded(before), task.key, task.checkedAt).Some? && Raced(before, task.key)))
  {
    hide Reachable, Folded, Last, Raced;
    ReachableAgrees(s, steps);
    var task := s.tasks[id];
    assert TaskFits(s.log, task, s.now);
    assert TaskAgrees(s.log, task, s.now);
    var before := s.log[..task.readAt];
    if Last(before, task.key).Some? {
      LastIsFolded(before, task.key);
    }
  }
}
