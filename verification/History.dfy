/** What clients see, told from the history of handled events alone, with commands executed one at a
    time. */
module History {
  import opened Bytes
  import opened Command
  import opened Value
  import opened StoreRefinement
  import R = Response
  import opened Conversation
  import opened Handler
  import opened Session
  import opened ServerRun

  /** The map the handled events alone would build. */
  function Folded(log: seq<Entry>, clock: Clock): Reference {
    if log == [] then map[] else
      var last := log[|log| - 1];
      AdvanceBy(Folded(log[..|log| - 1], clock), last.event, clock(last.tick))
  }

  ghost predicate EntriesFolded(log: seq<Entry>, clock: Clock) {
    forall i :: 0 <= i < |log| ==> log[i].reference == Folded(log[..i], clock)
  }

  lemma FoldedAppend(log: seq<Entry>, entry: Entry, clock: Clock)
    requires EntriesFolded(log, clock) && entry.reference == Folded(log, clock)
    ensures Folded(log + [entry], clock) == AdvanceBy(Folded(log, clock), entry.event, clock(entry.tick))
    ensures EntriesFolded(log + [entry], clock)
  {
    var log' := log + [entry];
    assert log'[..|log|] == log;
    hide AdvanceBy, Folded;
    forall i | 0 <= i < |log'| ensures log'[i].reference == Folded(log'[..i], clock) {
      if i < |log| {
        assert log'[..i] == log[..i];
      }
    }
  }

  lemma FoldedKept(w: World, step: Step, clock: Clock)
    requires w.reference == Folded(w.log, clock) && EntriesFolded(w.log, clock) && Enabled(w, step)
    ensures var w' := Next(w, step, clock);
            w'.reference == Folded(w'.log, clock) && EntriesFolded(w'.log, clock)
  {
    hide Turn, Serve, AdvanceBy, Folded, EntriesFolded, WriteAll;
    if step.LoopTurn? && Turn(w.sessions[step.id].conn).1.Some? {
      TurnParts(w, step.id, clock);
      var e := Turn(w.sessions[step.id].conn).1.value;
      FoldedAppend(w.log, Entry(step.id, e, Serve(w.server, e, clock).1, w.reference, w.server.tick), clock);
    }
  }

  /** The reference recorded with every entry is the fold of the events handled before it. */
  lemma {:induction false} ReferenceIsFolded(w: World, steps: seq<Step>, clock: Clock)
    requires Reachable(w, steps, clock)
    ensures w.reference == Folded(w.log, clock) && EntriesFolded(w.log, clock)
    decreases |steps|
  {
    hide Next, Enabled;
    if steps != [] {
      var n := |steps| - 1;
      var p :| Reachable(p, steps[..n], clock) && Enabled(p, steps[n]) && w == Next(p, steps[n], clock);
      ReferenceIsFolded(p, steps[..n], clock);
      FoldedKept(p, steps[n], clock);
    }
  }

  // ---- The latest write to a key --------------------------------------------------------------

  predicate WritesKey(e: Event, key: bytes) {
    e.Executed? && (e.cmd.Set? || e.cmd.Delete?) && e.cmd.key == key
  }

  predicate SetsKey(e: Event, key: bytes) {
    e.Executed? && e.cmd.Set? && e.cmd.key == key
  }

  /** Entry `j` set `key`, and no entry after it and before `n` wrote that key. */
  predicate LatestSet(log: seq<Entry>, n: nat, j: nat, key: bytes) {
    && j < n <= |log| && SetsKey(log[j].event, key)
    && forall m :: j < m < n ==> !WritesKey(log[m].event, key)
  }

  function ValueSetBy(e: Entry, clock: Clock): StoredValue
    requires e.event.Executed? && e.event.cmd.Set?
  {
    NewValue(e.event.cmd.flags, e.event.cmd.exptime, e.event.cmd.data, clock(e.tick))
  }

  lemma {:induction false} FoldedHasLatestSet(log: seq<Entry>, n: nat, j: nat, key: bytes, clock: Clock)
    requires LatestSet(log, n, j, key)
    ensures key in Folded(log[..n], clock) && Folded(log[..n], clock)[key] == ValueSetBy(log[j], clock)
    decreases n
  {
    hide NewValue;
    assert log[..n][..n - 1] == log[..n - 1];
    if j < n - 1 {
      assert !WritesKey(log[n - 1].event, key);
      FoldedHasLatestSet(log, n - 1, j, key, clock);
    }
  }

  lemma {:induction false} FoldedKeyWasSet(log: seq<Entry>, n: nat, key: bytes, clock: Clock)
    requires n <= |log| && key in Folded(log[..n], clock)
    ensures exists j: nat :: LatestSet(log, n, j, key)
    decreases n
  {
    hide NewValue;
    assert log[..n][..n - 1] == log[..n - 1];
    if SetsKey(log[n - 1].event, key) {
      assert LatestSet(log, n, n - 1, key);
    } else {
      FoldedKeyWasSet(log, n - 1, key, clock);
      var j: nat :| LatestSet(log, n - 1, j, key);
      assert LatestSet(log, n, j, key);
    }
  }

  // ---- What a get shows -----------------------------------------------------------------------

  predicate IsGet(e: Event) {
    e.Executed? && e.cmd.Get?
  }

  /** The get at entry `i` shows, for its key number `p`, the value set at entry `j`: the latest set
      of that key, not deleted since, within the lifetime it was given. */
  predicate Shows(log: seq<Entry>, i: nat, p: nat, j: nat, clock: Clock)
    requires i < |log| && IsGet(log[i].event)
  {
    && p < |log[i].event.cmd.keys|
    && LatestSet(log, i, j, log[i].event.cmd.keys[p])
    && Visible(log[j].event.cmd.exptime, clock(log[j].tick), clock(log[i].tick + p))
  }

  function ItemSetBy(e: Entry): R.Item
    requires e.event.Executed? && e.event.cmd.Set?
  {
    R.Item(e.event.cmd.key, e.event.cmd.flags, e.event.cmd.data)
  }

  lemma {:induction false} ItemsForIff(keys: seq<bytes>, answers: seq<Option<StoredValue>>, item: R.Item)
    requires |answers| == |keys|
    ensures item in ItemsFor(keys, answers) <==>
            exists p :: && 0 <= p < |keys| && answers[p].Some?
                        && item == R.Item(keys[p], answers[p].value.flags, answers[p].value.data)
  {
    if keys != [] {
      var n := |keys| - 1;
      ItemsForIff(keys[..n], answers[..n], item);
      assert forall p :: 0 <= p < n ==> keys[..n][p] == keys[p] && answers[..n][p] == answers[p];
    }
  }

  /** The items are those of the keys that were found, each once, in the order of the keys. */
  ghost predicate InOrder(keys: seq<bytes>, answers: seq<Option<StoredValue>>, items: seq<R.Item>, ps: seq<nat>)
    requires |answers| == |keys|
  {
    && |ps| == |items|
    && (forall q :: 0 <= q < |ps| ==>
          && ps[q] < |keys| && answers[ps[q]].Some?
          && items[q] == R.Item(keys[ps[q]], answers[ps[q]].value.flags, answers[ps[q]].value.data))
    && (forall q, q' :: 0 <= q < q' < |ps| ==> ps[q] < ps[q'])
    && (forall p: nat :: p < |keys| && answers[p].Some? ==> p in ps)
  }

  lemma InOrderNext(keys: seq<bytes>, answers: seq<Option<StoredValue>>, items: seq<R.Item>, ps: seq<nat>)
    requires |answers| == |keys| && keys != []
    requires InOrder(keys[..|keys| - 1], answers[..|keys| - 1], items, ps)
    ensures var n := |keys| - 1;
            if answers[n].None? then InOrder(keys, answers, items, ps)
            else
              InOrder(keys, answers,
                      items + [R.Item(keys[n], answers[n].value.flags, answers[n].value.data)], ps + [n])
  {
    var n := |keys| - 1;
    forall p: nat | p < n && answers[p].Some? ensures p in ps {
      assert answers[..n][p].Some?;
    }
    assert (ps + [n])[|ps|] == n;
  }

  lemma {:induction false} ItemsForInOrder(keys: seq<bytes>, answers: seq<Option<StoredValue>>)
    returns (ps: seq<nat>)
    requires |answers| == |keys|
    ensures InOrder(keys, answers, ItemsFor(keys, answers), ps)
  {
    ps := [];
    if keys != [] {
      hide InOrder;
      var n := |keys| - 1;
      ps := ItemsForInOrder(keys[..n], answers[..n]);
      InOrderNext(keys, answers, ItemsFor(keys[..n], answers[..n]), ps);
      if answers[n].Some? {
        ps := ps + [n];
      } else {
        assert ItemsFor(keys, answers) == ItemsFor(keys[..n], answers[..n]);
      }
    }
  }

  lemma LiveIffLatestSet(log: seq<Entry>, n: nat, key: bytes, now: u64, clock: Clock)
    requires n <= |log|
    ensures Live(Folded(log[..n], clock), key, now).Some? <==>
            exists j: nat :: && LatestSet(log, n, j, key)
                             && Visible(log[j].event.cmd.exptime, clock(log[j].tick), now)
    ensures forall j: nat :: LatestSet(log, n, j, key) && Live(Folded(log[..n], clock), key, now).Some? ==>
              Live(Folded(log[..n], clock), key, now).value == ValueSetBy(log[j], clock)
  {
    hide Folded, NewValue, IsExpired, Visible;
    forall j: nat | LatestSet(log, n, j, key)
      ensures key in Folded(log[..n], clock) && Folded(log[..n], clock)[key] == ValueSetBy(log[j], clock)
      ensures !IsExpired(ValueSetBy(log[j], clock), now) <==>
              Visible(log[j].event.cmd.exptime, clock(log[j].tick), now)
    {
      FoldedHasLatestSet(log, n, j, key, clock);
      var cmd := log[j].event.cmd;
      ExpiryMatchesRequest(cmd.flags, cmd.exptime, cmd.data, clock(log[j].tick), now);
    }
    if key in Folded(log[..n], clock) {
      FoldedKeyWasSet(log, n, key, clock);
    }
  }

  /** In every run with commands executed one at a time, a get is answered with exactly the items of
      the latest sets of its keys that were not deleted since and whose lifetime lasts. */
  lemma GetShowsLatestSets(w: World, steps: seq<Step>, clock: Clock, i: nat, item: R.Item)
    requires Reachable(w, steps, clock) && Monotone(clock) && i < |w.log| && IsGet(w.log[i].event)
    ensures w.log[i].sent.Some? && w.log[i].sent.value.Values?
    ensures item in w.log[i].sent.value.items <==>
            exists p: nat, j: nat :: Shows(w.log, i, p, j, clock) && item == ItemSetBy(w.log[j])
  {
    hide Reachable, Monotone, Folded, Live, ItemsFor, LatestSet, Visible, R.Clean;
    RepliesFollowReference(w, steps, clock, i);
    ReferenceIsFolded(w, steps, clock);
    ItemsAreLatestSets(w.log, i, clock, item);
  }

  lemma ItemsAreLatestSets(log: seq<Entry>, i: nat, clock: Clock, item: R.Item)
    requires i < |log| && IsGet(log[i].event)
    ensures var keys := log[i].event.cmd.keys;
            item in ItemsFor(keys, LiveAll(Folded(log[..i], clock), keys, Sample(clock, log[i].tick, |keys|)))
            <==> exists p: nat, j: nat :: Shows(log, i, p, j, clock) && item == ItemSetBy(log[j])
  {
    hide Folded, Live, ItemsFor, Visible;
    var keys := log[i].event.cmd.keys;
    var answers := LiveAll(Folded(log[..i], clock), keys, Sample(clock, log[i].tick, |keys|));
    ItemsForIff(keys, answers, item);
    forall p: nat | p < |keys|
      ensures answers[p].Some? <==> exists j: nat :: Shows(log, i, p, j, clock)
      ensures forall j: nat :: Shows(log, i, p, j, clock) ==>
                ItemSetBy(log[j]) == R.Item(keys[p], answers[p].value.flags, answers[p].value.data)
    {
      ShowsIffFound(log, i, p, clock);
    }
  }

  /** The reference has an answer for key number `p` exactly when some earlier set shows there. */
  lemma ShowsIffFound(log: seq<Entry>, i: nat, p: nat, clock: Clock)
    requires i < |log| && IsGet(log[i].event) && p < |log[i].event.cmd.keys|
    ensures var key := log[i].event.cmd.keys[p];
            var answer := Live(Folded(log[..i], clock), key, clock(log[i].tick + p));
            && (answer.Some? <==> exists j: nat :: Shows(log, i, p, j, clock))
            && forall j: nat :: Shows(log, i, p, j, clock) ==>
                 ItemSetBy(log[j]) == R.Item(key, answer.value.flags, answer.value.data)
  {
    hide Folded, Live, Visible;
    var keys := log[i].event.cmd.keys;
    LiveIffLatestSet(log, i, keys[p], clock(log[i].tick + p), clock);
    assert forall j: nat :: Shows(log, i, p, j, clock) <==>
      LatestSet(log, i, j, keys[p]) && Visible(log[j].event.cmd.exptime, clock(log[j].tick), clock(log[i].tick + p));
  }

  /** Position `ps[q]` of the keys of the get at entry `i` is answered by item `q`. */
  ghost predicate Answers(log: seq<Entry>, i: nat, items: seq<R.Item>, ps: seq<nat>, clock: Clock)
    requires i < |log| && IsGet(log[i].event)
  {
    && |ps| == |items|
    && (forall q :: 0 <= q < |ps| ==>
          exists j: nat :: Shows(log, i, ps[q], j, clock) && items[q] == ItemSetBy(log[j]))
    && (forall q, q' :: 0 <= q < q' < |ps| ==> ps[q] < ps[q'])
    && (forall p: nat, j: nat :: Shows(log, i, p, j, clock) ==> p in ps)
  }

  /** And in that order: one item for each position of its keys that has something to show, first to
      last, and no other item. */
  lemma GetAnswersInOrder(w: World, steps: seq<Step>, clock: Clock, i: nat)
    requires Reachable(w, steps, clock) && Monotone(clock) && i < |w.log| && IsGet(w.log[i].event)
    ensures w.log[i].sent.Some? && w.log[i].sent.value.Values?
    ensures exists ps :: Answers(w.log, i, w.log[i].sent.value.items, ps, clock)
  {
    hide Reachable, Monotone, Folded, Live, ItemsFor, LatestSet, Visible, R.Clean, Answers;
    RepliesFollowReference(w, steps, clock, i);
    ReferenceIsFolded(w, steps, clock);
    var keys := w.log[i].event.cmd.keys;
    var answers := LiveAll(Folded(w.log[..i], clock), keys, Sample(clock, w.log[i].tick, |keys|));
    var ps := ItemsForInOrder(keys, answers);
    InOrderAnswers(w.log, i, ps, clock);
  }

  lemma InOrderAnswers(log: seq<Entry>, i: nat, ps: seq<nat>, clock: Clock)
    requires i < |log| && IsGet(log[i].event)
    requires var keys := log[i].event.cmd.keys;
             var answers := LiveAll(Folded(log[..i], clock), keys, Sample(clock, log[i].tick, |keys|));
             InOrder(keys, answers, ItemsFor(keys, answers), ps)
    ensures var keys := log[i].event.cmd.keys;
            var answers := LiveAll(Folded(log[..i], clock), keys, Sample(clock, log[i].tick, |keys|));
            Answers(log, i, ItemsFor(keys, answers), ps, clock)
  {
    hide Folded, Live, ItemsFor, Visible;
    var keys := log[i].event.cmd.keys;
    var answers := LiveAll(Folded(log[..i], clock), keys, Sample(clock, log[i].tick, |keys|));
    forall p: nat | p < |keys|
      ensures answers[p].Some? <==> exists j: nat :: Shows(log, i, p, j, clock)
      ensures forall j: nat :: Shows(log, i, p, j, clock) ==>
                ItemSetBy(log[j]) == R.Item(keys[p], answers[p].value.flags, answers[p].value.data)
    {
      ShowsIffFound(log, i, p, clock);
    }
  }
}
