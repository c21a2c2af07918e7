/** Admission of connections: a semaphore permit per handler, and the connection counters. */
module Admission {

  /** How a handler ends. The first three leave its loop and reach the end of the handler; a quit and
      a failed write return from inside, before the gauge goes down. */
  datatype Ending = PeerClosed | ReadFailed | Cancelled | QuitCommand | WriteFailed
  {
    predicate LowersGauge() {
      PeerClosed? || ReadFailed? || Cancelled?
    }
  }

  /** An attempt to connect, or the end of a live handler. */
  datatype Step = Connect(id: nat) | End(id: nat, how: Ending)

  datatype State = State(
    permits: nat, totalConnections: nat, rejectedConnections: nat, activeConnections: int, live: set<nat>)

  function Started(maxConnections: nat): State {
    State(maxConnections, 0, 0, 0, {})
  }

  predicate Enabled(s: State, step: Step) {
    match step
    case Connect(id) => id !in s.live
    case End(id, _) => id in s.live
  }

  function Next(s: State, step: Step): State
    requires Enabled(s, step)
  {
    match step
    case Connect(id) =>
      if s.permits == 0 then s.(rejectedConnections := s.rejectedConnections + 1)
      else s.(permits := s.permits - 1, totalConnections := s.totalConnections + 1,
              activeConnections := s.activeConnections + 1, live := s.live + {id})
    case End(id, how) =>
      s.(permits := s.permits + 1, live := s.live - {id},
         activeConnections := s.activeConnections - if how.LowersGauge() then 1 else 0)
  }

  ghost predicate Reachable(s: State, maxConnections: nat, steps: seq<Step>)
    decreases |steps|
  {
    if steps == [] then s == Started(maxConnections)
    else
      var n := |steps| - 1;
      exists p :: Reachable(p, maxConnections, steps[..n]) && Enabled(p, steps[n]) && s == Next(p, steps[n])
  }

  function Attempts(steps: seq<Step>): nat {
    if steps == [] then 0 else Attempts(steps[..|steps| - 1]) + if steps[|steps| - 1].Connect? then 1 else 0
  }

  function Ended(steps: seq<Step>): nat {
    if steps == [] then 0 else Ended(steps[..|steps| - 1]) + if steps[|steps| - 1].End? then 1 else 0
  }

  /** Handlers that ended without lowering the gauge. */
  function EndedEarly(steps: seq<Step>): nat {
    if steps == [] then 0 else
      EndedEarly(steps[..|steps| - 1])
      + if steps[|steps| - 1].End? && !steps[|steps| - 1].how.LowersGauge() then 1 else 0
  }

  /** Over every run: permits and live handlers share the limit, every attempt is counted once as
      admitted or rejected, every admitted connection is live or ended, and the gauge exceeds the
      live handlers by exactly those that ended early. */
  lemma {:induction false} Accounting(s: State, maxConnections: nat, steps: seq<Step>)
    requires Reachable(s, maxConnections, steps)
    ensures s.permits + |s.live| == maxConnections
    ensures s.totalConnections == |s.live| + Ended(steps)
    ensures s.totalConnections + s.rejectedConnections == Attempts(steps)
    ensures s.activeConnections == |s.live| + EndedEarly(steps)
    decreases |steps|
  {
    if steps != [] {
      var n := |steps| - 1;
      var p :| Reachable(p, maxConnections, steps[..n]) && Enabled(p, steps[n]) && s == Next(p, steps[n]);
      Accounting(p, maxConnections, steps[..n]);
    }
  }

  /** A connection is turned away exactly when the limit is reached. */
  lemma RejectedIffFull(s: State, maxConnections: nat, steps: seq<Step>, id: nat)
    requires Reachable(s, maxConnections, steps) && id !in s.live
    ensures id in Next(s, Connect(id)).live <==> |s.live| < maxConnections
    ensures |s.live| <= maxConnections
  {
    Accounting(s, maxConnections, steps);
  }

  /** The gauge is right exactly when no handler ended by a quit or a failed write. */
  lemma GaugeExactIff(s: State, maxConnections: nat, steps: seq<Step>)
    requires Reachable(s, maxConnections, steps)
    ensures s.activeConnections >= |s.live|
    ensures s.activeConnections == |s.live| <==>
            forall i :: 0 <= i < |steps| && steps[i].End? ==> steps[i].how != QuitCommand && steps[i].how != WriteFailed
  {
    Accounting(s, maxConnections, steps);
    NoneEndedEarly(steps);
  }

  /** The gauge does drift: one client that connects and quits leaves it at one with nobody there. */
  lemma GaugeDrifts(maxConnections: nat)
    requires maxConnections > 0
    ensures exists s, steps ::
              && Reachable(s, maxConnections, steps) && steps == [Connect(0), End(0, QuitCommand)]
              && s.live == {} && s.activeConnections == 1
  {
    var s0 := Started(maxConnections);
    var s1 := Next(s0, Connect(0));
    var s2 := Next(s1, End(0, QuitCommand));
    var steps := [Connect(0), End(0, QuitCommand)];
    assert steps[..1] == [Connect(0)] && steps[..1][..0] == [];
    assert Reachable(s0, maxConnections, steps[..1][..0]);
    assert Reachable(s1, maxConnections, steps[..1]);
    assert Reachable(s2, maxConnections, steps);
  }

  lemma {:induction false} NoneEndedEarly(steps: seq<Step>)
    ensures EndedEarly(steps) == 0 <==>
            forall i :: 0 <= i < |steps| && steps[i].End? ==> steps[i].how.LowersGauge()
  {
    if steps != [] {
      var n := |steps| - 1;
      NoneEndedEarly(steps[..n]);
      assert forall i :: 0 <= i < n ==> steps[..n][i] == steps[i];
    }
  }

  class Gate {
    var permits: nat
    var totalConnections: nat
    var rejectedConnections: nat
    var activeConnections: int
    ghost var live: set<nat>

    constructor (maxConnections: nat)
      ensures View() == Started(maxConnections)
    {
      permits, totalConnections, rejectedConnections, activeConnections := maxConnections, 0, 0, 0;
      live := {};
    }

    ghost function View(): State
      reads this
    {
      State(permits, totalConnections, rejectedConnections, activeConnections, live)
    }

    /** `handle_new_connection`: `try_acquire` a permit, or reject. */
    method HandleNewConnection(ghost id: nat) returns (admitted: bool)
      requires id !in live
      modifies this
      ensures View() == Next(old(View()), Connect(id))
      ensures admitted <==> id in live
    {
      admitted := permits > 0;
      if admitted {
        permits := permits - 1;
        totalConnections := totalConnections + 1;
        activeConnections := activeConnections + 1;
        live := live + {id};
      } else {
        rejectedConnections := rejectedConnections + 1;
      }
    }

    /** The last statement of a handler that leaves its loop. */
    method LowerGauge()
      modifies this`activeConnections
      ensures activeConnections == old(activeConnections) - 1
    {
      activeConnections := activeConnections - 1;
    }

    /** The permit goes back when the handler's task is done. */
    method DropPermit(ghost id: nat)
      modifies this`permits, this`live
      ensures permits == old(permits) + 1 && live == old(live) - {id}
    {
      permits := permits + 1;
      live := live - {id};
    }
  }
}
