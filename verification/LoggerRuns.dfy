/** What every interleaving of the logger keeps. */
module LoggerRuns {
  import opened Options
  import opened LoggerModel

  // ----- the invariant

  /** At most one worker is running: every thread but the one in the handle has returned. */
  ghost predicate OneWorker(x: System) {
    && (x.s.thread.Some? ==> x.s.thread.value < |x.workers|)
    && (forall w :: 0 <= w < |x.workers| && x.s.thread != Some(w) ==> x.workers[w].Done?)
  }

  /** Logging is on only while the worker in the handle is there; with no kill under way a
      handle means that it is on; and a returned worker in the handle means a kill is. */
  ghost predicate Handled(x: System) {
    && (x.s.logging ==> x.s.thread.Some? && !Active(x).Done?)
    && (x.killer.Idle? && x.s.thread.Some? ==> x.s.logging)
    && (x.killer in {Waking, Joining, Resetting} ==> x.s.thread.Some?)
    && (x.killer.Resetting? ==> Active(x).Done?)
  }

  /** The worker in the handle. */
  function Active(x: System): Worker {
    if x.s.thread.Some? && x.s.thread.value < |x.workers| then x.workers[x.s.thread.value] else Done
  }

  /** The front queue holds something only while the worker drains it, and it is not empty
      where an element is taken. */
  ghost predicate FrontOwned(x: System) {
    && (Active(x) !in {Checking, Consuming, Popping} ==> x.s.front == [])
    && (Active(x) in {Consuming, Popping} ==> x.s.front != [])
  }

  /** Nothing is lost, repeated or reordered. */
  ghost predicate Conserved(x: System) {
    && x.pushed == x.processed + x.s.front + x.s.back
    && (Active(x).Popping? && x.s.front != [] ==> x.consumed == x.processed + [x.s.front[0]])
    && (!Active(x).Popping? ==> x.consumed == x.processed)
  }

  /** Some producer has still to set `work`. */
  ghost predicate WorkComing(x: System) {
    exists p :: p in x.producers && BeforeWork(x.producers[p])
  }

  predicate BeforeWork(p: Producer) {
    p.Pushing? || p.Signalling?
  }

  /** While logging is on, an entry in the back queue is sure to be looked for. */
  ghost predicate NotStranded(x: System) {
    x.s.logging && x.s.back != [] ==> x.s.work || Active(x).Swapping? || WorkComing(x)
  }

  /** Some producer is about to call `notify_all`. */
  ghost predicate NotifyComing(x: System) {
    exists p :: p in x.producers && x.producers[p].Notifying?
  }

  /** No lost wake-up: a worker asleep although there is work will be notified by a producer,
      and one asleep although logging is off by the killer. */
  ghost predicate NoLostWakeup(x: System) {
    && (Active(x).Asleep? && x.s.work ==> NotifyComing(x))
    && (Active(x).Asleep? && !x.s.logging ==> x.killer in {Testing, Waking})
  }

  ghost predicate Inv(x: System) {
    OneWorker(x) && Handled(x) && FrontOwned(x) && Conserved(x) && NotStranded(x) && NoLostWakeup(x)
  }

  // ----- every step keeps it

  lemma CallKeeps(x: System, p: nat, e: Entry)
    requires Inv(x) && p !in x.producers
    ensures Inv(x.(producers := x.producers[p := Entering(e)]))
  {
    var y := x.(producers := x.producers[p := Entering(e)]);
    SameProducersElse(x, y, p);
  }

  /** Producers other than p, and p itself when it counts, still announce what they did. */
  lemma SameProducersElse(x: System, y: System, p: nat)
    requires forall q :: q in x.producers && q != p ==> q in y.producers && y.producers[q] == x.producers[q]
    ensures WorkComing(x)
      && (p in x.producers && BeforeWork(x.producers[p]) ==> p in y.producers && BeforeWork(y.producers[p]))
      ==> WorkComing(y)
    ensures NotifyComing(x)
      && (p in x.producers && x.producers[p].Notifying? ==> p in y.producers && y.producers[p].Notifying?)
      ==> NotifyComing(y)
  {
    if WorkComing(x) {
      var q :| q in x.producers && BeforeWork(x.producers[q]);
      assert q != p ==> BeforeWork(y.producers[q]);
    }
    if NotifyComing(x) {
      var q :| q in x.producers && x.producers[q].Notifying?;
      assert q != p ==> y.producers[q].Notifying?;
    }
  }

  lemma EnterKeeps(x: System, p: nat)
    requires Inv(x) && p in x.producers && x.producers[p].Entering?
    ensures Inv(ProducerStep(x, p))
  {
    var y := ProducerStep(x, p);
    SameProducersElse(x, y, p);
    assert BeforeWork(y.producers[p]) && WorkComing(y);
  }

  lemma PushKeeps(x: System, p: nat)
    requires Inv(x) && p in x.producers && x.producers[p].Pushing?
    ensures Inv(ProducerStep(x, p))
  {
    var y := ProducerStep(x, p);
    SameProducersElse(x, y, p);
    assert BeforeWork(y.producers[p]) && WorkComing(y);
  }

  lemma SignalKeeps(x: System, p: nat)
    requires Inv(x) && p in x.producers && x.producers[p].Signalling?
    ensures Inv(ProducerStep(x, p))
  {
    var y := ProducerStep(x, p);
    assert y.producers[p].Notifying? && NotifyComing(y);
  }

  lemma NotifyKeeps(x: System, p: nat)
    requires Inv(x) && p in x.producers && x.producers[p].Notifying?
    ensures Inv(ProducerStep(x, p))
  {
    SameProducersElse(x, ProducerStep(x, p), p);
  }

  /** Only the worker in the handle can take a step. */
  lemma OnlyActiveRuns(x: System, w: nat)
    requires OneWorker(x) && w < |x.workers| && !x.workers[w].Done?
    ensures x.s.thread == Some(w) && Active(x) == x.workers[w]
  {
  }

  lemma WaitKeeps(x: System, w: nat)
    requires Inv(x) && w < |x.workers| && x.workers[w] in {Starting, Woken, Relocking}
    ensures Inv(WaitStep(x, w))
  {
    OnlyActiveRuns(x, w);
    assert WorkComing(WaitStep(x, w)) <==> WorkComing(x);
  }

  lemma LoopKeeps(x: System, w: nat)
    requires Inv(x) && w < |x.workers| && x.workers[w] in {Starting, Relocking}
    requires x.killer.Resetting? ==> Active(x).Done?
    ensures Inv(LoopStep(x, w))
  {
    OnlyActiveRuns(x, w);
    if x.s.logging {
      WaitKeeps(x, w);
    }
  }

  lemma CountKeeps(x: System, w: nat)
    requires Inv(x) && w < |x.workers| && x.workers[w].Relocking?
    ensures var y := x.(s := CountLoop(x.s), workers := Wake(x.workers)); Inv(y) && y.workers[w].Relocking?
  {
    OnlyActiveRuns(x, w);
    var y := x.(s := CountLoop(x.s), workers := Wake(x.workers));
    assert WorkComing(y) <==> WorkComing(x);
  }

  lemma DrainKeeps(x: System, w: nat)
    requires Inv(x) && w < |x.workers| && x.workers[w] in {Swapping, Checking, Consuming, Popping}
    requires WorkerStep(x, w).Some?
    ensures Inv(WorkerStep(x, w).value)
  {
    OnlyActiveRuns(x, w);
    var y := WorkerStep(x, w).value;
    assert WorkComing(y) <==> WorkComing(x);
    if x.workers[w].Popping? {
      assert x.s.front == [x.s.front[0]] + x.s.front[1..];
    }
  }

  lemma WorkerKeeps(x: System, w: nat)
    requires Inv(x) && w < |x.workers| && WorkerStep(x, w).Some?
    ensures Inv(WorkerStep(x, w).value)
  {
    OnlyActiveRuns(x, w);
    if x.workers[w].Starting? {
      LoopKeeps(x, w);
    } else if x.workers[w].Woken? {
      WaitKeeps(x, w);
    } else if x.workers[w].Relocking? {
      CountKeeps(x, w);
      LoopKeeps(x.(s := CountLoop(x.s), workers := Wake(x.workers)), w);
    } else {
      DrainKeeps(x, w);
    }
  }

  lemma WakeUpKeeps(x: System, w: nat)
    requires Inv(x) && w < |x.workers| && x.workers[w].Asleep?
    ensures Inv(x.(workers := x.workers[w := Woken]))
  {
    var y := x.(workers := x.workers[w := Woken]);
    assert x.s.thread == Some(w);
    assert WorkComing(x) ==> WorkComing(y);
  }

  lemma KillKeeps(x: System)
    requires Inv(x) && x.killer.Idle?
    ensures Inv(x.(s := StopLogging(x.s), killer := Testing))
  {
  }

  lemma KillOnKeeps(x: System)
    requires Inv(x) && KillerStep(x).Some?
    ensures Inv(KillerStep(x).value)
  {
    var y := KillerStep(x).value;
    assert WorkComing(x) ==> WorkComing(y);
    assert NotifyComing(x) ==> NotifyComing(y);
  }

  lemma NextKeeps(x: System, e: Event)
    requires Inv(x) && Next(x, e).Some?
    ensures Inv(Next(x, e).value)
  {
    hide Inv;
    match e
    case Call(p, entry) => CallKeeps(x, p, entry);
    case Produce(p) => {
      match x.producers[p]
      case Entering(_) => EnterKeeps(x, p);
      case Pushing(_) => PushKeeps(x, p);
      case Signalling => SignalKeeps(x, p);
      case Notifying => NotifyKeeps(x, p);
    }
    case Run(w) => WorkerKeeps(x, w);
    case WakeUp(w) => WakeUpKeeps(x, w);
    case Kill => KillKeeps(x);
    case KillOn => KillOnKeeps(x);
  }

  // ----- runs

  /** A run: every state from the initial one, and the event between each two. */
  ghost predicate Trace(states: seq<System>, events: seq<Event>) {
    && |states| == |events| + 1 && states[0] == INITIAL
    && forall i :: 0 <= i < |events| ==> Next(states[i], events[i]) == Some(states[i + 1])
  }

  lemma TraceStep(states: seq<System>, events: seq<Event>, i: nat)
    requires Trace(states, events) && i < |events|
    ensures |states| == |events| + 1 && Next(states[i], events[i]) == Some(states[i + 1])
  {
  }

  function Last(states: seq<System>): System
    requires states != []
  {
    states[|states| - 1]
  }

  lemma Extend(states: seq<System>, events: seq<Event>, e: Event) returns (states2: seq<System>, events2: seq<Event>)
    requires Trace(states, events) && Next(Last(states), e).Some?
    ensures Trace(states2, events2) && Last(states2) == Next(Last(states), e).value
    ensures events2 == events + [e] && |states2| == |events2| + 1 && states2[..|states2| - 1] == states
  {
    states2 := states + [Next(Last(states), e).value];
    events2 := events + [e];
  }

  lemma {:induction false} TraceInv(states: seq<System>, events: seq<Event>, i: nat)
    requires Trace(states, events) && i <= |events|
    ensures Inv(states[i])
  {
    if 0 < i {
      TraceInv(states, events, i - 1);
      hide Inv, Next;
      NextKeeps(states[i - 1], events[i - 1]);
    }
  }

  predicate IsSwap(x: System, e: Event) {
    e.Run? && e.w < |x.workers| && x.workers[e.w].Swapping?
  }

  /** In every interleaving, what was processed, then the front queue, then the back queue is
      exactly what was pushed; consumers have seen a prefix of that, each entry once; and the
      queue that `Swap` throws away is empty. */
  lemma NoLoss(states: seq<System>, events: seq<Event>, i: nat)
    requires Trace(states, events) && i <= |events|
    ensures var x := states[i];
      && x.pushed == x.processed + x.s.front + x.s.back
      && x.consumed <= x.pushed
      && |x.processed| <= |x.consumed| <= |x.processed| + 1
    ensures i < |events| && IsSwap(states[i], events[i]) ==> states[i].s.front == []
  {
    TraceInv(states, events, i);
    var x := states[i];
    if Active(x).Popping? {
      assert x.consumed + (x.s.front[1..] + x.s.back) == x.pushed;
    } else {
      assert x.consumed + (x.s.front + x.s.back) == x.pushed;
    }
  }

  /** At most one worker has not returned. */
  lemma WorkersTakeTurns(states: seq<System>, events: seq<Event>, i: nat, v: nat, w: nat)
    requires Trace(states, events) && i <= |events|
    requires v < |states[i].workers| && w < |states[i].workers|
    requires !states[i].workers[v].Done? && !states[i].workers[w].Done?
    ensures v == w
  {
    TraceInv(states, events, i);
  }

  // ----- nothing is left behind while logging is on

  /** A step that needs no new call, no kill and no spurious wake-up. */
  predicate Internal(e: Event) {
    e.Produce? || e.Run?
  }

  /** Nobody can move on their own. */
  ghost predicate Quiescent(x: System) {
    forall e :: Internal(e) ==> Next(x, e).None?
  }

  lemma SomebodyCanMove(x: System) returns (e: Event)
    requires Inv(x) && (x.producers != map[] || Active(x) !in {Asleep, Done})
    ensures Internal(e) && Next(x, e).Some?
  {
    if p :| p in x.producers {
      e := Produce(p);
    } else {
      e := Run(x.s.thread.value);
    }
  }

  /** No producer is inside `QueueLog` and the worker sleeps for good reason, or has gone. */
  lemma QuiescentMeans(x: System)
    requires Inv(x) && Quiescent(x)
    ensures x.producers == map[]
    ensures Active(x) in {Asleep, Done}
  {
    if x.producers != map[] || Active(x) !in {Asleep, Done} {
      var e := SomebodyCanMove(x);
    }
  }

  /** With logging on, a system that has come to rest has consumed all that was ever pushed,
      across any number of kills and restarts, even one under way. */
  lemma RestMeansDrained(states: seq<System>, events: seq<Event>, i: nat)
    requires Trace(states, events) && i <= |events|
    requires states[i].s.logging && Quiescent(states[i])
    ensures states[i].consumed == states[i].pushed
  {
    TraceInv(states, events, i);
    var x := states[i];
    QuiescentMeans(x);
    assert x.s.front == [] && !x.s.work && x.s.back == [];
  }

  // ----- and rest is reached

  /** How many internal steps are still possible at most. */
  ghost function Potential(x: System): nat {
    ProducersLeft(x.producers) + WorkerLeft(Active(x)) + 4 * (|x.s.front| + |x.s.back|) + if x.s.work then 6 else 0
  }

  function WorkerLeft(w: Worker): nat {
    match w
    case Starting => 1
    case Asleep => 0
    case Woken => 1
    case Swapping => 5
    case Checking => 4
    case Consuming => 3
    case Popping => 2
    case Relocking => 1
    case Done => 0
  }

  function ProducerLeft(p: Producer): nat {
    match p
    case Entering(_) => 16
    case Pushing(_) => 14
    case Signalling => 9
    case Notifying => 2
  }

  ghost function ProducersLeft(ps: map<nat, Producer>): nat {
    if ps == map[] then 0
    else
      var p :| p in ps;
      ProducerLeft(ps[p]) + ProducersLeft(ps - {p})
  }

  /** The sum does not depend on the order of summation. */
  lemma {:induction false} ProducersLeftOf(ps: map<nat, Producer>, p: nat)
    requires p in ps
    ensures ProducersLeft(ps) == ProducerLeft(ps[p]) + ProducersLeft(ps - {p})
    decreases |ps|
  {
    var q :| q in ps && ProducersLeft(ps) == ProducerLeft(ps[q]) + ProducersLeft(ps - {q});
    if q != p {
      ProducersLeftOf(ps - {q}, p);
      ProducersLeftOf(ps - {p}, q);
      assert ps - {q} - {p} == ps - {p} - {q};
    }
  }

  lemma ProducersLeftUpdated(ps: map<nat, Producer>, p: nat, to: Producer)
    requires p in ps
    ensures ProducersLeft(ps[p := to]) + ProducerLeft(ps[p]) == ProducersLeft(ps) + ProducerLeft(to)
  {
    ProducersLeftOf(ps, p);
    ProducersLeftOf(ps[p := to], p);
    assert ps[p := to] - {p} == ps - {p};
  }

  lemma ProducerDrops(x: System, p: nat)
    requires Inv(x) && p in x.producers
    ensures Potential(ProducerStep(x, p)) < Potential(x)
  {
    hide ProducersLeft;
    var y := ProducerStep(x, p);
    match x.producers[p]
    case Entering(e) => ProducersLeftUpdated(x.producers, p, Pushing(e));
    case Pushing(e) => ProducersLeftUpdated(x.producers, p, Signalling);
    case Signalling => ProducersLeftUpdated(x.producers, p, Notifying);
    case Notifying => ProducersLeftOf(x.producers, p);
  }

  lemma WorkerDrops(x: System, w: nat)
    requires Inv(x) && x.s.logging && w < |x.workers| && WorkerStep(x, w).Some?
    ensures Potential(WorkerStep(x, w).value) < Potential(x)
  {
    hide ProducersLeft;
    OnlyActiveRuns(x, w);
  }

  /** While logging is on, every internal step uses some of the potential up. */
  lemma PotentialDrops(x: System, e: Event)
    requires Inv(x) && x.s.logging && Internal(e) && Next(x, e).Some?
    ensures var y := Next(x, e).value; Potential(y) < Potential(x) && y.s.logging
  {
    hide Potential;
    match e
    case Produce(p) => ProducerDrops(x, p);
    case Run(w) => WorkerDrops(x, w);
  }

  /** The same with the killer's way to its `join`, where it waits while logging is on. */
  ghost function RestLeft(x: System): nat {
    Potential(x) + match x.killer case Testing => 4 case Waking => 3 case _ => 0
  }

  /** The calls, or the spurious wake-ups, among the events from i to j. */
  function Calls(events: seq<Event>, i: nat, j: nat): nat
    requires i <= j <= |events|
    decreases j
  {
    if i == j then 0 else Calls(events, i, j - 1) + if events[j - 1].Call? then 1 else 0
  }

  function WakeUps(events: seq<Event>, i: nat, j: nat): nat
    requires i <= j <= |events|
    decreases j
  {
    if i == j then 0 else WakeUps(events, i, j - 1) + if events[j - 1].WakeUp? then 1 else 0
  }

  lemma CountsOfLast(events: seq<Event>, i: nat, j: nat)
    requires i < j <= |events|
    ensures Calls(events, i, j) == Calls(events, i, j - 1) + if events[j - 1].Call? then 1 else 0
    ensures WakeUps(events, i, j) == WakeUps(events, i, j - 1) + if events[j - 1].WakeUp? then 1 else 0
  {
  }

  lemma CallRaises(x: System, p: nat, e: Entry)
    requires p !in x.producers
    ensures Potential(x.(producers := x.producers[p := Entering(e)])) == Potential(x) + 16
  {
    ProducersLeftOf(x.producers[p := Entering(e)], p);
    assert x.producers[p := Entering(e)] - {p} == x.producers;
    hide ProducersLeft;
  }

  lemma WakeUpRaises(x: System, w: nat)
    requires Inv(x) && w < |x.workers| && x.workers[w].Asleep?
    ensures Potential(x.(workers := x.workers[w := Woken])) == Potential(x) + 1
  {
    OnlyActiveRuns(x, w);
    hide ProducersLeft;
  }

  lemma KillerRaises(x: System)
    requires Inv(x) && x.s.logging && KillerStep(x).Some?
    ensures var y := KillerStep(x).value; RestLeft(y) < RestLeft(x) && y.s.logging
  {
    hide ProducersLeft;
  }

  /** While logging is on, every step but a call and a spurious wake-up uses some of it up. */
  lemma RestLeftDrops(x: System, e: Event)
    requires Inv(x) && x.s.logging && e != Kill && Next(x, e).Some?
    ensures var y := Next(x, e).value;
      && y.s.logging
      && RestLeft(y) + 1 <= RestLeft(x) + (if e.Call? then 17 else 0) + (if e.WakeUp? then 2 else 0)
  {
    hide Potential, Inv;
    match e
    case Call(p, entry) => CallRaises(x, p, entry);
    case WakeUp(w) => WakeUpRaises(x, w);
    case KillOn => KillerRaises(x);
    case _ => PotentialDrops(x, e);
  }

  /** From any state with logging on, and as long as no kill begins, there are no more steps of
      all threads together than the bound for that state, plus 17 for every new call and 2 for
      every spurious wake-up: without those the system comes to rest, and by
      `RestMeansDrained` everything has been consumed then. */
  lemma {:induction false} RestIsReached(states: seq<System>, events: seq<Event>, i: nat, j: nat)
    requires Trace(states, events) && i <= j <= |events|
    requires states[i].s.logging
    requires forall k :: i <= k < j ==> events[k] != Kill
    ensures j - i <= RestLeft(states[i]) - RestLeft(states[j]) + 17 * Calls(events, i, j) + 2 * WakeUps(events, i, j)
    ensures states[j].s.logging
    decreases j - i
  {
    hide RestLeft, Next, Inv, Trace;
    if i < j {
      TraceStep(states, events, j - 1);
      RestIsReached(states, events, i, j - 1);
      TraceInv(states, events, j - 1);
      RestLeftDrops(states[j - 1], events[j - 1]);
      CountsOfLast(events, i, j);
      hide Calls, WakeUps;
    }
  }
}
