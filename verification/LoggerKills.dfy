/** What `KillThread` leaves in the back queue, and when it returns. */
module LoggerKills {
  import opened Options
  import opened LoggerModel
  import opened LoggerRuns

  /** Where a worker that finds logging off still swaps once before it returns; anywhere else
      the loop test ends it first. */
  predicate WillSwap(w: Worker) {
    w in {Asleep, Woken, Swapping}
  }

  /** The last section of `KillThread`. */
  predicate IsReset(x: System, e: Event) {
    e.KillOn? && x.killer.Resetting?
  }

  /** A kill is under way and has a worker to wait for. */
  ghost predicate Stopping(x: System) {
    Inv(x) && !x.s.logging && x.s.thread.Some? && !x.killer.Idle?
  }

  // ----- which entries are left

  lemma StoppingByProducer(x: System, p: nat)
    requires Stopping(x) && p in x.producers
    ensures var y := ProducerStep(x, p);
      && Stopping(y) && y.s.thread == x.s.thread && x.pushed <= y.pushed
      && (WillSwap(Active(y)) <==> WillSwap(Active(x)))
      && y.s.back == x.s.back + y.pushed[|x.pushed|..]
  {
    NextKeeps(x, Produce(p));
    hide Inv;
  }

  lemma StoppingByWorker(x: System, w: nat)
    requires Stopping(x) && w < |x.workers| && WorkerStep(x, w).Some?
    ensures var y := WorkerStep(x, w).value;
      && Stopping(y) && y.s.thread == x.s.thread && y.pushed == x.pushed
      && if x.workers[w].Swapping? then WillSwap(Active(x)) && !WillSwap(Active(y)) && y.s.back == []
         else (WillSwap(Active(y)) <==> WillSwap(Active(x))) && y.s.back == x.s.back
  {
    NextKeeps(x, Run(w));
    OnlyActiveRuns(x, w);
    hide Inv;
  }

  /** While a kill is under way nothing leaves the back queue but by the worker's last swap. */
  lemma StoppingStep(x: System, e: Event)
    requires Stopping(x) && Next(x, e).Some? && !IsReset(x, e)
    ensures var y := Next(x, e).value;
      && Stopping(y) && y.s.thread == x.s.thread && x.pushed <= y.pushed
      && if IsSwap(x, e) then WillSwap(Active(x)) && !WillSwap(Active(y)) && y.s.back == [] && y.pushed == x.pushed
         else (WillSwap(Active(y)) <==> WillSwap(Active(x))) && y.s.back == x.s.back + y.pushed[|x.pushed|..]
  {
    if e.Produce? {
      StoppingByProducer(x, e.p);
    } else if e.Run? {
      StoppingByWorker(x, e.w);
    } else {
      NextKeeps(x, e);
      hide Inv;
    }
  }

  /** k is the one swap between i and n, or i itself when there is none. */
  ghost predicate LastSwap(states: seq<System>, events: seq<Event>, i: nat, n: nat, k: nat)
    requires n <= |events| <= |states|
  {
    && i <= k < n && (i < k ==> IsSwap(states[k], events[k]))
    && forall m :: i < m < n && m != k ==> !IsSwap(states[m], events[m])
  }

  /** What a kill begun at i has done before event n. */
  ghost predicate KillDone(states: seq<System>, events: seq<Event>, i: nat, n: nat, k: nat)
    requires n <= |events| < |states|
  {
    && LastSwap(states, events, i, n, k)
    && Stopping(states[n]) && states[n].s.thread == states[i].s.thread
    && states[i].pushed <= states[k].pushed <= states[n].pushed
    && states[n].s.back == (if i < k then [] else states[i].s.back) + states[n].pushed[|states[k].pushed|..]
    && (WillSwap(Active(states[n])) <==> WillSwap(Active(states[i])) && i == k)
    && (i < k ==> WillSwap(Active(states[i])))
  }

  lemma {:induction false} KillSoFar(states: seq<System>, events: seq<Event>, i: nat, n: nat) returns (k: nat)
    requires Trace(states, events) && i < n <= |events|
    requires events[i] == Kill && states[i].s.thread.Some?
    requires forall m :: i < m < n ==> !IsReset(states[m], events[m])
    ensures KillDone(states, events, i, n, k)
  {
    hide KillDone, Next, Trace, IsReset, Stopping, IsSwap, WillSwap;
    if n == i + 1 {
      k := i;
      KillBegins(states, events, i);
    } else {
      TraceStep(states, events, n - 1);
      var x := states[n - 1];
      k := KillSoFar(states, events, i, n - 1);
      assert Stopping(x) by {
        StoppingOf(states, events, i, n - 1, k);
      }
      StoppingStep(x, events[n - 1]);
      KillDoneNext(states, events, i, n - 1, k);
      if IsSwap(x, events[n - 1]) {
        k := n - 1;
      }
    }
  }

  lemma KillBegins(states: seq<System>, events: seq<Event>, i: nat)
    requires Trace(states, events) && i < |events| && events[i] == Kill && states[i].s.thread.Some?
    ensures KillDone(states, events, i, i + 1, i)
  {
    TraceInv(states, events, i + 1);
    assert Next(states[i], events[i]) == Some(states[i + 1]);
    hide Inv, Trace;
    assert states[i + 1].s.back == states[i].s.back + states[i + 1].pushed[|states[i].pushed|..];
  }

  lemma StoppingOf(states: seq<System>, events: seq<Event>, i: nat, n: nat, k: nat)
    requires n <= |events| < |states| && KillDone(states, events, i, n, k)
    ensures Stopping(states[n])
  {
  }

  lemma KillDoneNext(states: seq<System>, events: seq<Event>, i: nat, n: nat, k: nat)
    requires n < |events| < |states| && KillDone(states, events, i, n, k)
    requires var x, y, e := states[n], states[n + 1], events[n];
      && Stopping(y) && y.s.thread == x.s.thread && x.pushed <= y.pushed
      && if IsSwap(x, e) then WillSwap(Active(x)) && !WillSwap(Active(y)) && y.s.back == [] && y.pushed == x.pushed
         else (WillSwap(Active(y)) <==> WillSwap(Active(x))) && y.s.back == x.s.back + y.pushed[|x.pushed|..]
    ensures KillDone(states, events, i, n + 1, if IsSwap(states[n], events[n]) then n else k)
  {
    hide Stopping, IsSwap, WillSwap;
    var x, y := states[n], states[n + 1];
    if !IsSwap(x, events[n]) {
      assert y.pushed[|states[k].pushed|..] == x.pushed[|states[k].pushed|..] + y.pushed[|x.pushed|..];
    }
  }

  /** When a kill that had a worker to stop returns, the back queue holds exactly what was
      pushed after the worker's last swap (k), and if the kill met the worker past its last
      swap also what was there when the kill began.  The worker swaps once more if and only if
      the kill finds it in the wait or before the swap. */
  lemma KillLeavesExactly(states: seq<System>, events: seq<Event>, i: nat, j: nat) returns (k: nat)
    requires Trace(states, events) && i < j < |events|
    requires events[i] == Kill && states[i].s.thread.Some?
    requires IsReset(states[j], events[j]) && forall m :: i < m < j ==> !IsReset(states[m], events[m])
    ensures LastSwap(states, events, i, j, k) && (i < k <==> WillSwap(Active(states[i])))
    ensures var y := states[j + 1];
      && y.s.thread.None? && y.killer.Idle? && (forall w :: 0 <= w < |y.workers| ==> y.workers[w].Done?)
      && states[k].pushed <= y.pushed
      && y.s.back == (if WillSwap(Active(states[i])) then [] else states[i].s.back) + y.pushed[|states[k].pushed|..]
  {
    k := KillSoFar(states, events, i, j);
    assert Next(states[j], events[j]) == Some(states[j + 1]);
    assert Active(states[j]).Done?;
  }

  /** With nothing pushed meanwhile: the queue is drained if and only if it was empty, or the
      kill found the worker in the wait or before the swap. */
  lemma KillDrainsIff(states: seq<System>, events: seq<Event>, i: nat, j: nat)
    requires Trace(states, events) && i < j < |events|
    requires events[i] == Kill && states[i].s.thread.Some?
    requires IsReset(states[j], events[j]) && forall m :: i < m < j ==> !IsReset(states[m], events[m])
    requires states[j + 1].pushed == states[i].pushed
    ensures states[j + 1].s.back == [] <==> states[i].s.back == [] || WillSwap(Active(states[i]))
  {
    var k := KillSoFar(states, events, i, j);
    var k2 := KillLeavesExactly(states, events, i, j);
    assert k == k2;
  }

  // ----- runs that show it

  /** `KillThread` need not drain the back queue: in this run an entry is queued before the kill
      begins (event 3), the worker returns without a swap, and when the kill ends (event 8) the
      entry is still there.  In the end no worker is left and nobody is under way. */
  lemma KillMayLeaveEntries() returns (states: seq<System>, events: seq<Event>)
    ensures Trace(states, events) && |events| == 11
    ensures events[3] == Kill && states[3].s.back == ["entry"] && states[3].s.thread.Some?
    ensures IsReset(states[8], events[8]) && forall m :: 3 < m < 8 ==> !IsReset(states[m], events[m])
    ensures states[9].s.back == ["entry"] && states[9].pushed == states[3].pushed
    ensures var x := Last(states);
      && x.s.back == ["entry"] && x.s.thread.None? && x.killer.Idle? && x.producers == map[] && x.workers == [Done]
  {
    hide Trace;
    states, events := KilledWithEntry();
    states, events := Extend(states, events, Produce(0));
    assert Last(states).producers == map[0 := Notifying];
    states, events := Extend(states, events, Produce(0));
    assert Last(states).producers == map[];
  }

  /** The entry is queued and a kill begins before the new worker has got anywhere. */
  lemma QueuedBeforeKill() returns (states: seq<System>, events: seq<Event>)
    ensures Trace(states, events) && |events| == 4 && |states| == 5
    ensures events[3] == Kill && states[3].s.back == ["entry"] && states[3].s.thread.Some?
    ensures states[3].pushed == ["entry"]
    ensures states[4] ==
      System(Shared(false, false, Some(0), 0, [], ["entry"]),
        map[0 := Signalling], [Starting], Testing, ["entry"], [], [])
  {
    states, events := [INITIAL], [];
    assert Trace(states, events);
    hide Trace;
    states, events := Extend(states, events, Call(0, "entry"));
    states, events := Extend(states, events, Produce(0));
    assert Last(states).producers == map[0 := Pushing("entry")] && Last(states).workers == [Starting];
    states, events := Extend(states, events, Produce(0));
    assert Last(states).producers == map[0 := Signalling];
    states, events := Extend(states, events, Kill);
  }

  /** The worker finds logging off and returns, and the kill runs to its end. */
  lemma KilledWithEntry() returns (states: seq<System>, events: seq<Event>)
    ensures Trace(states, events) && |events| == 9 && |states| == 10
    ensures events[3] == Kill && states[3].s.back == ["entry"] && states[3].s.thread.Some?
    ensures states[3].pushed == ["entry"]
    ensures IsReset(states[8], events[8]) && forall m :: 3 < m < 8 ==> !IsReset(states[m], events[m])
    ensures states[9] ==
      System(Shared(false, false, None, 0, [], ["entry"]), map[0 := Signalling], [Done], Idle, ["entry"], [], [])
  {
    states, events := QueuedBeforeKill();
    hide Trace;
    states, events := Extend(states, events, Run(0));
    assert Last(states).workers == [Done];
    states, events := Extend(states, events, KillOn);
    states, events := Extend(states, events, KillOn);
    assert Last(states).workers == [Done] && Last(states).killer == Joining;
    states, events := Extend(states, events, KillOn);
    states, events := Extend(states, events, KillOn);
  }

  // ----- when it returns

  /** A bound on what can still happen before the handle is reset, new calls apart. */
  ghost function StopLeft(x: System): nat {
    ProducersLeft(x.producers) + StopWorker(Active(x)) + 4 * (|x.s.front| + |x.s.back|) + StopKiller(x.killer)
  }

  function StopWorker(w: Worker): nat {
    match w
    case Asleep => 7
    case Woken => 6
    case _ => WorkerLeft(w)
  }

  function StopKiller(k: Killer): nat {
    match k
    case Idle => 0
    case Testing => 3
    case Waking => 2
    case Joining => 1
    case Resetting => 0
  }

  lemma StopRisesByCall(x: System, p: nat, e: Entry)
    requires p !in x.producers
    ensures StopLeft(x.(producers := x.producers[p := Entering(e)])) == StopLeft(x) + 16
  {
    ProducersLeftOf(x.producers[p := Entering(e)], p);
    assert x.producers[p := Entering(e)] - {p} == x.producers;
    hide ProducersLeft;
  }

  lemma StopDropsByProducer(x: System, p: nat)
    requires Stopping(x) && p in x.producers
    ensures StopLeft(ProducerStep(x, p)) < StopLeft(x)
  {
    hide ProducersLeft, WorkerLeft;
    match x.producers[p]
    case Entering(e) => ProducersLeftUpdated(x.producers, p, Pushing(e));
    case Pushing(e) => ProducersLeftUpdated(x.producers, p, Signalling);
    case Signalling => ProducersLeftUpdated(x.producers, p, Notifying);
    case Notifying => ProducersLeftOf(x.producers, p);
  }

  lemma StopDropsByWorker(x: System, w: nat)
    requires Stopping(x) && w < |x.workers| && WorkerStep(x, w).Some?
    ensures StopLeft(WorkerStep(x, w).value) < StopLeft(x)
  {
    OnlyActiveRuns(x, w);
    hide ProducersLeft;
  }

  lemma StopDrops(x: System, e: Event)
    requires Stopping(x) && Next(x, e).Some? && !IsReset(x, e)
    ensures StopLeft(Next(x, e).value) + 1 <= StopLeft(x) + if e.Call? then 17 else 0
  {
    match e
    case Call(p, entry) => StopRisesByCall(x, p, entry);
    case Produce(p) => StopDropsByProducer(x, p);
    case Run(w) => StopDropsByWorker(x, w);
    case WakeUp(w) => {
      OnlyActiveRuns(x, w);
      hide ProducersLeft;
    }
    case KillOn => {
      hide ProducersLeft;
    }
  }

  /** A kill with a worker to stop is bounded: between any two points of it there are no more
      steps than the bound at the first, and 17 for every new call. */
  lemma {:induction false} KillIsBounded(states: seq<System>, events: seq<Event>, i: nat, j: nat)
    requires Trace(states, events) && i <= j <= |events| && Stopping(states[i])
    requires forall m :: i <= m < j ==> !IsReset(states[m], events[m])
    ensures Stopping(states[j])
    ensures j - i <= StopLeft(states[i]) - StopLeft(states[j]) + 17 * Calls(events, i, j)
    decreases j
  {
    hide StopLeft, Next, Stopping, Trace, IsReset;
    if i < j {
      TraceStep(states, events, j - 1);
      KillIsBounded(states, events, i, j - 1);
      StoppingStep(states[j - 1], events[j - 1]);
      StopDrops(states[j - 1], events[j - 1]);
      CountsOfLast(events, i, j);
      hide Calls;
    }
  }

  /** And it is never stuck: the killer can go on, or the worker that it waits for can. */
  lemma KillGoesOn(x: System) returns (e: Event)
    requires Stopping(x)
    ensures Next(x, e).Some? && (e == KillOn || e == Run(x.s.thread.value))
  {
    e := if x.killer.Joining? && !Active(x).Done? then Run(x.s.thread.value) else KillOn;
  }

  /** A `QueueLog` starts a worker. */
  predicate IsStart(x: System, e: Event) {
    e.Produce? && e.p in x.producers && x.producers[e.p].Entering? && Starts(x.s)
  }

  /** Logging has come back on under a kill. */
  predicate Overtaken(x: System) {
    x.s.logging && !x.killer.Idle?
  }

  /** Such a kill waits for the new worker for ever: it never gets to the reset, and logging
      stays on. */
  lemma {:induction false} OvertakenStays(states: seq<System>, events: seq<Event>, i: nat, j: nat)
    requires Trace(states, events) && i <= j <= |events| && Overtaken(states[i])
    ensures Overtaken(states[j]) && states[j].killer in {Testing, Waking, Joining}
    decreases j
  {
    if i < j {
      assert Next(states[j - 1], events[j - 1]) == Some(states[j]);
      hide Inv, Next, Trace, Overtaken;
      OvertakenStays(states, events, i, j - 1);
      TraceInv(states, events, j - 1);
      OvertakenNext(states[j - 1], events[j - 1]);
    }
    OvertakenWaits(states, events, j);
  }

  lemma OvertakenWaits(states: seq<System>, events: seq<Event>, i: nat)
    requires Trace(states, events) && i <= |events| && Overtaken(states[i])
    ensures states[i].killer in {Testing, Waking, Joining}
  {
    TraceInv(states, events, i);
  }

  lemma OvertakenNext(x: System, e: Event)
    requires Inv(x) && Overtaken(x) && Next(x, e).Some?
    ensures Overtaken(Next(x, e).value)
  {
  }

  /** A kill that finds no handle in its first section (i) returns from its test of the handle
      (j) if and only if no `QueueLog` has started a worker in between; else it has been
      overtaken. */
  lemma KillWithoutHandleIff(states: seq<System>, events: seq<Event>, i: nat, j: nat)
    requires Trace(states, events) && i < j < |events|
    requires events[i] == Kill && states[i].s.thread.None?
    requires events[j] == KillOn && forall m :: i < m < j ==> events[m] != KillOn
    ensures states[j + 1].killer.Idle? <==> forall m :: i < m < j ==> !IsStart(states[m], events[m])
    ensures !states[j + 1].killer.Idle? <==> Overtaken(states[j + 1])
  {
    BeforeTest(states, events, i, j);
    hide IsStart;
    assert Next(states[j], events[j]) == Some(states[j + 1]);
  }

  /** The flag and the handle agree, on or off. */
  predicate SwitchedOn(x: System, on: bool) {
    x.killer.Testing? && x.s.logging == on && x.s.thread.Some? == on
  }

  lemma {:induction false} BeforeTest(states: seq<System>, events: seq<Event>, i: nat, n: nat)
    requires Trace(states, events) && i < n <= |events|
    requires events[i] == Kill && states[i].s.thread.None?
    requires forall m :: i < m < n ==> events[m] != KillOn
    ensures SwitchedOn(states[n], exists m :: i < m < n && IsStart(states[m], events[m]))
    decreases n
  {
    hide Trace, Next, SwitchedOn, IsStart;
    TraceStep(states, events, n - 1);
    if i + 1 < n {
      BeforeTest(states, events, i, n - 1);
      var on := exists m :: i < m < n - 1 && IsStart(states[m], events[m]);
      SwitchNext(states[n - 1], events[n - 1], on);
      assert (on || IsStart(states[n - 1], events[n - 1])) == exists m :: i < m < n && IsStart(states[m], events[m]);
    } else {
      TraceInv(states, events, i);
      SwitchedOff(states[i]);
    }
  }

  lemma SwitchedOff(x: System)
    requires Inv(x) && x.s.thread.None? && Next(x, Kill).Some?
    ensures SwitchedOn(Next(x, Kill).value, false)
  {
  }

  lemma SwitchNext(x: System, e: Event, on: bool)
    requires SwitchedOn(x, on) && e != KillOn && Next(x, e).Some?
    ensures SwitchedOn(Next(x, e).value, on || IsStart(x, e))
  {
  }

  /** The second case does arise: with this run `KillThread` never returns. */
  lemma KillCanBeOvertaken() returns (states: seq<System>, events: seq<Event>)
    ensures Trace(states, events) && Overtaken(Last(states)) && Last(states).killer.Joining?
  {
    states, events := [INITIAL], [];
    assert Trace(states, events);
    hide Trace;
    states, events := Extend(states, events, Kill);
    states, events := Extend(states, events, Call(0, "entry"));
    states, events := Extend(states, events, Produce(0));
    states, events := Extend(states, events, KillOn);
    states, events := Extend(states, events, KillOn);
  }
}
