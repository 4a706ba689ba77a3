/** What `QueueLog` and `KillThread` do for whoever calls them, over every run. */
module LoggerLaws {
  import opened Options
  import opened LoggerModel
  import opened LoggerRuns

  // ----- a call to QueueLog starts a worker when there is none

  predicate Enters(x: System, e: Event) {
    e.Produce? && e.p in x.producers && x.producers[e.p].Entering?
  }

  /** The first section of `QueueLog`: with logging off and no handle a new worker is started and
      logging is on; in every other case the section changes nothing. */
  lemma EntryStartsWorker(x: System, p: nat)
    requires Inv(x) && Enters(x, Produce(p))
    ensures Next(x, Produce(p)).Some?
    ensures var y := Next(x, Produce(p)).value; var producers := x.producers[p := Pushing(x.producers[p].e)];
      if !x.s.logging && x.s.thread == None then
        && y.s == x.s.(logging := true, thread := Some(|x.workers|))
        && y == x.(s := y.s, workers := x.workers + [Starting], producers := producers)
      else
        y == x.(producers := producers)
  {
  }

  /** A producer that enters while no kill is under way finds logging on or turns it on, after
      any kills before; as long as no other kill begins it stays on, and when the system comes
      to rest everything pushed has been consumed. */
  lemma {:induction false} EntryKeepsLogging(states: seq<System>, events: seq<Event>, i: nat, j: nat)
    requires Trace(states, events) && i < j <= |events|
    requires Enters(states[i], events[i]) && states[i].killer.Idle?
    requires forall k :: i < k < j ==> events[k] != Kill
    ensures states[j].s.logging && states[j].killer.Idle?
    ensures Quiescent(states[j]) ==> states[j].consumed == states[j].pushed
    decreases j
  {
    hide Inv, Next, Trace, Quiescent;
    TraceStep(states, events, j - 1);
    TraceInv(states, events, j - 1);
    if j == i + 1 {
      EntryLogs(states[i], events[i]);
    } else {
      EntryKeepsLogging(states, events, i, j - 1);
      LoggingStays(states[j - 1], events[j - 1]);
    }
    if Quiescent(states[j]) {
      RestMeansDrained(states, events, j);
    }
  }

  lemma EntryLogs(x: System, e: Event)
    requires Inv(x) && Enters(x, e) && x.killer.Idle?
    ensures Next(x, e).Some? && Next(x, e).value.s.logging && Next(x, e).value.killer.Idle?
  {
  }

  lemma LoggingStays(x: System, e: Event)
    requires Inv(x) && x.s.logging && x.killer.Idle? && e != Kill && Next(x, e).Some?
    ensures Next(x, e).value.s.logging && Next(x, e).value.killer.Idle?
  {
  }

  // ----- what is pushed is what was handed to QueueLog

  /** The entry that producer p has still to push. */
  function Unpushed(p: Producer): multiset<Entry> {
    match p
    case Entering(e) => multiset{e}
    case Pushing(e) => multiset{e}
    case _ => multiset{}
  }

  ghost function AllUnpushed(ps: map<nat, Producer>): multiset<Entry> {
    if ps == map[] then multiset{}
    else
      var p :| p in ps;
      Unpushed(ps[p]) + AllUnpushed(ps - {p})
  }

  lemma {:induction false} AllUnpushedOf(ps: map<nat, Producer>, p: nat)
    requires p in ps
    ensures AllUnpushed(ps) == Unpushed(ps[p]) + AllUnpushed(ps - {p})
    decreases |ps|
  {
    hide Unpushed;
    var q :| q in ps && AllUnpushed(ps) == Unpushed(ps[q]) + AllUnpushed(ps - {q});
    if q != p {
      AllUnpushedOf(ps - {q}, p);
      AllUnpushedOf(ps - {p}, q);
      assert ps - {q} - {p} == ps - {p} - {q};
    }
  }

  lemma AllUnpushedUpdated(ps: map<nat, Producer>, p: nat, to: Producer)
    requires p in ps
    ensures AllUnpushed(ps[p := to]) + Unpushed(ps[p]) == AllUnpushed(ps) + Unpushed(to)
  {
    hide Unpushed;
    AllUnpushedOf(ps, p);
    AllUnpushedOf(ps[p := to], p);
    assert ps[p := to] - {p} == ps - {p};
  }

  /** The entries of the calls among the first i events. */
  function Called(events: seq<Event>, i: nat): multiset<Entry>
    requires i <= |events|
  {
    if i == 0 then multiset{}
    else Called(events, i - 1) + if events[i - 1].Call? then multiset{events[i - 1].e} else multiset{}
  }

  lemma CalledByProducer(x: System, p: nat)
    requires p in x.producers
    ensures var y := ProducerStep(x, p);
      multiset(y.pushed) + AllUnpushed(y.producers) == multiset(x.pushed) + AllUnpushed(x.producers)
  {
    hide AllUnpushed;
    match x.producers[p]
    case Entering(entry) => {
      AllUnpushedUpdated(x.producers, p, Pushing(entry));
      Cancel(AllUnpushed(x.producers[p := Pushing(entry)]), AllUnpushed(x.producers), multiset{entry});
    }
    case Pushing(entry) => {
      AllUnpushedUpdated(x.producers, p, Signalling);
      assert multiset(x.pushed + [entry]) == multiset(x.pushed) + multiset{entry};
      assert AllUnpushed(x.producers[p := Signalling]) + multiset{entry} == AllUnpushed(x.producers);
    }
    case Signalling => {
      AllUnpushedUpdated(x.producers, p, Notifying);
      Cancel(AllUnpushed(x.producers[p := Notifying]), AllUnpushed(x.producers), multiset{});
    }
    case Notifying => {
      AllUnpushedOf(x.producers, p);
      assert multiset{} + AllUnpushed(x.producers - {p}) == AllUnpushed(x.producers - {p});
    }
  }

  lemma Cancel(a: multiset<Entry>, b: multiset<Entry>, c: multiset<Entry>)
    requires a + c == b + c
    ensures a == b
  {
    assert a == (a + c) - c && b == (b + c) - c;
  }

  lemma OnlyProducersPush(x: System, e: Event)
    requires Next(x, e).Some? && !e.Call? && !e.Produce?
    ensures Next(x, e).value.pushed == x.pushed && Next(x, e).value.producers == x.producers
  {
  }

  lemma CalledNext(x: System, e: Event)
    requires Next(x, e).Some?
    ensures var y := Next(x, e).value;
      multiset(y.pushed) + AllUnpushed(y.producers) ==
        multiset(x.pushed) + AllUnpushed(x.producers) + if e.Call? then multiset{e.e} else multiset{}
  {
    if e.Call? {
      AllUnpushedOf(x.producers[e.p := Entering(e.e)], e.p);
      assert x.producers[e.p := Entering(e.e)] - {e.p} == x.producers;
    } else if e.Produce? {
      CalledByProducer(x, e.p);
    } else {
      OnlyProducersPush(x, e);
    }
  }

  /** In every run, what has been pushed and what callers inside `QueueLog` have still to push
      are together exactly what `QueueLog` was called with, each entry as often. */
  lemma {:induction false} EveryCallIsPushed(states: seq<System>, events: seq<Event>, i: nat)
    requires Trace(states, events) && i <= |events|
    ensures multiset(states[i].pushed) + AllUnpushed(states[i].producers) == Called(events, i)
  {
    hide Next, Unpushed, AllUnpushed;
    if i == 0 {
      NobodyUnpushed();
    } else {
      TraceStep(states, events, i - 1);
      EveryCallIsPushed(states, events, i - 1);
      CalledNext(states[i - 1], events[i - 1]);
    }
  }

  lemma NobodyUnpushed()
    ensures AllUnpushed(map[]) == multiset{}
  {
  }

  /** At rest with logging on, what has been consumed is what `QueueLog` was called with. */
  lemma EveryCallIsConsumed(states: seq<System>, events: seq<Event>, i: nat)
    requires Trace(states, events) && i <= |events| && states[i].s.logging && Quiescent(states[i])
    ensures multiset(states[i].consumed) == Called(events, i)
  {
    RestMeansDrained(states, events, i);
    EveryCallIsPushed(states, events, i);
    TraceInv(states, events, i);
    QuiescentMeans(states[i]);
    NobodyUnpushed();
  }

  // ----- the other sections

  /** The first section of `KillThread` turns both flags off and touches nothing else. */
  lemma KillStops(x: System)
    requires x.killer.Idle?
    ensures Next(x, Kill).Some?
    ensures var y := Next(x, Kill).value;
      && !y.s.logging && !y.s.work
      && y == x.(s := x.s.(logging := y.s.logging, work := y.s.work), killer := Testing)
  {
  }

  /** The last section of `QueueLog` before the notification sets `work` and nothing else. */
  lemma SignalSetsWork(x: System, p: nat)
    requires p in x.producers && x.producers[p].Signalling?
    ensures Next(x, Produce(p)).Some?
    ensures var y := Next(x, Produce(p)).value;
      y.s.work && y == x.(s := x.s.(work := y.s.work), producers := x.producers[p := Notifying])
  {
  }

  /** A call of `QueueLog` is possible at any time, and by itself changes nothing else. */
  lemma CallEnters(x: System, p: nat, e: Entry)
    requires p !in x.producers
    ensures Next(x, Call(p, e)) == Some(x.(producers := x.producers[p := Entering(e)]))
  {
  }

  /** A worker may wake up for no reason. */
  lemma MayWakeUp(x: System, w: nat)
    requires w < |x.workers| && x.workers[w].Asleep?
    ensures Next(x, WakeUp(w)) == Some(x.(workers := x.workers[w := Woken]))
  {
  }

  /** The last section of `KillThread` forgets the handle and nothing else. */
  lemma KillForgetsHandle(x: System)
    requires x.killer.Resetting?
    ensures Next(x, KillOn) == Some(x.(s := x.s.(thread := None), killer := Idle))
  {
  }

  predicate EndsLoop(x: System, e: Event) {
    e.Run? && e.w < |x.workers| && x.workers[e.w].Relocking?
  }

  ghost function LoopsEnded(states: seq<System>, events: seq<Event>, i: nat): nat
    requires |states| == |events| + 1 && i <= |events|
  {
    if i == 0 then 0 else LoopsEnded(states, events, i - 1) + if EndsLoop(states[i - 1], events[i - 1]) then 1 else 0
  }

  lemma LoopNext(x: System, e: Event)
    requires Next(x, e).Some? && x.s.currentLoop <= 10000
    ensures Next(x, e).value.s.currentLoop == (x.s.currentLoop + if EndsLoop(x, e) then 1 else 0) % 10001
  {
  }

  /** `current_loop` counts the loops of all workers, starting again at 0 after 10000. */
  lemma {:induction false} LoopsCounted(states: seq<System>, events: seq<Event>, i: nat)
    requires Trace(states, events) && i <= |events|
    ensures |states| == |events| + 1 && states[i].s.currentLoop == LoopsEnded(states, events, i) % 10001
  {
    hide Next;
    if 0 < i {
      TraceStep(states, events, i - 1);
      LoopsCounted(states, events, i - 1);
      LoopNext(states[i - 1], events[i - 1]);
    }
  }
}
