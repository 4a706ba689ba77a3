/** The logger's shared fields in place, and threads that take turns on them: a turn, made of
    the critical sections and the calls on the queue, is a step of the step system, so what
    holds in every run of that holds of the object under every schedule. */
module LoggerResources {
  import opened Options
  import opened LoggerModel
  import opened LoggerRuns
  import opened LoggerLaws
  import opened DoubleBufferedQueues

  class Resources {
    var logging: bool
    var work: bool
    var currentLoop: nat
    var thread: Option<nat>
    const logs: DoubleBufferedQueue<Entry>

    ghost predicate Valid()
      reads this, logs
    {
      logs.Valid()
    }

    ghost function Abs(): Shared
      reads this, logs, logs.frontQueue, logs.backQueue
    {
      Shared(logging, work, thread, currentLoop, logs.Front(), logs.Back())
    }

    constructor ()
      ensures Valid() && Abs() == INITIAL.s && fresh(logs.Repr)
      ensures !logging && !work && thread == None && currentLoop == 0 && logs.Front() == [] && logs.Back() == []
    {
      logging, work, currentLoop, thread := false, false, 0, None;
      logs := new DoubleBufferedQueue();
    }

    /** First section of `QueueLog`; `start` says that thread `id` has been created. */
    method EnterQueueLog(id: nat) returns (start: bool)
      requires Valid()
      modifies this`logging, this`thread
      ensures Valid() && start == Starts(old(Abs())) && Abs() == BeginQueueLog(old(Abs()), id)
      ensures start <==> !old(logging) && old(thread) == None
      ensures if start then logging && thread == Some(id) else logging == old(logging) && thread == old(thread)
    {
      start := !logging && thread == None;
      if start {
        logging := true;
        thread := Some(id);
      }
    }

    method Push(e: Entry)
      requires Valid()
      modifies logs.backQueue
      ensures Valid() && Abs() == PushEntry(old(Abs()), e)
    {
      logs.Push(e);
    }

    method Signal()
      requires Valid()
      modifies this`work
      ensures Valid() && Abs() == SignalWork(old(Abs()))
    {
      work := true;
    }

    /** The worker under the lock: the loop test, unless it comes from the wait, then the
        predicate of the wait. */
    method TakeWork(fromLoop: bool) returns (next: Worker)
      requires Valid()
      modifies this`work
      ensures Valid()
      ensures next == if fromLoop && !old(logging) then Done else if MayProceed(old(Abs())) then Swapping else Asleep
      ensures Abs() == if next == Swapping then ClearWork(old(Abs())) else old(Abs())
      ensures next == Done <==> fromLoop && !logging
      ensures next == Swapping <==> !(fromLoop && !logging) && (!logging || old(work))
      ensures next == Asleep <==> logging && !old(work)
      ensures work == (old(work) && next != Swapping)
    {
      if fromLoop && !logging {
        return Done;
      }
      if !logging || work {
        work := false;
        return Swapping;
      }
      return Asleep;
    }

    method Swap()
      requires Valid()
      modifies logs`frontQueue, logs`backQueue, logs.frontQueue
      ensures Valid() && Abs() == SwapQueues(old(Abs()))
    {
      logs.Swap();
    }

    /** The drain loop of `run` with nobody else about: every entry of the front queue is
        consumed, in order and once. */
    method Drain() returns (consumed: seq<Entry>)
      requires Valid()
      modifies logs.frontQueue
      ensures Valid() && consumed == old(logs.Front())
      ensures Abs() == old(Abs()).(front := [])
    {
      consumed := [];
      var empty := logs.Empty();
      while !empty
        invariant Valid() && logs.frontQueue == old(logs.frontQueue) && logs.backQueue == old(logs.backQueue)
        invariant consumed + logs.Front() == old(logs.Front()) && logs.Back() == old(logs.Back())
        invariant empty <==> logs.Front() == []
        decreases |logs.Front()|
      {
        var e := logs.Peek();
        ghost var rest := logs.Front()[1..];
        assert logs.Front() == [e] + rest;
        consumed := consumed + [e];
        logs.Pop();
        empty := logs.Empty();
      }
    }

    method Count()
      requires Valid()
      modifies this`currentLoop
      ensures Valid() && Abs() == CountLoop(old(Abs()))
    {
      currentLoop := currentLoop + 1;
      if currentLoop > 10000 {
        currentLoop := 0;
      }
    }

    /** First section of `KillThread`. */
    method Stop()
      requires Valid()
      modifies this`logging, this`work
      ensures Valid() && Abs() == StopLogging(old(Abs())) && !logging && !work
    {
      logging := false;
      work := false;
    }

    /** `logging_thread.reset()` */
    method Reset()
      requires Valid()
      modifies this`thread
      ensures Valid() && Abs() == ResetThread(old(Abs()))
    {
      thread := None;
    }
  }

  /** The logger and the threads that use it, with their program counters. */
  class Logger {
    const resources: Resources
    var producers: map<nat, Producer>
    var workers: seq<Worker>
    var killer: Killer
    // histories
    var pushed: seq<Entry>
    var consumed: seq<Entry>
    var processed: seq<Entry>

    ghost predicate Valid()
      reads this, resources, resources.logs
    {
      resources.Valid()
    }

    ghost function Frame(): set<object>
      reads this, resources
    {
      {this, resources} + resources.logs.Repr
    }

    ghost function Now(): System
      reads this, resources, resources.logs, resources.logs.frontQueue, resources.logs.backQueue
    {
      System(resources.Abs(), producers, workers, killer, pushed, consumed, processed)
    }

    constructor ()
      ensures Valid() && Now() == INITIAL && fresh(Frame())
      ensures producers == map[] && workers == [] && killer == Idle && pushed == consumed == processed == []
    {
      resources := new Resources();
      producers, workers, killer := map[], [], Idle;
      pushed, consumed, processed := [], [], [];
    }

    /** A producer goes on inside `QueueLog`. */
    method ProducerTurn(p: nat)
      requires Valid() && p in producers
      modifies Frame()
      ensures Valid() && Now() == ProducerStep(old(Now()), p)
    {
      match producers[p]
      case Entering(e) => {
        var start := resources.EnterQueueLog(|workers|);
        if start {
          workers := workers + [Starting];
        }
        producers := producers[p := Pushing(e)];
      }
      case Pushing(e) => {
        resources.Push(e);
        pushed := pushed + [e];
        producers := producers[p := Signalling];
      }
      case Signalling => {
        resources.Signal();
        producers := producers[p := Notifying];
      }
      case Notifying => {
        NotifyAll();
        producers := producers - {p};
      }
    }

    /** `cv.notify_all()` */
    method NotifyAll()
      modifies this`workers
      ensures workers == Wake(old(workers))
    {
      workers := Wake(workers);
    }

    /** A worker goes on inside `run`; it cannot while it is asleep or has returned. */
    method WorkerTurn(w: nat) returns (ok: bool)
      requires Valid() && w < |workers|
      modifies Frame()
      ensures Valid() && ok == WorkerStep(old(Now()), w).Some?
      ensures Now() == if ok then WorkerStep(old(Now()), w).value else old(Now())
    {
      ok := true;
      match workers[w]
      case Starting => {
        var next := resources.TakeWork(true);
        workers := workers[w := next];
      }
      case Asleep => ok := false;
      case Woken => {
        var next := resources.TakeWork(false);
        workers := workers[w := next];
      }
      case Swapping => {
        resources.Swap();
        workers := workers[w := Checking];
      }
      case Checking => {
        var empty := resources.logs.Empty();
        workers := workers[w := if empty then Relocking else Consuming];
      }
      case Consuming => ok := ConsumeFront(w);
      case Popping => ok := PopFront(w);
      case Relocking => {
        resources.Count();
        NotifyAll();
        var next := resources.TakeWork(true);
        workers := workers[w := next];
      }
      case Done => ok := false;
    }

    method ConsumeFront(w: nat) returns (ok: bool)
      requires Valid() && w < |workers| && workers[w].Consuming?
      modifies this`consumed, this`workers
      ensures Valid() && ok == WorkerStep(old(Now()), w).Some?
      ensures Now() == if ok then WorkerStep(old(Now()), w).value else old(Now())
    {
      var empty := resources.logs.Empty();
      if empty {
        return false;
      }
      var e := resources.logs.Peek();
      consumed := consumed + [e];
      workers := workers[w := Popping];
      ok := true;
    }

    method PopFront(w: nat) returns (ok: bool)
      requires Valid() && w < |workers| && workers[w].Popping?
      modifies this`processed, this`workers, resources.logs.frontQueue
      ensures Valid() && ok == WorkerStep(old(Now()), w).Some?
      ensures Now() == if ok then WorkerStep(old(Now()), w).value else old(Now())
    {
      var empty := resources.logs.Empty();
      if empty {
        return false;
      }
      var e := resources.logs.Peek();
      resources.logs.Pop();
      processed := processed + [e];
      workers := workers[w := Checking];
      ok := true;
    }

    /** The killer goes on inside `KillThread`; `join` waits for the worker in the handle. */
    method KillerTurn() returns (ok: bool)
      requires Valid()
      modifies Frame()
      ensures Valid() && ok == KillerStep(old(Now())).Some?
      ensures Now() == if ok then KillerStep(old(Now())).value else old(Now())
    {
      ok := true;
      match killer
      case Idle => ok := false;
      case Testing => killer := if resources.thread == None then Idle else Waking;
      case Waking => {
        NotifyAll();
        killer := Joining;
      }
      case Joining => {
        ok := resources.thread.Some? && resources.thread.value < |workers| && workers[resources.thread.value].Done?;
        killer := if ok then Resetting else Joining;
      }
      case Resetting => {
        resources.Reset();
        killer := Idle;
      }
    }

    /** Whoever the schedule names takes a turn. */
    method Turn(e: Event) returns (ok: bool)
      requires Valid()
      modifies Frame()
      ensures Valid() && ok == Next(old(Now()), e).Some?
      ensures Now() == if ok then Next(old(Now()), e).value else old(Now())
    {
      ok := true;
      match e
      case Call(p, entry) => {
        ok := p !in producers;
        producers := if ok then producers[p := Entering(entry)] else producers;
      }
      case Produce(p) => {
        ok := p in producers;
        if ok {
          ProducerTurn(p);
        }
      }
      case Run(w) => {
        ok := w < |workers|;
        if ok {
          ok := WorkerTurn(w);
        }
      }
      case WakeUp(w) => {
        ok := w < |workers| && workers[w].Asleep?;
        workers := if ok then workers[w := Woken] else workers;
      }
      case Kill => {
        ok := killer.Idle?;
        if ok {
          resources.Stop();
          killer := Testing;
        }
      }
      case KillOn => ok := KillerTurn();
    }

    /** A whole schedule, from a logger nobody has used: every turn that can be taken is, and
        the others are passed over.  At its end nothing pushed is lost, repeated or reordered;
        and if logging is on and nobody can move, all of it has been consumed. */
    static method Play(schedule: seq<Event>) returns (log: Logger, ghost states: seq<System>, ghost events: seq<Event>)
      ensures log.Valid() && fresh(log) && Trace(states, events) && log.Now() == Last(states)
      ensures exists at :: Follows(schedule, |schedule|, states, events, at)
      ensures log.pushed == log.processed + log.resources.logs.Front() + log.resources.logs.Back()
      ensures log.consumed <= log.pushed
      ensures log.resources.logging && Quiescent(log.Now()) ==>
        log.consumed == log.pushed && multiset(log.consumed) == Called(events, |events|)
    {
      hide Next, Follows;
      log := new Logger();
      states, events := [INITIAL], [];
      ghost var at: seq<nat> := [0];
      FollowsFromStart(schedule);
      for i := 0 to |schedule|
        invariant log.Valid() && fresh(log) && fresh(log.Frame())
        invariant |states| == |events| + 1 && Trace(states, events) && log.Now() == Last(states)
        invariant Follows(schedule, i, states, events, at)
      {
        ghost var states1, events1 := states, events;
        var ok := log.Turn(schedule[i]);
        if ok {
          states, events := Extend(states, events, schedule[i]);
        }
        FollowsOn(schedule, i, states1, events1, at, states, events);
        at := at + [|events|];
      }
      NoLoss(states, events, |events|);
      if log.resources.logging && Quiescent(log.Now()) {
        RestMeansDrained(states, events, |events|);
        EveryCallIsConsumed(states, events, |events|);
      }
    }
  }

  /** The first n turns of the schedule have led to this run: `at[k]` events came before turn k,
      a turn that can be taken is the next event, and one that cannot is passed over. */
  ghost predicate Follows(schedule: seq<Event>, n: nat, states: seq<System>, events: seq<Event>, at: seq<nat>) {
    && n <= |schedule| && |states| == |events| + 1 && |at| == n + 1 && at[0] == 0 && at[n] == |events|
    && forall k :: 0 <= k < n ==> TurnDone(schedule[k], states, events, at[k], at[k + 1])
  }

  ghost predicate TurnDone(e: Event, states: seq<System>, events: seq<Event>, from: nat, to: nat)
    requires |states| == |events| + 1
  {
    && from <= |events|
    && if Next(states[from], e).Some? then to == from + 1 <= |events| && events[from] == e else to == from
  }

  lemma FollowsFromStart(schedule: seq<Event>)
    ensures Follows(schedule, 0, [INITIAL], [], [0])
  {
  }

  lemma FollowsOn(schedule: seq<Event>, n: nat, states: seq<System>, events: seq<Event>, at: seq<nat>,
    states2: seq<System>, events2: seq<Event>)
    requires Follows(schedule, n, states, events, at) && n < |schedule| && |states2| == |events2| + 1
    requires states <= states2 && events <= events2
    requires if Next(states[|events|], schedule[n]).Some? then events2 == events + [schedule[n]] else events2 == events
    ensures Follows(schedule, n + 1, states2, events2, at + [|events2|])
  {
    hide Next;
    var at2 := at + [|events2|];
    forall k | 0 <= k < n + 1 ensures TurnDone(schedule[k], states2, events2, at2[k], at2[k + 1]) {
      assert k < n ==> TurnDone(schedule[k], states, events, at[k], at[k + 1]);
    }
  }
}
