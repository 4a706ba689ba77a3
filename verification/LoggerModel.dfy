/** The asynchronous logger as interleaved atomic steps: any number of producers inside
    `QueueLog`, every worker thread ever started, and one thread that calls `KillThread`.
    A critical section under `cv_mtx` is one step, and so is each call on the queue. */
module LoggerModel {
  import opened Options

  type Entry = string

  // ----- shared state

  /** `resources_`: the flags under `cv_mtx`, the thread handle, and the two queues. */
  datatype Shared = Shared(
    logging: bool,
    work: bool,
    thread: Option<nat>,
    currentLoop: nat,
    front: seq<Entry>,
    back: seq<Entry>)

  /** First section of `QueueLog`: start a worker, with handle `id`, unless there is one. */
  predicate Starts(s: Shared) {
    !s.logging && s.thread.None?
  }

  function BeginQueueLog(s: Shared, id: nat): Shared {
    if Starts(s) then s.(logging := true, thread := Some(id)) else s
  }

  function PushEntry(s: Shared, e: Entry): Shared {
    s.(back := s.back + [e])
  }

  /** Last section of `QueueLog`. */
  function SignalWork(s: Shared): Shared {
    s.(work := true)
  }

  /** What the worker's wait is for. */
  predicate MayProceed(s: Shared) {
    !s.logging || s.work
  }

  /** After the wait. */
  function ClearWork(s: Shared): Shared {
    s.(work := false)
  }

  /** `Swap` drops what is left in front. */
  function SwapQueues(s: Shared): Shared {
    s.(front := s.back, back := [])
  }

  function PopFront(s: Shared): Shared
    requires s.front != []
  {
    s.(front := s.front[1..])
  }

  function CountLoop(s: Shared): Shared {
    s.(currentLoop := if s.currentLoop + 1 > 10000 then 0 else s.currentLoop + 1)
  }

  /** First section of `KillThread`. */
  function StopLogging(s: Shared): Shared {
    s.(logging := false, work := false)
  }

  function ResetThread(s: Shared): Shared {
    s.(thread := None)
  }

  // ----- program counters

  /** Inside `QueueLog`: before the first section, before `Push`, before `work = true`, and
      before `notify_all`. */
  datatype Producer = Entering(e: Entry) | Pushing(e: Entry) | Signalling | Notifying

  /** Inside `run`: before the first lock; asleep in the wait; woken but without the lock;
      before `Swap`; before the test for emptiness; before consuming; before `Pop`; before
      locking again; returned. */
  datatype Worker = Starting | Asleep | Woken | Swapping | Checking | Consuming | Popping | Relocking | Done

  /** Inside `KillThread`: not there; before the test of the handle; before `notify_all`;
      before `join` returns; before `reset`. */
  datatype Killer = Idle | Testing | Waking | Joining | Resetting

  /** The whole system, with three histories: what was pushed, what was consumed, and what has
      been consumed and popped. */
  datatype System = System(
    s: Shared,
    producers: map<nat, Producer>,
    workers: seq<Worker>,
    killer: Killer,
    pushed: seq<Entry>,
    consumed: seq<Entry>,
    processed: seq<Entry>)

  const INITIAL := System(Shared(false, false, None, 0, [], []), map[], [], Idle, [], [], [])

  // ----- steps

  datatype Event =
    | Call(p: nat, e: Entry)
    | Produce(p: nat)
    | Run(w: nat)
    | WakeUp(w: nat)
    | Kill
    | KillOn

  function Wake(workers: seq<Worker>): (r: seq<Worker>)
    ensures |r| == |workers|
    ensures forall w :: 0 <= w < |r| ==> r[w] == if workers[w].Asleep? then Woken else workers[w]
  {
    if workers == [] then [] else [if workers[0].Asleep? then Woken else workers[0]] + Wake(workers[1..])
  }

  /** One step of producer p. */
  function ProducerStep(x: System, p: nat): System
    requires p in x.producers
  {
    match x.producers[p]
    case Entering(e) =>
      x.(s := BeginQueueLog(x.s, |x.workers|),
         workers := if Starts(x.s) then x.workers + [Starting] else x.workers,
         producers := x.producers[p := Pushing(e)])
    case Pushing(e) =>
      x.(s := PushEntry(x.s, e), pushed := x.pushed + [e], producers := x.producers[p := Signalling])
    case Signalling => x.(s := SignalWork(x.s), producers := x.producers[p := Notifying])
    case Notifying => x.(workers := Wake(x.workers), producers := x.producers - {p})
  }

  /** The worker holds the lock at the head of its wait. */
  function WaitStep(x: System, w: nat): System
    requires w < |x.workers|
  {
    if MayProceed(x.s) then x.(s := ClearWork(x.s), workers := x.workers[w := Swapping])
    else x.(workers := x.workers[w := Asleep])
  }

  /** The worker holds the lock at the head of its loop. */
  function LoopStep(x: System, w: nat): System
    requires w < |x.workers|
  {
    if !x.s.logging then x.(workers := x.workers[w := Done]) else WaitStep(x, w)
  }

  /** One step of worker w; None while it is asleep or gone. */
  function WorkerStep(x: System, w: nat): Option<System>
    requires w < |x.workers|
  {
    match x.workers[w]
    case Starting => Some(LoopStep(x, w))
    case Asleep => None
    case Woken => Some(WaitStep(x, w))
    case Swapping => Some(x.(s := SwapQueues(x.s), workers := x.workers[w := Checking]))
    case Checking => Some(x.(workers := x.workers[w := if x.s.front == [] then Relocking else Consuming]))
    case Consuming =>
      if x.s.front == [] then None
      else Some(x.(consumed := x.consumed + [x.s.front[0]], workers := x.workers[w := Popping]))
    case Popping =>
      if x.s.front == [] then None
      else Some(x.(s := PopFront(x.s), processed := x.processed + [x.s.front[0]], workers := x.workers[w := Checking]))
    case Relocking => Some(LoopStep(x.(s := CountLoop(x.s), workers := Wake(x.workers)), w))
    case Done => None
  }

  /** One step of the killer; None while it waits for the worker, and when it is not there. */
  function KillerStep(x: System): Option<System> {
    match x.killer
    case Idle => None
    case Testing => Some(x.(killer := if x.s.thread.None? then Idle else Waking))
    case Waking => Some(x.(workers := Wake(x.workers), killer := Joining))
    case Joining =>
      if x.s.thread.Some? && x.s.thread.value < |x.workers| && x.workers[x.s.thread.value].Done?
      then Some(x.(killer := Resetting)) else None
    case Resetting => Some(x.(s := ResetThread(x.s), killer := Idle))
  }

  /** The next state, or None when the event cannot happen. */
  function Next(x: System, e: Event): Option<System> {
    match e
    case Call(p, entry) => if p in x.producers then None else Some(x.(producers := x.producers[p := Entering(entry)]))
    case Produce(p) => if p in x.producers then Some(ProducerStep(x, p)) else None
    case Run(w) => if w < |x.workers| then WorkerStep(x, w) else None
    case WakeUp(w) =>
      if w < |x.workers| && x.workers[w].Asleep? then Some(x.(workers := x.workers[w := Woken])) else None
    case Kill => if x.killer.Idle? then Some(x.(s := StopLogging(x.s), killer := Testing)) else None
    case KillOn => KillerStep(x)
  }
}
