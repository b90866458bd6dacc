/** The worker pool of libuv as a state machine. A step is what one thread does between acquiring
    the pool's mutex (or a loop's mutex) and releasing it or going to sleep; the mutex is free
    between steps. */
module ThreadPool {
  import opened ByteStrings

  datatype Kind = Cpu | FastIo | SlowIo

  /** What can be linked into the work queue. */
  datatype Item = Request(id: nat) | RunSlowWork | ExitMessage

  datatype Worker =
    | Locking(slow: bool)            // about to lock the mutex; `slow` if it has just run a slow item
    | Sleeping                       // blocked in the condition variable
    | Woken                          // out of the condition variable, about to lock again
    | Fetched(id: nat, slow: bool)   // holds an item whose work has not run yet
    | Ran(id: nat, slow: bool)       // the work has run, its loop does not know yet
    | Exited

  /** The `work` field of a request. */
  datatype WorkField = Function | Null | CancelledFunction

  datatype Status = Ok | Canceled

  /** A submitted request; `runs` and `calls` record how often its work ran and what its `done`
      was called with. */
  datatype Req = Req(loop: nat, kind: Kind, work: WorkField, runs: nat, calls: seq<Status>)

  /** An event loop: its queue of finished requests, the part of it that `uv__work_done` has moved
      aside, and the request that `uv__work_cancel` holds between its two critical sections. */
  datatype Loop = Loop(wq: seq<nat>, draining: seq<nat>, cancelling: Option<nat>)

  /** Requests are numbered in the order in which they enter the queues. `fastStarted` and
      `slowStarted` record the order in which workers take them. */
  datatype Pool = Pool(
    wq: seq<Item>, slowPending: seq<nat>, idle: int, slowRunning: int, workers: seq<Worker>,
    reqs: seq<Req>, loops: seq<Loop>, fastStarted: seq<nat>, slowStarted: seq<nat>)

  predicate NoDup<T(==)>(s: seq<T>) {
    forall i, j :: 0 <= i < j < |s| ==> s[i] != s[j]
  }

  function Without<T(==)>(s: seq<T>, x: T): seq<T> {
    if s == [] then [] else if s[0] == x then s[1..] else [s[0]] + Without(s[1..], x)
  }

  function Threshold(p: Pool): int {
    (|p.workers| + 1) / 2
  }

  predicate AtThreshold(p: Pool) {
    p.slowRunning >= Threshold(p)
  }

  /** A worker sleeps while there is no work, or only slow work that may not start now. */
  predicate WaitCondition(p: Pool) {
    p.wq == [] || (p.wq[0] == RunSlowWork && |p.wq| == 1 && AtThreshold(p))
  }

  // ----- Signalling

  /** The condition variable's promise: a signal wakes at least one sleeper if there is one. */
  ghost predicate SignalReaches(workers: seq<Worker>, wake: set<nat>) {
    (exists i :: 0 <= i < |workers| && workers[i].Sleeping?) ==>
      exists i :: i in wake && i < |workers| && workers[i].Sleeping?
  }

  function Signal(workers: seq<Worker>, wake: set<nat>): (r: seq<Worker>)
    ensures |r| == |workers|
    ensures forall i :: 0 <= i < |r| ==> r[i] == if i in wake && workers[i].Sleeping? then Woken else workers[i]
  {
    seq(|workers|, i requires 0 <= i < |workers| => if i in wake && workers[i].Sleeping? then Woken else workers[i])
  }

  // ----- The worker

  /** Locking the mutex: after waiting, or after running an item. */
  function Enter(p: Pool, w: nat): Pool
    requires w < |p.workers|
  {
    var q := p.(workers := p.workers[w := Locking(false)]);
    match p.workers[w]
    case Woken => q.(idle := p.idle - 1)
    case Locking(slow) => if slow then q.(slowRunning := p.slowRunning - 1) else q
    case _ => q
  }

  /** The body of the worker's loop with the mutex held, up to the point where it gives it up. */
  function Dispatch(p: Pool, w: nat, wake: set<nat>): Pool
    requires w < |p.workers| && NoDup(p.wq)
    decreases if p.wq != [] && p.wq[0] == RunSlowWork then 1 else 0
  {
    if WaitCondition(p) then
      p.(idle := p.idle + 1, workers := p.workers[w := Sleeping])
    else
      var rest := p.wq[1..];
      match p.wq[0]
      case ExitMessage =>
        p.(workers := Signal(p.workers[w := Exited], wake))
      case Request(id) =>
        p.(wq := rest, workers := p.workers[w := Fetched(id, false)], fastStarted := p.fastStarted + [id])
      case RunSlowWork =>
        if AtThreshold(p) then
          Dispatch(p.(wq := rest + [RunSlowWork]), w, wake)
        else if p.slowPending == [] then
          Dispatch(p.(wq := rest), w, wake)
        else
          var id := p.slowPending[0];
          var more := |p.slowPending| > 1;
          var workers := p.workers[w := Fetched(id, true)];
          p.(wq := if more then rest + [RunSlowWork] else rest,
             slowPending := p.slowPending[1..],
             slowRunning := p.slowRunning + 1,
             workers := if more && p.idle > 0 then Signal(workers, wake) else workers,
             slowStarted := p.slowStarted + [id])
  }

  // ----- Submitting

  /** Appends an item to the work queue and wakes a worker if one is idle. */
  function Enqueue(p: Pool, item: Item, wake: set<nat>): Pool {
    p.(wq := p.wq + [item], workers := if p.idle > 0 then Signal(p.workers, wake) else p.workers)
  }

  function Submit(p: Pool, loop: nat, kind: Kind, wake: set<nat>): Pool {
    var id := |p.reqs|;
    var q := p.(reqs := p.reqs + [Req(loop, kind, Function, 0, [])]);
    if kind == SlowIo then
      var q' := q.(slowPending := q.slowPending + [id]);
      if RunSlowWork in q'.wq then q' else Enqueue(q', RunSlowWork, wake)
    else
      Enqueue(q, Request(id), wake)
  }

  // ----- The loop thread

  /** The request is linked into some queue: the work queue, the slow queue, its loop's queue or
      the part of it being drained. Otherwise its own links point to itself. */
  predicate Linked(p: Pool, id: nat)
    requires id < |p.reqs| && p.reqs[id].loop < |p.loops|
  {
    var l := p.loops[p.reqs[id].loop];
    Request(id) in p.wq || id in p.slowPending || id in l.wq || id in l.draining
  }

  /** The first critical section of a cancellation. When the request is linked and not finished it
      is unlinked from whatever queue holds it; otherwise the call fails with UV_EBUSY. */
  function CancelUnlink(p: Pool, id: nat): Pool
    requires id < |p.reqs| && p.reqs[id].loop < |p.loops|
  {
    if Linked(p, id) && p.reqs[id].work != Null then
      var l := p.reqs[id].loop;
      var loop := p.loops[l];
      p.(wq := Without(p.wq, Request(id)),
         slowPending := Without(p.slowPending, id),
         loops := p.loops[l := Loop(Without(loop.wq, id), Without(loop.draining, id), Some(id))])
    else
      p
  }

  datatype Step =
    | SubmitWork(loop: nat, kind: Kind, wake: set<nat>)
    | PostExit(wake: set<nat>)
    | WorkerTurn(w: nat, wake: set<nat>)
    | SpuriousWakeup(w: nat)
    | RunWork(w: nat)
    | FinishWork(w: nat)
    | Cancel(id: nat)
    | CancelReport(loop: nat)
    | DrainBegin(loop: nat)
    | CallDone(loop: nat)

  ghost predicate Enabled(p: Pool, s: Step) {
    match s
    case SubmitWork(l, kind, wake) => l < |p.loops| && SignalReaches(p.workers, wake)
    case PostExit(wake) => ExitMessage !in p.wq && SignalReaches(p.workers, wake)
    case WorkerTurn(w, wake) =>
      && w < |p.workers| && (p.workers[w].Locking? || p.workers[w].Woken?)
      && NoDup(p.wq)
      && SignalReaches(p.workers, wake)
    case SpuriousWakeup(w) => w < |p.workers| && p.workers[w].Sleeping?
    case RunWork(w) => w < |p.workers| && p.workers[w].Fetched? && p.workers[w].id < |p.reqs|
    case FinishWork(w) =>
      && w < |p.workers| && p.workers[w].Ran? && p.workers[w].id < |p.reqs|
      && p.reqs[p.workers[w].id].loop < |p.loops|
    case Cancel(id) =>
      // On the request's loop thread, which is not inside another cancellation, before `done`.
      && id < |p.reqs| && p.reqs[id].calls == []
      && p.reqs[id].loop < |p.loops| && p.loops[p.reqs[id].loop].cancelling == None
    case CancelReport(l) => l < |p.loops| && p.loops[l].cancelling.Some? && p.loops[l].cancelling.value < |p.reqs|
    case DrainBegin(l) => l < |p.loops| && p.loops[l].draining == [] && p.loops[l].cancelling == None
    case CallDone(l) =>
      && l < |p.loops| && p.loops[l].draining != [] && p.loops[l].draining[0] < |p.reqs|
      && p.loops[l].cancelling == None
  }

  ghost function Apply(p: Pool, s: Step): Pool
    requires Enabled(p, s)
  {
    match s
    case SubmitWork(l, kind, wake) => Submit(p, l, kind, wake)
    case PostExit(wake) => Enqueue(p, ExitMessage, wake)
    case WorkerTurn(w, wake) => Dispatch(Enter(p, w), w, wake)
    case SpuriousWakeup(w) => p.(workers := p.workers[w := Woken])
    case RunWork(w) =>
      var id, slow := p.workers[w].id, p.workers[w].slow;
      p.(workers := p.workers[w := Ran(id, slow)], reqs := p.reqs[id := p.reqs[id].(runs := p.reqs[id].runs + 1)])
    case FinishWork(w) =>
      var id, slow := p.workers[w].id, p.workers[w].slow;
      var l := p.reqs[id].loop;
      p.(workers := p.workers[w := Locking(slow)],
         reqs := p.reqs[id := p.reqs[id].(work := Null)],
         loops := p.loops[l := p.loops[l].(wq := p.loops[l].wq + [id])])
    case Cancel(id) => CancelUnlink(p, id)
    case CancelReport(l) =>
      var id := p.loops[l].cancelling.value;
      p.(reqs := p.reqs[id := p.reqs[id].(work := CancelledFunction)],
         loops := p.loops[l := p.loops[l].(wq := p.loops[l].wq + [id], cancelling := None)])
    case DrainBegin(l) =>
      p.(loops := p.loops[l := p.loops[l].(wq := [], draining := p.loops[l].wq)])
    case CallDone(l) =>
      var id := p.loops[l].draining[0];
      var status := if p.reqs[id].work == CancelledFunction then Canceled else Ok;
      p.(loops := p.loops[l := p.loops[l].(draining := p.loops[l].draining[1..])],
         reqs := p.reqs[id := p.reqs[id].(calls := p.reqs[id].calls + [status])])
  }

  /** The state after `init_threads`: every worker is about to lock the mutex. */
  predicate Init(p: Pool) {
    && |p.workers| >= 1
    && (forall w :: 0 <= w < |p.workers| ==> p.workers[w] == Locking(false))
    && (forall l :: 0 <= l < |p.loops| ==> p.loops[l] == Loop([], [], None))
    && p.wq == [] && p.slowPending == [] && p.idle == 0 && p.slowRunning == 0
    && p.reqs == [] && p.fastStarted == [] && p.slowStarted == []
  }

  ghost predicate TakesStep(p: Pool, s: Step, q: Pool) {
    Enabled(p, s) && q == Apply(p, s)
  }

  /** An interleaving of the threads' steps. */
  ghost predicate IsRun(states: seq<Pool>, steps: seq<Step>) {
    && |states| == |steps| + 1
    && Init(states[0])
    && forall i :: 0 <= i < |steps| ==> TakesStep(states[i], steps[i], states[i + 1])
  }
}
