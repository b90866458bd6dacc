/** What holds in every interleaving of submitters, workers and loop threads. */
module ThreadPoolTheorems {
  import opened ByteStrings
  import opened ThreadPool
  import opened ThreadPoolScheduling
  import opened ThreadPoolPlaces

  ghost predicate PoolInv(p: Pool) {
    SchedulingInv(p) && exists at :: Placed(p, at)
  }

  lemma InvStep(p: Pool, s: Step, q: Pool)
    requires PoolInv(p) && TakesStep(p, s, q)
    ensures PoolInv(q)
  {
    SchedulingStep(p, s);
    var at :| Placed(p, at);
    var at' := PlacesStep(p, s, at);
  }

  lemma InitInv(p: Pool)
    requires Init(p)
    ensures PoolInv(p)
  {
    InitScheduling(p);
    assert Placed(p, []);
  }

  lemma {:induction false} EveryReachableState(states: seq<Pool>, steps: seq<Step>, i: nat)
    requires IsRun(states, steps) && i < |states|
    ensures PoolInv(states[i])
  {
    if i == 0 {
      InitInv(states[0]);
    } else {
      EveryReachableState(states, steps, i - 1);
      InvStep(states[i - 1], steps[i - 1], states[i]);
    }
  }

  // ----- Requests

  /** A request is in exactly one place. */
  lemma ExactlyOnePlace(states: seq<Pool>, steps: seq<Step>, i: nat, id: nat)
    requires IsRun(states, steps) && i < |states| && id < |states[i].reqs|
    ensures exists place :: IsAt(states[i], id, place)
    ensures forall x, y :: IsAt(states[i], id, x) && IsAt(states[i], id, y) ==> x == y
  {
    EveryReachableState(states, steps, i);
    var at :| Placed(states[i], at);
    assert IsAt(states[i], id, at[id]);
  }

  function RunsNow(p: Pool, s: Step, id: nat): nat {
    if s.RunWork? && s.w < |p.workers| && p.workers[s.w].Fetched? && p.workers[s.w].id == id then 1 else 0
  }

  function CallNow(p: Pool, s: Step, id: nat): seq<Status> {
    if && s.CallDone? && s.loop < |p.loops| && p.loops[s.loop].draining != [] && p.loops[s.loop].draining[0] == id
       && id < |p.reqs|
    then [if p.reqs[id].work == CancelledFunction then Canceled else Ok]
    else []
  }

  /** How often the work of `id` has run, and what its callback was called with, in the first `n` steps. */
  function TimesRun(states: seq<Pool>, steps: seq<Step>, id: nat, n: nat): nat
    requires n <= |steps| < |states|
  {
    if n == 0 then 0 else TimesRun(states, steps, id, n - 1) + RunsNow(states[n - 1], steps[n - 1], id)
  }

  function CallsMade(states: seq<Pool>, steps: seq<Step>, id: nat, n: nat): seq<Status>
    requires n <= |steps| < |states|
  {
    if n == 0 then [] else CallsMade(states, steps, id, n - 1) + CallNow(states[n - 1], steps[n - 1], id)
  }

  lemma TurnKeepsRequests(p: Pool, w: nat, wake: set<nat>)
    requires w < |p.workers| && NoDup(p.wq)
    ensures Dispatch(p, w, wake).reqs == p.reqs
    decreases if p.wq != [] && p.wq[0] == RunSlowWork then 1 else 0
  {
    if !WaitCondition(p) && p.wq[0] == RunSlowWork {
      if AtThreshold(p) {
        TurnKeepsRequests(p.(wq := p.wq[1..] + [RunSlowWork]), w, wake);
      } else if p.slowPending == [] {
        TurnKeepsRequests(p.(wq := p.wq[1..]), w, wake);
      }
    }
  }

  lemma StepHistory(p: Pool, s: Step, id: nat)
    requires Enabled(p, s)
    ensures var rs := Apply(p, s).reqs;
            && |p.reqs| <= |rs|
            && (id < |p.reqs| ==> rs[id].runs == p.reqs[id].runs + RunsNow(p, s, id))
            && (id < |p.reqs| ==> rs[id].calls == p.reqs[id].calls + CallNow(p, s, id))
            && (|p.reqs| <= id ==> RunsNow(p, s, id) == 0 && CallNow(p, s, id) == [])
            && (|p.reqs| <= id < |rs| ==> rs[id].runs == 0 && rs[id].calls == [])
  {
    if s.WorkerTurn? { TurnKeepsRequests(Enter(p, s.w), s.w, s.wake); }
  }

  /** The history fields of request `id` say this. */
  predicate Records(p: Pool, id: nat, runs: nat, calls: seq<Status>) {
    if id < |p.reqs| then p.reqs[id].runs == runs && p.reqs[id].calls == calls else runs == 0 && calls == []
  }

  lemma RecordsStep(p: Pool, s: Step, q: Pool, id: nat, runs: nat, calls: seq<Status>)
    requires TakesStep(p, s, q) && Records(p, id, runs, calls)
    ensures Records(q, id, runs + RunsNow(p, s, id), calls + CallNow(p, s, id))
  {
    StepHistory(p, s, id);
  }

  /** The history fields of a request are what happened in the run. */
  lemma {:induction false} HistoryIsTrue(states: seq<Pool>, steps: seq<Step>, id: nat, n: nat)
    requires IsRun(states, steps) && n <= |steps|
    ensures Records(states[n], id, TimesRun(states, steps, id, n), CallsMade(states, steps, id, n))
  {
    if n > 0 {
      HistoryIsTrue(states, steps, id, n - 1);
      var runs, calls := TimesRun(states, steps, id, n - 1), CallsMade(states, steps, id, n - 1);
      RecordsStep(states[n - 1], steps[n - 1], states[n], id, runs, calls);
    }
  }

  /** Work runs at most once, `done` is called at most once, and with UV_ECANCELED exactly when the
      work never ran and never will. */
  lemma AtMostOnce(states: seq<Pool>, steps: seq<Step>, id: nat, n: nat)
    requires IsRun(states, steps) && n <= |steps|
    ensures TimesRun(states, steps, id, n) <= 1
    ensures |CallsMade(states, steps, id, n)| <= 1
    ensures CallsMade(states, steps, id, n) == [Canceled] ==> TimesRun(states, steps, id, n) == 0
    ensures CallsMade(states, steps, id, n) == [Ok] ==> TimesRun(states, steps, id, n) == 1
  {
    HistoryIsTrue(states, steps, id, n);
    EveryReachableState(states, steps, n);
    if id < |states[n].reqs| {
      var at :| Placed(states[n], at);
      assert FitsPlace(states[n].reqs[id], at[id], WorkerAt(states[n], at[id]));
      if at[id] != Done { assert !IsAt(states[n], id, Done); }
    }
  }

  /** No worker ever calls the function that marks a cancelled request, which aborts. */
  lemma NeverRunsCancelled(states: seq<Pool>, steps: seq<Step>, i: nat, w: nat)
    requires IsRun(states, steps) && i < |states|
    requires w < |states[i].workers| && states[i].workers[w].Fetched?
    ensures var id := states[i].workers[w].id; id < |states[i].reqs| && states[i].reqs[id].work == Function
  {
    EveryReachableState(states, steps, i);
    var p := states[i];
    var at :| Placed(p, at);
    assert IsAt(p, p.workers[w].id, OnWorker(w));
  }

  // ----- Scheduling

  /** Slow work in progress is counted right and stays at or below half the threads, rounded up;
      the marker that schedules it is queued at most once, and whenever slow work is pending. */
  lemma SlowWorkIsCapped(states: seq<Pool>, steps: seq<Step>, i: nat)
    requires IsRun(states, steps) && i < |states|
    ensures var p := states[i];
            && p.slowRunning == |SlowWorkers(p.workers)| <= (|p.workers| + 1) / 2
            && (forall j, k :: 0 <= j < k < |p.wq| && p.wq[j] == RunSlowWork ==> p.wq[k] != RunSlowWork)
            && (p.slowPending != [] ==> RunSlowWork in p.wq)
  {
    EveryReachableState(states, steps, i);
  }

  /** Fast items and slow items each start in submission order. */
  lemma StartsInSubmissionOrder(states: seq<Pool>, steps: seq<Step>, i: nat, a: nat, b: nat)
    requires IsRun(states, steps) && i < |states| && a < b
    ensures b < |states[i].fastStarted| ==> states[i].fastStarted[a] < states[i].fastStarted[b]
    ensures b < |states[i].slowStarted| ==> states[i].slowStarted[a] < states[i].slowStarted[b]
  {
    EveryReachableState(states, steps, i);
  }

  /** If every worker sleeps unsignalled, there is nothing to do. */
  lemma AllAsleepMeansNoWork(states: seq<Pool>, steps: seq<Step>, i: nat)
    requires IsRun(states, steps) && i < |states|
    requires forall w :: 0 <= w < |states[i].workers| ==> states[i].workers[w].Sleeping?
    ensures states[i].wq == [] && states[i].slowPending == []
  {
    EveryReachableState(states, steps, i);
    var p := states[i];
    assert SlowWorkers(p.workers) == {};
    assert p.workers[0].Sleeping?;
    assert WaitCondition(p);
  }

  // ----- Shutdown

  predicate IsWorkerStep(s: Step) {
    s.WorkerTurn? || s.SpuriousWakeup? || s.RunWork? || s.FinishWork?
  }

  function Rank(w: Worker): nat {
    match w
    case Fetched(_, _) => 3
    case Ran(_, _) => 2
    case Sleeping => 2
    case Locking(_) => 1
    case Woken => 1
    case Exited => 0
  }

  function RankSum(ws: seq<Worker>): nat {
    if ws == [] then 0 else Rank(ws[0]) + RankSum(ws[1..])
  }

  /** How many items stand before the exit message. */
  function Ahead(wq: seq<Item>): nat {
    if wq == [] || wq[0] == ExitMessage then 0 else 1 + Ahead(wq[1..])
  }

  function WorkLeft(p: Pool): nat {
    4 * Ahead(p.wq) + RankSum(p.workers)
  }

  lemma {:induction false} RankChanges(ws: seq<Worker>, w: nat, x: Worker)
    requires w < |ws|
    ensures RankSum(ws[w := x]) == RankSum(ws) - Rank(ws[w]) + Rank(x)
  {
    if w == 0 {
      assert ws[w := x][1..] == ws[1..];
    } else {
      assert ws[w := x][1..] == ws[1..][w - 1 := x];
      RankChanges(ws[1..], w - 1, x);
    }
  }

  lemma {:induction false} RankFalls(ws: seq<Worker>, vs: seq<Worker>)
    requires |ws| == |vs| && forall i :: 0 <= i < |ws| ==> Rank(vs[i]) <= Rank(ws[i])
    ensures RankSum(vs) <= RankSum(ws)
  {
    if ws != [] {
      RankFalls(ws[1..], vs[1..]);
    }
  }

  lemma {:induction false} AheadOfTail(wq: seq<Item>, x: Item)
    requires ExitMessage in wq
    ensures Ahead(wq + [x]) == Ahead(wq)
  {
    if wq[0] != ExitMessage {
      assert (wq + [x])[1..] == wq[1..] + [x];
      AheadOfTail(wq[1..], x);
    }
  }

  lemma {:induction false} AheadWithout(wq: seq<Item>, id: nat)
    requires ExitMessage in wq
    ensures Ahead(Without(wq, Request(id))) <= Ahead(wq)
    ensures ExitMessage in Without(wq, Request(id))
  {
    if wq[0] == Request(id) {
    } else if wq[0] != ExitMessage {
      AheadWithout(wq[1..], id);
      var r := Without(wq[1..], Request(id));
      assert ([wq[0]] + r)[1..] == r;
    }
  }

  /** A worker that locks the mutex takes on something of less rank than what is left of the queue. */
  lemma TakesOn(ws: seq<Worker>, w: nat, x: Worker, wake: set<nat>)
    requires w < |ws| && ws[w] == Locking(false)
    ensures RankSum(ws[w := x]) == RankSum(ws) - 1 + Rank(x)
    ensures RankSum(Signal(ws[w := x], wake)) <= RankSum(ws) - 1 + Rank(x)
  {
    RankChanges(ws, w, x);
    RankFalls(ws[w := x], Signal(ws[w := x], wake));
  }

  lemma AheadOfFirst(wq: seq<Item>)
    requires ExitMessage in wq && wq[0] != ExitMessage
    ensures ExitMessage in wq[1..] && Ahead(wq) == 1 + Ahead(wq[1..])
    ensures ExitMessage in wq[1..] + [RunSlowWork] && Ahead(wq[1..] + [RunSlowWork]) == Ahead(wq) - 1
  {
    AheadOfTail(wq[1..], RunSlowWork);
  }

  ghost predicate CanProgress(p: Pool, w: nat) {
    w < |p.workers| && p.workers[w] == Locking(false) && NoDup(p.wq) && ExitMessage in p.wq
  }

  ghost predicate Progresses(p: Pool, q: Pool) {
    ExitMessage in q.wq && WorkLeft(q) < WorkLeft(p)
  }

  lemma ItemProgresses(p: Pool, w: nat, wake: set<nat>)
    requires CanProgress(p, w) && p.wq[0] != RunSlowWork
    ensures Progresses(p, Dispatch(p, w, wake))
  {
    match p.wq[0]
    case ExitMessage => TakesOn(p.workers, w, Exited, wake);
    case Request(id) =>
      AheadOfFirst(p.wq);
      TakesOn(p.workers, w, Fetched(id, false), wake);
  }

  lemma SlowProgresses(p: Pool, w: nat, wake: set<nat>)
    requires CanProgress(p, w) && p.wq[0] == RunSlowWork && !AtThreshold(p) && p.slowPending != []
    ensures Progresses(p, Dispatch(p, w, wake))
  {
    AheadOfFirst(p.wq);
    TakesOn(p.workers, w, Fetched(p.slowPending[0], true), wake);
  }

  lemma SkipProgresses(p: Pool, w: nat, q: Pool)
    requires CanProgress(p, w) && p.wq[0] == RunSlowWork
    requires q == p.(wq := p.wq[1..] + [RunSlowWork]) || q == p.(wq := p.wq[1..])
    ensures CanProgress(q, w) && Progresses(p, q) && q.wq[0] != RunSlowWork
  {
    AheadOfFirst(p.wq);
  }

  lemma DispatchProgresses(p: Pool, w: nat, wake: set<nat>)
    requires CanProgress(p, w)
    ensures Progresses(p, Dispatch(p, w, wake))
  {
    if p.wq[0] != RunSlowWork {
      ItemProgresses(p, w, wake);
    } else if !AtThreshold(p) && p.slowPending != [] {
      SlowProgresses(p, w, wake);
    } else {
      var q := if AtThreshold(p) then p.(wq := p.wq[1..] + [RunSlowWork]) else p.(wq := p.wq[1..]);
      SkipProgresses(p, w, q);
      ItemProgresses(q, w, wake);
    }
  }

  /** Once the exit message is queued it stays, every worker step uses up some of what is left to
      do, and no other step adds to it. */
  lemma ExitProgresses(p: Pool, s: Step)
    requires ExitMessage in p.wq && Enabled(p, s)
    ensures ExitMessage in Apply(p, s).wq
    ensures WorkLeft(Apply(p, s)) <= WorkLeft(p)
    ensures IsWorkerStep(s) ==> WorkLeft(Apply(p, s)) < WorkLeft(p)
  {
    match s
    case SubmitWork(_, _, wake) =>
      AheadOfTail(p.wq, RunSlowWork);
      AheadOfTail(p.wq, Request(|p.reqs|));
      RankFalls(p.workers, Signal(p.workers, wake));
    case PostExit(wake) =>
    case WorkerTurn(w, wake) =>
      RankChanges(p.workers, w, Locking(false));
      DispatchProgresses(Enter(p, w), w, wake);
    case SpuriousWakeup(w) => RankChanges(p.workers, w, Woken);
    case RunWork(w) => RankChanges(p.workers, w, Ran(p.workers[w].id, p.workers[w].slow));
    case FinishWork(w) => RankChanges(p.workers, w, Locking(p.workers[w].slow));
    case Cancel(id) => AheadWithout(p.wq, id);
    case _ =>
  }

  /** `n` worker steps out of `bound` are taken, and what is left to do fits into the others. */
  ghost predicate Affords(p: Pool, n: nat, bound: nat) {
    ExitMessage in p.wq && n + WorkLeft(p) <= bound
  }

  lemma AffordsStep(p: Pool, s: Step, q: Pool, n: nat, bound: nat)
    requires Affords(p, n, bound) && TakesStep(p, s, q)
    ensures Affords(q, n + (if IsWorkerStep(s) then 1 else 0), bound)
  {
    ExitProgresses(p, s);
  }

  function WorkerSteps(steps: seq<Step>, from: nat, to: nat): nat
    requires from <= to <= |steps|
  {
    if from == to then 0 else WorkerSteps(steps, from, to - 1) + (if IsWorkerStep(steps[to - 1]) then 1 else 0)
  }

  lemma {:induction false} ShutdownAffords(states: seq<Pool>, steps: seq<Step>, from: nat, to: nat, bound: nat)
    requires IsRun(states, steps) && from <= to <= |steps| && Affords(states[from], 0, bound)
    ensures Affords(states[to], WorkerSteps(steps, from, to), bound)
  {
    if from < to {
      ShutdownAffords(states, steps, from, to - 1, bound);
      AffordsStep(states[to - 1], steps[to - 1], states[to], WorkerSteps(steps, from, to - 1), bound);
    }
  }

  /** After the exit message is posted the workers take only boundedly many steps, whatever the
      other threads do. */
  lemma ShutdownIsBounded(states: seq<Pool>, steps: seq<Step>, from: nat, to: nat)
    requires IsRun(states, steps) && from <= to <= |steps| && ExitMessage in states[from].wq
    ensures ExitMessage in states[to].wq
    ensures WorkerSteps(steps, from, to) + WorkLeft(states[to]) <= WorkLeft(states[from])
  {
    ShutdownAffords(states, steps, from, to, WorkLeft(states[from]));
  }

  /** A step that a worker takes by itself, which leaves out waking up without a signal. */
  predicate IsOwnStep(s: Step) {
    s.WorkerTurn? || s.RunWork? || s.FinishWork?
  }

  ghost predicate CanStep(p: Pool) {
    exists s :: IsOwnStep(s) && Enabled(p, s)
  }

  /** A worker that is neither asleep nor gone can always take its next step. */
  lemma AwakeCanStep(p: Pool, w: nat) returns (s: Step)
    requires PoolInv(p) && w < |p.workers| && Awake(p.workers[w])
    ensures IsOwnStep(s) && Enabled(p, s)
  {
    var at :| Placed(p, at);
    if p.workers[w].Fetched? {
      assert IsAt(p, p.workers[w].id, OnWorker(w));
      s := RunWork(w);
    } else if p.workers[w].Ran? {
      assert IsAt(p, p.workers[w].id, OnWorker(w));
      s := FinishWork(w);
    } else {
      var everyone := set x: nat | x < |p.workers| && p.workers[x].Sleeping?;
      s := WorkerTurn(w, everyone);
      if i :| 0 <= i < |p.workers| && p.workers[i].Sleeping? { assert i in everyone; }
    }
  }

  /** No wakeup is lost: with the exit message queued, all workers have exited or one can go on without
      anybody's help. */
  lemma ExitLeavesNobodyBehind(p: Pool)
    requires PoolInv(p) && ExitMessage in p.wq
    ensures AllExited(p.workers) || CanStep(p)
  {
    assert !WaitCondition(p);
    if w :| 0 <= w < |p.workers| && Awake(p.workers[w]) {
      var s := AwakeCanStep(p, w);
    }
  }

  /** The exit message reaches every worker: a run that has come, after the message was queued, to a
      point where no worker can go on by itself has seen them all exit. It gets there after a bounded
      number of worker steps, whatever the other threads do. */
  lemma ExitReachesEveryWorker(states: seq<Pool>, steps: seq<Step>, from: nat, to: nat)
    requires IsRun(states, steps) && from <= to < |states| && ExitMessage in states[from].wq
    ensures !CanStep(states[to]) ==> AllExited(states[to].workers)
    ensures WorkerSteps(steps, from, to) <= WorkLeft(states[from])
  {
    EveryReachableState(states, steps, to);
    ShutdownIsBounded(states, steps, from, to);
    ExitLeavesNobodyBehind(states[to]);
  }

  /** `path` leads from one state to another by steps that workers take by themselves. */
  ghost predicate Leads(p: Pool, path: seq<Step>, q: Pool)
    decreases |path|
  {
    if path == [] then p == q
    else IsOwnStep(path[0]) && Enabled(p, path[0]) && Leads(Apply(p, path[0]), path[1..], q)
  }

  /** And it can always get there: the workers alone shut the pool down from wherever it is. */
  lemma {:induction false} WorkersShutDown(p: Pool) returns (path: seq<Step>, q: Pool)
    requires PoolInv(p) && ExitMessage in p.wq
    ensures Leads(p, path, q) && AllExited(q.workers) && |path| <= WorkLeft(p)
    decreases WorkLeft(p)
  {
    if AllExited(p.workers) {
      path, q := [], p;
    } else {
      ExitLeavesNobodyBehind(p);
      var s :| IsOwnStep(s) && Enabled(p, s);
      ExitProgresses(p, s);
      InvStep(p, s, Apply(p, s));
      var later;
      later, q := WorkersShutDown(Apply(p, s));
      path := [s] + later;
      assert path[1..] == later;
    }
  }
}
