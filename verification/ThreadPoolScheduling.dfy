/** Scheduling invariants of the worker pool: the counters tell the truth, slow work stays under
    its cap and is always scheduled, items start in submission order, and no wakeup is lost. */
module ThreadPoolScheduling {
  import opened ByteStrings
  import opened ThreadPool

  // ----- The counters

  predicate IsSlow(w: Worker) {
    (w.Fetched? || w.Ran? || w.Locking?) && w.slow
  }

  predicate IsIdle(w: Worker) {
    w.Sleeping? || w.Woken?
  }

  function SlowWorkers(ws: seq<Worker>): set<int> {
    set w | 0 <= w < |ws| && IsSlow(ws[w])
  }

  function IdleWorkers(ws: seq<Worker>): set<int> {
    set w | 0 <= w < |ws| && IsIdle(ws[w])
  }

  ghost predicate CountersTrue(p: Pool) {
    && p.slowRunning == |SlowWorkers(p.workers)|
    && p.idle == |IdleWorkers(p.workers)|
    && p.slowRunning <= Threshold(p)
  }

  lemma SlowChanges(ws: seq<Worker>, w: nat, x: Worker)
    requires w < |ws|
    ensures |SlowWorkers(ws[w := x])|
            == |SlowWorkers(ws)| - (if IsSlow(ws[w]) then 1 else 0) + (if IsSlow(x) then 1 else 0)
  {
    var others := SlowWorkers(ws) - {w};
    assert SlowWorkers(ws) == if IsSlow(ws[w]) then others + {w} else others;
    assert SlowWorkers(ws[w := x]) == if IsSlow(x) then others + {w} else others;
  }

  lemma IdleChanges(ws: seq<Worker>, w: nat, x: Worker)
    requires w < |ws|
    ensures |IdleWorkers(ws[w := x])|
            == |IdleWorkers(ws)| - (if IsIdle(ws[w]) then 1 else 0) + (if IsIdle(x) then 1 else 0)
  {
    var others := IdleWorkers(ws) - {w};
    assert IdleWorkers(ws) == if IsIdle(ws[w]) then others + {w} else others;
    assert IdleWorkers(ws[w := x]) == if IsIdle(x) then others + {w} else others;
  }

  lemma WorkerChanges(ws: seq<Worker>, w: nat, x: Worker)
    requires w < |ws|
    ensures |SlowWorkers(ws[w := x])|
            == |SlowWorkers(ws)| - (if IsSlow(ws[w]) then 1 else 0) + (if IsSlow(x) then 1 else 0)
    ensures |IdleWorkers(ws[w := x])|
            == |IdleWorkers(ws)| - (if IsIdle(ws[w]) then 1 else 0) + (if IsIdle(x) then 1 else 0)
  {
    SlowChanges(ws, w, x);
    IdleChanges(ws, w, x);
  }

  lemma SignalKeepsCounts(ws: seq<Worker>, wake: set<nat>)
    ensures SlowWorkers(Signal(ws, wake)) == SlowWorkers(ws)
    ensures IdleWorkers(Signal(ws, wake)) == IdleWorkers(ws)
  {
  }

  lemma EnterKeepsCounters(p: Pool, w: nat)
    requires CountersTrue(p) && w < |p.workers| && (p.workers[w].Locking? || p.workers[w].Woken?)
    ensures CountersTrue(Enter(p, w))
  {
    WorkerChanges(p.workers, w, Locking(false));
  }

  lemma DispatchKeepsCounters(p: Pool, w: nat, wake: set<nat>)
    requires CountersTrue(p) && w < |p.workers| && p.workers[w] == Locking(false) && NoDup(p.wq)
    ensures CountersTrue(Dispatch(p, w, wake))
    decreases if p.wq != [] && p.wq[0] == RunSlowWork then 1 else 0
  {
    WorkerChanges(p.workers, w, Sleeping);
    WorkerChanges(p.workers, w, Exited);
    SignalKeepsCounts(p.workers[w := Exited], wake);
    if !WaitCondition(p) {
      var rest := p.wq[1..];
      match p.wq[0]
      case ExitMessage =>
      case Request(id) => WorkerChanges(p.workers, w, Fetched(id, false));
      case RunSlowWork =>
        if AtThreshold(p) {
          DispatchKeepsCounters(p.(wq := rest + [RunSlowWork]), w, wake);
        } else if p.slowPending == [] {
          DispatchKeepsCounters(p.(wq := rest), w, wake);
        } else {
          var x := Fetched(p.slowPending[0], true);
          WorkerChanges(p.workers, w, x);
          SignalKeepsCounts(p.workers[w := x], wake);
        }
    }
  }

  lemma CountersStep(p: Pool, s: Step)
    requires CountersTrue(p) && Enabled(p, s)
    ensures CountersTrue(Apply(p, s))
  {
    match s
    case SubmitWork(_, _, wake) => SignalKeepsCounts(p.workers, wake);
    case PostExit(wake) => SignalKeepsCounts(p.workers, wake);
    case WorkerTurn(w, wake) =>
      EnterKeepsCounters(p, w);
      DispatchKeepsCounters(Enter(p, w), w, wake);
    case SpuriousWakeup(w) => WorkerChanges(p.workers, w, Woken);
    case RunWork(w) => WorkerChanges(p.workers, w, Ran(p.workers[w].id, p.workers[w].slow));
    case FinishWork(w) => WorkerChanges(p.workers, w, Locking(p.workers[w].slow));
    case _ =>
  }

  // ----- The queues

  /** Numbers never fall along the started items followed by the waiting ones. */
  ghost predicate InOrder(started: seq<nat>, waiting: seq<nat>) {
    && (forall i, j :: 0 <= i < j < |started| ==> started[i] < started[j])
    && (forall i, j :: 0 <= i < j < |waiting| ==> waiting[i] < waiting[j])
    && (forall i, j :: 0 <= i < |started| && 0 <= j < |waiting| ==> started[i] < waiting[j])
  }

  /** The requests of the work queue, in queue order. */
  function Requests(wq: seq<Item>): seq<nat> {
    if wq == [] then []
    else (if wq[0].Request? then [wq[0].id] else []) + Requests(wq[1..])
  }

  ghost predicate AllBelow(ids: seq<nat>, n: nat) {
    forall i :: 0 <= i < |ids| ==> ids[i] < n
  }

  ghost predicate QueuesOrdered(p: Pool) {
    && NoDup(p.wq)
    && (p.slowPending != [] ==> RunSlowWork in p.wq)
    && InOrder(p.fastStarted, Requests(p.wq))
    && InOrder(p.slowStarted, p.slowPending)
    && AllBelow(p.fastStarted, |p.reqs|) && AllBelow(Requests(p.wq), |p.reqs|)
    && AllBelow(p.slowStarted, |p.reqs|) && AllBelow(p.slowPending, |p.reqs|)
  }

  lemma {:induction false} RequestsConcat(a: seq<Item>, b: seq<Item>)
    ensures Requests(a + b) == Requests(a) + Requests(b)
  {
    if a == [] {
      assert a + b == b;
    } else {
      assert (a + b)[0] == a[0] && (a + b)[1..] == a[1..] + b;
      RequestsConcat(a[1..], b);
      var first := if a[0].Request? then [a[0].id] else [];
      assert first + (Requests(a[1..]) + Requests(b)) == first + Requests(a[1..]) + Requests(b);
    }
  }

  lemma {:induction false} RequestsMembers(wq: seq<Item>, id: nat)
    ensures id in Requests(wq) <==> Request(id) in wq
  {
    if wq != [] {
      RequestsMembers(wq[1..], id);
    }
  }

  /** `Without` drops one position and keeps the rest in order. */
  lemma {:induction false} WithoutDropsOne<T>(s: seq<T>, x: T) returns (k: nat)
    ensures x in s ==> k < |s| && s[k] == x && Without(s, x) == s[..k] + s[k + 1..]
    ensures x !in s ==> k == |s| && Without(s, x) == s
  {
    if s == [] {
      k := 0;
    } else if s[0] == x {
      k := 0;
      assert s[1..] == s[..0] + s[1..];
    } else {
      var k' := WithoutDropsOne(s[1..], x);
      k := k' + 1;
      if x in s[1..] { assert [s[0]] + (s[1..][..k'] + s[1..][k' + 1..]) == s[..k] + s[k + 1..]; }
    }
  }

  lemma {:induction false} WithoutKeepsOthers<T>(s: seq<T>, x: T, y: T)
    ensures y in Without(s, x) ==> y in s
    ensures y in s && y != x ==> y in Without(s, x)
  {
    if s != [] { WithoutKeepsOthers(s[1..], x, y); }
  }

  lemma {:induction false} WithoutNoDup<T>(s: seq<T>, x: T)
    requires NoDup(s)
    ensures x !in Without(s, x) && NoDup(Without(s, x))
  {
    var k := WithoutDropsOne(s, x);
    if x in s {
      var a, b := s[..k], s[k + 1..];
      assert forall i :: 0 <= i < |b| ==> b[i] == s[k + 1 + i];
      assert x !in a && x !in b;
      assert forall i, j :: 0 <= i < |a| && 0 <= j < |b| ==> a[i] != b[j];
    }
  }

  lemma {:induction false} WithoutMembers<T>(s: seq<T>, x: T)
    ensures forall y :: y in Without(s, x) ==> y in s
    ensures forall y :: y in s && y != x ==> y in Without(s, x)
    ensures x !in s ==> Without(s, x) == s
    ensures NoDup(s) ==> x !in Without(s, x) && NoDup(Without(s, x))
  {
    var k := WithoutDropsOne(s, x);
    forall y: T
      ensures y in Without(s, x) ==> y in s
      ensures y in s && y != x ==> y in Without(s, x)
    {
      WithoutKeepsOthers(s, x, y);
    }
    if NoDup(s) { WithoutNoDup(s, x); }
  }

  lemma {:induction false} RequestsWithout(wq: seq<Item>, id: nat)
    ensures Requests(Without(wq, Request(id))) == Without(Requests(wq), id)
  {
    if wq != [] {
      var first, later := wq[0], Requests(wq[1..]);
      if first == Request(id) {
        assert Requests(wq) == [id] + later;
      } else {
        RequestsWithout(wq[1..], id);
        var r := Without(wq[1..], Request(id));
        assert ([first] + r)[1..] == r;
        if first.Request? {
          assert Requests(wq) == [first.id] + later && ([first.id] + later)[1..] == later;
        } else {
          assert Requests(wq) == later;
        }
      }
    }
  }

  lemma InOrderWithout(started: seq<nat>, waiting: seq<nat>, x: nat, n: nat)
    requires InOrder(started, waiting) && AllBelow(waiting, n)
    ensures InOrder(started, Without(waiting, x)) && AllBelow(Without(waiting, x), n)
  {
    var k := WithoutDropsOne(waiting, x);
  }

  lemma InOrderStarts(started: seq<nat>, waiting: seq<nat>, n: nat)
    requires InOrder(started, waiting) && waiting != [] && AllBelow(started, n) && AllBelow(waiting, n)
    ensures InOrder(started + [waiting[0]], waiting[1..])
    ensures AllBelow(started + [waiting[0]], n) && AllBelow(waiting[1..], n)
  {
  }

  lemma InOrderAppend(started: seq<nat>, waiting: seq<nat>, id: nat)
    requires InOrder(started, waiting) && AllBelow(started, id) && AllBelow(waiting, id)
    ensures InOrder(started, waiting + [id]) && AllBelow(waiting + [id], id + 1)
  {
  }

  /** Moving the marker to the tail, or dropping it, leaves the requests alone. */
  lemma MarkerMoves(wq: seq<Item>)
    requires NoDup(wq) && wq != [] && wq[0] == RunSlowWork
    ensures RunSlowWork !in wq[1..]
    ensures NoDup(wq[1..]) && NoDup(wq[1..] + [RunSlowWork])
    ensures Requests(wq[1..]) == Requests(wq) && Requests(wq[1..] + [RunSlowWork]) == Requests(wq)
  {
    RequestsConcat(wq[1..], [RunSlowWork]);
    assert Requests([RunSlowWork]) == [];
  }

  lemma DispatchKeepsQueues(p: Pool, w: nat, wake: set<nat>)
    requires QueuesOrdered(p) && w < |p.workers|
    ensures QueuesOrdered(Dispatch(p, w, wake))
    decreases if p.wq != [] && p.wq[0] == RunSlowWork then 1 else 0
  {
    if !WaitCondition(p) {
      var rest := p.wq[1..];
      match p.wq[0]
      case ExitMessage =>
      case Request(id) =>
        assert Requests(p.wq) == [id] + Requests(rest);
        InOrderStarts(p.fastStarted, Requests(p.wq), |p.reqs|);
      case RunSlowWork =>
        MarkerMoves(p.wq);
        if AtThreshold(p) {
          DispatchKeepsQueues(p.(wq := rest + [RunSlowWork]), w, wake);
        } else if p.slowPending == [] {
          DispatchKeepsQueues(p.(wq := rest), w, wake);
        } else {
          InOrderStarts(p.slowStarted, p.slowPending, |p.reqs|);
        }
    }
  }

  lemma BelowMore(ids: seq<nat>, n: nat)
    requires AllBelow(ids, n)
    ensures AllBelow(ids, n + 1) && AllBelow(ids + [n], n + 1)
  {
  }

  lemma NoDupMore<T>(s: seq<T>, x: T)
    requires NoDup(s) && x !in s
    ensures NoDup(s + [x])
  {
  }

  lemma SubmitSlowKeepsQueues(p: Pool, l: nat, wake: set<nat>)
    requires QueuesOrdered(p)
    ensures QueuesOrdered(Submit(p, l, SlowIo, wake))
  {
    var id := |p.reqs|;
    InOrderAppend(p.slowStarted, p.slowPending, id);
    BelowMore(p.slowPending, id);
    BelowMore(p.slowStarted, id);
    BelowMore(p.fastStarted, id);
    BelowMore(Requests(p.wq), id);
    if RunSlowWork !in p.wq {
      RequestsConcat(p.wq, [RunSlowWork]);
      assert Requests([RunSlowWork]) == [];
      assert Requests(p.wq) + [] == Requests(p.wq);
      NoDupMore(p.wq, RunSlowWork);
      assert RunSlowWork in p.wq + [RunSlowWork];
    }
  }

  lemma SubmitFastKeepsQueues(p: Pool, l: nat, kind: Kind, wake: set<nat>)
    requires QueuesOrdered(p) && kind != SlowIo
    ensures QueuesOrdered(Submit(p, l, kind, wake))
  {
    var id := |p.reqs|;
    BelowMore(p.slowPending, id);
    BelowMore(p.slowStarted, id);
    BelowMore(p.fastStarted, id);
    BelowMore(Requests(p.wq), id);
    RequestsConcat(p.wq, [Request(id)]);
    assert Requests([Request(id)]) == [id];
    RequestsMembers(p.wq, id);
    NoDupMore(p.wq, Request(id));
    InOrderAppend(p.fastStarted, Requests(p.wq), id);
  }

  lemma SubmitKeepsQueues(p: Pool, l: nat, kind: Kind, wake: set<nat>)
    requires QueuesOrdered(p)
    ensures QueuesOrdered(Submit(p, l, kind, wake))
  {
    if kind == SlowIo { SubmitSlowKeepsQueues(p, l, wake); } else { SubmitFastKeepsQueues(p, l, kind, wake); }
  }

  lemma CancelKeepsQueues(p: Pool, id: nat)
    requires QueuesOrdered(p) && id < |p.reqs| && p.reqs[id].loop < |p.loops|
    ensures QueuesOrdered(CancelUnlink(p, id))
  {
    RequestsWithout(p.wq, id);
    InOrderWithout(p.fastStarted, Requests(p.wq), id, |p.reqs|);
    InOrderWithout(p.slowStarted, p.slowPending, id, |p.reqs|);
    WithoutMembers(p.wq, Request(id));
    WithoutMembers(p.slowPending, id);
    assert Without(p.slowPending, id) != [] ==> Without(p.slowPending, id)[0] in p.slowPending;
  }

  lemma PostExitKeepsQueues(p: Pool, wake: set<nat>)
    requires QueuesOrdered(p) && Enabled(p, PostExit(wake))
    ensures QueuesOrdered(Apply(p, PostExit(wake)))
  {
    RequestsConcat(p.wq, [ExitMessage]);
    assert Requests([ExitMessage]) == [];
  }

  /** Steps that leave the queues alone. */
  lemma SameQueues(p: Pool, q: Pool)
    requires QueuesOrdered(p) && q.wq == p.wq && q.slowPending == p.slowPending && |q.reqs| == |p.reqs|
    requires q.fastStarted == p.fastStarted && q.slowStarted == p.slowStarted
    ensures QueuesOrdered(q)
  {
  }

  lemma QueuesStep(p: Pool, s: Step)
    requires QueuesOrdered(p) && Enabled(p, s)
    ensures QueuesOrdered(Apply(p, s))
  {
    match s
    case SubmitWork(l, kind, wake) => SubmitKeepsQueues(p, l, kind, wake);
    case PostExit(wake) => PostExitKeepsQueues(p, wake);
    case WorkerTurn(w, wake) => DispatchKeepsQueues(Enter(p, w), w, wake);
    case Cancel(id) => CancelKeepsQueues(p, id);
    case _ => SameQueues(p, Apply(p, s));
  }

  // ----- Wakeups

  predicate Awake(w: Worker) {
    !w.Sleeping? && !w.Exited?
  }

  ghost predicate SomeAwake(ws: seq<Worker>) {
    exists w :: 0 <= w < |ws| && Awake(ws[w])
  }

  ghost predicate AllExited(ws: seq<Worker>) {
    forall w :: 0 <= w < |ws| ==> ws[w].Exited?
  }

  /** Whenever the mutex is free and there is something to do, some worker is awake or signalled,
      or all have exited. */
  ghost predicate NoLostWakeup(p: Pool) {
    WaitCondition(p) || SomeAwake(p.workers) || AllExited(p.workers)
  }

  lemma SignalWakes(ws: seq<Worker>, wake: set<nat>)
    requires SignalReaches(ws, wake)
    ensures SomeAwake(Signal(ws, wake)) || AllExited(Signal(ws, wake))
  {
    var r := Signal(ws, wake);
    if i :| 0 <= i < |ws| && ws[i].Sleeping? {
      var j :| j in wake && j < |ws| && ws[j].Sleeping?;
      assert Awake(r[j]);
    } else if w :| 0 <= w < |ws| && !ws[w].Exited? {
      assert Awake(r[w]);
    }
  }

  lemma EnqueueWakes(p: Pool, item: Item, wake: set<nat>)
    requires CountersTrue(p) && SignalReaches(p.workers, wake)
    ensures NoLostWakeup(Enqueue(p, item, wake))
  {
    if p.idle > 0 {
      SignalWakes(p.workers, wake);
    } else {
      assert IdleWorkers(p.workers) == {};
      forall w | 0 <= w < |p.workers| ensures !p.workers[w].Sleeping? {
        assert w !in IdleWorkers(p.workers);
      }
    }
  }

  lemma DispatchWakes(p: Pool, w: nat, wake: set<nat>)
    requires w < |p.workers| && p.workers[w] == Locking(false) && NoDup(p.wq)
    requires SignalReaches(p.workers, wake)
    ensures NoLostWakeup(Dispatch(p, w, wake))
    decreases if p.wq != [] && p.wq[0] == RunSlowWork then 1 else 0
  {
    var q := Dispatch(p, w, wake);
    if !WaitCondition(p) {
      var rest := p.wq[1..];
      match p.wq[0]
      case ExitMessage =>
        var ws := p.workers[w := Exited];
        if i :| 0 <= i < |ws| && ws[i].Sleeping? {
          assert p.workers[i].Sleeping?;
          var j :| j in wake && j < |p.workers| && p.workers[j].Sleeping?;
          assert ws[j].Sleeping?;
        }
        SignalWakes(ws, wake);
      case Request(id) => assert Awake(q.workers[w]);
      case RunSlowWork =>
        if AtThreshold(p) {
          DispatchWakes(p.(wq := rest + [RunSlowWork]), w, wake);
        } else if p.slowPending == [] {
          DispatchWakes(p.(wq := rest), w, wake);
        } else {
          assert Awake(q.workers[w]);
        }
    }
  }

  lemma EnterKeepsSleepers(p: Pool, w: nat, wake: set<nat>)
    requires w < |p.workers| && !p.workers[w].Sleeping? && SignalReaches(p.workers, wake)
    ensures SignalReaches(Enter(p, w).workers, wake)
  {
    var ws := Enter(p, w).workers;
    if i :| 0 <= i < |ws| && ws[i].Sleeping? {
      assert p.workers[i].Sleeping?;
      var j :| j in wake && j < |p.workers| && p.workers[j].Sleeping?;
      assert ws[j].Sleeping?;
    }
  }

  lemma CancelKeepsWakeup(p: Pool, id: nat)
    requires NoLostWakeup(p) && id < |p.reqs| && p.reqs[id].loop < |p.loops|
    ensures NoLostWakeup(CancelUnlink(p, id))
  {
    if WaitCondition(p) {
      assert Request(id) !in p.wq;
      WithoutMembers(p.wq, Request(id));
    }
  }

  lemma WakeupStep(p: Pool, s: Step)
    requires NoLostWakeup(p) && CountersTrue(p) && Enabled(p, s)
    ensures NoLostWakeup(Apply(p, s))
  {
    var q := Apply(p, s);
    match s
    case SubmitWork(l, kind, wake) =>
      var r := p.(reqs := p.reqs + [Req(l, kind, Function, 0, [])]);
      if kind == SlowIo {
        var r' := r.(slowPending := r.slowPending + [|p.reqs|]);
        if RunSlowWork !in r'.wq { EnqueueWakes(r', RunSlowWork, wake); }
      } else {
        EnqueueWakes(r, Request(|p.reqs|), wake);
      }
    case PostExit(wake) => EnqueueWakes(p, ExitMessage, wake);
    case WorkerTurn(w, wake) =>
      EnterKeepsSleepers(p, w, wake);
      DispatchWakes(Enter(p, w), w, wake);
    case SpuriousWakeup(w) => assert Awake(q.workers[w]);
    case RunWork(w) => assert Awake(q.workers[w]);
    case FinishWork(w) => assert Awake(q.workers[w]);
    case Cancel(id) => CancelKeepsWakeup(p, id);
    case _ =>
  }

  // ----- Every run

  ghost predicate SchedulingInv(p: Pool) {
    |p.workers| >= 1 && CountersTrue(p) && QueuesOrdered(p) && NoLostWakeup(p)
  }

  lemma InitScheduling(p: Pool)
    requires Init(p)
    ensures SchedulingInv(p)
  {
    assert SlowWorkers(p.workers) == {} && IdleWorkers(p.workers) == {};
  }

  lemma {:induction false} WorkersRemain(p: Pool, w: nat, wake: set<nat>)
    requires w < |p.workers| && NoDup(p.wq)
    ensures |Dispatch(p, w, wake).workers| == |p.workers|
    decreases if p.wq != [] && p.wq[0] == RunSlowWork then 1 else 0
  {
    if !WaitCondition(p) && p.wq[0] == RunSlowWork {
      if AtThreshold(p) {
        WorkersRemain(p.(wq := p.wq[1..] + [RunSlowWork]), w, wake);
      } else if p.slowPending == [] {
        WorkersRemain(p.(wq := p.wq[1..]), w, wake);
      }
    }
  }

  lemma SchedulingStep(p: Pool, s: Step)
    requires SchedulingInv(p) && Enabled(p, s)
    ensures SchedulingInv(Apply(p, s))
    ensures |Apply(p, s).workers| == |p.workers|
  {
    CountersStep(p, s);
    QueuesStep(p, s);
    WakeupStep(p, s);
    if s.WorkerTurn? { WorkersRemain(Enter(p, s.w), s.w, s.wake); }
  }

  lemma {:induction false} SchedulingHolds(states: seq<Pool>, steps: seq<Step>, i: nat)
    requires IsRun(states, steps) && i < |states|
    ensures SchedulingInv(states[i]) && |states[i].workers| == |states[0].workers|
  {
    if i == 0 {
      InitScheduling(states[0]);
    } else {
      SchedulingHolds(states, steps, i - 1);
      assert TakesStep(states[i - 1], steps[i - 1], states[i]);
      SchedulingStep(states[i - 1], steps[i - 1]);
    }
  }
}
