/** What the pool does for its callers: which item a worker takes, what a cancellation achieves, and that
    no request is ever stuck. */
module ThreadPoolService {
  import opened ByteStrings
  import opened ThreadPool
  import opened ThreadPoolScheduling
  import opened ThreadPoolPlaces
  import opened ThreadPoolTheorems

  // ----- Which item a worker takes

  /** Slow work waits, and of the other workers fewer than half of all, rounded up, are at slow work. */
  predicate RoomForSlow(p: Pool, w: nat) {
    p.slowPending != [] && |SlowWorkers(p.workers) - {w}| < (|p.workers| + 1) / 2
  }

  /** The first of the items that are requests or the exit message. */
  function Taken(items: seq<Item>): Worker {
    if items == [] then Sleeping
    else if items[0].Request? then Fetched(items[0].id, false)
    else Exited
  }

  lemma EnterCounts(p: Pool, w: nat)
    requires CountersTrue(p) && w < |p.workers| && (p.workers[w].Locking? || p.workers[w].Woken?)
    ensures Enter(p, w).slowRunning == |SlowWorkers(p.workers) - {w}|
  {
    EnterKeepsCounters(p, w);
    assert SlowWorkers(p.workers[w := Locking(false)]) == SlowWorkers(p.workers) - {w};
  }

  lemma {:induction false} DispatchTakes(p: Pool, w: nat, wake: set<nat>)
    requires w < |p.workers| && p.workers[w] == Locking(false) && NoDup(p.wq)
    ensures var ws := Dispatch(p, w, wake).workers;
            && w < |ws|
            && ws[w] == if && p.wq != [] && p.wq[0] == RunSlowWork && p.slowPending != []
                           && p.slowRunning < (|p.workers| + 1) / 2
                        then Fetched(p.slowPending[0], true)
                        else Taken(Without(p.wq, RunSlowWork))
    decreases if p.wq != [] && p.wq[0] == RunSlowWork then 1 else 0
  {
    if !WaitCondition(p) && p.wq[0] == RunSlowWork {
      var rest := p.wq[1..];
      MarkerAway(p.wq);
      if AtThreshold(p) {
        DispatchTakes(p.(wq := rest + [RunSlowWork]), w, wake);
      } else if p.slowPending == [] {
        DispatchTakes(p.(wq := rest), w, wake);
      }
    } else if p.wq != [] {
      FirstStays(p.wq);
    }
  }

  lemma FirstStays(wq: seq<Item>)
    requires NoDup(wq) && wq != []
    ensures wq[0] != RunSlowWork ==> Without(wq, RunSlowWork) != [] && Without(wq, RunSlowWork)[0] == wq[0]
    ensures wq == [RunSlowWork] ==> Without(wq, RunSlowWork) == []
  {
  }

  lemma MarkerAway(wq: seq<Item>)
    requires NoDup(wq) && wq != [] && wq[0] == RunSlowWork
    ensures Without(wq, RunSlowWork) == wq[1..] && Without(wq[1..], RunSlowWork) == wq[1..]
    ensures NoDup(wq[1..] + [RunSlowWork]) && Without(wq[1..] + [RunSlowWork], RunSlowWork) == wq[1..]
  {
    var rest := wq[1..];
    MarkerMoves(wq);
    WithoutMembers(rest, RunSlowWork);
    var k := WithoutDropsOne(rest + [RunSlowWork], RunSlowWork);
    assert k == |rest|;
    assert (rest + [RunSlowWork])[..k] + (rest + [RunSlowWork])[k + 1..] == rest;
  }

  /** What a worker has after its turn: the first pending slow item, if the marker comes first and there
      is room; otherwise the first item that is not the marker; and it sleeps if there is neither. */
  lemma TurnTakes(p: Pool, w: nat, wake: set<nat>)
    requires PoolInv(p) && Enabled(p, WorkerTurn(w, wake))
    ensures var ws := Apply(p, WorkerTurn(w, wake)).workers;
            && w < |ws|
            && ws[w] == if p.wq != [] && p.wq[0] == RunSlowWork && RoomForSlow(p, w)
                        then Fetched(p.slowPending[0], true)
                        else Taken(Without(p.wq, RunSlowWork))
  {
    EnterCounts(p, w);
    DispatchTakes(Enter(p, w), w, wake);
  }

  /** Slow work starts as long as there is room for it. */
  lemma SlowWorkStarts(p: Pool, w: nat, wake: set<nat>)
    requires PoolInv(p) && Enabled(p, WorkerTurn(w, wake)) && p.wq != [] && p.wq[0] == RunSlowWork
    requires p.slowPending != [] && |SlowWorkers(p.workers) - {w}| < (|p.workers| + 1) / 2
    ensures var ws := Apply(p, WorkerTurn(w, wake)).workers; w < |ws| && ws[w] == Fetched(p.slowPending[0], true)
  {
    TurnTakes(p, w, wake);
  }

  /** A worker goes to sleep if and only if there is nothing that it may do. */
  lemma SleepsIffIdle(p: Pool, w: nat, wake: set<nat>)
    requires PoolInv(p) && Enabled(p, WorkerTurn(w, wake))
    ensures var ws := Apply(p, WorkerTurn(w, wake)).workers; w < |ws|
    ensures Apply(p, WorkerTurn(w, wake)).workers[w].Sleeping?
            <==> (forall i :: 0 <= i < |p.wq| ==> p.wq[i] == RunSlowWork)
                 && (p.slowPending == [] || |SlowWorkers(p.workers) - {w}| >= (|p.workers| + 1) / 2)
  {
    TurnTakes(p, w, wake);
    WithoutMembers(p.wq, RunSlowWork);
    var items := Without(p.wq, RunSlowWork);
    if items == [] {
      forall i | 0 <= i < |p.wq| ensures p.wq[i] == RunSlowWork {
        assert p.wq[i] in p.wq;
      }
      if p.slowPending != [] { assert p.wq[0] == RunSlowWork; }
    } else {
      assert items[0] in items && items[0] in p.wq;
      var i :| 0 <= i < |p.wq| && p.wq[i] == items[0];
      assert p.wq[i] != RunSlowWork;
    }
  }

  // ----- What a cancellation achieves

  /** A cancellation takes hold of a request exactly if that waits for a worker, or has been cancelled
      before; a request that runs or has run is left as it is. */
  lemma CancelSucceeds(p: Pool, at: seq<Place>, id: nat)
    requires Placed(p, at) && Enabled(p, Cancel(id))
    ensures var q, l := Apply(p, Cancel(id)), p.reqs[id].loop;
            var succeeds := at[id].InWorkQueue? || at[id].InSlowQueue?
                            || ((at[id].InLoopQueue? || at[id].InDraining?) && p.reqs[id].runs == 0);
            && (succeeds <==> IsAt(q, id, InCancellation(l)))
            && (!succeeds ==> q == p)
  {
    var l := p.reqs[id].loop;
    assert IsAt(p, id, at[id]) && FitsPlace(p.reqs[id], at[id], WorkerAt(p, at[id]));
    assert !IsAt(p, id, InCancellation(l));
    assert Linked(p, id) <==> (IsAt(p, id, InWorkQueue) || IsAt(p, id, InSlowQueue)
                               || IsAt(p, id, InLoopQueue(l)) || IsAt(p, id, InDraining(l)));
  }

  // ----- No request is stuck

  function Total<T>(s: seq<T>, f: T -> nat): nat {
    if s == [] then 0 else f(s[0]) + Total(s[1..], f)
  }

  lemma {:induction false} TotalChanges<T>(s: seq<T>, i: nat, x: T, f: T -> nat)
    requires i < |s|
    ensures Total(s[i := x], f) == Total(s, f) - f(s[i]) + f(x)
  {
    if i == 0 {
      assert s[i := x][1..] == s[1..];
    } else {
      assert s[i := x][1..] == s[1..][i - 1 := x];
      TotalChanges(s[1..], i - 1, x, f);
    }
  }

  const BUSY: Worker -> nat := (w: Worker) => if w.Fetched? then 2 else if w.Ran? then 1 else 0
  const ABOUT: Worker -> nat := (w: Worker) => if w.Locking? || w.Woken? then 1 else 0
  const HELD: Loop -> nat := (l: Loop) => if l.cancelling.Some? then 1 else 0
  const FINISHED: Loop -> nat := (l: Loop) => |l.wq|
  const MOVED: Loop -> nat := (l: Loop) => |l.draining|

  /** What is left to do, by kind: each step of a worker or a loop lowers one and none before it. */
  datatype Load = Load(waiting: nat, busy: nat, held: nat, finished: nat, moved: nat, about: nat)

  function LoadOf(p: Pool): Load {
    Load(|Requests(p.wq)| + |p.slowPending|, Total(p.workers, BUSY), Total(p.loops, HELD), Total(p.loops, FINISHED),
         Total(p.loops, MOVED), Total(p.workers, ABOUT))
  }

  predicate Lighter(a: Load, b: Load) {
    || a.waiting < b.waiting
    || (a.waiting == b.waiting
        && (|| a.busy < b.busy
            || (a.busy == b.busy
                && (|| a.held < b.held
                    || (a.held == b.held
                        && (|| a.finished < b.finished
                            || (a.finished == b.finished
                                && (a.moved < b.moved || (a.moved == b.moved && a.about < b.about)))))))))
  }

  /** Steps that workers and loops take by themselves. */
  predicate IsService(s: Step) {
    s.WorkerTurn? || s.RunWork? || s.FinishWork? || s.CancelReport? || s.DrainBegin? || s.CallDone?
  }

  /** Before the exit message is posted. */
  ghost predicate Open(p: Pool) {
    ExitMessage !in p.wq && forall w :: 0 <= w < |p.workers| ==> !p.workers[w].Exited?
  }

  ghost predicate AllCalled(p: Pool) {
    forall id :: 0 <= id < |p.reqs| ==> |p.reqs[id].calls| == 1
  }

  lemma {:induction false} DispatchServes(p: Pool, w: nat, wake: set<nat>)
    requires w < |p.workers| && p.workers[w] == Locking(false) && NoDup(p.wq) && Open(p)
    ensures var q := Dispatch(p, w, wake);
            && Open(q) && q.loops == p.loops && q.reqs == p.reqs
            && (|Requests(q.wq)| + |q.slowPending| < |Requests(p.wq)| + |p.slowPending|
                || (|Requests(q.wq)| + |q.slowPending| == |Requests(p.wq)| + |p.slowPending|
                    && q.workers == p.workers[w := Sleeping]))
    decreases if p.wq != [] && p.wq[0] == RunSlowWork then 1 else 0
  {
    if !WaitCondition(p) {
      var rest := p.wq[1..];
      assert p.wq[0] in p.wq;
      if p.wq[0] == RunSlowWork {
        MarkerMoves(p.wq);
        if AtThreshold(p) {
          DispatchServes(p.(wq := rest + [RunSlowWork]), w, wake);
        } else if p.slowPending == [] {
          DispatchServes(p.(wq := rest), w, wake);
        }
      } else {
        assert Requests(p.wq) == [p.wq[0].id] + Requests(rest);
      }
    }
  }

  /** A step of this kind that is possible lightens the load. */
  ghost predicate Lightens(p: Pool, s: Step) {
    IsService(s) && Enabled(p, s) && Open(Apply(p, s)) && |Apply(p, s).reqs| == |p.reqs|
    && Lighter(LoadOf(Apply(p, s)), LoadOf(p))
  }

  lemma TurnLightens(p: Pool, w: nat, wake: set<nat>)
    requires Open(p) && Enabled(p, WorkerTurn(w, wake))
    ensures Lightens(p, WorkerTurn(w, wake))
  {
    var p1 := Enter(p, w);
    DispatchServes(p1, w, wake);
    assert p1.workers[w := Sleeping] == p.workers[w := Sleeping];
    TotalChanges(p.workers, w, Sleeping, BUSY);
    TotalChanges(p.workers, w, Sleeping, ABOUT);
  }

  lemma RunLightens(p: Pool, w: nat)
    requires Open(p) && Enabled(p, RunWork(w))
    ensures Lightens(p, RunWork(w))
  {
    TotalChanges(p.workers, w, Ran(p.workers[w].id, p.workers[w].slow), BUSY);
  }

  lemma FinishLightens(p: Pool, w: nat)
    requires Open(p) && Enabled(p, FinishWork(w))
    ensures Lightens(p, FinishWork(w))
  {
    TotalChanges(p.workers, w, Locking(p.workers[w].slow), BUSY);
  }

  lemma ReportLightens(p: Pool, l: nat)
    requires Open(p) && Enabled(p, CancelReport(l))
    ensures Lightens(p, CancelReport(l))
  {
    var x := Apply(p, CancelReport(l)).loops[l];
    TotalChanges(p.loops, l, x, HELD);
  }

  lemma DrainLightens(p: Pool, l: nat)
    requires Open(p) && Enabled(p, DrainBegin(l)) && p.loops[l].wq != []
    ensures Lightens(p, DrainBegin(l))
  {
    var x := Apply(p, DrainBegin(l)).loops[l];
    TotalChanges(p.loops, l, x, HELD);
    TotalChanges(p.loops, l, x, FINISHED);
  }

  lemma CallLightens(p: Pool, l: nat)
    requires Open(p) && Enabled(p, CallDone(l))
    ensures Lightens(p, CallDone(l))
  {
    var x := Apply(p, CallDone(l)).loops[l];
    TotalChanges(p.loops, l, x, HELD);
    TotalChanges(p.loops, l, x, FINISHED);
    TotalChanges(p.loops, l, x, MOVED);
  }

  /** A worker that can go on lightens the load. */
  lemma WorkerLightens(p: Pool, w: nat) returns (s: Step)
    requires PoolInv(p) && Open(p) && w < |p.workers| && Awake(p.workers[w])
    ensures Lightens(p, s)
  {
    s := AwakeCanStep(p, w);
    match s
    case WorkerTurn(x, wake) => TurnLightens(p, x, wake);
    case RunWork(x) => RunLightens(p, x);
    case FinishWork(x) => FinishLightens(p, x);
  }

  /** So does a loop that has something to do. */
  lemma LoopLightens(p: Pool, l: nat) returns (s: Step)
    requires PoolInv(p) && Open(p) && l < |p.loops|
    requires p.loops[l].cancelling.Some? || p.loops[l].wq != [] || p.loops[l].draining != []
    ensures Lightens(p, s)
  {
    var at: seq<Place> :| Placed(p, at);
    if p.loops[l].cancelling.Some? {
      assert IsAt(p, p.loops[l].cancelling.value, InCancellation(l));
      s := CancelReport(l);
      ReportLightens(p, l);
    } else if p.loops[l].draining != [] {
      assert IsAt(p, p.loops[l].draining[0], InDraining(l));
      s := CallDone(l);
      CallLightens(p, l);
    } else {
      s := DrainBegin(l);
      DrainLightens(p, l);
    }
  }

  /** When all sleep and no loop has anything to do, every callback has been called. */
  lemma NothingLeft(p: Pool)
    requires PoolInv(p) && forall w :: 0 <= w < |p.workers| ==> p.workers[w].Sleeping?
    requires forall l :: 0 <= l < |p.loops| ==> p.loops[l] == Loop([], [], None)
    ensures AllCalled(p)
  {
    assert SlowWorkers(p.workers) == {} && p.workers[0].Sleeping? && WaitCondition(p);
    var at: seq<Place> :| Placed(p, at);
    forall id | 0 <= id < |p.reqs| ensures |p.reqs[id].calls| == 1 {
      assert IsAt(p, id, at[id]) && FitsPlace(p.reqs[id], at[id], WorkerAt(p, at[id]));
      assert at[id].Done?;
    }
  }

  lemma SomethingLeft(p: Pool) returns (s: Step)
    requires PoolInv(p) && Open(p) && !AllCalled(p)
    ensures Lightens(p, s)
  {
    if w :| 0 <= w < |p.workers| && Awake(p.workers[w]) {
      s := WorkerLightens(p, w);
    } else if l :| 0 <= l < |p.loops| && p.loops[l] != Loop([], [], None) {
      s := LoopLightens(p, l);
    } else {
      NothingLeft(p);
      assert false;
    }
  }

  /** `path` leads from one state to another by steps that workers and loops take by themselves. */
  ghost predicate Serves(p: Pool, path: seq<Step>, q: Pool)
    decreases |path|
  {
    if path == [] then p == q
    else IsService(path[0]) && Enabled(p, path[0]) && Serves(Apply(p, path[0]), path[1..], q)
  }

  /** No request is ever stuck: from every state that a run can reach before the exit message is posted,
      workers and loops alone get to call every callback, each once. */
  lemma {:induction false} EveryRequestCompletes(p: Pool) returns (path: seq<Step>, q: Pool)
    requires PoolInv(p) && Open(p)
    ensures Serves(p, path, q) && PoolInv(q) && |q.reqs| == |p.reqs| && AllCalled(q)
    decreases LoadOf(p).waiting, LoadOf(p).busy, LoadOf(p).held, LoadOf(p).finished, LoadOf(p).moved, LoadOf(p).about
  {
    if AllCalled(p) {
      path, q := [], p;
    } else {
      var s := SomethingLeft(p);
      InvStep(p, s, Apply(p, s));
      var later;
      later, q := EveryRequestCompletes(Apply(p, s));
      path := [s] + later;
      assert path[1..] == later;
    }
  }
}
