/** The pool at work: the critical sections on linked lists follow every interleaving of the state machine. */
module ThreadPoolRun {
  import opened ByteStrings
  import opened RingQueue
  import opened RingSpace
  import opened QueueLayout
  import opened ListSteps
  import opened ListRefinement
  import opened ThreadPool
  import opened ThreadPoolTheorems
  import opened ThreadPoolCode

  /** The shared variables show the state `p`, which a run can reach. */
  ghost predicate Shown(c: SharedState, p: Pool)
    reads c, c.all
  {
    c.Valid() && Shows(c.Now(), p) && PoolInv(p)
  }

  /** A thread that reports a cancellation knows the request. */
  ghost predicate InHand(p: Pool, s: Step, who: nat) {
    s.CancelReport? ==> s.loop < |p.loops| && p.loops[s.loop].cancelling == Some(who)
  }

  /** A link outside of all lists. */
  lemma NewLink(m: Lists, all: set<Link>, q: Link)
    requires Within(m, all) && q !in all
    ensures Free(m, q) && Within(m, all + {q})
  {
  }

  method Start(nthreads: nat, nloops: nat) returns (c: SharedState, ghost p: Pool)
    requires nthreads >= 1
    ensures Shown(c, p) && ThreadPool.Init(p) && |p.workers| == nthreads && |p.loops| == nloops
  {
    c := new SharedState(nthreads, nloops);
    p := Pool([], [], 0, 0, c.workers, [], seq(|c.names.loopWq|, _ => Loop([], [], None)), [], []);
    InitShows(c.Now(), p);
    InitInv(p);
  }

  lemma ReadyFor(v: Vars, p: Pool, s: Step)
    requires Shows(v, p) && PoolInv(p) && Enabled(p, s) && Apart(v.lists)
    ensures Ready(v, s, p) && HasHeads(v) && |v.n.loopWq| == |p.loops|
    ensures forall l :: 0 <= l < |p.loops| ==> LoopIn(v.n, v.lists, l)
  {
    StepReady(v, p, s);
    ShowsHeads(v, p);
  }

  /** The variables show a state from which the step can be taken. */
  ghost predicate Before(v: Vars, p: Pool, s: Step, p': Pool, all: set<Link>) {
    Shows(v, p) && PoolInv(p) && TakesStep(p, s, p') && Apart(v.lists) && Within(v.lists, all)
  }

  lemma TurnEnds(v: Vars, p: Pool, w: nat, wake: set<nat>, p': Pool, all: set<Link>, v1: Vars, v': Vars)
    requires Before(v, p, WorkerTurn(w, wake), p', all) && w < |v.workers| && v1 == Lock(v, w)
    requires CanTurn(v1, w) && v' == ListSteps.Turn(v1, w, wake)
    ensures Shows(v', p') && PoolInv(p')
  {
    StepShows(v, p, WorkerTurn(w, wake), v.n.wq, all, v');
  }

  lemma CancelBegins(v: Vars, p: Pool, id: nat, p': Pool, all: set<Link>)
    requires Before(v, p, ThreadPool.Cancel(id), p', all)
    ensures HasHeads(v) && id < |v.reqs| == |v.n.requests|
    ensures Alone(v.lists, v.n.requests[id]) || !InNone(v.lists, v.n.requests[id])
  {
    ReadyFor(v, p, ThreadPool.Cancel(id));
  }

  lemma CancelEnds(v: Vars, p: Pool, id: nat, p': Pool, all: set<Link>, v': Vars)
    requires Before(v, p, ThreadPool.Cancel(id), p', all) && HasHeads(v) && id < |v.reqs| && v' == CancelLink(v, id)
    ensures Shows(v', p') && PoolInv(p')
  {
    StepShows(v, p, ThreadPool.Cancel(id), v.n.wq, all, v');
  }

  lemma ReportBegins(v: Vars, p: Pool, l: nat, who: nat, p': Pool, all: set<Link>)
    requires Before(v, p, CancelReport(l), p', all) && InHand(p, CancelReport(l), who)
    ensures HasHeads(v) && who < |v.reqs| == |v.n.requests| && l < |v.n.loopWq| && LoopIn(v.n, v.lists, l)
    ensures Free(v.lists, v.n.requests[who])
  {
    ReadyFor(v, p, CancelReport(l));
  }

  lemma ReportEnds(v: Vars, p: Pool, l: nat, who: nat, p': Pool, all: set<Link>, v': Vars)
    requires Before(v, p, CancelReport(l), p', all) && InHand(p, CancelReport(l), who)
    requires HasHeads(v) && who < |v.reqs| && l < |v.n.loopWq| && LoopIn(v.n, v.lists, l)
    requires v' == ListSteps.Report(v, l, who)
    ensures Shows(v', p') && PoolInv(p')
  {
    StepShows(v, p, CancelReport(l), v.n.wq, all, v');
  }

  lemma CallBegins(v: Vars, p: Pool, l: nat, p': Pool, all: set<Link>)
    requires Before(v, p, CallDone(l), p', all)
    ensures HasHeads(v) && l < |v.n.loopWq| && LoopIn(v.n, v.lists, l) && v.lists[v.n.localWq[l]] != []
    ensures IdOf(v.lists[v.n.localWq[l]][0]) < |v.reqs|
  {
    ReadyFor(v, p, CallDone(l));
  }

  lemma CallEnds(v: Vars, p: Pool, l: nat, p': Pool, all: set<Link>, v': Vars)
    requires Before(v, p, CallDone(l), p', all)
    requires HasHeads(v) && l < |v.n.loopWq| && LoopIn(v.n, v.lists, l) && v.lists[v.n.localWq[l]] != []
    requires IdOf(v.lists[v.n.localWq[l]][0]) < |v.reqs|
    requires v' == CallNext(v, l, IdOf(v.lists[v.n.localWq[l]][0]))
    ensures Shows(v', p') && PoolInv(p')
  {
    StepShows(v, p, CallDone(l), v.n.wq, all, v');
  }

  /** A submission. */
  method Submit(c: SharedState, l: nat, kind: Kind, wake: set<nat>, ghost p: Pool, ghost p': Pool)
    requires Shown(c, p) && TakesStep(p, SubmitWork(l, kind, wake), p')
    modifies c, c.all
    ensures Shown(c, p') && exists q :: fresh(q) && c.all == old(c.all) + {q}
  {
    ghost var s, v, all := SubmitWork(l, kind, wake), c.Now(), c.all;
    StepReady(v, p, s);
    c.WorkSubmit(l, kind, wake);
    ghost var q := c.names.requests[|v.n.requests|];
    NewLink(v.lists, all, q);
    StepShows(v, p, s, q, c.all, c.Now());
  }

  /** The exit message. */
  method Exit(c: SharedState, wake: set<nat>, ghost p: Pool, ghost p': Pool)
    requires Shown(c, p) && TakesStep(p, PostExit(wake), p')
    modifies c, c.all
    ensures c.all == old(c.all) && Shown(c, p')
  {
    ghost var v := c.Now();
    ReadyFor(v, p, PostExit(wake));
    c.PostExit(wake);
    StepShows(v, p, PostExit(wake), v.n.wq, c.all, c.Now());
  }

  /** A turn of a worker. */
  method Turn(c: SharedState, w: nat, wake: set<nat>, ghost p: Pool, ghost p': Pool)
    requires Shown(c, p) && TakesStep(p, WorkerTurn(w, wake), p')
    modifies c, c.all
    ensures c.all == old(c.all) && Shown(c, p')
  {
    ghost var v := c.Now();
    assert w < |v.workers|;
    c.WorkerTurn(w, wake);
    TurnEnds(v, p, w, wake, p', c.all, Lock(v, w), c.Now());
  }

  /** A worker wakes up for no reason. */
  method Wake(c: SharedState, w: nat, ghost p: Pool, ghost p': Pool)
    requires Shown(c, p) && TakesStep(p, SpuriousWakeup(w), p')
    modifies c, c.all
    ensures c.all == old(c.all) && Shown(c, p')
  {
    ghost var v := c.Now();
    ReadyFor(v, p, SpuriousWakeup(w));
    c.SetWorker(w, Woken);
    StepShows(v, p, SpuriousWakeup(w), v.n.wq, c.all, c.Now());
  }

  /** A worker runs the work function. */
  method Perform(c: SharedState, w: nat, ghost p: Pool, ghost p': Pool)
    requires Shown(c, p) && TakesStep(p, RunWork(w), p')
    modifies c, c.all
    ensures c.all == old(c.all) && Shown(c, p')
  {
    ghost var v := c.Now();
    ReadyFor(v, p, RunWork(w));
    c.RunItem(w);
    StepShows(v, p, RunWork(w), v.n.wq, c.all, c.Now());
  }

  /** A worker hands over what it has done. */
  method HandOver(c: SharedState, w: nat, ghost p: Pool, ghost p': Pool)
    requires Shown(c, p) && TakesStep(p, FinishWork(w), p')
    modifies c, c.all
    ensures c.all == old(c.all) && Shown(c, p')
  {
    ghost var v := c.Now();
    ReadyFor(v, p, FinishWork(w));
    c.FinishItem(w);
    StepShows(v, p, FinishWork(w), v.n.wq, c.all, c.Now());
  }

  /** The first part of a cancellation. */
  method Cancel(c: SharedState, id: nat, ghost p: Pool, ghost p': Pool)
    requires Shown(c, p) && TakesStep(p, ThreadPool.Cancel(id), p')
    modifies c, c.all
    ensures c.all == old(c.all) && Shown(c, p')
  {
    ghost var v := c.Now();
    CancelBegins(v, p, id, p', c.all);
    var cancelled := c.WorkCancel(id);
    CancelEnds(v, p, id, p', c.all, c.Now());
  }

  /** The second part. */
  method Report(c: SharedState, l: nat, who: nat, ghost p: Pool, ghost p': Pool)
    requires Shown(c, p) && TakesStep(p, CancelReport(l), p') && InHand(p, CancelReport(l), who)
    modifies c, c.all
    ensures c.all == old(c.all) && Shown(c, p')
  {
    ghost var v := c.Now();
    ReportBegins(v, p, l, who, p', c.all);
    c.CancelledWork(l, who);
    ReportEnds(v, p, l, who, p', c.all, c.Now());
  }

  /** A loop takes over its queue. */
  method TakeOver(c: SharedState, l: nat, ghost p: Pool, ghost p': Pool)
    requires Shown(c, p) && TakesStep(p, DrainBegin(l), p')
    modifies c, c.all
    ensures c.all == old(c.all) && Shown(c, p')
  {
    ghost var v := c.Now();
    ReadyFor(v, p, DrainBegin(l));
    c.WorkDone(l);
    StepShows(v, p, DrainBegin(l), v.n.wq, c.all, c.Now());
  }

  /** A loop calls back. */
  method Call(c: SharedState, l: nat, ghost p: Pool, ghost p': Pool)
    requires Shown(c, p) && TakesStep(p, CallDone(l), p')
    modifies c, c.all
    ensures c.all == old(c.all) && Shown(c, p')
  {
    ghost var v := c.Now();
    CallBegins(v, p, l, p', c.all);
    var id, canceled := c.NextDone(l);
    CallEnds(v, p, l, p', c.all, c.Now());
  }

  /** Whatever step the state machine can take, the code takes it, and its lists show the new state. */
  method TakeStep(c: SharedState, s: Step, who: nat, ghost p: Pool, ghost p': Pool)
    requires Shown(c, p) && TakesStep(p, s, p') && InHand(p, s, who)
    modifies c, c.all
    ensures Shown(c, p') && (c.all == old(c.all) || exists q :: fresh(q) && c.all == old(c.all) + {q})
  {
    match s {
      case SubmitWork(l, kind, wake) => Submit(c, l, kind, wake, p, p');
      case PostExit(wake) => Exit(c, wake, p, p');
      case WorkerTurn(w, wake) => Turn(c, w, wake, p, p');
      case SpuriousWakeup(w) => Wake(c, w, p, p');
      case RunWork(w) => Perform(c, w, p, p');
      case FinishWork(w) => HandOver(c, w, p, p');
      case Cancel(id) => Cancel(c, id, p, p');
      case CancelReport(l) => Report(c, l, who, p, p');
      case DrainBegin(l) => TakeOver(c, l, p, p');
      case CallDone(l) => Call(c, l, p, p');
    }
  }

  /** The code follows every run of the state machine, with any number of threads and loops. */
  method Follow(c: SharedState, steps: seq<Step>, who: seq<nat>, i: nat, ghost states: seq<Pool>)
    requires IsRun(states, steps) && i <= |steps| == |who| && Shown(c, states[i])
    requires forall k :: 0 <= k < |steps| ==> InHand(states[k], steps[k], who[k])
    modifies c, c.all
    ensures Shown(c, states[|steps|])
    decreases |steps| - i
  {
    if i < |steps| {
      TakeStep(c, steps[i], who[i], states[i], states[i + 1]);
      Follow(c, steps, who, i + 1, states);
    }
  }
}
