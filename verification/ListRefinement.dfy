/** The critical sections in terms of lists are the steps of the state machine. */
module ListRefinement {
  import opened ByteStrings
  import opened RingQueue
  import opened RingSpace
  import opened QueueLayout
  import opened ListSteps
  import opened ThreadPool
  import opened ThreadPoolScheduling
  import opened ThreadPoolPlaces
  import opened ThreadPoolTheorems

  /** The shared variables are those of the state `p`. */
  ghost predicate Shows(v: Vars, p: Pool) {
    && LaidOut(v.n, v.lists, p) && |v.n.requests| == |v.reqs|
    && v.idle == p.idle && v.slowRunning == p.slowRunning && v.workers == p.workers && v.reqs == p.reqs
  }

  /** No worker holds the item. */
  ghost predicate NobodyHolds(ws: seq<Worker>, item: Item) {
    forall w :: 0 <= w < |ws| && (ws[w].Fetched? || ws[w].Ran?) ==> item != Request(ws[w].id)
  }

  /** What appending to a list changes about links that are alone. */
  lemma TailSelfLinked(n: Names, m: Lists, p: Pool, p': Pool, h: Link, item: Item)
    requires Named(n) && SelfLinked(n, m, p) && h in m && NobodyHolds(p'.workers, item)
    requires item.Request? ==> item.id < |n.requests|
    requires RunSlowWork in p.wq ==> RunSlowWork in p'.wq
    requires item == RunSlowWork ==> RunSlowWork in p'.wq
    requires forall w :: 0 <= w < |p'.workers| && (p'.workers[w].Fetched? || p'.workers[w].Ran?) ==>
               exists x :: && 0 <= x < |p.workers| && (p.workers[x].Fetched? || p.workers[x].Ran?)
                           && p.workers[x].id == p'.workers[w].id
    ensures SelfLinked(n, WithTail(m, h, LinkOf(n, item)), p')
  {
  }

  lemma PostTailShows(v: Vars, p: Pool, item: Item, wake: set<nat>)
    requires Shows(v, p) && NobodyHolds(p.workers, item) && (item.Request? ==> item.id < |v.n.requests|)
    ensures v.n.wq in v.lists && Shows(PostTail(v, LinkOf(v.n, item), wake), Enqueue(p, item, wake))
  {
    var p' := Enqueue(p, item, wake);
    Appended(v.n, v.lists, Queues(p), Queues(p'), v.n.wq, item);
    assert item in p'.wq && forall x :: x in p.wq ==> x in p'.wq;
    TailSelfLinked(v.n, v.lists, p, p', v.n.wq, item);
  }

  // ----- Submitting

  lemma EnlargedShows(v: Vars, p: Pool, q: Link, r: Req)
    requires Shows(v, p) && q.owner == WorkRequest(|v.reqs|)
    ensures Shows(v.(n := v.n.(requests := v.n.requests + [q]), reqs := v.reqs + [r]), p.(reqs := p.reqs + [r]))
  {
    Enlarged(v.n, v.lists, Queues(p), q);
    SameContents(v.n.(requests := v.n.requests + [q]), v.lists, Queues(p), Queues(p.(reqs := p.reqs + [r])));
  }

  /** The marker is alone exactly when it is not in the work queue. */
  lemma MarkerAlone(v: Vars, p: Pool)
    requires Shows(v, p) && Apart(v.lists)
    ensures v.n.marker in v.lists || !InNone(v.lists, v.n.marker)
    ensures Alone(v.lists, v.n.marker) <==> RunSlowWork !in p.wq
  {
    assert KeyOk(v.n, v.lists, Queues(p), v.n.wq);
    if RunSlowWork in p.wq {
      var i :| 0 <= i < |p.wq| && p.wq[i] == RunSlowWork;
      assert v.lists[v.n.wq][i] == v.n.marker;
    } else {
      assert KeyOk(v.n, v.lists, Queues(p), v.n.marker);
    }
  }

  lemma SlowTailShows(v: Vars, p: Pool, id: nat)
    requires Shows(v, p) && id < |v.reqs| && NobodyHolds(p.workers, Request(id))
    ensures Shows(v.(lists := WithTail(v.lists, v.n.slowWq, v.n.requests[id])), p.(slowPending := p.slowPending + [id]))
  {
    var p' := p.(slowPending := p.slowPending + [id]);
    assert Asked(p.slowPending + [id]) == Asked(p.slowPending) + [Request(id)];
    Appended(v.n, v.lists, Queues(p), Queues(p'), v.n.slowWq, Request(id));
    TailSelfLinked(v.n, v.lists, p, p', v.n.slowWq, Request(id));
  }

  lemma PostShows(v: Vars, p: Pool, q: Link, loop: nat, kind: Kind, wake: set<nat>, all: set<Link>)
    requires Shows(v, p) && Apart(v.lists) && Within(v.lists, all)
    requires q.owner == WorkRequest(|v.reqs|) && Free(v.lists, q) && q in all
    ensures HasQueues(v) && q != v.n.wq
    ensures Shows(Post(v, q, loop, kind, wake), Submit(p, loop, kind, wake))
  {
    var id, r := |v.reqs|, Req(loop, kind, Function, 0, []);
    var v1, p1 := v.(n := v.n.(requests := v.n.requests + [q]), reqs := v.reqs + [r]), p.(reqs := p.reqs + [r]);
    EnlargedShows(v, p, q, r);
    assert LinkOf(v1.n, Request(id)) == q;
    if kind == SlowIo {
      var v2, p2 := v1.(lists := WithTail(v1.lists, v1.n.slowWq, q)), p1.(slowPending := p1.slowPending + [id]);
      SlowTailShows(v1, p1, id);
      ApartWithTail(v.lists, v.n.slowWq, q, all);
      MarkerAlone(v2, p2);
      if RunSlowWork !in p2.wq { PostTailShows(v2, p2, RunSlowWork, wake); }
    } else {
      PostTailShows(v1, p1, Request(id), wake);
    }
  }

  // ----- The worker

  lemma LockShows(v: Vars, p: Pool, w: nat)
    requires Shows(v, p) && w < |v.workers| && (v.workers[w].Locking? || v.workers[w].Woken?)
    ensures Shows(Lock(v, w), Enter(p, w))
  {
    IdleShows(v, p, Lock(v, w), Enter(p, w), w, Locking(false));
  }

  ghost predicate SameQueues(p: Pool, p': Pool) {
    p'.wq == p.wq && p'.slowPending == p.slowPending && p'.loops == p.loops
  }

  lemma SameQueued(n: Names, m: Lists, p: Pool, p': Pool)
    requires Queued(n, m, Queues(p)) && SameQueues(p, p')
    ensures Queued(n, m, Queues(p'))
  {
    SameContents(n, m, Queues(p), Queues(p'));
  }

  lemma IdleSelfLinked(n: Names, m: Lists, p: Pool, p': Pool, w: nat, x: Worker)
    requires SelfLinked(n, m, p) && w < |p.workers| && p'.wq == p.wq && p'.workers == p.workers[w := x]
    requires !x.Fetched? && !x.Ran?
    ensures SelfLinked(n, m, p')
  {
  }

  /** A worker turns to something that has no request. */
  lemma IdleShows(v: Vars, p: Pool, v': Vars, p': Pool, w: nat, x: Worker)
    requires Shows(v, p) && SameQueues(p, p')
    requires v' == v.(idle := v'.idle, slowRunning := v'.slowRunning, workers := v'.workers)
    requires w < |p.workers| && p'.workers == p.workers[w := x] && !x.Fetched? && !x.Ran?
    requires v'.workers == p'.workers && v'.idle == p'.idle && v'.slowRunning == p'.slowRunning && p'.reqs == p.reqs
    ensures Shows(v', p')
  {
    SameQueued(v.n, v.lists, p, p');
    IdleSelfLinked(v.n, v.lists, p, p', w, x);
  }

  ghost predicate HeadShows(n: Names, q: Link, item: Item) {
    && (q == n.marker <==> item == RunSlowWork) && (q == n.exit <==> item == ExitMessage)
    && (item.Request? ==> q.owner == WorkRequest(item.id) && item.id < |n.requests|)
  }

  /** The work queue as a list of links tells what the worker asks about the items. */
  lemma WorkQueueLinks(v: Vars, p: Pool)
    requires Shows(v, p) && NoDup(p.wq)
    ensures HasQueues(v)
    ensures var s := v.lists[v.n.wq];
            && |s| == |p.wq| && NoDup(s) && v.n.wq !in s && v.n.slowWq !in s
            && (s != [] ==> HeadShows(v.n, s[0], p.wq[0]))
  {
    var n, s := v.n, v.lists[v.n.wq];
    assert KeyOk(n, v.lists, Queues(p), n.wq) && AllKnown(n, Queues(p)(WQ));
    forall i, j | 0 <= i < j < |s| ensures s[i] != s[j] {
      NamesDiffer(n, p.wq[i], p.wq[j]);
    }
  }

  lemma ShiftQueued(n: Names, m: Lists, c: Contents, c': Contents, h: Link, head: Item)
    requires Queued(n, m, c) && h in m && c(h.owner) != [] && c(h.owner)[0] == head && c'(h.owner) == c(h.owner)[1..]
    requires SameElsewhere(c, c', h.owner) && (h.owner == WQ || h.owner == SLOW_WQ)
    requires c(MARKER) == [] && c(EXIT) == [] && forall id :: c(WorkRequest(id)) == []
    ensures m[h] != [] && m[h][0] == LinkOf(n, head) && Queued(n, Shift(m, h), c')
    ensures head.Request? ==> head.id < |n.requests|
  {
    assert KeyOk(n, m, c, h) && AllKnown(n, c(h.owner));
    var items := c(h.owner);
    assert items[..0] + items[1..] == items[1..];
    Dropped(n, m, c, c', h, 0);
    NamesDiffer(n, head, head);
    Loosened(n, WithoutAt(m, h, 0), c', LinkOf(n, head));
  }

  lemma ShiftSelfLinked(n: Names, m: Lists, p: Pool, p': Pool, h: Link, head: Item)
    requires SelfLinked(n, m, p) && h in m && m[h] != [] && m[h][0] == LinkOf(n, head) && p'.workers == p.workers
    requires RunSlowWork in p.wq && head != RunSlowWork ==> RunSlowWork in p'.wq
    ensures SelfLinked(n, Shift(m, h), p')
  {
  }

  lemma ShiftShows(v: Vars, p: Pool, p': Pool, h: Link, head: Item)
    requires Shows(v, p) && h in v.lists && (h.owner == WQ || h.owner == SLOW_WQ)
    requires Queues(p)(h.owner) != [] && Queues(p)(h.owner)[0] == head && Queues(p')(h.owner) == Queues(p)(h.owner)[1..]
    requires SameElsewhere(Queues(p), Queues(p'), h.owner) && |p'.loops| == |p.loops|
    requires p'.workers == p.workers && p'.reqs == p.reqs && p'.idle == p.idle && p'.slowRunning == p.slowRunning
    requires RunSlowWork in p.wq && head != RunSlowWork ==> RunSlowWork in p'.wq
    ensures v.lists[h] != [] && v.lists[h][0] == LinkOf(v.n, head)
    ensures Shows(v.(lists := Shift(v.lists, h)), p')
    ensures head.Request? ==> head.id < |v.n.requests|
  {
    ShiftQueued(v.n, v.lists, Queues(p), Queues(p'), h, head);
    ShiftSelfLinked(v.n, v.lists, p, p', h, head);
  }

  lemma FetchedShows(v: Vars, p: Pool, w: nat, id: nat, slow: bool, slowRunning: int)
    requires Shows(v, p) && w < |v.workers| && id < |v.n.requests| && v.n.requests[id] in v.lists
    ensures Shows(v.(workers := v.workers[w := Fetched(id, slow)], slowRunning := slowRunning),
                  p.(workers := p.workers[w := Fetched(id, slow)], slowRunning := slowRunning))
  {
    SameContents(v.n, v.lists, Queues(p),
                 Queues(p.(workers := p.workers[w := Fetched(id, slow)], slowRunning := slowRunning)));
  }

  lemma StartedShows(v: Vars, p: Pool, p': Pool)
    requires Shows(v, p) && p' == p.(fastStarted := p'.fastStarted, slowStarted := p'.slowStarted)
    ensures Shows(v, p')
  {
    SameContents(v.n, v.lists, Queues(p), Queues(p'));
  }

  /** The head of the work queue is taken out. */
  lemma WorkShiftShows(v: Vars, p: Pool)
    requires Shows(v, p) && p.wq != [] && NoDup(p.wq)
    ensures v.n.wq in v.lists && v.lists[v.n.wq] != [] && v.lists[v.n.wq][0] == LinkOf(v.n, p.wq[0])
    ensures Shows(v.(lists := Shift(v.lists, v.n.wq)), p.(wq := p.wq[1..]))
    ensures p.wq[0].Request? ==> p.wq[0].id < |v.n.requests|
  {
    var p' := p.(wq := p.wq[1..]);
    assert Queues(p)(WQ) == p.wq && Queues(p')(WQ) == p.wq[1..];
    assert p.wq == [p.wq[0]] + p.wq[1..];
    ShiftShows(v, p, p', v.n.wq, p.wq[0]);
  }

  lemma SlowShiftShows(v: Vars, p: Pool)
    requires Shows(v, p) && p.slowPending != []
    ensures v.n.slowWq in v.lists && |v.lists[v.n.slowWq]| == |p.slowPending|
    ensures p.slowPending[0] < |v.n.requests| && v.lists[v.n.slowWq][0] == v.n.requests[p.slowPending[0]]
    ensures Shows(v.(lists := Shift(v.lists, v.n.slowWq)), p.(slowPending := p.slowPending[1..]))
  {
    var p' := p.(slowPending := p.slowPending[1..]);
    assert KeyOk(v.n, v.lists, Queues(p), v.n.slowWq);
    assert Queues(p)(SLOW_WQ) == Asked(p.slowPending) && Queues(p')(SLOW_WQ) == Asked(p.slowPending[1..]);
    assert Asked(p.slowPending[1..]) == Asked(p.slowPending)[1..];
    ShiftShows(v, p, p', v.n.slowWq, Request(p.slowPending[0]));
  }

  /** The pool after a worker has taken the first pending slow item. */
  ghost function SlowFetched(p: Pool, w: nat): Pool
    requires w < |p.workers| && p.slowPending != []
  {
    p.(slowPending := p.slowPending[1..], slowRunning := p.slowRunning + 1,
       workers := p.workers[w := Fetched(p.slowPending[0], true)])
  }

  lemma ShiftHas(m: Lists, h: Link)
    requires h in m && m[h] != [] && m[h][0] != h
    ensures forall x :: x in m ==> x in Shift(m, h)
    ensures m[h][0] in Shift(m, h) && Shift(m, h)[h] == m[h][1..]
  {
  }

  lemma SlowHead(v: Vars, p: Pool)
    requires Shows(v, p) && HasQueues(v) && p.slowPending != []
    ensures var s, id := v.lists[v.n.slowWq], p.slowPending[0];
            && |s| == |p.slowPending| && id < |v.n.requests| && s[0] == v.n.requests[id]
            && IdOf(s[0]) == id && s[0] != v.n.wq && s[0] != v.n.slowWq
  {
    SlowShiftShows(v, p);
  }

  lemma SlowFetchShows(v: Vars, p: Pool, w: nat)
    requires Shows(v, p) && HasQueues(v) && w < |p.workers| && p.slowPending != []
    ensures v.lists[v.n.slowWq] != [] && Shows(FetchSlow(v, w), SlowFetched(p, w))
  {
    SlowHead(v, p);
    ShiftHas(v.lists, v.n.slowWq);
    SlowShiftShows(v, p);
    var v1, p1 := v.(lists := Shift(v.lists, v.n.slowWq)), p.(slowPending := p.slowPending[1..]);
    FetchSlowIs(v, v1, w, p.slowPending[0]);
    FetchedShows(v1, p1, w, p.slowPending[0], true, p.slowRunning + 1);
    assert SlowFetched(p, w)
        == p1.(workers := p1.workers[w := Fetched(p.slowPending[0], true)], slowRunning := p.slowRunning + 1);
  }

  lemma FetchSlowIs(v: Vars, v1: Vars, w: nat, id: nat)
    requires HasQueues(v) && w < |v.workers| && v.lists[v.n.slowWq] != [] && IdOf(v.lists[v.n.slowWq][0]) == id
    requires v1 == v.(lists := Shift(v.lists, v.n.slowWq))
    ensures FetchSlow(v, w) == v1.(workers := v1.workers[w := Fetched(id, true)], slowRunning := v.slowRunning + 1)
  {
  }

  /** The slow item of a turn; the marker has just been taken out of the work queue. */
  lemma SlowTurnShows(v: Vars, p: Pool, p': Pool, w: nat, wake: set<nat>)
    requires Shows(v, p) && HasQueues(v) && w < |p.workers| && RunSlowWork !in p.wq && p.slowPending != []
    requires var q := SlowFetched(p, w); p' == if |p.slowPending| > 1 then Enqueue(q, RunSlowWork, wake) else q
    ensures Shows(SlowTurn(v, w, wake), p')
  {
    SlowFetchShows(v, p, w);
    SlowHead(v, p);
    ShiftHas(v.lists, v.n.slowWq);
    if |p.slowPending| > 1 { PostTailShows(FetchSlow(v, w), SlowFetched(p, w), RunSlowWork, wake); }
  }

  lemma WaitShows(v: Vars, p: Pool, w: nat)
    requires Shows(v, p) && w < |v.workers|
    ensures Shows(v.(idle := v.idle + 1, workers := v.workers[w := Sleeping]),
                  p.(idle := p.idle + 1, workers := p.workers[w := Sleeping]))
  {
    SameContents(v.n, v.lists, Queues(p), Queues(p.(idle := p.idle + 1, workers := p.workers[w := Sleeping])));
  }

  lemma ExitShows(v: Vars, p: Pool, w: nat, wake: set<nat>)
    requires Shows(v, p) && w < |v.workers|
    ensures Shows(v.(workers := Signal(v.workers[w := Exited], wake)),
                  p.(workers := Signal(p.workers[w := Exited], wake)))
  {
    SameContents(v.n, v.lists, Queues(p), Queues(p.(workers := Signal(p.workers[w := Exited], wake))));
  }

  /** The marker goes to the end of the work queue. */
  lemma AgainShows(v: Vars, p: Pool, q: Pool)
    requires Shows(v, p) && p.wq != [] && p.wq[0] == RunSlowWork && NoDup(p.wq)
    requires q == p.(wq := p.wq[1..] + [RunSlowWork])
    ensures v.n.wq in v.lists && v.lists[v.n.wq] != [] && v.lists[v.n.wq][0] == v.n.marker
    ensures Shows(v.(lists := WithTail(Shift(v.lists, v.n.wq), v.n.wq, v.n.marker)), q)
  {
    WorkShiftShows(v, p);
    var v1, p1 := v.(lists := Shift(v.lists, v.n.wq)), p.(wq := p.wq[1..]);
    Appended(v.n, v1.lists, Queues(p1), Queues(q), v.n.wq, RunSlowWork);
    assert RunSlowWork in q.wq;
    TailSelfLinked(v.n, v1.lists, p1, q, v.n.wq, RunSlowWork);
  }

  lemma {:induction false} RequestTurnShows(v: Vars, p: Pool, w: nat, wake: set<nat>)
    requires Shows(v, p) && NoDup(p.wq) && w < |p.workers| && p.wq != [] && p.wq[0].Request?
    requires CanTurn(v, w)
    ensures Shows(Turn(v, w, wake), Dispatch(p, w, wake))
  {
    WorkQueueLinks(v, p);
    WorkShiftShows(v, p);
    var v1, p1, id := v.(lists := Shift(v.lists, v.n.wq)), p.(wq := p.wq[1..]), p.wq[0].id;
    FetchedShows(v1, p1, w, id, false, p.slowRunning);
    var p2 := p1.(workers := p.workers[w := Fetched(id, false)]);
    StartedShows(v1.(workers := v.workers[w := Fetched(id, false)]), p2, p2.(fastStarted := p.fastStarted + [id]));
  }

  lemma {:induction false} WaitTurn(v: Vars, p: Pool, w: nat, wake: set<nat>)
    requires Shows(v, p) && NoDup(p.wq) && CanTurn(v, w) && WaitCondition(p)
    ensures Turn(v, w, wake) == v.(idle := v.idle + 1, workers := v.workers[w := Sleeping])
    ensures Dispatch(p, w, wake) == p.(idle := p.idle + 1, workers := p.workers[w := Sleeping])
  {
    WorkQueueLinks(v, p);
  }

  lemma {:induction false} ExitTurn(v: Vars, p: Pool, w: nat, wake: set<nat>)
    requires Shows(v, p) && NoDup(p.wq) && CanTurn(v, w) && !WaitCondition(p) && p.wq[0] == ExitMessage
    ensures Turn(v, w, wake) == v.(workers := Signal(v.workers[w := Exited], wake))
    ensures Dispatch(p, w, wake) == p.(workers := Signal(p.workers[w := Exited], wake))
  {
    WorkQueueLinks(v, p);
  }

  /** A turn of a worker, however often its loop goes round. */
  lemma {:induction false} TurnShows(v: Vars, p: Pool, w: nat, wake: set<nat>)
    requires Shows(v, p) && NoDup(p.wq) && w < |p.workers|
    ensures CanTurn(v, w)
    ensures Shows(Turn(v, w, wake), Dispatch(p, w, wake))
    decreases if p.wq != [] && p.wq[0] == RunSlowWork then 1 else 0, 1
  {
    WorkQueueLinks(v, p);
    if WaitCondition(p) {
      WaitTurn(v, p, w, wake);
      WaitShows(v, p, w);
    } else if p.wq[0] == ExitMessage {
      ExitTurn(v, p, w, wake);
      ExitShows(v, p, w, wake);
    } else if p.wq[0].Request? {
      RequestTurnShows(v, p, w, wake);
    } else {
      MarkerTurnShows(v, p, w, wake);
    }
  }

  lemma {:induction false} MarkerTurnShows(v: Vars, p: Pool, w: nat, wake: set<nat>)
    requires Shows(v, p) && NoDup(p.wq) && w < |p.workers| && !WaitCondition(p) && p.wq[0] == RunSlowWork
    requires CanTurn(v, w)
    ensures Shows(Turn(v, w, wake), Dispatch(p, w, wake))
    decreases 1, 0
  {
    WorkQueueLinks(v, p);
    WorkShiftShows(v, p);
    MarkerOnce(p.wq);
    MarkerTurn(v, w, wake);
    var v1, p1 := v.(lists := Shift(v.lists, v.n.wq)), p.(wq := p.wq[1..]);
    assert |v.lists[v.n.slowWq]| == |p.slowPending| by { assert KeyOk(v.n, v.lists, Queues(p), v.n.slowWq); }
    if AtThreshold(p) {
      var p2 := p.(wq := p.wq[1..] + [RunSlowWork]);
      AgainShows(v, p, p2);
      TurnShows(v1.(lists := WithTail(v1.lists, v.n.wq, v.n.marker)), p2, w, wake);
    } else if p.slowPending == [] {
      TurnShows(v1, p1, w, wake);
    } else {
      SlowDispatchShows(v1, p, w, wake);
    }
  }

  lemma {:induction false} SlowDispatchShows(v1: Vars, p: Pool, w: nat, wake: set<nat>)
    requires NoDup(p.wq) && w < |p.workers| && !WaitCondition(p) && p.wq[0] == RunSlowWork
    requires !AtThreshold(p) && p.slowPending != []
    requires Shows(v1, p.(wq := p.wq[1..])) && HasQueues(v1) && RunSlowWork !in p.wq[1..]
    ensures Shows(SlowTurn(v1, w, wake), Dispatch(p, w, wake))
  {
    var p2 := SlowState(p, w, wake);
    SlowTurnShows(v1, p.(wq := p.wq[1..]), p2, w, wake);
    SlowDispatch(p, w, wake);
    StartedShows(SlowTurn(v1, w, wake), p2, p2.(slowStarted := p.slowStarted + [p.slowPending[0]]));
  }

  /** The state after a slow item is taken, but for the record of the items started. */
  ghost function SlowState(p: Pool, w: nat, wake: set<nat>): Pool
    requires w < |p.workers| && p.wq != [] && p.slowPending != []
  {
    var q := p.(wq := p.wq[1..], slowPending := p.slowPending[1..], slowRunning := p.slowRunning + 1,
                workers := p.workers[w := Fetched(p.slowPending[0], true)]);
    if |p.slowPending| > 1 then Enqueue(q, RunSlowWork, wake) else q
  }

  lemma {:induction false} SlowDispatch(p: Pool, w: nat, wake: set<nat>)
    requires NoDup(p.wq) && w < |p.workers| && !WaitCondition(p) && p.wq[0] == RunSlowWork
    requires !AtThreshold(p) && p.slowPending != []
    ensures Dispatch(p, w, wake) == SlowState(p, w, wake).(slowStarted := p.slowStarted + [p.slowPending[0]])
  {
  }

  lemma MarkerOnce(wq: seq<Item>)
    requires NoDup(wq) && wq != [] && wq[0] == RunSlowWork
    ensures RunSlowWork !in wq[1..] && NoDup(wq[1..]) && NoDup(wq[1..] + [RunSlowWork])
    ensures |wq| > 1 ==> (wq[1..] + [RunSlowWork])[0] != RunSlowWork && wq[1..][0] != RunSlowWork
  {
  }

  // ----- The rest of the worker, and the loop thread

  lemma RunShows(v: Vars, p: Pool, w: nat)
    requires Shows(v, p) && Enabled(p, RunWork(w))
    ensures Shows(Run(v, w), Apply(p, RunWork(w)))
  {
    SameContents(v.n, v.lists, Queues(p), Queues(Apply(p, RunWork(w))));
  }

  /** A request that has its place outside the queues is in none of them. */
  lemma PlacedOutside(p: Pool, at: seq<Place>, id: nat)
    requires Placed(p, at) && id < |at| && (at[id].OnWorker? || at[id].InCancellation? || at[id].Done?)
    ensures InNoQueue(Queues(p), Request(id))
  {
    forall o ensures Request(id) !in Queues(p)(o) {
      var items := Queues(p)(o);
      if i :| 0 <= i < |items| && items[i] == Request(id) {
        match o
        case Variable(k) => if k == 0 { assert IsAt(p, id, InWorkQueue); } else { assert IsAt(p, id, InSlowQueue); }
        case LoopQueue(l) => assert IsAt(p, id, InLoopQueue(l));
        case LocalQueue(l) => assert IsAt(p, id, InDraining(l));
        case WorkRequest(_) => assert false;
      }
    }
  }

  lemma OnlyHolder(p: Pool, at: seq<Place>, w: nat, id: nat)
    requires Placed(p, at) && w < |p.workers| && (p.workers[w].Fetched? || p.workers[w].Ran?) && p.workers[w].id == id
    ensures id < |at| && at[id] == OnWorker(w)
    ensures forall x :: 0 <= x < |p.workers| && x != w && (p.workers[x].Fetched? || p.workers[x].Ran?) ==>
                          p.workers[x].id != id
  {
    assert IsAt(p, id, OnWorker(w));
    forall x | 0 <= x < |p.workers| && x != w && (p.workers[x].Fetched? || p.workers[x].Ran?)
      ensures p.workers[x].id != id
    {
      assert IsAt(p, p.workers[x].id, OnWorker(x));
    }
  }

  lemma NotHeld(p: Pool, at: seq<Place>, id: nat)
    requires Placed(p, at) && id < |at| && !at[id].OnWorker?
    ensures NobodyHolds(p.workers, Request(id))
  {
    forall w | 0 <= w < |p.workers| && (p.workers[w].Fetched? || p.workers[w].Ran?)
      ensures p.workers[w].id != id
    {
      assert IsAt(p, p.workers[w].id, OnWorker(w));
    }
  }

  /** Appending a request to the queue of a loop. */
  lemma LoopTailQueued(n: Names, m: Lists, p: Pool, p': Pool, l: nat, id: nat)
    requires Queued(n, m, Queues(p)) && |n.loopWq| == |p.loops| && l < |p.loops| && id < |n.requests|
    requires p'.wq == p.wq && p'.slowPending == p.slowPending && |p'.loops| == |p.loops|
    requires forall k :: 0 <= k < |p.loops| ==> p'.loops[k].draining == p.loops[k].draining
    requires forall k :: 0 <= k < |p.loops| ==> p'.loops[k].wq == if k == l then p.loops[k].wq + [id] else p.loops[k].wq
    ensures n.loopWq[l] in m && Queued(n, WithTail(m, n.loopWq[l], n.requests[id]), Queues(p'))
  {
    assert Asked(p.loops[l].wq + [id]) == Asked(p.loops[l].wq) + [Request(id)];
    Appended(n, m, Queues(p), Queues(p'), n.loopWq[l], Request(id));
  }

  lemma FinishShows(v: Vars, p: Pool, w: nat, at: seq<Place>)
    requires Shows(v, p) && Placed(p, at) && Enabled(p, FinishWork(w))
    ensures HasHeads(v) && Shows(Finish(v, w), Apply(p, FinishWork(w)))
  {
    var id := p.workers[w].id;
    var l := p.reqs[id].loop;
    var p' := Apply(p, FinishWork(w));
    LoopTailQueued(v.n, v.lists, p, p', l, id);
    OnlyHolder(p, at, w, id);
    TailSelfLinked(v.n, v.lists, p, p', v.n.loopWq[l], Request(id));
  }

  lemma ReportShows(v: Vars, p: Pool, l: nat, id: nat, at: seq<Place>)
    requires Shows(v, p) && Placed(p, at) && Enabled(p, CancelReport(l)) && id == p.loops[l].cancelling.value
    ensures HasHeads(v) && Shows(Report(v, l, id), Apply(p, CancelReport(l)))
  {
    var p' := Apply(p, CancelReport(l));
    assert IsAt(p, id, InCancellation(l));
    NotHeld(p, at, id);
    LoopTailQueued(v.n, v.lists, p, p', l, id);
    TailSelfLinked(v.n, v.lists, p, p', v.n.loopWq[l], Request(id));
  }

  lemma DrainQueued(n: Names, m: Lists, p: Pool, p': Pool, l: nat)
    requires Queued(n, m, Queues(p)) && |n.loopWq| == |p.loops| && l < |p.loops| && p.loops[l].draining == []
    requires p' == p.(loops := p.loops[l := p.loops[l].(wq := [], draining := p.loops[l].wq)])
    ensures n.loopWq[l] in m && n.localWq[l] in m && Queued(n, Moved(m, n.loopWq[l], n.localWq[l]), Queues(p'))
  {
    assert Asked([]) == [];
    HandedOver(n, m, Queues(p), Queues(p'), n.loopWq[l], n.localWq[l]);
  }

  lemma DrainShows(v: Vars, p: Pool, l: nat)
    requires Shows(v, p) && Enabled(p, DrainBegin(l))
    ensures HasHeads(v) && v.lists[v.n.localWq[l]] == [] && Shows(Drain(v, l), Apply(p, DrainBegin(l)))
  {
    assert KeyOk(v.n, v.lists, Queues(p), v.n.localWq[l]);
    DrainQueued(v.n, v.lists, p, Apply(p, DrainBegin(l)), l);
  }

  lemma DoneQueued(n: Names, m: Lists, p: Pool, p': Pool, l: nat)
    requires Queued(n, m, Queues(p)) && |n.loopWq| == |p.loops| && l < |p.loops| && p.loops[l].draining != []
    requires p'.wq == p.wq && p'.slowPending == p.slowPending
    requires p'.loops == p.loops[l := p.loops[l].(draining := p.loops[l].draining[1..])]
    ensures n.localWq[l] in m && m[n.localWq[l]] != [] && p.loops[l].draining[0] < |n.requests|
    ensures m[n.localWq[l]][0] == n.requests[p.loops[l].draining[0]]
    ensures Queued(n, WithoutAt(m, n.localWq[l], 0), Queues(p'))
  {
    var h, d := n.localWq[l], p.loops[l].draining;
    assert KeyOk(n, m, Queues(p), h) && AllKnown(n, Queues(p)(h.owner));
    assert Asked(d[1..]) == Asked(d)[..0] + Asked(d)[1..];
    Dropped(n, m, Queues(p), Queues(p'), h, 0);
  }

  lemma DoneShows(v: Vars, p: Pool, l: nat)
    requires Shows(v, p) && Enabled(p, CallDone(l))
    ensures HasHeads(v) && v.lists[v.n.localWq[l]] != []
    ensures v.lists[v.n.localWq[l]][0] == v.n.requests[p.loops[l].draining[0]]
    ensures Shows(CallNext(v, l, p.loops[l].draining[0]), Apply(p, CallDone(l)))
  {
    DoneQueued(v.n, v.lists, p, Apply(p, CallDone(l)), l);
  }

  // ----- Cancelling

  lemma {:induction false} LinksUnlink(n: Names, items: seq<Item>, item: Item)
    requires Named(n) && AllKnown(n, items) && (item.Request? ==> item.id < |n.requests|)
    ensures Links(n, Without(items, item)) == Without(Links(n, items), LinkOf(n, item))
    ensures AllKnown(n, Without(items, item))
    decreases |items|
  {
    if items != [] {
      var s := Links(n, items);
      NamesDiffer(n, items[0], item);
      LinksUnlink(n, items[1..], item);
      assert s[1..] == Links(n, items[1..]);
      if items[0] != item {
        var r := Without(items[1..], item);
        assert Links(n, [items[0]] + r) == [s[0]] + Links(n, r);
      }
    }
  }

  lemma {:induction false} AskedWithout(ids: seq<nat>, id: nat)
    ensures Asked(Without(ids, id)) == Without(Asked(ids), Request(id))
  {
    if ids != [] {
      AskedWithout(ids[1..], id);
      assert Asked(ids)[1..] == Asked(ids[1..]);
      if ids[0] != id {
        var r := Without(ids[1..], id);
        assert Asked([ids[0]] + r) == [Request(ids[0])] + Asked(r);
      }
    }
  }

  lemma UnlinkQueued(n: Names, m: Lists, c: Contents, c': Contents, item: Item)
    requires Queued(n, m, c) && (item.Request? ==> item.id < |n.requests|)
    requires forall o :: c'(o) == Without(c(o), item)
    ensures Queued(n, Unlink(m, LinkOf(n, item)), c')
  {
    var m' := Unlink(m, LinkOf(n, item));
    forall g | g in m' ensures KeyOk(n, m', c', g) {
      assert KeyOk(n, m, c, g) && AllKnown(n, c(g.owner));
      LinksUnlink(n, c(g.owner), item);
    }
    forall o ensures AllKnown(n, c'(o)) {
      assert AllKnown(n, c(o));
      LinksUnlink(n, c(o), item);
    }
  }

  lemma WithoutAbsent<T>(s: seq<T>, x: T)
    requires x !in s
    ensures Without(s, x) == s
  {
    var k := WithoutDropsOne(s, x);
  }

  /** The request leaves its queue; it is in no other. */
  lemma CancelContents(p: Pool, at: seq<Place>, id: nat, o: Owner)
    requires Placed(p, at) && Enabled(p, Cancel(id)) && Linked(p, id) && p.reqs[id].work != Null
    ensures Queues(CancelUnlink(p, id))(o) == Without(Queues(p)(o), Request(id))
  {
    assert FitsPlace(p.reqs[id], at[id], WorkerAt(p, at[id]));
    match o
    case Variable(k) => AskedWithout(p.slowPending, id);
    case LoopQueue(l) =>
      if l < |p.loops| {
        AskedWithout(p.loops[l].wq, id);
        if l != p.reqs[id].loop {
          if id in p.loops[l].wq { assert IsAt(p, id, InLoopQueue(l)); }
          WithoutAbsent(p.loops[l].wq, id);
        }
      }
    case LocalQueue(l) =>
      if l < |p.loops| {
        AskedWithout(p.loops[l].draining, id);
        if l != p.reqs[id].loop {
          if id in p.loops[l].draining { assert IsAt(p, id, InDraining(l)); }
          WithoutAbsent(p.loops[l].draining, id);
        }
      }
    case WorkRequest(_) =>
  }

  lemma InQueueLinked(n: Names, m: Lists, c: Contents, g: Link, item: Item)
    requires Queued(n, m, c) && Apart(m) && g in m && item in c(g.owner)
    ensures LinkOf(n, item) !in m && !InNone(m, LinkOf(n, item))
  {
    assert KeyOk(n, m, c, g);
    var i :| 0 <= i < |c(g.owner)| && c(g.owner)[i] == item;
    assert m[g][i] == LinkOf(n, item);
  }

  /** What the cancelling thread asks, whether the link of the request is alone, tells whether the
      request is in a queue. */
  lemma AloneMeansRunning(v: Vars, p: Pool, at: seq<Place>, id: nat)
    requires Shows(v, p) && Apart(v.lists) && Placed(p, at) && Enabled(p, Cancel(id))
    ensures v.n.requests[id] in v.lists || !InNone(v.lists, v.n.requests[id])
    ensures Alone(v.lists, v.n.requests[id]) <==> !Linked(p, id)
  {
    var n, m, c, q, l := v.n, v.lists, Queues(p), v.n.requests[id], p.reqs[id].loop;
    if Request(id) in p.wq {
      InQueueLinked(n, m, c, n.wq, Request(id));
    } else if id in p.slowPending {
      RequestIn(p.slowPending, id);
      InQueueLinked(n, m, c, n.slowWq, Request(id));
    } else if id in p.loops[l].wq {
      RequestIn(p.loops[l].wq, id);
      InQueueLinked(n, m, c, n.loopWq[l], Request(id));
    } else if id in p.loops[l].draining {
      RequestIn(p.loops[l].draining, id);
      InQueueLinked(n, m, c, n.localWq[l], Request(id));
    } else {
      assert IsAt(p, id, at[id]) && FitsPlace(p.reqs[id], at[id], WorkerAt(p, at[id]));
      assert at[id].OnWorker?;
      assert KeyOk(n, m, c, q);
    }
  }

  lemma RequestIn(ids: seq<nat>, id: nat)
    requires id in ids
    ensures Request(id) in Asked(ids)
  {
    var i :| 0 <= i < |ids| && ids[i] == id;
    assert Asked(ids)[i] == Request(id);
  }

  lemma UnlinkShows(v: Vars, p: Pool, id: nat, at: seq<Place>)
    requires Shows(v, p) && Placed(p, at) && Enabled(p, Cancel(id)) && Linked(p, id) && p.reqs[id].work != Null
    ensures Shows(v.(lists := Unlink(v.lists, v.n.requests[id])), CancelUnlink(p, id))
  {
    var p' := CancelUnlink(p, id);
    forall o ensures Queues(p')(o) == Without(Queues(p)(o), Request(id)) {
      CancelContents(p, at, id, o);
    }
    UnlinkQueued(v.n, v.lists, Queues(p), Queues(p'), Request(id));
    WithoutKeepsOthers(p.wq, Request(id), RunSlowWork);
  }

  lemma CancelShows(v: Vars, p: Pool, id: nat, at: seq<Place>)
    requires Shows(v, p) && Apart(v.lists) && Placed(p, at) && Enabled(p, Cancel(id))
    ensures HasHeads(v) && Shows(CancelLink(v, id), Apply(p, Cancel(id)))
  {
    AloneMeansRunning(v, p, at, id);
    if Linked(p, id) && p.reqs[id].work != Null { UnlinkShows(v, p, id, at); }
  }

  // ----- All steps

  /** What a step does to the shared variables; `q` is the link of a request that is submitted. */
  ghost predicate ListStep(v: Vars, s: Step, q: Link, p: Pool, v': Vars)
    requires Shows(v, p) && Enabled(p, s)
  {
    match s
    case SubmitWork(l, kind, wake) => HasQueues(v) && q != v.n.wq && v' == Post(v, q, l, kind, wake)
    case PostExit(wake) => v.n.wq in v.lists && v' == PostTail(v, v.n.exit, wake)
    case WorkerTurn(w, wake) => CanTurn(Lock(v, w), w) && v' == Turn(Lock(v, w), w, wake)
    case SpuriousWakeup(w) => v' == v.(workers := v.workers[w := Woken])
    case RunWork(w) => v' == Run(v, w)
    case FinishWork(w) => HasHeads(v) && LoopIn(v.n, v.lists, v.reqs[v.workers[w].id].loop) && v' == Finish(v, w)
    case Cancel(id) => HasHeads(v) && v' == CancelLink(v, id)
    case CancelReport(l) => HasHeads(v) && LoopIn(v.n, v.lists, l) && v' == Report(v, l, p.loops[l].cancelling.value)
    case DrainBegin(l) => HasHeads(v) && LoopIn(v.n, v.lists, l) && v' == Drain(v, l)
    case CallDone(l) =>
      && HasHeads(v) && LoopIn(v.n, v.lists, l) && v.lists[v.n.localWq[l]] != []
      && IdOf(v.lists[v.n.localWq[l]][0]) < |v.reqs| && v' == CallNext(v, l, IdOf(v.lists[v.n.localWq[l]][0]))
  }

  lemma SpuriousShows(v: Vars, p: Pool, w: nat)
    requires Shows(v, p) && Enabled(p, SpuriousWakeup(w))
    ensures Shows(v.(workers := v.workers[w := Woken]), Apply(p, SpuriousWakeup(w)))
  {
    IdleShows(v, p, v.(workers := v.workers[w := Woken]), Apply(p, SpuriousWakeup(w)), w, Woken);
  }

  /** The code on linked lists takes the steps of the state machine: whatever it does to the shared
      variables is what the step does to the state that they show. */
  lemma StepShows(v: Vars, p: Pool, s: Step, q: Link, all: set<Link>, v': Vars)
    requires Shows(v, p) && PoolInv(p) && Enabled(p, s) && Apart(v.lists) && Within(v.lists, all)
    requires ListStep(v, s, q, p, v')
    requires s.SubmitWork? ==> q.owner == WorkRequest(|v.reqs|) && Free(v.lists, q) && q in all
    ensures Shows(v', Apply(p, s)) && PoolInv(Apply(p, s))
  {
    InvStep(p, s, Apply(p, s));
    StepRefines(v, p, s, q, all, v');
  }

  lemma StepRefines(v: Vars, p: Pool, s: Step, q: Link, all: set<Link>, v': Vars)
    requires Shows(v, p) && PoolInv(p) && Enabled(p, s) && Apart(v.lists) && Within(v.lists, all)
    requires ListStep(v, s, q, p, v')
    requires s.SubmitWork? ==> q.owner == WorkRequest(|v.reqs|) && Free(v.lists, q) && q in all
    ensures Shows(v', Apply(p, s))
  {
    var at :| Placed(p, at);
    match s
    case SubmitWork(l, kind, wake) => PostShows(v, p, q, l, kind, wake, all);
    case PostExit(wake) => PostTailShows(v, p, ExitMessage, wake);
    case WorkerTurn(w, wake) =>
      LockShows(v, p, w);
      TurnShows(Lock(v, w), Enter(p, w), w, wake);
    case SpuriousWakeup(w) => SpuriousShows(v, p, w);
    case RunWork(w) => RunShows(v, p, w);
    case FinishWork(w) => FinishShows(v, p, w, at);
    case Cancel(id) => CancelShows(v, p, id, at);
    case CancelReport(l) => ReportShows(v, p, l, p.loops[l].cancelling.value, at);
    case DrainBegin(l) => DrainShows(v, p, l);
    case CallDone(l) => DoneShows(v, p, l);
  }

  // ----- What the code relies on when it takes a step

  lemma FreeOutside(v: Vars, p: Pool, item: Item)
    requires Shows(v, p) && InNoQueue(Queues(p), item) && (item.Request? ==> item.id < |v.reqs|)
    ensures Free(v.lists, LinkOf(v.n, item))
  {
    var q := LinkOf(v.n, item);
    NotLinked(v.n, v.lists, Queues(p), item);
    NamesDiffer(v.n, item, item);
    if q in v.lists { assert KeyOk(v.n, v.lists, Queues(p), q); }
  }

  lemma ShowsHeads(v: Vars, p: Pool)
    requires Shows(v, p)
    ensures HasHeads(v) && |v.n.loopWq| == |p.loops| && forall l :: 0 <= l < |p.loops| ==> LoopIn(v.n, v.lists, l)
  {
  }

  /** The links are where the critical sections expect them. */
  ghost predicate Ready(v: Vars, s: Step, p: Pool)
    requires Shows(v, p) && Enabled(p, s)
  {
    match s
    case SubmitWork(l, kind, wake) => v.n.marker in v.lists || !InNone(v.lists, v.n.marker)
    case PostExit(wake) => Free(v.lists, v.n.exit)
    case FinishWork(w) => Free(v.lists, v.n.requests[v.workers[w].id])
    case Cancel(id) => Alone(v.lists, v.n.requests[id]) || !InNone(v.lists, v.n.requests[id])
    case CancelReport(l) => Free(v.lists, v.n.requests[p.loops[l].cancelling.value])
    case DrainBegin(l) => v.n.localWq[l] in v.lists && v.lists[v.n.localWq[l]] == []
    case CallDone(l) =>
      && v.n.localWq[l] in v.lists && v.lists[v.n.localWq[l]] != []
      && IdOf(v.lists[v.n.localWq[l]][0]) == p.loops[l].draining[0]
    case _ => true
  }

  lemma FinishReady(v: Vars, p: Pool, at: seq<Place>, w: nat)
    requires Shows(v, p) && Placed(p, at) && Enabled(p, FinishWork(w))
    ensures Free(v.lists, v.n.requests[v.workers[w].id])
  {
    OnlyHolder(p, at, w, p.workers[w].id);
    PlacedOutside(p, at, p.workers[w].id);
    FreeOutside(v, p, Request(p.workers[w].id));
  }

  lemma CancelReady(v: Vars, p: Pool, at: seq<Place>, id: nat)
    requires Shows(v, p) && PoolInv(p) && Placed(p, at) && Enabled(p, Cancel(id)) && Apart(v.lists)
    ensures Alone(v.lists, v.n.requests[id]) || !InNone(v.lists, v.n.requests[id])
  {
    AloneMeansRunning(v, p, at, id);
    if v.n.requests[id] in v.lists { assert KeyOk(v.n, v.lists, Queues(p), v.n.requests[id]); }
  }

  lemma ReportReady(v: Vars, p: Pool, at: seq<Place>, l: nat)
    requires Shows(v, p) && Placed(p, at) && Enabled(p, CancelReport(l))
    ensures p.loops[l].cancelling.value < |v.n.requests| && Free(v.lists, v.n.requests[p.loops[l].cancelling.value])
  {
    var id := p.loops[l].cancelling.value;
    assert IsAt(p, id, InCancellation(l));
    PlacedOutside(p, at, id);
    FreeOutside(v, p, Request(id));
  }

  lemma StepReady(v: Vars, p: Pool, s: Step)
    requires Shows(v, p) && PoolInv(p) && Enabled(p, s) && Apart(v.lists)
    ensures Ready(v, s, p)
  {
    var at :| Placed(p, at);
    match s
    case SubmitWork(l, kind, wake) => MarkerAlone(v, p);
    case PostExit(wake) => FreeOutside(v, p, ExitMessage);
    case FinishWork(w) => FinishReady(v, p, at, w);
    case Cancel(id) => CancelReady(v, p, at, id);
    case CancelReport(l) => ReportReady(v, p, at, l);
    case DrainBegin(l) => DrainShows(v, p, l);
    case CallDone(l) => DoneShows(v, p, l);
    case _ =>
  }

  /** At the start the lists show the initial state. */
  lemma InitShows(v: Vars, p: Pool)
    requires Named(v.n) && HasHeads(v) && v.n.requests == [] && v.reqs == [] && v.idle == v.slowRunning == 0
    requires v.n.marker in v.lists && forall g :: g in v.lists ==> IsName(v.n, g) && v.lists[g] == []
    requires |v.workers| >= 1 && forall w :: 0 <= w < |v.workers| ==> v.workers[w] == Locking(false)
    requires p == Pool([], [], 0, 0, v.workers, [], seq(|v.n.loopWq|, _ => Loop([], [], None)), [], [])
    ensures ThreadPool.Init(p) && Shows(v, p)
  {
    forall g | g in v.lists ensures KeyOk(v.n, v.lists, Queues(p), g) {
      assert Asked([]) == [];
    }
    forall l | 0 <= l < |v.n.loopWq| ensures v.n.loopWq[l] in v.lists && v.n.localWq[l] in v.lists {
      assert LoopIn(v.n, v.lists, l);
    }
  }
}
