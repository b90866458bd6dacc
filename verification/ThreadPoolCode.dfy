/** The critical sections of the pool as its threads execute them, on linked lists. */
module ThreadPoolCode {
  import opened ByteStrings
  import opened RingQueue
  import opened RingSpace
  import opened QueueLayout
  import opened ListSteps
  import opened ThreadPool

  ghost predicate AllEmpty(m: Lists) {
    forall g :: g in m ==> m[g] == []
  }

  /** Every link on its own. */
  ghost predicate Singles(links: set<Link>)
    reads links
  {
    forall x :: x in links ==> x.next == x && x.prev == x
  }

  ghost function EmptyLists(links: set<Link>): (m: Lists)
    ensures m.Keys == links && AllEmpty(m)
  {
    map g | g in links :: []
  }

  lemma SinglesAreRings(links: set<Link>, all: set<Link>)
    requires Singles(links) && links <= all
    ensures Rings(EmptyLists(links), all)
  {
  }

  method NewLoops(n: nat) returns (loops: seq<Link>, locals: seq<Link>, ghost links: set<Link>)
    ensures |loops| == |locals| == n && fresh(links) && Singles(links)
    ensures forall l :: 0 <= l < n ==> loops[l].owner == LoopQueue(l) && loops[l] in links
    ensures forall l :: 0 <= l < n ==> locals[l].owner == LocalQueue(l) && locals[l] in links
    ensures forall x :: x in links ==> x.owner.LoopQueue? || x.owner.LocalQueue?
    ensures forall x :: x in links ==> x in loops || x in locals
  {
    loops, locals, links := [], [], {};
    for k := 0 to n
      invariant |loops| == |locals| == k && fresh(links) && Singles(links)
      invariant forall l :: 0 <= l < k ==> loops[l].owner == LoopQueue(l) && loops[l] in links
      invariant forall l :: 0 <= l < k ==> locals[l].owner == LocalQueue(l) && locals[l] in links
      invariant forall x :: x in links ==> x.owner.LoopQueue? || x.owner.LocalQueue?
      invariant forall x :: x in links ==> x in loops || x in locals
    {
      var a := new Link(LoopQueue(k));
      var b := new Link(LocalQueue(k));
      loops, locals, links := loops + [a], locals + [b], links + {a, b};
    }
  }

  method NewNames(nloops: nat) returns (n: Names, ghost m: Lists, ghost all: set<Link>)
    ensures Named(n) && NamesIn(n, all) && Rings(m, all) && AllEmpty(m) && n.marker in m
            && forall g :: g in m ==> IsName(n, g)
    ensures |n.loopWq| == |n.localWq| == nloops && n.requests == [] && n.wq in m && n.slowWq in m
    ensures forall l :: 0 <= l < nloops ==> LoopIn(n, m, l)
  {
    var q0 := new Link(WQ);
    var q1 := new Link(SLOW_WQ);
    var q2 := new Link(MARKER);
    var q3 := new Link(EXIT);
    var loops, locals; ghost var links;
    loops, locals, links := NewLoops(nloops);
    n := Names(q0, q1, q2, q3, loops, locals, []);
    ghost var heads := links + {q0, q1, q2};
    all := heads + {q3};
    m := EmptyLists(heads);
    FirstNames(n, links);
    SinglesAreRings(heads, all);
  }

  lemma FirstNames(n: Names, links: set<Link>)
    requires n.wq.owner == WQ && n.slowWq.owner == SLOW_WQ && n.marker.owner == MARKER && n.exit.owner == EXIT
    requires |n.loopWq| == |n.localWq| && n.requests == []
    requires forall l :: 0 <= l < |n.loopWq| ==> n.loopWq[l].owner == LoopQueue(l) && n.loopWq[l] in links
    requires forall l :: 0 <= l < |n.localWq| ==> n.localWq[l].owner == LocalQueue(l) && n.localWq[l] in links
    requires forall x :: x in links ==> x.owner.LoopQueue? || x.owner.LocalQueue?
    requires forall x :: x in links ==> x in n.loopWq || x in n.localWq
    ensures var heads := links + {n.wq, n.slowWq, n.marker};
            var m := EmptyLists(heads);
            && Named(n) && NamesIn(n, heads + {n.exit})
            && n.wq in m && n.slowWq in m && (forall l :: 0 <= l < |n.loopWq| ==> LoopIn(n, m, l))
            && forall g :: g in m ==> IsName(n, g)
  {
    forall g | g in links ensures IsName(n, g) {
      if g in n.loopWq {
        var l :| 0 <= l < |n.loopWq| && n.loopWq[l] == g;
      } else {
        var l :| 0 <= l < |n.localWq| && n.localWq[l] == g;
      }
    }
  }

  lemma MoreNames(n: Names, q: Link, all: set<Link>)
    requires Named(n) && NamesIn(n, all) && q.owner == WorkRequest(|n.requests|)
    ensures var n' := n.(requests := n.requests + [q]); Named(n') && NamesIn(n', all + {q})
  {
  }

  class SharedState {
    var names: Names   // the links among the variables of the pool, its loops and its requests
    var idleThreads: int
    var slowIoWorkRunning: int
    var workers: seq<Worker>
    var reqs: seq<Req>
    ghost var lists: Lists
    ghost var all: set<Link>

    /** The state after `init_threads`, for so many event loops. */
    constructor (nthreads: nat, nloops: nat)
      ensures Valid() && HasHeads(Now()) && AllEmpty(lists) && names.marker in lists
              && forall g :: g in lists ==> IsName(names, g)
      ensures names.requests == [] && idleThreads == slowIoWorkRunning == 0 && reqs == [] && |names.loopWq| == nloops
      ensures |workers| == nthreads && forall w :: 0 <= w < nthreads ==> workers[w] == Locking(false)
    {
      var n, m, links := NewNames(nloops);
      names, lists, all := n, m, links;
      reqs, idleThreads, slowIoWorkRunning, workers := [], 0, 0, seq(nthreads, _ => Locking(false));
    }

    ghost function Now(): Vars
      reads this
    {
      Vars(names, lists, idleThreads, slowIoWorkRunning, workers, reqs)
    }

    ghost predicate Valid()
      reads this, all
    {
      Rings(lists, all) && NamesIn(names, all) && Named(names) && HasQueues(Now()) && |names.requests| == |reqs|
    }

    method PutTail(h: Link, q: Link)
      requires Rings(lists, all) && h in lists && q != h && Free(lists, q) && q in all
      modifies this`lists, all
      ensures Rings(lists, all) && lists == WithTail(old(lists), h, q)
    {
      lists := RingSpace.InsertTail(h, q, lists, all);
    }

    /** The part of `post` below the test for slow work. */
    method PostLink(q: Link, wake: set<nat>)
      requires Valid() && q in all && IsItem(q) && Free(lists, q)
      modifies this`lists, this`workers, all
      ensures Valid() && Now() == PostTail(old(Now()), q, wake)
    {
      PutWork(q);
      WakeOne(wake);
    }

    method PutWork(q: Link)
      requires Valid() && q in all && IsItem(q) && Free(lists, q)
      modifies this`lists, all
      ensures Valid() && lists == WithTail(old(lists), names.wq, q)
    {
      PutTail(names.wq, q);
    }

    method WakeOne(wake: set<nat>)
      requires Valid()
      modifies this`workers
      ensures Valid() && workers == if idleThreads > 0 then Signal(old(workers), wake) else old(workers)
    {
      if idleThreads > 0 { workers := Signal(workers, wake); }
    }

    method SetWorker(w: nat, x: Worker)
      requires Valid() && w < |workers|
      modifies this`workers
      ensures Valid() && workers == old(workers)[w := x]
    {
      workers := workers[w := x];
    }

    method SetRequest(id: nat, r: Req)
      requires Valid() && id < |reqs|
      modifies this`reqs
      ensures Valid() && reqs == old(reqs)[id := r]
    {
      reqs := reqs[id := r];
    }

    /** Links into the slow queue, and schedules the marker if it is alone. */
    method PostSlow(q: Link, wake: set<nat>)
      requires Valid() && q in all && q.owner.WorkRequest? && Free(lists, q)
      requires names.marker in lists || !InNone(lists, names.marker)
      modifies this`lists, this`workers, all
      ensures Valid() && Now() == SlowPost(old(Now()), q, wake)
    {
      ghost var m := lists;
      PutTail(names.slowWq, q);
      StillThere(m, names.slowWq, q, names.marker);
      var alone := QueueEmpty(names.marker, lists, all);
      if alone { PostLink(names.marker, wake); }
    }

    /** The request's link is part of the request, which is the caller's. */
    method NewRequest(loop: nat, kind: Kind) returns (q: Link)
      requires Valid()
      modifies this`names, this`reqs, this`all
      ensures Valid() && fresh(q) && q.owner == WorkRequest(|old(reqs)|) && all == old(all) + {q}
      ensures Now() == AddRequest(old(Now()), q, loop, kind)
    {
      q := new Link(WorkRequest(|reqs|));
      reqs := reqs + [Req(loop, kind, Function, 0, [])];
      MoreNames(names, q, all);
      names := names.(requests := names.requests + [q]);
      all := all + {q};
    }

    /** `post` of a new request. */
    method WorkSubmit(loop: nat, kind: Kind, wake: set<nat>)
      requires Valid() && (names.marker in lists || !InNone(lists, names.marker))
      modifies this, all
      ensures Valid() && |names.requests| == |old(names.requests)| + 1
      ensures var q := names.requests[|old(names.requests)|];
              && fresh(q) && q.owner == WorkRequest(|old(reqs)|) && all == old(all) + {q}
              && HasQueues(old(Now())) && q != old(names.wq)
              && Now() == Post(old(Now()), q, loop, kind, wake)
    {
      var q := NewRequest(loop, kind);
      if kind == SlowIo {
        PostSlow(q, wake);
      } else {
        PostLink(q, wake);
      }
    }

    /** Takes the first link out of a queue and leaves it alone. */
    method TakeHead(h: Link) returns (q: Link)
      requires Rings(lists, all) && h in lists && lists[h] != []
      modifies this`lists, all
      ensures Rings(lists, all) && q == old(lists)[h][0] && lists == Shift(old(lists), h) && q in all
    {
      assert Ring(h, lists[h]);
      q := h.next;
      ghost var m := RingSpace.Remove(q, h, 0, lists, all);
      lists := RingSpace.Init(q, m, all);
    }

    method LockMutex(w: nat)
      requires Valid() && w < |workers|
      modifies this`idleThreads, this`slowIoWorkRunning, this`workers
      ensures Valid() && Now() == Lock(old(Now()), w)
    {
      match workers[w] {
        case Woken => idleThreads := idleThreads - 1;
        case Locking(slow) => if slow { slowIoWorkRunning := slowIoWorkRunning - 1; }
        case _ =>
      }
      workers := workers[w := Locking(false)];
    }

    /** Nothing to do, or only slow work that may not start now. */
    method MustWait() returns (wait: bool)
      requires Valid()
      ensures HasQueues(Now()) && (wait <==> Waits(Now()))
    {
      ghost var s := lists[names.wq];
      assert Ring(names.wq, s) && names.wq != names.slowWq;
      var head := names.wq.next;
      if head == names.wq { return true; }
      assert s[0] == head && s[0].next == LinkAt(names.wq, s, 1);
      wait := head == names.marker && names.marker.next == names.wq && slowIoWorkRunning >= (|workers| + 1) / 2;
    }

    method TakeSlow() returns (q: Link)
      requires Valid() && lists[names.slowWq] != [] && Alone(lists, names.marker)
      modifies this`lists, all
      ensures Valid() && q == old(lists)[names.slowWq][0] && lists == Shift(old(lists), names.slowWq)
      ensures Alone(lists, names.marker) && InNone(lists, names.marker)
    {
      ShiftKeepsAlone(lists, names.slowWq, names.marker);
      ShiftElsewhere(lists, names.slowWq, names.wq);
      q := TakeHead(names.slowWq);
    }

    method StartSlow(w: nat, id: nat)
      requires Valid() && w < |workers|
      modifies this`workers, this`slowIoWorkRunning
      ensures Valid() && workers == old(workers)[w := Fetched(id, true)]
              && slowIoWorkRunning == old(slowIoWorkRunning) + 1
    {
      slowIoWorkRunning := slowIoWorkRunning + 1;
      workers := workers[w := Fetched(id, true)];
    }

    method FetchSlowItem(w: nat)
      requires Valid() && w < |workers| && lists[names.slowWq] != []
      requires Alone(lists, names.marker)
      modifies this`lists, this`workers, this`slowIoWorkRunning, all
      ensures Valid() && HasQueues(old(Now())) && Now() == FetchSlow(old(Now()), w)
      ensures Alone(lists, names.marker) && InNone(lists, names.marker)
    {
      var q := HeadOf(names.slowWq);
      StartSlow(w, IdOf(q));
      q := TakeSlow();
    }

    /** Takes the first pending slow item, and schedules the next one. */
    method TakeSlowItem(w: nat, wake: set<nat>)
      requires Valid() && w < |workers| && lists[names.slowWq] != [] && lists[names.slowWq][0] != names.wq
      requires Alone(lists, names.marker)
      modifies this`lists, this`workers, this`slowIoWorkRunning, all
      ensures Valid() && HasQueues(old(Now())) && Now() == SlowTurn(old(Now()), w, wake)
    {
      FetchSlowItem(w);
      var none := QueueEmpty(names.slowWq, lists, all);
      if !none { PostLink(names.marker, wake); }
    }

    lemma ValidCanTurn(w: nat)
      requires Valid() && w < |workers|
      ensures CanTurn(Now(), w) && names.marker != names.exit && names.wq !in lists[names.slowWq]
    {
      assert Ring(names.wq, lists[names.wq]);
    }

    /** Takes the first item, which is a request. */
    method FetchItem(w: nat)
      requires Valid() && CanTurn(Now(), w) && lists[names.wq] != []
      modifies this`lists, this`workers, all
      ensures Valid() && Now() == FetchFirst(old(Now()), w)
    {
      var q := TakeHead(names.wq);
      SetWorker(w, Fetched(IdOf(q), false));
    }

    /** Takes the marker out of the queue. */
    method DropMarker()
      requires Valid() && lists[names.wq] != [] && lists[names.wq][0] == names.marker
      modifies this`lists, all
      ensures Valid() && lists == Shift(old(lists), names.wq)
      ensures Alone(lists, names.marker) && Free(lists, names.marker)
      ensures lists[names.slowWq] == old(lists)[names.slowWq]
    {
      assert Ring(names.wq, lists[names.wq]);
      ShiftedHead(lists, names.wq);
      ShiftElsewhere(lists, names.wq, names.slowWq);
      var q := TakeHead(names.wq);
    }

    /** The marker's turn: it goes to the end, or is dropped, or a slow item is taken. */
    method TakeMarker(w: nat, wake: set<nat>) returns (turned: bool)
      requires Valid() && w < |workers| && MarkerFirst(Now())
      modifies this`lists, this`workers, this`slowIoWorkRunning, all
      ensures Valid() && MarkerFirst(old(Now())) && MarkerStep(old(Now()), Now(), w, wake, turned)
    {
      var full := slowIoWorkRunning >= (|workers| + 1) / 2;
      DropMarker();
      if full {
        PutWork(names.marker);
        return false;
      }
      var none := QueueEmpty(names.slowWq, lists, all);
      if none { return false; }
      ValidCanTurn(w);
      TakeSlowItem(w, wake);
      turned := true;
    }

    /** The turns that do not meet the marker. */
    method SimpleItem(w: nat, wake: set<nat>) returns (done: bool)
      requires Valid() && CanTurn(Now(), w)
      modifies this`lists, this`workers, this`idleThreads, all
      ensures Valid() && CanTurn(old(Now()), w)
      ensures done ==> Now() == Turn(old(Now()), w, wake)
      ensures !done ==> Now() == old(Now()) && MarkerFirst(Now()) && !Waits(Now())
    {
      SimpleTurn(Now(), w, wake);
      done := true;
      var wait := MustWait();
      if wait {
        idleThreads := idleThreads + 1;
        workers := workers[w := Sleeping];
        return;
      }
      var head := HeadOf(names.wq);
      if head == names.exit {
        workers := Signal(workers[w := Exited], wake);
      } else if head != names.marker {
        FetchItem(w);
      } else {
        done := false;
      }
    }

    /** The worker's loop with the mutex held, until it sleeps, exits or has an item to run. */
    method WorkerLoop(w: nat, wake: set<nat>)
      requires Valid() && w < |workers|
      modifies this`lists, this`workers, this`idleThreads, this`slowIoWorkRunning, all
      ensures Valid() && CanTurn(old(Now()), w) && Now() == Turn(old(Now()), w, wake)
    {
      ValidCanTurn(w);
      ghost var target := Turn(Now(), w, wake);
      while true
        invariant Valid() && CanTurn(Now(), w) && Turn(Now(), w, wake) == target
        decreases if MarkerFirst(Now()) then 1 else 0
      {
        var done := SimpleItem(w, wake);
        if done { return; }
        ghost var v := Now();
        ValidCanTurn(w);
        var turned := TakeMarker(w, wake);
        MarkerStepTurns(v, Now(), w, wake, turned);
        if turned { return; }
      }
    }

    /** From the wait or the lock on. */
    method WorkerTurn(w: nat, wake: set<nat>)
      requires Valid() && w < |workers|
      modifies this`lists, this`workers, this`idleThreads, this`slowIoWorkRunning, all
      ensures Valid() && w < |old(workers)| && CanTurn(Lock(old(Now()), w), w)
      ensures Now() == Turn(Lock(old(Now()), w), w, wake)
    {
      LockMutex(w);
      WorkerLoop(w, wake);
    }

    method HeadOf(h: Link) returns (q: Link)
      requires Rings(lists, all) && h in lists && lists[h] != []
      ensures q == lists[h][0]
    {
      assert Ring(h, lists[h]);
      q := h.next;
    }

    /** The exit message of `cleanup`. */
    method PostExit(wake: set<nat>)
      requires Valid() && Free(lists, names.exit)
      modifies this`lists, this`workers, all
      ensures Valid() && Now() == PostTail(old(Now()), names.exit, wake)
    {
      PostLink(names.exit, wake);
    }

    method PutLoopTail(l: nat, q: Link)
      requires Valid() && l < |names.loopWq| == |names.localWq| && LoopIn(names, lists, l)
      requires q in all && q.owner.WorkRequest? && Free(lists, q)
      modifies this`lists, all
      ensures Valid() && lists == WithTail(old(lists), names.loopWq[l], q)
    {
      PutTail(names.loopWq[l], q);
    }

    /** A request, changed like this, goes to its loop. */
    method ToLoop(l: nat, id: nat, r: Req)
      requires Valid() && l < |names.loopWq| == |names.localWq| && LoopIn(names, lists, l)
      requires id < |reqs| && Free(lists, names.requests[id])
      modifies this`lists, this`reqs, all
      ensures Valid() && lists == WithTail(old(lists), names.loopWq[l], names.requests[id])
              && reqs == old(reqs)[id := r]
    {
      PutLoopTail(l, names.requests[id]);
      SetRequest(id, r);
    }

    /** Unlinks the first request of a local queue. */
    method TakeLocal(l: nat) returns (q: Link)
      requires Valid() && l < |names.loopWq| == |names.localWq| && LoopIn(names, lists, l)
               && lists[names.localWq[l]] != []
      modifies this`lists, all
      ensures Valid() && q == old(lists)[names.localWq[l]][0] && lists == WithoutAt(old(lists), names.localWq[l], 0)
    {
      q := HeadOf(names.localWq[l]);
      lists := RingSpace.Remove(q, names.localWq[l], 0, lists, all);
    }

    /** Without a mutex: the work function runs. */
    method RunItem(w: nat)
      requires Valid() && w < |workers| && workers[w].Fetched? && workers[w].id < |reqs|
      modifies this`workers, this`reqs
      ensures Valid() && Now() == Run(old(Now()), w)
    {
      var id := workers[w].id;
      SetRequest(id, reqs[id].(runs := reqs[id].runs + 1));
      SetWorker(w, Ran(id, workers[w].slow));
    }

    /** With the loop's mutex held: the work is done, and its loop is told. */
    method FinishItem(w: nat)
      requires Valid() && HasHeads(Now()) && w < |workers| && workers[w].Ran? && workers[w].id < |reqs|
      requires reqs[workers[w].id].loop < |names.loopWq| && LoopIn(names, lists, reqs[workers[w].id].loop)
      requires Free(lists, names.requests[workers[w].id])
      modifies this`lists, this`workers, this`reqs, all
      ensures Valid() && Now() == Finish(old(Now()), w)
    {
      var id := workers[w].id;
      ToLoop(reqs[id].loop, id, reqs[id].(work := Null));
      SetWorker(w, Locking(workers[w].slow));
    }

    /** The first part of `uv__work_cancel`, with both mutexes held. */
    method WorkCancel(id: nat) returns (cancelled: bool)
      requires Valid() && HasHeads(Now()) && id < |reqs|
      requires Alone(lists, names.requests[id]) || !InNone(lists, names.requests[id])
      modifies this`lists, all
      ensures Valid() && Now() == CancelLink(old(Now()), id)
      ensures cancelled <==> !Alone(old(lists), names.requests[id]) && reqs[id].work != Null
    {
      var q := names.requests[id];
      var alone := QueueEmpty(q, lists, all);
      cancelled := !alone && reqs[id].work != Null;
      if cancelled { TakeOut(q); }
    }

    /** Takes a link out of the list it is in, or does nothing to the head of a list. */
    method TakeOut(q: Link)
      requires Valid() && q.owner.WorkRequest? && !InNone(lists, q)
      modifies this`lists, all
      ensures Valid() && lists == Unlink(old(lists), q)
    {
      ghost var h :| h in lists && q in lists[h];
      ghost var k :| 0 <= k < |lists[h]| && lists[h][k] == q;
      assert Ring(h, lists[h]);
      UnlinkIs(lists, h, k);
      lists := RingSpace.Remove(q, h, k, lists, all);
    }

    /** The second part: the request goes to its loop as cancelled. */
    method CancelledWork(l: nat, id: nat)
      requires Valid() && HasHeads(Now()) && id < |reqs| && l < |names.loopWq| && LoopIn(names, lists, l)
      requires Free(lists, names.requests[id])
      modifies this`lists, this`reqs, all
      ensures Valid() && Now() == Report(old(Now()), l, id)
    {
      ToLoop(l, id, reqs[id].(work := CancelledFunction));
    }

    /** `uv__work_done` takes over the queue of its loop. */
    method WorkDone(l: nat)
      requires Valid() && HasHeads(Now()) && l < |names.loopWq| && LoopIn(names, lists, l)
               && lists[names.localWq[l]] == []
      modifies this`lists, all
      ensures Valid() && Now() == Drain(old(Now()), l)
    {
      lists := RingSpace.Move(names.loopWq[l], names.localWq[l], lists, all);
    }

    /** And calls `done` of the first request in it. */
    method NextDone(l: nat) returns (id: nat, canceled: bool)
      requires Valid() && HasHeads(Now()) && l < |names.loopWq| && LoopIn(names, lists, l)
               && lists[names.localWq[l]] != []
      requires IdOf(lists[names.localWq[l]][0]) < |reqs|
      modifies this`lists, this`reqs, all
      ensures Valid() && id == IdOf(old(lists)[names.localWq[l]][0]) && Now() == CallNext(old(Now()), l, id)
      ensures canceled <==> old(reqs)[id].work == CancelledFunction
    {
      var q := TakeLocal(l);
      id := IdOf(q);
      canceled := reqs[id].work == CancelledFunction;
      var r := reqs[id];
      SetRequest(id, r.(calls := r.calls + [if canceled then Canceled else Ok]));
    }
  }
}
