/** Where every request of the pool is: in exactly one place at any time, with its work run and its
    callback called at most once. */
module ThreadPoolPlaces {
  import opened ByteStrings
  import opened ThreadPool
  import opened ThreadPoolScheduling

  datatype Place =
    | InWorkQueue
    | InSlowQueue
    | OnWorker(w: nat)
    | InCancellation(loop: nat)
    | InLoopQueue(loop: nat)
    | InDraining(loop: nat)
    | Done

  predicate Holds(w: Worker, id: nat) {
    (w.Fetched? || w.Ran?) && w.id == id
  }

  /** Request `id` is at `place`. */
  predicate IsAt(p: Pool, id: nat, place: Place) {
    match place
    case InWorkQueue => Request(id) in p.wq
    case InSlowQueue => id in p.slowPending
    case OnWorker(w) => w < |p.workers| && Holds(p.workers[w], id)
    case InCancellation(l) => l < |p.loops| && p.loops[l].cancelling == Some(id)
    case InLoopQueue(l) => l < |p.loops| && id in p.loops[l].wq
    case InDraining(l) => l < |p.loops| && id in p.loops[l].draining
    case Done => id < |p.reqs| && p.reqs[id].calls != []
  }

  /** What a request's fields say about it while it is at `place`. */
  predicate FitsPlace(r: Req, place: Place, onWorker: Worker) {
    match place
    case InWorkQueue => r.kind != SlowIo && r.work == Function && r.runs == 0 && r.calls == []
    case InSlowQueue => r.kind == SlowIo && r.work == Function && r.runs == 0 && r.calls == []
    case OnWorker(w) =>
      && (onWorker.Fetched? || onWorker.Ran?)
      && r.work == Function && r.calls == [] && r.runs == (if onWorker.Ran? then 1 else 0)
      && onWorker.slow == (r.kind == SlowIo)
    case InCancellation(l) => r.loop == l && r.work != Null && r.runs == 0 && r.calls == []
    case InLoopQueue(l) => r.loop == l && Finished(r) && r.calls == []
    case InDraining(l) => r.loop == l && Finished(r) && r.calls == []
    case Done => r.runs <= 1 && r.calls == [if r.runs == 0 then Canceled else Ok]
  }

  /** The work ran, or the request was cancelled before it could. */
  predicate Finished(r: Req) {
    (r.work == Null && r.runs == 1) || (r.work == CancelledFunction && r.runs == 0)
  }

  function WorkerAt(p: Pool, place: Place): Worker {
    if place.OnWorker? && place.w < |p.workers| then p.workers[place.w] else Exited
  }

  /** `at` gives every request its place, and nothing is anywhere else. */
  ghost predicate Placed(p: Pool, at: seq<Place>) {
    && |at| == |p.reqs|
    && (forall id :: 0 <= id < |at| ==> p.reqs[id].loop < |p.loops|)
    && (forall id :: 0 <= id < |at| ==> IsAt(p, id, at[id]))
    && (forall id :: 0 <= id < |at| ==> FitsPlace(p.reqs[id], at[id], WorkerAt(p, at[id])))
    && (forall id: nat, place :: IsAt(p, id, place) ==> id < |at| && at[id] == place)
    && NoDup(p.wq) && NoDup(p.slowPending)
    && (forall l :: 0 <= l < |p.loops| ==> NoDup(p.loops[l].wq) && NoDup(p.loops[l].draining))
  }

  ghost predicate SameHold(x: Worker, y: Worker) {
    x == y || (!x.Fetched? && !x.Ran? && !y.Fetched? && !y.Ran?)
  }

  /** A change that moves no request leaves the places as they are. */
  lemma SamePlaces(p: Pool, q: Pool, at: seq<Place>)
    requires Placed(p, at)
    requires q.reqs == p.reqs && q.loops == p.loops && q.slowPending == p.slowPending
    requires NoDup(q.wq) && forall id :: Request(id) in q.wq <==> Request(id) in p.wq
    requires |q.workers| == |p.workers| && forall w :: 0 <= w < |p.workers| ==> SameHold(q.workers[w], p.workers[w])
    ensures Placed(q, at)
  {
    forall id: nat, place ensures IsAt(p, id, place) <==> IsAt(q, id, place) {}
    forall id | 0 <= id < |at| ensures FitsPlace(q.reqs[id], at[id], WorkerAt(q, at[id])) {
      if at[id].OnWorker? { assert SameHold(q.workers[at[id].w], p.workers[at[id].w]); }
    }
  }

  /** The places of all requests but `id`, and the workers that hold them, are the same. */
  ghost predicate OthersStay(p: Pool, q: Pool, id: nat) {
    && |q.reqs| == |p.reqs| && (forall x :: 0 <= x < |p.reqs| && x != id ==> q.reqs[x] == p.reqs[x])
    && (forall x: nat, place :: x != id ==> (IsAt(q, x, place) <==> IsAt(p, x, place)))
    && (forall x: nat, w: nat :: x != id && IsAt(p, x, OnWorker(w)) ==>
          WorkerAt(q, OnWorker(w)) == WorkerAt(p, OnWorker(w)))
  }

  ghost predicate QueuesDistinct(p: Pool) {
    && NoDup(p.wq) && NoDup(p.slowPending)
    && (forall l :: 0 <= l < |p.loops| ==> NoDup(p.loops[l].wq) && NoDup(p.loops[l].draining))
  }

  lemma OneMoved(p: Pool, q: Pool, at: seq<Place>, id: nat, to: Place)
    requires Placed(p, at) && id < |at| && OthersStay(p, q, id)
    requires |q.loops| == |p.loops| && q.reqs[id].loop == p.reqs[id].loop
    requires forall place :: IsAt(q, id, place) <==> place == to
    requires FitsPlace(q.reqs[id], to, WorkerAt(q, to))
    requires QueuesDistinct(q)
    ensures Placed(q, at[id := to])
  {
    var at' := at[id := to];
    forall x | 0 <= x < |at'| ensures FitsPlace(q.reqs[x], at'[x], WorkerAt(q, at'[x])) {
      if x != id && at'[x].OnWorker? {
        assert IsAt(p, x, OnWorker(at'[x].w));
      }
    }
  }

  /** A worker takes a request out of a queue. */
  lemma TakenByWorker(p: Pool, q: Pool, at: seq<Place>, id: nat, w: nat)
    requires Placed(p, at) && id < |at| && (at[id] == InWorkQueue || at[id] == InSlowQueue)
    requires q.reqs == p.reqs && q.loops == p.loops && w < |p.workers| == |q.workers|
    requires !p.workers[w].Fetched? && !p.workers[w].Ran? && q.workers[w] == Fetched(id, p.reqs[id].kind == SlowIo)
    requires forall v :: 0 <= v < |p.workers| && v != w ==> SameHold(q.workers[v], p.workers[v])
    requires NoDup(q.wq) && NoDup(q.slowPending) && Request(id) !in q.wq && id !in q.slowPending
    requires forall x :: x != id ==> (Request(x) in q.wq <==> Request(x) in p.wq)
    requires forall x :: x != id ==> (x in q.slowPending <==> x in p.slowPending)
    ensures Placed(q, at[id := OnWorker(w)])
  {
    forall place ensures IsAt(q, id, place) <==> place == OnWorker(w) {
      if IsAt(q, id, place) && place != OnWorker(w) {
        if place.OnWorker? { assert SameHold(q.workers[place.w], p.workers[place.w]); }
        assert IsAt(p, id, place);
      }
    }
    forall x: nat, place | x != id ensures IsAt(q, x, place) <==> IsAt(p, x, place) {
      if place.OnWorker? && place.w < |p.workers| && place.w != w {
        assert SameHold(q.workers[place.w], p.workers[place.w]);
      }
    }
    OneMoved(p, q, at, id, OnWorker(w));
  }

  lemma TurnKeepsPlaces(p: Pool, w: nat, wake: set<nat>, at: seq<Place>) returns (at': seq<Place>)
    requires Placed(p, at) && w < |p.workers| && p.workers[w] == Locking(false)
    ensures Placed(Dispatch(p, w, wake), at')
    decreases if p.wq != [] && p.wq[0] == RunSlowWork then 1 else 0
  {
    at' := at;
    var q := Dispatch(p, w, wake);
    if WaitCondition(p) {
      SamePlaces(p, q, at);
    } else {
      var rest := p.wq[1..];
      match p.wq[0]
      case ExitMessage =>
        SamePlaces(p, q, at);
      case Request(id) =>
        assert IsAt(p, id, InWorkQueue);
        at' := at[id := OnWorker(w)];
        assert Request(id) !in rest && !IsAt(p, id, InSlowQueue);
        TakenByWorker(p, q, at, id, w);
      case RunSlowWork =>
        MarkerMoves(p.wq);
        if AtThreshold(p) {
          SamePlaces(p, p.(wq := rest + [RunSlowWork]), at);
          at' := TurnKeepsPlaces(p.(wq := rest + [RunSlowWork]), w, wake, at);
        } else if p.slowPending == [] {
          SamePlaces(p, p.(wq := rest), at);
          at' := TurnKeepsPlaces(p.(wq := rest), w, wake, at);
        } else {
          var id := p.slowPending[0];
          assert IsAt(p, id, InSlowQueue);
          at' := at[id := OnWorker(w)];
          assert id !in p.slowPending[1..] && !IsAt(p, id, InWorkQueue);
          TakenByWorker(p, q, at, id, w);
        }
    }
  }

  lemma RunKeepsPlaces(p: Pool, w: nat, at: seq<Place>)
    requires Placed(p, at) && Enabled(p, RunWork(w))
    ensures Placed(Apply(p, RunWork(w)), at)
  {
    var q := Apply(p, RunWork(w));
    var id := p.workers[w].id;
    assert IsAt(p, id, OnWorker(w));
    forall place ensures IsAt(q, id, place) <==> IsAt(p, id, place) {}
    OneMoved(p, q, at, id, OnWorker(w));
    assert at[id := OnWorker(w)] == at;
  }

  lemma FinishKeepsPlaces(p: Pool, w: nat, at: seq<Place>) returns (at': seq<Place>)
    requires Placed(p, at) && Enabled(p, FinishWork(w))
    ensures Placed(Apply(p, FinishWork(w)), at')
  {
    var q := Apply(p, FinishWork(w));
    var id := p.workers[w].id;
    var l := p.reqs[id].loop;
    assert IsAt(p, id, OnWorker(w));
    assert !IsAt(p, id, InLoopQueue(l));
    forall place ensures IsAt(q, id, place) <==> place == InLoopQueue(l) {
      if IsAt(q, id, place) && place != InLoopQueue(l) { assert IsAt(p, id, place); }
    }
    at' := at[id := InLoopQueue(l)];
    OneMoved(p, q, at, id, InLoopQueue(l));
  }

  lemma ReportKeepsPlaces(p: Pool, l: nat, at: seq<Place>) returns (at': seq<Place>)
    requires Placed(p, at) && Enabled(p, CancelReport(l))
    ensures Placed(Apply(p, CancelReport(l)), at')
  {
    var q := Apply(p, CancelReport(l));
    var id := p.loops[l].cancelling.value;
    assert IsAt(p, id, InCancellation(l));
    assert !IsAt(p, id, InLoopQueue(l));
    forall place ensures IsAt(q, id, place) <==> place == InLoopQueue(l) {
      if IsAt(q, id, place) && place != InLoopQueue(l) { assert IsAt(p, id, place); }
    }
    at' := at[id := InLoopQueue(l)];
    OneMoved(p, q, at, id, InLoopQueue(l));
  }

  lemma DoneKeepsPlaces(p: Pool, l: nat, at: seq<Place>) returns (at': seq<Place>)
    requires Placed(p, at) && Enabled(p, CallDone(l))
    ensures Placed(Apply(p, CallDone(l)), at')
  {
    var q := Apply(p, CallDone(l));
    var id := p.loops[l].draining[0];
    assert IsAt(p, id, InDraining(l));
    assert id !in q.loops[l].draining;
    forall place ensures IsAt(q, id, place) <==> place == Done {
      if IsAt(q, id, place) && place != Done { assert IsAt(p, id, place); }
    }
    at' := at[id := Done];
    OneMoved(p, q, at, id, Done);
  }

  lemma CancelKeepsPlaces(p: Pool, id: nat, at: seq<Place>) returns (at': seq<Place>)
    requires Placed(p, at) && Enabled(p, Cancel(id))
    ensures Placed(Apply(p, Cancel(id)), at')
  {
    at' := at;
    if Linked(p, id) && p.reqs[id].work != Null {
      var q := Apply(p, Cancel(id));
      var l := p.reqs[id].loop;
      assert IsAt(p, id, InWorkQueue) || IsAt(p, id, InSlowQueue) || IsAt(p, id, InLoopQueue(l))
             || IsAt(p, id, InDraining(l));
      CancelMoves(p, q, at, id, l);
      at' := at[id := InCancellation(l)];
      OneMoved(p, q, at, id, InCancellation(l));
    }
  }

  lemma CancelMoves(p: Pool, q: Pool, at: seq<Place>, id: nat, l: nat)
    requires Placed(p, at) && Enabled(p, Cancel(id)) && q == Apply(p, Cancel(id)) && l == p.reqs[id].loop
    requires Linked(p, id) && p.reqs[id].work != Null
    ensures forall place :: IsAt(q, id, place) <==> place == InCancellation(l)
    ensures OthersStay(p, q, id) && QueuesDistinct(q)
  {
    var loop := p.loops[l];
    WithoutNoDup(p.wq, Request(id));
    WithoutNoDup(p.slowPending, id);
    WithoutNoDup(loop.wq, id);
    WithoutNoDup(loop.draining, id);
    forall x: nat, place | x != id ensures IsAt(q, x, place) <==> IsAt(p, x, place) {
      CancelOther(p, q, id, l, x, place);
    }
    assert IsAt(p, id, InWorkQueue) || IsAt(p, id, InSlowQueue) || IsAt(p, id, InLoopQueue(l))
           || IsAt(p, id, InDraining(l));
    assert at[id] == InWorkQueue || at[id] == InSlowQueue || at[id] == InLoopQueue(l) || at[id] == InDraining(l);
    assert !IsAt(q, id, InWorkQueue) && !IsAt(q, id, InSlowQueue) && !IsAt(q, id, InLoopQueue(l))
           && !IsAt(q, id, InDraining(l));
    forall place ensures IsAt(q, id, place) <==> place == InCancellation(l) {
      if IsAt(q, id, place) && place != InCancellation(l) { assert IsAt(p, id, place); }
    }
  }

  lemma CancelOther(p: Pool, q: Pool, id: nat, l: nat, x: nat, place: Place)
    requires Enabled(p, Cancel(id)) && q == Apply(p, Cancel(id)) && l == p.reqs[id].loop
    requires Linked(p, id) && p.reqs[id].work != Null && x != id
    ensures IsAt(q, x, place) <==> IsAt(p, x, place)
  {
    var loop := p.loops[l];
    WithoutKeepsOthers(p.wq, Request(id), Request(x));
    WithoutKeepsOthers(p.slowPending, id, x);
    WithoutKeepsOthers(loop.wq, id, x);
    WithoutKeepsOthers(loop.draining, id, x);
  }

  lemma DrainKeepsPlaces(p: Pool, l: nat, at: seq<Place>) returns (at': seq<Place>)
    requires Placed(p, at) && Enabled(p, DrainBegin(l))
    ensures Placed(Apply(p, DrainBegin(l)), at')
  {
    var q := Apply(p, DrainBegin(l));
    at' := seq(|at|, id requires 0 <= id < |at| => if at[id] == InLoopQueue(l) then InDraining(l) else at[id]);
    forall id: nat, place | IsAt(q, id, place) ensures id < |at'| && at'[id] == place {
      if place == InDraining(l) {
        assert IsAt(p, id, InLoopQueue(l));
      } else {
        assert IsAt(p, id, place);
      }
    }
  }

  /** A new request comes into one of the queues. */
  lemma Arrives(p: Pool, q: Pool, at: seq<Place>, r: Req, place: Place)
    requires Placed(p, at) && q.reqs == p.reqs + [r] && q.loops == p.loops && r.loop < |p.loops|
    requires |q.workers| == |p.workers| && forall w :: 0 <= w < |p.workers| ==> SameHold(q.workers[w], p.workers[w])
    requires place == InWorkQueue || place == InSlowQueue
    requires FitsPlace(r, place, Exited) && IsAt(q, |p.reqs|, place) && QueuesDistinct(q)
    requires forall x: nat, y :: IsAt(q, x, y) && !(x == |p.reqs| && y == place) ==> IsAt(p, x, y)
    requires forall x: nat :: IsAt(p, x, InWorkQueue) ==> IsAt(q, x, InWorkQueue)
    requires forall x: nat :: IsAt(p, x, InSlowQueue) ==> IsAt(q, x, InSlowQueue)
    ensures Placed(q, at + [place])
  {
    var at' := at + [place];
    forall id | 0 <= id < |at'| ensures IsAt(q, id, at'[id]) && FitsPlace(q.reqs[id], at'[id], WorkerAt(q, at'[id])) {
      if id < |at| {
        assert IsAt(p, id, at[id]) && FitsPlace(p.reqs[id], at[id], WorkerAt(p, at[id]));
        if at[id].OnWorker? { assert SameHold(q.workers[at[id].w], p.workers[at[id].w]); }
      }
    }
  }

  lemma SubmitKeepsPlaces(p: Pool, l: nat, kind: Kind, wake: set<nat>, at: seq<Place>) returns (at': seq<Place>)
    requires Placed(p, at) && Enabled(p, SubmitWork(l, kind, wake))
    ensures Placed(Submit(p, l, kind, wake), at')
  {
    var q := Submit(p, l, kind, wake);
    var id := |p.reqs|;
    var place := if kind == SlowIo then InSlowQueue else InWorkQueue;
    at' := at + [place];
    assert !IsAt(p, id, InSlowQueue) && !IsAt(p, id, InWorkQueue);
    forall x: nat, y | IsAt(q, x, y) && !(x == id && y == place) ensures IsAt(p, x, y) {
      if y.OnWorker? { assert SameHold(q.workers[y.w], p.workers[y.w]); }
    }
    Arrives(p, q, at, Req(l, kind, Function, 0, []), place);
  }

  lemma PlacesStep(p: Pool, s: Step, at: seq<Place>) returns (at': seq<Place>)
    requires Placed(p, at) && Enabled(p, s)
    ensures Placed(Apply(p, s), at')
  {
    at' := at;
    match s
    case SubmitWork(l, kind, wake) => at' := SubmitKeepsPlaces(p, l, kind, wake, at);
    case PostExit(wake) => SamePlaces(p, Apply(p, s), at);
    case WorkerTurn(w, wake) =>
      SamePlaces(p, Enter(p, w), at);
      at' := TurnKeepsPlaces(Enter(p, w), w, wake, at);
    case SpuriousWakeup(w) => SamePlaces(p, Apply(p, s), at);
    case RunWork(w) => RunKeepsPlaces(p, w, at);
    case FinishWork(w) => at' := FinishKeepsPlaces(p, w, at);
    case Cancel(id) => at' := CancelKeepsPlaces(p, id, at);
    case CancelReport(l) => at' := ReportKeepsPlaces(p, l, at);
    case DrainBegin(l) => at' := DrainKeepsPlaces(p, l, at);
    case CallDone(l) => at' := DoneKeepsPlaces(p, l, at);
  }
}
