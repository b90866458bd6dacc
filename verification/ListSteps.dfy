/** The critical sections of the pool in terms of lists. They ask what the code asks: which link heads
    a list, whether it is the only one, and whether a link is alone. */
module ListSteps {
  import opened ByteStrings
  import opened RingQueue
  import opened RingSpace
  import opened QueueLayout
  import opened ThreadPool
  import opened ThreadPoolScheduling

  /** The shared variables. */
  datatype Vars = Vars(n: Names, lists: Lists, idle: int, slowRunning: int, workers: seq<Worker>, reqs: seq<Req>)

  ghost predicate Alone(m: Lists, q: Link) {
    q in m && m[q] == []
  }

  ghost predicate HasHeads(v: Vars) {
    && v.n.wq in v.lists && v.n.slowWq in v.lists && |v.n.localWq| == |v.n.loopWq| && |v.n.requests| == |v.reqs|
    && (forall l :: 0 <= l < |v.n.loopWq| ==> LoopIn(v.n, v.lists, l))
  }

  ghost predicate LoopIn(n: Names, m: Lists, l: nat)
    requires l < |n.loopWq| == |n.localWq|
  {
    n.loopWq[l] in m && n.localWq[l] in m
  }

  ghost predicate IsItem(q: Link) {
    q.owner == MARKER || q.owner == EXIT || q.owner.WorkRequest?
  }

  ghost predicate HasQueues(v: Vars) {
    v.n.wq in v.lists && v.n.slowWq in v.lists && v.n.wq != v.n.slowWq
  }

  // ----- Submitting

  ghost function PostTail(v: Vars, q: Link, wake: set<nat>): Vars
    requires v.n.wq in v.lists
  {
    v.(lists := WithTail(v.lists, v.n.wq, q), workers := if v.idle > 0 then Signal(v.workers, wake) else v.workers)
  }

  /** Pending slow work is scheduled by the marker, unless that is queued already. */
  ghost function SlowPost(v: Vars, q: Link, wake: set<nat>): Vars
    requires HasQueues(v) && q != v.n.wq
  {
    var v2 := v.(lists := WithTail(v.lists, v.n.slowWq, q));
    if Alone(v2.lists, v.n.marker) then PostTail(v2, v.n.marker, wake) else v2
  }

  ghost function AddRequest(v: Vars, q: Link, loop: nat, kind: Kind): Vars {
    v.(n := v.n.(requests := v.n.requests + [q]), reqs := v.reqs + [Req(loop, kind, Function, 0, [])])
  }

  /** `post` of a request with the link `q`. */
  ghost function Post(v: Vars, q: Link, loop: nat, kind: Kind, wake: set<nat>): Vars
    requires HasQueues(v) && q != v.n.wq
  {
    var v1 := AddRequest(v, q, loop, kind);
    if kind == SlowIo then SlowPost(v1, q, wake) else PostTail(v1, q, wake)
  }

  /** Another link that was somewhere still is. */
  lemma StillThere(m: Lists, h: Link, q: Link, x: Link)
    requires h in m && q != h && x != q && (x in m || !InNone(m, x))
    requires Free(m, q)
    ensures var m' := WithTail(m, h, q); x in m' || !InNone(m', x)
  {
    var m' := WithTail(m, h, q);
    if x !in m {
      var g :| g in m && x in m[g];
      assert g in m' && x in m'[g];
    }
  }

  // ----- The worker

  ghost function Lock(v: Vars, w: nat): Vars
    requires w < |v.workers|
  {
    var v1 := v.(workers := v.workers[w := Locking(false)]);
    match v.workers[w]
    case Woken => v1.(idle := v.idle - 1)
    case Locking(slow) => if slow then v1.(slowRunning := v.slowRunning - 1) else v1
    case _ => v1
  }

  predicate Full(v: Vars) {
    v.slowRunning >= (|v.workers| + 1) / 2
  }

  /** Takes the first link out of a list and leaves it alone. */
  ghost function Shift(m: Lists, h: Link): Lists
    requires h in m && m[h] != []
  {
    WithoutAt(m, h, 0)[m[h][0] := []]
  }

  lemma ShiftedHead(m: Lists, h: Link)
    requires Apart(m) && h in m && m[h] != [] && forall i, j :: 0 <= i < j < |m[h]| ==> m[h][i] != m[h][j]
    ensures Alone(Shift(m, h), m[h][0]) && Free(Shift(m, h), m[h][0])
  {
    var m', q := Shift(m, h), m[h][0];
    assert q in m[h];
    forall g | g in m' ensures q !in m'[g] {
      if g == h { assert m'[g] == m[h][1..]; }
    }
  }

  lemma ShiftElsewhere(m: Lists, h: Link, g: Link)
    requires Apart(m) && h in m && m[h] != [] && g in m && g != h
    ensures g in Shift(m, h) && Shift(m, h)[g] == m[g]
  {
    assert m[h][0] in m[h];
  }

  lemma ShiftKeepsAlone(m: Lists, h: Link, x: Link)
    requires Apart(m) && h in m && m[h] != [] && Alone(m, x)
    ensures Alone(Shift(m, h), x) && InNone(Shift(m, h), x)
  {
    var m' := Shift(m, h);
    assert forall g, y :: g in m' && y in m'[g] ==> g in m && y in m[g];
  }

  /** The worker's loop from the test on, until the mutex is released. */
  ghost function Turn(v: Vars, w: nat, wake: set<nat>): Vars
    requires HasQueues(v) && w < |v.workers|
    requires NoDup(v.lists[v.n.wq]) && v.n.wq !in v.lists[v.n.wq] && v.n.slowWq !in v.lists[v.n.wq]
    decreases if v.lists[v.n.wq] != [] && v.lists[v.n.wq][0] == v.n.marker then 1 else 0
  {
    var s := v.lists[v.n.wq];
    if s == [] || (s[0] == v.n.marker && |s| == 1 && Full(v)) then
      v.(idle := v.idle + 1, workers := v.workers[w := Sleeping])
    else if s[0] == v.n.exit then
      v.(workers := Signal(v.workers[w := Exited], wake))
    else
      var v1 := v.(lists := Shift(v.lists, v.n.wq));
      if s[0] != v.n.marker then
        v1.(workers := v.workers[w := Fetched(IdOf(s[0]), false)])
      else if Full(v) then Turn(v1.(lists := WithTail(v1.lists, v.n.wq, s[0])), w, wake)
      else if v.lists[v.n.slowWq] == [] then Turn(v1, w, wake)
      else SlowTurn(v1, w, wake)
  }

  function IdOf(q: Link): nat {
    if q.owner.WorkRequest? then q.owner.id else 0
  }

  /** Takes the first pending slow item. */
  ghost function FetchSlow(v: Vars, w: nat): Vars
    requires HasQueues(v) && w < |v.workers| && v.lists[v.n.slowWq] != []
  {
    v.(lists := Shift(v.lists, v.n.slowWq), slowRunning := v.slowRunning + 1,
       workers := v.workers[w := Fetched(IdOf(v.lists[v.n.slowWq][0]), true)])
  }

  /** And schedules the next one. */
  ghost function SlowTurn(v: Vars, w: nat, wake: set<nat>): Vars
    requires HasQueues(v) && w < |v.workers|
  {
    var s := v.lists[v.n.slowWq];
    if s == [] || s[0] == v.n.wq then v
    else
      var v1 := FetchSlow(v, w);
      if v1.lists[v.n.slowWq] == [] then v1 else PostTail(v1, v.n.marker, wake)
  }

  ghost predicate CanTurn(v: Vars, w: nat) {
    && HasQueues(v) && w < |v.workers|
    && NoDup(v.lists[v.n.wq]) && v.n.wq !in v.lists[v.n.wq] && v.n.slowWq !in v.lists[v.n.wq]
  }

  ghost predicate Waits(v: Vars)
    requires HasQueues(v)
  {
    var s := v.lists[v.n.wq];
    s == [] || (s[0] == v.n.marker && |s| == 1 && Full(v))
  }

  /** The simple turns. */
  lemma {:induction false} SimpleTurn(v: Vars, w: nat, wake: set<nat>)
    requires CanTurn(v, w)
    ensures Waits(v) ==> Turn(v, w, wake) == v.(idle := v.idle + 1, workers := v.workers[w := Sleeping])
    ensures !Waits(v) && v.lists[v.n.wq][0] == v.n.exit
            ==> Turn(v, w, wake) == v.(workers := Signal(v.workers[w := Exited], wake))
    ensures !Waits(v) && v.lists[v.n.wq][0] != v.n.exit && v.lists[v.n.wq][0] != v.n.marker
            ==> Turn(v, w, wake) == FetchFirst(v, w)
  {
  }

  /** Takes the first item, which is a request. */
  ghost function FetchFirst(v: Vars, w: nat): Vars
    requires CanTurn(v, w) && v.lists[v.n.wq] != []
  {
    v.(lists := Shift(v.lists, v.n.wq), workers := v.workers[w := Fetched(IdOf(v.lists[v.n.wq][0]), false)])
  }

  ghost predicate MarkerFirst(v: Vars)
    requires HasQueues(v)
  {
    v.lists[v.n.wq] != [] && v.lists[v.n.wq][0] == v.n.marker
  }

  /** One round of the worker's loop that finds the marker. */
  ghost predicate MarkerStep(v: Vars, v': Vars, w: nat, wake: set<nat>, turned: bool)
    requires HasQueues(v) && MarkerFirst(v) && w < |v.workers|
  {
    var v1 := v.(lists := Shift(v.lists, v.n.wq));
    if Full(v) then !turned && v.n.wq in v1.lists && v' == v1.(lists := WithTail(v1.lists, v.n.wq, v.n.marker))
    else if v.lists[v.n.slowWq] == [] then !turned && v' == v1
    else turned && HasQueues(v1) && v' == SlowTurn(v1, w, wake)
  }

  lemma {:induction false} MarkerStepTurns(v: Vars, v': Vars, w: nat, wake: set<nat>, turned: bool)
    requires CanTurn(v, w) && MarkerFirst(v) && v.n.marker != v.n.exit && !Waits(v)
    requires MarkerStep(v, v', w, wake, turned)
    ensures turned ==> v' == Turn(v, w, wake)
    ensures !turned ==> CanTurn(v', w) && !MarkerFirst(v') && Turn(v', w, wake) == Turn(v, w, wake)
  {
    MarkerTurn(v, w, wake);
  }

  /** What a worker does that finds the marker. */
  lemma {:induction false} MarkerTurn(v: Vars, w: nat, wake: set<nat>)
    requires CanTurn(v, w) && v.lists[v.n.wq] != [] && v.lists[v.n.wq][0] == v.n.marker != v.n.exit
    requires !(|v.lists[v.n.wq]| == 1 && Full(v))
    ensures var v1 := v.(lists := Shift(v.lists, v.n.wq));
            var v2 := v1.(lists := WithTail(v1.lists, v.n.wq, v.n.marker));
            && CanTurn(v1, w) && CanTurn(v2, w) && !MarkerFirst(v1) && (Full(v) ==> !MarkerFirst(v2))
            && Turn(v, w, wake) == if Full(v) then Turn(v2, w, wake)
                                   else if v.lists[v.n.slowWq] == [] then Turn(v1, w, wake) else SlowTurn(v1, w, wake)
  {
  }

  ghost function Run(v: Vars, w: nat): Vars
    requires w < |v.workers| && v.workers[w].Fetched? && v.workers[w].id < |v.reqs|
  {
    var id := v.workers[w].id;
    v.(workers := v.workers[w := Ran(id, v.workers[w].slow)],
       reqs := v.reqs[id := v.reqs[id].(runs := v.reqs[id].runs + 1)])
  }

  /** A finished request goes to its loop. */
  ghost function Finish(v: Vars, w: nat): Vars
    requires HasHeads(v) && w < |v.workers| && v.workers[w].Ran? && v.workers[w].id < |v.reqs|
    requires v.reqs[v.workers[w].id].loop < |v.n.loopWq| && LoopIn(v.n, v.lists, v.reqs[v.workers[w].id].loop)
  {
    var id := v.workers[w].id;
    v.(lists := WithTail(v.lists, v.n.loopWq[v.reqs[id].loop], v.n.requests[id]),
       workers := v.workers[w := Locking(v.workers[w].slow)],
       reqs := v.reqs[id := v.reqs[id].(work := Null)])
  }

  // ----- The loop thread

  /** Takes a link out of whatever list it is in. */
  ghost function Unlink(m: Lists, q: Link): Lists {
    map g | g in m :: Without(m[g], q)
  }

  lemma UnlinkIs(m: Lists, h: Link, k: nat)
    requires Apart(m) && h in m && k < |m[h]| && forall i, j :: 0 <= i < j < |m[h]| ==> m[h][i] != m[h][j]
    ensures WithoutAt(m, h, k) == Unlink(m, m[h][k])
  {
    var q := m[h][k];
    var m1, m2 := WithoutAt(m, h, k), Unlink(m, q);
    assert q in m[h];
    forall g | g in m ensures m1[g] == m2[g] {
      var i := WithoutDropsOne(m[g], q);
      if g == h { assert i == k; }
    }
  }

  ghost function CancelLink(v: Vars, id: nat): Vars
    requires HasHeads(v) && id < |v.reqs|
  {
    if !Alone(v.lists, v.n.requests[id]) && v.reqs[id].work != Null then v.(lists := Unlink(v.lists, v.n.requests[id]))
    else v
  }

  ghost function Report(v: Vars, l: nat, id: nat): Vars
    requires HasHeads(v) && id < |v.reqs| && l < |v.n.loopWq| && LoopIn(v.n, v.lists, l)
  {
    v.(lists := WithTail(v.lists, v.n.loopWq[l], v.n.requests[id]),
       reqs := v.reqs[id := v.reqs[id].(work := CancelledFunction)])
  }

  ghost function Drain(v: Vars, l: nat): Vars
    requires HasHeads(v) && l < |v.n.loopWq| && LoopIn(v.n, v.lists, l)
  {
    v.(lists := Moved(v.lists, v.n.loopWq[l], v.n.localWq[l]))
  }

  /** Takes a request out of the local queue and calls its `done`. */
  ghost function CallNext(v: Vars, l: nat, id: nat): Vars
    requires HasHeads(v) && l < |v.n.loopWq| && LoopIn(v.n, v.lists, l)
    requires v.lists[v.n.localWq[l]] != [] && id < |v.reqs|
  {
    var r := v.reqs[id];
    v.(lists := WithoutAt(v.lists, v.n.localWq[l], 0),
       reqs := v.reqs[id := r.(calls := r.calls + [if r.work == CancelledFunction then Canceled else Ok])])
  }
}
