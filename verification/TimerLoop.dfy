/** Timers on top of the pointer heap: starting, stopping, and running those that are due. */
module TimerLoop {
  import opened UvErrors
  import opened HeapOrder
  import opened PointerHeap

  const UINT64_MAX: nat := 0xffff_ffff_ffff_ffff
  const INT_MAX: nat := 0x7fff_ffff

  type Uint64 = x: nat | x <= UINT64_MAX

  /** A deadline that would overflow is the latest there is: the wrapped sum tells. */
  function Deadline(time: Uint64, timeout: Uint64): (r: Uint64)
    ensures r == if time + timeout <= UINT64_MAX then time + timeout else UINT64_MAX
  {
    var sum := (time + timeout) % (UINT64_MAX + 1);
    if sum < timeout then UINT64_MAX else sum
  }

  /** All of a handle but its heap pointers. */
  datatype Info = Info(timeout: nat, startId: nat, repeat: nat, hasCallback: bool, active: bool, closing: bool) {
    function KeyOf(): Key {
      Key(timeout, startId)
    }
  }

  ghost function InfoOf(h: Node): Info
    reads h`timeout, h`startId, h`repeat, h`hasCallback, h`active, h`closing
  {
    Info(h.timeout, h.startId, h.repeat, h.hasCallback, h.active, h.closing)
  }

  /** What a timer callback can do to the loop's timers. */
  datatype Op =
    | Start(h: Node, hasCallback: bool, timeout: Uint64, repeat: Uint64)
    | Stop(h: Node)
    | Again(h: Node)
    | SetRepeat(h: Node, repeat: Uint64)
    | Close(h: Node)
    | UpdateTime(now: Uint64)

  /** An operation that arms no timer that is due at once. */
  predicate Quiet(op: Op) {
    match op
    case Start(_, _, timeout, _) => timeout > 0
    case UpdateTime(_) => false
    case _ => true
  }

  predicate AllQuiet(script: seq<seq<Op>>) {
    forall i :: 0 <= i < |script| ==> forall j :: 0 <= j < |script[i]| ==> Quiet(script[i][j])
  }

  /** A callback was called for `h`, whose key was `key`, at loop time `now`. */
  datatype Fired = Fired(h: Node, key: Key, now: nat)

  predicate Increasing(fired: seq<Fired>) {
    forall i, j :: 0 <= i < j < |fired| ==> Less(fired[i].key, fired[j].key)
  }

  lemma IncreasingAppend(fired: seq<Fired>, f: Fired)
    requires Increasing(fired) && (fired != [] ==> Less(fired[|fired| - 1].key, f.key))
    ensures Increasing(fired + [f])
  {
  }

  /** All timers of a loop. */
  type Timers = map<Node, Info>

  /** The operation starts or stops timer `x`. */
  predicate Moves(op: Op, x: Node) {
    (op.Start? || op.Stop? || op.Again? || op.Close?) && op.h == x
  }

  predicate Moved(ops: seq<Op>, x: Node) {
    exists i :: 0 <= i < |ops| && Moves(ops[i], x)
  }

  /** What stopping a timer and arming it again makes of it: it comes back only if it repeats. */
  ghost function Refired(info: Info, now: Uint64, startId: nat): Info
    requires info.repeat <= UINT64_MAX
  {
    if !info.hasCallback || info.repeat == 0 || info.closing then info.(active := false)
    else Info(Deadline(now, info.repeat), startId, info.repeat, true, true, false)
  }

  /** One callback: the first timer in order was active and due, it is rearmed or not as it repeats or
      not, and the others are what they were, unless the callback does something to them. */
  ghost predicate FiresFirst(a: Timers, b: Timers, f: Fired, ops: seq<Op>) {
    && f.h in a && a[f.h].active && f.key == a[f.h].KeyOf() && f.key.timeout <= f.now <= UINT64_MAX
    && (forall x :: x in a && a[x].active && x != f.h ==> Less(f.key, a[x].KeyOf()))
    && a.Keys == b.Keys
    && (forall x :: x in a && x != f.h && !Moved(ops, x) ==> b[x] == a[x].(repeat := b[x].repeat))
    && (!Moved(ops, f.h) && a[f.h].repeat <= UINT64_MAX ==>
          exists id :: b[f.h] == Refired(a[f.h], f.now, id).(repeat := b[f.h].repeat))
  }

  /** The callbacks in their order, from one state of the timers to the next. */
  ghost predicate FiringRun(worlds: seq<Timers>, fired: seq<Fired>, script: seq<seq<Op>>) {
    && |worlds| == |fired| + 1 && |fired| <= |script|
    && forall i :: 0 <= i < |fired| ==> FiresFirst(worlds[i], worlds[i + 1], fired[i], script[i])
  }

  /** Some callback of the first `n` starts or stops `x`. */
  predicate MovedBefore(script: seq<seq<Op>>, n: nat, x: Node)
    requires n <= |script|
  {
    exists i :: 0 <= i < n && Moved(script[i], x)
  }

  ghost predicate HasFired(fired: seq<Fired>, x: Node, key: Key) {
    exists i :: 0 <= i < |fired| && fired[i].h == x && fired[i].key == key
  }

  /** An active timer that no callback starts or stops either fires with the key it has or stays. */
  lemma {:induction false} FiresOrStays(worlds: seq<Timers>, fired: seq<Fired>, script: seq<seq<Op>>, x: Node, n: nat)
    requires FiringRun(worlds, fired, script) && n <= |fired|
    requires x in worlds[0] && worlds[0][x].active && !MovedBefore(script, n, x)
    ensures x in worlds[n]
    ensures HasFired(fired, x, worlds[0][x].KeyOf())
            || worlds[n][x] == worlds[0][x].(repeat := worlds[n][x].repeat)
  {
    if n > 0 {
      var i := n - 1;
      assert !MovedBefore(script, i, x) by {
        if j :| 0 <= j < i && Moved(script[j], x) { assert MovedBefore(script, n, x); }
      }
      FiresOrStays(worlds, fired, script, x, i);
      assert FiresFirst(worlds[i], worlds[i + 1], fired[i], script[i]) && !Moved(script[i], x);
    }
  }

  /** A timer that repeats is due again one interval after the time at which it fired, and one that does
      not is over, unless its callback starts or stops it. */
  lemma {:induction false} FiresAgain(worlds: seq<Timers>, fired: seq<Fired>, script: seq<seq<Op>>, i: nat)
    requires FiringRun(worlds, fired, script) && i < |fired| && !Moved(script[i], fired[i].h)
    ensures fired[i].h in worlds[i] && fired[i].h in worlds[i + 1]
    ensures var was, now, next := worlds[i][fired[i].h], fired[i].now, worlds[i + 1][fired[i].h];
            && (was.repeat == 0 ==> !next.active)
            && (0 < was.repeat <= UINT64_MAX && was.hasCallback && !was.closing ==>
                  && next.active
                  && next.timeout == if now + was.repeat < 0x1_0000_0000_0000_0000 then now + was.repeat
                                     else 0xffff_ffff_ffff_ffff)
  {
    assert FiresFirst(worlds[i], worlds[i + 1], fired[i], script[i]);
  }

  /** Of two timers that fire, the one with the earlier deadline fires first, and of two with the same
      deadline the one that was started first. */
  lemma FiresInOrder(fired: seq<Fired>, i: nat, j: nat)
    requires Increasing(fired) && i < |fired| && j < |fired| && i != j
    ensures i < j <==> fired[i].key.timeout < fired[j].key.timeout
                       || (fired[i].key.timeout == fired[j].key.timeout && fired[i].key.startId < fired[j].key.startId)
  {
    if i < j { assert Less(fired[i].key, fired[j].key); } else { assert Less(fired[j].key, fired[i].key); }
  }

  /** The run so far, without the state of the loop itself. */
  ghost predicate Recorded(before: Timers, worlds: seq<Timers>, fired: seq<Fired>, script: seq<seq<Op>>, world: Timers,
                           time: nat) {
    && FiringRun(worlds, fired, script) && worlds[0] == before && worlds[|fired|] == world && Increasing(fired)
    && (forall i :: 0 <= i < |fired| ==> fired[i].key.timeout <= fired[i].now <= time)
  }

  lemma NextWorld(before: Timers, worlds: seq<Timers>, fired: seq<Fired>, script: seq<seq<Op>>, world: Timers, f: Fired,
                  time: nat)
    requires |fired| < |script| && FiringRun(worlds, fired, script)
    requires Recorded(before, worlds, fired, script, worlds[|fired|], time)
    requires FiresFirst(worlds[|fired|], world, f, script[|fired|]) && f.key.timeout <= f.now <= time
    requires fired != [] ==> Less(fired[|fired| - 1].key, f.key)
    ensures Recorded(before, worlds + [world], fired + [f], script, world, time)
  {
    IncreasingAppend(fired, f);
  }

  /** The callbacks called are those of different timers of `due`. */
  ghost predicate FiredFrom(fired: seq<Fired>, due: set<Node>) {
    && (forall i :: 0 <= i < |fired| ==> fired[i].h in due)
    && (forall i, j :: 0 <= i < j < |fired| ==> fired[i].h != fired[j].h)
  }

  ghost predicate NoneIn(fired: seq<Fired>, due: set<Node>) {
    forall i :: 0 <= i < |fired| ==> fired[i].h !in due
  }

  lemma FiredAppend(fired: seq<Fired>, all: set<Node>, due: set<Node>, due': set<Node>, f: Fired)
    requires FiredFrom(fired, all) && NoneIn(fired, due) && due <= all && f.h in due && due' <= due - {f.h}
    ensures FiredFrom(fired + [f], all) && NoneIn(fired + [f], due')
  {
  }

  /** When callbacks start and stop nothing, the timers that fire are exactly those that are due, each
      once. */
  lemma {:induction false} ExactlyTheDue(fired: seq<Fired>, due: set<Node>, script: seq<seq<Op>>, keys: map<Node, Key>)
    requires FiredFrom(fired, due) && |fired| <= |script| && due <= keys.Keys
    requires forall x :: x in due && !MovedBefore(script, |fired|, x) ==> HasFired(fired, x, keys[x])
    requires forall i, x :: 0 <= i < |script| ==> !Moved(script[i], x)
    ensures (set f | f in fired :: f.h) == due && |fired| == |due|
    ensures forall i :: 0 <= i < |fired| ==> fired[i].key == keys[fired[i].h]
  {
    forall x | x in due
      ensures HasFired(fired, x, keys[x])
    {
      assert !MovedBefore(script, |fired|, x);
    }
    Counted(fired);
    assert (set f | f in fired :: f.h) == due;
    forall i | 0 <= i < |fired|
      ensures fired[i].key == keys[fired[i].h]
    {
      var x := fired[i].h;
      var j :| 0 <= j < |fired| && fired[j].h == x && fired[j].key == keys[x];
      assert i == j;
    }
  }

  lemma {:induction false} Counted(fired: seq<Fired>)
    requires forall i, j :: 0 <= i < j < |fired| ==> fired[i].h != fired[j].h
    ensures |set f | f in fired :: f.h| == |fired|
  {
    if fired != [] {
      var last := fired[|fired| - 1];
      var less := fired[..|fired| - 1];
      Counted(less);
      assert (set f | f in fired :: f.h) == (set f | f in less :: f.h) + {last.h};
    }
  }

  class Loop {
    const heap: Heap
    var time: Uint64
    var timerCounter: nat
    ghost var handles: set<Node>  // every timer initialised on this loop

    constructor (time: Uint64)
      ensures Valid() && handles == {} && this.time == time && fresh(heap)
    {
      heap := new Heap();
      this.time := time;
      timerCounter := 0;
      handles := {};
    }

    /** The timers in the heap are exactly the active ones; start ids tell them apart. */
    ghost predicate Valid()
      reads this, heap, heap.tree, handles
    {
      && heap.Valid()
      && NodesOf(heap.tree) <= handles
      && (forall h :: h in handles ==> (h.active <==> h in NodesOf(heap.tree)))
      && (forall h :: h in handles ==> h.repeat <= UINT64_MAX)
      && (forall h :: h in NodesOf(heap.tree) ==> h.startId < timerCounter)
      && (forall h, g :: h in NodesOf(heap.tree) && g in NodesOf(heap.tree) && h != g ==> h.startId != g.startId)
    }

    /** Nothing about the timers changes but, perhaps, `h`. */
    twostate predicate OnlyChanges(h: Node)
      reads this, handles
    {
      && handles == old(handles)
      && forall x :: x in handles && x != h ==> InfoOf(x) == old(InfoOf(x))
    }

    method TimerStop(h: Node)
      requires Valid() && h in handles
      modifies heap, handles
      ensures Valid() && OnlyChanges(h)
      ensures InfoOf(h) == old(InfoOf(h)).(active := false)
      ensures NodesOf(heap.tree) == NodesOf(old(heap.tree)) - {h}
    {
      if !h.active { return; }
      heap.Remove(h);
      h.active := false;
    }

    /** Sets the fields of a timer that is not in the heap. */
    method SetFields(h: Node, timeout: Uint64, repeat: Uint64)
      requires Valid() && h in handles && !h.active
      modifies this`timerCounter, h`timeout, h`startId, h`repeat, h`hasCallback
      ensures Valid() && timerCounter == old(timerCounter) + 1
      ensures InfoOf(h) == Info(Deadline(time, timeout), old(timerCounter), repeat, true, false, h.closing)
      ensures forall x :: x in NodesOf(heap.tree) ==> x.startId < h.startId
    {
      var clampedTimeout := (time + timeout) % (UINT64_MAX + 1);
      if clampedTimeout < timeout { clampedTimeout := UINT64_MAX; }
      assert h !in heap.tree;
      h.hasCallback := true;
      h.timeout := clampedTimeout;
      h.repeat := repeat;
      h.startId := timerCounter;
      timerCounter := timerCounter + 1;
    }

    /** Puts a timer with the newest start id into the heap. */
    method Activate(h: Node)
      requires Valid() && h in handles && !h.active && h.startId < timerCounter
      requires forall x :: x in NodesOf(heap.tree) ==> x.startId < h.startId
      modifies heap, handles
      ensures Valid() && OnlyChanges(h)
      ensures InfoOf(h) == old(InfoOf(h)).(active := true)
      ensures NodesOf(heap.tree) == NodesOf(old(heap.tree)) + {h}
    {
      assert h !in heap.tree;
      heap.Insert(h);
      Mark(h);
    }

    /** The handle's flag follows the heap. */
    method Mark(h: Node)
      requires heap.Valid() && h in NodesOf(heap.tree)
      modifies h`active
      ensures heap.Valid() && h.active
    {
      h.active := true;
    }

    /** The part of `uv_timer_start` after its checks, on a timer that is not in the heap. */
    method Arm(h: Node, timeout: Uint64, repeat: Uint64)
      requires Valid() && h in handles && !h.active
      modifies this`timerCounter, heap, handles
      ensures Valid() && OnlyChanges(h) && time == old(time) && timerCounter == old(timerCounter) + 1
      ensures InfoOf(h) == Info(Deadline(time, timeout), old(timerCounter), repeat, true, true, old(h.closing))
      ensures NodesOf(heap.tree) == NodesOf(old(heap.tree)) + {h}
    {
      SetFields(h, timeout, repeat);
      Activate(h);
    }

    method TimerStart(h: Node, hasCallback: bool, timeout: Uint64, repeat: Uint64) returns (r: int)
      requires Valid() && h in handles
      modifies this`timerCounter, heap, handles
      ensures Valid() && OnlyChanges(h) && time == old(time)
      ensures r == if old(h.closing) || !hasCallback then UV_EINVAL else 0
      ensures r != 0 ==> InfoOf(h) == old(InfoOf(h)) && timerCounter == old(timerCounter)
      ensures r != 0 ==> NodesOf(heap.tree) == NodesOf(old(heap.tree))
      ensures r == 0 ==> timerCounter == old(timerCounter) + 1
      ensures r == 0 ==> InfoOf(h) == Info(Deadline(time, timeout), old(timerCounter), repeat, true, true, false)
      ensures r == 0 ==> h.timeout == if time + timeout < 0x1_0000_0000_0000_0000 then time + timeout
                                      else 0xffff_ffff_ffff_ffff
      ensures r == 0 ==> NodesOf(heap.tree) == NodesOf(old(heap.tree)) + {h}
    {
      if h.closing || !hasCallback { return UV_EINVAL; }
      if h.active { TimerStop(h); }
      Arm(h, timeout, repeat);
      r := 0;
    }

    method TimerAgain(h: Node) returns (r: int)
      requires Valid() && h in handles
      modifies this`timerCounter, heap, handles
      ensures Valid() && OnlyChanges(h) && time == old(time)
      ensures r == if old(h.hasCallback) then 0 else UV_EINVAL
      ensures if !old(h.hasCallback) || old(h.repeat) == 0
              then InfoOf(h) == old(InfoOf(h)) && timerCounter == old(timerCounter)
                   && NodesOf(heap.tree) == NodesOf(old(heap.tree))
              else if old(h.closing)
              then InfoOf(h) == old(InfoOf(h)).(active := false) && timerCounter == old(timerCounter)
                   && NodesOf(heap.tree) == NodesOf(old(heap.tree)) - {h}
              else InfoOf(h) == Info(Deadline(time, old(h.repeat)), old(timerCounter), old(h.repeat), true, true, false)
                   && timerCounter == old(timerCounter) + 1 && NodesOf(heap.tree) == NodesOf(old(heap.tree)) + {h}
                   && h.timeout == if time + old(h.repeat) < 0x1_0000_0000_0000_0000 then time + old(h.repeat)
                                   else 0xffff_ffff_ffff_ffff
    {
      if !h.hasCallback { return UV_EINVAL; }
      if h.repeat != 0 {
        TimerStop(h);
        var _ := TimerStart(h, h.hasCallback, h.repeat, h.repeat);
      }
      r := 0;
    }

    /** How long the loop may sleep: no longer than until the earliest deadline. */
    method NextTimeout() returns (r: int)
      requires Valid()
      ensures r == -1 <==> NodesOf(heap.tree) == {}
      ensures r == 0 <==> exists h :: h in NodesOf(heap.tree) && h.timeout <= time
      ensures r > 0 ==> forall h :: h in NodesOf(heap.tree) ==> time + r <= h.timeout
      ensures 0 < r < 0x7fff_ffff ==> exists h :: h in NodesOf(heap.tree) && h.timeout == time + r
      ensures -1 <= r <= 0x7fff_ffff
    {
      if heap.min == null {
        assert heap.tree == [];
        return -1;
      }
      var handle := heap.min;
      assert handle == heap.tree[0] && handle in NodesOf(heap.tree);
      forall h | h in NodesOf(heap.tree) ensures handle.timeout <= h.timeout { heap.MinIsLeast(h); }
      if handle.timeout <= time { return 0; }
      var diff := handle.timeout - time;
      if diff > INT_MAX { diff := INT_MAX; }
      r := diff;
    }

    // ----- Running timers

    ghost predicate OpFits(op: Op)
      reads this`handles
    {
      op.UpdateTime? || op.h in handles
    }

    ghost predicate OpsFit(ops: seq<Op>)
      reads this`handles
    {
      forall i :: 0 <= i < |ops| ==> OpFits(ops[i])
    }

    /** Every timer in the heap comes after `floor`, and so will every timer started from now on. */
    ghost predicate Passed(floor: Key)
      reads this, heap, heap.tree
    {
      && floor.timeout <= time && floor.startId < timerCounter
      && forall x :: x in NodesOf(heap.tree) ==> Less(floor, x.KeyOf())
    }

    ghost function Now(): Timers
      reads this`handles, handles
    {
      map h | h in handles :: InfoOf(h)
    }

    ghost function Due(): set<Node>
      reads this, heap, heap.tree
    {
      set x | x in NodesOf(heap.tree) && x.timeout <= time
    }

    method PerformStart(h: Node, hasCallback: bool, timeout: Uint64, repeat: Uint64, ghost floor: Key)
      requires Valid() && h in handles && Passed(floor)
      modifies this`timerCounter, heap, handles
      ensures Valid() && handles == old(handles) && Passed(floor) && time == old(time)
      ensures timeout > 0 && time < UINT64_MAX ==> Due() <= old(Due())
      ensures forall x :: x in handles && x != h ==> InfoOf(x) == old(InfoOf(x))
    {
      ghost var rest := NodesOf(heap.tree) - {h};
      var _ := TimerStart(h, hasCallback, timeout, repeat);
      assert forall x :: x in rest ==> InfoOf(x) == old(InfoOf(x));
    }

    method PerformAgain(h: Node, ghost floor: Key)
      requires Valid() && h in handles && Passed(floor)
      modifies this`timerCounter, heap, handles
      ensures Valid() && handles == old(handles) && Passed(floor) && time == old(time)
      ensures time < UINT64_MAX ==> Due() <= old(Due())
      ensures forall x :: x in handles && x != h ==> InfoOf(x) == old(InfoOf(x))
      ensures InfoOf(h) == if old(h.hasCallback) && old(h.repeat) != 0
                           then Refired(old(InfoOf(h)), time, old(timerCounter)) else old(InfoOf(h))
    {
      ghost var rest := NodesOf(heap.tree) - {h};
      var _ := TimerAgain(h);
      assert forall x :: x in rest ==> InfoOf(x) == old(InfoOf(x));
    }

    method PerformClose(h: Node, ghost floor: Key)
      requires Valid() && h in handles && Passed(floor)
      modifies heap, handles
      ensures Valid() && handles == old(handles) && Passed(floor) && Due() <= old(Due())
      ensures forall x :: x in handles && x != h ==> InfoOf(x) == old(InfoOf(x))
    {
      h.closing := true;
      PerformStop(h, floor);
    }

    method PerformStop(h: Node, ghost floor: Key)
      requires Valid() && h in handles && Passed(floor)
      modifies heap, handles
      ensures Valid() && handles == old(handles) && Passed(floor) && Due() <= old(Due())
      ensures forall x :: x in handles && x != h ==> InfoOf(x) == old(InfoOf(x))
    {
      ghost var rest := NodesOf(heap.tree) - {h};
      TimerStop(h);
      assert forall x :: x in rest ==> InfoOf(x) == old(InfoOf(x));
    }

    method Perform(op: Op, ghost floor: Key)
      requires Valid() && OpFits(op) && Passed(floor)
      modifies this`time, this`timerCounter, heap, handles
      ensures Valid() && handles == old(handles) && Passed(floor) && time >= old(time)
      ensures Quiet(op) && old(time) < UINT64_MAX ==> time == old(time) && Due() <= old(Due())
      ensures forall x :: x in handles && !Moves(op, x) ==> InfoOf(x) == old(InfoOf(x)).(repeat := x.repeat)
    {
      match op {
        case Start(h, hasCallback, timeout, repeat) => PerformStart(h, hasCallback, timeout, repeat, floor);
        case Stop(h) => PerformStop(h, floor);
        case Again(h) => PerformAgain(h, floor);
        case SetRepeat(h, repeat) => h.repeat := repeat;
        case Close(h) => PerformClose(h, floor);
        case UpdateTime(now) => if time < now { time := now; }
      }
    }

    method Callback(ops: seq<Op>, ghost floor: Key)
      requires Valid() && Passed(floor) && OpsFit(ops)
      modifies this`time, this`timerCounter, heap, handles
      ensures Valid() && handles == old(handles) && Passed(floor) && time >= old(time)
      ensures (forall i :: 0 <= i < |ops| ==> Quiet(ops[i])) && old(time) < UINT64_MAX
              ==> time == old(time) && Due() <= old(Due())
      ensures forall x :: x in handles && !Moved(ops, x) ==> InfoOf(x) == old(InfoOf(x)).(repeat := x.repeat)
    {
      for n := 0 to |ops|
        invariant Valid() && handles == old(handles) && Passed(floor) && time >= old(time)
        invariant (forall i :: 0 <= i < |ops| ==> Quiet(ops[i])) && old(time) < UINT64_MAX
                  ==> time == old(time) && Due() <= old(Due())
        invariant forall x :: x in handles && !Moved(ops, x) ==> InfoOf(x) == old(InfoOf(x)).(repeat := x.repeat)
      {
        assert forall x :: Moves(ops[n], x) ==> Moved(ops, x);
        Perform(ops[n], floor);
      }
    }

    /** Takes the earliest timer out of the heap, re-arms it if it repeats, and reports its key. */
    method FireMin() returns (f: Fired)
      requires Valid() && heap.min != null && heap.min.timeout <= time
      modifies this`timerCounter, heap, handles
      ensures Valid() && handles == old(handles) && time == old(time)
      ensures f == Fired(old(heap.min), old(heap.min.KeyOf()), time) && f.h in old(NodesOf(heap.tree))
      ensures Passed(f.key)
      ensures time < UINT64_MAX ==> Due() <= old(Due()) - {f.h}
      ensures f.key.timeout <= f.now
      ensures forall x :: x in NodesOf(old(heap.tree)) && x != f.h ==> Less(f.key, old(x.KeyOf()))
      ensures forall x :: x in handles && x != f.h ==> InfoOf(x) == old(InfoOf(x))
      ensures InfoOf(f.h) == Refired(old(InfoOf(f.h)), time, old(timerCounter))
    {
      var handle := heap.min;
      f := Fired(handle, Key(handle.timeout, handle.startId), time);
      assert handle == heap.tree[0] && handle in NodesOf(heap.tree);
      forall x | x in NodesOf(heap.tree) && x != handle ensures Less(f.key, x.KeyOf()) { heap.MinIsLeast(x); }
      StopFirst(handle, f.key);
      assert handle !in Due();
      ghost var due := Due();
      PerformAgain(handle, f.key);
    }

    method StopFirst(h: Node, ghost floor: Key)
      requires Valid() && h in handles && floor.timeout <= time && floor.startId < timerCounter
      requires forall x :: x in NodesOf(heap.tree) && x != h ==> Less(floor, x.KeyOf())
      modifies heap, handles
      ensures Valid() && handles == old(handles) && Passed(floor) && Due() == old(Due()) - {h}
      ensures forall x :: x in handles && x != h ==> InfoOf(x) == old(InfoOf(x))
      ensures InfoOf(h) == old(InfoOf(h)).(active := false)
    {
      ghost var rest := NodesOf(heap.tree) - {h};
      TimerStop(h);
      assert forall x :: x in rest ==> InfoOf(x) == old(InfoOf(x));
    }

    /** One round of the loop: the earliest timer fires and its callback does `ops`. */
    method RunOne(ops: seq<Op>) returns (f: Fired)
      requires Valid() && heap.min != null && heap.min.timeout <= time && OpsFit(ops)
      modifies this`time, this`timerCounter, heap, handles
      ensures Valid() && handles == old(handles) && time >= old(time)
      ensures f == Fired(old(heap.min), old(heap.min.KeyOf()), old(time)) && f.h in old(NodesOf(heap.tree))
      ensures Passed(f.key)
      ensures (forall i :: 0 <= i < |ops| ==> Quiet(ops[i])) && old(time) < UINT64_MAX
              ==> time == old(time) && Due() <= old(Due()) - {f.h}
      ensures FiresFirst(old(Now()), Now(), f, ops)
    {
      f := FireMin();
      Callback(ops, f.key);
    }

    /** Runs the timers that are due. The `i`-th callback called does what `script[i]` says, which may
        be anything; `done` tells whether the loop came to its end before the script did. `worlds` are
        the timers before and after each callback. */
    method RunTimers(script: seq<seq<Op>>) returns (fired: seq<Fired>, done: bool, ghost worlds: seq<Timers>)
      requires Valid() && ScriptFits(script)
      modifies this`time, this`timerCounter, heap, handles
      ensures Valid() && handles == old(handles)
      // Each callback is that of the first timer in order, which is due.
      ensures FiringRun(worlds, fired, script) && worlds[0] == old(Now()) && worlds[|fired|] == Now()
      ensures Increasing(fired)
      ensures forall i :: 0 <= i < |fired| ==> fired[i].key.timeout <= fired[i].now <= time
      ensures done ==> forall x :: x in NodesOf(heap.tree) ==> x.timeout > time
      ensures !done ==> |fired| == |script| && exists x :: x in NodesOf(heap.tree) && x.timeout <= time
      // A timer that is due fires, with the key it has, unless a callback starts or stops it.
      ensures done ==> forall x :: x in old(Due()) && !MovedBefore(script, |fired|, x) ==>
                                     HasFired(fired, x, old(x.KeyOf()))
      // Callbacks that arm nothing due let the loop end after as many calls as timers were due.
      ensures AllQuiet(script) && old(time) < UINT64_MAX ==> FiredFrom(fired, old(Due())) && |fired| <= |old(Due())|
      ensures AllQuiet(script) && old(time) < UINT64_MAX && |script| >= |old(Due())| ==> done
    {
      ghost var before, due, was := Now(), Due(), time;
      fired, done, worlds := RunLoop(script, before, due, AllQuiet(script) && time < UINT64_MAX);
      if done { AllDueFired(due, before, was, worlds, fired, script); }
    }

    /** With callbacks that do nothing, the timers that are due fire, each once, and no others. */
    method RunIdle() returns (fired: seq<Fired>)
      requires Valid() && time < UINT64_MAX
      modifies this`time, this`timerCounter, heap, handles
      ensures Valid() && handles == old(handles)
      ensures (set f | f in fired :: f.h) == old(Due()) && |fired| == |old(Due())| && Increasing(fired)
      ensures forall i :: 0 <= i < |fired| ==>
                fired[i].h in old(Now()) && fired[i].key == old(Now())[fired[i].h].KeyOf()
      ensures forall x :: x in NodesOf(heap.tree) ==> x.timeout > time
    {
      ghost var due, before := Due(), Now();
      Members(heap.tree);
      Subset(due, NodesOf(heap.tree));
      var script: seq<seq<Op>> := seq(heap.nelts, _ => []);
      var done; ghost var worlds;
      fired, done, worlds := RunTimers(script);
      ghost var keys := map h | h in before :: before[h].KeyOf();
      ExactlyTheDue(fired, due, script, keys);
    }

    lemma {:induction false} Members(t: seq<Node>)
      ensures |NodesOf(t)| <= |t|
    {
      if t != [] {
        Members(t[1..]);
        assert NodesOf(t) == {t[0]} + NodesOf(t[1..]);
      } else {
        assert NodesOf(t) == {};
      }
    }

    /** The loop, with what it keeps. */
    method RunLoop(script: seq<seq<Op>>, ghost before: Timers, ghost due: set<Node>, ghost quiet: bool)
      returns (fired: seq<Fired>, done: bool, ghost worlds: seq<Timers>)
      requires Valid() && ScriptFits(script) && before == Now() && due == Due()
      requires quiet ==> AllQuiet(script) && time < UINT64_MAX
      modifies this`time, this`timerCounter, heap, handles
      ensures Valid() && handles == old(handles) && time >= old(time)
      ensures SoFar(before, worlds, fired, script)
      ensures quiet ==> time == old(time) && QuietSoFar(due, fired)
      ensures done ==> forall x :: x in NodesOf(heap.tree) ==> x.timeout > time
      ensures !done ==> |fired| == |script| && heap.min in Due()
    {
      fired, done, worlds := [], false, [Now()];
      while true
        invariant Valid() && handles == old(handles) && time >= old(time) && ScriptFits(script)
        invariant SoFar(before, worlds, fired, script)
        invariant quiet ==> time == old(time) && QuietSoFar(due, fired)
        decreases |script| - |fired|
      {
        var more := MinIsDue();
        if !more { return fired, true, worlds; }
        if |fired| == |script| { return fired, false, worlds; }
        fired, worlds := Round(script, fired, worlds, before, due, quiet);
      }
    }

    ghost predicate ScriptFits(script: seq<seq<Op>>)
      reads this`handles
    {
      forall i :: 0 <= i < |script| ==> OpsFit(script[i])
    }

    /** The callbacks called so far, and the timers now. */
    ghost predicate SoFar(before: Timers, worlds: seq<Timers>, fired: seq<Fired>, script: seq<seq<Op>>)
      reads this, heap, heap.tree, handles
    {
      && Recorded(before, worlds, fired, script, Now(), time)
      && (fired != [] ==> Passed(fired[|fired| - 1].key))
    }

    /** As long as no callback arms a timer that is due, there are fewer of these with every call. */
    ghost predicate QuietSoFar(due: set<Node>, fired: seq<Fired>)
      reads this, heap, heap.tree
    {
      && Due() <= due && |Due()| + |fired| <= |due| && FiredFrom(fired, due) && NoneIn(fired, Due())
    }

    method Round(script: seq<seq<Op>>, fired: seq<Fired>, ghost worlds: seq<Timers>, ghost before: Timers,
                 ghost due: set<Node>, ghost quiet: bool)
      returns (fired': seq<Fired>, ghost worlds': seq<Timers>)
      requires Valid() && heap.min != null && heap.min.timeout <= time && heap.min in Due()
      requires SoFar(before, worlds, fired, script) && |fired| < |script| && OpsFit(script[|fired|])
      requires quiet ==> AllQuiet(script) && time < UINT64_MAX && QuietSoFar(due, fired)
      modifies this`time, this`timerCounter, heap, handles
      ensures Valid() && handles == old(handles) && time >= old(time) && |fired'| == |fired| + 1
      ensures SoFar(before, worlds', fired', script)
      ensures quiet ==> time == old(time) && QuietSoFar(due, fired')
    {
      ghost var now, h := Due(), heap.min;
      assert fired != [] ==> Passed(fired[|fired| - 1].key);
      var f := RunOne(script[|fired|]);
      NextWorld(before, worlds, fired, script, Now(), f, time);
      if quiet { QuietNext(fired, due, now, Due(), f); }
      fired', worlds' := fired + [f], worlds + [Now()];
    }

    /** Whether the first timer in order is due; if it is not, none is. */
    method MinIsDue() returns (due: bool)
      requires Valid()
      ensures due ==> heap.min != null && heap.min.timeout <= time && heap.min in Due()
      ensures !due ==> forall x :: x in NodesOf(heap.tree) ==> x.timeout > time
    {
      if heap.min == null {
        assert heap.tree == [];
        return false;
      }
      var handle := heap.min;
      assert handle == heap.tree[0] && handle in NodesOf(heap.tree);
      forall x | x in NodesOf(heap.tree) ensures x.timeout >= handle.timeout { heap.MinIsLeast(x); }
      due := handle.timeout <= time;
    }

    /** At the end of the loop, the timers that were due at `was` and that nothing moved have fired. */
    lemma AllDueFired(due: set<Node>, before: Timers, was: nat, worlds: seq<Timers>, fired: seq<Fired>,
                      script: seq<seq<Op>>)
      requires Valid() && was <= time && forall x :: x in NodesOf(heap.tree) ==> x.timeout > time
      requires FiringRun(worlds, fired, script) && worlds[0] == before && worlds[|fired|] == Now()
      requires forall x :: x in due ==> x in before && before[x].active && before[x].timeout <= was
      ensures forall x :: x in due && !MovedBefore(script, |fired|, x)
                          ==> HasFired(fired, x, before[x].KeyOf())
    {
      forall x | x in due && !MovedBefore(script, |fired|, x)
        ensures HasFired(fired, x, before[x].KeyOf())
      {
        FiresOrStays(worlds, fired, script, x, |fired|);
        assert x in Now() && x in handles;
      }
    }

    lemma QuietNext(fired: seq<Fired>, all: set<Node>, due: set<Node>, due': set<Node>, f: Fired)
      requires FiredFrom(fired, all) && NoneIn(fired, due) && due <= all && |due| + |fired| <= |all|
      requires f.h in due && due' <= due - {f.h}
      ensures FiredFrom(fired + [f], all) && NoneIn(fired + [f], due') && due' <= all && |due'| + |fired + [f]| <= |all|
    {
      Smaller(due', due, f.h);
      FiredAppend(fired, all, due, due', f);
    }

    lemma Subset(a: set<Node>, b: set<Node>)
      requires a <= b
      ensures |a| <= |b|
    {
      if x :| x in a { Subset(a - {x}, b - {x}); }
    }

    lemma Smaller(a: set<Node>, b: set<Node>, x: Node)
      requires a <= b - {x} && x in b
      ensures |a| <= |b| - 1
    {
      Subset(a, b - {x});
    }
  }
}
