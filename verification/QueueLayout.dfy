/** How the queues of the state machine are laid out as linked lists. */
module QueueLayout {
  import opened ByteStrings
  import opened RingQueue
  import opened RingSpace
  import opened ThreadPool

  const WQ := Variable(0)
  const SLOW_WQ := Variable(1)
  const MARKER := Variable(2)
  const EXIT := Variable(3)

  /** The links: heads of queues, the two messages, and the requests. `localWq` are the local
      variables of `uv__work_done`, by loop. */
  datatype Names = Names(
    wq: Link, slowWq: Link, marker: Link, exit: Link, loopWq: seq<Link>, localWq: seq<Link>, requests: seq<Link>)

  /** Every link is what its owner says, so no two are the same. */
  ghost predicate Named(n: Names) {
    && n.wq.owner == WQ && n.slowWq.owner == SLOW_WQ && n.marker.owner == MARKER && n.exit.owner == EXIT
    && (forall l :: 0 <= l < |n.loopWq| ==> n.loopWq[l].owner == LoopQueue(l))
    && (forall l :: 0 <= l < |n.localWq| ==> n.localWq[l].owner == LocalQueue(l))
    && (forall id :: 0 <= id < |n.requests| ==> n.requests[id].owner == WorkRequest(id))
  }

  ghost function LinkOf(n: Names, item: Item): Link {
    match item
    case Request(id) => if id < |n.requests| then n.requests[id] else n.wq
    case RunSlowWork => n.marker
    case ExitMessage => n.exit
  }

  ghost function Links(n: Names, items: seq<Item>): (r: seq<Link>)
    ensures |r| == |items| && forall i :: 0 <= i < |r| ==> r[i] == LinkOf(n, items[i])
  {
    seq(|items|, i requires 0 <= i < |items| => LinkOf(n, items[i]))
  }

  ghost function Asked(ids: seq<nat>): (r: seq<Item>)
    ensures |r| == |ids| && forall i :: 0 <= i < |r| ==> r[i] == Request(ids[i])
  {
    seq(|ids|, i requires 0 <= i < |ids| => Request(ids[i]))
  }

  /** What the queue of an owner holds. */
  ghost function Holding(p: Pool, o: Owner): seq<Item> {
    match o
    case Variable(k) => if k == 0 then p.wq else if k == 1 then Asked(p.slowPending) else []
    case LoopQueue(l) => if l < |p.loops| then Asked(p.loops[l].wq) else []
    case LocalQueue(l) => if l < |p.loops| then Asked(p.loops[l].draining) else []
    case WorkRequest(_) => []
  }

  ghost predicate IsName(n: Names, g: Link) {
    match g.owner
    case Variable(k) =>
      (k == 0 && g == n.wq) || (k == 1 && g == n.slowWq) || (k == 2 && g == n.marker) || (k == 3 && g == n.exit)
    case LoopQueue(l) => l < |n.loopWq| && g == n.loopWq[l]
    case LocalQueue(l) => l < |n.localWq| && g == n.localWq[l]
    case WorkRequest(id) => id < |n.requests| && g == n.requests[id]
  }

  /** The contents of the queues, by owner. */
  type Contents = Owner -> seq<Item>

  ghost function Queues(p: Pool): Contents {
    o => Holding(p, o)
  }

  /** A list holds what its queue holds. */
  ghost predicate KeyOk(n: Names, m: Lists, c: Contents, g: Link)
    requires g in m
  {
    IsName(n, g) && m[g] == Links(n, c(g.owner))
  }

  /** All lists do, and the heads of the queues are there. */
  ghost predicate Represents(n: Names, m: Lists, c: Contents) {
    && (forall g :: g in m ==> KeyOk(n, m, c, g))
    && n.wq in m && n.slowWq in m && |n.loopWq| == |n.localWq|
    && (forall l :: 0 <= l < |n.loopWq| ==> n.loopWq[l] in m && n.localWq[l] in m)
  }

  ghost predicate AllKnown(n: Names, items: seq<Item>) {
    forall i :: 0 <= i < |items| && items[i].Request? ==> items[i].id < |n.requests|
  }

  /** All requests that the queues hold have been submitted. */
  ghost predicate Known(n: Names, c: Contents) {
    forall o :: AllKnown(n, c(o))
  }

  ghost predicate Queued(n: Names, m: Lists, c: Contents) {
    Named(n) && Represents(n, m, c) && Known(n, c)
  }

  /** The marker, when it is in no queue, and the requests that workers hold are alone. */
  ghost predicate SelfLinked(n: Names, m: Lists, p: Pool) {
    && (RunSlowWork !in p.wq ==> n.marker in m)
    && (forall w :: 0 <= w < |p.workers| && (p.workers[w].Fetched? || p.workers[w].Ran?) ==>
          p.workers[w].id < |n.requests| && n.requests[p.workers[w].id] in m)
  }

  ghost predicate NamesIn(n: Names, all: set<Link>) {
    && n.wq in all && n.slowWq in all && n.marker in all && n.exit in all
    && (forall l :: 0 <= l < |n.loopWq| ==> n.loopWq[l] in all)
    && (forall l :: 0 <= l < |n.localWq| ==> n.localWq[l] in all)
    && (forall id :: 0 <= id < |n.requests| ==> n.requests[id] in all)
  }

  ghost predicate LaidOut(n: Names, m: Lists, p: Pool) {
    Queued(n, m, Queues(p)) && |n.loopWq| == |p.loops| && SelfLinked(n, m, p)
  }

  lemma NamesDiffer(n: Names, x: Item, y: Item)
    requires Named(n) && (x.Request? ==> x.id < |n.requests|) && (y.Request? ==> y.id < |n.requests|)
    ensures LinkOf(n, x) == LinkOf(n, y) ==> x == y
    ensures IsName(n, LinkOf(n, x))
  {
  }

  ghost predicate InNoQueue(c: Contents, item: Item) {
    forall o :: item !in c(o)
  }

  /** A link is in a list only as an item of the queue. */
  lemma NotLinked(n: Names, m: Lists, c: Contents, item: Item)
    requires Queued(n, m, c) && InNoQueue(c, item) && (item.Request? ==> item.id < |n.requests|)
    ensures InNone(m, LinkOf(n, item))
  {
    var q := LinkOf(n, item);
    if g :| g in m && q in m[g] {
      var i :| 0 <= i < |m[g]| && m[g][i] == q;
      assert KeyOk(n, m, c, g) && AllKnown(n, c(g.owner));
      NamesDiffer(n, item, c(g.owner)[i]);
    }
  }

  // ----- What the list operations do to the layout

  ghost predicate SameElsewhere(c: Contents, c': Contents, o: Owner) {
    forall x :: x != o ==> c'(x) == c(x)
  }

  lemma LinksSnoc(n: Names, items: seq<Item>, item: Item)
    ensures Links(n, items + [item]) == Links(n, items) + [LinkOf(n, item)]
    ensures AllKnown(n, items) && (item.Request? ==> item.id < |n.requests|) ==> AllKnown(n, items + [item])
  {
  }

  lemma LinksWithout(n: Names, items: seq<Item>, k: nat)
    requires k < |items|
    ensures Links(n, items[..k] + items[k + 1..]) == Links(n, items)[..k] + Links(n, items)[k + 1..]
    ensures AllKnown(n, items) ==> AllKnown(n, items[..k] + items[k + 1..])
  {
  }

  lemma OwnersDiffer(n: Names, g: Link, h: Link)
    requires IsName(n, g) && IsName(n, h) && g != h
    ensures g.owner != h.owner
  {
  }

  /** Links other than the ones that an operation is about. */
  lemma Untouched(n: Names, m: Lists, c: Contents, m': Lists, c': Contents, g: Link, h: Link)
    requires g in m && g in m' && h in m && KeyOk(n, m, c, g) && KeyOk(n, m, c, h) && g != h && m'[g] == m[g]
    requires g.owner != h.owner ==> c'(g.owner) == c(g.owner)
    ensures KeyOk(n, m', c', g)
  {
  }

  lemma Appended(n: Names, m: Lists, c: Contents, c': Contents, h: Link, item: Item)
    requires Queued(n, m, c) && h in m && SameElsewhere(c, c', h.owner) && c'(h.owner) == c(h.owner) + [item]
    requires item.Request? ==> item.id < |n.requests|
    requires h.owner == WQ || h.owner == SLOW_WQ || h.owner.LoopQueue?
    ensures Queued(n, WithTail(m, h, LinkOf(n, item)), c')
  {
    var m' := WithTail(m, h, LinkOf(n, item));
    LinksSnoc(n, c(h.owner), item);
    assert KeyOk(n, m, c, h) && AllKnown(n, c(h.owner));
    forall g | g in m' ensures KeyOk(n, m', c', g) {
      if g != h { Untouched(n, m, c, m', c', g, h); }
    }
    forall o ensures AllKnown(n, c'(o)) {
      assert AllKnown(n, c(o));
    }
  }

  lemma Dropped(n: Names, m: Lists, c: Contents, c': Contents, h: Link, k: nat)
    requires Queued(n, m, c) && h in m && k < |c(h.owner)| && SameElsewhere(c, c', h.owner)
    requires c'(h.owner) == c(h.owner)[..k] + c(h.owner)[k + 1..]
    ensures k < |m[h]| && Queued(n, WithoutAt(m, h, k), c')
  {
    assert KeyOk(n, m, c, h) && AllKnown(n, c(h.owner));
    var m' := WithoutAt(m, h, k);
    LinksWithout(n, c(h.owner), k);
    forall g | g in m' ensures KeyOk(n, m', c', g) {
      if g != h { Untouched(n, m, c, m', c', g, h); }
    }
    forall o ensures AllKnown(n, c'(o)) {
      assert AllKnown(n, c(o));
    }
  }

  lemma Loosened(n: Names, m: Lists, c: Contents, q: Link)
    requires Queued(n, m, c) && IsName(n, q) && c(q.owner) == []
    ensures Queued(n, m[q := []], c)
  {
    var m' := m[q := []];
    forall g | g in m' ensures KeyOk(n, m', c, g) {
      assert g != q ==> KeyOk(n, m, c, g);
    }
  }

  lemma HandedOver(n: Names, m: Lists, c: Contents, c': Contents, h: Link, x: Link)
    requires Queued(n, m, c) && h in m && x in m && h.owner != x.owner
    requires forall o :: o != h.owner && o != x.owner ==> c'(o) == c(o)
    requires c'(h.owner) == [] && c'(x.owner) == c(h.owner)
    ensures Queued(n, Moved(m, h, x), c')
  {
    var m' := Moved(m, h, x);
    assert KeyOk(n, m, c, h) && KeyOk(n, m, c, x) && AllKnown(n, c(h.owner));
    forall g | g in m' ensures KeyOk(n, m', c', g) {
      assert g in m && KeyOk(n, m, c, g);
      if g != h && g != x {
        OwnersDiffer(n, g, h);
        OwnersDiffer(n, g, x);
        Untouched(n, m, c, m', c', g, h);
      }
    }
    forall o ensures AllKnown(n, c'(o)) {
      assert AllKnown(n, c(o));
    }
  }

  /** A new request changes nothing for the others. */
  lemma Enlarged(n: Names, m: Lists, c: Contents, q: Link)
    requires Queued(n, m, c) && q.owner == WorkRequest(|n.requests|)
    ensures Queued(n.(requests := n.requests + [q]), m, c)
  {
    var n' := n.(requests := n.requests + [q]);
    forall g | g in m ensures KeyOk(n', m, c, g) {
      assert KeyOk(n, m, c, g) && AllKnown(n, c(g.owner));
      assert Links(n', c(g.owner)) == Links(n, c(g.owner));
    }
    forall o ensures AllKnown(n', c(o)) {
      assert AllKnown(n, c(o));
    }
  }

  lemma SameContents(n: Names, m: Lists, c: Contents, c': Contents)
    requires Queued(n, m, c) && forall o :: c'(o) == c(o)
    ensures Queued(n, m, c')
  {
    forall g | g in m ensures KeyOk(n, m, c', g) {
      assert KeyOk(n, m, c, g);
    }
    forall o ensures AllKnown(n, c'(o)) {
      assert AllKnown(n, c(o));
    }
  }
}
