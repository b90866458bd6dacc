/** The circular doubly linked lists of libuv. A list is a head link and the links reachable from it;
    the operations rewrite `next` and `prev` fields only. */
module RingQueue {

  /** What a link is part of: a variable of the pool, the queue of an event loop, the local queue of a
      loop's thread, or a request. */
  datatype Owner = Variable(n: nat) | LoopQueue(loop: nat) | LocalQueue(loop: nat) | WorkRequest(id: nat)

  class Link {
    const owner: Owner
    var next: Link
    var prev: Link

    /** A link on its own is an empty list. */
    constructor (owner: Owner)
      ensures Ring(this, []) && this.owner == owner
    {
      this.owner := owner;
      next := this;
      prev := this;
    }
  }

  /** Going round the list: the link after and before position `i`, where the head stands at -1
      and again at `|s|`. */
  ghost function LinkAt(h: Link, s: seq<Link>, i: int): Link {
    if 0 <= i < |s| then s[i] else h
  }

  /** The list with head `h` holds exactly the links `s`, in this order. */
  ghost predicate Ring(h: Link, s: seq<Link>)
    reads h, s
  {
    && h !in s
    && (forall i, j :: 0 <= i < j < |s| ==> s[i] != s[j])
    && h.next == LinkAt(h, s, 0)
    && h.prev == LinkAt(h, s, |s| - 1)
    && (forall i {:trigger s[i].next} :: 0 <= i < |s| ==> s[i].next == LinkAt(h, s, i + 1))
    && (forall i {:trigger s[i].prev} :: 0 <= i < |s| ==> s[i].prev == LinkAt(h, s, i - 1))
  }

  method IsEmpty(h: Link, ghost s: seq<Link>) returns (r: bool)
    requires Ring(h, s)
    ensures r <==> s == []
  {
    r := h == h.next;
  }

  method Head(h: Link, ghost s: seq<Link>) returns (q: Link)
    requires Ring(h, s) && s != []
    ensures q == s[0]
  {
    q := h.next;
  }

  /** Makes a link a list of its own, whatever it was linked to. */
  method Init(q: Link)
    modifies q
    ensures Ring(q, [])
  {
    q.next := q;
    q.prev := q;
  }

  method InsertTail(h: Link, q: Link, ghost s: seq<Link>)
    requires Ring(h, s) && q != h && q !in s
    modifies h, q, LinkAt(h, s, |s| - 1)
    ensures Ring(h, s + [q])
  {
    q.next := h;
    q.prev := h.prev;
    q.prev.next := q;
    h.prev := q;
    ghost var t := s + [q];
    assert forall i :: 0 <= i < |s| ==> t[i] == s[i];
    forall i | 0 <= i < |t|
      ensures t[i].next == LinkAt(h, t, i + 1) && t[i].prev == LinkAt(h, t, i - 1)
    {
      assert i < |s| ==> s[i].prev == LinkAt(h, s, i - 1);
    }
  }

  method InsertHead(h: Link, q: Link, ghost s: seq<Link>)
    requires Ring(h, s) && q != h && q !in s
    modifies h, q, LinkAt(h, s, 0)
    ensures Ring(h, [q] + s)
  {
    q.next := h.next;
    q.prev := h;
    q.next.prev := q;
    h.next := q;
    ghost var t := [q] + s;
    assert forall i :: 0 <= i < |s| ==> t[i + 1] == s[i];
    forall i | 0 <= i < |t|
      ensures t[i].next == LinkAt(h, t, i + 1) && t[i].prev == LinkAt(h, t, i - 1)
    {
      if i > 0 { assert t[i] == s[i - 1]; }
    }
  }

  /** Unlinks the element at position `k`; its own fields keep pointing into the list. */
  method Remove(q: Link, ghost h: Link, ghost s: seq<Link>, ghost k: nat)
    requires Ring(h, s) && k < |s| && s[k] == q
    modifies q.prev, q.next
    ensures Ring(h, s[..k] + s[k + 1..])
    ensures q.next == old(q.next) && q.prev == old(q.prev)
  {
    q.prev.next := q.next;
    q.next.prev := q.prev;
    assert forall i {:trigger s[i].next} :: 0 <= i < |s| && i != k ==>
             s[i].next == LinkAt(h, s, if i + 1 == k then k + 1 else i + 1);
    assert forall i {:trigger s[i].prev} :: 0 <= i < |s| && i != k ==>
             s[i].prev == LinkAt(h, s, if i - 1 == k then k - 1 else i - 1);
    RingWithout(h, s, k);
  }

  /** Links that skip position `k` are the ring without it. */
  lemma RingWithout(h: Link, s: seq<Link>, k: nat)
    requires k < |s| && h !in s && forall i, j :: 0 <= i < j < |s| ==> s[i] != s[j]
    requires h.next == LinkAt(h, s, if k == 0 then 1 else 0)
    requires h.prev == LinkAt(h, s, if k == |s| - 1 then k - 1 else |s| - 1)
    requires forall i {:trigger s[i].next} :: 0 <= i < |s| && i != k ==>
             s[i].next == LinkAt(h, s, if i + 1 == k then k + 1 else i + 1)
    requires forall i {:trigger s[i].prev} :: 0 <= i < |s| && i != k ==>
             s[i].prev == LinkAt(h, s, if i - 1 == k then k - 1 else i - 1)
    ensures Ring(h, s[..k] + s[k + 1..])
  {
    var t := s[..k] + s[k + 1..];
    forall i {:trigger t[i]} | 0 <= i < |t| ensures t[i] == s[if i < k then i else i + 1] {}
    forall i | -1 <= i <= |t|
      ensures LinkAt(h, t, i) == LinkAt(h, s, if i < k then i else i + 1)
    {
    }
  }

  lemma SuffixRing(n: Link, s: seq<Link>, k: nat)
    requires k < |s| && n !in s && forall i, j :: 0 <= i < j < |s| ==> s[i] != s[j]
    requires n.next == s[k] && n.prev == s[|s| - 1]
    requires forall i {:trigger s[i].next} :: k <= i < |s| ==> s[i].next == if i + 1 < |s| then s[i + 1] else n
    requires forall i {:trigger s[i].prev} :: k <= i < |s| ==> s[i].prev == if i > k then s[i - 1] else n
    ensures Ring(n, s[k..])
  {
    var b := s[k..];
    forall i | 0 <= i < |b|
      ensures b[i].next == LinkAt(n, b, i + 1) && b[i].prev == LinkAt(n, b, i - 1)
    {
      assert b[i] == s[k + i];
    }
  }

  /** Cuts the list before its element `q`; `n` becomes the head of the second part. */
  method Split(h: Link, q: Link, n: Link, ghost s: seq<Link>, ghost k: nat)
    requires Ring(h, s) && k < |s| && s[k] == q
    requires n != h && n !in s
    modifies h, n, s
    ensures Ring(h, s[..k]) && Ring(n, s[k..])
  {
    n.prev := h.prev;
    n.prev.next := n;
    n.next := q;
    h.prev := q.prev;
    h.prev.next := h;
    q.prev := n;
    assert forall i {:trigger s[i].next} :: k <= i < |s| ==> s[i].next == if i + 1 < |s| then s[i + 1] else n;
    assert forall i {:trigger s[i].prev} :: k <= i < |s| ==> s[i].prev == if i > k then s[i - 1] else n;
    SuffixRing(n, s, k);
  }

  /** Hands the whole list over to `n` and leaves `h` empty. */
  method Move(h: Link, n: Link, ghost s: seq<Link>)
    requires Ring(h, s) && n != h && n !in s
    modifies h, n, s
    ensures Ring(n, s) && Ring(h, [])
  {
    if h.next == h {
      Init(n);
    } else {
      var q := h.next;
      Split(h, q, n, s, 0);
      assert s[0..] == s && s[..0] == [];
    }
  }

  /** Appends the elements of `n`'s list to `h`'s; `n` itself drops out. */
  method Add(h: Link, n: Link, ghost s: seq<Link>, ghost t: seq<Link>)
    requires Ring(h, s) && Ring(n, t)
    requires h != n && n !in s && h !in t && t != []
    requires forall i, j :: 0 <= i < |s| && 0 <= j < |t| ==> s[i] != t[j]
    modifies h, n, s, t
    ensures Ring(h, s + t)
  {
    ghost var u := s + t;
    h.prev.next := n.next;
    n.next.prev := h.prev;
    h.prev := n.prev;
    h.prev.next := h;
    assert forall i :: 0 <= i < |u| ==> u[i] == if i < |s| then s[i] else t[i - |s|];
    forall i | 0 <= i < |u|
      ensures u[i].next == LinkAt(h, u, i + 1) && u[i].prev == LinkAt(h, u, i - 1)
    {
      if i < |s| { assert u[i] == s[i]; } else { assert u[i] == t[i - |s|]; }
    }
  }
}
