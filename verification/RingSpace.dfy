/** Several lists at once. All the lists there are, by their heads: a link on its own is the head of an
    empty list, and no link is in two lists or both a head and in a list. */
module RingSpace {
  import opened RingQueue

  type Lists = map<Link, seq<Link>>

  ghost predicate Apart(m: Lists) {
    && (forall g, h :: g in m && h in m ==> g !in m[h])
    && (forall g, h, x :: g in m && h in m && x in m[g] && x in m[h] ==> g == h)
  }

  ghost predicate Within(m: Lists, all: set<Link>) {
    forall h :: h in m ==> h in all && forall i :: 0 <= i < |m[h]| ==> m[h][i] in all
  }

  /** The lists `m` are made of links of `all`. */
  ghost predicate Rings(m: Lists, all: set<Link>)
    reads all
  {
    Apart(m) && Within(m, all) && forall h :: h in m ==> Ring(h, m[h])
  }

  ghost predicate InNone(m: Lists, q: Link) {
    forall h :: h in m ==> q !in m[h]
  }

  /** A link that is in no list and heads none but, perhaps, an empty one. */
  ghost predicate Free(m: Lists, q: Link) {
    InNone(m, q) && (q in m ==> m[q] == [])
  }

  ghost function WithTail(m: Lists, h: Link, q: Link): Lists
    requires h in m
  {
    (m - {q})[h := m[h] + [q]]
  }

  lemma ApartWithTail(m: Lists, h: Link, q: Link, all: set<Link>)
    requires Apart(m) && Within(m, all) && h in m && q != h && Free(m, q) && q in all
    ensures Apart(WithTail(m, h, q)) && Within(WithTail(m, h, q), all)
  {
    var m' := WithTail(m, h, q);
    assert forall g, x :: g in m' && x in m'[g] ==> if x == q then g == h else g in m && x in m[g];
  }

  ghost function WithoutAt(m: Lists, h: Link, k: nat): Lists
    requires h in m && k < |m[h]|
  {
    m[h := m[h][..k] + m[h][k + 1..]]
  }

  lemma ApartWithout(m: Lists, h: Link, k: nat, all: set<Link>)
    requires Apart(m) && Within(m, all) && h in m && k < |m[h]|
    requires forall i, j :: 0 <= i < j < |m[h]| ==> m[h][i] != m[h][j]
    ensures var m' := WithoutAt(m, h, k); Apart(m') && Within(m', all) && m[h][k] !in m' && InNone(m', m[h][k])
  {
    var m', q, s := WithoutAt(m, h, k), m[h][k], m[h];
    var t := s[..k] + s[k + 1..];
    assert forall i :: 0 <= i < |t| ==> t[i] == s[if i < k then i else i + 1];
    assert q in s && q !in t;
    assert forall g, x :: g in m' && x in m'[g] ==> g in m && x in m[g];
  }

  ghost function Moved(m: Lists, h: Link, n: Link): Lists
    requires h in m
  {
    m[h := []][n := m[h]]
  }

  lemma ApartMoved(m: Lists, h: Link, n: Link, all: set<Link>)
    requires Apart(m) && Within(m, all) && h in m && n != h && Free(m, n) && n in all
    ensures Apart(Moved(m, h, n)) && Within(Moved(m, h, n), all)
  {
    var m' := Moved(m, h, n);
    assert forall g, x :: g in m' && x in m'[g] ==> if g == n then x in m[h] else g != h && g in m && x in m[g];
  }

  lemma Strangers(m: Lists, g: Link, h: Link)
    requires Apart(m) && g in m && h in m && g != h
    ensures g !in m[h] && h !in m[g] && forall x :: x in m[g] ==> x !in m[h]
  {
  }

  /** The lists other than that of `h` have nothing to do with it, nor with a free link. */
  lemma Elsewhere(m: Lists, g: Link, h: Link, q: Link)
    requires Apart(m) && g in m && h in m && g != h && g != q && InNone(m, q)
    ensures g !in m[h] && h !in m[g] && q !in m[g] && forall x :: x in m[g] ==> x !in m[h]
  {
  }

  /** `QUEUE_EMPTY` of a link says whether it is alone, also when it is not the head of a list. */
  method QueueEmpty(q: Link, ghost m: Lists, ghost all: set<Link>) returns (r: bool)
    requires Rings(m, all) && (q in m || !InNone(m, q))
    ensures r <==> q in m && m[q] == []
  {
    if q !in m {
      var h :| h in m && q in m[h];
      var i :| 0 <= i < |m[h]| && m[h][i] == q;
      assert Ring(h, m[h]) && m[h][i].next == LinkAt(h, m[h], i + 1);
    } else {
      assert Ring(q, m[q]);
    }
    r := q == q.next;
  }

  method InsertTail(h: Link, q: Link, ghost m: Lists, ghost all: set<Link>) returns (ghost m': Lists)
    requires Rings(m, all) && h in m && q != h && Free(m, q) && q in all
    modifies all
    ensures m' == WithTail(m, h, q) && Rings(m', all)
  {
    ghost var s := m[h];
    m' := WithTail(m, h, q);
    ApartWithTail(m, h, q, all);
    ghost var last := LinkAt(h, s, |s| - 1);
    assert last == h || last in s;
    RingQueue.InsertTail(h, q, s);
    forall g | g in m' ensures Ring(g, m'[g]) {
      if g != h {
        ghost var t := m[g];
        Elsewhere(m, g, h, q);
        assert forall i :: 0 <= i < |t| ==> t[i] in t && t[i] != h && t[i] != q && t[i] !in s;
        assert old(Ring(g, t)) && g.next == old(g.next) && g.prev == old(g.prev);
        assert forall i {:trigger t[i].next} :: 0 <= i < |t| ==> t[i].next == old(t[i].next);
        assert forall i {:trigger t[i].prev} :: 0 <= i < |t| ==> t[i].prev == old(t[i].prev);
      }
    }
  }

  lemma Neighbours(h: Link, s: seq<Link>, k: nat)
    requires Ring(h, s) && k < |s|
    ensures (s[k].prev == h || s[k].prev in s) && (s[k].next == h || s[k].next in s)
  {
    assert s[k].prev == LinkAt(h, s, k - 1) && s[k].next == LinkAt(h, s, k + 1);
  }

  /** Unlinks the element at position `k` of the list of `h`; it dangles. */
  method Remove(q: Link, ghost h: Link, ghost k: nat, ghost m: Lists, ghost all: set<Link>) returns (ghost m': Lists)
    requires Rings(m, all) && h in m && k < |m[h]| && m[h][k] == q
    modifies all
    ensures m' == WithoutAt(m, h, k) && Rings(m', all) && q !in m' && InNone(m', q)
  {
    ghost var s := m[h];
    m' := WithoutAt(m, h, k);
    ApartWithout(m, h, k, all);
    ghost var before, after := q.prev, q.next;
    Neighbours(h, s, k);
    RingQueue.Remove(q, h, s, k);
    forall g | g in m' ensures Ring(g, m'[g]) {
      if g != h {
        ghost var t := m[g];
        Strangers(m, g, h);
        assert forall i :: 0 <= i < |t| ==> t[i] in t && t[i] != h && t[i] !in s;
        assert old(Ring(g, t)) && g.next == old(g.next) && g.prev == old(g.prev);
      }
    }
  }

  method Init(q: Link, ghost m: Lists, ghost all: set<Link>) returns (ghost m': Lists)
    requires Rings(m, all) && Free(m, q) && q in all
    modifies all
    ensures m' == m[q := []] && Rings(m', all)
  {
    m' := m[q := []];
    RingQueue.Init(q);
    forall g | g in m' ensures Ring(g, m'[g]) {
      if g != q {
        ghost var t := m[g];
        assert old(Ring(g, t)) && q !in t;
        assert forall i {:trigger t[i].next} :: 0 <= i < |t| ==> t[i].next == old(t[i].next);
        assert forall i {:trigger t[i].prev} :: 0 <= i < |t| ==> t[i].prev == old(t[i].prev);
      }
    }
  }

  method Move(h: Link, n: Link, ghost m: Lists, ghost all: set<Link>) returns (ghost m': Lists)
    requires Rings(m, all) && h in m && n != h && Free(m, n) && n in all
    modifies all
    ensures m' == Moved(m, h, n) && Rings(m', all)
  {
    ghost var s := m[h];
    m' := Moved(m, h, n);
    ApartMoved(m, h, n, all);
    RingQueue.Move(h, n, s);
    forall g | g in m' ensures Ring(g, m'[g]) {
      if g != h && g != n {
        ghost var t := m[g];
        Elsewhere(m, g, h, n);
        assert old(Ring(g, t)) && g.next == old(g.next) && g.prev == old(g.prev);
        assert forall i {:trigger t[i].next} :: 0 <= i < |t| ==> t[i].next == old(t[i].next);
        assert forall i {:trigger t[i].prev} :: 0 <= i < |t| ==> t[i].prev == old(t[i].prev);
      }
    }
  }
}
