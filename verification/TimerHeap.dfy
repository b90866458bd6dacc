/** The order that makes a level-order sequence a heap, without pointers. Positions are counted from
    1, so the children of position `i` are `2 * i` and `2 * i + 1`. */
module HeapOrder {

  /** What timers are compared by. */
  datatype Key = Key(timeout: nat, startId: nat)

  predicate Less(a: Key, b: Key) {
    a.timeout < b.timeout || (a.timeout == b.timeout && a.startId < b.startId)
  }

  predicate Above(ks: seq<Key>, p: int, m: int)
    requires 1 <= p <= |ks| && 1 <= m <= |ks|
  {
    !Less(ks[m - 1], ks[p - 1])
  }

  predicate Ordered(ks: seq<Key>) {
    forall m :: 2 <= m <= |ks| ==> Above(ks, m / 2, m)
  }

  /** In order except between `k` and its parent; `k`'s children are not below `k`'s parent. */
  predicate OrderedBelow(ks: seq<Key>, k: int) {
    && (forall m :: 2 <= m <= |ks| && m != k ==> Above(ks, m / 2, m))
    && (forall m :: 4 <= m <= |ks| && m / 2 == k ==> Above(ks, k / 2, m))
  }

  /** In order except between `k` and its parent and between `k` and its children. */
  predicate OrderedAround(ks: seq<Key>, k: int) {
    && (forall m :: 2 <= m <= |ks| && m != k && m / 2 != k ==> Above(ks, m / 2, m))
    && (forall m :: 4 <= m <= |ks| && m / 2 == k ==> Above(ks, k / 2, m))
  }

  function Swap<T>(s: seq<T>, i: int, j: int): (r: seq<T>)
    requires 1 <= i <= |s| && 1 <= j <= |s|
    ensures |r| == |s|
  {
    s[i - 1 := s[j - 1]][j - 1 := s[i - 1]]
  }

  lemma SwapUp(ks: seq<Key>, k: int)
    requires 2 <= k <= |ks| && OrderedBelow(ks, k) && Less(ks[k - 1], ks[k / 2 - 1])
    ensures OrderedBelow(Swap(ks, k / 2, k), k / 2)
  {
    var p := k / 2;
    var r := Swap(ks, p, k);
    forall m | 2 <= m <= |ks| && m != p ensures Above(r, m / 2, m) {
      if m / 2 == p && m != k {
        assert Above(ks, p, m);
      } else if m / 2 == k {
        assert Above(ks, p, m);
      } else if m != k {
        assert Above(ks, m / 2, m);
      }
    }
    forall m | 4 <= m <= |ks| && m / 2 == p ensures Above(r, p / 2, m) {
      assert Above(ks, p / 2, p);
      if m != k { assert Above(ks, p, m); }
    }
  }

  lemma SwapDown(ks: seq<Key>, k: int, c: int)
    requires 1 <= k && (c == 2 * k || c == 2 * k + 1) && c <= |ks| && OrderedAround(ks, k)
    requires forall m :: 2 <= m <= |ks| && m / 2 == k ==> Above(ks, c, m)
    ensures OrderedAround(Swap(ks, k, c), c)
  {
    var r := Swap(ks, k, c);
    forall m | 2 <= m <= |ks| && m != c && m / 2 != c ensures Above(r, m / 2, m) {
      if m == k {
        assert Above(ks, k / 2, c);
      } else if m / 2 == k {
        assert Above(ks, c, m);
      } else {
        assert Above(ks, m / 2, m);
      }
    }
    forall m | 4 <= m <= |ks| && m / 2 == c ensures Above(r, c / 2, m) {
      assert Above(ks, m / 2, m);
    }
  }

  lemma AroundToBelow(ks: seq<Key>, k: int)
    requires 1 <= k <= |ks| && OrderedAround(ks, k)
    requires forall m :: 2 <= m <= |ks| && m / 2 == k ==> Above(ks, k, m)
    ensures OrderedBelow(ks, k)
  {
  }

  lemma BelowToOrdered(ks: seq<Key>, k: int)
    requires 1 <= k <= |ks| && OrderedBelow(ks, k)
    requires k >= 2 ==> Above(ks, k / 2, k)
    ensures Ordered(ks)
  {
  }

  /** The root of a heap is its least element. */
  lemma {:induction false} RootIsLeast(ks: seq<Key>, m: int)
    requires Ordered(ks) && 1 <= m <= |ks|
    ensures !Less(ks[m - 1], ks[0])
    decreases m
  {
    if m > 1 {
      RootIsLeast(ks, m / 2);
      assert Above(ks, m / 2, m);
    }
  }

  /** Replacing position `k` disturbs the order around `k` only. */
  lemma Replace(ks: seq<Key>, k: int, x: Key)
    requires Ordered(ks) && 1 <= k <= |ks|
    ensures OrderedAround(ks[k - 1 := x], k)
  {
    var r := ks[k - 1 := x];
    forall m | 2 <= m <= |ks| && m != k && m / 2 != k ensures Above(r, m / 2, m) {
      assert Above(ks, m / 2, m);
    }
    forall m | 4 <= m <= |ks| && m / 2 == k ensures Above(r, k / 2, m) {
      assert Above(ks, k, m) && Above(ks, k / 2, k);
    }
  }

  lemma DropLast(ks: seq<Key>)
    requires Ordered(ks) && |ks| > 0
    ensures Ordered(ks[..|ks| - 1])
  {
    var r := ks[..|ks| - 1];
    forall m | 2 <= m <= |r| ensures Above(r, m / 2, m) {
      assert Above(ks, m / 2, m);
    }
  }

  lemma AddLast(ks: seq<Key>, x: Key)
    requires Ordered(ks)
    ensures OrderedBelow(ks + [x], |ks| + 1)
  {
    var r := ks + [x];
    forall m | 2 <= m <= |r| && m != |r| ensures Above(r, m / 2, m) {
      assert Above(ks, m / 2, m);
    }
  }

  // ----- Bit paths

  /** Where a walk from position `i` ends that takes `k` turns, the low bit of `path` first. */
  function Follow(i: nat, path: nat, k: nat): nat
    decreases k
  {
    if k == 0 then i else Follow(2 * i + path % 2, path / 2, k - 1)
  }

  lemma {:induction false} FollowDescends(i: nat, path: nat, k: nat)
    requires i >= 1
    ensures Follow(i, path, k) >= i
    ensures k > 0 ==> Follow(i, path, k) >= 2 * i + path % 2
    decreases k
  {
    if k > 0 {
      FollowDescends(2 * i + path % 2, path / 2, k - 1);
    }
  }

  /** The path of the root to position `n`, as computed by halving `n`. */
  method PathTo(n0: nat) returns (path: nat, k: nat)
    requires n0 >= 1
    ensures Follow(1, path, k) == n0
    ensures path < n0
  {
    var n := n0;
    path, k := 0, 0;
    ghost var w := 1;  // 2 to the power k
    while n >= 2
      invariant n >= 1 && Follow(n, path, k) == n0
      invariant path < w && n * w <= n0
      decreases n
    {
      ghost var n', path' := n, path;
      path := path * 2 + n % 2;
      k := k + 1;
      n := n / 2;
      assert 2 * n + path % 2 == n' && path / 2 == path';
      assert n * (2 * w) <= n' * w by { assert n * 2 <= n'; }
      w := 2 * w;
    }
  }
}

/** The binary heap of libuv, made of nodes with left, right and parent pointers. */
module PointerHeap {
  import opened HeapOrder

  /** A timer handle with the heap node embedded in it. The heap touches the pointers only. */
  class Node {
    var left: Node?
    var right: Node?
    var parent: Node?
    var timeout: nat
    var startId: nat
    var repeat: nat
    var hasCallback: bool
    var active: bool
    var closing: bool
    ghost var place: int  // its position in level order while it is in a heap

    /** `uv_timer_init` */
    constructor ()
      ensures !active && !closing && !hasCallback && repeat == 0
    {
      left, right, parent := null, null, null;
      timeout, startId, repeat := 0, 0, 0;
      hasCallback, active, closing := false, false, false;
    }

    ghost function KeyOf(): Key
      reads this`timeout, this`startId
    {
      Key(timeout, startId)
    }
  }

  /** The node at level-order position `i` of the tree `t`. */
  ghost function NodeAt(t: seq<Node>, i: int): Node? {
    if 1 <= i <= |t| then t[i - 1] else null
  }

  /** A place that holds a pointer to a node: the heap's `min` or a field of a node. */
  datatype Slot = Root | LeftOf(node: Node) | RightOf(node: Node)

  ghost function NodesOf(t: seq<Node>): set<Node> {
    set x | x in t
  }

  lemma SameNodes(t: seq<Node>, u: seq<Node>)
    requires multiset(t) == multiset(u)
    ensures NodesOf(t) == NodesOf(u)
  {
    forall x ensures x in t <==> x in u {
      assert x in t <==> x in multiset(t);
      assert x in u <==> x in multiset(u);
    }
  }

  lemma {:induction false} Once(t: seq<Node>, x: Node)
    requires forall i, j :: 0 <= i < j < |t| ==> t[i] != t[j]
    ensures multiset(t)[x] <= 1
  {
    if t != [] {
      Once(t[1..], x);
      assert t == [t[0]] + t[1..];
      assert t[0] !in t[1..];
    }
  }

  lemma NodesLeft(t: seq<Node>, u: seq<Node>, x: Node)
    requires multiset(t) + multiset{x} == multiset(u) && multiset(u)[x] <= 1
    ensures NodesOf(t) == NodesOf(u) - {x}
  {
    forall y ensures y in NodesOf(t) <==> y in NodesOf(u) && y != x {
      assert y in t <==> y in multiset(t);
      assert y in u <==> y in multiset(u);
    }
  }

  lemma NodesMore(t: seq<Node>, u: seq<Node>, x: Node)
    requires multiset(u) == multiset(t) + multiset{x}
    ensures NodesOf(u) == NodesOf(t) + {x}
  {
    forall y ensures y in NodesOf(u) <==> y in NodesOf(t) || y == x {
      assert y in t <==> y in multiset(t);
      assert y in u <==> y in multiset(u);
    }
  }

  ghost predicate Keyed(t: seq<Node>, ks: seq<Key>)
    reads t`timeout, t`startId
  {
    |ks| == |t| && forall m :: 0 <= m < |t| ==> ks[m] == t[m].KeyOf()
  }

  function LessThan(a: Node, b: Node): bool
    reads a`timeout, a`startId, b`timeout, b`startId
  {
    if a.timeout < b.timeout then true
    else if b.timeout < a.timeout then false
    else a.startId < b.startId
  }

  class Heap {
    var min: Node?
    var nelts: nat
    ghost var tree: seq<Node>  // the nodes in level order
    ghost var keys: seq<Key>   // what they are compared by

    constructor ()
      ensures Valid() && tree == [] && fresh(this)
    {
      min := null;
      nelts := 0;
      tree, keys := [], [];
    }

    ghost predicate Valid()
      reads this, tree
    {
      nelts == |tree| && Shape(tree) && Keyed(tree, keys) && Ordered(keys)
    }

    function Load(slot: Slot): Node?
      reads this`min, if slot.Root? then {} else {slot.node}
    {
      match slot
      case Root => min
      case LeftOf(n) => n.left
      case RightOf(n) => n.right
    }

    method Store(slot: Slot, x: Node?)
      modifies this`min, (if slot.LeftOf? then {slot.node} else {})`left,
               (if slot.RightOf? then {slot.node} else {})`right
      ensures Load(slot) == x
      ensures !slot.Root? ==> min == old(min)
    {
      match slot
      case Root => min := x;
      case LeftOf(n) => n.left := x;
      case RightOf(n) => n.right := x;
    }

    /** The slot that holds, or will hold, the node at position `c`. */
    ghost function SlotAt(t: seq<Node>, c: int): Slot
      requires 1 <= c && c / 2 <= |t|
    {
      if c == 1 then Root else if c % 2 == 0 then LeftOf(t[c / 2 - 1]) else RightOf(t[c / 2 - 1])
    }

    lemma LoadAt(t: seq<Node>, c: int)
      requires Shape(t) && 1 <= c && c / 2 <= |t|
      ensures Load(SlotAt(t, c)) == NodeAt(t, c)
    {
      if c > 1 { assert NodeOk(t, c / 2); }
    }

    /** Walks from the root along the path to position `n`; `at` is the slot of that position and
        `above` the slot of its parent. */
    method Walk(path0: nat, k0: nat, ghost t: seq<Node>, ghost n: nat) returns (above: Slot, at: Slot)
      requires Shape(t) && 1 <= n <= |t| + 1 && Follow(1, path0, k0) == n
      ensures at == SlotAt(t, n)
      ensures n > 1 ==> above == SlotAt(t, n / 2)
      ensures n == 1 ==> above == Root
    {
      var path, k := path0, k0;
      ghost var c := 1;
      above, at := Root, Root;
      while k > 0
        invariant 1 <= c <= n && Follow(c, path, k) == n && at == SlotAt(t, c)
        invariant if c > 1 then above == SlotAt(t, c / 2) else above == Root
        decreases k
      {
        FollowDescends(c, path, k);
        LoadAt(t, c);
        above := at;
        var here := Load(at);
        at := if path % 2 == 1 then RightOf(here) else LeftOf(here);
        c := 2 * c + path % 2;
        path := path / 2;
        k := k - 1;
      }
    }

    ghost predicate NodeOk(t: seq<Node>, m: int)
      requires 1 <= m <= |t|
      reads t`left, t`right, t`parent, t`place
    {
      && t[m - 1].place == m
      && t[m - 1].left == NodeAt(t, 2 * m)
      && t[m - 1].right == NodeAt(t, 2 * m + 1)
      && t[m - 1].parent == NodeAt(t, m / 2)
    }

    /** The pointers make up the complete binary tree whose nodes are `t` in level order. */
    ghost predicate Shape(t: seq<Node>)
      reads this`min, t`left, t`right, t`parent, t`place
    {
      && min == NodeAt(t, 1)
      && forall m :: 1 <= m <= |t| ==> NodeOk(t, m)
    }

    /** Two positions of the tree hold two nodes. */
    lemma Apart(t: seq<Node>, i: int, j: int)
      requires Shape(t) && 1 <= i <= |t| && i != j
      ensures NodeAt(t, i) != NodeAt(t, j)
    {
      assert NodeOk(t, i);
      if 1 <= j <= |t| { assert NodeOk(t, j); }
    }

    /** A node and its child as the exchange finds them: links agree in both directions and all
        nodes of the neighbourhood are different members of `r`. */
    ghost predicate Neighbourhood(parent: Node, child: Node, r: set<Node>)
      reads this`min, r`left, r`right, r`parent
    {
      && {parent, child} <= r && parent != child && child.parent == parent
      && (parent.left == child) != (parent.right == child)
      && var sib, grand := if parent.left == child then parent.right else parent.left, parent.parent;
      && sib != parent && sib != child && (sib == null || sib in r)
      && grand != parent && grand != child && (grand == null || grand in r)
      && child.left != child && child.left != parent && (child.left == null || child.left in r)
      && child.right != child && child.right != parent && (child.right == null || child.right in r)
      && (sib == null || (sib != child.left && sib != child.right && sib != grand))
      && (child.left == null || (child.left != child.right && child.left != grand))
      && (child.right == null || child.right != grand)
      && (grand != null ==> (grand.left == parent) != (grand.right == parent))
    }

    /** What the exchange does to the pointers of `r`. */
    twostate predicate Exchanged(parent: Node, child: Node, r: set<Node>)
      requires old(Neighbourhood(parent, child, r))
      reads this`min, r`left, r`right, r`parent
    {
      var sib, grand := if old(parent.left) == child then old(parent.right) else old(parent.left), old(parent.parent);
      && min == (if grand == null then child else old(min))
      && child.left == (if old(parent.left) == child then parent else sib)
      && child.right == (if old(parent.left) == child then sib else parent)
      && child.parent == grand
      && parent.left == old(child.left) && parent.right == old(child.right) && parent.parent == child
      && (sib != null ==> sib.parent == child)
      && (old(child.left) != null ==> old(child.left).parent == parent)
      && (old(child.right) != null ==> old(child.right).parent == parent)
      && (grand != null ==> grand.left == if old(grand.left) == parent then child else old(grand.left))
      && (grand != null ==> grand.right == if old(grand.left) == parent then old(grand.right) else child)
      && (forall x :: x in r && x != parent && x != child && x != grand ==>
            x.left == old(x.left) && x.right == old(x.right))
      && (forall x :: x in r && x != parent && x != child && x != sib && x != old(child.left) && x != old(child.right)
            ==> x.parent == old(x.parent))
    }

    /** The two nodes trade places; their neighbours still point to the old ones. */
    method ExchangeFields(parent: Node, child: Node) returns (sibling: Node?)
      requires parent != child && (parent.left == child) != (parent.right == child)
      modifies parent`left, parent`right, parent`parent, child`left, child`right, child`parent
      ensures sibling == if old(parent.left) == child then old(parent.right) else old(parent.left)
      ensures child.left == if old(parent.left) == child then parent else old(parent.left)
      ensures child.right == if old(parent.left) == child then old(parent.right) else parent
      ensures child.parent == old(parent.parent)
      ensures parent.left == old(child.left) && parent.right == old(child.right) && parent.parent == child
    {
      var tl, tr, tp := parent.left, parent.right, parent.parent;
      parent.left, parent.right, parent.parent := child.left, child.right, child.parent;
      child.left, child.right, child.parent := tl, tr, tp;
      parent.parent := child;
      if child.left == child {
        child.left := parent;
        sibling := child.right;
      } else {
        child.right := parent;
        sibling := child.left;
      }
    }

    method SetParent(x: Node?, p: Node, ghost r: set<Node>)
      requires x == null || x in r
      modifies r`parent
      ensures x != null ==> x.parent == p
      ensures forall y :: y in r && y != x ==> y.parent == old(y.parent)
    {
      if x != null { x.parent := p; }
    }

    /** The pointer assignments that exchange a node with its child. */
    method ExchangeLinks(parent: Node, child: Node, ghost r: set<Node>)
      requires Neighbourhood(parent, child, r)
      modifies this`min, r`left, r`right, r`parent
      ensures Exchanged(parent, child, r)
    {
      var sibling := ExchangeFields(parent, child);
      SetParent(sibling, child, r);
      SetParent(parent.left, parent, r);
      SetParent(parent.right, parent, r);
      if child.parent == null {
        min := child;
      } else if child.parent.left == parent {
        child.parent.left := child;
      } else {
        child.parent.right := child;
      }
    }

    /** Two positions hold different nodes, or the first holds none. */
    lemma Differ(t: seq<Node>, a: int, b: int, x: Node?, y: Node?, r: set<Node>)
      requires Shape(t) && a != b && x == NodeAt(t, a) && y == NodeAt(t, b) && r == set n | n in t
      ensures x == null || (x in r && x != y)
    {
      if 1 <= a <= |t| { Apart(t, a, b); }
    }

    lemma Pointers(t: seq<Node>, i: int)
      requires Shape(t) && 1 <= i <= |t|
      ensures t[i - 1].left == NodeAt(t, 2 * i) && t[i - 1].right == NodeAt(t, 2 * i + 1)
      ensures t[i - 1].parent == NodeAt(t, i / 2)
    {
      assert NodeOk(t, i);
    }

    ghost function Sibling(t: seq<Node>, i: int, j: int): Node?
      requires 1 <= i <= |t|
      reads t`left, t`right
    {
      if j == 2 * i then t[i - 1].right else t[i - 1].left
    }

    lemma ChildLinks(t: seq<Node>, i: int, j: int)
      requires Shape(t) && 1 <= i && (j == 2 * i || j == 2 * i + 1) && j <= |t|
      ensures t[j - 1].parent == t[i - 1]
      ensures t[j - 1] == if j == 2 * i then t[i - 1].left else t[i - 1].right
      ensures Sibling(t, i, j) == NodeAt(t, if j == 2 * i then 2 * i + 1 else 2 * i)
      ensures (t[i - 1].left == t[j - 1]) != (t[i - 1].right == t[j - 1])
    {
      Pointers(t, i);
      Pointers(t, j);
      Apart(t, j, if j == 2 * i then 2 * i + 1 else 2 * i);
    }

    lemma SiblingApart(t: seq<Node>, i: int, j: int, r: set<Node>)
      requires Shape(t) && 1 <= i && (j == 2 * i || j == 2 * i + 1) && j <= |t| && r == set x | x in t
      ensures var sib := Sibling(t, i, j);
              sib == null || (sib in r && sib != t[i - 1] && sib != t[j - 1] && sib != t[i - 1].parent)
    {
      var s := if j == 2 * i then 2 * i + 1 else 2 * i;
      ChildLinks(t, i, j);
      Pointers(t, i);
      Differ(t, s, i, NodeAt(t, s), t[i - 1], r);
      Differ(t, s, j, NodeAt(t, s), t[j - 1], r);
      Differ(t, s, i / 2, NodeAt(t, s), NodeAt(t, i / 2), r);
    }

    lemma GrandchildApart(t: seq<Node>, i: int, j: int, k: int, r: set<Node>)
      requires Shape(t) && 1 <= i && (j == 2 * i || j == 2 * i + 1) && j <= |t| && r == set x | x in t
      requires k == 2 * j || k == 2 * j + 1
      ensures var x := NodeAt(t, k);
              x == null || (x in r && x != t[i - 1] && x != t[j - 1] && x != Sibling(t, i, j) && x != t[i - 1].parent)
    {
      var s := if j == 2 * i then 2 * i + 1 else 2 * i;
      ChildLinks(t, i, j);
      Pointers(t, i);
      Differ(t, k, i, NodeAt(t, k), t[i - 1], r);
      Differ(t, k, j, NodeAt(t, k), t[j - 1], r);
      Differ(t, k, s, NodeAt(t, k), NodeAt(t, s), r);
      Differ(t, k, i / 2, NodeAt(t, k), NodeAt(t, i / 2), r);
    }

    lemma GrandparentApart(t: seq<Node>, i: int, j: int, r: set<Node>)
      requires Shape(t) && 1 <= i && (j == 2 * i || j == 2 * i + 1) && j <= |t| && r == set x | x in t
      ensures var g := t[i - 1].parent;
              g == null || (g in r && g != t[i - 1] && g != t[j - 1] && (g.left == t[i - 1]) != (g.right == t[i - 1]))
    {
      Pointers(t, i);
      Differ(t, i / 2, i, NodeAt(t, i / 2), t[i - 1], r);
      Differ(t, i / 2, j, NodeAt(t, i / 2), t[j - 1], r);
      if i >= 2 { GrandLinks(t, i); }
    }

    lemma ChildrenApart(t: seq<Node>, j: int)
      requires Shape(t) && 1 <= j <= |t|
      ensures t[j - 1].left == null || t[j - 1].left != t[j - 1].right
    {
      Pointers(t, j);
      if 2 * j <= |t| { Apart(t, 2 * j, 2 * j + 1); }
    }

    lemma InNeighbourhood(t: seq<Node>, i: int, j: int, r: set<Node>)
      requires Shape(t) && 1 <= i && (j == 2 * i || j == 2 * i + 1) && j <= |t|
      requires r == set x | x in t
      ensures Neighbourhood(t[i - 1], t[j - 1], r)
    {
      assert t[j - 1].left == NodeAt(t, 2 * j) && t[j - 1].right == NodeAt(t, 2 * j + 1) by { Pointers(t, j); }
      assert t[i - 1] != t[j - 1] by { Apart(t, i, j); }
      ChildLinks(t, i, j);
      SiblingApart(t, i, j, r);
      GrandchildApart(t, i, j, 2 * j, r);
      GrandchildApart(t, i, j, 2 * j + 1, r);
      GrandparentApart(t, i, j, r);
      ChildrenApart(t, j);
    }

    lemma GrandLinks(t: seq<Node>, i: int)
      requires Shape(t) && 2 <= i <= |t|
      ensures (t[i / 2 - 1].left == t[i - 1]) != (t[i / 2 - 1].right == t[i - 1])
    {
      var g := i / 2;
      Pointers(t, g);
      Apart(t, i, if i == 2 * g then 2 * g + 1 else 2 * g);
    }

    lemma SwapAt(t: seq<Node>, i: int, j: int, k: int)
      requires 1 <= i <= |t| && 1 <= j <= |t|
      ensures NodeAt(Swap(t, i, j), k) == if k == i then t[j - 1] else if k == j then t[i - 1] else NodeAt(t, k)
    {
    }

    /** How position `m` of the tree `t` is linked after positions `i` and `j` have changed places. */
    ghost predicate RelinkedAt(t: seq<Node>, i: int, j: int, m: int)
      requires 1 <= i <= |t| && 1 <= j <= |t| && 1 <= m <= |t|
      reads t`left, t`right, t`parent, t`place
    {
      var x := t[m - 1];
      && x.place == m
      && x.left == (if 2 * m == i then t[j - 1] else NodeAt(t, 2 * m))
      && x.right == (if 2 * m + 1 == i then t[j - 1] else NodeAt(t, 2 * m + 1))
      && x.parent == (if m / 2 == i then t[j - 1] else if m / 2 == j then t[i - 1] else NodeAt(t, m / 2))
    }

    /** The tree `t` after positions `i` and `j`, its child, have changed places. */
    ghost predicate Relinked(t: seq<Node>, i: int, j: int)
      requires 1 <= i < j <= |t|
      reads this`min, t`left, t`right, t`parent, t`place
    {
      var parent, child := t[i - 1], t[j - 1];
      && min == (if i == 1 then child else t[0])
      && child.left == (if j == 2 * i then parent else NodeAt(t, 2 * i))
      && child.right == (if j == 2 * i then NodeAt(t, 2 * i + 1) else parent)
      && child.parent == NodeAt(t, i / 2) && child.place == i
      && parent.left == NodeAt(t, 2 * j) && parent.right == NodeAt(t, 2 * j + 1)
      && parent.parent == child && parent.place == j
      && forall m :: 1 <= m <= |t| && m != i && m != j ==> RelinkedAt(t, i, j, m)
    }

    lemma RelinkedShape(t: seq<Node>, i: int, j: int)
      requires 1 <= i && (j == 2 * i || j == 2 * i + 1) && j <= |t| && Relinked(t, i, j)
      ensures Shape(Swap(t, i, j))
    {
      forall m | 1 <= m <= |t| ensures NodeOk(Swap(t, i, j), m) {
        SwapAt(t, i, j, m);
        SwapAt(t, i, j, 2 * m);
        SwapAt(t, i, j, 2 * m + 1);
        SwapAt(t, i, j, m / 2);
        if m != i && m != j { assert RelinkedAt(t, i, j, m); }
      }
    }

    /** Position `m` other than `i` and `j` after the exchange, given what it was before. */
    lemma RelinkOther(t: seq<Node>, i: int, j: int, m: int, x: Node, grand: Node?, sib: Node?, cl: Node?, cr: Node?)
      requires 1 <= i && (j == 2 * i || j == 2 * i + 1) && j <= |t| && 1 <= m <= |t| && m != i && m != j
               && x == t[m - 1]
      requires x.place == m
      requires m == i / 2 <==> x == grand
      requires (m == if j == 2 * i then 2 * i + 1 else 2 * i) <==> x == sib
      requires m == 2 * j <==> x == cl
      requires m == 2 * j + 1 <==> x == cr
      requires x.left == if x == grand && 2 * m == i then t[j - 1] else NodeAt(t, 2 * m)
      requires x.right == if x == grand && 2 * m != i then t[j - 1] else NodeAt(t, 2 * m + 1)
      requires x.parent == if x == sib then t[j - 1] else if x == cl || x == cr then t[i - 1] else NodeAt(t, m / 2)
      ensures RelinkedAt(t, i, j, m)
    {
    }

    /** Position `k` is where `x` is. */
    lemma AtPlace(t: seq<Node>, k: int, m: int, y: Node?)
      requires Shape(t) && 1 <= m <= |t| && y == NodeAt(t, k)
      ensures m == k <==> t[m - 1] == y
    {
      if m != k { Apart(t, m, k); }
    }

    /** Exchanges the node at position `i` with its child at position `j`. */
    method NodeSwap(parent: Node, child: Node, ghost t: seq<Node>, ghost i: int, ghost j: int)
      requires Shape(t) && 1 <= i && (j == 2 * i || j == 2 * i + 1) && j <= |t|
      requires parent == t[i - 1] && child == t[j - 1]
      modifies this`min, NodesOf(t)`left, NodesOf(t)`right, NodesOf(t)`parent, NodesOf(t)`place
      ensures Shape(Swap(t, i, j))
    {
      ghost var r := NodesOf(t);
      ghost var s := if j == 2 * i then 2 * i + 1 else 2 * i;
      ghost var sib, grand, cl, cr := NodeAt(t, s), NodeAt(t, i / 2), NodeAt(t, 2 * j), NodeAt(t, 2 * j + 1);
      InNeighbourhood(t, i, j, r);
      forall m | 1 <= m <= |t| ensures WhoIs(t, m, i, j, sib, grand, cl, cr) {
        AtPlace(t, i, m, parent); AtPlace(t, j, m, child); AtPlace(t, s, m, sib);
        AtPlace(t, i / 2, m, grand); AtPlace(t, 2 * j, m, cl); AtPlace(t, 2 * j + 1, m, cr);
      }
      assert NodeOk(t, 1) && NodeOk(t, i) && NodeOk(t, j);
      ExchangeLinks(parent, child, r);
      parent.place, child.place := j, i;
      forall m | 1 <= m <= |t| && m != i && m != j ensures RelinkedAt(t, i, j, m) {
        ghost var x := t[m - 1];
        assert WhoIs(t, m, i, j, sib, grand, cl, cr) && old(NodeOk(t, m)) && x in r;
        RelinkOther(t, i, j, m, x, grand, sib, cl, cr);
      }
      RelinkedShape(t, i, j);
    }

    ghost predicate WhoIs(t: seq<Node>, m: int, i: int, j: int, sib: Node?, grand: Node?, cl: Node?, cr: Node?)
      requires 1 <= m <= |t| && 1 <= i <= |t| && 1 <= j <= |t|
    {
      var x := t[m - 1];
      && (m == i <==> x == t[i - 1]) && (m == j <==> x == t[j - 1])
      && ((m == if j == 2 * i then 2 * i + 1 else 2 * i) <==> x == sib)
      && (m == i / 2 <==> x == grand) && (m == 2 * j <==> x == cl) && (m == 2 * j + 1 <==> x == cr)
    }

    lemma SwapKeeps(t: seq<Node>, ks: seq<Key>, i: int, j: int)
      requires Keyed(t, ks) && 1 <= i <= |t| && 1 <= j <= |t|
      ensures Keyed(Swap(t, i, j), Swap(ks, i, j))
      ensures multiset(Swap(t, i, j)) == multiset(t)
      ensures NodesOf(Swap(t, i, j)) == NodesOf(t)
    {
      SameNodes(Swap(t, i, j), t);
    }

    ghost predicate Nearly(k: int, node: Node)
      reads this, tree
    {
      && nelts == |tree| && Shape(tree) && Keyed(tree, keys)
      && 1 <= k <= |tree| && tree[k - 1] == node
    }

    /** `heap_node_swap`, with the bookkeeping of the level-order view. */
    method SwapNodes(parent: Node, child: Node, ghost i: int, ghost j: int)
      requires Nearly(i, parent) && Nearly(j, child) && (j == 2 * i || j == 2 * i + 1)
      modifies this`min, this`tree, this`keys, NodesOf(tree)`left, NodesOf(tree)`right, NodesOf(tree)`parent,
               NodesOf(tree)`place
      ensures Nearly(j, parent) && Nearly(i, child) && keys == Swap(old(keys), i, j)
      ensures multiset(tree) == multiset(old(tree)) && NodesOf(tree) == NodesOf(old(tree))
    {
      SwapKeeps(tree, keys, i, j);
      NodeSwap(parent, child, tree, i, j);
      tree, keys := Swap(tree, i, j), Swap(keys, i, j);
    }

    /** Moves the node at position `k` up to where it belongs. */
    method SiftUp(node: Node, ghost k0: int)
      requires Nearly(k0, node) && OrderedBelow(keys, k0)
      modifies this`min, this`tree, this`keys, NodesOf(tree)`left, NodesOf(tree)`right, NodesOf(tree)`parent,
               NodesOf(tree)`place
      ensures Valid() && multiset(tree) == multiset(old(tree))
    {
      ghost var k := k0;
      while node.parent != null && LessThan(node, node.parent)
        invariant Nearly(k, node) && OrderedBelow(keys, k)
        invariant multiset(tree) == multiset(old(tree)) && NodesOf(tree) == NodesOf(old(tree))
        decreases k
      {
        Pointers(tree, k);
        SwapUp(keys, k);
        SwapNodes(node.parent, node, k / 2, k);
        k := k / 2;
      }
      Pointers(tree, k);
      BelowToOrdered(keys, k);
    }

    /** The smallest of the node at position `k` and its children, and its position. */
    method SmallestOf(node: Node, ghost k: int) returns (smallest: Node, ghost c: int)
      requires Nearly(k, node)
      ensures Nearly(c, smallest) && (c == k || c == 2 * k || c == 2 * k + 1) && (smallest == node <==> c == k)
      ensures forall m :: 2 <= m <= |keys| && m / 2 == k ==> Above(keys, c, m)
    {
      Pointers(tree, k);
      smallest, c := node, k;
      if node.left != null && LessThan(node.left, smallest) { smallest, c := node.left, 2 * k; }
      if node.right != null && LessThan(node.right, smallest) { smallest, c := node.right, 2 * k + 1; }
      if c != k { Apart(tree, c, k); }
    }

    /** Moves the node at position `k` down to where it is not above a smaller one. */
    method SiftDown(node: Node, ghost k0: int) returns (ghost k: int)
      requires Nearly(k0, node) && OrderedAround(keys, k0)
      modifies this`min, this`tree, this`keys, NodesOf(tree)`left, NodesOf(tree)`right, NodesOf(tree)`parent,
               NodesOf(tree)`place
      ensures Nearly(k, node) && OrderedBelow(keys, k)
      ensures multiset(tree) == multiset(old(tree)) && NodesOf(tree) == NodesOf(old(tree))
    {
      k := k0;
      while true
        invariant Nearly(k, node) && OrderedAround(keys, k)
        invariant multiset(tree) == multiset(old(tree)) && NodesOf(tree) == NodesOf(old(tree))
        decreases |tree| - k
      {
        ghost var c;
        var smallest;
        smallest, c := SmallestOf(node, k);
        if smallest == node { break; }
        SwapDown(keys, k, c);
        SwapNodes(node, smallest, k, c);
        k := c;
      }
      AroundToBelow(keys, k);
    }

    /** Puts `x`, whose parent pointer is set, into the free slot after the last node. */
    method Attach(at: Slot, x: Node, ghost t: seq<Node>)
      requires Shape(t) && x !in t && at == SlotAt(t, |t| + 1)
      requires x.left == null && x.right == null && x.parent == NodeAt(t, (|t| + 1) / 2)
      modifies this`min, x`place, NodesOf(t)`left, NodesOf(t)`right
      ensures Shape(t + [x])
    {
      ghost var n, u := |t| + 1, t + [x];
      Store(at, x);
      x.place := n;
      forall m | 1 <= m <= n ensures NodeOk(u, m) {
        if m < n {
          assert old(NodeOk(t, m)) && u[m - 1] == t[m - 1];
          if n > 1 { assert old(NodeOk(t, n / 2)); }
        }
      }
    }

    /** Empties the slot of the last node. */
    method Detach(at: Slot, ghost t: seq<Node>)
      requires Shape(t) && t != [] && at == SlotAt(t, |t|)
      modifies this`min, NodesOf(t)`left, NodesOf(t)`right
      ensures Shape(t[..|t| - 1])
    {
      ghost var n, u := |t|, t[..|t| - 1];
      Store(at, null);
      forall m | 1 <= m < n ensures NodeOk(u, m) {
        assert old(NodeOk(t, m)) && u[m - 1] == t[m - 1];
        if n > 1 { assert old(NodeOk(t, n / 2)); }
      }
    }

    /** Links a new node in at the left-most free place of the bottom row. */
    method Append(newnode: Node)
      requires Valid() && newnode !in tree
      modifies this, newnode`left, newnode`right, newnode`parent, newnode`place, NodesOf(tree)`left, NodesOf(tree)`right
      ensures Nearly(|tree|, newnode) && OrderedBelow(keys, |tree|)
      ensures tree == old(tree) + [newnode] && NodesOf(tree) == NodesOf(old(tree)) + {newnode}
    {
      ghost var t := tree;
      LinkLast(newnode, t);
      nelts := nelts + 1;
      AddLast(keys, newnode.KeyOf());
      tree, keys := t + [newnode], keys + [newnode.KeyOf()];
    }

    method LinkLast(newnode: Node, ghost t: seq<Node>)
      requires Valid() && tree == t && newnode !in t
      modifies this`min, newnode`left, newnode`right, newnode`parent, newnode`place, NodesOf(t)`left, NodesOf(t)`right
      ensures Shape(t + [newnode])
    {
      newnode.left := null;
      newnode.right := null;
      newnode.parent := null;
      var path, k := PathTo(1 + nelts);
      var above, at := Walk(path, k, t, |t| + 1);
      if |t| > 0 { LoadAt(t, (|t| + 1) / 2); }
      newnode.parent := Load(above);
      Attach(at, newnode, t);
    }

    method Insert(newnode: Node)
      requires Valid() && newnode !in tree
      modifies this, newnode`left, newnode`right, newnode`parent, newnode`place
      modifies NodesOf(tree)`left, NodesOf(tree)`right, NodesOf(tree)`parent, NodesOf(tree)`place
      ensures Valid() && multiset(tree) == multiset(old(tree)) + multiset{newnode}
      ensures NodesOf(tree) == NodesOf(old(tree)) + {newnode}
    {
      ghost var t := tree;
      Append(newnode);
      SiftUp(newnode, |tree|);
      NodesMore(t, tree, newnode);
    }

    /** The pointer assignments that put `child` in the place of `node`. */
    method ReplaceLinks(node: Node, child: Node, ghost r: set<Node>)
      requires node in r && child !in r && node.left != node && node.right != node && node.parent != node
      requires node.left == null || node.left in r
      requires node.right == null || node.right in r
      requires node.parent == null || node.parent in r
      requires node.parent == null || (node.parent.left == node) != (node.parent.right == node)
      modifies this`min, child`left, child`right, child`parent, r`left, r`right, r`parent
      ensures child.left == old(node.left) && child.right == old(node.right) && child.parent == old(node.parent)
      ensures min == if child.parent == null then child else old(min)
      ensures forall x :: x in r ==> x.parent == if x == child.left || x == child.right then child else old(x.parent)
      ensures forall x :: x in r ==> x.left == if x == child.parent && old(x.left) == node then child else old(x.left)
      ensures forall x :: x in r ==> x.right == if x == child.parent && old(x.left) != node then child else old(x.right)
    {
      child.left := node.left;
      child.right := node.right;
      child.parent := node.parent;
      SetParent(child.left, child, r);
      SetParent(child.right, child, r);
      if node.parent == null {
        min := child;
      } else if node.parent.left == node {
        node.parent.left := child;
      } else {
        node.parent.right := child;
      }
    }

    /** Position `m` other than `q` after the replacement, given what it was before. */
    lemma ReplacedOther(t: seq<Node>, child: Node, q: int, m: int, x: Node, l: Node?, rt: Node?, up: Node?)
      requires 1 <= q <= |t| && 1 <= m <= |t| && m != q && x == t[m - 1] && x.place == m
      requires (m == 2 * q <==> x == l) && (m == 2 * q + 1 <==> x == rt) && (m == q / 2 <==> x == up)
      requires x.parent == if x == l || x == rt then child else NodeAt(t, m / 2)
      requires x.left == if x == up && 2 * m == q then child else NodeAt(t, 2 * m)
      requires x.right == if x == up && 2 * m != q then child else NodeAt(t, 2 * m + 1)
      ensures NodeOk(t[q - 1 := child], m)
    {
    }

    ghost predicate WhoIsNear(t: seq<Node>, m: int, q: int)
      requires 1 <= m <= |t| && 1 <= q <= |t|
    {
      var x := t[m - 1];
      && (m == q <==> x == t[q - 1]) && (m == 2 * q <==> x == NodeAt(t, 2 * q))
      && (m == 2 * q + 1 <==> x == NodeAt(t, 2 * q + 1)) && (m == q / 2 <==> x == NodeAt(t, q / 2))
    }

    lemma NearPlaces(t: seq<Node>, m: int, q: int)
      requires Shape(t) && 1 <= m <= |t| && 1 <= q <= |t|
      ensures WhoIsNear(t, m, q)
    {
      AtPlace(t, q, m, t[q - 1]);
      AtPlace(t, 2 * q, m, NodeAt(t, 2 * q));
      AtPlace(t, 2 * q + 1, m, NodeAt(t, 2 * q + 1));
      AtPlace(t, q / 2, m, NodeAt(t, q / 2));
    }

    /** Puts `child`, which is not in the tree, in the place of `node`. */
    method Replace(node: Node, child: Node, ghost t: seq<Node>, ghost q: int)
      requires Shape(t) && 1 <= q <= |t| && t[q - 1] == node && child !in t
      modifies this`min, child`left, child`right, child`parent, child`place, NodesOf(t)`left, NodesOf(t)`right,
               NodesOf(t)`parent
      ensures Shape(t[q - 1 := child])
    {
      ghost var r := NodesOf(t);
      ghost var l, rt, up := NodeAt(t, 2 * q), NodeAt(t, 2 * q + 1), NodeAt(t, q / 2);
      Pointers(t, q);
      Apart(t, q, 2 * q); Apart(t, q, 2 * q + 1); Apart(t, q, q / 2);
      if q > 1 { GrandLinks(t, q); }
      forall m | 1 <= m <= |t| ensures WhoIsNear(t, m, q) { NearPlaces(t, m, q); }
      ReplaceLinks(node, child, r);
      child.place := q;
      ghost var u := t[q - 1 := child];
      forall m | 1 <= m <= |t| ensures NodeOk(u, m) {
        if m != q {
          ghost var x := t[m - 1];
          assert WhoIsNear(t, m, q) && old(NodeOk(t, m)) && x in r;
          ReplacedOther(t, child, q, m, x, l, rt, up);
        }
      }
    }

    lemma LastAlone(t: seq<Node>)
      requires Shape(t) && t != []
      ensures t[|t| - 1] !in t[..|t| - 1]
    {
      forall m | 0 <= m < |t| - 1 ensures t[m] != t[|t| - 1] { Apart(t, m + 1, |t|); }
    }

    /** Unlinks the last node and returns it. */
    method TakeLast() returns (last: Node)
      requires Valid() && nelts > 0
      modifies this, NodesOf(tree)`left, NodesOf(tree)`right
      ensures Valid() && old(tree) == tree + [last] && last !in tree
    {
      ghost var t := tree;
      last := UnlinkLast(t);
      nelts := nelts - 1;
      DropLast(keys);
      tree, keys := t[..|t| - 1], keys[..|keys| - 1];
      assert t == tree + [last];
    }

    method UnlinkLast(ghost t: seq<Node>) returns (last: Node)
      requires Valid() && tree == t && nelts > 0
      modifies this`min, NodesOf(t)`left, NodesOf(t)`right
      ensures Shape(t[..|t| - 1]) && last == t[|t| - 1] && last !in t[..|t| - 1]
    {
      var path, k := PathTo(nelts);
      var above, max := Walk(path, k, t, |t|);
      LoadAt(t, |t|);
      last := Load(max);
      LastAlone(t);
      Detach(max, t);
    }

    /** Puts `last` in the place of the member `node` and restores the order. */
    method Refill(node: Node, last: Node)
      requires Valid() && node in tree && last !in tree
      modifies this, last`left, last`right, last`parent, last`place
      modifies NodesOf(tree)`left, NodesOf(tree)`right, NodesOf(tree)`parent, NodesOf(tree)`place
      ensures Valid() && multiset(tree) + multiset{node} == multiset(old(tree)) + multiset{last}
    {
      ghost var t := tree;
      ghost var q0 :| 0 <= q0 < |t| && t[q0] == node;
      ghost var q := q0 + 1;
      Replace(node, last, t, q);
      HeapOrder.Replace(keys, q, last.KeyOf());
      tree, keys := t[q - 1 := last], keys[q - 1 := last.KeyOf()];
      assert NodesOf(tree) <= NodesOf(t) + {last};
      ghost var before := tree;
      ghost var k := SiftDown(last, q);
      SiftUp(last, k);
      assert multiset(before) + multiset{node} == multiset(t) + multiset{last};
    }

    /** Removes the member `node`; an empty heap stays as it is. */
    method Remove(node: Node)
      requires Valid() && (nelts > 0 ==> node in tree)
      modifies this, NodesOf(tree)`left, NodesOf(tree)`right, NodesOf(tree)`parent, NodesOf(tree)`place
      ensures Valid()
      ensures old(nelts) == 0 ==> tree == []
      ensures old(nelts) > 0 ==> multiset(tree) + multiset{node} == multiset(old(tree))
      ensures NodesOf(tree) == NodesOf(old(tree)) - {node}
    {
      if nelts == 0 { return; }
      ghost var t := tree;
      AllOnce(t, node);
      RemoveMember(node);
      NodesLeft(tree, t, node);
    }

    method RemoveMember(node: Node)
      requires Valid() && node in tree
      modifies this, NodesOf(tree)`left, NodesOf(tree)`right, NodesOf(tree)`parent, NodesOf(tree)`place
      ensures Valid() && multiset(tree) + multiset{node} == multiset(old(tree))
    {
      var child := TakeLast();
      assert multiset(old(tree)) == multiset(tree) + multiset{child};
      if child == node {
        // The root's slot has been emptied already if this was the only node.
        assert child != min;
        return;
      }
      Refill(node, child);
    }

    lemma AllOnce(t: seq<Node>, x: Node)
      requires Shape(t)
      ensures multiset(t)[x] <= 1
    {
      forall i, j | 0 <= i < j < |t| ensures t[i] != t[j] { Apart(t, i + 1, j + 1); }
      Once(t, x);
    }

    method Dequeue()
      requires Valid()
      modifies this, NodesOf(tree)`left, NodesOf(tree)`right, NodesOf(tree)`parent, NodesOf(tree)`place
      ensures Valid()
      ensures old(nelts) == 0 ==> tree == []
      ensures old(nelts) > 0 ==> multiset(tree) + multiset{old(tree)[0]} == multiset(old(tree))
    {
      if min != null { Remove(min); }
    }

    /** The root is a least node: none is less than it. */
    lemma MinIsLeast(x: Node)
      requires Valid() && x in tree
      ensures min == tree[0] && !LessThan(x, tree[0])
    {
      var m :| 0 <= m < |tree| && tree[m] == x;
      RootIsLeast(keys, m + 1);
    }
  }
}
