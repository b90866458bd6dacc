/** The user-visible view of a multi-version log at a snapshot, as an ordered map, and the
    moves of a cursor over that map. */
module SnapshotView {
  import opened ByteStrings
  import opened DbFormat

  /** One record of the internal iterator: an internal key and its value. */
  datatype Entry = Entry(ikey: Bytes, value: Bytes)

  ghost predicate WellFormed(cmp: Comparator, es: seq<Entry>) {
    && IsTotalOrder(cmp)
    && (forall i :: 0 <= i < |es| ==> ParseInternalKey(es[i].ikey).Some?)
    && (forall i, j :: 0 <= i < j < |es| ==> InternalCompare(cmp, es[i].ikey, es[j].ikey) < 0)
  }

  function UserKey(es: seq<Entry>, i: int): Bytes
    requires 0 <= i < |es| && ParseInternalKey(es[i].ikey).Some?
  {
    ParseInternalKey(es[i].ikey).value.userKey
  }

  function Sequence(es: seq<Entry>, i: int): nat
    requires 0 <= i < |es| && ParseInternalKey(es[i].ikey).Some?
  {
    ParseInternalKey(es[i].ikey).value.sequence
  }

  function TypeAt(es: seq<Entry>, i: int): ValueType
    requires 0 <= i < |es| && ParseInternalKey(es[i].ikey).Some?
  {
    ParseInternalKey(es[i].ikey).value.valueType
  }

  // ----- The ordered map

  ghost predicate Candidate(cmp: Comparator, es: seq<Entry>, snapshot: nat, k: Bytes, i: int)
    requires WellFormed(cmp, es)
  {
    0 <= i < |es| && UserKey(es, i) == k && Sequence(es, i) <= snapshot
  }

  /** Entry `i` is the newest version of `k` that the snapshot can see. */
  ghost predicate Newest(cmp: Comparator, es: seq<Entry>, snapshot: nat, k: Bytes, i: int)
    requires WellFormed(cmp, es)
  {
    && Candidate(cmp, es, snapshot, k, i)
    && forall j :: Candidate(cmp, es, snapshot, k, j) ==> Trailer(es[j].ikey) <= Trailer(es[i].ikey)
  }

  /** What the user sees under `k`: the newest visible version, unless that is a deletion. */
  ghost function UserValue(cmp: Comparator, es: seq<Entry>, snapshot: nat, k: Bytes): Option<Bytes>
    requires WellFormed(cmp, es)
  {
    if i :| Newest(cmp, es, snapshot, k, i) && TypeAt(es, i) == Value then Some(es[i].value) else None
  }

  // ----- The cursor

  datatype Cursor = Invalid | At(key: Bytes, value: Bytes)

  datatype Range = Everything | AtLeast(key: Bytes) | Above(key: Bytes) | Below(key: Bytes)

  ghost predicate InRange(cmp: Comparator, r: Range, k: Bytes) {
    match r
    case Everything => true
    case AtLeast(t) => cmp(t, k) <= 0
    case Above(t) => cmp(t, k) < 0
    case Below(t) => cmp(k, t) < 0
  }

  /** `c` is the smallest user key of the range together with its value, or invalid when the
      range holds no user key. */
  ghost predicate IsLeast(cmp: Comparator, es: seq<Entry>, snapshot: nat, r: Range, c: Cursor)
    requires WellFormed(cmp, es)
  {
    match c
    case Invalid => forall k :: InRange(cmp, r, k) ==> UserValue(cmp, es, snapshot, k) == None
    case At(key, value) =>
      && InRange(cmp, r, key)
      && UserValue(cmp, es, snapshot, key) == Some(value)
      && forall k :: InRange(cmp, r, k) && UserValue(cmp, es, snapshot, k).Some? ==> cmp(key, k) <= 0
  }

  ghost predicate IsGreatest(cmp: Comparator, es: seq<Entry>, snapshot: nat, r: Range, c: Cursor)
    requires WellFormed(cmp, es)
  {
    match c
    case Invalid => forall k :: InRange(cmp, r, k) ==> UserValue(cmp, es, snapshot, k) == None
    case At(key, value) =>
      && InRange(cmp, r, key)
      && UserValue(cmp, es, snapshot, key) == Some(value)
      && forall k :: InRange(cmp, r, k) && UserValue(cmp, es, snapshot, k).Some? ==> cmp(k, key) <= 0
  }

  datatype Op = SeekToFirst | SeekToLast | Seek(target: Bytes) | Next | Prev

  /** One move of a cursor over the ordered map. */
  ghost predicate CursorStep(cmp: Comparator, es: seq<Entry>, snapshot: nat, op: Op, before: Cursor, after: Cursor)
    requires WellFormed(cmp, es)
  {
    match op
    case SeekToFirst => IsLeast(cmp, es, snapshot, Everything, after)
    case SeekToLast => IsGreatest(cmp, es, snapshot, Everything, after)
    case Seek(target) => IsLeast(cmp, es, snapshot, AtLeast(target), after)
    case Next => before.At? && IsLeast(cmp, es, snapshot, Above(before.key), after)
    case Prev => before.At? && IsGreatest(cmp, es, snapshot, Below(before.key), after)
  }

  /** The map semantics leaves no choice: a step has one outcome. */
  lemma CursorStepDeterministic(cmp: Comparator, es: seq<Entry>, snapshot: nat, op: Op, c: Cursor, x: Cursor, y: Cursor)
    requires WellFormed(cmp, es)
    requires CursorStep(cmp, es, snapshot, op, c, x) && CursorStep(cmp, es, snapshot, op, c, y)
    ensures x == y
  {
    if x.At? && y.At? {
      assert cmp(x.key, y.key) <= 0 && cmp(y.key, x.key) <= 0;
      assert cmp(x.key, y.key) == 0;
    }
  }

  /** `trace` is the run of a cursor that starts invalid and makes the moves `ops`. */
  ghost predicate CursorRun(cmp: Comparator, es: seq<Entry>, snapshot: nat, ops: seq<Op>, trace: seq<Cursor>)
    requires WellFormed(cmp, es)
  {
    && |trace| == |ops| + 1
    && trace[0] == Invalid
    && forall i :: 0 <= i < |ops| ==> CursorStep(cmp, es, snapshot, ops[i], trace[i], trace[i + 1])
  }

  lemma {:induction false} CursorPrefixDeterministic(cmp: Comparator, es: seq<Entry>, snapshot: nat, ops: seq<Op>,
                                                     x: seq<Cursor>, y: seq<Cursor>, n: nat)
    requires WellFormed(cmp, es)
    requires CursorRun(cmp, es, snapshot, ops, x) && CursorRun(cmp, es, snapshot, ops, y)
    requires n <= |ops|
    ensures x[..n + 1] == y[..n + 1]
  {
    if n > 0 {
      CursorPrefixDeterministic(cmp, es, snapshot, ops, x, y, n - 1);
      assert x[n - 1] == x[..n][n - 1] == y[..n][n - 1] == y[n - 1];
      CursorStepDeterministic(cmp, es, snapshot, ops[n - 1], x[n - 1], x[n], y[n]);
    }
  }

  /** A list of moves has at most one run. */
  lemma CursorRunDeterministic(cmp: Comparator, es: seq<Entry>, snapshot: nat, ops: seq<Op>, x: seq<Cursor>,
                               y: seq<Cursor>)
    requires WellFormed(cmp, es)
    requires CursorRun(cmp, es, snapshot, ops, x) && CursorRun(cmp, es, snapshot, ops, y)
    ensures x == y
  {
    CursorPrefixDeterministic(cmp, es, snapshot, ops, x, y, |ops|);
    assert x == x[..|ops| + 1] && y == y[..|ops| + 1];
  }

  // ----- Live entries: the positions in the log that carry the ordered map

  ghost predicate Live(cmp: Comparator, es: seq<Entry>, snapshot: nat, i: int)
    requires WellFormed(cmp, es)
  {
    && 0 <= i < |es|
    && Sequence(es, i) <= snapshot
    && TypeAt(es, i) == Value
    && forall j :: 0 <= j < i && Sequence(es, j) <= snapshot ==> UserKey(es, j) != UserKey(es, i)
  }

  lemma KeysAscend(cmp: Comparator, es: seq<Entry>, i: int, j: int)
    requires WellFormed(cmp, es)
    requires 0 <= i <= j < |es|
    ensures cmp(UserKey(es, i), UserKey(es, j)) <= 0
    ensures i < j && UserKey(es, i) == UserKey(es, j) ==> Trailer(es[i].ikey) > Trailer(es[j].ikey)
  {
    if i < j {
      assert InternalCompare(cmp, es[i].ikey, es[j].ikey) < 0;
    }
  }

  lemma NewestIsFirst(cmp: Comparator, es: seq<Entry>, snapshot: nat, k: Bytes, i: int)
    requires WellFormed(cmp, es) && Candidate(cmp, es, snapshot, k, i)
    ensures Newest(cmp, es, snapshot, k, i) <==> forall j :: 0 <= j < i ==> !Candidate(cmp, es, snapshot, k, j)
  {
    forall j | Candidate(cmp, es, snapshot, k, j)
      ensures j < i ==> Trailer(es[j].ikey) > Trailer(es[i].ikey)
      ensures j > i ==> Trailer(es[j].ikey) < Trailer(es[i].ikey)
    {
      if j < i { KeysAscend(cmp, es, j, i); } else if i < j { KeysAscend(cmp, es, i, j); }
    }
  }

  lemma LiveIsNewest(cmp: Comparator, es: seq<Entry>, snapshot: nat, i: int)
    requires WellFormed(cmp, es) && 0 <= i < |es|
    ensures Live(cmp, es, snapshot, i) <==> Newest(cmp, es, snapshot, UserKey(es, i), i) && TypeAt(es, i) == Value
  {
    if Sequence(es, i) <= snapshot {
      NewestIsFirst(cmp, es, snapshot, UserKey(es, i), i);
    }
  }

  lemma NewestUnique(cmp: Comparator, es: seq<Entry>, snapshot: nat, k: Bytes, i: int, j: int)
    requires WellFormed(cmp, es)
    requires Newest(cmp, es, snapshot, k, i) && Newest(cmp, es, snapshot, k, j)
    ensures i == j
  {
    NewestIsFirst(cmp, es, snapshot, k, i);
    NewestIsFirst(cmp, es, snapshot, k, j);
  }

  /** Live positions and user-visible keys are the same thing. */
  lemma LiveHoldsUserValue(cmp: Comparator, es: seq<Entry>, snapshot: nat, i: int)
    requires WellFormed(cmp, es) && Live(cmp, es, snapshot, i)
    ensures UserValue(cmp, es, snapshot, UserKey(es, i)) == Some(es[i].value)
  {
    LiveIsNewest(cmp, es, snapshot, i);
    var k := UserKey(es, i);
    forall j | Newest(cmp, es, snapshot, k, j) ensures j == i {
      NewestUnique(cmp, es, snapshot, k, i, j);
    }
  }

  /** The entry holds a value for `k`, and of the entries for `k` that are not after the snapshot none has a greater
      sequence number. */
  ghost predicate Shows(es: seq<Entry>, snapshot: nat, k: Bytes, i: int)
    requires forall j :: 0 <= j < |es| ==> ParseInternalKey(es[j].ikey).Some?
  {
    && 0 <= i < |es|
    && var e := ParseInternalKey(es[i].ikey).value;
       && e.userKey == k && e.valueType == Value && e.sequence <= snapshot
       && forall j :: 0 <= j < |es| ==>
            var f := ParseInternalKey(es[j].ikey).value;
            f.userKey == k && f.sequence <= snapshot ==> f.sequence <= e.sequence
  }

  lemma ShownIsValue(cmp: Comparator, es: seq<Entry>, snapshot: nat, k: Bytes, i: int)
    requires WellFormed(cmp, es) && Shows(es, snapshot, k, i)
    ensures UserValue(cmp, es, snapshot, k) == Some(es[i].value)
  {
    assert Newest(cmp, es, snapshot, k, i);
    LiveIsNewest(cmp, es, snapshot, i);
    LiveHoldsUserValue(cmp, es, snapshot, i);
  }

  lemma ValueIsShown(cmp: Comparator, es: seq<Entry>, snapshot: nat, k: Bytes) returns (i: int)
    requires WellFormed(cmp, es) && UserValue(cmp, es, snapshot, k).Some?
    ensures Shows(es, snapshot, k, i)
  {
    i :| Newest(cmp, es, snapshot, k, i) && TypeAt(es, i) == Value;
    forall j | 0 <= j < |es| && UserKey(es, j) == k && Sequence(es, j) <= snapshot
      ensures Sequence(es, j) <= Sequence(es, i)
    {
      assert Candidate(cmp, es, snapshot, k, j);
    }
  }

  /** What the user sees under a key: the value with the greatest sequence number up to the snapshot's, and nothing
      if that is a deletion or there is none. */
  lemma UserValueIs(cmp: Comparator, es: seq<Entry>, snapshot: nat, k: Bytes)
    requires WellFormed(cmp, es)
    ensures forall i :: Shows(es, snapshot, k, i) ==> UserValue(cmp, es, snapshot, k) == Some(es[i].value)
    ensures UserValue(cmp, es, snapshot, k).Some? ==> exists i :: Shows(es, snapshot, k, i)
  {
    forall i | Shows(es, snapshot, k, i) ensures UserValue(cmp, es, snapshot, k) == Some(es[i].value) {
      ShownIsValue(cmp, es, snapshot, k, i);
    }
    if UserValue(cmp, es, snapshot, k).Some? {
      var i := ValueIsShown(cmp, es, snapshot, k);
    }
  }

  lemma UserValueIsLive(cmp: Comparator, es: seq<Entry>, snapshot: nat, k: Bytes) returns (i: int)
    requires WellFormed(cmp, es) && UserValue(cmp, es, snapshot, k).Some?
    ensures Live(cmp, es, snapshot, i) && UserKey(es, i) == k
  {
    i :| Newest(cmp, es, snapshot, k, i) && TypeAt(es, i) == Value;
    LiveIsNewest(cmp, es, snapshot, i);
  }

  /** A live position with no live position of the range before it is the least key of the range. */
  lemma LeastFromLive(cmp: Comparator, es: seq<Entry>, snapshot: nat, r: Range, p: int)
    requires WellFormed(cmp, es)
    requires p == |es| || (Live(cmp, es, snapshot, p) && InRange(cmp, r, UserKey(es, p)))
    requires forall j :: 0 <= j < p && Live(cmp, es, snapshot, j) ==> !InRange(cmp, r, UserKey(es, j))
    ensures IsLeast(cmp, es, snapshot, r, if p == |es| then Invalid else At(UserKey(es, p), es[p].value))
  {
    if p < |es| { LiveHoldsUserValue(cmp, es, snapshot, p); }
    forall k | InRange(cmp, r, k) && UserValue(cmp, es, snapshot, k).Some?
      ensures p < |es| && cmp(UserKey(es, p), k) <= 0
    {
      var i := UserValueIsLive(cmp, es, snapshot, k);
      KeysAscend(cmp, es, p, i);
    }
  }

  lemma GreatestFromLive(cmp: Comparator, es: seq<Entry>, snapshot: nat, r: Range, p: int)
    requires WellFormed(cmp, es)
    requires p == -1 || (Live(cmp, es, snapshot, p) && InRange(cmp, r, UserKey(es, p)))
    requires forall j :: p < j < |es| && Live(cmp, es, snapshot, j) ==> !InRange(cmp, r, UserKey(es, j))
    ensures IsGreatest(cmp, es, snapshot, r, if p == -1 then Invalid else At(UserKey(es, p), es[p].value))
  {
    if p != -1 { LiveHoldsUserValue(cmp, es, snapshot, p); }
    forall k | InRange(cmp, r, k) && UserValue(cmp, es, snapshot, k).Some?
      ensures p != -1 && cmp(k, UserKey(es, p)) <= 0
    {
      var i := UserValueIsLive(cmp, es, snapshot, k);
      KeysAscend(cmp, es, i, p);
    }
  }
}

/** The two-way iterator over the log. It yields user keys and values while it moves an internal
    iterator over all versions. */
module DbIter {
  import opened ByteStrings
  import opened DbFormat
  import opened SnapshotView

  datatype Direction = Forward | Reverse

  /** Where the internal iterator's own `Seek` lands: the first entry at or past the target. */
  function LowerBound(cmp: Comparator, es: seq<Entry>, target: Bytes): (p: nat)
    requires |target| >= 8 && forall i :: 0 <= i < |es| ==> |es[i].ikey| >= 8
    ensures p <= |es|
    ensures forall j :: 0 <= j < p ==> InternalCompare(cmp, es[j].ikey, target) < 0
    ensures p < |es| ==> InternalCompare(cmp, es[p].ikey, target) >= 0
  {
    if es == [] || InternalCompare(cmp, es[0].ikey, target) >= 0 then 0
    else
      1 + LowerBound(cmp, es[1..], target)
  }

  // ----- The forward scan

  datatype ScanStart = ScanStart(pos: int, skipping: bool, skip: Bytes)

  /** With a key to skip, the visible entries before the start have keys up to it and those from
      the start on have keys no smaller. Without one, no key has visible entries on both sides. */
  ghost predicate StartFits(cmp: Comparator, es: seq<Entry>, snapshot: nat, s: ScanStart)
    requires WellFormed(cmp, es)
  {
    && 0 <= s.pos <= |es|
    && if s.skipping then
         && (forall i :: 0 <= i < s.pos && Sequence(es, i) <= snapshot ==> cmp(UserKey(es, i), s.skip) <= 0)
         && (forall i :: s.pos <= i < |es| && Sequence(es, i) <= snapshot ==> cmp(s.skip, UserKey(es, i)) <= 0)
       else
         forall i, j :: 0 <= i < s.pos <= j < |es| && Sequence(es, i) <= snapshot ==> UserKey(es, i) != UserKey(es, j)
  }

  /** What the scan knows on reaching entry `i`; `d` is the deletion that set the key to skip, or -1. */
  ghost predicate Scanned(cmp: Comparator, es: seq<Entry>, snapshot: nat, s: ScanStart,
                          i: int, d: int, skipping: bool, skip: Bytes)
    requires WellFormed(cmp, es)
  {
    && 0 <= s.pos <= i <= |es|
    && (skipping <==> s.skipping || d >= 0)
    && (d >= 0 ==> s.pos <= d < i && Sequence(es, d) <= snapshot && UserKey(es, d) == skip)
    && (d < 0 ==> skip == s.skip)
    && (s.skipping ==> cmp(s.skip, skip) <= 0)
    && (skipping ==> forall q :: 0 <= q < i && Sequence(es, q) <= snapshot ==> cmp(UserKey(es, q), skip) <= 0)
    && (!skipping ==> forall q :: s.pos <= q < i ==> Sequence(es, q) > snapshot)
    && forall j :: s.pos <= j < i && Live(cmp, es, snapshot, j) ==> s.skipping && UserKey(es, j) == s.skip
  }

  lemma ScanSkips(cmp: Comparator, es: seq<Entry>, snapshot: nat, s: ScanStart, i: int, d: int, skipping: bool,
                  skip: Bytes)
    requires WellFormed(cmp, es) && StartFits(cmp, es, snapshot, s)
    requires i < |es| && Scanned(cmp, es, snapshot, s, i, d, skipping, skip)
    requires Sequence(es, i) > snapshot || (skipping && cmp(UserKey(es, i), skip) <= 0)
    ensures Scanned(cmp, es, snapshot, s, i + 1, d, skipping, skip)
  {
    if d >= 0 && Sequence(es, i) <= snapshot {
      KeysAscend(cmp, es, d, i);
      assert UserKey(es, d) == UserKey(es, i);
    }
  }

  lemma ScanDeletion(cmp: Comparator, es: seq<Entry>, snapshot: nat, s: ScanStart, i: int, d: int, skipping: bool,
                     skip: Bytes)
    requires WellFormed(cmp, es) && StartFits(cmp, es, snapshot, s)
    requires i < |es| && Scanned(cmp, es, snapshot, s, i, d, skipping, skip)
    requires Sequence(es, i) <= snapshot && TypeAt(es, i) == Deletion
    ensures Scanned(cmp, es, snapshot, s, i + 1, i, true, UserKey(es, i))
  {
    AscendTo(cmp, es, i);
  }

  lemma ScanFinds(cmp: Comparator, es: seq<Entry>, snapshot: nat, s: ScanStart, i: int, d: int, skipping: bool,
                  skip: Bytes)
    requires WellFormed(cmp, es) && StartFits(cmp, es, snapshot, s)
    requires i < |es| && Scanned(cmp, es, snapshot, s, i, d, skipping, skip)
    requires Sequence(es, i) <= snapshot && TypeAt(es, i) == Value
    requires !(skipping && cmp(UserKey(es, i), skip) <= 0)
    ensures Live(cmp, es, snapshot, i)
    ensures s.skipping ==> cmp(s.skip, UserKey(es, i)) < 0
  {
    OrderTransitive(cmp, s.skip, skip, UserKey(es, i));
  }

  lemma AscendTo(cmp: Comparator, es: seq<Entry>, i: int)
    requires WellFormed(cmp, es) && 0 <= i < |es|
    ensures forall q :: 0 <= q <= i ==> cmp(UserKey(es, q), UserKey(es, i)) <= 0
    ensures forall q :: i <= q < |es| ==> cmp(UserKey(es, i), UserKey(es, q)) <= 0
  {
    forall q | 0 <= q < |es|
      ensures q <= i ==> cmp(UserKey(es, q), UserKey(es, i)) <= 0
      ensures i <= q ==> cmp(UserKey(es, i), UserKey(es, q)) <= 0
    {
      if q <= i { KeysAscend(cmp, es, q, i); } else { KeysAscend(cmp, es, i, q); }
    }
  }

  ghost predicate NoLive(cmp: Comparator, es: seq<Entry>, snapshot: nat, lo: int, hi: int)
    requires WellFormed(cmp, es)
  {
    forall q :: lo < q <= hi ==> !Live(cmp, es, snapshot, q)
  }

  // ----- The backward scan

  /** What the backward scan knows before it looks at entry `p`; `j` is the entry it holds saved,
      or -1 when it holds none. */
  ghost predicate BackScanned(cmp: Comparator, es: seq<Entry>, snapshot: nat, start: int, p: int, j: int)
    requires WellFormed(cmp, es)
  {
    && -1 <= p <= start < |es|
    && (j == -1 || (p < j <= start && Sequence(es, j) <= snapshot && TypeAt(es, j) == Value))
    && (j >= 0 ==> forall q :: p < q < j ==> Sequence(es, q) > snapshot)
    && NoLive(cmp, es, snapshot, if j == -1 then p else j, start)
  }

  lemma BackSkips(cmp: Comparator, es: seq<Entry>, snapshot: nat, start: int, p: int, j: int)
    requires WellFormed(cmp, es) && BackScanned(cmp, es, snapshot, start, p, j) && p >= 0
    requires Sequence(es, p) > snapshot
    ensures BackScanned(cmp, es, snapshot, start, p - 1, j)
  {
  }

  lemma BackSaves(cmp: Comparator, es: seq<Entry>, snapshot: nat, start: int, p: int, j: int)
    requires WellFormed(cmp, es) && BackScanned(cmp, es, snapshot, start, p, j) && p >= 0
    requires Sequence(es, p) <= snapshot
    requires j == -1 || cmp(UserKey(es, p), UserKey(es, j)) >= 0
    ensures BackScanned(cmp, es, snapshot, start, p - 1, if TypeAt(es, p) == Deletion then -1 else p)
  {
    if j >= 0 {
      KeysAscend(cmp, es, p, j);
      assert UserKey(es, p) == UserKey(es, j);
      assert !Live(cmp, es, snapshot, j);
    }
    forall q | p < q <= start ensures !Live(cmp, es, snapshot, q) {
      if j >= 0 && q < j { assert Sequence(es, q) > snapshot; }
    }
  }

  lemma BackFinds(cmp: Comparator, es: seq<Entry>, snapshot: nat, start: int, p: int, j: int)
    requires WellFormed(cmp, es) && BackScanned(cmp, es, snapshot, start, p, j) && j >= 0
    requires p == -1 || (Sequence(es, p) <= snapshot && cmp(UserKey(es, p), UserKey(es, j)) < 0)
    ensures Live(cmp, es, snapshot, j)
  {
    forall q | 0 <= q < j && Sequence(es, q) <= snapshot ensures UserKey(es, q) != UserKey(es, j) {
      KeysAscend(cmp, es, q, p);
    }
  }

  lemma PrevIsGreatest(cmp: Comparator, es: seq<Entry>, snapshot: nat, k: Bytes, start: int, j: int)
    requires WellFormed(cmp, es) && -1 <= j <= start < |es|
    requires start == -1 || cmp(UserKey(es, start), k) < 0
    requires forall q :: start < q < |es| && Sequence(es, q) <= snapshot ==> cmp(k, UserKey(es, q)) <= 0
    requires j == -1 || Live(cmp, es, snapshot, j)
    requires NoLive(cmp, es, snapshot, j, start)
    ensures IsGreatest(cmp, es, snapshot, Below(k), if j == -1 then Invalid else At(UserKey(es, j), es[j].value))
  {
    if j >= 0 {
      KeysAscend(cmp, es, j, start);
      OrderTransitive(cmp, UserKey(es, j), UserKey(es, start), k);
    }
    GreatestFromLive(cmp, es, snapshot, Below(k), j);
  }

  class DBIter {
    const cmp: Comparator
    const entries: seq<Entry>
    const snapshot: nat
    var pos: int             // the internal iterator; -1 when it is not valid
    var savedKey: Bytes
    var savedValue: Bytes
    var direction: Direction
    var valid: bool

    /** While reversed, the saved pair is the live entry `j`; the internal iterator rests on a
        visible entry of a smaller key, or before the first entry; and everything in between is
        invisible at the snapshot. */
    ghost predicate ReverseAt(j: int)
      requires WellFormed(cmp, entries)
      reads this
    {
      && -1 <= pos < j
      && Live(cmp, entries, snapshot, j)
      && savedKey == UserKey(entries, j)
      && savedValue == entries[j].value
      && (pos >= 0 ==> Sequence(entries, pos) <= snapshot && cmp(UserKey(entries, pos), savedKey) < 0)
      && forall q :: pos < q < j ==> Sequence(entries, q) > snapshot
    }

    ghost predicate Inv()
      reads this
    {
      && WellFormed(cmp, entries)
      && snapshot <= MAX_SEQUENCE_NUMBER
      && -1 <= pos < |entries|
      && (valid && direction == Forward ==> pos >= 0 && Live(cmp, entries, snapshot, pos))
      && (valid && direction == Reverse ==> exists j :: ReverseAt(j))
    }

    ghost function Current(): Cursor
      requires Inv()
      reads this
    {
      if !valid then Invalid
      else if direction == Forward then At(UserKey(entries, pos), entries[pos].value)
      else At(savedKey, savedValue)
    }

    constructor (cmp: Comparator, entries: seq<Entry>, snapshot: nat)
      requires WellFormed(cmp, entries) && snapshot <= MAX_SEQUENCE_NUMBER
      ensures Inv() && Current() == Invalid
      ensures this.cmp == cmp && this.entries == entries && this.snapshot == snapshot
    {
      this.cmp, this.entries, this.snapshot := cmp, entries, snapshot;
      pos, savedKey, savedValue, direction, valid := -1, [], [], Forward, false;
    }

    method Key() returns (k: Bytes)
      requires Inv() && valid
      ensures k == Current().key
    {
      k := if direction == Forward then ExtractUserKey(entries[pos].ikey) else savedKey;
    }

    method ValueOf() returns (v: Bytes)
      requires Inv() && valid
      ensures v == Current().value
    {
      v := if direction == Forward then entries[pos].value else savedValue;
    }

    method IterNext()
      requires 0 <= pos < |entries|
      modifies this`pos
      ensures pos == if old(pos) + 1 < |entries| then old(pos) + 1 else -1
    {
      pos := if pos + 1 < |entries| then pos + 1 else -1;
    }

    /** Moves forward from `pos` to the first live entry; when `skipping`, to the first live entry
        above `savedKey`. */
    method FindNextUserEntry(skipping0: bool)
      requires WellFormed(cmp, entries) && snapshot <= MAX_SEQUENCE_NUMBER
      requires 0 <= pos < |entries| && direction == Forward
      requires StartFits(cmp, entries, snapshot, ScanStart(pos, skipping0, savedKey))
      modifies this`pos, this`savedKey, this`valid
      ensures Inv()
      ensures valid ==> old(pos) <= pos && (skipping0 ==> cmp(old(savedKey), UserKey(entries, pos)) < 0)
      ensures forall j :: old(pos) <= j < (if valid then pos else |entries|) && Live(cmp, entries, snapshot, j)
                          ==> skipping0 && UserKey(entries, j) == old(savedKey)
    {
      var skipping := skipping0;
      ghost var start := ScanStart(pos, skipping0, savedKey);
      ghost var i, d := pos, -1;
      while true
        invariant 0 <= pos == i < |entries| && Scanned(cmp, entries, snapshot, start, i, d, skipping, savedKey)
        decreases |entries| - i
      {
        var ikey := ParseInternalKey(entries[pos].ikey).value;
        if ikey.sequence <= snapshot && ikey.valueType == Deletion {
          ScanDeletion(cmp, entries, snapshot, start, i, d, skipping, savedKey);
          savedKey := ikey.userKey;
          skipping := true;
          d := i;
        } else if ikey.sequence <= snapshot && !(skipping && cmp(ikey.userKey, savedKey) <= 0) {
          ScanFinds(cmp, entries, snapshot, start, i, d, skipping, savedKey);
          valid := true;
          savedKey := [];
          return;
        } else {
          ScanSkips(cmp, entries, snapshot, start, i, d, skipping, savedKey);
        }
        IterNext();
        i := i + 1;
        if pos == -1 { break; }
      }
      savedKey := [];
      valid := false;
    }

    method Next()
      requires Inv() && valid
      modifies this
      ensures Inv()
      ensures CursorStep(cmp, entries, snapshot, SnapshotView.Next, old(Current()), Current())
    {
      ghost var k := Current().key;
      ghost var c: int;
      if direction == Reverse {
        c :| ReverseAt(c);
        direction := Forward;
        if pos == -1 {
          pos := if |entries| > 0 then 0 else -1;
        } else {
          AscendTo(cmp, entries, pos);
          IterNext();
        }
        if pos == -1 {
          assert false;  // the source gives up here; the saved key's own entries lie ahead
        }
      } else {
        c := pos;
        savedKey := ExtractUserKey(entries[pos].ikey);
      }
      AscendTo(cmp, entries, c);
      ghost var start := pos;
      FindNextUserEntry(true);
      ghost var p := if valid then pos else |entries|;
      LeastFromLive(cmp, entries, snapshot, Above(k), p);
    }

    /** Moves backward from `pos` to the greatest live entry at or before it. */
    method FindPrevUserEntry() returns (ghost j: int)
      requires WellFormed(cmp, entries) && snapshot <= MAX_SEQUENCE_NUMBER
      requires -1 <= pos < |entries| && direction == Reverse
      modifies this
      ensures Inv()
      ensures valid ==> direction == Reverse && ReverseAt(j) && j <= old(pos)
      ensures !valid ==> j == -1
      ensures NoLive(cmp, entries, snapshot, j, old(pos))
    {
      var valueType := Deletion;
      ghost var start := pos;
      j := -1;
      while pos >= 0
        invariant direction == Reverse && BackScanned(cmp, entries, snapshot, start, pos, j)
        invariant valueType == Deletion <==> j == -1
        invariant j >= 0 ==> savedKey == UserKey(entries, j) && savedValue == entries[j].value
      {
        var ikey := ParseInternalKey(entries[pos].ikey).value;
        if ikey.sequence <= snapshot {
          if valueType != Deletion && cmp(ikey.userKey, savedKey) < 0 {
            break;
          }
          BackSaves(cmp, entries, snapshot, start, pos, j);
          valueType := ikey.valueType;
          if valueType == Deletion {
            savedKey := [];
            savedValue := [];
            j := -1;
          } else {
            savedKey := ExtractUserKey(entries[pos].ikey);
            savedValue := entries[pos].value;
            j := pos;
          }
        } else {
          BackSkips(cmp, entries, snapshot, start, pos, j);
        }
        pos := pos - 1;
      }
      if valueType == Deletion {
        valid := false;
        savedKey := [];
        savedValue := [];
        direction := Forward;
      } else {
        valid := true;
        BackFinds(cmp, entries, snapshot, start, pos, j);
        assert ReverseAt(j);
      }
    }

    method Prev()
      requires Inv() && valid
      modifies this
      ensures Inv()
      ensures CursorStep(cmp, entries, snapshot, SnapshotView.Prev, old(Current()), Current())
    {
      ghost var k := Current().key;
      if direction == Forward {
        LeaveKey();
        if pos == -1 {
          valid := false;
          savedKey := [];
          savedValue := [];
          PrevIsGreatest(cmp, entries, snapshot, k, -1, -1);
          return;
        }
        direction := Reverse;
      } else {
        ghost var c :| ReverseAt(c);
        AscendTo(cmp, entries, c);
      }
      ghost var start := pos;
      ghost var j := FindPrevUserEntry();
      PrevIsGreatest(cmp, entries, snapshot, k, start, j);
    }

    /** Moves backward until the key changes. */
    method LeaveKey()
      requires Inv() && valid && direction == Forward
      modifies this`pos, this`savedKey
      ensures -1 <= pos < old(pos) && savedKey == UserKey(entries, old(pos))
      ensures pos >= 0 ==> cmp(UserKey(entries, pos), savedKey) < 0
      ensures forall q :: pos < q < |entries| ==> cmp(savedKey, UserKey(entries, q)) <= 0
    {
      ghost var c := pos;
      AscendTo(cmp, entries, c);
      savedKey := ExtractUserKey(entries[pos].ikey);
      while true
        invariant 0 <= pos <= c && savedKey == UserKey(entries, c)
        invariant forall q :: pos <= q < |entries| ==> cmp(savedKey, UserKey(entries, q)) <= 0
        decreases pos
      {
        pos := pos - 1;
        if pos == -1 { return; }
        if cmp(ExtractUserKey(entries[pos].ikey), savedKey) < 0 { return; }
      }
    }

    method Seek(target: Bytes)
      requires Inv()
      modifies this
      ensures Inv()
      ensures CursorStep(cmp, entries, snapshot, SnapshotView.Seek(target), old(Current()), Current())
    {
      direction := Forward;
      savedValue := [];
      ghost var seekKey := ParsedInternalKey(target, snapshot, VALUE_TYPE_FOR_SEEK);
      savedKey := AppendInternalKey([], ParsedInternalKey(target, snapshot, VALUE_TYPE_FOR_SEEK));
      ParseUndoesAppend(seekKey);
      ghost var bound := LowerBound(cmp, entries, savedKey);
      SeekBound(target, bound);
      pos := LowerBound(cmp, entries, savedKey);
      if pos < |entries| {
        FindNextUserEntry(false);
      } else {
        pos := -1;
        valid := false;
      }
      LeastFromLive(cmp, entries, snapshot, AtLeast(target), if valid then pos else |entries|);
    }

    /** The seek key separates the log: before it, smaller keys and versions of `target` too new to
        be visible; from it on, keys at or above `target`. */
    lemma SeekBound(target: Bytes, p: int)
      requires WellFormed(cmp, entries) && snapshot <= MAX_SEQUENCE_NUMBER && 0 <= p <= |entries|
      requires var t := AppendInternalKey([], ParsedInternalKey(target, snapshot, VALUE_TYPE_FOR_SEEK));
               && (forall j :: 0 <= j < p ==> InternalCompare(cmp, entries[j].ikey, t) < 0)
               && (p < |entries| ==> InternalCompare(cmp, entries[p].ikey, t) >= 0)
      ensures forall j :: p <= j < |entries| ==> cmp(target, UserKey(entries, j)) <= 0
      ensures forall j :: 0 <= j < p && Sequence(entries, j) <= snapshot ==> cmp(UserKey(entries, j), target) < 0
    {
      var key := ParsedInternalKey(target, snapshot, VALUE_TYPE_FOR_SEEK);
      var t := AppendInternalKey([], key);
      ParseUndoesAppend(key);
      forall j | 0 <= j < |entries|
        ensures j < p && Sequence(entries, j) <= snapshot ==> cmp(UserKey(entries, j), target) < 0
        ensures p <= j ==> cmp(target, UserKey(entries, j)) <= 0
      {
        InternalCompareOrder(cmp, entries[j].ikey, t);
        if p <= j {
          InternalCompareOrder(cmp, entries[p].ikey, t);
          KeysAscend(cmp, entries, p, j);
          OrderTransitive(cmp, target, UserKey(entries, p), UserKey(entries, j));
        }
      }
    }

    method SeekToFirst()
      requires Inv()
      modifies this
      ensures Inv()
      ensures CursorStep(cmp, entries, snapshot, SnapshotView.SeekToFirst, old(Current()), Current())
    {
      direction := Forward;
      savedValue := [];
      pos := if |entries| > 0 then 0 else -1;
      if pos >= 0 {
        FindNextUserEntry(false);
      } else {
        valid := false;
      }
      LeastFromLive(cmp, entries, snapshot, Everything, if valid then pos else |entries|);
    }

    method SeekToLast()
      requires Inv()
      modifies this
      ensures Inv()
      ensures CursorStep(cmp, entries, snapshot, SnapshotView.SeekToLast, old(Current()), Current())
      ensures valid ==> direction == Reverse
    {
      direction := Reverse;
      savedValue := [];
      pos := |entries| - 1;
      ghost var j := FindPrevUserEntry();
      GreatestFromLive(cmp, entries, snapshot, Everything, j);
    }

    method Call(op: Op)
      requires Inv() && (op.Next? || op.Prev? ==> valid)
      modifies this
      ensures Inv() && CursorStep(cmp, entries, snapshot, op, old(Current()), Current())
    {
      match op
      case SeekToFirst => SeekToFirst();
      case SeekToLast => SeekToLast();
      case Seek(target) => Seek(target);
      case Next => Next();
      case Prev => Prev();
    }

    /** What the user of the iterator sees. */
    method Seen() returns (c: Cursor)
      requires Inv()
      ensures c == Current()
    {
      c := Invalid;
      if valid {
        var k := Key();
        var v := ValueOf();
        c := At(k, v);
      }
    }
  }

  /** Position `f` is that of the first entry of its key. */
  ghost predicate FirstOfKey(es: seq<Entry>, f: int)
    requires 0 <= f < |es| && forall i :: 0 <= i < |es| ==> ParseInternalKey(es[i].ikey).Some?
  {
    forall i :: 0 <= i < f ==> UserKey(es, i) != UserKey(es, f)
  }

  /** While reversed, the internal iterator stands just before the entries of the current key exactly
      if there is nothing before them or what is there is visible at the snapshot. */
  lemma JustBefore(it: DBIter, j: int, f: int)
    requires it.Inv() && it.ReverseAt(j) && 0 <= f < |it.entries|
    requires UserKey(it.entries, f) == it.savedKey && FirstOfKey(it.entries, f)
    ensures it.pos + 1 == f <==> f == 0 || Sequence(it.entries, f - 1) <= it.snapshot
  {
    var es := it.entries;
    assert f <= j;
    if it.pos >= f {
      KeysAscend(it.cmp, es, f, it.pos);
    }
  }

  function VersionOf(key: Bytes, sequence: nat): Entry {
    Entry(AppendInternalKey([], ParsedInternalKey(key, sequence, Value)), [])
  }

  lemma LogOfTwo(a: Bytes, x: nat, b: Bytes, y: nat)
    requires BytewiseCompare(a, b) < 0 && x <= MAX_SEQUENCE_NUMBER && y <= MAX_SEQUENCE_NUMBER
    ensures var es := [VersionOf(a, x), VersionOf(b, y)];
            && WellFormed(BytewiseCompare, es) && Sequence(es, 0) == x && Sequence(es, 1) == y
            && UserKey(es, 0) == a && UserKey(es, 1) == b && TypeAt(es, 1) == Value
  {
    var e, f := VersionOf(a, x), VersionOf(b, y);
    VersionParses(a, x);
    VersionParses(b, y);
    BytewiseIsTotalOrder();
    InternalCompareOrder(BytewiseCompare, e.ikey, f.ikey);
    TwoInOrder(BytewiseCompare, e, f);
  }

  lemma VersionParses(key: Bytes, sequence: nat)
    requires sequence <= MAX_SEQUENCE_NUMBER
    ensures ParseInternalKey(VersionOf(key, sequence).ikey) == Some(ParsedInternalKey(key, sequence, Value))
  {
    ParseUndoesAppend(ParsedInternalKey(key, sequence, Value));
  }

  lemma TwoInOrder(cmp: Comparator, e: Entry, f: Entry)
    requires IsTotalOrder(cmp) && ParseInternalKey(e.ikey).Some? && ParseInternalKey(f.ikey).Some?
    requires InternalCompare(cmp, e.ikey, f.ikey) < 0
    ensures WellFormed(cmp, [e, f])
  {
  }

  /** It need not: with a version too new for the snapshot in front of the last key, moving to that
      key leaves the internal iterator before the other version too. */
  method NotJustBefore(a: Bytes, x: nat, b: Bytes, y: nat, snapshot: nat) returns (it: DBIter)
    requires BytewiseCompare(a, b) < 0 && y <= snapshot < x <= MAX_SEQUENCE_NUMBER
    ensures it.entries == [VersionOf(a, x), VersionOf(b, y)] && it.snapshot == snapshot && it.Inv()
    ensures it.valid && it.direction == Reverse && it.ReverseAt(1) && it.pos == -1
    ensures FirstOfKey(it.entries, 1) && UserKey(it.entries, 1) == it.savedKey
  {
    var es := [VersionOf(a, x), VersionOf(b, y)];
    LogOfTwo(a, x, b, y);
    it := new DBIter(BytewiseCompare, es, snapshot);
    it.SeekToLast();
    assert Live(BytewiseCompare, es, snapshot, 1);
    LiveHoldsUserValue(BytewiseCompare, es, snapshot, 1);
    assert InRange(BytewiseCompare, Everything, b);
    assert it.valid;
    ghost var j :| it.ReverseAt(j);
    assert j == 1;
  }

  /** For one: version 5 of key 1 and version 1 of key 2, seen at snapshot 3. */
  method NotJustBeforeTwo() returns (it: DBIter)
    ensures it.Inv() && it.ReverseAt(1) && |it.entries| == 2 && it.snapshot == 3 && it.savedKey == [2]
    ensures FirstOfKey(it.entries, 1) && UserKey(it.entries, 0) == [1] && it.pos + 1 != 1
  {
    assert BytewiseCompare([1], [2]) < 0;
    LogOfTwo([1], 5, [2], 1);
    it := NotJustBefore([1], 5, [2], 1, 3);
  }

  /** Drives an iterator through `ops` and records what its user sees, up to the first `Next` or
      `Prev` on an invalid iterator, which its callers must not make. What it shows is the run of
      a cursor over the ordered map. */
  method Run(cmp: Comparator, entries: seq<Entry>, snapshot: nat, ops: seq<Op>) returns (trace: seq<Cursor>)
    requires WellFormed(cmp, entries) && snapshot <= MAX_SEQUENCE_NUMBER
    ensures 1 <= |trace| <= |ops| + 1
    ensures CursorRun(cmp, entries, snapshot, ops[..|trace| - 1], trace)
    ensures |trace| <= |ops| ==> trace[|trace| - 1] == Invalid && (ops[|trace| - 1].Next? || ops[|trace| - 1].Prev?)
  {
    var it := new DBIter(cmp, entries, snapshot);
    trace := [Invalid];
    var n := 0;
    while n < |ops| && (it.valid || !(ops[n].Next? || ops[n].Prev?))
      invariant n <= |ops| && |trace| == n + 1
      invariant fresh(it) && it.cmp == cmp && it.entries == entries && it.snapshot == snapshot && it.Inv()
      invariant trace[n] == it.Current()
      invariant CursorRun(cmp, entries, snapshot, ops[..n], trace)
    {
      it.Call(ops[n]);
      var seen := it.Seen();
      trace := trace + [seen];
      n := n + 1;
    }
  }
}
