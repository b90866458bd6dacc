/** The field iterator that encoder and decoder share, and the check for missing required fields. */
module NanopbIter {
  import opened ByteStrings
  import opened NanopbWire
  import opened NanopbSchema
  import opened NanopbDecode
  import opened NanopbRoundTrip

  /** Field numbers are not zero, and no two fields of a message share one. */
  predicate FieldDescribed(f: Field)
    decreases f, 0
  {
    f.tag != 0 && (f.ltype.LSubmessage? ==> Described(f.ltype.fields))
  }

  predicate Described(fs: seq<Field>)
    decreases fs, 1
  {
    && (forall i :: 0 <= i < |fs| ==> FieldDescribed(fs[i]))
    && (forall i, j :: 0 <= i < j < |fs| ==> fs[i].tag != fs[j].tag)
  }

  /** The tag at a position of the array; a zero tag ends it. */
  function TagAt(fs: seq<Field>, pos: nat): nat {
    if pos < |fs| then fs[pos].tag else 0
  }

  class FieldIter {
    const fs: seq<Field>
    var pos: nat
    var requiredIndex: nat

    ghost predicate Valid()
      reads this
    {
      && Described(fs)
      && (pos < |fs| || (fs == [] && pos == 0))
      && requiredIndex == RequiredCount(fs[..pos])
    }

    constructor (fs: seq<Field>)
      requires Described(fs)
      ensures Valid() && this.fs == fs && pos == 0
    {
      this.fs, pos, requiredIndex := fs, 0, 0;
    }

    method Begin() returns (more: bool)
      requires Described(fs)
      modifies this
      ensures Valid() && pos == 0 && more == (fs != [])
    {
      pos, requiredIndex := 0, 0;
      more := TagAt(fs, pos) != 0;
    }

    /** Past the last field the iterator starts again at the first one. */
    method Next() returns (more: bool)
      requires Valid()
      modifies this
      ensures Valid()
      ensures more == (old(pos) + 1 < |fs|)
      ensures pos == if more then old(pos) + 1 else 0
    {
      var prev := pos;
      assert forall i :: 0 <= i < |fs| ==> FieldDescribed(fs[i]);
      if TagAt(fs, prev) == 0 { return false; }
      pos := pos + 1;
      if TagAt(fs, pos) == 0 {
        more := Begin();
        return false;
      }
      RequiredStep(fs, prev);
      if fs[prev].htype.Required? { requiredIndex := requiredIndex + 1; }
      return true;
    }

    /** Searches all around, from the present position. When nothing is found the iterator is back
        where it was. In an empty message the end mark itself answers to tag zero. */
    method Find(tag: nat) returns (found: bool)
      requires Valid()
      modifies this
      ensures Valid()
      ensures found && fs != [] ==> pos == FindField(fs, tag)
      ensures !found ==> FindField(fs, tag) == -1 && pos == old(pos)
      ensures fs == [] ==> found == (tag == 0)
    {
      var start := pos;
      ghost var n, k := |fs|, 0;
      while true
        invariant Valid() && k <= n && (k == n ==> n == 0)
        invariant pos == if start + k < n then start + k else if n == 0 then 0 else start + k - n
        invariant forall i :: start <= i < n && i < start + k ==> fs[i].tag != tag
        invariant forall i :: 0 <= i < start + k - n ==> fs[i].tag != tag
        decreases n - k
      {
        if TagAt(fs, pos) == tag {
          if n > 0 { FindIs(fs, pos); }
          return true;
        }
        var more := Next();
        k := k + 1;
        if pos == start {
          return false;
        }
      }
    }
  }

  lemma {:induction false} FindIs(fs: seq<Field>, i: nat)
    requires Described(fs) && i < |fs|
    ensures FindField(fs, fs[i].tag) == i
  {
    var k := FindField(fs, fs[i].tag);
    if k != i { assert false; }
  }

  // ----- The bitmap of required fields

  /** The members of `seen` from `lo` on as the bits of an `n`-bit word. */
  function Mask(seen: set<nat>, lo: nat, n: nat): nat
    decreases n
  {
    if n == 0 then 0 else (if lo in seen then 1 else 0) + 2 * Mask(seen, lo + 1, n - 1)
  }

  /** Setting a bit adds a member. */
  lemma {:induction false} MaskAdd(seen: set<nat>, lo: nat, n: nat, b: nat)
    requires b < n
    ensures Or(Mask(seen, lo, n), Pow2(b)) == Mask(seen + {lo + b}, lo, n)
    decreases n
  {
    var a := Mask(seen, lo, n);
    if b == 0 {
      MaskOther(seen, lo + 1, n - 1, lo);
    } else {
      MaskAdd(seen, lo + 1, n - 1, b - 1);
      assert lo + 1 + (b - 1) == lo + b;
      assert a / 2 == Mask(seen, lo + 1, n - 1) && Pow2(b) / 2 == Pow2(b - 1);
      assert a == 0 ==> Or(a / 2, Pow2(b - 1)) == Pow2(b - 1);
    }
  }

  lemma {:induction false} MaskOther(seen: set<nat>, lo: nat, n: nat, k: nat)
    requires k < lo || lo + n <= k
    ensures Mask(seen + {k}, lo, n) == Mask(seen, lo, n)
    decreases n
  {
    if n > 0 { MaskOther(seen, lo + 1, n - 1, k); }
  }

  lemma {:induction false} MaskFull(seen: set<nat>, lo: nat, n: nat, c: nat)
    requires c <= n && forall k :: lo + c <= k < lo + n ==> k !in seen
    ensures Mask(seen, lo, n) == Pow2(c) - 1 <==> forall k :: lo <= k < lo + c ==> k in seen
    decreases n
  {
    if n > 0 {
      MaskFull(seen, lo + 1, n - 1, if c == 0 then 0 else c - 1);
      if c > 0 {
        assert Pow2(c) - 1 == 2 * Pow2(c - 1) - 1;
        assert (forall k :: lo <= k < lo + c ==> k in seen)
          <==> lo in seen && (forall k :: lo + 1 <= k < lo + c ==> k in seen);
      }
    }
  }

  /** A word of ones moved down until `c` bits are left. */
  lemma LowBits(w: nat, c: nat)
    requires c <= w
    ensures (Pow2(w) - 1) / Pow2(w - c) == Pow2(c) - 1
  {
    var p, q := Pow2(c), Pow2(w - c);
    assert p * q == Pow2(w) by { Pow2Adds(c, w - c); }
    assert q * (p - 1) == p * q - q;
    DivideExact(Pow2(w) - 1, q, p - 1, q - 1);
  }

  lemma DivideExact(a: int, q: int, x: int, r: int)
    requires 0 <= r < q && a == q * x + r
    ensures a / q == x
  {
    var d := a / q;
    if d < x { Scale(q, d + 1, x); } else if d > x { Scale(q, x + 1, d); }
  }

  lemma Scale(q: int, x: int, y: int)
    requires q > 0 && x <= y
    ensures q * x <= q * y
  {
  }

  lemma {:induction false} MaskEmpty(lo: nat, n: nat)
    ensures Mask({}, lo, n) == 0
    decreases n
  {
    if n > 0 { MaskEmpty(lo + 1, n - 1); }
  }

  lemma TwoWords(index: nat, w: nat)
    requires index < 2 * w
    ensures index / w == (if index < w then 0 else 1) && index % w == (if index < w then index else index - w)
  {
    if index < w { DivideExact(index, w, 0, index); } else { DivideExact(index, w, 1, index - w); }
  }

  /** `fields_seen`: two words of `width` bits, for the numbers of the required fields seen. */
  class SeenFields {
    const width: nat
    const allBits: nat
    var words: seq<nat>
    ghost var seen: set<nat>

    ghost predicate Valid()
      reads this
    {
      && 2 * width == MAX_REQUIRED_FIELDS && allBits == Pow2(width) - 1
      && |words| == 2 && words[0] == Mask(seen, 0, width) && words[1] == Mask(seen, width, width)
    }

    constructor (width: nat)
      requires 2 * width == MAX_REQUIRED_FIELDS
      ensures Valid() && seen == {}
    {
      this.width, allBits, words, seen := width, Pow2(width) - 1, [0, 0], {};
      MaskEmpty(0, width);
      MaskEmpty(width, width);
    }

    method Mark(index: nat)
      requires Valid() && index < MAX_REQUIRED_FIELDS
      modifies this
      ensures Valid() && seen == old(seen) + {index}
    {
      if index < width {
        MaskAdd(seen, 0, width, index);
        MaskOther(seen, width, width, index);
      } else {
        MaskAdd(seen, width, width, index - width);
        MaskOther(seen, 0, width, index);
      }
      TwoWords(index, width);
      var i, b := index / width, index % width;
      words := words[i := Or(words[i], Pow2(b))];
      seen := seen + {index};
    }

    /** Whether the first `count` required fields were all seen. */
    method AllSeen(count: nat) returns (ok: bool)
      requires Valid() && count <= MAX_REQUIRED_FIELDS && forall k <- seen :: k < count || k >= MAX_REQUIRED_FIELDS
      ensures ok <==> forall k :: 0 <= k < count ==> k in seen
    {
      var full, more := count / width, count % width;
      for i := 0 to full
        invariant forall k :: 0 <= k < width * i ==> k in seen
      {
        MaskFull(seen, width * i, width, width);
        if words[i] != allBits {
          return false;
        }
      }
      if more != 0 {
        LowBits(width, more);
        MaskFull(seen, width * full, width, more);
        if words[full] != allBits / Pow2(width - more) {
          return false;
        }
      }
      return true;
    }
  }

  /** How many fields are required, found by running the iterator to the end from wherever it is. */
  method CountRequired(iter: FieldIter) returns (count: nat)
    requires iter.Valid()
    modifies iter
    ensures count == RequiredCount(iter.fs)
  {
    var fs := iter.fs;
    count := iter.requiredIndex;
    ghost var last := iter.pos;
    var lastRequired := fs == [] || fs[iter.pos].htype.Required?;
    var more := iter.Next();
    while more
      invariant iter.Valid() && last <= |fs| && count == RequiredCount(fs[..last])
      invariant fs == [] ==> !more && last == 0 && lastRequired
      invariant fs != [] ==> last < |fs| && lastRequired == fs[last].htype.Required?
      invariant fs != [] ==> more == (last + 1 < |fs|) && (more ==> iter.pos == last + 1)
      decreases |fs| - last
    {
      count := iter.requiredIndex;
      lastRequired := fs[iter.pos].htype.Required?;
      last := iter.pos;
      more := iter.Next();
    }
    assert fs != [] ==> FieldDescribed(fs[iter.pos]);
    if lastRequired && TagAt(fs, iter.pos) != 0 { count := count + 1; }
    if fs != [] {
      RequiredStep(fs, last);
      assert fs[..last + 1] == fs;
    }
  }

  /** Of the first 64 required fields, none is missing. */
  method CheckRequired(iter: FieldIter, fields: SeenFields) returns (ok: bool)
    requires iter.Valid() && fields.Valid() && forall k <- fields.seen :: k < RequiredCount(iter.fs)
    modifies iter
    ensures ok <==> forall k :: 0 <= k < RequiredCount(iter.fs) && k < MAX_REQUIRED_FIELDS ==> k in fields.seen
  {
    var count := CountRequired(iter);
    if count > MAX_REQUIRED_FIELDS { count := MAX_REQUIRED_FIELDS; }
    ok := fields.AllSeen(count);
  }
}
