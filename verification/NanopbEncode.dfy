/** What an output stream shows: whether it only counts, how much it may take, how much it took, the
    bytes in front of its write position and those it must not touch. */
module NanopbOutput {
  import opened ByteStrings
  import opened NanopbWire

  datatype View = View(sizing: bool, maxSize: nat, written: nat, out: Bytes, beyond: Bytes)

  predicate Fits(u: View, n: nat) {
    u.sizing || u.written + n <= u.maxSize
  }

  /** From `u` to `v` the stream was given `bytes`, where `None` stands for an encoding error. The
      call succeeds exactly when there is something to write and room for it. Lengths are cast to 64
      bits on the wire, so longer texts are not described. */
  predicate Appends(u: View, v: View, bytes: Option<Bytes>, ok: bool) {
    && v.sizing == u.sizing && v.maxSize == u.maxSize && v.beyond == u.beyond && u.out <= v.out
    && (bytes.None? ==> !ok)
    && (bytes.Some? && |bytes.value| < TWO_64 ==>
          && ok == Fits(u, |bytes.value|)
          && (ok ==> v.written == u.written + |bytes.value| && (!u.sizing ==> v.out == u.out + bytes.value)))
  }

  function Then(a: Option<Bytes>, b: Option<Bytes>): Option<Bytes> {
    if a.Some? && b.Some? then Some(a.value + b.value) else None
  }

  lemma NothingAppended(u: View)
    ensures Appends(u, u, Some([]), true) <== Fits(u, 0)
  {
    assert u.out + [] == u.out;
  }

  /** A stream that only counts is as good as given any bytes of that number. */
  lemma Counted(u: View, bytes: Bytes)
    requires u.sizing
    ensures Appends(u, u.(written := u.written + |bytes|), Some(bytes), true)
  {
  }

  lemma AppendsThen(u: View, v: View, w: View, a: Option<Bytes>, b: Option<Bytes>, ok: bool)
    requires Appends(u, v, a, true) && Appends(v, w, b, ok)
    ensures Appends(u, w, Then(a, b), ok)
  {
    if b.Some? {
      assert !u.sizing ==> u.out + a.value + b.value == u.out + (a.value + b.value);
    }
  }

  /** What was given to a substream of the right size was given to the stream. */
  lemma ThroughSubstream(u: View, before: View, after: View, bytes: Bytes, ok: bool)
    requires !u.sizing && !before.sizing && before.out == u.out && before.written == 0
             && Appends(before, after, Some(bytes), ok)
    requires |bytes| < TWO_64 ==> before.maxSize == |bytes| && u.written + |bytes| <= u.maxSize
    ensures var u' := u.(written := u.written + after.written, out := after.out);
            Appends(u, u', Some(bytes), ok && after.written == before.maxSize)
  {
  }

  lemma AppendsFails(u: View, v: View, a: Option<Bytes>, b: Option<Bytes>)
    requires Appends(u, v, a, false)
    ensures Appends(u, v, Then(a, b), false)
  {
  }
}

/** The encoder at work on a stream. */
module NanopbEncode {
  import opened ByteStrings
  import opened NanopbWire
  import opened NanopbSchema
  import opened NanopbOutput

  // ----- What memory holds: a value of the field's C type

  predicate Stored(f: Field, v: Value)
    decreases f, 0
  {
    match f.ltype
    case LBool => v.BoolV?
    case LVarint => v.IntV? && (IsIntSize(f.dataSize) ==> InSigned(f.dataSize, v.i))
    case LUVarint => v.IntV? && (IsIntSize(f.dataSize) ==> InUnsigned(f.dataSize, v.i))
    case LSVarint => v.IntV? && (IsIntSize(f.dataSize) ==> InSigned(f.dataSize, v.i))
    case LFixed32 => v.IntV? && 0 <= v.i < TWO_32
    case LFixed64 => v.IntV? && 0 <= v.i < TWO_64
    case LBytes => v.BytesV?
    case LString => v.BytesV?
    case LFixedBytes => v.BytesV? && |v.s| == f.dataSize
    case LSubmessage(fields) => v.MsgV? && MessageStored(fields, v.slots)
  }

  predicate AllStored(f: Field, items: seq<Value>)
    decreases f, 1
  {
    forall i :: 0 <= i < |items| ==> Stored(f, items[i])
  }

  predicate SlotStored(f: Field, slot: Slot)
    decreases f, 2
  {
    match f.htype
    case Required => slot.One? && Stored(f, slot.v)
    case Singular => slot.One? && Stored(f, slot.v)
    case Optional => slot.Maybe? && (slot.has ==> Stored(f, slot.v))
    case Oneof(_) => slot.Maybe? && (slot.has ==> Stored(f, slot.v))
    case Repeated => slot.Many? && AllStored(f, slot.items)
    case FixedCount => slot.Many? && |slot.items| == f.arraySize && AllStored(f, slot.items)
  }

  predicate MessageStored(fs: seq<Field>, ms: seq<Slot>)
    decreases fs, 3
  {
    && |ms| == |fs|
    && forall i :: 0 <= i < |fs| ==> fs[i].tag < TWO_32 && SlotStored(fs[i], ms[i])
  }

  // ----- Small facts about the encoding functions

  function DelimitedOf(body: Option<Bytes>): Option<Bytes> {
    if body.Some? then Some(Delimited(body.value)) else None
  }

  /** A length and what it announces. */
  lemma DelimitedThen(u: View, v: View, w: View, size: nat, body: Option<Bytes>, ok: bool)
    requires Appends(u, v, Some(Varint(size % TWO_64)), true) && Appends(v, w, body, ok)
    requires body.Some? && |body.value| < TWO_64 ==> size == |body.value|
    ensures Appends(u, w, DelimitedOf(body), ok)
  {
    AppendsThen(u, v, w, Some(Varint(size % TWO_64)), body, ok);
  }

  lemma DelimitedFails(u: View, v: View, size: nat, body: Option<Bytes>)
    requires Appends(u, v, Some(Varint(size % TWO_64)), false)
    requires body.Some? && |body.value| < TWO_64 ==> size == |body.value|
    ensures Appends(u, v, DelimitedOf(body), false)
  {
    AppendsFails(u, v, Some(Varint(size % TWO_64)), body);
  }

  lemma {:induction false} VarintSnoc(low: Bytes, value: nat, v: nat)
    requires value >= 128 && low + Varint(value) == Varint(v)
    ensures low + [128 + value % 128] + Varint(value / 128) == Varint(v)
  {
    assert low + [128 + value % 128] + Varint(value / 128) == low + ([128 + value % 128] + Varint(value / 128));
  }

  lemma {:induction false} CStringStep(s: Bytes, n: nat, max: nat)
    requires n <= |s| && n <= max
    ensures CString(s[n..], max - n)
            == if n < |s| && n < max && s[n] != 0 then [s[n]] + CString(s[n + 1..], max - (n + 1)) else []
  {
    if n < |s| {
      assert s[n..][0] == s[n] && s[n..][1..] == s[n + 1..];
    }
  }

  lemma {:induction false} MessageStep(fs: seq<Field>, ms: seq<Slot>, i: nat)
    requires |fs| == |ms| && i < |fs|
    ensures EncodeMessage(fs[i..], ms[i..]) == Then(EncodeSlot(fs[i], ms[i]), EncodeMessage(fs[i + 1..], ms[i + 1..]))
  {
    var f, m := fs[i..], ms[i..];
    assert f[0] == fs[i] && m[0] == ms[i] && f[1..] == fs[i + 1..] && m[1..] == ms[i + 1..];
  }

  lemma {:induction false} ItemStep(f: Field, items: seq<Value>, prefix: Bytes, i: nat)
    requires i < |items|
    ensures EncodeItems(f, items[i..], prefix)
            == Then(Then(Some(prefix), EncodeValue(f, items[i])), EncodeItems(f, items[i + 1..], prefix))
  {
    var m := items[i..];
    assert m[0] == items[i] && m[1..] == items[i + 1..];
  }

  lemma {:induction false} ThenAssociates(a: Option<Bytes>, b: Option<Bytes>, c: Option<Bytes>)
    ensures Then(Then(a, b), c) == Then(a, Then(b, c))
    ensures Then(a, Some([])) == a && Then(Some([]), a) == a
  {
    if a.Some? {
      assert a.value + [] == a.value && [] + a.value == a.value;
    }
    if a.Some? && b.Some? && c.Some? {
      assert a.value + b.value + c.value == a.value + (b.value + c.value);
    }
  }

  lemma ZigZagBits(value: int, doubled: nat)
    requires InSigned(8, value) && doubled == ToUnsigned64(value) * 2 % TWO_64
    ensures ZigZag(value) == (if value < 0 then TWO_64 - 1 - doubled else doubled)
  {
  }

  /** Items of fixed size need no counting. */
  lemma {:induction false} FixedItemsLength(f: Field, items: seq<Value>, n: nat)
    requires AllStored(f, items) && (if n == 4 then f.ltype.LFixed32? else n == 8 && f.ltype.LFixed64?)
    ensures EncodeItems(f, items, []).Some? && |EncodeItems(f, items, []).value| == n * |items|
  {
    if items != [] {
      assert Stored(f, items[0]);
      assert AllStored(f, items[1..]);
      FixedItemsLength(f, items[1..], n);
    }
  }

  lemma Beyond(was: Bytes, now: Bytes, from: nat, later: nat)
    requires |was| == |now| && from <= later <= |was| && was[from..] == now[from..]
    ensures was[later..] == now[later..]
  {
    assert was[later..] == was[from..][later - from..];
    assert now[later..] == now[from..][later - from..];
  }

  method StringLength(s: Bytes, max: nat) returns (size: nat)
    ensures size <= |s| && s[..size] == CString(s, max)
  {
    size := 0;
    assert s[0..] == s;
    while size < max && size < |s| && s[size] != 0
      invariant size <= |s| && size <= max
      invariant CString(s, max) == s[..size] + CString(s[size..], max - size)
    {
      CStringStep(s, size, max);
      size := size + 1;
    }
    CStringStep(s, size, max);
  }

  /** All bytes get the continuation bit, which the last one then loses again. */
  method FillVarint(value: nat) returns (buffer: array<Byte>, i: nat)
    requires 0 < value < TWO_64
    ensures fresh(buffer) && i <= buffer.Length && buffer[..i] == Varint(value)
  {
    VarintFitsTen(value);
    buffer := new Byte[10];
    i := 0;
    var v: nat := value;
    while v > 0
      invariant fresh(buffer) && i <= 10 && (v == 0 ==> i > 0) && buffer.Length == 10
      invariant v > 0 ==> buffer[..i] + Varint(v) == Varint(value)
      invariant v == 0 ==> buffer[i - 1] >= 128 && buffer[..i - 1] + [buffer[i - 1] - 128] == Varint(value)
    {
      ghost var low := buffer[..i];
      assert |low| + |Varint(v)| == |Varint(value)|;
      buffer[i] := v % 128 + 128;
      assert buffer[..i] == low && buffer[..i + 1] == low + [v % 128 + 128];
      if v >= 128 { VarintSnoc(low, v, value); }
      v := v / 128;
      i := i + 1;
    }
    ghost var low := buffer[..i - 1];
    buffer[i - 1] := buffer[i - 1] % 128;
    assert buffer[..i] == low + [buffer[i - 1]];
  }

  class OStream {
    /** Null for a stream that only counts. */
    const sink: array?<Byte>
    const maxSize: nat
    var state: nat
    var written: nat

    ghost predicate Valid()
      reads this
    {
      sink != null ==> written <= maxSize && state + (maxSize - written) <= sink.Length
    }

    ghost function Now(): View
      reads this, sink
      requires Valid()
    {
      if sink == null then View(true, maxSize, written, [], [])
      else View(false, maxSize, written, sink[..state], sink[state + (maxSize - written)..])
    }

    /** The stream of `pb_ostream_from_buffer`, or one that goes on where another stream stands. */
    constructor (sink: array?<Byte>, state: nat, maxSize: nat)
      requires sink != null ==> state + maxSize <= sink.Length
      ensures Valid() && this.sink == sink && this.state == state && this.maxSize == maxSize && written == 0
    {
      this.sink, this.state, this.maxSize, this.written := sink, state, maxSize, 0;
    }

    /** `pb_write` of the first `count` bytes; a stream that only counts is given none. */
    method Write(bytes: Bytes, count: nat) returns (ok: bool)
      requires Valid() && (sink != null ==> count <= |bytes|)
      modifies this, sink
      ensures Valid()
      ensures count <= |bytes| ==> Appends(old(Now()), Now(), Some(bytes[..count]), ok)
      ensures sink == null ==> ok && Now() == old(Now()).(written := old(written) + count)
    {
      if count > 0 && sink != null {
        if written + count > maxSize {
          return false;
        }
        BufWrite(bytes, count);
      }
      written := written + count;
      return true;
    }

    /** Copies bytes to the write position; the caller has seen to it that they fit. */
    method BufWrite(bytes: Bytes, count: nat)
      requires Valid() && sink != null && count <= |bytes| && written + count <= maxSize
      modifies this`state, sink
      ensures state == old(state) + count
      ensures sink[..state] == old(sink[..state]) + bytes[..count]
      ensures sink[state..] == old(sink[state..])[count..]
    {
      var dest := state;
      state := dest + count;
      for i := 0 to count
        invariant state == dest + count
        invariant sink[..dest + i] == old(sink[..state]) + bytes[..i]
        invariant sink[dest + i..] == old(sink[state..])[i..]
      {
        sink[dest + i] := bytes[i];
      }
    }

    method EncodeVarint(value: nat) returns (ok: bool)
      requires Valid() && value < TWO_64
      modifies this, sink
      ensures Valid() && Appends(old(Now()), Now(), Some(Varint(value)), ok)
    {
      if value <= 0x7F {
        ok := Write([value], 1);
        return;
      }
      var buffer, count := FillVarint(value);
      ok := Write(buffer[..], count);
      assert buffer[..][..count] == buffer[..count];
    }

    /** The sign moves to the lowest bit. */
    method EncodeSVarint(value: int) returns (ok: bool)
      requires Valid() && InSigned(8, value)
      modifies this, sink
      ensures Valid() && Appends(old(Now()), Now(), Some(Varint(ZigZag(value))), ok)
    {
      var doubled := ToUnsigned64(value) * 2 % TWO_64;
      ZigZagBits(value, doubled);
      ok := EncodeVarint(if value < 0 then TWO_64 - 1 - doubled else doubled);
    }

    method EncodeTag(tag: nat, wire: WireType) returns (ok: bool)
      requires Valid() && tag < TWO_32 && !wire.WtInvalid?
      modifies this, sink
      ensures Valid() && Appends(old(Now()), Now(), Some(Tag(tag, wire)), ok)
    {
      ok := EncodeVarint(tag * 8 + WireCode(wire));
    }

    method EncodeString(bytes: Bytes) returns (ok: bool)
      requires Valid()
      modifies this, sink
      ensures Valid() && Appends(old(Now()), Now(), Some(Delimited(bytes)), ok)
    {
      ghost var u := Now();
      ok := EncodeVarint(|bytes| % TWO_64);
      ghost var v := Now();
      if !ok {
        DelimitedFails(u, v, |bytes|, Some(bytes));
        return;
      }
      ok := Write(bytes, |bytes|);
      assert bytes[..|bytes|] == bytes;
      DelimitedThen(u, v, Now(), |bytes|, Some(bytes), ok);
    }

    /** A string of at most `max` bytes, ended by a zero byte. */
    method EncodeCString(s: Bytes, max: nat) returns (ok: bool)
      requires Valid()
      modifies this, sink
      ensures Valid() && Appends(old(Now()), Now(), Some(Delimited(CString(s, max))), ok)
    {
      var size := StringLength(s, max);
      ok := EncodeString(s[..size]);
    }

    method EncodeInteger(f: Field, v: Value) returns (ok: bool)
      requires Valid() && Stored(f, v) && (f.ltype.LVarint? || f.ltype.LUVarint? || f.ltype.LSVarint?)
      modifies this, sink
      ensures Valid() && Appends(old(Now()), Now(), NanopbSchema.EncodeValue(f, v), ok)
    {
      if !IsIntSize(f.dataSize) { return false; }
      match f.ltype
      case LVarint => ok := EncodeVarint(ToUnsigned64(v.i));
      case LUVarint => ok := EncodeVarint(v.i);
      case LSVarint => ok := EncodeSVarint(v.i);
    }

    method EncodeValue(f: Field, v: Value) returns (ok: bool)
      requires Valid() && Stored(f, v)
      modifies this, sink
      ensures Valid() && Appends(old(Now()), Now(), NanopbSchema.EncodeValue(f, v), ok)
      decreases f, 0
    {
      match f.ltype
      case LBool => ok := EncodeVarint(if v.b then 1 else 0);
      case LVarint => ok := EncodeInteger(f, v);
      case LUVarint => ok := EncodeInteger(f, v);
      case LSVarint => ok := EncodeInteger(f, v);
      case LFixed32 => ok := Write(LittleEndian(v.i, 4), 4);
      case LFixed64 => ok := Write(LittleEndian(v.i, 8), 8);
      case LBytes =>
        if |v.s| + BYTES_HEADER > f.dataSize { return false; }
        ok := EncodeString(v.s);
      case LString => ok := EncodeCString(v.s, f.dataSize);
      case LFixedBytes => ok := EncodeString(v.s);
      case LSubmessage(fields) =>
        var sizeChanged;
        ok, sizeChanged := EncodeSubmessage(fields, v.slots);
    }

    /** Sizes the message first, then writes it through a stream of exactly that size.
        `sizeChanged` tells that the second pass came out differently. */
    method EncodeSubmessage(fields: seq<Field>, slots: seq<Slot>) returns (ok: bool, sizeChanged: bool)
      requires Valid() && MessageStored(fields, slots)
      modifies this, sink
      ensures Valid() && Appends(old(Now()), Now(), DelimitedOf(EncodeMessage(fields, slots)), ok)
      ensures EncodeMessage(fields, slots).None? || |EncodeMessage(fields, slots).value| < TWO_64 ==> !sizeChanged
      decreases fields, 6
    {
      ghost var body, u := EncodeMessage(fields, slots), Now();
      sizeChanged := false;
      var counter := new OStream(null, 0, 0);
      ok := counter.Encode(fields, slots);
      if !ok { return; }
      var size := counter.written;
      ok := EncodeVarint(size % TWO_64);
      ghost var v := Now();
      if !ok {
        DelimitedFails(u, v, size, body);
        return;
      }
      ok, sizeChanged := EncodeBody(fields, slots, size);
      DelimitedThen(u, v, Now(), size, body, ok);
    }

    method EncodeBody(fields: seq<Field>, slots: seq<Slot>, size: nat) returns (ok: bool, sizeChanged: bool)
      requires Valid() && MessageStored(fields, slots) && EncodeMessage(fields, slots).Some?
      requires |EncodeMessage(fields, slots).value| < TWO_64 ==> size == |EncodeMessage(fields, slots).value|
      modifies this, sink
      ensures Valid() && Appends(old(Now()), Now(), EncodeMessage(fields, slots), ok)
      ensures |EncodeMessage(fields, slots).value| < TWO_64 ==> !sizeChanged
      decreases fields, 5
    {
      sizeChanged := false;
      ghost var body, u := EncodeMessage(fields, slots).value, Now();
      if sink == null {
        if |body| == size { Counted(u, body); }
        ok := Write([], size);
        return;
      }
      if written + size > maxSize { return false, false; }
      ok, sizeChanged := EncodeThrough(fields, slots, size);
    }

    /** Writes through a substream that takes `size` bytes. */
    method EncodeThrough(fields: seq<Field>, slots: seq<Slot>, size: nat) returns (ok: bool, sizeChanged: bool)
      requires Valid() && sink != null && written + size <= maxSize
      requires MessageStored(fields, slots) && EncodeMessage(fields, slots).Some?
      requires |EncodeMessage(fields, slots).value| < TWO_64 ==> size == |EncodeMessage(fields, slots).value|
      modifies this, sink
      ensures Valid() && Appends(old(Now()), Now(), EncodeMessage(fields, slots), ok)
      ensures |EncodeMessage(fields, slots).value| < TWO_64 ==> !sizeChanged
      decreases fields, 4, 1
    {
      ghost var u, was := Now(), sink[..];
      var sub := new OStream(sink, state, size);
      ghost var before := sub.Now();
      ok := sub.Encode(fields, slots);
      ghost var after := sub.Now();
      Adopt(sub, u, was, before, after);
      ThroughSubstream(u, before, after, EncodeMessage(fields, slots).value, ok);
      sizeChanged := sub.written != size;
      if sizeChanged { ok := false; }
    }

    /** Goes on where a substream stopped that was made here and wrote into the same buffer. */
    method Adopt(sub: OStream, ghost u: View, ghost was: Bytes, ghost before: View, ghost after: View)
      requires sink != null && sub != this && sub.sink == sink && sub.Valid() && after == sub.Now()
               && |was| == sink.Length
      requires written + sub.maxSize <= maxSize && state + (maxSize - written) <= sink.Length
      requires u == View(false, maxSize, written, was[..state], was[state + (maxSize - written)..])
      requires before == View(false, sub.maxSize, 0, was[..state], was[state + sub.maxSize..])
      requires after.beyond == before.beyond && sub.state == state + sub.written
      modifies this`written, this`state
      ensures Valid() && written == old(written) + after.written
      ensures Now() == u.(written := written, out := after.out)
    {
      assert |after.beyond| == sink.Length - (state + sub.maxSize);
      assert sink[state + sub.maxSize..] == after.beyond;
      Beyond(was, sink[..], state + sub.maxSize, state + (maxSize - written));
      written := written + sub.written;
      state := sub.state;
    }

    /** The items of an array one after the other, without tags. */
    method EncodeBare(f: Field, items: seq<Value>) returns (ok: bool)
      requires Valid() && AllStored(f, items)
      modifies this, sink
      ensures Valid() && Appends(old(Now()), Now(), EncodeItems(f, items, []), ok)
      decreases f, 1
    {
      ghost var u, done, all := Now(), Some([]), EncodeItems(f, items, []);
      ThenAssociates(all, all, all);
      NothingAppended(u);
      assert items[0..] == items;
      for i := 0 to |items|
        invariant Valid() && Appends(u, Now(), done, true)
        invariant all == Then(done, EncodeItems(f, items[i..], []))
      {
        ghost var v, item := Now(), NanopbSchema.EncodeValue(f, items[i]);
        ok := EncodeValue(f, items[i]);
        ItemStep(f, items, [], i);
        ThenAssociates(item, item, item);
        ThenAssociates(done, item, EncodeItems(f, items[i + 1..], []));
        AppendsThen(u, v, Now(), done, item, ok);
        done := Then(done, item);
        if !ok {
          AppendsFails(u, Now(), done, EncodeItems(f, items[i + 1..], []));
          return;
        }
      }
      ThenAssociates(done, done, done);
      ok := true;
    }

    /** The items of an array, each behind the tag of the field. */
    method EncodeTaggedItems(f: Field, items: seq<Value>) returns (ok: bool)
      requires Valid() && AllStored(f, items) && f.tag < TWO_32
      modifies this, sink
      ensures Valid() && Appends(old(Now()), Now(), EncodeItems(f, items, Tag(f.tag, WireTypeOf(f.ltype))), ok)
      decreases f, 2
    {
      ghost var tag := Tag(f.tag, WireTypeOf(f.ltype));
      ghost var u, done, all := Now(), Some([]), EncodeItems(f, items, tag);
      ThenAssociates(all, all, all);
      NothingAppended(u);
      assert items[0..] == items;
      for i := 0 to |items|
        invariant Valid() && Appends(u, Now(), done, true)
        invariant all == Then(done, EncodeItems(f, items[i..], tag))
      {
        ghost var v := Now();
        ok := EncodeTagged(f, items[i]);
        ghost var item := NanopbSchema.EncodeTagged(f, items[i]);
        ItemStep(f, items, tag, i);
        ThenAssociates(done, item, EncodeItems(f, items[i + 1..], tag));
        AppendsThen(u, v, Now(), done, item, ok);
        done := Then(done, item);
        if !ok {
          AppendsFails(u, Now(), done, EncodeItems(f, items[i + 1..], tag));
          return;
        }
      }
      ThenAssociates(done, done, done);
      ok := true;
    }

    method EncodeTagged(f: Field, v: Value) returns (ok: bool)
      requires Valid() && Stored(f, v) && f.tag < TWO_32
      modifies this, sink
      ensures Valid() && Appends(old(Now()), Now(), NanopbSchema.EncodeTagged(f, v), ok)
      decreases f, 1
    {
      ghost var u, tag, value := Now(), Some(Tag(f.tag, WireTypeOf(f.ltype))), NanopbSchema.EncodeValue(f, v);
      ok := EncodeTag(f.tag, WireTypeOf(f.ltype));
      ghost var w := Now();
      if !ok {
        AppendsFails(u, w, tag, value);
        return;
      }
      ok := EncodeValue(f, v);
      AppendsThen(u, w, Now(), tag, value, ok);
    }

    /** How many bytes the items of a packed array take. */
    method PackedSize(f: Field, items: seq<Value>) returns (ok: bool, size: nat)
      requires Valid() && AllStored(f, items)
      ensures EncodeItems(f, items, []).None? ==> !ok
      ensures EncodeItems(f, items, []).Some? && |EncodeItems(f, items, []).value| < TWO_64
              ==> ok && size == |EncodeItems(f, items, []).value|
      decreases f, 2
    {
      if f.ltype.LFixed32? {
        FixedItemsLength(f, items, 4);
        return true, 4 * |items|;
      }
      if f.ltype.LFixed64? {
        FixedItemsLength(f, items, 8);
        return true, 8 * |items|;
      }
      var counter := new OStream(null, 0, 0);
      ok := counter.EncodeBare(f, items);
      size := counter.written;
    }

    /** `encode_array`: numbers are packed into one string, other items each get a tag. */
    method EncodeArray(f: Field, items: seq<Value>) returns (ok: bool)
      requires Valid() && AllStored(f, items) && f.tag < TWO_32
      modifies this, sink
      ensures Valid() && Appends(old(Now()), Now(), NanopbSchema.EncodeArray(f, items), ok)
      decreases f, 4
    {
      ghost var u := Now();
      if |items| == 0 {
        NothingAppended(u);
        return true;
      }
      if |items| > f.arraySize { return false; }
      if !Packable(f.ltype) {
        ok := EncodeTaggedItems(f, items);
        return;
      }
      ok := EncodeTag(f.tag, WtString);
      ghost var v, tag, body := Now(), Some(Tag(f.tag, WtString)), EncodeItems(f, items, []);
      if !ok {
        AppendsFails(u, v, tag, DelimitedOf(body));
        return;
      }
      ok := EncodePacked(f, items);
      AppendsThen(u, v, Now(), tag, DelimitedOf(body), ok);
    }

    method EncodePacked(f: Field, items: seq<Value>) returns (ok: bool)
      requires Valid() && AllStored(f, items)
      modifies this, sink
      ensures Valid() && Appends(old(Now()), Now(), DelimitedOf(EncodeItems(f, items, [])), ok)
      decreases f, 3
    {
      ghost var u, body := Now(), EncodeItems(f, items, []);
      var size;
      ok, size := PackedSize(f, items);
      if !ok { return; }
      ok := EncodeVarint(size % TWO_64);
      ghost var v := Now();
      if !ok {
        DelimitedFails(u, v, size, body);
        return;
      }
      if sink == null {
        if |body.value| == size { Counted(v, body.value); }
        ok := Write([], size);
      } else {
        ok := EncodeBare(f, items);
      }
      DelimitedThen(u, v, Now(), size, body, ok);
    }

    /** `encode_basic_field`: what the presence of the field calls for. */
    method EncodeField(f: Field, slot: Slot) returns (ok: bool)
      requires Valid() && SlotStored(f, slot) && f.tag < TWO_32
      modifies this, sink
      ensures Valid() && Appends(old(Now()), Now(), EncodeSlot(f, slot), ok)
      decreases f, 5
    {
      ok := true;
      NothingAppended(Now());
      match f.htype
      case Required => ok := EncodeTagged(f, slot.v);
      case Singular => if !ValueIsDefault(f, slot.v) { ok := EncodeTagged(f, slot.v); }
      case Optional => if slot.has { ok := EncodeTagged(f, slot.v); }
      case Oneof(_) => if slot.has { ok := EncodeTagged(f, slot.v); }
      case Repeated => ok := EncodeArray(f, slot.items);
      case FixedCount => ok := EncodeArray(f, slot.items);
    }

    /** `pb_encode`: field by field. */
    method Encode(fs: seq<Field>, ms: seq<Slot>) returns (ok: bool)
      requires Valid() && MessageStored(fs, ms)
      modifies this, sink
      ensures Valid() && Appends(old(Now()), Now(), EncodeMessage(fs, ms), ok)
      decreases fs, 4, 0
    {
      ghost var u, done, all := Now(), Some([]), EncodeMessage(fs, ms);
      ThenAssociates(all, all, all);
      NothingAppended(u);
      assert fs[0..] == fs && ms[0..] == ms;
      for i := 0 to |fs|
        invariant Valid() && Appends(u, Now(), done, true)
        invariant all == Then(done, EncodeMessage(fs[i..], ms[i..]))
      {
        ghost var v, field := Now(), EncodeSlot(fs[i], ms[i]);
        ok := EncodeField(fs[i], ms[i]);
        MessageStep(fs, ms, i);
        ThenAssociates(done, field, EncodeMessage(fs[i + 1..], ms[i + 1..]));
        AppendsThen(u, v, Now(), done, field, ok);
        done := Then(done, field);
        if !ok {
          AppendsFails(u, Now(), done, EncodeMessage(fs[i + 1..], ms[i + 1..]));
          return;
        }
      }
      ThenAssociates(done, done, done);
      ok := true;
    }
  }

  /** `pb_get_encoded_size`. */
  method GetEncodedSize(fs: seq<Field>, ms: seq<Slot>) returns (ok: bool, size: nat)
    requires MessageStored(fs, ms)
    ensures EncodeMessage(fs, ms).None? ==> !ok
    ensures EncodeMessage(fs, ms).Some? && |EncodeMessage(fs, ms).value| < TWO_64
            ==> ok && size == |EncodeMessage(fs, ms).value|
  {
    var counter := new OStream(null, 0, 0);
    ok := counter.Encode(fs, ms);
    size := counter.written;
  }

  /** The bytes that are given to a buffer and the size that was computed before agree: with that much
      room the message is written, with less it is not. */
  method EncodeToBuffer(fs: seq<Field>, ms: seq<Slot>, buffer: array<Byte>)
    returns (sized: bool, size: nat, ok: bool, written: nat)
    requires MessageStored(fs, ms)
    requires EncodeMessage(fs, ms).Some? ==> |EncodeMessage(fs, ms).value| < TWO_64
    modifies buffer
    ensures sized == EncodeMessage(fs, ms).Some?
    ensures ok == (sized && size <= buffer.Length)
    ensures ok ==> written == size && buffer[..size] == EncodeMessage(fs, ms).value
  {
    sized, size := GetEncodedSize(fs, ms);
    var stream := new OStream(buffer, 0, buffer.Length);
    ok := stream.Encode(fs, ms);
    written := stream.written;
  }
}
