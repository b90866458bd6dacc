/** What decoding yields on any bytes at all: a message that fits its description, with no more than one
    member of a union in use and nothing missing that must be there. */
module NanopbFits {
  import opened ByteStrings
  import opened NanopbWire
  import opened NanopbSchema
  import opened NanopbDecode
  import opened NanopbRoundTrip

  // ----- What fits into the storage of a message

  /** Integers are in the range of their size, strings leave room for their end mark and byte arrays for
      their header. */
  predicate Fits(f: Field, v: Value)
    decreases f, 0
  {
    match f.ltype
    case LBool => v.BoolV?
    case LVarint => v.IntV? && 0 <= 2 * v.i + Pow256(f.dataSize) < 2 * Pow256(f.dataSize)
    case LUVarint => v.IntV? && 0 <= v.i < Pow256(f.dataSize)
    case LSVarint => v.IntV? && 0 <= 2 * v.i + Pow256(f.dataSize) < 2 * Pow256(f.dataSize)
    case LFixed32 => v.IntV? && 0 <= v.i < Pow256(4)
    case LFixed64 => v.IntV? && 0 <= v.i < Pow256(8)
    case LBytes => v.BytesV? && |v.s| + 4 <= f.dataSize
    case LString => v.BytesV? && |v.s| + 1 <= f.dataSize
    case LFixedBytes => v.BytesV? && |v.s| == f.dataSize
    case LSubmessage(fields) => v.MsgV? && MessageFits(fields, v.slots)
  }

  predicate ItemsFit(f: Field, items: seq<Value>)
    decreases f, 1
  {
    forall i :: 0 <= i < |items| ==> Fits(f, items[i])
  }

  predicate SlotFits(f: Field, slot: Slot)
    decreases f, 2
  {
    match f.htype
    case Required => slot.One? && Fits(f, slot.v)
    case Singular => slot.One? && Fits(f, slot.v)
    case Optional => slot.Maybe? && Fits(f, slot.v)
    case Oneof(_) => slot.Maybe? && Fits(f, slot.v)
    case Repeated => slot.Many? && |slot.items| <= f.arraySize && ItemsFit(f, slot.items)
    case FixedCount => slot.Many? && |slot.items| == f.arraySize && ItemsFit(f, slot.items)
  }

  predicate MessageFits(fs: seq<Field>, ms: seq<Slot>)
    decreases fs, 3
  {
    |ms| == |fs| && (forall i :: 0 <= i < |fs| ==> SlotFits(fs[i], ms[i])) && AtMostOne(fs, ms)
  }

  /** Two members of one union are not both in use. */
  predicate AtMostOne(fs: seq<Field>, ms: seq<Slot>)
    requires |ms| == |fs|
  {
    forall i, j :: 0 <= i < |fs| && 0 <= j < |fs| && i != j && SameUnion(fs[i], fs[j]) && InUse(ms[i]) ==> !InUse(ms[j])
  }

  predicate SameUnion(f: Field, g: Field) {
    f.htype.Oneof? && g.htype == f.htype
  }

  predicate InUse(slot: Slot) {
    slot.Maybe? && slot.has
  }

  /** The description has sizes that C types can have, and its defaults fit. */
  predicate DefaultsFit(f: Field)
    decreases f, 0
  {
    && (IsIntType(f.ltype) ==> f.dataSize in {1, 2, 4, 8})
    && (f.ltype.LBytes? ==> 4 <= f.dataSize) && (f.ltype.LString? ==> 1 <= f.dataSize)
    && (f.preset.Some? && !f.ltype.LSubmessage? ==> Fits(f, f.preset.value))
    && (f.ltype.LSubmessage? ==> AllDefaultsFit(f.ltype.fields))
  }

  predicate AllDefaultsFit(fs: seq<Field>)
    decreases fs, 1
  {
    forall i :: 0 <= i < |fs| ==> DefaultsFit(fs[i])
  }

  // ----- Defaults

  lemma {:induction false} DefaultFits(f: Field)
    requires DefaultsFit(f)
    ensures Fits(f, DefaultValue(f))
    decreases f, 0
  {
    if f.ltype.LSubmessage? { DefaultMessageFits(f.ltype.fields); }
  }

  lemma {:induction false} DefaultAt(fs: seq<Field>, i: nat)
    requires i < |fs|
    ensures DefaultMessage(fs)[i] == DefaultSlot(fs[i])
    decreases i
  {
    if i > 0 { DefaultAt(fs[1..], i - 1); }
  }

  lemma {:induction false} DefaultMessageFits(fs: seq<Field>)
    requires AllDefaultsFit(fs)
    ensures MessageFits(fs, DefaultMessage(fs))
    decreases fs, 1
  {
    var ms := DefaultMessage(fs);
    forall i | 0 <= i < |fs| ensures SlotFits(fs[i], ms[i]) && (ms[i].Maybe? ==> !ms[i].has) {
      DefaultAt(fs, i);
      DefaultFits(fs[i]);
    }
  }

  // ----- Values

  lemma Ranges(n: nat, i: int)
    ensures InSigned(n, i) ==> 0 <= 2 * i + Pow256(n) < 2 * Pow256(n)
    ensures InUnsigned(n, i) ==> 0 <= i < Pow256(n)
  {
    assert Pow256(1) == 0x100 && Pow256(2) == 0x1_0000 && Pow256(4) == 0x1_0000_0000;
    assert Pow256(8) == 0x1_0000_0000_0000_0000;
  }

  lemma {:induction false} ScalarFits(f: Field, s: Bytes)
    requires !f.ltype.LSubmessage? && DecodeScalar(f, s).Some?
    ensures Fits(f, DecodeScalar(f, s).value.0)
  {
    var v := DecodeScalar(f, s).value.0;
    if v.IntV? { Ranges(f.dataSize, v.i); }
    match f.ltype
    case LFixed32 => FromLittleEndianRoundTrip(s[..4]);
    case LFixed64 => FromLittleEndianRoundTrip(s[..8]);
    case _ =>
  }

  lemma {:induction false} ValueFits(f: Field, s: Bytes, prev: Value)
    requires DefaultsFit(f) && Fits(f, prev) && DecodeValue(f, s, prev).Some?
    ensures Fits(f, DecodeValue(f, s, prev).value.0)
    decreases |s|, 0
  {
    if !f.ltype.LSubmessage? {
      ScalarFits(f, s);
    } else {
      var fields := f.ltype.fields;
      var (n, rest) := DecodeVarint32(s).value;
      var anew := f.htype.Repeated? || f.htype.FixedCount? || !prev.MsgV? || |prev.slots| != |fields|;
      DefaultMessageFits(fields);
      DecodedFits(fields, rest[..n], Start(if anew then DefaultMessage(fields) else prev.slots));
    }
  }

  // ----- Arrays

  /** An array of which `n` items are filled. */
  predicate ArrayFits(f: Field, items: seq<Value>, n: nat) {
    ItemsFit(f, items) && if f.htype.FixedCount? then |items| == f.arraySize else |items| == n <= f.arraySize
  }

  lemma PutFits(f: Field, items: seq<Value>, n: nat, v: Value)
    requires ArrayFits(f, items, n) && n < f.arraySize && Fits(f, v)
    ensures ArrayFits(f, Put(f, items, n, v), n + 1)
  {
  }

  lemma {:induction false} PackedFits(f: Field, s: Bytes, items: seq<Value>, n: nat)
    requires Packable(f.ltype) && ArrayFits(f, items, n) && DecodePacked(f, s, items, n).Some?
    ensures var (items', n') := DecodePacked(f, s, items, n).value; ArrayFits(f, items', n')
    decreases |s|
  {
    if s != [] {
      var (v, rest) := DecodeScalar(f, s).value;
      ScalarFits(f, s);
      PutFits(f, items, n, v);
      PackedFits(f, rest, Put(f, items, n, v), n + 1);
    }
  }

  lemma {:induction false} DecodedArrayFits(f: Field, wire: WireType, s: Bytes, items: seq<Value>, n: nat)
    requires DefaultsFit(f) && ArrayFits(f, items, n) && DecodeArray(f, wire, s, items, n).Some?
    ensures var (items', n', _) := DecodeArray(f, wire, s, items, n).value; ArrayFits(f, items', n')
    decreases |s|, 1
  {
    if wire == WtString && Packable(f.ltype) {
      var (len, rest) := DecodeVarint32(s).value;
      PackedFits(f, rest[..len], items, n);
    } else {
      DefaultFits(f);
      ValueFits(f, s, DefaultValue(f));
      PutFits(f, items, n, DecodeValue(f, s, DefaultValue(f)).value.0);
    }
  }

  // ----- Fields

  lemma OneChanged(fs: seq<Field>, ms: seq<Slot>, i: nat, slot: Slot)
    requires MessageFits(fs, ms) && i < |fs| && !fs[i].htype.Oneof? && SlotFits(fs[i], slot)
    ensures MessageFits(fs, ms[i := slot])
  {
  }

  lemma SelectedFits(fs: seq<Field>, ms: seq<Slot>, i: nat, v: Value)
    requires AllDefaultsFit(fs) && MessageFits(fs, ms) && i < |fs| && fs[i].htype.Oneof? && Fits(fs[i], v)
    ensures MessageFits(fs, Select(fs, ms, i, v))
  {
    var r := Select(fs, ms, i, v);
    forall j | 0 <= j < |fs| ensures SlotFits(fs[j], r[j]) {
      DefaultFits(fs[j]);
    }
  }

  lemma {:induction false} FieldFits(fs: seq<Field>, i: nat, wire: WireType, s: Bytes, st: State)
    requires AllDefaultsFit(fs) && MessageFits(fs, st.slots) && i < |fs| && DecodeField(fs, i, wire, s, st).Some?
    ensures MessageFits(fs, DecodeField(fs, i, wire, s, st).value.0.slots)
    decreases |s|, 2
  {
    var f, slot := fs[i], st.slots[i];
    assert SlotFits(f, slot) && DefaultsFit(f);
    DefaultFits(f);
    match f.htype
    case Repeated =>
      DecodedArrayFits(f, wire, s, slot.items, |slot.items|);
      OneChanged(fs, st.slots, i, Many(DecodeArray(f, wire, s, slot.items, |slot.items|).value.0));
    case FixedCount =>
      DecodedArrayFits(f, wire, s, slot.items, st.fixedCount);
      OneChanged(fs, st.slots, i, Many(DecodeArray(f, wire, s, slot.items, st.fixedCount).value.0));
    case Oneof(_) =>
      var prev := if slot.Maybe? && slot.has then slot.v else DefaultValue(f);
      ValueFits(f, s, prev);
      SelectedFits(fs, st.slots, i, DecodeValue(f, s, prev).value.0);
    case Optional =>
      ValueFits(f, s, slot.v);
      OneChanged(fs, st.slots, i, Maybe(true, DecodeValue(f, s, slot.v).value.0));
    case _ =>
      ValueFits(f, s, slot.v);
      OneChanged(fs, st.slots, i, One(DecodeValue(f, s, slot.v).value.0));
  }

  lemma {:induction false} StepFits(fs: seq<Field>, s: Bytes, st: State)
    requires AllDefaultsFit(fs) && MessageFits(fs, st.slots) && DecodeStep(fs, s, st).More?
    ensures MessageFits(fs, DecodeStep(fs, s, st).st.slots)
    decreases |s|, 3
  {
    var r := DecodeTag(s);
    var i := FindField(fs, r.tag);
    if i >= 0 { FieldFits(fs, i, r.wire, r.rest, Track(fs, st, i).value); }
  }

  /** On every byte string, what decoding makes of a message that fits is a message that fits. */
  lemma {:induction false} DecodedFits(fs: seq<Field>, s: Bytes, st: State)
    requires AllDefaultsFit(fs) && MessageFits(fs, st.slots) && DecodeMessage(fs, s, st).Some?
    ensures MessageFits(fs, DecodeMessage(fs, s, st).value)
    decreases |s|, 4
  {
    if s != [] && DecodeStep(fs, s, st).More? {
      StepFits(fs, s, st);
      DecodedFits(fs, DecodeStep(fs, s, st).rest, DecodeStep(fs, s, st).st);
    }
  }

  /** Whatever `pb_decode` returns fits its description. */
  lemma DecodeFits(fs: seq<Field>, s: Bytes)
    requires AllDefaultsFit(fs) && Decode(fs, s).Some?
    ensures MessageFits(fs, Decode(fs, s).value)
  {
    DefaultMessageFits(fs);
    DecodedFits(fs, s, Start(DefaultMessage(fs)));
  }

  // ----- Unions

  lemma {:induction false} StepOf(fs: seq<Field>, s: Bytes, st: State, i: nat)
    requires |st.slots| == |fs| && DecodeStep(fs, s, st).More? && FindField(fs, DecodeTag(s).tag) == i
    ensures var r := DecodeTag(s);
            && r.TagOf? && fs != [] && Track(fs, st, i).Some?
            && Track(fs, st, i).value.slots == st.slots
            && DecodeField(fs, i, r.wire, r.rest, Track(fs, st, i).value)
               == Some((DecodeStep(fs, s, st).st, DecodeStep(fs, s, st).rest))
  {
  }

  /** A member of a union that has just been read is in use, and the other members are not. */
  lemma {:induction false} MemberSelected(fs: seq<Field>, s: Bytes, st: State, i: nat)
    requires |st.slots| == |fs| && DecodeStep(fs, s, st).More? && FindField(fs, DecodeTag(s).tag) == i
    requires fs[i].htype.Oneof?
    ensures var ms := DecodeStep(fs, s, st).st.slots;
            InUse(ms[i]) && forall j :: 0 <= j < |fs| && j != i && SameUnion(fs[i], fs[j]) ==> !InUse(ms[j])
  {
    StepOf(fs, s, st, i);
  }

  // ----- What must be there

  /** The decoder comes to a field with this number. */
  predicate Occurs(fs: seq<Field>, s: Bytes, st: State, tag: nat)
    requires |st.slots| == |fs|
    decreases |s|
  {
    && s != [] && DecodeTag(s).TagOf?
    && (|| DecodeTag(s).tag == tag
        || match DecodeStep(fs, s, st)
           case More(st', rest) => Occurs(fs, rest, st', tag)
           case _ => false)
  }

  lemma {:induction false} RequiredGrows(fs: seq<Field>, a: nat, b: nat)
    requires a < b <= |fs|
    ensures RequiredCount(fs[..a]) + (if fs[a].htype.Required? then 1 else 0) <= RequiredCount(fs[..b])
    decreases b - a
  {
    RequiredStep(fs, a);
    if a + 1 < b { RequiredGrows(fs, a + 1, b); }
  }

  /** What a round that is not about field `k` leaves alone. */
  lemma {:induction false} StepElsewhere(fs: seq<Field>, s: Bytes, st: State, k: nat)
    requires |st.slots| == |fs| && DecodeStep(fs, s, st).More? && k < |fs| && DecodeTag(s).tag != fs[k].tag
    ensures var st' := DecodeStep(fs, s, st).st;
            && (fs[k].htype.Required? && RequiredCount(fs[..k]) !in st.seen ==> RequiredCount(fs[..k]) !in st'.seen)
            && (st.fixedField == k && st.fixedCount != fs[k].arraySize ==>
                  st'.fixedField == k && st'.fixedCount == st.fixedCount)
  {
    var i := FindField(fs, DecodeTag(s).tag);
    if i >= 0 {
      StepOf(fs, s, st, i);
      if i < k { RequiredGrows(fs, i, k); } else { RequiredGrows(fs, k, i); }
    }
  }

  lemma {:induction false} MissingOccurs(fs: seq<Field>, s: Bytes, st: State, k: nat)
    requires |st.slots| == |fs| && DecodeMessage(fs, s, st).Some? && k < |fs|
    requires (fs[k].htype.Required? && RequiredCount(fs[..k]) < 64 && RequiredCount(fs[..k]) !in st.seen)
             || (st.fixedField == k && st.fixedCount != fs[k].arraySize)
    ensures Occurs(fs, s, st, fs[k].tag)
    decreases |s|
  {
    if fs[k].htype.Required? {
      RequiredGrows(fs, k, |fs|);
      assert fs[..|fs|] == fs;
    }
    if s != [] && DecodeStep(fs, s, st).More? && DecodeTag(s).tag != fs[k].tag {
      StepElsewhere(fs, s, st, k);
      MissingOccurs(fs, DecodeStep(fs, s, st).rest, DecodeStep(fs, s, st).st, k);
    }
  }

  /** A message is refused unless each of the first 64 required fields is in it. */
  lemma RequiredIsThere(fs: seq<Field>, s: Bytes, k: nat)
    requires Decode(fs, s).Some? && k < |fs| && fs[k].htype.Required? && RequiredCount(fs[..k]) < 64
    ensures Occurs(fs, s, Start(DefaultMessage(fs)), fs[k].tag)
  {
    MissingOccurs(fs, s, Start(DefaultMessage(fs)), k);
  }

  /** It is refused as well unless a fixed-count array that is not full goes on. */
  lemma FixedCountGoesOn(fs: seq<Field>, s: Bytes, st: State, k: nat)
    requires |st.slots| == |fs| && DecodeMessage(fs, s, st).Some? && k < |fs|
    requires st.fixedField == k && st.fixedCount != fs[k].arraySize
    ensures Occurs(fs, s, st, fs[k].tag)
  {
    MissingOccurs(fs, s, st, k);
  }

  /** A zero byte in the place of a tag ends the message, whatever follows. */
  lemma ZeroEnds(fs: seq<Field>, rest: Bytes, st: State)
    requires |st.slots| == |fs|
    ensures DecodeMessage(fs, [0] + rest, st) == DecodeMessage(fs, [], st)
  {
    assert ([0] + rest)[1..] == rest;
  }

  // ----- Integers

  /** Which integer a varint is read as: the one of the size's low-order bits for signed types, where
      32 bits count for the smaller ones too, and what zigzag stands for. */
  lemma {:induction false} IntegerValue(f: Field, s: Bytes)
    requires IsIntType(f.ltype) && DecodeScalar(f, s).Some?
    ensures DecodeVarint(s).Some? && DecodeScalar(f, s).value.0.IntV?
    ensures var u, i := DecodeVarint(s).value.0, DecodeScalar(f, s).value.0.i;
            match f.ltype
            case LUVarint => i == u
            case LSVarint => u == if i >= 0 then 2 * i else -2 * i - 1
            case _ =>
              if f.dataSize == 8 then (i - u) % 0x1_0000_0000_0000_0000 == 0 else (i - u) % 0x1_0000_0000 == 0
  {
    if f.ltype.LVarint? {
      var u := DecodeVarint(s).value.0;
      Congruent(u);
    }
  }

  lemma Congruent(u: nat)
    requires u < TWO_64
    ensures (ToSigned64(u) - u) % TWO_64 == 0 && (ToSigned32(u) - u) % TWO_32 == 0
  {
    var w := u % TWO_32;
    var k := u / TWO_32;
    assert u == k * TWO_32 + w;
    assert ToSigned32(u) - u == -k * TWO_32 || ToSigned32(u) - u == -(k + 1) * TWO_32;
  }

  /** And which Boolean: anything but zero is true. */
  lemma BooleanValue(f: Field, s: Bytes)
    requires f.ltype.LBool? && DecodeScalar(f, s).Some?
    ensures DecodeVarint32(s).Some? && DecodeScalar(f, s).value.0 == BoolV(DecodeVarint32(s).value.0 > 0)
  {
  }

  // ----- What is refused

  /** Byte arrays and strings are taken exactly when they fit with their overhead; a byte array of fixed length
      exactly with that length, or empty. */
  lemma {:induction false} BytesAccepted(f: Field, body: Bytes, rest: Bytes)
    requires (f.ltype.LBytes? || f.ltype.LString? || f.ltype.LFixedBytes?) && |body| < TWO_32
    ensures DecodeScalar(f, Varint(|body|) + body + rest).Some?
            <==> match f.ltype
                 case LBytes => |body| + 4 <= f.dataSize
                 case LString => |body| + 1 <= f.dataSize
                 case _ => |body| == f.dataSize || body == []
  {
    DelimitedBytes(body, rest, Varint(|body|) + body + rest);
  }

  /** Integers are taken exactly when they are in the range of their size; those of 32 bits are cut. */
  lemma {:induction false} IntegerAccepted(f: Field, s: Bytes)
    requires IsIntType(f.ltype) && f.dataSize in {1, 2, 4, 8} && DecodeVarint(s).Some?
    ensures var u := DecodeVarint(s).value.0;
            DecodeScalar(f, s).Some?
            <==> match f.ltype
                 case LUVarint => u < Pow256(f.dataSize)
                 case LSVarint => u < Pow256(f.dataSize)
                 case _ => f.dataSize >= 4 || 0 <= 2 * ToSigned32(u) + Pow256(f.dataSize) < 2 * Pow256(f.dataSize)
  {
    assert Pow256(1) == 0x100 && Pow256(2) == 0x1_0000 && Pow256(4) == 0x1_0000_0000;
    assert Pow256(8) == 0x1_0000_0000_0000_0000;
  }

  /** A varint has at most ten bytes. */
  lemma {:induction false} LongVarintFails(s: Bytes, max: nat)
    requires |s| >= max && forall i :: 0 <= i < max ==> s[i] >= 128
    ensures RawVarint(s, max).None?
    ensures max == 10 ==> DecodeVarint(s).None?
    decreases max
  {
    if max > 0 { LongVarintFails(s[1..], max - 1); }
  }
}
