/** Decoding undoes encoding, for every static description without callbacks and every message that
    fits it. */
module NanopbRoundTrip {
  import opened ByteStrings
  import opened NanopbWire
  import opened NanopbSchema
  import opened NanopbDecode

  // ----- Descriptions and messages in scope

  predicate IsIntType(t: LType) {
    t.LVarint? || t.LUVarint? || t.LSVarint?
  }

  /** Tags are legal field numbers and fields without a presence flag have no default of their own. */
  predicate FieldOk(f: Field)
    decreases f, 0
  {
    && 1 <= f.tag < 0x2000_0000
    && f.dataSize < TWO_32
    && (IsIntType(f.ltype) ==> IsIntSize(f.dataSize))
    && (f.htype.Singular? ==> f.preset.None?)
    && (f.ltype.LSubmessage? ==> SchemaOk(f.ltype.fields))
  }

  predicate SchemaOk(fs: seq<Field>)
    decreases fs, 1
  {
    && (forall i :: 0 <= i < |fs| ==> FieldOk(fs[i]))
    && (forall i, j :: 0 <= i < j < |fs| ==> fs[i].tag != fs[j].tag)
  }

  predicate NulFree(s: Bytes) {
    forall i :: 0 <= i < |s| ==> s[i] != 0
  }

  predicate ValueOk(f: Field, v: Value)
    decreases f, 0
  {
    match f.ltype
    case LBool => v.BoolV?
    case LVarint => v.IntV? && InSigned(f.dataSize, v.i)
    case LUVarint => v.IntV? && InUnsigned(f.dataSize, v.i)
    case LSVarint => v.IntV? && InSigned(f.dataSize, v.i)
    case LFixed32 => v.IntV? && 0 <= v.i < TWO_32
    case LFixed64 => v.IntV? && 0 <= v.i < TWO_64
    case LBytes => v.BytesV? && |v.s| + BYTES_HEADER <= f.dataSize
    case LString => v.BytesV? && NulFree(v.s) && |v.s| < f.dataSize
    case LFixedBytes => v.BytesV? && |v.s| == f.dataSize
    case LSubmessage(fields) => v.MsgV? && MessageOk(fields, v.slots)
  }

  predicate SlotOk(f: Field, slot: Slot)
    decreases f, 1
  {
    match f.htype
    case Required => slot.One? && ValueOk(f, slot.v)
    case Singular => slot.One? && ValueOk(f, slot.v)
    case Optional => slot.Maybe? && (slot.has ==> ValueOk(f, slot.v))
    case Oneof(_) => slot.Maybe? && (slot.has ==> ValueOk(f, slot.v))
    case Repeated =>
      && slot.Many? && |slot.items| <= f.arraySize
      && forall i :: 0 <= i < |slot.items| ==> ValueOk(f, slot.items[i])
    case FixedCount =>
      && slot.Many? && |slot.items| == f.arraySize
      && forall i :: 0 <= i < |slot.items| ==> ValueOk(f, slot.items[i])
  }

  predicate MessageOk(fs: seq<Field>, ms: seq<Slot>)
    decreases fs, 2
  {
    && |fs| == |ms|
    && (forall i :: 0 <= i < |fs| ==> SlotOk(fs[i], ms[i]))
    && OneUsed(fs, ms)
  }

  /** At most one member of a union is in use. */
  predicate OneUsed(fs: seq<Field>, ms: seq<Slot>)
    requires |fs| == |ms|
  {
    forall i, j :: 0 <= i < j < |fs| && fs[i].htype.Oneof? && fs[i].htype == fs[j].htype && ms[i].Maybe? && ms[j].Maybe?
                   ==> !(ms[i].has && ms[j].has)
  }

  // ----- What comes back: the same message, with absent values replaced by their defaults

  function CanonValue(f: Field, v: Value): Value
    decreases f, 0, 0
  {
    if f.ltype.LSubmessage? && v.MsgV? then MsgV(CanonMessage(f.ltype.fields, v.slots)) else v
  }

  function CanonItems(f: Field, items: seq<Value>): (r: seq<Value>)
    ensures |r| == |items|
    decreases f, 1, |items|
  {
    if items == [] then [] else [CanonValue(f, items[0])] + CanonItems(f, items[1..])
  }

  function CanonSlot(f: Field, slot: Slot): Slot
    decreases f, 2, 0
  {
    match slot
    case One(v) => One(CanonValue(f, v))
    case Maybe(has, v) => Maybe(has, if has then CanonValue(f, v) else DefaultValue(f))
    case Many(items) => Many(CanonItems(f, items))
  }

  function CanonMessage(fs: seq<Field>, ms: seq<Slot>): (r: seq<Slot>)
    ensures |fs| == |ms| ==> |r| == |fs|
    decreases fs, 3, 0
  {
    if fs == [] || ms == [] then [] else [CanonSlot(fs[0], ms[0])] + CanonMessage(fs[1..], ms[1..])
  }

  // ----- Scalars

  lemma {:induction false} CStringOfNulFree(s: Bytes, max: nat)
    requires NulFree(s) && |s| <= max
    ensures CString(s, max) == s
  {
    if s != [] {
      CStringOfNulFree(s[1..], max - 1);
      assert s == [s[0]] + s[1..];
    }
  }

  lemma {:induction false} DelimitedBytes(body: Bytes, rest: Bytes, s: Bytes)
    requires |body| < TWO_32 && s == Delimited(body) + rest
    ensures DecodeVarint32(s) == Some((|body|, body + rest))
    ensures Read(body + rest, |body|) == Some((body, rest))
    ensures (body + rest)[..|body|] == body && (body + rest)[|body|..] == rest
  {
    assert s == Varint(|body|) + (body + rest);
    Varint32RoundTrip(|body|, body + rest);
    ReadExact(body, rest);
  }

  lemma SignedBack(size: nat, i: int)
    requires InSigned(size, i)
    ensures ToSigned64(ToUnsigned64(i)) == i && (size != 8 ==> ToSigned32(ToUnsigned64(i)) == i)
  {
  }

  lemma {:induction false} VarintScalar(f: Field, v: Value, b: Bytes, rest: Bytes)
    requires IsIntType(f.ltype) && FieldOk(f) && ValueOk(f, v) && EncodeValue(f, v) == Some(b)
    ensures DecodeScalar(f, b + rest) == Some((v, rest))
  {
    match f.ltype
    case LVarint =>
      var u := ToUnsigned64(v.i);
      VarintRoundTrip(u, rest);
      SignedBack(f.dataSize, v.i);
    case LUVarint => VarintRoundTrip(v.i, rest);
    case LSVarint =>
      ZigZagRoundTrip(v.i);
      VarintRoundTrip(ZigZag(v.i), rest);
    case _ =>
  }

  lemma {:induction false} FixedScalar(v: nat, n: nat, rest: Bytes)
    requires v < Pow256(n)
    ensures Read(LittleEndian(v, n) + rest, n) == Some((LittleEndian(v, n), rest))
    ensures FromLittleEndian(LittleEndian(v, n)) == v
  {
    ReadExact(LittleEndian(v, n), rest);
    LittleEndianRoundTrip(v, n);
  }

  lemma {:induction false} BytesScalar(f: Field, v: Value, b: Bytes, rest: Bytes)
    requires (f.ltype.LBytes? || f.ltype.LString? || f.ltype.LFixedBytes?) && FieldOk(f) && ValueOk(f, v)
    requires EncodeValue(f, v) == Some(b)
    ensures DecodeScalar(f, b + rest) == Some((v, rest))
  {
    if f.ltype.LString? { CStringOfNulFree(v.s, f.dataSize); }
    DelimitedBytes(v.s, rest, b + rest);
    if f.ltype.LFixedBytes? && f.dataSize == 0 { assert v.s == Zeros(0) && v.s + rest == rest; }
  }

  lemma {:induction false} ScalarRoundTrip(f: Field, v: Value, b: Bytes, rest: Bytes)
    requires !f.ltype.LSubmessage? && FieldOk(f) && ValueOk(f, v) && EncodeValue(f, v) == Some(b)
    ensures DecodeScalar(f, b + rest) == Some((v, rest))
    ensures b != []
  {
    match f.ltype
    case LBool => Varint32RoundTrip(if v.b then 1 else 0, rest);
    case LFixed32 =>
      assert Pow256(4) == TWO_32;
      FixedScalar(v.i, 4, rest);
    case LFixed64 =>
      assert Pow256(4) == TWO_32;
      assert Pow256(8) == TWO_64;
      FixedScalar(v.i, 8, rest);
    case LBytes => BytesScalar(f, v, b, rest);
    case LString => BytesScalar(f, v, b, rest);
    case LFixedBytes => BytesScalar(f, v, b, rest);
    case _ => VarintScalar(f, v, b, rest);
  }

  // ----- Messages that fit can be encoded

  lemma {:induction false} ValueEncodes(f: Field, v: Value)
    requires ValueOk(f, v)
    ensures EncodeValue(f, v).Some?
    decreases f, 0, 0
  {
    if f.ltype.LSubmessage? { MessageEncodes(f.ltype.fields, v.slots); }
  }

  lemma {:induction false} ItemsEncode(f: Field, items: seq<Value>, prefix: Bytes)
    requires forall i :: 0 <= i < |items| ==> ValueOk(f, items[i])
    ensures EncodeItems(f, items, prefix).Some?
    decreases f, 1, |items|
  {
    if items != [] {
      ValueEncodes(f, items[0]);
      ItemsEncode(f, items[1..], prefix);
    }
  }

  lemma {:induction false} SlotEncodes(f: Field, slot: Slot)
    requires SlotOk(f, slot)
    ensures EncodeSlot(f, slot).Some?
    decreases f, 2, 0
  {
    match slot
    case One(v) => ValueEncodes(f, v);
    case Maybe(has, v) => if has { ValueEncodes(f, v); }
    case Many(items) =>
      ItemsEncode(f, items, []);
      ItemsEncode(f, items, Tag(f.tag, WireTypeOf(f.ltype)));
  }

  /** The part of `MessageOk` that passes on to the later fields. */
  predicate SlotsOk(fs: seq<Field>, ms: seq<Slot>) {
    |fs| == |ms| && forall i :: 0 <= i < |fs| ==> SlotOk(fs[i], ms[i])
  }

  lemma {:induction false} SlotsEncode(fs: seq<Field>, ms: seq<Slot>)
    requires SlotsOk(fs, ms)
    ensures EncodeMessage(fs, ms).Some?
    decreases fs, 3, 0
  {
    if fs != [] {
      SlotEncodes(fs[0], ms[0]);
      SlotsEncode(fs[1..], ms[1..]);
    }
  }

  lemma {:induction false} MessageEncodes(fs: seq<Field>, ms: seq<Slot>)
    requires MessageOk(fs, ms)
    ensures EncodeMessage(fs, ms).Some?
    decreases fs, 4, 0
  {
    SlotsEncode(fs, ms);
  }

  // ----- Fields left out are fields with their default

  lemma {:induction false} DefaultValueIsCanon(f: Field, v: Value)
    requires FieldOk(f) && ValueOk(f, v) && ValueIsDefault(f, v) && f.preset.None?
    ensures CanonValue(f, v) == DefaultValue(f)
    decreases f, 0
  {
    if f.ltype.LSubmessage? {
      DefaultMessageIsCanon(f.ltype.fields, v.slots);
    } else if f.ltype.LFixedBytes? {
      assert v.s == Zeros(0);
    }
  }

  lemma {:induction false} DefaultSlotIsCanon(f: Field, slot: Slot)
    requires FieldOk(f) && SlotOk(f, slot) && SlotIsDefault(f, slot)
    ensures CanonSlot(f, slot) == DefaultSlot(f)
    decreases f, 1
  {
    if f.htype.Singular? { DefaultValueIsCanon(f, slot.v); }
  }

  lemma {:induction false} DefaultMessageIsCanon(fs: seq<Field>, ms: seq<Slot>)
    requires (forall i :: 0 <= i < |fs| ==> FieldOk(fs[i])) && SlotsOk(fs, ms) && MessageIsDefault(fs, ms)
    ensures CanonMessage(fs, ms) == DefaultMessage(fs)
    decreases fs, 2
  {
    if fs != [] {
      DefaultSlotIsCanon(fs[0], ms[0]);
      DefaultMessageIsCanon(fs[1..], ms[1..]);
    }
  }

  // ----- The message half way

  lemma {:induction false} CanonAt(fs: seq<Field>, ms: seq<Slot>, i: nat)
    requires |fs| == |ms| && i < |fs|
    ensures CanonMessage(fs, ms)[i] == CanonSlot(fs[i], ms[i])
    ensures DefaultMessage(fs)[i] == DefaultSlot(fs[i])
  {
    if i > 0 { CanonAt(fs[1..], ms[1..], i - 1); }
  }

  /** The first `k` fields as decoded, the others still with their defaults. */
  function Mixed(fs: seq<Field>, ms: seq<Slot>, k: nat): (r: seq<Slot>)
    requires |fs| == |ms| && k <= |fs|
    ensures |r| == |fs|
  {
    CanonMessage(fs, ms)[..k] + DefaultMessage(fs)[k..]
  }

  lemma {:induction false} MixedStep(fs: seq<Field>, ms: seq<Slot>, k: nat)
    requires |fs| == |ms| && k < |fs|
    ensures Mixed(fs, ms, k + 1) == Mixed(fs, ms, k)[k := CanonSlot(fs[k], ms[k])]
    ensures Mixed(fs, ms, k)[k] == DefaultSlot(fs[k])
  {
    CanonAt(fs, ms, k);
    var c, d := CanonMessage(fs, ms), DefaultMessage(fs);
    forall j | 0 <= j < |fs| && j != k ensures Mixed(fs, ms, k + 1)[j] == Mixed(fs, ms, k)[j] {
      assert Mixed(fs, ms, k + 1)[j] == if j < k then c[j] else d[j];
      assert Mixed(fs, ms, k)[j] == if j < k then c[j] else d[j];
    }
  }

  /** Selecting the used member of a union changes nothing else. */
  lemma {:induction false} SelectUsed(fs: seq<Field>, ms: seq<Slot>, k: nat, v: Value)
    requires |fs| == |ms| && k < |fs| && SlotsOk(fs, ms) && OneUsed(fs, ms)
    requires fs[k].htype.Oneof? && ms[k].Maybe? && ms[k].has
    ensures Select(fs, Mixed(fs, ms, k), k, v) == Mixed(fs, ms, k)[k := Maybe(true, v)]
  {
    forall j | 0 <= j < |fs| && j != k && fs[j].htype == fs[k].htype
      ensures Mixed(fs, ms, k)[j] == Maybe(false, DefaultValue(fs[j]))
    {
      CanonAt(fs, ms, j);
      assert SlotOk(fs[j], ms[j]) && !ms[j].has;
    }
  }

  /** The decoder's state after the first `k` fields. */
  predicate Progress(fs: seq<Field>, ms: seq<Slot>, k: nat, st: State)
    requires |fs| == |ms| && k <= |fs|
  {
    && st.slots == Mixed(fs, ms, k)
    && FixedDone(fs, k, st)
    && SeenAll(fs, k, st.seen)
  }

  /** The fixed-count array decoded last, if any, is complete and lies behind. */
  predicate FixedDone(fs: seq<Field>, k: nat, st: State) {
    -1 <= st.fixedField < k && (0 <= st.fixedField < |fs| ==> st.fixedCount == fs[st.fixedField].arraySize)
  }

  predicate SeenAll(fs: seq<Field>, k: nat, seen: set<nat>)
    requires k <= |fs|
  {
    forall n :: 0 <= n < RequiredCount(fs[..k]) && n < MAX_REQUIRED_FIELDS ==> n in seen
  }

  lemma {:induction false} RequiredCountConcat(a: seq<Field>, b: seq<Field>)
    ensures RequiredCount(a + b) == RequiredCount(a) + RequiredCount(b)
  {
    if a == [] {
      assert a + b == b;
    } else {
      assert (a + b)[1..] == a[1..] + b;
      RequiredCountConcat(a[1..], b);
    }
  }

  lemma {:induction false} RequiredStep(fs: seq<Field>, k: nat)
    requires k < |fs|
    ensures RequiredCount(fs[..k + 1]) == RequiredCount(fs[..k]) + if fs[k].htype.Required? then 1 else 0
  {
    assert fs[..k + 1] == fs[..k] + [fs[k]];
    RequiredCountConcat(fs[..k], [fs[k]]);
    assert RequiredCount([fs[k]]) == if fs[k].htype.Required? then 1 else 0;
  }

  lemma {:induction false} FindDistinct(fs: seq<Field>, k: nat)
    requires k < |fs| && forall i, j :: 0 <= i < j < |fs| ==> fs[i].tag != fs[j].tag
    ensures FindField(fs, fs[k].tag) == k
  {
    assert FindField(fs, fs[k].tag) != -1;
  }

  /** One field on the wire, whose value takes `body`. */
  lemma {:induction false} TaggedStep(fs: seq<Field>, k: nat, wire: WireType, body: Bytes, rest: Bytes, st: State,
                                      st': State, st'': State)
    requires SchemaOk(fs) && k < |fs| && |st.slots| == |st'.slots| == |fs| && !wire.WtInvalid?
    requires Track(fs, st, k) == Some(st') && DecodeField(fs, k, wire, body + rest, st') == Some((st'', rest))
    ensures DecodeMessage(fs, Tag(fs[k].tag, wire) + body + rest, st) == DecodeMessage(fs, rest, st'')
  {
    var s := Tag(fs[k].tag, wire) + body + rest;
    assert s == Tag(fs[k].tag, wire) + (body + rest);
    assert FieldOk(fs[k]);
    TagRoundTrip(fs[k].tag, wire, body + rest);
    FindDistinct(fs, k);
    assert DecodeStep(fs, s, st) == More(st'', rest);
  }

  // ----- Packed arrays

  /** An array of `f` with the items `done` stored: a fixed-count array holds defaults behind them. */
  function ArrayOf(f: Field, done: seq<Value>): seq<Value> {
    if f.htype.FixedCount? && |done| < f.arraySize
    then done + Copies(DefaultValue(f), f.arraySize - |done|)
    else done
  }

  lemma {:induction false} PutNext(f: Field, done: seq<Value>, v: Value)
    requires |done| < f.arraySize
    ensures Put(f, ArrayOf(f, done), |done|, v) == ArrayOf(f, done + [v])
    ensures !f.htype.FixedCount? ==> |ArrayOf(f, done)| == |done|
  {
  }

  lemma {:induction false} ItemsSplit(f: Field, items: seq<Value>, prefix: Bytes)
    requires items != [] && EncodeItems(f, items, prefix).Some?
    ensures EncodeValue(f, items[0]).Some? && EncodeItems(f, items[1..], prefix).Some?
    ensures EncodeItems(f, items, prefix).value
            == prefix + EncodeValue(f, items[0]).value + EncodeItems(f, items[1..], prefix).value
  {
  }

  lemma {:induction false} ItemsShape(f: Field, items: seq<Value>, prefix: Bytes, rest: Bytes)
    returns (first: Bytes, later: Bytes)
    requires items != [] && EncodeItems(f, items, prefix).Some?
    ensures EncodeValue(f, items[0]) == Some(first) && EncodeItems(f, items[1..], prefix) == Some(later)
    ensures EncodeItems(f, items, prefix).value + rest == prefix + first + (later + rest)
    ensures |first| <= |EncodeItems(f, items, prefix).value| && |later| <= |EncodeItems(f, items, prefix).value|
  {
    ItemsSplit(f, items, prefix);
    first, later := EncodeValue(f, items[0]).value, EncodeItems(f, items[1..], prefix).value;
  }

  predicate AllOk(f: Field, items: seq<Value>) {
    forall i :: 0 <= i < |items| ==> ValueOk(f, items[i])
  }

  /** The first item of a packed array is read, and the others are left. */
  lemma {:induction false} PackedFirst(f: Field, items: seq<Value>, body: Bytes) returns (later: Bytes)
    requires FieldOk(f) && Packable(f.ltype) && AllOk(f, items) && items != []
             && EncodeItems(f, items, []) == Some(body)
    ensures EncodeItems(f, items[1..], []) == Some(later) && DecodeScalar(f, body) == Some((items[0], later))
  {
    var b;
    b, later := PackedShape(f, items);
    assert ValueOk(f, items[0]);
    ScalarRoundTrip(f, items[0], b, later);
  }

  lemma {:induction false} PackedRoundTrip(f: Field, done: seq<Value>, items: seq<Value>, body: Bytes)
    requires FieldOk(f) && Packable(f.ltype) && AllOk(f, items) && |done| + |items| <= f.arraySize
    requires EncodeItems(f, items, []) == Some(body)
    ensures DecodePacked(f, body, ArrayOf(f, done), |done|) == Some((ArrayOf(f, done + items), |done| + |items|))
    decreases |items|
  {
    if items == [] {
      assert done + items == done;
    } else {
      var later := PackedFirst(f, items, body);
      PackedStep(f, body, later, done, items[0]);
      assert AllOk(f, items[1..]);
      PackedRoundTrip(f, done + [items[0]], items[1..], later);
      assert done + [items[0]] + items[1..] == done + items;
    }
  }

  lemma {:induction false} PackedShape(f: Field, items: seq<Value>) returns (first: Bytes, later: Bytes)
    requires items != [] && EncodeItems(f, items, []).Some?
    ensures EncodeValue(f, items[0]) == Some(first) && EncodeItems(f, items[1..], []) == Some(later)
    ensures EncodeItems(f, items, []).value == first + later
  {
    first, later := ItemsShape(f, items, [], []);
    var s := EncodeItems(f, items, []).value;
    assert s + [] == s && [] + first + (later + []) == first + later;
  }

  lemma {:induction false} PackedStep(f: Field, body: Bytes, later: Bytes, done: seq<Value>, v: Value)
    requires Packable(f.ltype) && |done| < f.arraySize && DecodeScalar(f, body) == Some((v, later))
    ensures DecodePacked(f, body, ArrayOf(f, done), |done|)
            == DecodePacked(f, later, ArrayOf(f, done + [v]), |done| + 1)
  {
    PutNext(f, done, v);
  }

  lemma {:induction false} CanonOfScalars(f: Field, items: seq<Value>)
    requires !f.ltype.LSubmessage?
    ensures CanonItems(f, items) == items
    decreases |items|
  {
    if items != [] { CanonOfScalars(f, items[1..]); }
  }

  // ----- Values

  /** What the storage of a value holds before it is decoded for the first time. */
  lemma {:induction false} ValueRoundTrip(f: Field, v: Value, b: Bytes, rest: Bytes)
    requires FieldOk(f) && ValueOk(f, v) && EncodeValue(f, v) == Some(b) && |b| < TWO_32
    ensures DecodeValue(f, b + rest, DefaultValue(f)) == Some((CanonValue(f, v), rest))
    decreases f, 0, 0
  {
    if !f.ltype.LSubmessage? {
      ScalarRoundTrip(f, v, b, rest);
    } else {
      var fields := f.ltype.fields;
      var body := EncodeMessage(fields, v.slots).value;
      DelimitedBytes(body, rest, b + rest);
      MessageRoundTrip(fields, v.slots, body);
    }
  }

  lemma {:induction false} MessageRoundTrip(fs: seq<Field>, ms: seq<Slot>, body: Bytes)
    requires SchemaOk(fs) && MessageOk(fs, ms) && EncodeMessage(fs, ms) == Some(body) && |body| < TWO_32
    ensures DecodeMessage(fs, body, Start(DefaultMessage(fs))) == Some(CanonMessage(fs, ms))
    decreases fs, 5, 0
  {
    var st := Start(DefaultMessage(fs));
    assert Progress(fs, ms, 0, st);
    assert fs[0..] == fs && ms[0..] == ms;
    FieldsRoundTrip(fs, ms, 0, st, body);
  }

  lemma {:induction false} FieldsRoundTrip(fs: seq<Field>, ms: seq<Slot>, k: nat, st: State, bytes: Bytes)
    requires SchemaOk(fs) && MessageOk(fs, ms) && k <= |fs| && Progress(fs, ms, k, st)
    requires EncodeMessage(fs[k..], ms[k..]) == Some(bytes) && |bytes| < TWO_32
    ensures DecodeMessage(fs, bytes, st) == Some(CanonMessage(fs, ms))
    decreases fs, 4, |fs| - k
  {
    if k == |fs| {
      assert fs[..k] == fs;
      assert Mixed(fs, ms, k) == CanonMessage(fs, ms);
      assert Finish(fs, st) == Some(st.slots);
    } else {
      assert fs[k..][1..] == fs[k + 1..] && ms[k..][1..] == ms[k + 1..];
      var b, later := EncodeSlot(fs[k], ms[k]).value, EncodeMessage(fs[k + 1..], ms[k + 1..]).value;
      var st' := FieldRoundTrip(fs, ms, k, st, b, later);
      FieldsRoundTrip(fs, ms, k + 1, st', later);
    }
  }

  lemma {:induction false} FieldRoundTrip(fs: seq<Field>, ms: seq<Slot>, k: nat, st: State, b: Bytes, rest: Bytes)
    returns (st': State)
    requires SchemaOk(fs) && MessageOk(fs, ms) && k < |fs| && Progress(fs, ms, k, st)
    requires EncodeSlot(fs[k], ms[k]) == Some(b) && |b| < TWO_32
    ensures Progress(fs, ms, k + 1, st')
    ensures DecodeMessage(fs, b + rest, st) == DecodeMessage(fs, rest, st')
    decreases fs, 3, 0
  {
    var f, slot := fs[k], ms[k];
    assert FieldOk(f) && SlotOk(f, slot);
    if (f.htype.Repeated? || f.htype.FixedCount?) && slot.items != [] {
      st' := ArrayRoundTrip(fs, ms, k, st, b, rest);
    } else if b == [] {
      st' := AbsentRoundTrip(fs, ms, k, st, rest);
    } else {
      st' := SingleRoundTrip(fs, ms, k, st, b, rest);
    }
  }

  /** A field that the encoder leaves out. */
  lemma {:induction false} AbsentRoundTrip(fs: seq<Field>, ms: seq<Slot>, k: nat, st: State, rest: Bytes)
    returns (st': State)
    requires SchemaOk(fs) && MessageOk(fs, ms) && k < |fs| && Progress(fs, ms, k, st)
    requires EncodeSlot(fs[k], ms[k]) == Some([])
    requires (fs[k].htype.Repeated? || fs[k].htype.FixedCount?) ==> ms[k].items == []
    ensures Progress(fs, ms, k + 1, st')
    ensures DecodeMessage(fs, [] + rest, st) == DecodeMessage(fs, rest, st')
  {
    var f, slot := fs[k], ms[k];
    assert FieldOk(f) && SlotOk(f, slot);
    assert [] + rest == rest;
    st' := st;
    MixedStep(fs, ms, k);
    RequiredStep(fs, k);
    assert CanonSlot(f, slot) == DefaultSlot(f) by {
      if f.htype.Singular? {
        assert ValueIsDefault(f, slot.v);
        DefaultValueIsCanon(f, slot.v);
      }
    }
  }

  /** A field with a single value. */
  lemma {:induction false} SingleRoundTrip(fs: seq<Field>, ms: seq<Slot>, k: nat, st: State, b: Bytes, rest: Bytes)
    returns (st': State)
    requires SchemaOk(fs) && MessageOk(fs, ms) && k < |fs| && Progress(fs, ms, k, st)
    requires EncodeSlot(fs[k], ms[k]) == Some(b) && |b| < TWO_32 && b != []
    requires !fs[k].htype.Repeated? && !fs[k].htype.FixedCount?
    ensures Progress(fs, ms, k + 1, st')
    ensures DecodeMessage(fs, b + rest, st) == DecodeMessage(fs, rest, st')
    decreases fs, 2, 0
  {
    var f, slot := fs[k], ms[k];
    assert FieldOk(f) && SlotOk(f, slot);
    var wire := WireTypeOf(f.ltype);
    var body := EncodeValue(f, slot.v).value;
    assert b == Tag(f.tag, wire) + body;
    ValueRoundTrip(f, slot.v, body, rest);
    st' := SingleStep(fs, ms, k, st, body, rest);
  }

  lemma {:induction false} SingleStep(fs: seq<Field>, ms: seq<Slot>, k: nat, st: State, body: Bytes, rest: Bytes)
    returns (st': State)
    requires SchemaOk(fs) && MessageOk(fs, ms) && k < |fs| && Progress(fs, ms, k, st)
    requires !ms[k].Many? && (ms[k].Maybe? ==> ms[k].has) && SlotOk(fs[k], ms[k])
    requires DecodeValue(fs[k], body + rest, DefaultValue(fs[k])) == Some((CanonValue(fs[k], ms[k].v), rest))
    ensures Progress(fs, ms, k + 1, st')
    ensures DecodeMessage(fs, Tag(fs[k].tag, WireTypeOf(fs[k].ltype)) + body + rest, st) == DecodeMessage(fs, rest, st')
  {
    var f, slot, wire := fs[k], ms[k], WireTypeOf(fs[k].ltype);
    assert Track(fs, st, k).Some?;
    var st1 := Track(fs, st, k).value;
    st' := st1.(slots := Mixed(fs, ms, k + 1));
    TrackedProgress(fs, ms, k, st, st');
    SingleDecodes(fs, ms, k, st1, wire, body, rest);
    TaggedStep(fs, k, wire, body, rest, st, st1, st');
  }

  lemma {:induction false} TrackedProgress(fs: seq<Field>, ms: seq<Slot>, k: nat, st: State, st': State)
    requires |fs| == |ms| && k < |fs| && Progress(fs, ms, k, st) && !fs[k].htype.FixedCount?
    requires Track(fs, st, k).Some? && st' == Track(fs, st, k).value.(slots := Mixed(fs, ms, k + 1))
    ensures Progress(fs, ms, k + 1, st')
  {
    RequiredStep(fs, k);
  }

  lemma {:induction false} SingleDecodes(fs: seq<Field>, ms: seq<Slot>, k: nat, st: State, wire: WireType,
                                         body: Bytes, rest: Bytes)
    requires MessageOk(fs, ms) && k < |fs| && st.slots == Mixed(fs, ms, k)
    requires !ms[k].Many? && (ms[k].Maybe? ==> ms[k].has) && SlotOk(fs[k], ms[k])
    requires DecodeValue(fs[k], body + rest, DefaultValue(fs[k])) == Some((CanonValue(fs[k], ms[k].v), rest))
    ensures DecodeField(fs, k, wire, body + rest, st) == Some((st.(slots := Mixed(fs, ms, k + 1)), rest))
  {
    var v := CanonValue(fs[k], ms[k].v);
    MixedStep(fs, ms, k);
    if fs[k].htype.Oneof? { SelectUsed(fs, ms, k, v); }
  }

  // ----- Arrays

  /** The state while the array of field `k` is filled with `done`. */
  function Filling(fs: seq<Field>, ms: seq<Slot>, k: nat, st: State, done: seq<Value>): State
    requires |fs| == |ms| && k < |fs|
  {
    var st1 := st.(slots := Mixed(fs, ms, k)[k := Many(ArrayOf(fs[k], done))]);
    if fs[k].htype.FixedCount? && done != [] then st1.(fixedField := k, fixedCount := |done|) else st1
  }

  lemma {:induction false} FillStarts(fs: seq<Field>, ms: seq<Slot>, k: nat, st: State)
    requires |fs| == |ms| && k < |fs| && Progress(fs, ms, k, st) && (fs[k].htype.Repeated? || fs[k].htype.FixedCount?)
    ensures Filling(fs, ms, k, st, []) == st
  {
    MixedStep(fs, ms, k);
    assert ArrayOf(fs[k], []) == DefaultSlot(fs[k]).items;
  }

  lemma {:induction false} FillEnds(fs: seq<Field>, ms: seq<Slot>, k: nat, st: State)
    requires |fs| == |ms| && k < |fs| && Progress(fs, ms, k, st) && (fs[k].htype.Repeated? || fs[k].htype.FixedCount?)
    requires SlotOk(fs[k], ms[k]) && ms[k].items != []
    ensures Progress(fs, ms, k + 1, Filling(fs, ms, k, st, CanonItems(fs[k], ms[k].items)))
  {
    MixedStep(fs, ms, k);
    RequiredStep(fs, k);
    var done := CanonItems(fs[k], ms[k].items);
    assert ArrayOf(fs[k], done) == done;
  }

  /** What `Track` does to a state that is filling field `k`. */
  lemma {:induction false} FillTracks(fs: seq<Field>, ms: seq<Slot>, k: nat, st: State, done: seq<Value>)
    requires |fs| == |ms| && k < |fs| && Progress(fs, ms, k, st) && (fs[k].htype.Repeated? || fs[k].htype.FixedCount?)
    ensures var st1 := Filling(fs, ms, k, st, done);
            && Track(fs, st1, k).Some?
            && Track(fs, st1, k).value.slots == st1.slots && Track(fs, st1, k).value.seen == st1.seen
            && (fs[k].htype.FixedCount? ==>
                  Track(fs, st1, k).value.fixedField == k && Track(fs, st1, k).value.fixedCount == |done|)
            && (!fs[k].htype.FixedCount? ==> Track(fs, st1, k).value == st1)
  {
  }

  lemma {:induction false} PackedDecodes(f: Field, items: seq<Value>, body: Bytes, rest: Bytes)
    requires FieldOk(f) && Packable(f.ltype) && AllOk(f, items) && |items| <= f.arraySize
    requires EncodeItems(f, items, []) == Some(body) && |body| < TWO_32
    ensures DecodeArray(f, WtString, Delimited(body) + rest, ArrayOf(f, []), 0)
            == Some((ArrayOf(f, items), |items|, rest))
  {
    DelimitedBytes(body, rest, Delimited(body) + rest);
    PackedRoundTrip(f, [], items, body);
    assert [] + items == items;
  }

  lemma {:induction false} PackedArray(fs: seq<Field>, ms: seq<Slot>, k: nat, st: State, body: Bytes, rest: Bytes)
    requires SchemaOk(fs) && SlotsOk(fs, ms) && k < |fs| && Progress(fs, ms, k, st)
    requires (fs[k].htype.Repeated? || fs[k].htype.FixedCount?) && Packable(fs[k].ltype) && ms[k].items != []
    requires EncodeItems(fs[k], ms[k].items, []) == Some(body) && |body| < TWO_32
    ensures DecodeMessage(fs, Tag(fs[k].tag, WtString) + Delimited(body) + rest, st)
            == DecodeMessage(fs, rest, Filling(fs, ms, k, st, ms[k].items))
  {
    var f, items := fs[k], ms[k].items;
    assert FieldOk(f) && SlotOk(f, ms[k]);
    FillStarts(fs, ms, k, st);
    FillTracks(fs, ms, k, st, []);
    var st1 := Track(fs, st, k).value;
    PackedDecodes(f, items, body, rest);
    var st2 := Filling(fs, ms, k, st, items);
    assert st1.slots[k] == Many(ArrayOf(f, []));
    assert st1.slots[k := Many(ArrayOf(f, items))] == st2.slots;
    assert DecodeField(fs, k, WtString, Delimited(body) + rest, st1) == Some((st2, rest));
    TaggedStep(fs, k, WtString, Delimited(body), rest, st, st1, st2);
  }

  /** One item of an array that is not packed. */
  lemma {:induction false} ItemStep(fs: seq<Field>, ms: seq<Slot>, k: nat, st: State, done: seq<Value>, v: Value,
                                    body: Bytes, rest: Bytes)
    requires SchemaOk(fs) && |fs| == |ms| && k < |fs| && Progress(fs, ms, k, st)
    requires (fs[k].htype.Repeated? || fs[k].htype.FixedCount?) && !Packable(fs[k].ltype) && |done| < fs[k].arraySize
    requires DecodeValue(fs[k], body + rest, DefaultValue(fs[k])) == Some((v, rest))
    ensures DecodeMessage(fs, Tag(fs[k].tag, WireTypeOf(fs[k].ltype)) + body + rest, Filling(fs, ms, k, st, done))
            == DecodeMessage(fs, rest, Filling(fs, ms, k, st, done + [v]))
  {
    var f, wire := fs[k], WireTypeOf(fs[k].ltype);
    var st0, st2 := Filling(fs, ms, k, st, done), Filling(fs, ms, k, st, done + [v]);
    FillTracks(fs, ms, k, st, done);
    var st1 := Track(fs, st0, k).value;
    PutNext(f, done, v);
    assert st1.slots[k] == Many(ArrayOf(f, done));
    assert st1.slots[k := Many(ArrayOf(f, done + [v]))] == st2.slots;
    assert DecodeField(fs, k, wire, body + rest, st1) == Some((st2, rest));
    TaggedStep(fs, k, wire, body, rest, st0, st1, st2);
  }

  lemma {:induction false} CanonCons(f: Field, done: seq<Value>, items: seq<Value>)
    requires items != []
    ensures done + [CanonValue(f, items[0])] + CanonItems(f, items[1..]) == done + CanonItems(f, items)
  {
  }

  lemma {:induction false} ItemsRoundTrip(fs: seq<Field>, ms: seq<Slot>, k: nat, st: State, done: seq<Value>,
                                          items: seq<Value>, b: Bytes, rest: Bytes)
    requires SchemaOk(fs) && |fs| == |ms| && k < |fs| && Progress(fs, ms, k, st)
    requires (fs[k].htype.Repeated? || fs[k].htype.FixedCount?) && !Packable(fs[k].ltype)
    requires AllOk(fs[k], items) && |done| + |items| <= fs[k].arraySize
    requires EncodeItems(fs[k], items, Tag(fs[k].tag, WireTypeOf(fs[k].ltype))) == Some(b) && |b| < TWO_32
    ensures DecodeMessage(fs, b + rest, Filling(fs, ms, k, st, done))
            == DecodeMessage(fs, rest, Filling(fs, ms, k, st, done + CanonItems(fs[k], items)))
    decreases fs, 1, |items|
  {
    var f := fs[k];
    if items == [] {
      assert b + rest == rest && done + CanonItems(f, items) == done;
    } else {
      var tag := Tag(f.tag, WireTypeOf(f.ltype));
      var body, later := ItemsShape(f, items, tag, rest);
      var v, next := CanonValue(f, items[0]), later + rest;
      assert FieldOk(f) && ValueOk(f, items[0]) && AllOk(f, items[1..]);
      ValueRoundTrip(f, items[0], body, next);
      ItemStep(fs, ms, k, st, done, v, body, next);
      ItemsRoundTrip(fs, ms, k, st, done + [v], items[1..], later, rest);
      CanonCons(f, done, items);
    }
  }

  lemma {:induction false} ArrayRoundTrip(fs: seq<Field>, ms: seq<Slot>, k: nat, st: State, b: Bytes, rest: Bytes)
    returns (st': State)
    requires SchemaOk(fs) && MessageOk(fs, ms) && k < |fs| && Progress(fs, ms, k, st)
    requires (fs[k].htype.Repeated? || fs[k].htype.FixedCount?) && SlotOk(fs[k], ms[k]) && ms[k].items != []
    requires EncodeSlot(fs[k], ms[k]) == Some(b) && |b| < TWO_32
    ensures Progress(fs, ms, k + 1, st')
    ensures DecodeMessage(fs, b + rest, st) == DecodeMessage(fs, rest, st')
    decreases fs, 2, 0
  {
    var f, items := fs[k], ms[k].items;
    st' := Filling(fs, ms, k, st, CanonItems(f, items));
    FillEnds(fs, ms, k, st);
    if Packable(f.ltype) {
      var body := EncodeItems(f, items, []).value;
      CanonOfScalars(f, items);
      PackedArray(fs, ms, k, st, body, rest);
    } else {
      FillStarts(fs, ms, k, st);
      ItemsRoundTrip(fs, ms, k, st, [], items, b, rest);
      assert [] + CanonItems(f, items) == CanonItems(f, items);
    }
  }

  // ----- The theorem

  /** Every message that fits its description is encoded, and decoding the bytes gives it back, with
      defaults in the place of absent optional fields and unused union members. */
  lemma {:induction false} RoundTrip(fs: seq<Field>, ms: seq<Slot>)
    requires SchemaOk(fs) && MessageOk(fs, ms)
    ensures EncodeMessage(fs, ms).Some?
    ensures |EncodeMessage(fs, ms).value| < TWO_32
            ==> Decode(fs, EncodeMessage(fs, ms).value) == Some(CanonMessage(fs, ms))
  {
    MessageEncodes(fs, ms);
    var body := EncodeMessage(fs, ms).value;
    if |body| < TWO_32 { MessageRoundTrip(fs, ms, body); }
  }
}
