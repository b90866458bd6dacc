/** What an encoded message looks like to a reader that knows nothing of its description: a list of field
    numbers, wire types and values, with the codes and lengths of the Protocol Buffers encoding. */
module NanopbRaw {
  import opened ByteStrings
  import opened NanopbWire
  import opened NanopbSchema
  import opened NanopbDecode
  import opened NanopbRoundTrip
  import opened NanopbCompat

  /** A field number, the code of a wire type and the bytes of a value. */
  datatype Raw = Raw(tag: nat, code: nat, body: Bytes)

  /** Reads tag after tag and skips what follows. */
  function RawFields(s: Bytes): Option<seq<Raw>>
    decreases |s|
  {
    if s == [] then Some([])
    else
      match DecodeVarint32(s)
      case None => None
      case Some((v, rest)) =>
        match SkipField(rest, WireOf(v % 8))
        case None => None
        case Some(rest') =>
          match RawFields(rest')
          case None => None
          case Some(later) => Some([Raw(v / 8, v % 8, rest[..|rest| - |rest'|])] + later)
  }

  // ----- The codes and lengths of the encoding

  /** Integers and Booleans are varints, fixed-size numbers have eight or four bytes, and the rest is
      behind its length. */
  function CodeOf(t: LType): nat {
    match t
    case LBool => 0
    case LVarint => 0
    case LUVarint => 0
    case LSVarint => 0
    case LFixed64 => 1
    case LFixed32 => 5
    case _ => 2
  }

  predicate IsArray(f: Field) {
    f.htype.Repeated? || f.htype.FixedCount?
  }

  /** The field on the wire is one of `f`: a value with its code, or a packed array. */
  predicate IsOf(f: Field, r: Raw) {
    && r.tag == f.tag
    && (|| (r.code == CodeOf(f.ltype) && (f.ltype.LFixed64? ==> |r.body| == 8) && (f.ltype.LFixed32? ==> |r.body| == 4)
            && (IsArray(f) ==> !Packable(f.ltype)))
        || (r.code == 2 && IsArray(f) && Packable(f.ltype)))
  }

  predicate AllOf(f: Field, rs: seq<Raw>) {
    forall i :: 0 <= i < |rs| ==> IsOf(f, rs[i])
  }

  predicate AllKnown(fs: seq<Field>, rs: seq<Raw>) {
    forall i :: 0 <= i < |rs| ==> exists k :: 0 <= k < |fs| && IsOf(fs[k], rs[i])
  }

  // ----- Skipping what the encoder writes

  lemma {:induction false} SkipsVarint(v: nat, rest: Bytes)
    ensures SkipVarint(Varint(v) + rest) == Some(rest)
  {
    var s := Varint(v) + rest;
    VarintHead(v, rest);
    if v >= 128 { SkipsVarint(v / 128, rest); }
  }

  lemma SkipsDelimited(body: Bytes)
    requires |body| < TWO_32
    ensures SkipField(Delimited(body), WtString) == Some([])
  {
    assert Delimited(body) + [] == Delimited(body) && body + [] == body;
    DelimitedBytes(body, [], Delimited(body));
  }

  lemma {:induction false} DelimitedIsLonger(body: Bytes)
    ensures |body| <= |Delimited(body)|
  {
  }

  /** The value of a field is skipped by its wire type, whose code and length are these. */
  lemma {:induction false} SkipsValue(f: Field, v: Value, b: Bytes)
    requires EncodeValue(f, v) == Some(b) && |b| < TWO_32
    ensures SkipField(b, WireTypeOf(f.ltype)) == Some([])
    ensures WireCode(WireTypeOf(f.ltype)) == CodeOf(f.ltype)
    ensures (f.ltype.LFixed64? ==> |b| == 8) && (f.ltype.LFixed32? ==> |b| == 4)
  {
    assert b + [] == b;
    match f.ltype
    case LBool => SkipsVarint(if v.b then 1 else 0, []);
    case LVarint => SkipsVarint(ToUnsigned64(v.i), []);
    case LUVarint => SkipsVarint(v.i, []);
    case LSVarint => SkipsVarint(ZigZag(v.i), []);
    case LFixed32 =>
    case LFixed64 =>
    case LBytes => SkipsDelimited(v.s);
    case LString => SkipsDelimited(CString(v.s, f.dataSize));
    case LFixedBytes => SkipsDelimited(v.s);
    case LSubmessage(fields) => SkipsDelimited(EncodeMessage(fields, v.slots).value);
  }

  // ----- One field after the other

  lemma {:induction false} RawOne(tag: nat, w: WireType, body: Bytes)
    requires 1 <= tag < 0x2000_0000 && !w.WtInvalid? && SkipField(body, w) == Some([])
    ensures RawFields(Tag(tag, w) + body) == Some([Raw(tag, WireCode(w), body)])
  {
    var c := WireCode(w);
    TagParts(tag, c);
    Varint32RoundTrip(tag * 8 + c, body);
    assert WireOf(c) == w && body + [] == body && RawFields([]) == Some([]);
    RawUnfolds(Tag(tag, w) + body, tag * 8 + c, body, w, [], body);
    assert [Raw(tag, c, body)] + [] == [Raw(tag, c, body)];
  }

  lemma TagParts(tag: nat, c: nat)
    requires c < 8
    ensures (tag * 8 + c) / 8 == tag && (tag * 8 + c) % 8 == c
  {
  }

  /** Fields in a row are read in a row. */
  lemma {:induction false} RawConcat(a: Bytes, b: Bytes)
    requires RawFields(a).Some?
    ensures RawFields(a + b)
            == if RawFields(b).Some? then Some(RawFields(a).value + RawFields(b).value) else None
    decreases |a|
  {
    if a == [] {
      assert a + b == b;
      if RawFields(b).Some? { assert [] + RawFields(b).value == RawFields(b).value; }
    } else {
      var (v, rest) := DecodeVarint32(a).value;
      var w := WireOf(v % 8);
      var later := SkipField(rest, w).value;
      RawConcat(later, b);
      RawFirst(a, b, v, rest, w, later);
    }
  }

  lemma {:induction false} RawFirst(a: Bytes, b: Bytes, v: nat, rest: Bytes, w: WireType, later: Bytes)
    requires a != [] && DecodeVarint32(a) == Some((v, rest)) && w == WireOf(v % 8) && SkipField(rest, w) == Some(later)
    requires RawFields(later).Some?
    requires RawFields(later + b)
             == if RawFields(b).Some? then Some(RawFields(later).value + RawFields(b).value) else None
    ensures RawFields(a).Some?
    ensures RawFields(a + b)
            == if RawFields(b).Some? then Some(RawFields(a).value + RawFields(b).value) else None
  {
    var c := Varint32Local(a, rest + b);
    var d := SkipLocal(rest, w, later + b);
    BytesJoin(a, b, c, rest);
    BytesJoin(rest, b, d, later);
    var first := Raw(v / 8, v % 8, d);
    RawUnfolds(a, v, rest, w, later, d);
    RawUnfolds(a + b, v, rest + b, w, later + b, d);
    if RawFields(b).Some? { RawJoin([first], RawFields(later).value, RawFields(b).value); }
  }

  lemma BytesJoin(a: Bytes, b: Bytes, c: Bytes, rest: Bytes)
    requires a == c + rest
    ensures a + b == c + (rest + b)
  {
  }

  lemma RawJoin(a: seq<Raw>, b: seq<Raw>, c: seq<Raw>)
    ensures a + b + c == a + (b + c)
  {
  }

  lemma {:induction false} RawUnfolds(s: Bytes, v: nat, rest: Bytes, w: WireType, later: Bytes, d: Bytes)
    requires s != [] && DecodeVarint32(s) == Some((v, rest)) && w == WireOf(v % 8)
    requires SkipField(rest, w) == Some(later) && rest == d + later
    ensures RawFields(s)
            == match RawFields(later) case None => None case Some(rs) => Some([Raw(v / 8, v % 8, d)] + rs)
  {
    assert rest[..|rest| - |later|] == d;
  }

  // ----- Fields and messages

  lemma {:induction false} TaggedForm(f: Field, v: Value, b: Bytes)
    requires FieldOk(f) && !IsArray(f) && EncodeTagged(f, v) == Some(b) && |b| < TWO_32
    ensures RawFields(b).Some? && AllOf(f, RawFields(b).value)
  {
    var body := EncodeValue(f, v).value;
    SkipsValue(f, v, body);
    RawOne(f.tag, WireTypeOf(f.ltype), body);
  }

  lemma {:induction false} ItemsForm(f: Field, items: seq<Value>, b: Bytes)
    requires FieldOk(f) && IsArray(f) && !Packable(f.ltype) && |b| < TWO_32
    requires EncodeItems(f, items, Tag(f.tag, WireTypeOf(f.ltype))) == Some(b)
    ensures RawFields(b).Some? && AllOf(f, RawFields(b).value)
    decreases |items|
  {
    if items != [] {
      var tag := Tag(f.tag, WireTypeOf(f.ltype));
      var body, later := EncodeValue(f, items[0]).value, EncodeItems(f, items[1..], tag).value;
      SkipsValue(f, items[0], body);
      RawOne(f.tag, WireTypeOf(f.ltype), body);
      ItemsForm(f, items[1..], later);
      RawConcat(tag + body, later);
    }
  }

  lemma {:induction false} ArrayForm(f: Field, items: seq<Value>, b: Bytes)
    requires FieldOk(f) && IsArray(f) && EncodeArray(f, items) == Some(b) && |b| < TWO_32
    ensures RawFields(b).Some? && AllOf(f, RawFields(b).value)
  {
    if items != [] {
      if Packable(f.ltype) {
        var body := EncodeItems(f, items, []).value;
        DelimitedIsLonger(body);
        SkipsDelimited(body);
        RawOne(f.tag, WtString, Delimited(body));
      } else {
        ItemsForm(f, items, b);
      }
    }
  }

  lemma {:induction false} SlotForm(f: Field, slot: Slot, b: Bytes)
    requires FieldOk(f) && EncodeSlot(f, slot) == Some(b) && |b| < TWO_32
    ensures RawFields(b).Some? && AllOf(f, RawFields(b).value)
  {
    if b != [] {
      if IsArray(f) { ArrayForm(f, slot.items, b); } else { TaggedForm(f, slot.v, b); }
    }
  }

  lemma KnownConcat(fs: seq<Field>, a: seq<Raw>, b: seq<Raw>)
    requires fs != [] && AllOf(fs[0], a) && AllKnown(fs[1..], b)
    ensures AllKnown(fs, a + b)
  {
    forall i | 0 <= i < |a + b|
      ensures exists k :: 0 <= k < |fs| && IsOf(fs[k], (a + b)[i])
    {
      if i < |a| {
        assert IsOf(fs[0], (a + b)[i]);
      } else {
        var k :| 0 <= k < |fs[1..]| && IsOf(fs[1..][k], b[i - |a|]);
        assert IsOf(fs[k + 1], (a + b)[i]);
      }
    }
  }

  /** Whatever is encoded, a reader without the description finds fields in it, one after the other to the
      last byte, and each is one of the description's, with the code and length of its type. */
  lemma {:induction false} EncodedForm(fs: seq<Field>, ms: seq<Slot>, b: Bytes)
    requires (forall i :: 0 <= i < |fs| ==> FieldOk(fs[i])) && EncodeMessage(fs, ms) == Some(b) && |b| < TWO_32
    ensures RawFields(b).Some? && AllKnown(fs, RawFields(b).value)
  {
    if fs != [] {
      var first, later := EncodeSlot(fs[0], ms[0]).value, EncodeMessage(fs[1..], ms[1..]).value;
      SlotForm(fs[0], ms[0], first);
      EncodedForm(fs[1..], ms[1..], later);
      RawConcat(first, later);
      KnownConcat(fs, RawFields(first).value, RawFields(later).value);
    }
  }

  // ----- A decoder with another description

  /** No field on the wire is known to the description `gs`. */
  predicate Foreign(gs: seq<Field>, rs: seq<Raw>) {
    forall i :: 0 <= i < |rs| ==> rs[i].tag >= 1 && FindField(gs, rs[i].tag) == -1
  }

  lemma {:induction false} ForeignIgnored(gs: seq<Field>, s: Bytes, st: State)
    requires |st.slots| == |gs| && RawFields(s).Some? && Foreign(gs, RawFields(s).value)
    ensures DecodeMessage(gs, s, st) == NanopbDecode.Finish(gs, st)
    decreases |s|
  {
    if s != [] {
      var (v, rest) := DecodeVarint32(s).value;
      var later := SkipField(rest, WireOf(v % 8)).value;
      var rs := RawFields(s).value;
      assert rs[0].tag == v / 8 && rs[1..] == RawFields(later).value;
      assert forall i :: 0 <= i < |rs| - 1 ==> rs[1..][i] == rs[i + 1];
      assert DecodeStep(gs, s, st) == More(st, later);
      ForeignIgnored(gs, later, st);
    }
  }

  /** A decoder that knows none of the tags skips an encoded message whole and changes nothing. */
  lemma {:induction false} EncodedIsIgnored(fs: seq<Field>, ms: seq<Slot>, gs: seq<Field>, st: State)
    requires SchemaOk(fs) && MessageOk(fs, ms) && |st.slots| == |gs|
    requires forall k :: 0 <= k < |fs| ==> FindField(gs, fs[k].tag) == -1
    ensures EncodeMessage(fs, ms).Some?
    ensures |EncodeMessage(fs, ms).value| < TWO_32
            ==> DecodeMessage(gs, EncodeMessage(fs, ms).value, st) == NanopbDecode.Finish(gs, st)
  {
    MessageEncodes(fs, ms);
    var b := EncodeMessage(fs, ms).value;
    if |b| < TWO_32 {
      EncodedForm(fs, ms, b);
      var rs := RawFields(b).value;
      forall i | 0 <= i < |rs| ensures rs[i].tag >= 1 && FindField(gs, rs[i].tag) == -1 {
        var k :| 0 <= k < |fs| && IsOf(fs[k], rs[i]);
      }
      ForeignIgnored(gs, b, st);
    }
  }

  // ----- The values as numbers

  /** `v` without its `7 * i` low-order bits. */
  function Upper(v: nat, i: nat): nat {
    if i == 0 then v else Upper(v / 128, i - 1)
  }

  /** A varint holds seven bits in each byte, the low-order ones first, and all bytes but the last have their
      top bit set; there are no more of them than are needed. */
  lemma {:induction false} VarintBytes(v: nat, i: nat)
    requires i < |Varint(v)|
    ensures Varint(v)[i] == Upper(v, i) % 128 + (if i + 1 < |Varint(v)| then 128 else 0)
    ensures Upper(v, |Varint(v)|) == 0
    ensures i + 1 < |Varint(v)| ==> Upper(v, i + 1) > 0
    decreases i
  {
    if v >= 128 {
      if i > 0 { VarintBytes(v / 128, i - 1); } else { VarintEnds(v / 128); }
    }
  }

  lemma {:induction false} VarintEnds(v: nat)
    ensures Upper(v, |Varint(v)|) == 0
    decreases v
  {
    if v >= 128 { VarintEnds(v / 128); }
  }

  /** What a single value is written as: a varint for the tag, which is eight times the field number and
      the code of the type, and the value. */
  lemma {:induction false} TaggedBytes(f: Field, v: Value, b: Bytes)
    requires ValueOk(f, v) && EncodeTagged(f, v) == Some(b)
    ensures match f.ltype
            case LBool => b == Varint(8 * f.tag) + [if v.b then 1 else 0]
            case LVarint => b == Varint(8 * f.tag) + Varint(if v.i >= 0 then v.i else 0x1_0000_0000_0000_0000 + v.i)
            case LUVarint => b == Varint(8 * f.tag) + Varint(v.i)
            case LSVarint => b == Varint(8 * f.tag) + Varint(if v.i >= 0 then 2 * v.i else -2 * v.i - 1)
            case LFixed32 =>
              b == Varint(8 * f.tag + 5) + [v.i % 256, v.i / 256 % 256, v.i / 256 / 256 % 256, v.i / 256 / 256 / 256]
            case LFixed64 =>
              && |b| == |Varint(8 * f.tag + 1)| + 8 && Varint(8 * f.tag + 1) <= b
              && Octets(b[|Varint(8 * f.tag + 1)|..]) == v.i
            case LBytes => b == Varint(8 * f.tag + 2) + (Varint(|v.s|) + v.s)
            case LString => b == Varint(8 * f.tag + 2) + (Varint(|v.s|) + v.s)
            case LFixedBytes => b == Varint(8 * f.tag + 2) + (Varint(|v.s|) + v.s)
            case LSubmessage(fields) =>
              var body := EncodeMessage(fields, v.slots);
              body.Some? && b == Varint(8 * f.tag + 2) + (Varint(|body.value|) + body.value)
  {
    match f.ltype
    case LFixed32 => FourBytes(v.i);
    case LFixed64 => EightBytes(Varint(8 * f.tag + 1), v.i);
    case LString => CStringOfNulFree(v.s, f.dataSize);
    case _ =>
  }

  /** The number that bytes stand for, the low-order one first. */
  function Octets(s: Bytes): nat {
    if s == [] then 0 else Octets(s[..|s| - 1]) + s[|s| - 1] * Pow256(|s| - 1)
  }

  lemma FourBytes(v: nat)
    requires v < TWO_32
    ensures LittleEndian(v, 4) == [v % 256, v / 256 % 256, v / 256 / 256 % 256, v / 256 / 256 / 256]
  {
    var w := v / 256 / 256 / 256;
    assert LittleEndian(w, 1) == [w % 256] + [] && w < 256;
    assert LittleEndian(v / 256 / 256, 2) == [v / 256 / 256 % 256] + LittleEndian(w, 1);
    assert LittleEndian(v / 256, 3) == [v / 256 % 256] + LittleEndian(v / 256 / 256, 2);
  }

  lemma EightBytes(tag: Bytes, v: nat)
    requires v < TWO_64
    ensures (tag + LittleEndian(v, 8))[|tag|..] == LittleEndian(v, 8) && Octets(LittleEndian(v, 8)) == v
  {
    var s := LittleEndian(v, 8);
    OctetsAre(s, |s|);
    assert s[..|s|] == s;
    assert Pow256(4) == TWO_32;
    assert Pow256(8) == TWO_64;
    LittleEndianRoundTrip(v, 8);
  }

  lemma {:induction false} OctetsAre(s: Bytes, n: nat)
    requires n == |s|
    ensures Octets(s) == FromLittleEndian(s)
    decreases n
  {
    if n > 0 {
      var a := s[..n - 1];
      OctetsAre(a, n - 1);
      LastOctet(a, s[n - 1]);
      assert s == a + [s[n - 1]];
    }
  }

  lemma {:induction false} LastOctet(a: Bytes, x: Byte)
    ensures FromLittleEndian(a + [x]) == FromLittleEndian(a) + x * Pow256(|a|)
    decreases |a|
  {
    if a == [] {
      assert ([] + [x])[1..] == [];
    } else {
      assert (a + [x])[1..] == a[1..] + [x];
      LastOctet(a[1..], x);
      assert 256 * (x * Pow256(|a| - 1)) == x * Pow256(|a|);
    }
  }

  /** A value that a proto3 message leaves out: zero, false or nothing. */
  predicate IsNothing(f: Field, v: Value)
    requires !f.ltype.LSubmessage? && ValueOk(f, v)
  {
    match f.ltype
    case LBool => !v.b
    case LBytes => |v.s| == 0
    case LString => |v.s| == 0
    case LFixedBytes => |v.s| == 0
    case _ => v.IntV? && v.i == 0
  }

  /** A field without a presence flag is written exactly when there is something to write. */
  lemma {:induction false} NothingLeftOut(f: Field, v: Value)
    requires FieldOk(f) && f.htype.Singular? && !f.ltype.LSubmessage? && ValueOk(f, v)
    ensures EncodeSlot(f, One(v)).Some?
    ensures EncodeSlot(f, One(v)).value == [] <==> IsNothing(f, v)
  {
    ValueEncodes(f, v);
    if f.ltype.LString? && v.s != [] { assert v.s[0] != 0; }
  }
}
