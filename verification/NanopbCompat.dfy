/** A decoder looks only at the bytes it consumes, and fields with unknown tags are skipped without
    a trace. */
module NanopbCompat {
  import opened ByteStrings
  import opened NanopbWire
  import opened NanopbSchema
  import opened NanopbDecode

  // Each lemma below says of one decoder: what it consumed is a prefix of its input, and with any
  // other bytes `t` after that prefix it reads the same and leaves `t`.

  lemma {:induction false} RawVarintLocal(s: Bytes, max: nat, t: Bytes) returns (c: Bytes)
    requires RawVarint(s, max).Some?
    ensures s == c + RawVarint(s, max).value.1 && RawVarint(c + t, max) == Some((RawVarint(s, max).value.0, t))
    decreases max
  {
    if s[0] < 128 {
      c := [s[0]];
      assert s == c + s[1..] && (c + t)[1..] == t;
    } else {
      var c' := RawVarintLocal(s[1..], max - 1, t);
      c := [s[0]] + c';
      assert s == [s[0]] + s[1..] && (c + t)[1..] == c' + t;
    }
  }

  lemma {:induction false} VarintLocal(s: Bytes, t: Bytes) returns (c: Bytes)
    requires DecodeVarint(s).Some?
    ensures s == c + DecodeVarint(s).value.1 && DecodeVarint(c + t) == Some((DecodeVarint(s).value.0, t))
  {
    c := RawVarintLocal(s, MAX_VARINT_BYTES, t);
  }

  lemma {:induction false} Varint32TailLocal(s: Bytes, result: nat, bitpos: nat, t: Bytes) returns (c: Bytes)
    requires Varint32Tail(s, result, bitpos).Some?
    ensures s == c + Varint32Tail(s, result, bitpos).value.1
    ensures Varint32Tail(c + t, result, bitpos) == Some((Varint32Tail(s, result, bitpos).value.0, t))
    decreases |s|
  {
    var b := s[0];
    var result' := if bitpos >= 32 then result else Or(result, Shifted(b, bitpos));
    if b >= 128 {
      var c' := Varint32TailLocal(s[1..], result', (bitpos + 7) % 256, t);
      c := [b] + c';
      assert s == [b] + s[1..] && (c + t)[1..] == c' + t;
    } else {
      c := [b];
      assert s == c + s[1..] && (c + t)[1..] == t;
    }
  }

  lemma {:induction false} Varint32Local(s: Bytes, t: Bytes) returns (c: Bytes)
    requires DecodeVarint32(s).Some?
    ensures c != [] && s == c + DecodeVarint32(s).value.1
            && DecodeVarint32(c + t) == Some((DecodeVarint32(s).value.0, t))
  {
    if s[0] < 128 {
      c := [s[0]];
      assert s == c + s[1..] && (c + t)[1..] == t;
    } else {
      var c' := Varint32TailLocal(s[1..], s[0] % 128, 7, t);
      c := [s[0]] + c';
      assert s == [s[0]] + s[1..] && (c + t)[1..] == c' + t;
    }
  }

  lemma {:induction false} ReadLocal(s: Bytes, n: nat, t: Bytes)
    requires Read(s, n).Some?
    ensures Read(Read(s, n).value.0 + t, n) == Some((Read(s, n).value.0, t))
  {
    ReadExact(s[..n], t);
  }

  /** A length and that many bytes. */
  lemma {:induction false} DelimitedLocal(s: Bytes, t: Bytes) returns (c: Bytes, body: Bytes)
    requires DecodeVarint32(s).Some? && DecodeVarint32(s).value.0 <= |DecodeVarint32(s).value.1|
    ensures var (n, rest) := DecodeVarint32(s).value;
            && body == rest[..n] && s == c + body + rest[n..]
            && DecodeVarint32(c + body + t) == Some((n, body + t))
            && (body + t)[..n] == body && (body + t)[n..] == t
  {
    var (n, rest) := DecodeVarint32(s).value;
    body := rest[..n];
    c := Varint32Local(s, body + t);
    assert rest == body + rest[n..];
    assert c + body + t == c + (body + t) && s == c + (body + rest[n..]);
  }

  lemma {:induction false} BytesLocal(s: Bytes, dataSize: nat, extra: nat, t: Bytes) returns (c: Bytes)
    requires DecodeBytes(s, dataSize, extra).Some?
    ensures s == c + DecodeBytes(s, dataSize, extra).value.1
    ensures DecodeBytes(c + t, dataSize, extra) == Some((DecodeBytes(s, dataSize, extra).value.0, t))
  {
    var p, body := DelimitedLocal(s, t);
    c := p + body;
    ReadExact(body, t);
  }

  lemma {:induction false} FixedBytesLocal(f: Field, s: Bytes, t: Bytes) returns (c: Bytes)
    requires f.ltype.LFixedBytes? && DecodeScalar(f, s).Some?
    ensures s == c + DecodeScalar(f, s).value.1 && DecodeScalar(f, c + t) == Some((DecodeScalar(f, s).value.0, t))
  {
    var (n, rest) := DecodeVarint32(s).value;
    if n == 0 {
      c := Varint32Local(s, t);
    } else {
      var p, body := DelimitedLocal(s, t);
      c := p + body;
      ReadExact(body, t);
    }
  }

  lemma {:induction false} ScalarLocal(f: Field, s: Bytes, t: Bytes) returns (c: Bytes)
    requires !f.ltype.LSubmessage? && DecodeScalar(f, s).Some?
    ensures s == c + DecodeScalar(f, s).value.1 && DecodeScalar(f, c + t) == Some((DecodeScalar(f, s).value.0, t))
  {
    match f.ltype
    case LBool => c := Varint32Local(s, t);
    case LVarint => c := VarintLocal(s, t);
    case LUVarint => c := VarintLocal(s, t);
    case LSVarint => c := VarintLocal(s, t);
    case LFixed32 =>
      ReadLocal(s, 4, t);
      c := s[..4];
    case LFixed64 =>
      ReadLocal(s, 8, t);
      c := s[..8];
    case LBytes => c := BytesLocal(s, f.dataSize, BYTES_HEADER, t);
    case LString => c := BytesLocal(s, f.dataSize, 1, t);
    case LFixedBytes => c := FixedBytesLocal(f, s, t);
  }

  lemma {:induction false} ValueLocal(f: Field, s: Bytes, prev: Value, t: Bytes) returns (c: Bytes)
    requires DecodeValue(f, s, prev).Some?
    ensures s == c + DecodeValue(f, s, prev).value.1
            && DecodeValue(f, c + t, prev) == Some((DecodeValue(f, s, prev).value.0, t))
  {
    if !f.ltype.LSubmessage? {
      c := ScalarLocal(f, s, t);
    } else {
      var p, body := DelimitedLocal(s, t);
      c := p + body;
    }
  }

  lemma {:induction false} ArrayLocal(f: Field, wire: WireType, s: Bytes, items: seq<Value>, n: nat, t: Bytes)
    returns (c: Bytes)
    requires DecodeArray(f, wire, s, items, n).Some?
    ensures var (items', n', rest) := DecodeArray(f, wire, s, items, n).value;
            s == c + rest && DecodeArray(f, wire, c + t, items, n) == Some((items', n', t))
  {
    if wire == WtString && Packable(f.ltype) {
      var p, body := DelimitedLocal(s, t);
      c := p + body;
    } else {
      c := ValueLocal(f, s, DefaultValue(f), t);
    }
  }

  lemma {:induction false} FieldLocal(fs: seq<Field>, i: nat, wire: WireType, s: Bytes, st: State, t: Bytes)
    returns (c: Bytes)
    requires |st.slots| == |fs| && i < |fs| && DecodeField(fs, i, wire, s, st).Some?
    ensures s == c + DecodeField(fs, i, wire, s, st).value.1
    ensures DecodeField(fs, i, wire, c + t, st) == Some((DecodeField(fs, i, wire, s, st).value.0, t))
  {
    var f, slot := fs[i], st.slots[i];
    match f.htype
    case Repeated => c := ArrayLocal(f, wire, s, slot.items, |slot.items|, t);
    case FixedCount => c := ArrayLocal(f, wire, s, slot.items, st.fixedCount, t);
    case Oneof(_) => c := ValueLocal(f, s, if slot.Maybe? && slot.has then slot.v else DefaultValue(f), t);
    case Optional => c := ValueLocal(f, s, if slot.Maybe? then slot.v else DefaultValue(f), t);
    case _ => c := ValueLocal(f, s, if slot.One? then slot.v else DefaultValue(f), t);
  }

  lemma {:induction false} SkipVarintLocal(s: Bytes, t: Bytes) returns (c: Bytes)
    requires SkipVarint(s).Some?
    ensures s == c + SkipVarint(s).value && SkipVarint(c + t) == Some(t)
    decreases |s|
  {
    if s[0] >= 128 {
      var c' := SkipVarintLocal(s[1..], t);
      c := [s[0]] + c';
      assert s == [s[0]] + s[1..] && (c + t)[1..] == c' + t;
    } else {
      c := [s[0]];
      assert s == c + s[1..] && (c + t)[1..] == t;
    }
  }

  lemma {:induction false} SkipLocal(s: Bytes, wire: WireType, t: Bytes) returns (c: Bytes)
    requires SkipField(s, wire).Some?
    ensures s == c + SkipField(s, wire).value && SkipField(c + t, wire) == Some(t)
  {
    match wire
    case WtVarint => c := SkipVarintLocal(s, t);
    case Wt64Bit =>
      c := s[..8];
      assert (c + t)[8..] == t;
    case Wt32Bit =>
      c := s[..4];
      assert (c + t)[4..] == t;
    case WtString =>
      var p, body := DelimitedLocal(s, t);
      c := p + body;
  }

  lemma {:induction false} TagLocal(s: Bytes, t: Bytes) returns (c: Bytes)
    requires DecodeTag(s).TagOf?
    ensures c != [] && s == c + DecodeTag(s).rest && DecodeTag(c + t) == TagOf(DecodeTag(s).tag, DecodeTag(s).wire, t)
  {
    c := Varint32Local(s, t);
  }

  /** What follows the tag. */
  lemma {:induction false} PayloadLocal(fs: seq<Field>, tag: nat, wire: WireType, s: Bytes, st: State, t: Bytes)
    returns (c: Bytes)
    requires |st.slots| == |fs| && Payload(fs, tag, wire, s, st).More?
    ensures s == c + Payload(fs, tag, wire, s, st).rest
    ensures Payload(fs, tag, wire, c + t, st) == More(Payload(fs, tag, wire, s, st).st, t)
  {
    var i := FindField(fs, tag);
    if fs == [] && tag == 0 {
      c := Varint32Local(s, t);
    } else if i == -1 {
      c := SkipLocal(s, wire, t);
    } else {
      c := FieldLocal(fs, i, wire, s, Track(fs, st, i).value, t);
    }
  }

  lemma {:induction false} StepLocal(fs: seq<Field>, s: Bytes, st: State, t: Bytes) returns (c: Bytes)
    requires |st.slots| == |fs| && DecodeStep(fs, s, st).More?
    ensures c != [] && s == c + DecodeStep(fs, s, st).rest
            && DecodeStep(fs, c + t, st) == More(DecodeStep(fs, s, st).st, t)
  {
    var r := DecodeTag(s);
    var tag, wire, p := r.tag, r.wire, r.rest;
    StepUnfolds(fs, s, st, tag, wire, p);
    var c2 := PayloadLocal(fs, tag, wire, p, st, t);
    var c1 := TagLocal(s, c2 + t);
    c := c1 + c2;
    Regroup(c1, c2, Payload(fs, tag, wire, p, st).rest, t);
    StepUnfolds(fs, c1 + (c2 + t), st, tag, wire, c2 + t);
  }

  lemma {:induction false} Regroup(a: Bytes, b: Bytes, rest: Bytes, t: Bytes)
    ensures a + (b + rest) == a + b + rest && a + b + t == a + (b + t)
  {
  }

  lemma {:induction false} StepUnfolds(fs: seq<Field>, s: Bytes, st: State, tag: nat, wire: WireType, rest: Bytes)
    requires |st.slots| == |fs| && DecodeTag(s) == TagOf(tag, wire, rest)
    ensures DecodeStep(fs, s, st) == Payload(fs, tag, wire, rest, st)
  {
  }

  // ----- Whole messages

  /** The decoder's state and the bytes left after `n` rounds that all went well. */
  function AfterFields(fs: seq<Field>, s: Bytes, st: State, n: nat): (r: Option<(State, Bytes)>)
    requires |st.slots| == |fs|
    ensures r.Some? ==> |r.value.0.slots| == |fs|
    decreases n
  {
    if n == 0 then Some((st, s))
    else if s == [] then None
    else
      match DecodeStep(fs, s, st)
      case More(st', rest) => AfterFields(fs, rest, st', n - 1)
      case _ => None
  }

  lemma {:induction false} AfterFieldsLocal(fs: seq<Field>, a: Bytes, b: Bytes, st: State, st': State, n: nat, t: Bytes)
    requires |st.slots| == |fs| && AfterFields(fs, a + b, st, n) == Some((st', b))
    ensures AfterFields(fs, a + t, st, n) == Some((st', t))
    decreases n
  {
    if n == 0 {
      assert |a + b| == |b|;
      assert a + t == t;
    } else {
      var s := a + b;
      var r := DecodeStep(fs, s, st);
      SuffixShrinks(fs, r.rest, r.st, n - 1, st', b);
      var a' := a[|s| - |r.rest|..];
      var c := StepLocal(fs, s, st, a' + t);
      PrefixSplit(a, b, c, r.rest);
      Regroup(c, a', b, t);
      AfterFieldsLocal(fs, a', b, r.st, st', n - 1, t);
      AfterUnfolds(fs, a + t, st, r.st, n, a' + t);
    }
  }

  lemma {:induction false} AfterUnfolds(fs: seq<Field>, s: Bytes, st: State, st1: State, n: nat, rest: Bytes)
    requires |st.slots| == |fs| && n > 0 && s != [] && DecodeStep(fs, s, st) == More(st1, rest)
    ensures |st1.slots| == |fs| && AfterFields(fs, s, st, n) == AfterFields(fs, rest, st1, n - 1)
  {
  }

  lemma {:induction false} PrefixSplit(a: Bytes, b: Bytes, c: Bytes, rest: Bytes)
    requires a + b == c + rest && |rest| >= |b|
    ensures |c| <= |a| && rest == a[|c|..] + b && a == c + a[|c|..]
  {
    assert |c| <= |a|;
    assert rest == (a + b)[|c|..];
    assert c == (a + b)[..|c|];
  }

  /** The bytes left never grow. */
  lemma {:induction false} SuffixShrinks(fs: seq<Field>, s: Bytes, st: State, n: nat, st': State, b: Bytes)
    requires |st.slots| == |fs| && AfterFields(fs, s, st, n) == Some((st', b))
    ensures |b| <= |s|
    decreases n
  {
    if n > 0 {
      var r := DecodeStep(fs, s, st);
      SuffixShrinks(fs, r.rest, r.st, n - 1, st', b);
    }
  }

  lemma {:induction false} AfterFieldsDecodes(fs: seq<Field>, s: Bytes, st: State, st': State, n: nat, rest: Bytes)
    requires |st.slots| == |fs| && AfterFields(fs, s, st, n) == Some((st', rest))
    ensures |st'.slots| == |fs| && DecodeMessage(fs, s, st) == DecodeMessage(fs, rest, st')
    decreases n
  {
    if n > 0 {
      var r := DecodeStep(fs, s, st);
      AfterFieldsDecodes(fs, r.rest, r.st, st', n - 1, rest);
    }
  }

  /** A complete field that the description does not know. Field numbers start at one; only an empty
      message minds a field number of zero. */
  predicate UnknownField(fs: seq<Field>, u: Bytes) {
    match DecodeTag(u)
    case TagOf(tag, wire, rest) => (tag != 0 || fs != []) && FindField(fs, tag) == -1
                                   && SkipField(rest, wire) == Some([])
    case _ => false
  }

  lemma {:induction false} UnknownIsSkipped(fs: seq<Field>, u: Bytes, rest: Bytes, st: State)
    requires |st.slots| == |fs| && UnknownField(fs, u)
    ensures DecodeMessage(fs, u + rest, st) == DecodeMessage(fs, rest, st)
  {
    assert DecodeStep(fs, u, st) == More(st, []);
    var c := StepLocal(fs, u, st, rest);
    assert c == u;
    assert u + rest != [];
  }

  /** Forward compatibility: an unknown field between two fields, wherever it stands and whatever the
      decoder was in the middle of, changes nothing. */
  lemma {:induction false} UnknownFieldIgnored(fs: seq<Field>, a: Bytes, u: Bytes, b: Bytes, st: State, st': State,
                                               n: nat)
    requires |st.slots| == |fs| && UnknownField(fs, u)
    requires AfterFields(fs, a + b, st, n) == Some((st', b))
    ensures DecodeMessage(fs, a + u + b, st) == DecodeMessage(fs, a + b, st)
  {
    AfterFieldsLocal(fs, a, b, st, st', n, u + b);
    AfterFieldsDecodes(fs, a + (u + b), st, st', n, u + b);
    AfterFieldsDecodes(fs, a + b, st, st', n, b);
    UnknownIsSkipped(fs, u, b, st');
    assert a + u + b == a + (u + b);
  }
}
