/** Messages in a row are decoded as one: later values replace earlier ones, arrays grow and submessages
    merge. */
module NanopbMerge {
  import opened ByteStrings
  import opened NanopbWire
  import opened NanopbSchema
  import opened NanopbDecode
  import opened NanopbRoundTrip
  import opened NanopbCompat

  /** Fixed-count arrays do not go on after another has begun, so descriptions with such arrays are left out. */
  predicate NoFixedCount(fs: seq<Field>) {
    forall i :: 0 <= i < |fs| ==> !fs[i].htype.FixedCount?
  }

  /** The same message so far, and no field seen less. */
  predicate SeenMore(st: State, st': State) {
    st'.slots == st.slots && st.seen <= st'.seen && st.fixedField == st'.fixedField == -1
  }

  lemma {:induction false} FieldSeenMore(fs: seq<Field>, i: nat, wire: WireType, s: Bytes, st: State, st': State)
    requires |st.slots| == |fs| && i < |fs| && !fs[i].htype.FixedCount? && SeenMore(st, st')
    requires DecodeField(fs, i, wire, s, st).Some?
    ensures DecodeField(fs, i, wire, s, st').Some?
    ensures var (t, rest), (t', rest') := DecodeField(fs, i, wire, s, st).value, DecodeField(fs, i, wire, s, st').value;
            rest' == rest && SeenMore(t, t')
  {
  }

  lemma {:induction false} PayloadSeenMore(fs: seq<Field>, tag: nat, wire: WireType, s: Bytes, st: State, st': State)
    requires NoFixedCount(fs) && |st.slots| == |fs| && SeenMore(st, st') && Payload(fs, tag, wire, s, st).More?
    ensures var r, r' := Payload(fs, tag, wire, s, st), Payload(fs, tag, wire, s, st');
            r'.More? && r'.rest == r.rest && SeenMore(r.st, r'.st)
  {
    var i := FindField(fs, tag);
    if i >= 0 {
      var t, t' := Track(fs, st, i).value, Track(fs, st', i).value;
      assert !fs[i].htype.FixedCount? && SeenMore(t, t');
      FieldSeenMore(fs, i, wire, s, t, t');
    }
  }

  lemma {:induction false} DecodeSeenMore(fs: seq<Field>, s: Bytes, st: State, st': State)
    requires NoFixedCount(fs) && |st.slots| == |fs| && SeenMore(st, st') && DecodeMessage(fs, s, st).Some?
    ensures DecodeMessage(fs, s, st') == DecodeMessage(fs, s, st)
    decreases |s|
  {
    if s != [] && DecodeTag(s).TagOf? {
      var t := DecodeTag(s);
      PayloadSeenMore(fs, t.tag, t.wire, t.rest, st, st');
      var r, r' := Payload(fs, t.tag, t.wire, t.rest, st), Payload(fs, t.tag, t.wire, t.rest, st');
      DecodeSeenMore(fs, r.rest, r.st, r'.st);
    }
  }

  lemma {:induction false} NoFixedAfter(fs: seq<Field>, s: Bytes, st: State, n: nat)
    requires NoFixedCount(fs) && |st.slots| == |fs| && st.fixedField == -1 && AfterFields(fs, s, st, n).Some?
    ensures AfterFields(fs, s, st, n).value.0.fixedField == -1
    decreases n
  {
    if n > 0 {
      var t := DecodeTag(s);
      PayloadSeenMore(fs, t.tag, t.wire, t.rest, st, st);
      NoFixedAfter(fs, DecodeStep(fs, s, st).rest, DecodeStep(fs, s, st).st, n - 1);
    }
  }

  /** Bytes that end with a complete field, and others behind them: the second part is decoded onto what the
      first has made. */
  lemma {:induction false} Concatenated(fs: seq<Field>, a: Bytes, b: Bytes, ms: seq<Slot>, n: nat)
    requires NoFixedCount(fs) && |ms| == |fs| && AfterFields(fs, a, Start(ms), n).Some?
    requires AfterFields(fs, a, Start(ms), n).value.1 == [] && DecodeMessage(fs, a, Start(ms)).Some?
    requires var m := DecodeMessage(fs, a, Start(ms)).value; |m| == |fs| && DecodeMessage(fs, b, Start(m)).Some?
    ensures DecodeMessage(fs, a + b, Start(ms)) == DecodeMessage(fs, b, Start(DecodeMessage(fs, a, Start(ms)).value))
  {
    var st := AfterFields(fs, a, Start(ms), n).value.0;
    assert a + [] == a;
    AfterFieldsDecodes(fs, a, Start(ms), st, n, []);
    AfterFieldsLocal(fs, a, [], Start(ms), st, n, b);
    AfterFieldsDecodes(fs, a + b, Start(ms), st, n, b);
    NoFixedAfter(fs, a, Start(ms), n);
    DecodeSeenMore(fs, b, Start(st.slots), st);
  }

  /** A submessage that comes in two parts is the submessage of both parts in one. */
  lemma {:induction false} SubmessagesMerge(f: Field, a: Bytes, b: Bytes, rest: Bytes, prev: Value, first: Value,
                                            both: Value, n: nat)
    requires f.ltype.LSubmessage? && !f.htype.Repeated? && !f.htype.FixedCount? && NoFixedCount(f.ltype.fields)
    requires prev.MsgV? && |prev.slots| == |f.ltype.fields| && |a| + |b| < TWO_32
    requires var r := AfterFields(f.ltype.fields, a, Start(prev.slots), n); r.Some? && r.value.1 == []
    requires DecodeValue(f, Delimited(a) + rest, prev) == Some((first, rest))
    requires DecodeValue(f, Delimited(b) + rest, first) == Some((both, rest))
    ensures DecodeValue(f, Delimited(a + b) + rest, prev) == Some((both, rest))
  {
    var fields := f.ltype.fields;
    DelimitedBytes(a, rest, Delimited(a) + rest);
    DelimitedBytes(b, rest, Delimited(b) + rest);
    DelimitedBytes(a + b, rest, Delimited(a + b) + rest);
    AfterFieldsDecodes(fields, a, Start(prev.slots), AfterFields(fields, a, Start(prev.slots), n).value.0, n, []);
    assert DecodeMessage(fields, a, Start(prev.slots)) == Some(first.slots) && |first.slots| == |fields|;
    Concatenated(fields, a, b, prev.slots, n);
  }
}
