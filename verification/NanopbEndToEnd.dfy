/** From a message through a buffer and back. */
module NanopbEndToEnd {
  import opened ByteStrings
  import opened NanopbWire
  import opened NanopbSchema
  import NanopbDecode
  import opened NanopbRoundTrip
  import opened NanopbEncode
  import opened NanopbIter
  import opened NanopbInput

  lemma {:induction false} OkIsDescribed(fs: seq<Field>)
    requires SchemaOk(fs)
    ensures Described(fs)
    decreases fs, 1
  {
    forall i | 0 <= i < |fs|
      ensures FieldDescribed(fs[i])
    {
      FieldOkIsDescribed(fs[i]);
    }
  }

  lemma {:induction false} FieldOkIsDescribed(f: Field)
    requires FieldOk(f)
    ensures FieldDescribed(f)
    decreases f, 0
  {
    if f.ltype.LSubmessage? { OkIsDescribed(f.ltype.fields); }
  }

  lemma {:induction false} OkIsStored(fs: seq<Field>, ms: seq<Slot>)
    requires SchemaOk(fs) && MessageOk(fs, ms)
    ensures MessageStored(fs, ms)
    decreases fs, 2
  {
    forall i | 0 <= i < |fs|
      ensures fs[i].tag < TWO_32 && SlotStored(fs[i], ms[i])
    {
      SlotOkIsStored(fs[i], ms[i]);
    }
  }

  lemma {:induction false} SlotOkIsStored(f: Field, slot: Slot)
    requires FieldOk(f) && SlotOk(f, slot)
    ensures f.tag < TWO_32 && SlotStored(f, slot)
    decreases f, 1
  {
    match slot
    case One(v) => ValueOkIsStored(f, v);
    case Maybe(has, v) => if has { ValueOkIsStored(f, v); }
    case Many(items) =>
      forall i | 0 <= i < |items|
        ensures Stored(f, items[i])
      {
        ValueOkIsStored(f, items[i]);
      }
  }

  lemma {:induction false} ValueOkIsStored(f: Field, v: Value)
    requires FieldOk(f) && ValueOk(f, v)
    ensures Stored(f, v)
    decreases f, 0
  {
    if f.ltype.LSubmessage? { OkIsStored(f.ltype.fields, v.slots); }
  }

  /** Sizing a message, writing it into a buffer of exactly that size and reading the buffer yields
      the message, with absent values replaced by their defaults. */
  method WriteAndRead(fs: seq<Field>, ms: seq<Slot>) returns (ok: bool, slots: seq<Slot>)
    requires SchemaOk(fs) && MessageOk(fs, ms)
    requires EncodeMessage(fs, ms).Some? ==> |EncodeMessage(fs, ms).value| < TWO_32
    ensures ok && slots == CanonMessage(fs, ms)
  {
    OkIsDescribed(fs);
    OkIsStored(fs, ms);
    RoundTrip(fs, ms);
    var sized, size := GetEncodedSize(fs, ms);
    var buffer := new Byte[size];
    var out := new OStream(buffer, 0, size);
    ok := out.Encode(fs, ms);
    assert out.written == size && buffer[..] == EncodeMessage(fs, ms).value;
    var input := new IStream(buffer[..], 0, out.written);
    assert input.Rest() == buffer[..];
    ok, slots := input.Decode(fs);
  }
}
