/** The decoder at work on an input stream. */
module NanopbInput {
  import opened ByteStrings
  import opened NanopbWire
  import opened NanopbSchema
  import opened NanopbDecode
  import opened NanopbRoundTrip
  import opened NanopbIter

  // ----- One byte more of a varint

  /** What is read when `result` stands for the bits below `p`. */
  function Above(result: nat, p: nat, r: Option<(nat, Bytes)>): Option<(nat, Bytes)> {
    match r
    case None => None
    case Some((v, rest)) => Some(((result + p * v) % TWO_64, rest))
  }

  lemma Pow2Grows(a: nat, b: nat)
    requires a <= b
    ensures Pow2(a) <= Pow2(b)
  {
    Pow2Adds(a, b - a);
    Scale(Pow2(a), 1, Pow2(b - a));
  }

  lemma SevenMore(bitpos: nat)
    ensures Pow2(bitpos + 7) == 128 * Pow2(bitpos)
  {
    Pow2Adds(7, bitpos);
    assert Pow2(7) == 128;
  }

  lemma SevenBits(low: nat, p: nat)
    requires low < 128
    ensures low * p <= 127 * p
  {
    assert (127 - low) * p >= 0;
  }

  lemma Below64(n: nat)
    requires n <= 63
    ensures Pow2(n) <= TWO_64
  {
    Pow2Grows(n, 64);
    Pow2Values();
  }

  lemma Or64(result: nat, low: nat, bitpos: nat, p: nat)
    requires p == Pow2(bitpos) && result < p && low < 128 && bitpos <= 56
    ensures Or(result, (low * p) % TWO_64) == result + low * p < Pow2(bitpos + 7) <= TWO_64
  {
    SevenMore(bitpos);
    Below64(bitpos + 7);
    SevenBits(low, p);
    OrFits(result, low, bitpos, p, TWO_64);
  }

  /** The tenth byte: of its bits only the lowest is kept. */
  lemma Or64Last(result: nat, low: nat, p: nat)
    requires p == Pow2(63) && result < p
    ensures Or(result, (low * p) % TWO_64) == (result + low * p) % TWO_64
  {
    assert 2 * p == TWO_64 by { Pow2Values(); }
    assert (low * p) % TWO_64 == (low % 2) * p by {
      assert low * p == (low / 2) * TWO_64 + (low % 2) * p;
    }
    OrOfDisjoint(result, low % 2, 63);
    assert (result + low * p) % TWO_64 == result + (low % 2) * p by {
      assert result + low * p == (low / 2) * TWO_64 + (result + (low % 2) * p);
    }
  }

  lemma AboveStep(result: nat, p: nat, low: nat, r: Option<(nat, Bytes)>)
    ensures Above(result + low * p, 128 * p, r)
            == match r case None => None case Some((v, rest)) => Some(((result + p * (low + 128 * v)) % TWO_64, rest))
  {
    if r.Some? {
      var v := r.value.0;
      assert result + low * p + 128 * p * v == result + p * (low + 128 * v);
    }
  }

  /** The seven bits of a byte moved up by `bitpos` places and added to a 64-bit number. */
  function With64(result: nat, b: Byte, bitpos: nat): nat {
    Or(result, (b % 128 * Pow2(bitpos)) % TWO_64)
  }

  lemma RawVarintStep(s: Bytes, m: nat, result: nat, p: nat)
    requires s != [] && m > 0
    ensures var low := s[0] % 128;
            Above(result, p, RawVarint(s, m))
            == if s[0] < 128 then Some(((result + low * p) % TWO_64, s[1..]))
               else Above(result + low * p, 128 * p, RawVarint(s[1..], m - 1))
  {
    var low := s[0] % 128;
    AboveStep(result, p, low, RawVarint(s[1..], m - 1));
    assert low * p == p * low;
  }

  /** One byte of the loop. */
  lemma Varint64Step(s: Bytes, m: nat, result: nat, bitpos: nat, p: nat)
    requires s != [] && m > 0 && p == Pow2(bitpos) && result < p && (bitpos <= 56 || (bitpos == 63 && m == 1))
    ensures var result' := With64(result, s[0], bitpos);
            if s[0] < 128 then Above(result, p, RawVarint(s, m)) == Some((result', s[1..])) && result' < TWO_64
            else Above(result, p, RawVarint(s, m)) == Above(result', 128 * p, RawVarint(s[1..], m - 1))
    ensures bitpos <= 56 ==> With64(result, s[0], bitpos) < Pow2(bitpos + 7) == 128 * p
  {
    RawVarintStep(s, m, result, p);
    var low := s[0] % 128;
    if bitpos <= 56 {
      Or64(result, low, bitpos, p);
      SevenMore(bitpos);
      SmallModulo(result + low * p, TWO_64);
    } else {
      Or64Last(result, low, p);
    }
  }

  /** The numbers of required fields. */
  predicate Numbered(fs: seq<Field>, seen: set<nat>) {
    forall k <- seen :: k < RequiredCount(fs)
  }

  lemma {:induction false} NumberInRange(fs: seq<Field>, i: nat)
    requires i < |fs| && fs[i].htype.Required?
    ensures RequiredCount(fs[..i]) < RequiredCount(fs)
  {
    RequiredStep(fs, i);
    RequiredCountConcat(fs[..i + 1], fs[i + 1..]);
    assert fs == fs[..i + 1] + fs[i + 1..];
  }

  /** What the decoder does once it has found the field of a tag. */
  ghost function Known(fs: seq<Field>, i: nat, wire: WireType, s: Bytes, st: State): Option<(State, Bytes)>
    requires |st.slots| == |fs| && i < |fs|
  {
    match Track(fs, st, i)
    case None => None
    case Some(st') => DecodeField(fs, i, wire, s, st')
  }

  lemma {:induction false} StepUnfolds(fs: seq<Field>, s: Bytes, st: State)
    requires |st.slots| == |fs|
    ensures DecodeStep(fs, s, st)
            == match DecodeTag(s)
               case TagError => Fail
               case EndOfMessage => Stop
               case TagOf(tag, wire, rest) => Payload(fs, tag, wire, rest, st)
  {
  }

  lemma {:induction false} PayloadUnfolds(fs: seq<Field>, tag: nat, wire: WireType, s: Bytes, st: State)
    requires |st.slots| == |fs|
    ensures var i := FindField(fs, tag);
            Payload(fs, tag, wire, s, st)
            == if fs == [] && tag == 0 then
                 if DecodeVarint32(s).Some? then More(st, DecodeVarint32(s).value.1) else Fail
               else if i == -1 then
                 if SkipField(s, wire).Some? then More(st, SkipField(s, wire).value) else Fail
               else
                 match Known(fs, i, wire, s, st)
                 case Some((st', s')) => More(st', s')
                 case None => Fail
  {
  }

  datatype Round = Ended | Failed | Continued

  class IStream {
    const src: Bytes
    var state: nat
    var left: nat

    ghost predicate Valid()
      reads this
    {
      state + left <= |src|
    }

    ghost function Rest(): Bytes
      reads this
      requires Valid()
    {
      src[state..state + left]
    }

    /** `rest` is left, up to position `end`. */
    ghost predicate At(rest: Bytes, end: nat)
      reads this
    {
      Valid() && Rest() == rest && state + left == end
    }

    /** The stream stays inside the bytes it had. */
    ghost predicate Within(end: nat, size: nat)
      reads this
    {
      Valid() && state + left <= end && left <= size
    }

    constructor (src: Bytes, state: nat, left: nat)
      requires state + left <= |src|
      ensures Valid() && this.src == src && this.state == state && this.left == left
    {
      this.src, this.state, this.left := src, state, left;
    }

    method Read(count: nat) returns (ok: bool, bytes: Bytes)
      requires Valid()
      modifies this
      ensures Within(old(state + left), old(left)) && ok == NanopbWire.Read(old(Rest()), count).Some?
      ensures ok ==> bytes == old(Rest())[..count] && At(old(Rest())[count..], old(state + left))
    {
      bytes := [];
      if count == 0 { return true, []; }
      if left < count { return false, []; }
      bytes := src[state..state + count];
      state := state + count;
      left := left - count;
      return true, bytes;
    }

    method ReadByte() returns (ok: bool, byte: Byte)
      requires Valid()
      modifies this
      ensures Within(old(state + left), old(left)) && ok == (old(left) > 0)
      ensures ok ==> byte == old(Rest())[0] && At(old(Rest())[1..], old(state + left)) && left == old(left) - 1
      ensures !ok ==> left == old(left) && state == old(state)
    {
      byte := 0;
      if left == 0 { return false, 0; }
      byte := src[state];
      state := state + 1;
      left := left - 1;
      return true, byte;
    }

    /** `eof` tells that there was not even a first byte. */
    method DecodeVarint32() returns (ok: bool, value: nat, eof: bool)
      requires Valid()
      modifies this
      ensures Within(old(state + left), old(left)) && eof == (old(left) == 0)
              && (eof ==> state + left == old(state + left))
      ensures ok == NanopbWire.DecodeVarint32(old(Rest())).Some?
      ensures ok ==> NanopbWire.DecodeVarint32(old(Rest())).value.0 == value
                     && At(NanopbWire.DecodeVarint32(old(Rest())).value.1, old(state + left))
    {
      var byte;
      value, eof := 0, false;
      ok, byte := ReadByte();
      if !ok { return false, 0, true; }
      if byte < 128 { return true, byte, false; }
      ok, value := Varint32Rest(byte % 128);
    }

    method Varint32Rest(first: nat) returns (ok: bool, result: nat)
      requires Valid()
      modifies this
      ensures Within(old(state + left), old(left))
      ensures ok == Varint32Tail(old(Rest()), first, 7).Some?
      ensures ok ==> Varint32Tail(old(Rest()), first, 7).value.0 == result
                     && At(Varint32Tail(old(Rest()), first, 7).value.1, old(state + left))
    {
      ghost var all, end := Varint32Tail(Rest(), first, 7), state + left;
      result := first;
      var bitpos, byte := 7, 128;
      while byte >= 128
        invariant Valid() && left <= old(left) && state + left == end && bitpos >= 0
        invariant byte >= 128 ==> Varint32Tail(Rest(), result, bitpos) == all
        invariant byte < 128 ==> all == if bitpos == 35 && byte / 16 % 8 != 0 then None else Some((result, Rest()))
        decreases left + (if byte >= 128 then 1 else 0)
      {
        ok, byte := ReadByte();
        if !ok { return; }
        if bitpos >= 32 {
          var signExtension := if bitpos < 63 then 0xff else 0x01;
          if byte % 128 != 0 && (result / 0x8000_0000 == 0 || byte != signExtension) { return false, result; }
        } else {
          result := Or(result, Shifted(byte, bitpos));
        }
        bitpos := (bitpos + 7) % 256;
      }
      if bitpos == 35 && byte / 16 % 8 != 0 { return false, result; }
      ok := true;
    }

    method DecodeVarint() returns (ok: bool, result: nat)
      requires Valid()
      modifies this
      ensures Within(old(state + left), old(left))
      ensures ok == NanopbWire.DecodeVarint(old(Rest())).Some?
      ensures ok ==> NanopbWire.DecodeVarint(old(Rest())).value.0 == result < TWO_64
                     && At(NanopbWire.DecodeVarint(old(Rest())).value.1, old(state + left))
    {
      ok, result := VarintLoop(MAX_VARINT_BYTES);
    }

    method VarintLoop(ghost max: nat) returns (ok: bool, result: nat)
      requires Valid() && 7 * max == 70
      modifies this
      ensures Within(old(state + left), old(left))
      ensures ok == RawVarint(old(Rest()), max).Some?
      ensures ok ==> RawVarint(old(Rest()), max).value.0 % TWO_64 == result < TWO_64
                     && At(RawVarint(old(Rest()), max).value.1, old(state + left))
    {
      ghost var all, end := Above(0, 1, RawVarint(Rest(), max)), state + left;
      ghost var k: nat, p: nat := 0, 1;
      var bitpos, byte := 0, 128;
      result := 0;
      while byte >= 128
        invariant Valid() && left <= old(left) && state + left == end
        invariant 0 <= k <= max && bitpos == 7 * k
        invariant byte >= 128 && k < max ==> p == Pow2(bitpos) && result < p
        invariant byte >= 128 ==> all == Above(result, p, RawVarint(Rest(), max - k))
        invariant byte < 128 ==> all == Some((result, Rest())) && result < TWO_64
        decreases left + (if byte >= 128 then 1 else 0)
      {
        if bitpos >= 64 { return false, result; }
        ghost var s := Rest();
        ok, byte := ReadByte();
        if !ok { return; }
        Varint64Step(s, max - k, result, bitpos, p);
        result := With64(result, byte, bitpos);
        bitpos := bitpos + 7;
        k, p := k + 1, 128 * p;
      }
      ok := true;
    }

    method SkipVarint() returns (ok: bool)
      requires Valid()
      modifies this
      ensures Within(old(state + left), old(left))
      ensures ok == NanopbWire.SkipVarint(old(Rest())).Some?
      ensures ok ==> At(NanopbWire.SkipVarint(old(Rest())).value, old(state + left))
    {
      ghost var all, end := NanopbWire.SkipVarint(Rest()), state + left;
      var byte := 128;
      while byte >= 128
        invariant Within(old(state + left), old(left)) && state + left == end
        invariant all == if byte >= 128 then NanopbWire.SkipVarint(Rest()) else Some(Rest())
        decreases left + (if byte >= 128 then 1 else 0)
      {
        ok, byte := ReadByte();
        if !ok { return; }
      }
      ok := true;
    }

    method SkipField(wire: WireType) returns (ok: bool)
      requires Valid()
      modifies this
      ensures Within(old(state + left), old(left))
      ensures ok == NanopbWire.SkipField(old(Rest()), wire).Some?
      ensures ok ==> At(NanopbWire.SkipField(old(Rest()), wire).value, old(state + left))
    {
      var bytes;
      match wire
      case WtVarint => ok := SkipVarint();
      case Wt64Bit => ok, bytes := Read(8);
      case WtString =>
        var length, eof;
        ok, length, eof := DecodeVarint32();
        if ok { ok, bytes := Read(length); }
      case Wt32Bit => ok, bytes := Read(4);
      case WtInvalid(_) => ok := false;
    }

    /** A zero tag ends a message early, like the end of the stream. */
    method DecodeTag() returns (ok: bool, tag: nat, wire: WireType, eof: bool)
      requires Valid()
      modifies this
      ensures Within(old(state + left), old(left))
      ensures match NanopbWire.DecodeTag(old(Rest()))
              case TagError => !ok && !eof
              case EndOfMessage => !ok && eof && state + left == old(state + left)
              case TagOf(t, w, rest) => ok && tag == t && wire == w && At(rest, old(state + left))
    {
      var value;
      tag, wire := 0, WtVarint;
      ok, value, eof := DecodeVarint32();
      if !ok { return; }
      if value == 0 { return false, 0, WtVarint, true; }
      tag, wire := value / 8, WireOf(value % 8);
    }

    // ----- Substreams

    /** A stream for the string that follows. This stream's count goes down at once, its position when
        the substream is closed. */
    method MakeSubstream() returns (ok: bool, sub: IStream)
      requires Valid()
      modifies this
      ensures Within(old(state + left), old(left)) && fresh(sub) && sub.src == src && sub.Valid()
      ensures ok <==> var r := NanopbWire.DecodeVarint32(old(Rest())); r.Some? && r.value.0 <= |r.value.1|
      ensures ok ==> var (n, rest) := NanopbWire.DecodeVarint32(old(Rest())).value;
                     && sub.At(rest[..n], state + n) && sub.left == n < old(left)
                     && state + n + left == old(state + left) && src[state + n..state + n + left] == rest[n..]
    {
      var size, eof;
      ok, size, eof := DecodeVarint32();
      sub := new IStream(src, state, left);
      if !ok { return; }
      if sub.left < size { return false, sub; }
      sub.left := size;
      left := left - size;
    }

    /** Skips what the substream has not read. */
    method CloseSubstream(sub: IStream) returns (ok: bool)
      requires sub != this && sub.Valid() && sub.src == src && sub.state + sub.left + left <= |src|
      modifies this`state, sub
      ensures ok && state == old(sub.state + sub.left)
    {
      if sub.left > 0 {
        var bytes;
        ok, bytes := sub.Read(sub.left);
        if !ok { return; }
      }
      state := sub.state;
      ok := true;
    }

    // ----- Values

    method DecodeScalar(f: Field) returns (ok: bool, v: Value)
      requires Valid() && !f.ltype.LSubmessage?
      modifies this
      ensures Within(old(state + left), old(left))
      ensures ok == NanopbDecode.DecodeScalar(f, old(Rest())).Some?
      ensures ok ==> NanopbDecode.DecodeScalar(f, old(Rest())).value.0 == v
                     && At(NanopbDecode.DecodeScalar(f, old(Rest())).value.1, old(state + left))
    {
      v := BoolV(false);
      var bytes, eof;
      var value: nat;
      match f.ltype
      case LBool =>
        ok, value, eof := DecodeVarint32();
        v := BoolV(value != 0);
      case LVarint =>
        ok, value := DecodeVarint();
        if ok {
          var i := if f.dataSize == 8 then ToSigned64(value) else ToSigned32(value);
          ok, v := InSigned(f.dataSize, i), IntV(i);
        }
      case LUVarint =>
        ok, value := DecodeVarint();
        if ok { ok, v := InUnsigned(f.dataSize, value), IntV(value); }
      case LSVarint =>
        ok, value := DecodeVarint();
        if ok { ok, v := InSigned(f.dataSize, UnZigZag(value)), IntV(UnZigZag(value)); }
      case LFixed32 =>
        ok, bytes := Read(4);
        if ok { v := IntV(FromLittleEndian(bytes)); }
      case LFixed64 =>
        ok, bytes := Read(8);
        if ok { v := IntV(FromLittleEndian(bytes)); }
      case LBytes => ok, v := DecodeBytes(f.dataSize, BYTES_HEADER);
      case LString => ok, v := DecodeBytes(f.dataSize, 1);
      case LFixedBytes =>
        ok, value, eof := DecodeVarint32();
        if !ok { return; }
        if value == 0 { return true, BytesV(Zeros(f.dataSize)); }
        if value != f.dataSize { return false, v; }
        ok, bytes := Read(value);
        if ok { v := BytesV(bytes); }
    }

    method DecodeBytes(dataSize: nat, extra: nat) returns (ok: bool, v: Value)
      requires Valid()
      modifies this
      ensures Within(old(state + left), old(left))
      ensures ok == NanopbDecode.DecodeBytes(old(Rest()), dataSize, extra).Some?
      ensures ok ==> NanopbDecode.DecodeBytes(old(Rest()), dataSize, extra).value.0 == v
                     && At(NanopbDecode.DecodeBytes(old(Rest()), dataSize, extra).value.1, old(state + left))
    {
      var size, eof, bytes;
      v := BytesV([]);
      ok, size, eof := DecodeVarint32();
      if !ok { return; }
      if size + extra > dataSize { return false, v; }
      ok, bytes := Read(size);
      if ok { v := BytesV(bytes); }
    }

    /** `prev` is what the storage holds before; a submessage in an array starts with its defaults. */
    method DecodeValue(f: Field, prev: Value) returns (ok: bool, v: Value)
      requires Valid() && FieldDescribed(f)
      modifies this
      ensures Within(old(state + left), old(left))
      ensures ok == NanopbDecode.DecodeValue(f, old(Rest()), prev).Some?
      ensures ok ==> NanopbDecode.DecodeValue(f, old(Rest()), prev).value.0 == v
                     && At(NanopbDecode.DecodeValue(f, old(Rest()), prev).value.1, old(state + left))
      decreases left, 0
    {
      v := prev;
      if !f.ltype.LSubmessage? {
        ok, v := DecodeScalar(f);
        return;
      }
      var fields := f.ltype.fields;
      var sub, slots;
      ok, sub := MakeSubstream();
      if !ok { return; }
      var anew := f.htype.Repeated? || f.htype.FixedCount? || !prev.MsgV? || |prev.slots| != |fields|;
      var status;
      status, slots := sub.DecodeNoinit(fields, if anew then DefaultMessage(fields) else prev.slots);
      ok := CloseSubstream(sub);
      if !ok { return; }
      ok, v := status, MsgV(slots);
    }

    /** `pb_decode`: every field starts with its default. */
    method Decode(fs: seq<Field>) returns (ok: bool, slots: seq<Slot>)
      requires Valid() && Described(fs)
      modifies this
      ensures Within(old(state + left), old(left))
      ensures ok == NanopbDecode.Decode(fs, old(Rest())).Some?
      ensures ok ==> NanopbDecode.Decode(fs, old(Rest())) == Some(slots) && state + left == old(state + left)
    {
      ok, slots := DecodeNoinit(fs, DefaultMessage(fs));
    }

    /** A message behind its length. Whatever the message leaves unread, the stream goes on right
        behind it. */
    method DecodeDelimited(fs: seq<Field>) returns (ok: bool, slots: seq<Slot>)
      requires Valid() && Described(fs)
      modifies this
      ensures Within(old(state + left), old(left))
      ensures ok <==> var r := NanopbWire.DecodeVarint32(old(Rest()));
                      r.Some? && r.value.0 <= |r.value.1| && NanopbDecode.Decode(fs, r.value.1[..r.value.0]).Some?
      ensures ok ==> var (n, rest) := NanopbWire.DecodeVarint32(old(Rest())).value;
                     NanopbDecode.Decode(fs, rest[..n]) == Some(slots) && At(rest[n..], old(state + left))
    {
      slots := [];
      var sub;
      ok, sub := MakeSubstream();
      if !ok { return; }
      var status;
      status, slots := sub.Decode(fs);
      ok := CloseSubstream(sub);
      ok := ok && status;
    }

    method DecodeNoinit(fs: seq<Field>, dest: seq<Slot>) returns (ok: bool, slots: seq<Slot>)
      requires Valid() && Described(fs) && |dest| == |fs|
      modifies this
      ensures Within(old(state + left), old(left))
      ensures ok == DecodeMessage(fs, old(Rest()), Start(dest)).Some?
      ensures ok ==> DecodeMessage(fs, old(Rest()), Start(dest)) == Some(slots) && state + left == old(state + left)
      decreases left, 5
    {
      ok, slots := false, dest;
      var iter := new FieldIter(fs);
      var fields := new SeenFields(32);
      var fixedField, fixedCount := -1, 0;
      ghost var all, end := DecodeMessage(fs, Rest(), Start(dest)), state + left;
      while left > 0
        invariant Within(old(state + left), old(left)) && state + left == end && |slots| == |fs|
        invariant fresh(iter) && fresh(fields) && iter.Valid() && iter.fs == fs && fields.Valid()
                  && Numbered(fs, fields.seen)
        invariant DecodeMessage(fs, Rest(), State(slots, fixedField, fixedCount, fields.seen)) == all
      {
        var round;
        round, slots, fixedField, fixedCount := DecodeRound(fs, iter, fields, slots, fixedField, fixedCount);
        if round == Failed { return; }
        if round == Ended { break; }
      }
      ok := CheckEnd(fs, iter, fields, slots, fixedField, fixedCount);
    }

    /** The checks behind the loop. */
    static method CheckEnd(fs: seq<Field>, iter: FieldIter, fields: SeenFields, slots: seq<Slot>, fixedField: int,
                           fixedCount: nat)
      returns (ok: bool)
      requires iter.Valid() && iter.fs == fs && fields.Valid() && Numbered(fs, fields.seen)
      modifies iter
      ensures ok == Finish(fs, State(slots, fixedField, fixedCount, fields.seen)).Some?
    {
      if 0 <= fixedField < |fs| && fixedCount != fs[fixedField].arraySize { return false; }
      ok := CheckRequired(iter, fields);
    }

    /** One round of the loop. */
    method DecodeRound(fs: seq<Field>, iter: FieldIter, fields: SeenFields, slots: seq<Slot>, fixedField: int,
                       fixedCount: nat)
      returns (round: Round, slots': seq<Slot>, fixedField': int, fixedCount': nat)
      requires Valid() && left > 0 && Described(fs) && |slots| == |fs|
      requires iter.Valid() && iter.fs == fs && fields.Valid() && Numbered(fs, fields.seen)
      modifies this, iter, fields
      ensures Within(old(state + left), old(left)) && |slots'| == |fs|
      ensures iter.Valid() && fields.Valid() && Numbered(fs, fields.seen)
      ensures var st := State(slots, fixedField, fixedCount, old(fields.seen));
              var st' := State(slots', fixedField', fixedCount', fields.seen);
              var step := DecodeStep(fs, old(Rest()), st);
              && round == (if step.Stop? then Ended else if step.Fail? then Failed else Continued)
              && (step.Stop? ==> st' == st && state + left == old(state + left))
              && (step.More? ==> st' == step.st && At(step.rest, old(state + left)) && left < old(left))
      decreases left, 4
    {
      StepUnfolds(fs, Rest(), State(slots, fixedField, fixedCount, fields.seen));
      round, slots', fixedField', fixedCount' := Failed, slots, fixedField, fixedCount;
      var ok, tag, wire, eof := DecodeTag();
      if !ok {
        if eof { round := Ended; }
        return;
      }
      ok, slots', fixedField', fixedCount' := DecodePayload(fs, iter, fields, tag, wire, slots, fixedField, fixedCount);
      if ok { round := Continued; }
    }

    /** The search for the field of a tag, and the field. */
    method DecodePayload(fs: seq<Field>, iter: FieldIter, fields: SeenFields, tag: nat, wire: WireType,
                         slots: seq<Slot>, fixedField: int, fixedCount: nat)
      returns (ok: bool, slots': seq<Slot>, fixedField': int, fixedCount': nat)
      requires Valid() && Described(fs) && |slots| == |fs|
      requires iter.Valid() && iter.fs == fs && fields.Valid() && Numbered(fs, fields.seen)
      modifies this, iter, fields
      ensures Within(old(state + left), old(left)) && |slots'| == |fs|
      ensures iter.Valid() && fields.Valid() && Numbered(fs, fields.seen)
      ensures var st := State(slots, fixedField, fixedCount, old(fields.seen));
              var st' := State(slots', fixedField', fixedCount', fields.seen);
              var step := Payload(fs, tag, wire, old(Rest()), st);
              && ok == step.More? && !step.Stop?
              && (ok ==> st' == step.st && At(step.rest, old(state + left)))
      decreases left, 4
    {
      PayloadUnfolds(fs, tag, wire, Rest(), State(slots, fixedField, fixedCount, fields.seen));
      slots', fixedField', fixedCount' := slots, fixedField, fixedCount;
      var found := iter.Find(tag);
      if !found {
        ok := SkipField(wire);
      } else if fs == [] {
        var value, eof;
        ok, value, eof := DecodeVarint32();
      } else {
        ok, slots', fixedField', fixedCount' :=
          DecodeKnown(fs, iter.pos, iter.requiredIndex, wire, slots, fixedField, fixedCount, fields);
      }
    }

    method DecodeKnown(fs: seq<Field>, i: nat, requiredIndex: nat, wire: WireType, slots: seq<Slot>, fixedField: int,
                       fixedCount: nat, fields: SeenFields)
      returns (ok: bool, slots': seq<Slot>, fixedField': int, fixedCount': nat)
      requires Valid() && fields.Valid() && Described(fs) && |slots| == |fs| && i < |fs| && Numbered(fs, fields.seen)
      requires requiredIndex == RequiredCount(fs[..i])
      modifies this, fields
      ensures Within(old(state + left), old(left)) && fields.Valid() && Numbered(fs, fields.seen) && |slots'| == |fs|
      ensures ok == Known(fs, i, wire, old(Rest()), State(slots, fixedField, fixedCount, old(fields.seen))).Some?
      ensures ok ==> var st0 := State(slots, fixedField, fixedCount, old(fields.seen));
                     var (st, rest) := Known(fs, i, wire, old(Rest()), st0).value;
                     st == State(slots', fixedField', fixedCount', fields.seen) && At(rest, old(state + left))
      decreases left, 3
    {
      ok, slots', fixedField', fixedCount' := true, slots, fixedField, fixedCount;
      var f := fs[i];
      if f.htype.FixedCount? && fixedField != i {
        if 0 <= fixedField < |fs| && fixedCount != fs[fixedField].arraySize {
          ok := false;
          return;
        }
        fixedField', fixedCount' := i, 0;
      }
      if f.htype.Required? && requiredIndex < MAX_REQUIRED_FIELDS {
        NumberInRange(fs, i);
        fields.Mark(requiredIndex);
      }
      ok, slots', fixedCount' :=
        DecodeStatic(fs, i, wire, slots, fixedCount', State(slots, fixedField', fixedCount', fields.seen));
    }

    /** `decode_static_field`: stores the value as the field's presence demands. */
    method DecodeStatic(fs: seq<Field>, i: nat, wire: WireType, slots: seq<Slot>, count: nat, ghost st: State)
      returns (ok: bool, slots': seq<Slot>, count': nat)
      requires Valid() && Described(fs) && |slots| == |fs| && i < |fs| && st.slots == slots && st.fixedCount == count
      modifies this
      ensures Within(old(state + left), old(left)) && |slots'| == |fs|
      ensures ok == DecodeField(fs, i, wire, old(Rest()), st).Some?
      ensures ok ==> var (st', rest) := DecodeField(fs, i, wire, old(Rest()), st).value;
                     st' == st.(slots := slots', fixedCount := count') && At(rest, old(state + left))
      decreases left, 2
    {
      ok, slots', count' := false, slots, count;
      var f, slot := fs[i], slots[i];
      assert FieldDescribed(f);
      var v, items, n;
      match f.htype
      case Repeated =>
        if !slot.Many? { return; }
        ok, items, n := DecodeArray(f, wire, slot.items, |slot.items|);
        slots' := slots[i := Many(items)];
      case FixedCount =>
        if !slot.Many? { return; }
        ok, items, count' := DecodeArray(f, wire, slot.items, count);
        slots' := slots[i := Many(items)];
      case Oneof(_) =>
        ok, v := DecodeValue(f, if slot.Maybe? && slot.has then slot.v else DefaultValue(f));
        slots' := Select(fs, slots, i, v);
      case Optional =>
        ok, v := DecodeValue(f, if slot.Maybe? then slot.v else DefaultValue(f));
        slots' := slots[i := Maybe(true, v)];
      case _ =>
        ok, v := DecodeValue(f, if slot.One? then slot.v else DefaultValue(f));
        slots' := slots[i := One(v)];
    }

    method DecodeArray(f: Field, wire: WireType, items: seq<Value>, n: nat)
      returns (ok: bool, items': seq<Value>, n': nat)
      requires Valid() && FieldDescribed(f)
      modifies this
      ensures Within(old(state + left), old(left))
      ensures ok == NanopbDecode.DecodeArray(f, wire, old(Rest()), items, n).Some?
      ensures ok ==> var (a, k, rest) := NanopbDecode.DecodeArray(f, wire, old(Rest()), items, n).value;
                     items' == a && n' == k && At(rest, old(state + left))
      decreases left, 1
    {
      ok, items', n' := false, items, n;
      if wire != WtString || !Packable(f.ltype) {
        if n >= f.arraySize { return; }
        var v;
        ok, v := DecodeValue(f, DefaultValue(f));
        items', n' := Put(f, items, n, v), n + 1;
        return;
      }
      var sub;
      ok, sub := MakeSubstream();
      if !ok { return; }
      ok, items', n' := sub.DecodePacked(f, items, n);
      if sub.left != 0 { return false, items', n'; }
      var closed := CloseSubstream(sub);
      ok := ok && closed;
    }

    /** Fills the array until the stream or the array ends. */
    method DecodePacked(f: Field, items: seq<Value>, n: nat) returns (ok: bool, items': seq<Value>, n': nat)
      requires Valid() && Packable(f.ltype)
      modifies this
      ensures Within(old(state + left), old(left))
      ensures (ok && left == 0) == NanopbDecode.DecodePacked(f, old(Rest()), items, n).Some?
      ensures ok && left == 0 ==> NanopbDecode.DecodePacked(f, old(Rest()), items, n) == Some((items', n'))
      ensures ok && left == 0 ==> state == old(state + left)
    {
      ghost var all, end := NanopbDecode.DecodePacked(f, Rest(), items, n), state + left;
      ok, items', n' := true, items, n;
      while left > 0 && n' < f.arraySize
        invariant ok && Within(old(state + left), old(left)) && state + left == end
        invariant NanopbDecode.DecodePacked(f, Rest(), items', n') == all
      {
        var v;
        ok, v := DecodeScalar(f);
        if !ok { return; }
        items', n' := Put(f, items', n', v), n' + 1;
      }
    }
  }
}
