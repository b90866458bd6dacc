/** Decoding a message from the bytes of a stream. */
module NanopbDecode {
  import opened ByteStrings
  import opened NanopbWire
  import opened NanopbSchema

  const MAX_REQUIRED_FIELDS: nat := 64

  /** What the decoder of one message keeps: the message so far, the fixed-count array it is filling
      (or -1) and how much of it is filled, and the required fields it has seen, by their number among
      the required fields. */
  datatype State = State(slots: seq<Slot>, fixedField: int, fixedCount: nat, seen: set<nat>)

  function Start(slots: seq<Slot>): State {
    State(slots, -1, 0, {})
  }

  /** The position of the field with this tag, or -1. */
  function FindField(fs: seq<Field>, tag: nat): (i: int)
    ensures -1 <= i < |fs|
    ensures i >= 0 ==> fs[i].tag == tag
    ensures i == -1 ==> forall j :: 0 <= j < |fs| ==> fs[j].tag != tag
  {
    if fs == [] then -1
    else if fs[0].tag == tag then 0
    else
      var i := FindField(fs[1..], tag);
      if i == -1 then -1 else i + 1
  }

  /** How many of the fields are required. */
  function RequiredCount(fs: seq<Field>): nat {
    if fs == [] then 0 else (if fs[0].htype.Required? then 1 else 0) + RequiredCount(fs[1..])
  }

  // ----- Values

  function Clamped(i: int, fits: bool, rest: Bytes): Option<(Value, Bytes)> {
    if fits then Some((IntV(i), rest)) else None
  }

  function DecodeScalar(f: Field, s: Bytes): (r: Option<(Value, Bytes)>)
    requires !f.ltype.LSubmessage?
    ensures r.Some? ==> |r.value.1| < |s|
  {
    match f.ltype
    case LBool =>
      (match DecodeVarint32(s)
       case None => None
       case Some((v, rest)) => Some((BoolV(v != 0), rest)))
    case LVarint =>
      (match DecodeVarint(s)
       case None => None
       case Some((v, rest)) =>
         var i := if f.dataSize == 8 then ToSigned64(v) else ToSigned32(v);
         Clamped(i, InSigned(f.dataSize, i), rest))
    case LUVarint =>
      (match DecodeVarint(s)
       case None => None
       case Some((v, rest)) => Clamped(v, InUnsigned(f.dataSize, v), rest))
    case LSVarint =>
      (match DecodeVarint(s)
       case None => None
       case Some((v, rest)) => Clamped(UnZigZag(v), InSigned(f.dataSize, UnZigZag(v)), rest))
    case LFixed32 =>
      (match Read(s, 4)
       case None => None
       case Some((b, rest)) => Some((IntV(FromLittleEndian(b)), rest)))
    case LFixed64 =>
      (match Read(s, 8)
       case None => None
       case Some((b, rest)) => Some((IntV(FromLittleEndian(b)), rest)))
    case LBytes => DecodeBytes(s, f.dataSize, BYTES_HEADER)
    case LString => DecodeBytes(s, f.dataSize, 1)
    case LFixedBytes =>
      match DecodeVarint32(s)
      case None => None
      case Some((n, rest)) =>
        if n == 0 then Some((BytesV(Zeros(f.dataSize)), rest))
        else if n != f.dataSize then None
        else
          match Read(rest, n)
          case None => None
          case Some((b, rest')) => Some((BytesV(b), rest'))
  }

  /** A byte string whose length and `extra` bytes of overhead fit into the storage. */
  function DecodeBytes(s: Bytes, dataSize: nat, extra: nat): (r: Option<(Value, Bytes)>)
    ensures r.Some? ==> |r.value.1| < |s|
  {
    match DecodeVarint32(s)
    case None => None
    case Some((n, rest)) =>
      if n + extra > dataSize then None
      else
        match Read(rest, n)
        case None => None
        case Some((b, rest')) => Some((BytesV(b), rest'))
  }

  /** `prev` is what the storage of a submessage holds before; entries of arrays start afresh. */
  function DecodeValue(f: Field, s: Bytes, prev: Value): (r: Option<(Value, Bytes)>)
    ensures r.Some? ==> |r.value.1| < |s|
    decreases |s|, 0
  {
    if !f.ltype.LSubmessage? then DecodeScalar(f, s)
    else
      var fields := f.ltype.fields;
      match DecodeVarint32(s)
      case None => None
      case Some((n, rest)) =>
        if |rest| < n then None
        else
          var anew := f.htype.Repeated? || f.htype.FixedCount? || !prev.MsgV? || |prev.slots| != |fields|;
          match DecodeMessage(fields, rest[..n], Start(if anew then DefaultMessage(fields) else prev.slots))
          case None => None
          case Some(slots) => Some((MsgV(slots), rest[n..]))
  }

  // ----- Arrays

  /** Stores an item at position `n` of an array: at the end of a counted one. */
  function Put(f: Field, items: seq<Value>, n: nat, v: Value): seq<Value> {
    if f.htype.FixedCount? && n < |items| then items[n := v] else items + [v]
  }

  /** The items of a packed array; too many of them are an error. */
  function DecodePacked(f: Field, s: Bytes, items: seq<Value>, n: nat): Option<(seq<Value>, nat)>
    requires Packable(f.ltype)
    decreases |s|
  {
    if s == [] then Some((items, n))
    else if n >= f.arraySize then None
    else
      match DecodeScalar(f, s)
      case None => None
      case Some((v, rest)) => DecodePacked(f, rest, Put(f, items, n, v), n + 1)
  }

  /** The array after one occurrence of its field on the wire, and the number of items stored. */
  function DecodeArray(f: Field, wire: WireType, s: Bytes, items: seq<Value>, n: nat)
    : (r: Option<(seq<Value>, nat, Bytes)>)
    ensures r.Some? ==> |r.value.2| < |s|
    decreases |s|, 1
  {
    if wire == WtString && Packable(f.ltype) then
      match DecodeVarint32(s)
      case None => None
      case Some((len, rest)) =>
        if |rest| < len then None
        else
          match DecodePacked(f, rest[..len], items, n)
          case None => None
          case Some((items', n')) => Some((items', n', rest[len..]))
    else if n >= f.arraySize then None
    else
      match DecodeValue(f, s, DefaultValue(f))
      case None => None
      case Some((v, rest)) => Some((Put(f, items, n, v), n + 1, rest))
  }

  // ----- Fields and messages

  /** Selecting a member of a union deselects the others. */
  function Select(fs: seq<Field>, slots: seq<Slot>, i: nat, v: Value): (r: seq<Slot>)
    requires |slots| == |fs| && i < |fs|
    ensures |r| == |slots|
  {
    seq(|slots|, j requires 0 <= j < |slots| =>
      if j == i then Maybe(true, v)
      else if fs[j].htype.Oneof? && fs[j].htype == fs[i].htype then Maybe(false, DefaultValue(fs[j]))
      else slots[j])
  }

  /** Bookkeeping when field `i` turns up: a fixed-count array must be full before another begins. */
  function Track(fs: seq<Field>, st: State, i: nat): Option<State>
    requires i < |fs|
  {
    var st' := if fs[i].htype.Required? && RequiredCount(fs[..i]) < MAX_REQUIRED_FIELDS
               then st.(seen := st.seen + {RequiredCount(fs[..i])}) else st;
    if !fs[i].htype.FixedCount? || st.fixedField == i then Some(st')
    else if 0 <= st.fixedField < |fs| && st.fixedCount != fs[st.fixedField].arraySize then None
    else Some(st'.(fixedField := i, fixedCount := 0))
  }

  function DecodeField(fs: seq<Field>, i: nat, wire: WireType, s: Bytes, st: State): (r: Option<(State, Bytes)>)
    requires |st.slots| == |fs| && i < |fs|
    ensures r.Some? ==> |r.value.1| < |s| && |r.value.0.slots| == |fs|
    decreases |s|, 2
  {
    var f, slot := fs[i], st.slots[i];
    match f.htype
    case Repeated =>
      if !slot.Many? then None
      else
        (match DecodeArray(f, wire, s, slot.items, |slot.items|)
         case None => None
         case Some((items, _, rest)) => Some((st.(slots := st.slots[i := Many(items)]), rest)))
    case FixedCount =>
      if !slot.Many? then None
      else
        (match DecodeArray(f, wire, s, slot.items, st.fixedCount)
         case None => None
         case Some((items, n, rest)) => Some((st.(slots := st.slots[i := Many(items)], fixedCount := n), rest)))
    case Oneof(_) =>
      (match DecodeValue(f, s, if slot.Maybe? && slot.has then slot.v else DefaultValue(f))
       case None => None
       case Some((v, rest)) => Some((st.(slots := Select(fs, st.slots, i, v)), rest)))
    case Optional =>
      (match DecodeValue(f, s, if slot.Maybe? then slot.v else DefaultValue(f))
       case None => None
       case Some((v, rest)) => Some((st.(slots := st.slots[i := Maybe(true, v)]), rest)))
    case _ =>
      match DecodeValue(f, s, if slot.One? then slot.v else DefaultValue(f))
      case None => None
      case Some((v, rest)) => Some((st.(slots := st.slots[i := One(v)]), rest))
  }

  datatype StepResult = Stop | Fail | More(st: State, rest: Bytes)

  /** What follows a tag: the value of a known field, or something to skip. An empty message consists
      of its end mark alone, which passes for a Boolean field with tag zero. */
  function Payload(fs: seq<Field>, tag: nat, wire: WireType, s: Bytes, st: State): (r: StepResult)
    requires |st.slots| == |fs|
    ensures r.More? ==> |r.rest| < |s| && |r.st.slots| == |fs|
    decreases |s|, 3
  {
    var i := FindField(fs, tag);
    if fs == [] && tag == 0 then
      match DecodeVarint32(s)
      case None => Fail
      case Some((_, rest)) => More(st, rest)
    else if i == -1 then
      match SkipField(s, wire)
      case None => Fail
      case Some(rest) => More(st, rest)
    else
      match Track(fs, st, i)
      case None => Fail
      case Some(st') =>
        match DecodeField(fs, i, wire, s, st')
        case None => Fail
        case Some((st'', rest)) => More(st'', rest)
  }

  /** One round of the decoding loop: a tag and what belongs to it. */
  function DecodeStep(fs: seq<Field>, s: Bytes, st: State): (r: StepResult)
    requires |st.slots| == |fs|
    ensures r.More? ==> |r.rest| < |s| && |r.st.slots| == |fs|
    decreases |s|, 3
  {
    match DecodeTag(s)
    case TagError => Fail
    case EndOfMessage => Stop
    case TagOf(tag, wire, rest) => Payload(fs, tag, wire, rest, st)
  }

  /** The checks at the end: the last fixed-count array is full and, of the first 64 required fields,
      none is missing. */
  function Finish(fs: seq<Field>, st: State): Option<seq<Slot>> {
    if 0 <= st.fixedField < |fs| && st.fixedCount != fs[st.fixedField].arraySize then None
    else if forall k :: 0 <= k < RequiredCount(fs) && k < MAX_REQUIRED_FIELDS ==> k in st.seen then Some(st.slots)
    else None
  }

  function DecodeMessage(fs: seq<Field>, s: Bytes, st: State): Option<seq<Slot>>
    requires |st.slots| == |fs|
    decreases |s|, 4
  {
    if s == [] then Finish(fs, st)
    else
      match DecodeStep(fs, s, st)
      case Stop => Finish(fs, st)
      case Fail => None
      case More(st', rest) => DecodeMessage(fs, rest, st')
  }

  /** `pb_decode`: every field starts with its default. */
  function Decode(fs: seq<Field>, s: Bytes): Option<seq<Slot>> {
    DecodeMessage(fs, s, Start(DefaultMessage(fs)))
  }
}
