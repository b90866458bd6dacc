/** Message descriptions, message values, and what a message is encoded as. */
module NanopbSchema {
  import opened ByteStrings
  import opened NanopbWire

  /** The data type of a field. */
  datatype LType =
    | LBool | LVarint | LUVarint | LSVarint | LFixed32 | LFixed64
    | LBytes | LString | LSubmessage(fields: seq<Field>) | LFixedBytes

  /** How often a field occurs: once; perhaps, with a `has_` flag; perhaps, present when not zero;
      many times, with a count; as often as the array is long; or as one member of a union. */
  datatype HType = Required | Optional | Singular | Repeated | FixedCount | Oneof(union: nat)

  /** `preset` is the default that the description gives, if any. */
  datatype Field = Field(tag: nat, ltype: LType, htype: HType, dataSize: nat, arraySize: nat, preset: Option<Value>)

  datatype Value = BoolV(b: bool) | IntV(i: int) | BytesV(s: Bytes) | MsgV(slots: seq<Slot>)

  /** The storage of a field in a message. For a member of a union, `has` says that it is the one in
      use. */
  datatype Slot = One(v: Value) | Maybe(has: bool, v: Value) | Many(items: seq<Value>)

  /** The size of the header of a byte array. */
  const BYTES_HEADER: nat := 4

  predicate Packable(t: LType) {
    t.LBool? || t.LVarint? || t.LUVarint? || t.LSVarint? || t.LFixed32? || t.LFixed64?
  }

  function WireTypeOf(t: LType): (w: WireType)
    ensures !w.WtInvalid?
  {
    match t
    case LBool => WtVarint
    case LVarint => WtVarint
    case LUVarint => WtVarint
    case LSVarint => WtVarint
    case LFixed32 => Wt32Bit
    case LFixed64 => Wt64Bit
    case _ => WtString
  }

  // ----- Defaults

  function Copies(v: Value, n: nat): (r: seq<Value>)
    ensures |r| == n && forall i :: 0 <= i < n ==> r[i] == v
  {
    seq(n, _ => v)
  }

  function DefaultValue(f: Field): Value
    decreases f, 0
  {
    match f.ltype
    case LSubmessage(fields) => MsgV(DefaultMessage(fields))
    case LBool => if f.preset.Some? then f.preset.value else BoolV(false)
    case LBytes => if f.preset.Some? then f.preset.value else BytesV([])
    case LString => if f.preset.Some? then f.preset.value else BytesV([])
    case LFixedBytes => if f.preset.Some? then f.preset.value else BytesV(Zeros(f.dataSize))
    case _ => if f.preset.Some? then f.preset.value else IntV(0)
  }

  function DefaultSlot(f: Field): Slot
    decreases f, 1
  {
    match f.htype
    case Required => One(DefaultValue(f))
    case Singular => One(DefaultValue(f))
    case Optional => Maybe(false, DefaultValue(f))
    case Oneof(_) => Maybe(false, DefaultValue(f))
    case Repeated => Many([])
    case FixedCount => Many(Copies(DefaultValue(f), f.arraySize))
  }

  function DefaultMessage(fs: seq<Field>): (r: seq<Slot>)
    ensures |r| == |fs|
    decreases fs, 2
  {
    if fs == [] then [] else [DefaultSlot(fs[0])] + DefaultMessage(fs[1..])
  }

  // ----- Presence of proto3 fields

  predicate ValueIsDefault(f: Field, v: Value)
    decreases f, 0
  {
    match v
    case BoolV(b) => !b
    case IntV(i) => i == 0
    case BytesV(s) =>
      if f.ltype.LString? then s == [] || s[0] == 0
      else if f.ltype.LFixedBytes? then f.dataSize == 0
      else s == []
    case MsgV(ms) => f.ltype.LSubmessage? && MessageIsDefault(f.ltype.fields, ms)
  }

  /** Whether `pb_check_proto3_default_value` finds nothing to encode in a field. */
  predicate SlotIsDefault(f: Field, slot: Slot)
    decreases f, 1
  {
    match f.htype
    case Required => false
    case Repeated => slot.Many? && slot.items == []
    case FixedCount => false
    case Oneof(_) => slot.Maybe? && !slot.has
    case Optional => slot.Maybe? && !slot.has
    case Singular => slot.One? && ValueIsDefault(f, slot.v)
  }

  predicate MessageIsDefault(fs: seq<Field>, ms: seq<Slot>)
    decreases fs, 2
  {
    if fs == [] || ms == [] then fs == [] && ms == []
    else SlotIsDefault(fs[0], ms[0]) && MessageIsDefault(fs[1..], ms[1..])
  }

  // ----- Encoding. `None` stands for an encoding error.

  /** A string ends at its first zero byte or at the end of its storage. */
  function CString(s: Bytes, max: nat): Bytes {
    if s == [] || max == 0 || s[0] == 0 then [] else [s[0]] + CString(s[1..], max - 1)
  }

  function Delimited(s: Bytes): Bytes {
    Varint(|s|) + s
  }

  predicate IsIntSize(n: nat) {
    n == 1 || n == 2 || n == 4 || n == 8
  }

  predicate InSigned(n: nat, i: int) {
    match n
    case 1 => -0x80 <= i < 0x80
    case 2 => -0x8000 <= i < 0x8000
    case 4 => -0x8000_0000 <= i < 0x8000_0000
    case 8 => -0x8000_0000_0000_0000 <= i < 0x8000_0000_0000_0000
    case _ => false
  }

  predicate InUnsigned(n: nat, i: int) {
    match n
    case 1 => 0 <= i < 0x100
    case 2 => 0 <= i < 0x1_0000
    case 4 => 0 <= i < TWO_32
    case 8 => 0 <= i < TWO_64
    case _ => false
  }

  function EncodeValue(f: Field, v: Value): Option<Bytes>
    decreases f, 0, 0
  {
    match f.ltype
    case LBool => if v.BoolV? then Some(Varint(if v.b then 1 else 0)) else None
    case LVarint => if v.IntV? && InSigned(f.dataSize, v.i) then Some(Varint(ToUnsigned64(v.i))) else None
    case LUVarint => if v.IntV? && InUnsigned(f.dataSize, v.i) then Some(Varint(v.i)) else None
    case LSVarint => if v.IntV? && InSigned(f.dataSize, v.i) then Some(Varint(ZigZag(v.i))) else None
    case LFixed32 => if v.IntV? && 0 <= v.i < TWO_32 then Some(LittleEndian(v.i, 4)) else None
    case LFixed64 => if v.IntV? && 0 <= v.i < TWO_64 then Some(LittleEndian(v.i, 8)) else None
    case LBytes => if v.BytesV? && |v.s| + BYTES_HEADER <= f.dataSize then Some(Delimited(v.s)) else None
    case LString => if v.BytesV? then Some(Delimited(CString(v.s, f.dataSize))) else None
    case LFixedBytes => if v.BytesV? && |v.s| == f.dataSize then Some(Delimited(v.s)) else None
    case LSubmessage(fields) =>
      if v.MsgV? then
        match EncodeMessage(fields, v.slots)
        case None => None
        case Some(body) => Some(Delimited(body))
      else None
  }

  /** The items of an array, one after the other, each behind `prefix`. */
  function EncodeItems(f: Field, items: seq<Value>, prefix: Bytes): Option<Bytes>
    decreases f, 1, |items|
  {
    if items == [] then Some([])
    else
      match EncodeValue(f, items[0])
      case None => None
      case Some(first) =>
        match EncodeItems(f, items[1..], prefix)
        case None => None
        case Some(later) => Some(prefix + first + later)
  }

  function EncodeArray(f: Field, items: seq<Value>): Option<Bytes>
    decreases f, 2, 0
  {
    if items == [] then Some([])
    else if |items| > f.arraySize then None
    else if Packable(f.ltype) then
      match EncodeItems(f, items, [])
      case None => None
      case Some(body) => Some(Tag(f.tag, WtString) + Delimited(body))
    else EncodeItems(f, items, Tag(f.tag, WireTypeOf(f.ltype)))
  }

  function EncodeTagged(f: Field, v: Value): Option<Bytes>
    decreases f, 2, 0
  {
    match EncodeValue(f, v)
    case None => None
    case Some(body) => Some(Tag(f.tag, WireTypeOf(f.ltype)) + body)
  }

  function EncodeSlot(f: Field, slot: Slot): Option<Bytes>
    decreases f, 3, 0
  {
    match f.htype
    case Required => if slot.One? then EncodeTagged(f, slot.v) else None
    case Singular =>
      if !slot.One? then None
      else if ValueIsDefault(f, slot.v) then Some([])
      else EncodeTagged(f, slot.v)
    case Optional => if !slot.Maybe? then None else if !slot.has then Some([]) else EncodeTagged(f, slot.v)
    case Oneof(_) => if !slot.Maybe? then None else if !slot.has then Some([]) else EncodeTagged(f, slot.v)
    case Repeated => if slot.Many? then EncodeArray(f, slot.items) else None
    case FixedCount => if slot.Many? && |slot.items| == f.arraySize then EncodeArray(f, slot.items) else None
  }

  function EncodeMessage(fs: seq<Field>, ms: seq<Slot>): Option<Bytes>
    decreases fs, 4, 0
  {
    if fs == [] || ms == [] then if fs == [] && ms == [] then Some([]) else None
    else
      match EncodeSlot(fs[0], ms[0])
      case None => None
      case Some(first) =>
        match EncodeMessage(fs[1..], ms[1..])
        case None => None
        case Some(later) => Some(first + later)
  }
}
