/** The Protocol Buffers wire format as nanopb reads and writes it: base-128 varints, tags, fixed-size
    numbers and zigzag integers. A decoder takes the bytes left in its stream and returns what it
    read together with the bytes left after it. */
module NanopbWire {
  import opened ByteStrings

  datatype WireType = WtVarint | Wt64Bit | WtString | Wt32Bit | WtInvalid(code: nat)

  const TWO_32: nat := 0x1_0000_0000
  const TWO_64: nat := 0x1_0000_0000_0000_0000

  function Pow2(n: nat): (r: nat)
    ensures r > 0
  {
    if n == 0 then 1 else 2 * Pow2(n - 1)
  }

  /** Bitwise or. */
  function Or(a: nat, b: nat): nat {
    if a == 0 then b
    else if b == 0 then a
    else (if a % 2 == 1 || b % 2 == 1 then 1 else 0) + 2 * Or(a / 2, b / 2)
  }

  lemma {:induction false} OrOfDisjoint(a: nat, b: nat, k: nat)
    requires a < Pow2(k)
    ensures Or(a, b * Pow2(k)) == a + b * Pow2(k)
  {
    if k > 0 && a > 0 && b > 0 {
      var p := Pow2(k - 1);
      assert b * Pow2(k) == 2 * (b * p);
      OrOfDisjoint(a / 2, b, k - 1);
    } else if k == 0 {
      assert a == 0;
    }
  }

  // ----- Varints

  /** Seven bits a byte, least significant first, the top bit set on all bytes but the last. */
  function Varint(v: nat): (r: Bytes)
    ensures |r| >= 1
  {
    if v < 128 then [v] else [128 + v % 128] + Varint(v / 128)
  }

  lemma {:induction false} VarintLength(v: nat, n: nat)
    requires n >= 1 && v < Pow2(7 * n)
    ensures |Varint(v)| <= n
  {
    if v >= 128 {
      assert n > 1 by { Pow2Values(); }
      assert Pow2(7 * n) == 128 * Pow2(7 * (n - 1)) by { Pow2Adds(7, 7 * (n - 1)); assert Pow2(7) == 128; }
      VarintLength(v / 128, n - 1);
    }
  }

  lemma {:induction false} Pow2Adds(a: nat, b: nat)
    ensures Pow2(a + b) == Pow2(a) * Pow2(b)
  {
    if a > 0 {
      Pow2Adds(a - 1, b);
      assert Pow2(a + b) == 2 * (Pow2(a - 1) * Pow2(b));
    }
  }

  lemma Pow2Values()
    ensures Pow2(7) == 128 && Pow2(14) == 16384 && Pow2(21) == 2097152 && Pow2(28) == 268435456
    ensures Pow2(32) == TWO_32 && Pow2(64) == TWO_64 && Pow2(70) == 64 * TWO_64
  {
    assert Pow2(7) == 128;
    Pow2Adds(7, 7); Pow2Adds(7, 14); Pow2Adds(7, 21);
    assert Pow2(4) == 16;
    Pow2Adds(4, 28); Pow2Adds(32, 32);
    assert Pow2(6) == 64;
    Pow2Adds(6, 64);
  }

  /** Reads a varint of at most `max` bytes. */
  function RawVarint(s: Bytes, max: nat): (r: Option<(nat, Bytes)>)
    ensures r.Some? ==> |r.value.1| < |s|
  {
    if max == 0 || s == [] then None
    else if s[0] < 128 then Some((s[0], s[1..]))
    else
      match RawVarint(s[1..], max - 1)
      case None => None
      case Some((v, rest)) => Some((s[0] - 128 + 128 * v, rest))
  }

  const MAX_VARINT_BYTES: nat := 10

  /** `pb_decode_varint`: ten bytes at most, the value cut to 64 bits. */
  function DecodeVarint(s: Bytes): (r: Option<(nat, Bytes)>)
    ensures r.Some? ==> |r.value.1| < |s|
  {
    match RawVarint(s, MAX_VARINT_BYTES)
    case None => None
    case Some((v, rest)) => Some((v % TWO_64, rest))
  }

  lemma {:induction false} RawVarintRoundTrip(v: nat, rest: Bytes, max: nat)
    requires |Varint(v)| <= max
    ensures RawVarint(Varint(v) + rest, max) == Some((v, rest))
  {
    var s := Varint(v) + rest;
    if v < 128 {
      assert s[1..] == rest;
    } else {
      assert s[1..] == Varint(v / 128) + rest;
      RawVarintRoundTrip(v / 128, rest, max - 1);
    }
  }

  lemma VarintFitsTen(v: nat)
    requires v < TWO_64
    ensures |Varint(v)| <= 10
  {
    Pow2Values();
    VarintLength(v, 10);
  }

  lemma VarintRoundTrip(v: nat, rest: Bytes)
    requires v < TWO_64
    ensures DecodeVarint(Varint(v) + rest) == Some((v, rest))
    ensures |Varint(v)| <= 10
  {
    VarintFitsTen(v);
    var s, max := Varint(v) + rest, MAX_VARINT_BYTES;
    RawVarintRoundTrip(v, rest, max);
    assert RawVarint(s, max) == Some((v, rest)) && v % TWO_64 == v;
  }

  /** The seven bits of a byte moved up by `bitpos` places in a 32-bit number. */
  function Shifted(b: Byte, bitpos: nat): nat {
    (b % 128 * Pow2(bitpos)) % TWO_32
  }

  /** The bytes after the first of `pb_decode_varint32_eof`: `result` holds what was read so far and
      `bitpos` is an eight-bit counter. */
  function Varint32Tail(s: Bytes, result: nat, bitpos: nat): (r: Option<(nat, Bytes)>)
    ensures r.Some? ==> |r.value.1| < |s|
  {
    if s == [] then None
    else
      var b := s[0];
      var signExtension := if bitpos < 63 then 0xff else 0x01;
      if bitpos >= 32 && b % 128 != 0 && (result / 0x8000_0000 == 0 || b != signExtension) then
        None
      else
        var result' := if bitpos >= 32 then result else Or(result, Shifted(b, bitpos));
        var bitpos' := (bitpos + 7) % 256;
        if b >= 128 then Varint32Tail(s[1..], result', bitpos')
        else if bitpos' == 35 && b / 16 % 8 != 0 then None
        else Some((result', s[1..]))
  }

  function DecodeVarint32(s: Bytes): (r: Option<(nat, Bytes)>)
    ensures r.Some? ==> |r.value.1| < |s|
  {
    if s == [] then None
    else if s[0] < 128 then Some((s[0], s[1..]))
    else Varint32Tail(s[1..], s[0] % 128, 7)
  }

  /** The first byte of a varint followed by other bytes. */
  lemma VarintHead(u: nat, rest: Bytes)
    ensures var s := Varint(u) + rest;
            && s[0] == (if u < 128 then u else 128 + u % 128)
            && s[1..] == (if u < 128 then rest else Varint(u / 128) + rest)
  {
  }

  /** One byte of a varint that fits. */
  lemma Varint32Step(s: Bytes, low: nat, result: nat, bitpos: nat, p: nat)
    requires s != [] && low == s[0] % 128
    requires bitpos <= 28 && p == Pow2(bitpos) && result < p && result + low * p < TWO_32
    requires bitpos == 28 ==> s[0] < 16
    ensures Varint32Tail(s, result, bitpos)
            == if s[0] < 128 then Some((result + low * p, s[1..]))
               else Varint32Tail(s[1..], result + low * p, bitpos + 7)
  {
    OrFits(result, low, bitpos, p, TWO_32);
    Varint32Unfold(s, result, bitpos, result + low * p);
  }

  lemma Varint32Unfold(s: Bytes, result: nat, bitpos: nat, result': nat)
    requires s != [] && bitpos <= 28 && result' == Or(result, Shifted(s[0], bitpos))
    requires bitpos == 28 ==> s[0] < 16
    ensures Varint32Tail(s, result, bitpos)
            == if s[0] < 128 then Some((result', s[1..])) else Varint32Tail(s[1..], result', bitpos + 7)
  {
    SmallModulo(bitpos + 7, 256);
    assert bitpos == 28 ==> s[0] / 16 == 0;
  }

  lemma OrFits(result: nat, low: nat, bitpos: nat, p: nat, limit: nat)
    requires p == Pow2(bitpos) && result < p && low * p < limit
    ensures Or(result, (low * p) % limit) == result + low * p
  {
    OrOfDisjoint(result, low, bitpos);
    SmallModulo(low * p, limit);
  }

  lemma SmallModulo(x: nat, limit: nat)
    requires x < limit
    ensures x % limit == x
  {
  }

  lemma Varint32From28(u: nat, rest: Bytes, result: nat)
    requires result < 268435456 && result + u * 268435456 < TWO_32
    ensures Varint32Tail(Varint(u) + rest, result, 28) == Some((result + u * 268435456, rest))
  {
    assert Pow2(28) == 268435456 by { Pow2Values(); }
    VarintHead(u, rest);
    var s := Varint(u) + rest;
    Varint32Step(s, u % 128, result, 28, 268435456);
  }

  lemma Varint32From21(u: nat, rest: Bytes, result: nat)
    requires result < 2097152 && result + u * 2097152 < TWO_32
    ensures Varint32Tail(Varint(u) + rest, result, 21) == Some((result + u * 2097152, rest))
  {
    assert Pow2(21) == 2097152 by { Pow2Values(); }
    VarintHead(u, rest);
    var s := Varint(u) + rest;
    Varint32Step(s, u % 128, result, 21, 2097152);
    if u >= 128 {
      Varint32From28(u / 128, rest, result + u % 128 * 2097152);
    }
  }

  lemma Varint32From14(u: nat, rest: Bytes, result: nat)
    requires result < 16384 && result + u * 16384 < TWO_32
    ensures Varint32Tail(Varint(u) + rest, result, 14) == Some((result + u * 16384, rest))
  {
    assert Pow2(14) == 16384 by { Pow2Values(); }
    VarintHead(u, rest);
    var s := Varint(u) + rest;
    Varint32Step(s, u % 128, result, 14, 16384);
    if u >= 128 {
      Varint32From21(u / 128, rest, result + u % 128 * 16384);
    }
  }

  lemma Varint32From7(u: nat, rest: Bytes, result: nat)
    requires result < 128 && result + u * 128 < TWO_32
    ensures Varint32Tail(Varint(u) + rest, result, 7) == Some((result + u * 128, rest))
  {
    assert Pow2(7) == 128 by { Pow2Values(); }
    VarintHead(u, rest);
    var s := Varint(u) + rest;
    Varint32Step(s, u % 128, result, 7, 128);
    if u >= 128 {
      Varint32From14(u / 128, rest, result + u % 128 * 128);
    }
  }

  lemma Varint32RoundTrip(v: nat, rest: Bytes)
    requires v < TWO_32
    ensures DecodeVarint32(Varint(v) + rest) == Some((v, rest))
  {
    VarintHead(v, rest);
    var s := Varint(v) + rest;
    if v >= 128 {
      var tail := Varint(v / 128) + rest;
      Varint32From7(v / 128, rest, v % 128);
      assert s[0] % 128 == v % 128 && s[1..] == tail;
      assert DecodeVarint32(s) == Varint32Tail(tail, v % 128, 7);
    }
  }

  // ----- Signed integers

  /** An integer as its 64-bit two's complement pattern. */
  function ToUnsigned64(i: int): nat
    requires -0x8000_0000_0000_0000 <= i < 0x8000_0000_0000_0000
  {
    if i < 0 then i + TWO_64 else i
  }

  function ToSigned64(v: nat): int
    requires v < TWO_64
  {
    if v >= 0x8000_0000_0000_0000 then v - TWO_64 else v
  }

  /** The low 32 bits as a signed number. */
  function ToSigned32(v: nat): int {
    var w := v % TWO_32;
    if w >= 0x8000_0000 then w - TWO_32 else w
  }

  function ZigZag(i: int): nat {
    if i < 0 then -2 * i - 1 else 2 * i
  }

  function UnZigZag(v: nat): int {
    if v % 2 == 1 then -(v / 2) - 1 else v / 2
  }

  lemma ZigZagRoundTrip(i: int)
    ensures UnZigZag(ZigZag(i)) == i
    ensures -0x8000_0000_0000_0000 <= i < 0x8000_0000_0000_0000 ==> ZigZag(i) < TWO_64
  {
  }

  // ----- Reading and tags

  function Read(s: Bytes, n: nat): (r: Option<(Bytes, Bytes)>)
    ensures r.Some? ==> r.value.0 + r.value.1 == s && |r.value.0| == n
  {
    if |s| < n then None else Some((s[..n], s[n..]))
  }

  lemma ReadExact(a: Bytes, rest: Bytes)
    ensures Read(a + rest, |a|) == Some((a, rest))
  {
    assert (a + rest)[..|a|] == a && (a + rest)[|a|..] == rest;
  }

  function WireCode(w: WireType): nat {
    match w
    case WtVarint => 0
    case Wt64Bit => 1
    case WtString => 2
    case Wt32Bit => 5
    case WtInvalid(code) => code
  }

  function WireOf(code: nat): WireType {
    match code
    case 0 => WtVarint
    case 1 => Wt64Bit
    case 2 => WtString
    case 5 => Wt32Bit
    case _ => WtInvalid(code)
  }

  function Tag(tag: nat, w: WireType): Bytes {
    Varint(tag * 8 + WireCode(w))
  }

  datatype TagResult = TagError | EndOfMessage | TagOf(tag: nat, wire: WireType, rest: Bytes)

  /** A zero tag ends a message early. */
  function DecodeTag(s: Bytes): (r: TagResult)
    ensures r.TagOf? ==> |r.rest| < |s|
  {
    match DecodeVarint32(s)
    case None => if s == [] then EndOfMessage else TagError
    case Some((v, rest)) => if v == 0 then EndOfMessage else TagOf(v / 8, WireOf(v % 8), rest)
  }

  lemma TagRoundTrip(tag: nat, w: WireType, rest: Bytes)
    requires 1 <= tag < 0x2000_0000 && !w.WtInvalid?
    ensures DecodeTag(Tag(tag, w) + rest) == TagOf(tag, w, rest)
  {
    Varint32RoundTrip(tag * 8 + WireCode(w), rest);
  }

  function SkipVarint(s: Bytes): (r: Option<Bytes>)
    ensures r.Some? ==> |r.value| < |s|
  {
    if s == [] then None else if s[0] >= 128 then SkipVarint(s[1..]) else Some(s[1..])
  }

  function Skip(s: Bytes, n: nat): (r: Option<Bytes>)
    ensures r.Some? ==> |r.value| == |s| - n
  {
    if |s| < n then None else Some(s[n..])
  }

  function SkipString(s: Bytes): (r: Option<Bytes>)
    ensures r.Some? ==> |r.value| < |s|
  {
    match DecodeVarint32(s)
    case None => None
    case Some((n, rest)) => Skip(rest, n)
  }

  function SkipField(s: Bytes, w: WireType): (r: Option<Bytes>)
    ensures r.Some? ==> |r.value| < |s|
  {
    match w
    case WtVarint => SkipVarint(s)
    case Wt64Bit => Skip(s, 8)
    case WtString => SkipString(s)
    case Wt32Bit => Skip(s, 4)
    case WtInvalid(_) => None
  }
}
