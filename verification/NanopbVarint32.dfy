/** Which varints the 32-bit reader takes, and what it makes of them. */
module NanopbVarint32 {
  import opened ByteStrings
  import opened NanopbWire

  /** `u` has `k` groups of seven bits and one bit above them. */
  predicate Topped(u: nat, k: nat) {
    if k == 0 then u < 2 else Topped(u / 128, k - 1)
  }

  /** The topmost bit is set, and each group below it is all ones or all zeros. */
  predicate Extends(u: nat, k: nat) {
    if k == 0 then u == 1 else (u % 128 == 0 || u % 128 == 127) && Extends(u / 128, k - 1)
  }

  lemma {:induction false} ExtendsIsLong(u: nat, k: nat)
    requires Extends(u, k) && k > 0
    ensures u >= 128
  {
    if k > 1 { ExtendsIsLong(u / 128, k - 1); }
  }

  lemma HighByte(s: Bytes, result: nat, bitpos: nat)
    requires s != [] && 32 <= bitpos <= 63 && result < TWO_32
    ensures Varint32Tail(s, result, bitpos)
            == if s[0] % 128 != 0 && (result < 0x8000_0000 || s[0] != if bitpos < 63 then 255 else 1) then None
               else if s[0] >= 128 then Varint32Tail(s[1..], result, bitpos + 7)
               else Some((result, s[1..]))
  {
    assert (bitpos + 7) % 256 == bitpos + 7;
    assert result / 0x8000_0000 == 0 <==> result < 0x8000_0000;
  }

  /** The bytes from bit 35 on. */
  lemma {:induction false} HighBytes(u: nat, rest: Bytes, result: nat, k: nat)
    requires k <= 4 && 0 < u && Topped(u, k) && result < TWO_32
    ensures Varint32Tail(Varint(u) + rest, result, 63 - 7 * k)
            == if result >= 0x8000_0000 && Extends(u, k) then Some((result, rest)) else None
    decreases k
  {
    VarintHead(u, rest);
    HighByte(Varint(u) + rest, result, 63 - 7 * k);
    if k > 0 {
      if u >= 128 { HighBytes(u / 128, rest, result, k - 1); }
      if Extends(u, k) { ExtendsIsLong(u, k); }
    }
  }

  /** The byte that ends at bit 35: its upper bits are lost when others follow. */
  lemma {:induction false} From28(u: nat, rest: Bytes, result: nat)
    requires result < 0x1000_0000 && u >= 16 && Topped(u / 128, 4)
    ensures var low := result + u % 16 * 0x1000_0000;
            Varint32Tail(Varint(u) + rest, result, 28)
            == if u >= 128 && low >= 0x8000_0000 && Extends(u / 128, 4) then Some((low, rest)) else None
  {
    var low := result + u % 16 * 0x1000_0000;
    VarintHead(u, rest);
    var s := Varint(u) + rest;
    LowFour(result, u, s[0]);
    Unfold28(s, result, low);
    if u >= 128 { HighBytes(u / 128, rest, low, 4); }
  }

  lemma Unfold28(s: Bytes, result: nat, low: nat)
    requires s != [] && low == Or(result, Shifted(s[0], 28))
    ensures Varint32Tail(s, result, 28)
            == if s[0] >= 128 then Varint32Tail(s[1..], low, 35)
               else if s[0] >= 16 then None
               else Some((low, s[1..]))
  {
  }

  lemma LowFour(result: nat, u: nat, b: Byte)
    requires result < 0x1000_0000 && b % 128 == u % 128
    ensures Or(result, Shifted(b, 28)) == result + u % 16 * 0x1000_0000
  {
    assert Pow2(28) == 0x1000_0000 by { Pow2Values(); }
    SixteenOf(u);
    OrOfDisjoint(result, u % 16, 28);
  }

  lemma Remainder(q: nat, y: nat)
    requires y < TWO_32
    ensures (q * TWO_32 + y) % TWO_32 == y
  {
  }

  lemma Remainder16(x: nat, r: nat)
    requires r < 16
    ensures (16 * x + r) % 16 == r
  {
  }

  lemma SixteenOf(u: nat)
    ensures (u % 128 * 0x1000_0000) % TWO_32 == u % 16 * 0x1000_0000
  {
    var a, b := u / 128, u % 128;
    var q, r := b / 16, b % 16;
    Remainder16(8 * a + q, r);
    assert u == 16 * (8 * a + q) + r;
    Remainder(q, r * 0x1000_0000);
  }

  lemma Times(x: nat, p: nat)
    requires x < 128 && p <= 2097152
    ensures x * p + p <= 128 * p && x * p < TWO_32
  {
  }

  /** A byte below bit 28. */
  lemma {:induction false} LowByte(u: nat, rest: Bytes, result: nat, bitpos: nat, p: nat, low: nat)
    requires bitpos <= 21 && p == Pow2(bitpos) <= 2097152 && result < p && low == u % 128 * p
    ensures Varint32Tail(Varint(u) + rest, result, bitpos)
            == if u < 128 then Some((result + low, rest))
               else Varint32Tail(Varint(u / 128) + rest, result + low, bitpos + 7)
    ensures result + low < 128 * p
  {
    Times(u % 128, p);
    VarintHead(u, rest);
    Varint32Step(Varint(u) + rest, u % 128, result, bitpos, p);
  }

  lemma Parts(v: nat)
    ensures v / 128 / 128 / 128 / 128 == v / 0x1000_0000
    ensures v == v % 128 + v / 128 % 128 * 128 + v / 128 / 128 % 128 * 16384 + v / 128 / 128 / 128 % 128 * 2097152
                 + v / 0x1000_0000 * 0x1000_0000
    ensures v % 0x1000_0000
            == v % 128 + v / 128 % 128 * 128 + v / 128 / 128 % 128 * 16384 + v / 128 / 128 / 128 % 128 * 2097152
    ensures v >= 0x1000_0000 ==> v / 128 / 128 / 128 >= 128
  {
  }

  /** The number is the sign extension of a negative one, as far as the reader looks: it has the bits 31 and 63,
      and the groups of seven bits between bit 35 and bit 63 are all ones or all zeros. */
  predicate SignLike(v: nat) {
    v / 0x8000_0000 % 2 == 1 && Extends(v / 0x8_0000_0000, 4)
  }

  lemma TopBits(v: nat)
    requires v < TWO_64
    ensures Topped(v / 0x8_0000_0000, 4)
  {
    var u := v / 0x8_0000_0000;
    assert u < 0x2000_0000;
    assert u / 128 < 0x40_0000 && u / 128 / 128 < 0x8000 && u / 128 / 128 / 128 < 0x100;
    assert u / 128 / 128 / 128 / 128 < 2;
    assert Topped(u / 128 / 128 / 128 / 128, 0) && Topped(u / 128 / 128 / 128, 1) && Topped(u / 128 / 128, 2);
  }

  /** The reader on every 64-bit number: one below 2^32 is read as it is, a sign extension as its low 32 bits,
      and any other is refused. */
  lemma Varint32IsExact(v: nat, rest: Bytes)
    requires v < TWO_64
    ensures DecodeVarint32(Varint(v) + rest)
            == if v < TWO_32 then Some((v, rest))
               else if SignLike(v) then Some((v % TWO_32, rest))
               else None
  {
    if v < TWO_32 {
      Varint32RoundTrip(v, rest);
    } else {
      LongVarint(v, rest);
    }
  }

  lemma From21(u: nat, rest: Bytes, result: nat)
    requires result < 2097152 && u >= 128
    ensures Varint32Tail(Varint(u) + rest, result, 21)
            == Varint32Tail(Varint(u / 128) + rest, result + u % 128 * 2097152, 28)
  {
    assert Pow2(21) == 2097152 by { Pow2Values(); }
    LowByte(u, rest, result, 21, 2097152, u % 128 * 2097152);
  }

  lemma From14(u: nat, rest: Bytes, result: nat)
    requires result < 16384 && u / 128 >= 128
    ensures Varint32Tail(Varint(u) + rest, result, 14)
            == Varint32Tail(Varint(u / 128 / 128) + rest, result + u % 128 * 16384 + u / 128 % 128 * 2097152, 28)
  {
    assert Pow2(14) == 16384 by { Pow2Values(); }
    LowByte(u, rest, result, 14, 16384, u % 128 * 16384);
    From21(u / 128, rest, result + u % 128 * 16384);
  }

  lemma From7(u: nat, rest: Bytes, result: nat)
    requires result < 128 && u / 128 / 128 >= 128
    ensures Varint32Tail(Varint(u) + rest, result, 7)
            == Varint32Tail(Varint(u / 128 / 128 / 128) + rest,
                            result + u % 128 * 128 + u / 128 % 128 * 16384 + u / 128 / 128 % 128 * 2097152, 28)
  {
    assert Pow2(7) == 128 by { Pow2Values(); }
    LowByte(u, rest, result, 7, 128, u % 128 * 128);
    From14(u / 128, rest, result + u % 128 * 128);
  }

  /** The bytes before bit 28. */
  lemma ToBit28(v: nat, rest: Bytes)
    requires v >= 0x1000_0000
    ensures DecodeVarint32(Varint(v) + rest) == Varint32Tail(Varint(v / 0x1000_0000) + rest, v % 0x1000_0000, 28)
  {
    Parts(v);
    From7(v / 128, rest, v % 128);
    FirstByte(v, rest);
  }

  /** One that is no sign extension: the bits 63 and 31 alone. */
  lemma LooseExtension(v: nat, rest: Bytes)
    requires v == 0x8000_0000_8000_0000
    ensures DecodeVarint32(Varint(v) + rest) == Some((0x8000_0000, rest))
  {
    assert Extends(1, 0) && Extends(128, 1) && Extends(16384, 2) && Extends(2097152, 3);
    assert Extends(0x1000_0000, 4);
    Varint32IsExact(v, rest);
  }

  lemma FirstByte(v: nat, rest: Bytes)
    requires v >= 128
    ensures DecodeVarint32(Varint(v) + rest) == Varint32Tail(Varint(v / 128) + rest, v % 128, 7)
  {
    VarintHead(v, rest);
    SevenOf(v % 128);
    FirstGoesOn(Varint(v) + rest);
  }

  lemma SevenOf(x: nat)
    requires x < 128
    ensures (128 + x) % 128 == x
  {
  }

  lemma FirstGoesOn(s: Bytes)
    requires s != [] && s[0] >= 128
    ensures DecodeVarint32(s) == Varint32Tail(s[1..], s[0] % 128, 7)
  {
  }

  lemma LongVarint(v: nat, rest: Bytes)
    requires TWO_32 <= v < TWO_64
    ensures DecodeVarint32(Varint(v) + rest) == if SignLike(v) then Some((v % TWO_32, rest)) else None
  {
    var u := v / 0x1000_0000;
    ToBit28(v, rest);
    TopBits(v);
    assert u / 128 == v / 0x8_0000_0000 && u >= 16;
    From28(u, rest, v % 0x1000_0000);
    LowBits(v);
    if SignLike(v) { ExtendsIsLong(u / 128, 4); }
  }

  lemma LowBits(v: nat)
    ensures v % TWO_32 == v % 0x1000_0000 + v / 0x1000_0000 % 16 * 0x1000_0000
    ensures v % TWO_32 >= 0x8000_0000 <==> v / 0x8000_0000 % 2 == 1
  {
    var u, r := v / 0x1000_0000, v % 0x1000_0000;
    var q, d := u / 16, u % 16;
    Remainder(q, d * 0x1000_0000 + r);
    assert v == q * TWO_32 + (d * 0x1000_0000 + r);
    HighBit(v / TWO_32, v % TWO_32);
  }

  lemma HighBit(k: nat, w: nat)
    requires w < TWO_32
    ensures (k * TWO_32 + w) / 0x8000_0000 % 2 == w / 0x8000_0000
  {
    assert (k * TWO_32 + w) / 0x8000_0000 == 2 * k + w / 0x8000_0000;
  }
}
