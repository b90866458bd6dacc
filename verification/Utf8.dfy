/** Reading one code point of UTF-8, section 3 of RFC 3629. Where the bits of two numbers do not
    overlap, their bitwise or is written as a sum. */
module Utf8 {
  import opened ByteStrings

  const INVALID: nat := 0xffff_ffff

  predicate IsScalar(c: nat) {
    c <= 0x10ffff && !(0xd800 <= c <= 0xdfff)
  }

  /** The encoding that the standard prescribes. */
  function Encode(c: nat): Bytes
    requires IsScalar(c)
  {
    if c < 0x80 then [c]
    else if c < 0x800 then [0xc0 + c / 0x40, 0x80 + c % 0x40]
    else if c < 0x10000 then [0xe0 + c / 0x1000, 0x80 + c / 0x40 % 0x40, 0x80 + c % 0x40]
    else [0xf0 + c / 0x40000, 0x80 + c / 0x1000 % 0x40, 0x80 + c / 0x40 % 0x40, 0x80 + c % 0x40]
  }

  /** The examples of section 7 that are outside ASCII: Not identical to, capital Alpha, a Hangul syllable, a
      kanji and a Han character beyond 16 bits. */
  lemma EncodedSamples()
    ensures Encode(0x2262) == [0xe2, 0x89, 0xa2] && Encode(0x391) == [0xce, 0x91]
    ensures Encode(0xd55c) == [0xed, 0x95, 0x9c] && Encode(0x65e5) == [0xe6, 0x97, 0xa5]
    ensures Encode(0x233b4) == [0xf0, 0xa3, 0x8e, 0xb4]
  {
  }

  predicate IsContinuation(b: Byte) {
    0x80 <= b < 0xc0
  }

  /** The exclusive or of the three bytes has the top bits of a continuation byte. */
  predicate TopBits(b: Byte, c: Byte, d: Byte) {
    (b / 128 + c / 128 + d / 128) % 2 == 1 && (b / 64 + c / 64 + d / 64) % 2 == 0
  }

  /** The checks after the bytes are fetched. */
  function Combine(a: nat, b: Byte, c: Byte, d: Byte, min: nat): nat {
    var r := a * 0x40000 + b % 64 * 0x1000 + c % 64 * 0x40 + d % 64;
    if !TopBits(b, c, d) then INVALID
    else if r < min || r > 0x10ffff || 0xd800 <= r <= 0xdfff then INVALID
    else r
  }

  /** How many bytes a lead byte asks for; the byte alone when it cannot lead. */
  function Length(a: Byte): nat {
    if a > 0xf7 then 1 else if a > 0xef then 4 else if a > 0xdf then 3 else if a > 0xbf then 2 else 1
  }

  /** `uv__utf8_decode1`: the code point or the greatest integer, and the bytes left. */
  function Decode1(s: Bytes): (r: (nat, Bytes))
    requires s != [] && Length(s[0]) <= |s|
    ensures |r.1| < |s|
  {
    var a := s[0];
    if a < 128 then (a, s[1..])
    else if a > 0xf7 then (INVALID, s[1..])
    else if a > 0xef then (Combine(a % 8, s[1], s[2], s[3], 0x10000), s[4..])
    else if a > 0xdf then (Combine(0, 0x80 + a % 16, s[1], s[2], 0x800), s[3..])
    else if a > 0xbf then (Combine(0, 0x80, 0x80 + a % 32, s[1], 0x80), s[2..])
    else (INVALID, s[1..])
  }

  // ----- Groups of six bits

  lemma Groups(c: nat)
    ensures c / 0x1000 == c / 0x40 / 0x40 && c / 0x40000 == c / 0x1000 / 0x40
    ensures c == c / 0x40000 * 0x40000 + c / 0x1000 % 0x40 * 0x1000 + c / 0x40 % 0x40 * 0x40 + c % 0x40
  {
  }

  lemma GroupsBack(a: nat, x: nat, y: nat, z: nat, r: nat)
    requires x < 0x40 && y < 0x40 && z < 0x40 && r == a * 0x40000 + x * 0x1000 + y * 0x40 + z
    ensures r / 0x40000 == a && r / 0x1000 % 0x40 == x && r / 0x40 % 0x40 == y && r % 0x40 == z
  {
    assert r / 0x40 == a * 0x1000 + x * 0x40 + y;
    assert r / 0x1000 == a * 0x40 + x;
  }

  lemma Continues(v: nat)
    requires v < 0x40
    ensures IsContinuation(0x80 + v) && (0x80 + v) % 64 == v && (0x80 + v) / 64 == 2 && (0x80 + v) / 128 == 1
  {
  }

  lemma TopBitsOf(b: Byte, c: Byte, d: Byte)
    requires IsContinuation(b) && IsContinuation(c) && IsContinuation(d)
    ensures TopBits(b, c, d)
  {
  }

  /** Three continuation bytes with the bits of a scalar value. */
  lemma CombineIs(a: nat, x: nat, y: nat, z: nat, min: nat, r: nat)
    requires x < 0x40 && y < 0x40 && z < 0x40 && r == a * 0x40000 + x * 0x1000 + y * 0x40 + z
    ensures Combine(a, 0x80 + x, 0x80 + y, 0x80 + z, min) == if min <= r && IsScalar(r) then r else INVALID
  {
    Continues(x);
    Continues(y);
    Continues(z);
    TopBitsOf(0x80 + x, 0x80 + y, 0x80 + z);
  }

  /** The bytes of a long, a three-byte and a two-byte encoding, from the groups of six bits. */
  lemma EncodeFromGroups(a: nat, x: nat, y: nat, z: nat, c: nat)
    requires x < 0x40 && y < 0x40 && z < 0x40 && c == a * 0x40000 + x * 0x1000 + y * 0x40 + z && IsScalar(c)
    ensures c >= 0x10000 ==> Encode(c) == [0xf0 + a, 0x80 + x, 0x80 + y, 0x80 + z] && a < 8
    ensures 0x800 <= c < 0x10000 ==> Encode(c) == [0xe0 + x, 0x80 + y, 0x80 + z] && a == 0 && x < 16
    ensures 0x80 <= c < 0x800 ==> Encode(c) == [0xc0 + y, 0x80 + z] && a == 0 && x == 0 && y < 32
  {
    GroupsBack(a, x, y, z, c);
    Groups(c);
  }

  lemma LeadBits(a: nat)
    ensures a < 8 ==> (0xf0 + a) % 8 == a
    ensures a < 16 ==> (0xe0 + a) % 16 == a
    ensures a < 32 ==> (0xc0 + a) % 32 == a
  {
  }

  /** What follows the bytes of a code point is left. */
  lemma DecodePrefix(e: Bytes, rest: Bytes)
    requires e != [] && Length(e[0]) == |e|
    ensures Decode1(e + rest) == (Decode1(e).0, rest)
  {
    var s := e + rest;
    assert s[|e|..] == rest;
    assert forall i :: 0 <= i < |e| ==> s[i] == e[i];
  }

  lemma DecodeAlone(c: nat)
    requires IsScalar(c)
    ensures Length(Encode(c)[0]) == |Encode(c)| && Decode1(Encode(c)).0 == c
  {
    if c >= 0x80 { LeadAndRest(c); }
  }

  /** Every scalar value is read back. */
  lemma DecodeUndoesEncode(c: nat, rest: Bytes)
    requires IsScalar(c)
    ensures var s := Encode(c) + rest; Length(s[0]) <= |s| && Decode1(s) == (c, rest)
  {
    DecodeAlone(c);
    DecodePrefix(Encode(c), rest);
  }

  lemma LeadAndRest(c: nat)
    requires IsScalar(c) && c >= 0x80
    ensures var e := Encode(c);
            && |e| == Length(e[0])
            && (c >= 0x10000 ==> Combine(e[0] % 8, e[1], e[2], e[3], 0x10000) == c)
            && (0x800 <= c < 0x10000 ==> Combine(0, 0x80 + e[0] % 16, e[1], e[2], 0x800) == c)
            && (c < 0x800 ==> Combine(0, 0x80, 0x80 + e[0] % 32, e[1], 0x80) == c)
  {
    var a, x, y, z := SixBits(c);
    EncodeFromGroups(a, x, y, z, c);
    if c >= 0x10000 {
      CombineIs(a, x, y, z, 0x10000, c);
      LeadBits(a);
    } else if c >= 0x800 {
      CombineIs(0, x, y, z, 0x800, c);
      LeadBits(x);
    } else {
      CombineIs(0, 0, y, z, 0x80, c);
      LeadBits(y);
    }
  }

  lemma SixBits(c: nat) returns (a: nat, x: nat, y: nat, z: nat)
    ensures x < 0x40 && y < 0x40 && z < 0x40 && c == a * 0x40000 + x * 0x1000 + y * 0x40 + z
  {
    a, x, y, z := c / 0x40000, c / 0x1000 % 0x40, c / 0x40 % 0x40, c % 0x40;
    Groups(c);
  }

  /** What is read from a lead byte with bits `a` and continuation bytes is encoded as just these. */
  lemma Back(a: nat, x: nat, y: nat, z: nat, min: nat)
    requires x < 0x40 && y < 0x40 && z < 0x40 && min >= 0x80
    ensures var r := Combine(a, 0x80 + x, 0x80 + y, 0x80 + z, min);
            r != INVALID ==> && IsScalar(r) && r >= min
                             && (min == 0x10000 ==> Encode(r) == [0xf0 + a, 0x80 + x, 0x80 + y, 0x80 + z])
                             && (min == 0x800 && a == 0 && x < 16 ==> Encode(r) == [0xe0 + x, 0x80 + y, 0x80 + z])
                             && (min == 0x80 && a == 0 && x == 0 && y < 32 ==> Encode(r) == [0xc0 + y, 0x80 + z])
  {
    var r := a * 0x40000 + x * 0x1000 + y * 0x40 + z;
    CombineIs(a, x, y, z, min, r);
    if IsScalar(r) { EncodeFromGroups(a, x, y, z, r); }
  }

  /** The bytes after the lead byte are continuation bytes. */
  predicate Continued(s: Bytes)
    requires s != [] && Length(s[0]) <= |s|
  {
    forall i :: 1 <= i < Length(s[0]) ==> IsContinuation(s[i])
  }

  /** When they are, only the encoding of a code point is read as that code point: overlong forms,
      surrogates and values out of range are refused. */
  lemma ContinuedIsExact(s: Bytes)
    requires s != [] && Length(s[0]) <= |s| && Continued(s)
    ensures var (c, rest) := Decode1(s); c != INVALID ==> IsScalar(c) && s == Encode(c) + rest
  {
    var n := Length(s[0]);
    if n == 4 {
      ContinuedIsExact4(s);
    } else if n == 3 {
      ContinuedIsExact3(s);
    } else {
      ContinuedIsExact2(s);
    }
  }

  lemma ContinuedIsExact4(s: Bytes)
    requires s != [] && Length(s[0]) == 4 <= |s| && Continued(s)
    ensures var (c, rest) := Decode1(s); c != INVALID ==> IsScalar(c) && s == Encode(c) + rest
  {
    Back(s[0] - 0xf0, s[1] - 0x80, s[2] - 0x80, s[3] - 0x80, 0x10000);
    LeadBits(s[0] - 0xf0);
    assert s == [s[0], s[1], s[2], s[3]] + s[4..];
  }

  lemma ContinuedIsExact3(s: Bytes)
    requires s != [] && Length(s[0]) == 3 <= |s| && Continued(s)
    ensures var (c, rest) := Decode1(s); c != INVALID ==> IsScalar(c) && s == Encode(c) + rest
  {
    Back(0, s[0] - 0xe0, s[1] - 0x80, s[2] - 0x80, 0x800);
    LeadBits(s[0] - 0xe0);
    assert s == [s[0], s[1], s[2]] + s[3..];
  }

  lemma ContinuedIsExact2(s: Bytes)
    requires s != [] && Length(s[0]) <= 2 && Length(s[0]) <= |s| && Continued(s)
    ensures var (c, rest) := Decode1(s); c != INVALID ==> IsScalar(c) && s == Encode(c) + rest
  {
    var n := Length(s[0]);
    assert s == s[..n] + s[n..];
    if n == 2 {
      Back(0, 0, s[0] - 0xc0, s[1] - 0x80, 0x80);
      LeadBits(s[0] - 0xc0);
      assert s[..2] == [s[0], s[1]];
    } else {
      assert s[..1] == [s[0]];
    }
  }

  lemma EncodedIsContinued(c: nat, i: nat)
    requires IsScalar(c) && 1 <= i < |Encode(c)|
    ensures IsContinuation(Encode(c)[i])
  {
    var a, x, y, z := SixBits(c);
    EncodeFromGroups(a, x, y, z, c);
  }

  /** What is read is a scalar value, and the bytes are its encoding exactly if they continue properly:
      the bytes after the lead byte are only tested together. */
  lemma DecodeIsExact(s: Bytes)
    requires s != [] && Length(s[0]) <= |s|
    ensures var (c, rest) := Decode1(s); c != INVALID ==> IsScalar(c) && (s == Encode(c) + rest <==> Continued(s))
  {
    var (c, rest) := Decode1(s);
    if c != INVALID {
      if Continued(s) { ContinuedIsExact(s); }
      if s == Encode(c) + rest {
        assert Length(s[0]) == |Encode(c)|;
        forall i | 1 <= i < Length(s[0]) ensures IsContinuation(s[i]) {
          EncodedIsContinued(c, i);
        }
      }
    }
  }

  lemma LettersCombine(a: nat, x: nat, y: nat, r: nat)
    requires a < 16 && x < 0x40 && y < 0x40 && r == a * 0x1000 + x * 0x40 + y
    ensures Combine(0, 0x80 + a, 0x40 + x, 0x40 + y, 0x800) == if 0x800 <= r && IsScalar(r) then r else INVALID
  {
    Continues(a);
    assert TopBits(0x80 + a, 0x40 + x, 0x40 + y) && (0x40 + x) % 64 == x && (0x40 + y) % 64 == y;
  }

  lemma ThreeBytes(s: Bytes)
    requires |s| == 3 && 0xdf < s[0] <= 0xef
    ensures Decode1(s) == (Combine(0, 0x80 + s[0] % 16, s[1], s[2], 0x800), [])
  {
  }

  /** Two letters after a lead byte pass for continuation bytes. */
  lemma LettersPass(s: Bytes)
    requires s == [0xe1, 0x41, 0x42]
    ensures Length(s[0]) == 3 && Decode1(s) == (0x1042, []) && !Continued(s)
  {
    ThreeBytes(s);
    LettersCombine(1, 1, 2, 0x1042);
    assert !IsContinuation(s[1]);
  }

  // ----- Whole texts

  function EncodeAll(cs: seq<nat>): Bytes
    requires forall i :: 0 <= i < |cs| ==> IsScalar(cs[i])
  {
    if cs == [] then [] else Encode(cs[0]) + EncodeAll(cs[1..])
  }

  /** The code points of a text, as the loops over a label see them; `None` when the last one is cut. */
  function DecodeAll(s: Bytes): Option<seq<nat>> {
    if s == [] then Some([])
    else if Length(s[0]) > |s| then None
    else
      var (c, rest) := Decode1(s);
      match DecodeAll(rest)
      case None => None
      case Some(cs) => Some([c] + cs)
  }

  lemma {:induction false} TextRoundTrip(cs: seq<nat>)
    requires forall i :: 0 <= i < |cs| ==> IsScalar(cs[i])
    ensures DecodeAll(EncodeAll(cs)) == Some(cs)
  {
    if cs != [] {
      TextRoundTrip(cs[1..]);
      DecodeUndoesEncode(cs[0], EncodeAll(cs[1..]));
      assert cs == [cs[0]] + cs[1..];
    }
  }
}
