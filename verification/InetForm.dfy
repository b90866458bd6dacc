/** The form in which addresses are printed: decimal numbers, lower-case hexadecimal ones without leading
    zeros, and an IPv4 address exactly where section 2.5.5 of RFC 4291 has one. */
module InetForm {
  import opened ByteStrings
  import opened Inet4
  import opened Inet6

  // ----- Numbers

  /** The number that decimal digits stand for. */
  function DecimalValue(s: string): int {
    if s == "" then 0 else DecimalValue(s[..|s| - 1]) * 10 + (s[|s| - 1] as int - '0' as int)
  }

  predicate IsDecimal(s: string) {
    forall i :: 0 <= i < |s| ==> '0' <= s[i] <= '9'
  }

  lemma DecimalSnoc(s: string, n: nat)
    requires n < 10
    ensures DecimalValue(s + [Decimal(n)]) == DecimalValue(s) * 10 + n
  {
    assert (s + [Decimal(n)])[..|s|] == s;
  }

  predicate IsNumeral(s: string, n: nat) {
    s != "" && IsDecimal(s) && DecimalValue(s) == n && (s[0] == '0' ==> s == "0")
  }

  lemma NumeralSnoc(s: string, n: nat, d: nat)
    requires IsNumeral(s, n) && n > 0 && d < 10
    ensures IsNumeral(s + [Decimal(d)], 10 * n + d)
  {
    DecimalSnoc(s, d);
    DecimalSnoc("", 0);
    assert "" + [Decimal(0)] == "0";
  }

  lemma DigitIsNumeral(n: nat)
    requires n < 10
    ensures IsNumeral([Decimal(n)], n)
  {
    DecimalSnoc("", n);
    assert "" + [Decimal(n)] == [Decimal(n)];
  }

  lemma TwoDigits(a: nat, b: nat)
    requires 0 < a < 10 && b < 10
    ensures IsNumeral([Decimal(a), Decimal(b)], 10 * a + b)
  {
    DigitIsNumeral(a);
    NumeralSnoc([Decimal(a)], a, b);
    assert [Decimal(a)] + [Decimal(b)] == [Decimal(a), Decimal(b)];
  }

  /** Each byte is printed as a decimal number without leading zeros. */
  lemma OctetIs(n: Byte)
    ensures IsNumeral(Octet(n), n)
  {
    if n < 10 {
      DigitIsNumeral(n);
    } else if n < 100 {
      TwoDigits(n / 10, n % 10);
    } else {
      var a, b, c := n / 100, n / 10 % 10, n % 10;
      assert n == 10 * (10 * a + b) + c;
      TwoDigits(a, b);
      NumeralSnoc([Decimal(a), Decimal(b)], 10 * a + b, c);
      assert [Decimal(a), Decimal(b)] + [Decimal(c)] == [Decimal(a), Decimal(b), Decimal(c)];
    }
  }

  function HexDigitValue(c: char): int {
    if '0' <= c <= '9' then c as int - '0' as int else c as int - 'a' as int + 10
  }

  function HexNumber(s: string): int {
    if s == "" then 0 else HexNumber(s[..|s| - 1]) * 16 + HexDigitValue(s[|s| - 1])
  }

  predicate IsLowerHex(s: string) {
    forall i :: 0 <= i < |s| ==> '0' <= s[i] <= '9' || 'a' <= s[i] <= 'f'
  }

  /** Each group is printed as a lower-case hexadecimal number without leading zeros. */
  lemma {:induction false} HexIs(n: nat)
    ensures IsLowerHex(Hex(n)) && HexNumber(Hex(n)) == n && (Hex(n)[0] == '0' ==> Hex(n) == "0")
  {
    var s := Hex(n);
    if n < 16 {
      assert s[..0] == "";
    } else {
      HexIs(n / 16);
      assert s[..|s| - 1] == Hex(n / 16);
    }
  }

  // ----- Where an IPv4 address is

  lemma {:induction false} NoStopInGroups(ws: seq<Word>)
    ensures '.' !in Groups(ws)
  {
    if ws != [] {
      HexIs(ws[0]);
      NoStopInGroups(ws[1..]);
    }
  }

  /** The groups of an IPv4-mapped address, or of an IPv4-compatible one that has something in the first half of
      the IPv4 address. */
  predicate HoldsIPv4(ws: seq<Word>)
    requires |ws| == 8
  {
    && ws[0] == ws[1] == ws[2] == ws[3] == ws[4] == 0
    && (ws[5] == 0xffff || (ws[5] == 0 && ws[6] != 0))
  }

  /** The run that is left out of such addresses. */
  lemma RunOf(ws: seq<Word>, base: int, len: int)
    requires |ws| == 8 && IsCompressed(ws, base, len)
    ensures HoldsIPv4(ws) <==> base != -1 && len <= 6 && Embeds(ws, base, len)
  {
    if HoldsIPv4(ws) {
      assert IsRun(ws, 0, if ws[5] == 0 then 6 else 5);
      assert base != -1 && IsRun(ws, base, len) && len >= 5 && base <= 3;
      if ws[5] != 0 {
        assert !(base <= 5 < base + len);
      } else {
        assert !(base <= 6 < base + len);
      }
    } else if base == 0 && len == 6 {
      assert forall i :: 0 <= i < 6 ==> ws[i] == 0;
      assert IsRun(ws, 0, 7);
    } else if base == 0 && len == 5 {
      assert forall i :: 0 <= i < 5 ==> ws[i] == 0;
    }
  }

  /** An IPv4 address is printed in an IPv6 address exactly if the groups say so. */
  lemma DottedIff(src: Bytes, base: int, len: int)
    requires |src| == 16 && IsCompressed(Words(src), base, len)
    ensures base == -1 || IsRun(Words(src), base, len)
    ensures '.' in Text6(src, base, len) <==> HoldsIPv4(Words(src))
  {
    var ws := Words(src);
    RunOf(ws, base, len);
    if base == -1 {
      NoStopInGroups(ws);
    } else {
      NoStopInGroups(ws[..base]);
      if Embeds(ws, base, len) && len <= 6 {
        StopInside(src[12..]);
      } else {
        NoStopInGroups(ws[base + len..]);
      }
    }
  }

  lemma StopInside(q: Bytes)
    requires |q| == 4
    ensures '.' in Text4(q)
  {
    var s := Octet(q[0]) + ".";
    assert s[|s| - 1] == '.' && s <= Text4(q) && Text4(q)[|s| - 1] == '.';
  }
}
