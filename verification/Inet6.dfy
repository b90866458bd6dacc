/** IPv6 addresses as text, section 2.2 of RFC 4291, printed in the form of section 4 of RFC 5952. */
module Inet6 {
  import opened ByteStrings
  import opened UvErrors
  import opened Inet4

  type Word = w: int | 0 <= w < 0x10000

  // ----- Groups of sixteen bits

  function WordBytes(ws: seq<Word>): (r: Bytes)
    ensures |r| == 2 * |ws|
  {
    if ws == [] then [] else [ws[0] / 256, ws[0] % 256] + WordBytes(ws[1..])
  }

  function Words(src: Bytes): (r: seq<Word>)
    requires |src| % 2 == 0
    ensures 2 * |r| == |src|
  {
    if src == [] then []
    else
      var high: int, low: int := src[0], src[1];
      [high * 256 + low] + Words(src[2..])
  }

  lemma {:induction false} WordsRoundTrip(src: Bytes)
    requires |src| % 2 == 0
    ensures WordBytes(Words(src)) == src
  {
    if src != [] {
      WordsRoundTrip(src[2..]);
      assert src == [src[0], src[1]] + src[2..];
    }
  }

  lemma {:induction false} WordAt(src: Bytes, k: nat)
    requires |src| % 2 == 0 && 2 * k < |src|
    ensures var high: int, low: int := src[2 * k], src[2 * k + 1]; Words(src)[k] == high * 256 + low
  {
    if k > 0 { WordAt(src[2..], k - 1); }
  }

  /** Every byte is shifted to its half of its group. */
  method FillWords(src: Bytes) returns (ws: seq<Word>)
    requires |src| == 16
    ensures ws == Words(src)
  {
    var words := new Word[8](_ => 0);
    for i := 0 to 16
      invariant forall k :: 0 <= k < i / 2 ==> words[k] == Words(src)[k]
      invariant i % 2 == 1 ==> words[i / 2] == (src[i - 1] as int) * 256
      invariant forall k :: (i + 1) / 2 <= k < 8 ==> words[k] == 0
    {
      WordAt(src, i / 2);
      var b: int := src[i];
      words[i / 2] := words[i / 2] + (if i % 2 == 0 then b * 256 else b);
    }
    ws := words[..];
  }

  lemma {:induction false} WordBytesConcat(a: seq<Word>, b: seq<Word>)
    ensures WordBytes(a + b) == WordBytes(a) + WordBytes(b)
  {
    if a == [] {
      assert a + b == b;
    } else {
      assert (a + b)[1..] == a[1..] + b;
      WordBytesConcat(a[1..], b);
    }
  }

  lemma {:induction false} ZeroWords(ws: seq<Word>)
    requires forall i :: 0 <= i < |ws| ==> ws[i] == 0
    ensures WordBytes(ws) == Zeros(2 * |ws|)
  {
    if ws != [] { ZeroWords(ws[1..]); }
  }

  // ----- The longest run of zero groups

  predicate IsRun(ws: seq<Word>, b: int, l: int) {
    0 <= b && 0 < l && b + l <= |ws| && forall i :: b <= i < b + l ==> ws[i] == 0
  }

  /** Of the runs in the first `lim` groups, none is longer and none as long is further left. */
  ghost predicate IsBest(ws: seq<Word>, lim: int, base: int, len: int) {
    if base == -1 then forall b, l :: IsRun(ws, b, l) ==> b + l > lim
    else
      && IsRun(ws, base, len) && base + len <= lim
      && forall b, l :: IsRun(ws, b, l) && b + l <= lim ==> l < len || (l == len && base <= b)
  }

  /** The run that began at `cur` ends at `i`. */
  lemma {:induction false} BestOfBoth(ws: seq<Word>, cur: int, i: int, base: int, len: int)
    requires IsRun(ws, cur, i - cur) && (cur > 0 ==> ws[cur - 1] != 0) && IsBest(ws, cur, base, len)
    ensures if base == -1 || i - cur > len then IsBest(ws, i, cur, i - cur) else IsBest(ws, i, base, len)
  {
    forall b, l | IsRun(ws, b, l) && b + l <= i
      ensures b + l <= cur || (b >= cur && l <= i - cur)
    {
      if b < cur && b + l > cur { assert false; }
    }
  }

  /** A group that is not zero ends no run. */
  lemma {:induction false} BestOverNonzero(ws: seq<Word>, i: int, base: int, len: int)
    requires 0 <= i < |ws| && ws[i] != 0 && IsBest(ws, i, base, len)
    ensures IsBest(ws, i + 1, base, len)
  {
    forall b, l | IsRun(ws, b, l) && b + l <= i + 1
      ensures b + l <= i
    {
      if b + l == i + 1 { assert false; }
    }
  }

  /** The leftmost longest run of at least two zero groups, or -1. */
  method FindRun(ws: seq<Word>) returns (base: int, len: int)
    ensures base == -1 || (IsBest(ws, |ws|, base, len) && len >= 2)
    ensures base == -1 ==> forall b, l :: IsRun(ws, b, l) ==> l < 2
  {
    base, len := -1, 0;
    var curBase, curLen := -1, 0;
    for i := 0 to |ws|
      invariant curBase == -1 ==> IsBest(ws, i, base, len) && (i > 0 ==> ws[i - 1] != 0)
      invariant curBase != -1 ==> && IsRun(ws, curBase, curLen) && curBase + curLen == i
                                  && (curBase > 0 ==> ws[curBase - 1] != 0) && IsBest(ws, curBase, base, len)
    {
      if ws[i] == 0 {
        if curBase == -1 { curBase, curLen := i, 1; } else { curLen := curLen + 1; }
      } else {
        if curBase != -1 {
          BestOfBoth(ws, curBase, i, base, len);
          if base == -1 || curLen > len { base, len := curBase, curLen; }
          curBase := -1;
        }
        BestOverNonzero(ws, i, base, len);
      }
    }
    if curBase != -1 {
      BestOfBoth(ws, curBase, |ws|, base, len);
      if base == -1 || curLen > len { base, len := curBase, curLen; }
    }
    if base != -1 && len < 2 { base := -1; }
  }

  // ----- The printer

  function HexChar(d: nat): char
    requires d < 16
  {
    if d < 10 then '0' + d as char else 'a' + (d - 10) as char
  }

  function Hex(n: nat): (s: string)
    ensures |s| >= 1
  {
    if n < 16 then [HexChar(n)] else Hex(n / 16) + [HexChar(n % 16)]
  }

  /** Groups in hexadecimal, with colons between them. */
  function Groups(ws: seq<Word>): string {
    if ws == [] then "" else if |ws| == 1 then Hex(ws[0]) else Hex(ws[0]) + ":" + Groups(ws[1..])
  }

  lemma Colons(a: string, b: string, c: string)
    ensures a + ":" + (b + ":" + c) == a + ":" + b + ":" + c
  {
  }

  lemma {:induction false} GroupsSnoc(ws: seq<Word>, w: Word)
    ensures Groups(ws + [w]) == if ws == [] then Hex(w) else Groups(ws) + ":" + Hex(w)
  {
    if |ws| > 1 {
      assert (ws + [w])[1..] == ws[1..] + [w];
      GroupsSnoc(ws[1..], w);
      Colons(Hex(ws[0]), Groups(ws[1..]), Hex(w));
    } else if |ws| == 1 {
      assert (ws + [w])[1..] == [w];
    }
  }

  /** Whether the last two groups are printed as an IPv4 address. */
  predicate Embeds(ws: seq<Word>, base: int, len: int)
    requires |ws| == 8
  {
    base == 0 && (len == 6 || (len == 7 && ws[7] != 1) || (len == 5 && ws[5] == 0xffff))
  }

  /** What follows the compressed run. The last two groups can be an IPv4 address only if they are not
      in the run. */
  function AfterRun(src: Bytes, ws: seq<Word>, base: int, len: int): string
    requires |src| == 16 && |ws| == 8 && IsRun(ws, base, len)
  {
    if Embeds(ws, base, len) && len <= 6 then
      Groups(ws[len..6]) + (if len < 6 then ":" else "") + Text4(src[12..])
    else Groups(ws[base + len..])
  }

  function Text6(src: Bytes, base: int, len: int): string
    requires |src| == 16 && (base == -1 || IsRun(Words(src), base, len))
  {
    var ws := Words(src);
    if base == -1 then Groups(ws) else Groups(ws[..base]) + "::" + AfterRun(src, ws, base, len)
  }

  /** What is printed before group `i`. */
  function Printed(ws: seq<Word>, base: int, len: int, i: nat): string
    requires i <= |ws| && (base == -1 || IsRun(ws, base, len))
  {
    if base == -1 || i <= base then Groups(ws[..i])
    else if i <= base + len then Groups(ws[..base]) + ":"
    else Groups(ws[..base]) + "::" + Groups(ws[base + len..i])
  }

  lemma {:induction false} PrintedStep(ws: seq<Word>, base: int, len: int, i: nat)
    requires i < |ws| && (base == -1 || IsRun(ws, base, len))
    ensures Printed(ws, base, len, i + 1)
            == if base != -1 && base <= i < base + len then Printed(ws, base, len, i) + (if i == base then ":" else "")
               else Printed(ws, base, len, i) + (if i != 0 then ":" else "") + Hex(ws[i])
  {
    if base == -1 || i < base {
      assert ws[..i + 1] == ws[..i] + [ws[i]];
      GroupsSnoc(ws[..i], ws[i]);
    } else if i >= base + len {
      assert ws[base + len..i + 1] == ws[base + len..i] + [ws[i]];
      GroupsSnoc(ws[base + len..i], ws[i]);
      var left := Groups(ws[..base]);
      assert left + ":" + ":" == left + "::";
    }
  }

  lemma {:induction false} PrintedEnd(src: Bytes, ws: seq<Word>, base: int, len: int)
    requires |src| == 16 && ws == Words(src) && (base == -1 || IsRun(ws, base, len))
             && !(Embeds(ws, base, len) && len <= 6)
    ensures Text6(src, base, len) == Printed(ws, base, len, 8) + (if base != -1 && base + len == 8 then ":" else "")
  {
    assert ws[..8] == ws;
    if base != -1 {
      var left := Groups(ws[..base]);
      if base + len == 8 {
        assert ws[8..] == [];
        assert left + "::" + "" == left + ":" + ":";
      } else {
        assert ws[base + len..] == ws[base + len..8];
      }
    }
  }

  lemma JoinFive(g: string, v4: string)
    ensures "" + "::" + (g + ":" + v4) == "" + "::" + g + ":" + v4
  {
  }

  lemma JoinSix(v4: string)
    ensures "" + "::" + ("" + "" + v4) == "" + ":" + ":" + v4
  {
  }

  lemma {:induction false} PrintedEmbedded(src: Bytes, ws: seq<Word>, len: int)
    requires |src| == 16 && ws == Words(src) && IsRun(ws, 0, len) && Embeds(ws, 0, len) && len <= 6
    ensures Text6(src, 0, len) == Printed(ws, 0, len, 6) + ":" + Text4(src[12..])
  {
    assert ws[..0] == [] && Groups([]) == "";
    if len == 6 {
      assert ws[6..6] == [];
      JoinSix(Text4(src[12..]));
    } else {
      JoinFive(Groups(ws[5..6]), Text4(src[12..]));
    }
  }

  lemma {:induction false} HexLength(n: nat)
    requires n < 0x10000
    ensures |Hex(n)| <= 4
  {
    if n >= 16 {
      if n >= 256 { assert n / 16 / 16 < 256; }
      HexLengthBelow(n / 16);
    }
  }

  lemma {:induction false} HexLengthBelow(n: nat)
    requires n < 0x1000
    ensures |Hex(n)| <= 3
  {
    assert n >= 16 ==> Hex(n) == Hex(n / 16) + [HexChar(n % 16)];
    assert n >= 256 ==> Hex(n / 16) == Hex(n / 256) + [HexChar(n / 16 % 16)];
  }

  lemma {:induction false} GroupsLength(ws: seq<Word>)
    ensures |Groups(ws)| <= if ws == [] then 0 else 5 * |ws| - 1
  {
    if ws != [] {
      HexLength(ws[0]);
      GroupsLength(ws[1..]);
    }
  }

  lemma {:induction false} AfterRunLength(src: Bytes, ws: seq<Word>, base: int, len: int)
    requires |src| == 16 && |ws| == 8 && IsRun(ws, base, len) && len >= 2
    ensures |AfterRun(src, ws, base, len)| <= 39 - 5 * base
  {
    if Embeds(ws, base, len) && len <= 6 {
      GroupsLength(ws[len..6]);
      assert |Text4(src[12..])| <= 15;
    } else {
      GroupsLength(ws[base + len..]);
    }
  }

  /** The text and its end mark fit into the buffer of 46 characters. */
  lemma {:induction false} TextFits(src: Bytes, base: int, len: int)
    requires |src| == 16 && (base == -1 || (IsRun(Words(src), base, len) && len >= 2))
    ensures |Text6(src, base, len)| < 46
  {
    var ws := Words(src);
    if base == -1 {
      GroupsLength(ws);
    } else {
      GroupsLength(ws[..base]);
      AfterRunLength(src, ws, base, len);
    }
  }

  /** The leftmost longest run of at least two zero groups is the one that is left out. */
  ghost predicate IsCompressed(ws: seq<Word>, base: int, len: int) {
    if base == -1 then forall b, l :: IsRun(ws, b, l) ==> l < 2 else IsBest(ws, |ws|, base, len) && len >= 2
  }

  /** The loop that formats the groups. */
  method Format(src: Bytes, ws: seq<Word>, base: int, len: int) returns (tmp: string)
    requires |src| == 16 && ws == Words(src) && (base == -1 || IsRun(ws, base, len))
    ensures tmp == Text6(src, base, len)
  {
    tmp := "";
    assert ws[..0] == [];
    for i := 0 to 8
      invariant tmp == Printed(ws, base, len, i)
      invariant i > 6 ==> !(Embeds(ws, base, len) && len <= 6)
    {
      PrintedStep(ws, base, len, i);
      if base != -1 && base <= i < base + len {
        if i == base { tmp := tmp + ":"; }
        continue;
      }
      if i != 0 { tmp := tmp + ":"; }
      if i == 6 && Embeds(ws, base, len) {
        PrintedEmbedded(src, ws, len);
        TextFits(src, 0, len);
        var rc, v4 := Ntop4(src[12..], 46 - |tmp|);
        tmp := tmp + v4;
        return;
      }
      tmp := tmp + Hex(ws[i]);
    }
    PrintedEnd(src, ws, base, len);
    if base != -1 && base + len == 8 { tmp := tmp + ":"; }
  }

  /** `inet_ntop6`: a buffer of no size at all is not complained about. */
  method Ntop6(src: Bytes, size: nat) returns (rc: int, dst: string, ghost base: int, ghost len: int)
    requires |src| == 16
    ensures IsCompressed(Words(src), base, len)
    ensures rc == 0 || rc == UV_ENOSPC
    ensures rc == 0 <==> |Text6(src, base, len)| < size || size == 0
    ensures rc == 0 && size > 0 ==> dst == Text6(src, base, len)
  {
    var words := FillWords(src);
    var b, l := FindRun(words);
    base, len := b, l;
    var tmp := Format(src, words, b, l);
    if size > 0 && |tmp| >= size { return UV_ENOSPC, "", base, len; }
    return 0, tmp, base, len;
  }
}
