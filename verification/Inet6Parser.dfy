/** Reading IPv6 addresses. */
module Inet6Parser {
  import opened ByteStrings
  import opened Inet4
  import opened Inet6

  /** The bytes read, where the double colon was (or -1), and the digits of the group begun. */
  datatype Scan = Scan(bytes: Bytes, colon: int, seen: nat, val: nat)

  function HexOf(ch: char): (r: Option<nat>)
    ensures r.Some? ==> r.value < 16
  {
    if '0' <= ch <= '9' then Some((ch - '0') as nat)
    else if 'a' <= ch <= 'f' then Some((ch - 'a') as nat + 10)
    else if 'A' <= ch <= 'F' then Some((ch - 'A') as nat + 10)
    else None
  }

  ghost predicate Wf(st: Scan) {
    |st.bytes| <= 16 && -1 <= st.colon <= |st.bytes|
  }

  /** A group's two bytes. */
  function Pair(val: nat): Bytes {
    [val / 256 % 256, val % 256]
  }

  /** `cur` is the text from the last colon on, for the sake of an IPv4 address there. */
  function Run6(s: string, cur: string, st: Scan): (r: Option<Scan>)
    requires Wf(st)
    ensures r.Some? ==> Wf(r.value)
  {
    if s == "" then Some(st)
    else if HexOf(s[0]).Some? then
      if st.seen + 1 > 4 then None
      else Run6(s[1..], cur, st.(seen := st.seen + 1, val := st.val * 16 + HexOf(s[0]).value))
    else if s[0] == ':' then
      if st.seen == 0 then
        if st.colon != -1 then None else Run6(s[1..], s[1..], st.(colon := |st.bytes|))
      else if s[1..] == "" || |st.bytes| + 2 > 16 then None
      else Run6(s[1..], s[1..], st.(bytes := st.bytes + Pair(st.val), seen := 0, val := 0))
    else if s[0] == '.' && |st.bytes| + 4 <= 16 then
      match Parse4(cur)
      case None => None
      case Some(q) => Some(st.(bytes := st.bytes + q, seen := 0))
    else None
  }

  /** The bytes in front of position `colon`, zeros, and the others at the end. */
  function Spread(bytes: Bytes, colon: nat): (r: Bytes)
    requires colon <= |bytes| <= 16
    ensures |r| == 16
  {
    bytes[..colon] + Zeros(16 - |bytes|) + bytes[colon..]
  }

  function Finish(st: Scan): (r: Option<Bytes>)
    requires Wf(st)
    ensures r.Some? ==> |r.value| == 16
  {
    if st.seen > 0 && |st.bytes| + 2 > 16 then None
    else
      var bytes := if st.seen > 0 then st.bytes + Pair(st.val) else st.bytes;
      if st.colon != -1 then if |bytes| == 16 then None else Some(Spread(bytes, st.colon))
      else if |bytes| == 16 then Some(bytes)
      else None
  }

  const EMPTY := Scan([], -1, 0, 0)

  /** `inet_pton6`: a leading colon must be a double one. */
  function Parse6(s: string): Option<Bytes> {
    var t := if s != "" && s[0] == ':' then s[1..] else s;
    if s != "" && s[0] == ':' && (t == "" || t[0] != ':') then None
    else
      match Run6(t, t, EMPTY)
      case None => None
      case Some(st) => Finish(st)
  }

  // ----- Reading what the printer prints

  lemma {:induction false} FirstOf(ch: char, s: string, cur: string, st: Scan)
    requires Wf(st)
    ensures ([ch] + s)[1..] == s && ([ch] + s)[0] == ch
  {
  }

  ghost predicate Fresh(st: Scan) {
    Wf(st) && st.seen == 0 && st.val == 0
  }

  lemma {:induction false} HexRuns(n: nat, rest: string, cur: string, st: Scan)
    requires Fresh(st) && |Hex(n)| <= 4
    ensures Run6(Hex(n) + rest, cur, st) == Run6(rest, cur, st.(seen := |Hex(n)|, val := n))
  {
    if n < 16 {
      FirstOf(HexChar(n), rest, cur, st);
    } else {
      var d := HexChar(n % 16);
      HexRuns(n / 16, [d] + rest, cur, st);
      assert Hex(n) + rest == Hex(n / 16) + ([d] + rest);
      FirstOf(d, rest, cur, st);
      assert HexOf(d) == Some(n % 16);
    }
  }

  lemma PairOf(w: Word)
    ensures Pair(w) == WordBytes([w])
  {
    assert [w][1..] == [];
  }

  /** A group and the colon behind it. */
  lemma {:induction false} GroupRuns(w: Word, rest: string, cur: string, st: Scan)
    requires Fresh(st) && rest != "" && |st.bytes| + 2 <= 16
    ensures Run6(Hex(w) + ":" + rest, cur, st) == Run6(rest, rest, st.(bytes := st.bytes + WordBytes([w])))
  {
    HexLength(w);
    HexRuns(w, ":" + rest, cur, st);
    assert Hex(w) + ":" + rest == Hex(w) + (":" + rest);
    assert ":" + rest == [':'] + rest;
    FirstOf(':', rest, cur, st);
    PairOf(w);
  }

  lemma {:induction false} WordBytesCons(bytes: Bytes, ws: seq<Word>)
    requires ws != []
    ensures bytes + WordBytes([ws[0]]) + WordBytes(ws[1..]) == bytes + WordBytes(ws)
  {
    WordBytesConcat([ws[0]], ws[1..]);
    assert ws == [ws[0]] + ws[1..];
  }

  /** Groups, each with a colon behind it. */
  lemma {:induction false} GroupsRun(ws: seq<Word>, rest: string, cur: string, st: Scan)
    requires Fresh(st) && rest != "" && |st.bytes| + 2 * |ws| <= 16 && ws != []
    ensures Run6(Groups(ws) + ":" + rest, cur, st) == Run6(rest, rest, st.(bytes := st.bytes + WordBytes(ws)))
    decreases |ws|
  {
    if |ws| == 1 {
      GroupRuns(ws[0], rest, cur, st);
      assert ws == [ws[0]];
    } else {
      var later := Groups(ws[1..]) + ":" + rest;
      Colons(Hex(ws[0]), Groups(ws[1..]), rest);
      GroupRuns(ws[0], later, cur, st);
      var st' := st.(bytes := st.bytes + WordBytes([ws[0]]));
      GroupsRun(ws[1..], rest, later, st');
      WordBytesCons(st.bytes, ws);
    }
  }

  /** Reading the text to the end yields these bytes. */
  ghost predicate Ends(s: string, cur: string, st: Scan, bytes: Bytes)
    requires Wf(st)
  {
    |bytes| <= 16 && st.colon <= |bytes|
    && match Run6(s, cur, st)
       case None => false
       case Some(st') => Finish(st') == Finish(st.(bytes := bytes, seen := 0, val := 0))
  }

  lemma {:induction false} GroupsEnd(ws: seq<Word>, cur: string, st: Scan)
    requires Fresh(st) && |st.bytes| + 2 * |ws| <= 16
    ensures Ends(Groups(ws), cur, st, st.bytes + WordBytes(ws))
    decreases |ws|
  {
    if ws == [] {
      assert st.bytes + [] == st.bytes;
    } else if |ws| == 1 {
      HexLength(ws[0]);
      HexRuns(ws[0], "", cur, st);
      assert Hex(ws[0]) + "" == Hex(ws[0]) && ws == [ws[0]];
      PairOf(ws[0]);
    } else {
      GroupsNonempty(ws[1..]);
      GroupRuns(ws[0], Groups(ws[1..]), cur, st);
      var st' := st.(bytes := st.bytes + WordBytes([ws[0]]));
      GroupsEnd(ws[1..], Groups(ws[1..]), st');
      WordBytesCons(st.bytes, ws);
    }
  }

  lemma {:induction false} GroupsNonempty(ws: seq<Word>)
    requires ws != []
    ensures Groups(ws) != "" && Groups(ws)[0] != ':'
  {
    HexStarts(ws[0]);
  }

  lemma {:induction false} HexStarts(n: nat)
    ensures Hex(n)[0] != ':'
  {
    if n >= 16 { HexStarts(n / 16); }
  }

  /** Decimal digits are read as hexadecimal ones until a full stop shows what they are. */
  lemma {:induction false} DigitRuns(d: nat, rest: string, cur: string, st: Scan) returns (st': Scan)
    requires Wf(st) && d < 10 && st.seen < 4
    ensures st' == st.(seen := st.seen + 1, val := st.val * 16 + d) && Wf(st')
    ensures Run6([Decimal(d)] + rest, cur, st) == Run6(rest, cur, st')
  {
    st' := st.(seen := st.seen + 1, val := st.val * 16 + d);
    FirstOf(Decimal(d), rest, cur, st);
    assert HexOf(Decimal(d)) == Some(d);
  }

  lemma {:induction false} OctetRuns6(n: Byte, rest: string, cur: string, st: Scan) returns (st': Scan)
    requires Fresh(st)
    ensures st' == st.(seen := st'.seen, val := st'.val) && Wf(st') && st'.seen > 0
    ensures Run6(Octet(n) + rest, cur, st) == Run6(rest, cur, st')
  {
    if n < 10 {
      st' := DigitRuns(n, rest, cur, st);
    } else if n < 100 {
      var s1 := [Decimal(n % 10)] + rest;
      assert Octet(n) + rest == [Decimal(n / 10)] + s1;
      st' := DigitRuns(n / 10, s1, cur, st);
      st' := DigitRuns(n % 10, rest, cur, st');
    } else {
      var s2 := [Decimal(n % 10)] + rest;
      var s1 := [Decimal(n / 10 % 10)] + s2;
      assert Octet(n) + rest == [Decimal(n / 100)] + s1;
      st' := DigitRuns(n / 100, s1, cur, st);
      st' := DigitRuns(n / 10 % 10, s2, cur, st');
      st' := DigitRuns(n % 10, rest, cur, st');
    }
  }

  lemma {:induction false} EmbeddedEnds(q: Bytes, st: Scan)
    requires |q| == 4 && Fresh(st) && |st.bytes| + 4 <= 16
    ensures Ends(Text4(q), Text4(q), st, st.bytes + q)
  {
    var tail := Octet(q[1]) + "." + Octet(q[2]) + "." + Octet(q[3]);
    var s := Text4(q);
    assert s == Octet(q[0]) + (['.'] + tail);
    var st' := OctetRuns6(q[0], ['.'] + tail, s, st);
    FirstOf('.', tail, s, st');
    PrintedParses(q);
  }

  lemma {:induction false} LastWords(src: Bytes)
    requires |src| == 16
    ensures WordBytes(Words(src)[6..]) == src[12..] && WordBytes(Words(src)[..6]) == src[..12]
  {
    var ws := Words(src);
    WordsRoundTrip(src);
    WordBytesConcat(ws[..6], ws[6..]);
    assert ws == ws[..6] + ws[6..];
  }

  /** What follows the double colon. */
  lemma {:induction false} AfterRunEnds(src: Bytes, base: int, len: int, st: Scan)
    requires |src| == 16 && IsRun(Words(src), base, len) && Fresh(st) && |st.bytes| == 2 * base
    ensures var ws, after := Words(src), AfterRun(src, Words(src), base, len);
            Ends(after, after, st, st.bytes + WordBytes(ws[base + len..]))
  {
    var ws, after := Words(src), AfterRun(src, Words(src), base, len);
    if Embeds(ws, base, len) && len <= 6 {
      var v4 := Text4(src[12..]);
      LastWords(src);
      if len == 6 {
        assert ws[6..6] == [] && "" + "" + v4 == v4;
        EmbeddedEnds(src[12..], st);
      } else {
        var w := ws[5..6];
        var st' := st.(bytes := st.bytes + WordBytes(w));
        GroupsRun(w, v4, after, st);
        EmbeddedEnds(src[12..], st');
        WordBytesConcat(w, ws[6..]);
        assert ws[5..] == w + ws[6..];
        assert st.bytes + (WordBytes(w) + src[12..]) == st.bytes + WordBytes(w) + src[12..];
      }
    } else {
      GroupsEnd(ws[base + len..], after, st);
    }
  }

  lemma {:induction false} SpreadOf(a: Bytes, b: Bytes, n: nat)
    requires |a| + n + |b| == 16
    ensures Spread(a + b, |a|) == a + (Zeros(n) + b)
  {
    var bytes := a + b;
    assert bytes[..|a|] == a && bytes[|a|..] == b;
  }

  lemma {:induction false} SpreadRestores(src: Bytes, base: int, len: int)
    requires |src| == 16 && IsRun(Words(src), base, len)
    ensures var ws := Words(src); Spread(WordBytes(ws[..base]) + WordBytes(ws[base + len..]), 2 * base) == src
  {
    var ws := Words(src);
    var a, z, b := ws[..base], ws[base..base + len], ws[base + len..];
    WordsRoundTrip(src);
    assert ws == a + (z + b);
    WordBytesConcat(a, z + b);
    WordBytesConcat(z, b);
    ZeroWords(z);
    SpreadOf(WordBytes(a), WordBytes(b), 2 * len);
  }

  /** The text from the second colon of the double colon on. */
  lemma {:induction false} ColonRuns(after: string, cur: string, st: Scan)
    requires Fresh(st) && st.colon == -1
    ensures Run6(":" + after, cur, st) == Run6(after, after, st.(colon := |st.bytes|))
  {
    FirstOf(':', after, cur, st);
    assert ":" + after == [':'] + after;
  }

  lemma {:induction false} LeftRuns(left: seq<Word>, after: string, cur: string)
    requires left != [] && 2 * |left| <= 16
    ensures var bytes := WordBytes(left);
            Run6(Groups(left) + "::" + after, cur, EMPTY) == Run6(after, after, Scan(bytes, |bytes|, 0, 0))
  {
    var rest := ":" + after;
    assert Groups(left) + "::" + after == Groups(left) + ":" + rest;
    GroupsRun(left, rest, cur, EMPTY);
    assert [] + WordBytes(left) == WordBytes(left);
    ColonRuns(after, rest, Scan(WordBytes(left), -1, 0, 0));
  }

  /** Reading a text that does not begin with a colon, or that begins with two. */
  lemma {:induction false} ParseIs(s: string, t: string, src: Bytes)
    requires |s| > 0 && (if s[0] == ':' then |s| > 1 && s[1] == ':' && t == s[1..] else t == s)
    requires Run6(t, t, EMPTY).Some? && Finish(Run6(t, t, EMPTY).value) == Some(src)
    ensures Parse6(s) == Some(src)
  {
  }

  lemma {:induction false} RoundTripPlain(src: Bytes)
    requires |src| == 16
    ensures Parse6(Groups(Words(src))) == Some(src)
  {
    var ws := Words(src);
    var s := Groups(ws);
    GroupsNonempty(ws);
    GroupsEnd(ws, s, EMPTY);
    WordsRoundTrip(src);
    assert [] + src == src;
    ParseIs(s, s, src);
  }

  /** The text behind the double colon completes the address. */
  lemma {:induction false} AfterRunParses(src: Bytes, base: int, len: int, after: string, bytes: Bytes)
    requires |src| == 16 && IsRun(Words(src), base, len) && after == AfterRun(src, Words(src), base, len)
    requires bytes == WordBytes(Words(src)[..base])
    ensures var r := Run6(after, after, Scan(bytes, |bytes|, 0, 0)); r.Some? && Finish(r.value) == Some(src)
  {
    AfterRunEnds(src, base, len, Scan(bytes, |bytes|, 0, 0));
    SpreadRestores(src, base, len);
  }

  lemma {:induction false} LeftFirst(left: seq<Word>, after: string)
    ensures var s := Groups(left) + "::" + after;
            if left == [] then s[0] == ':' && s[1] == ':' && s[1..] == ":" + after else s[0] != ':'
  {
    if left != [] { GroupsNonempty(left); }
  }

  /** Whichever run of zero groups the text leaves out, reading it gives the address back. */
  lemma {:induction false} RoundTrip(src: Bytes, base: int, len: int)
    requires |src| == 16 && (base == -1 || IsRun(Words(src), base, len))
    ensures Parse6(Text6(src, base, len)) == Some(src)
  {
    if base == -1 {
      RoundTripPlain(src);
    } else {
      RoundTripCompressed(src, base, len, Words(src)[..base], AfterRun(src, Words(src), base, len));
    }
  }

  lemma {:induction false} RoundTripCompressed(src: Bytes, base: int, len: int, left: seq<Word>, after: string)
    requires |src| == 16 && IsRun(Words(src), base, len)
    requires left == Words(src)[..base] && after == AfterRun(src, Words(src), base, len)
    ensures Parse6(Groups(left) + "::" + after) == Some(src)
  {
    var s := Groups(left) + "::" + after;
    AfterRunParses(src, base, len, after, WordBytes(left));
    LeftFirst(left, after);
    if left == [] {
      ColonRuns(after, ":" + after, EMPTY);
      ParseIs(s, ":" + after, src);
    } else {
      LeftRuns(left, after, s);
      ParseIs(s, s, src);
    }
  }
}
