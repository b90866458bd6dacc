/** Labels whose encodings are known: the encoder writes these very texts. Each takes the bias through its
    first and its later adaptations. */
module PunycodeSamples {
  import opened ByteStrings
  import opened Punycode

  // ----- One code point after the other

  lemma {:induction false} PassBefore(s: seq<nat>, m: nat, j: nat, i: nat, delta: nat, h: nat)
    requires j <= i < |s| && m !in s[j..i]
    ensures Pass(s, m, j, delta, h) == Pass(s, m, i, delta + |Below(s[j..i], m)|, h)
    decreases i - j
  {
    if j < i {
      assert s[j..i] == [s[j]] + s[j + 1..i];
      BelowConcat([s[j]], s[j + 1..i], m);
      assert Below([s[j]], m) == if s[j] < m then [s[j]] else [];
      PassBefore(s, m, j + 1, i, if s[j] < m then delta + 1 else delta, h);
    } else {
      assert s[j..i] == [];
    }
  }

  lemma {:induction false} PassBehind(s: seq<nat>, m: nat, j: nat, delta: nat, h: nat)
    requires j <= |s| && m !in s[j..]
    ensures Pass(s, m, j, delta, h) == ([], delta + |Below(s[j..], m)|, h)
    decreases |s| - j
  {
    if j < |s| {
      assert s[j..] == [s[j]] + s[j + 1..];
      BelowConcat([s[j]], s[j + 1..], m);
      assert Below([s[j]], m) == if s[j] < m then [s[j]] else [];
      PassBehind(s, m, j + 1, if s[j] < m then delta + 1 else delta, h);
    }
  }

  /** The delta of a code point that occurs once: the code points skipped, times the places there are for
      each, and the places in front of it. */
  lemma {:induction false} OneDelta(s: seq<nat>, n: nat, delta: nat, h: nat, m: nat, i: nat)
    requires LeastFrom(s, n) == Some(m) && n <= m && i < |s| && s[i] == m && m !in s[..i] && m !in s[i + 1..]
    ensures Deltas(s, n, delta, h)
            == [delta + (m - n) * (h + 1) + |Below(s[..i], m)|]
               + Deltas(s, m + 1, |Below(s[i + 1..], m)| + 1, h + 1)
  {
    var start := delta + Rounds(m - n, h + 1);
    DeltasFirst(s, n, delta, h, m);
    RoundsMultiply(m - n, h + 1);
    assert s[0..i] == s[..i];
    PassBefore(s, m, 0, i, start, h);
    PassBehind(s, m, i + 1, 0, h + 1);
  }

  lemma LeastIs(s: seq<nat>, n: nat, m: nat)
    requires m in s && n <= m && forall c :: c in s ==> c < n || m <= c
    ensures LeastFrom(s, n) == Some(m)
  {
    LeastFromIs(s, n);
  }

  lemma NothingLeft(s: seq<nat>, n: nat, delta: nat, h: nat, bias: nat)
    requires forall i :: 0 <= i < |s| ==> s[i] < n
    ensures Ahead(Deltas(s, n, delta, h), bias, h, false, Adapt) == ""
  {
    LeastFromIs(s, n);
  }

  // ----- Section 6.1 with its quotients, and the alphabet

  const ALPHABET: string := "abcdefghijklmnopqrstuvwxyz0123456789"

  lemma AlphabetIs(d: nat)
    requires d < 36
    ensures Digit(d) == ALPHABET[d]
  {
  }

  lemma ReduceIs(d: nat, k: nat)
    ensures d <= 455 ==> Reduce(d, k) == k + 36 * d / (d + 38)
  {
    AdvanceDivides(0, 36 * d, d + 38);
  }

  /** The bias after a delta, with at most two divisions by 35. */
  lemma AdaptIs(delta: nat, h: nat, first: bool, half: nat, d: nat)
    requires half == (if first then delta / 700 else delta / 2) && d == half + half / (h + 1)
    ensures d <= 455 ==> Adapt(delta, h, first) == 36 * d / (d + 38)
    ensures d > 455 && d / 35 <= 455 ==> Adapt(delta, h, first) == 36 + 36 * (d / 35) / (d / 35 + 38)
    ensures d / 35 > 455 && d / 35 / 35 <= 455
            ==> Adapt(delta, h, first) == 72 + 36 * (d / 35 / 35) / (d / 35 / 35 + 38)
  {
    AdvanceDivides(half, half, h + 1);
    ReduceIs(d, 0);
    ReduceIs(d / 35, 36);
    ReduceIs(d / 35 / 35, 72);
    if d / 35 > 455 { assert Reduce(d, 0) == Reduce(d / 35, 36) == Reduce(d / 35 / 35, 72); }
  }

  lemma LastDigit(q: nat, k: nat, bias: nat, t: nat)
    requires q < t == (if k <= bias then 1 else if k >= bias + 26 then 26 else k - bias)
    ensures Integer(q, k, bias) == [ALPHABET[q]]
  {
    AlphabetIs(q);
  }

  lemma Quotient(x: nat, y: nat, high: nat, low: nat)
    requires x == high * y + low && low < y
    ensures Advance(0, x, y) == (high, low)
  {
    AdvanceRounds(0, x, y, high, low);
  }

  lemma NextDigit(q: nat, k: nat, bias: nat, t: nat, high: nat, low: nat, rest: string)
    requires q >= t == (if k <= bias then 1 else if k >= bias + 26 then 26 else k - bias)
    requires q - t == high * (36 - t) + low && low < 36 - t && Integer(high, k + 36, bias) == rest
    ensures Integer(q, k, bias) == [ALPHABET[t + low]] + rest
  {
    Quotient(q - t, 36 - t, high, low);
    AlphabetIs(t + low);
    assert BASE - t == 36 - t && Threshold(k, bias) == t;
  }

  // ----- One code point after the other

  /** How many code points from position `lo` up to `hi` are below `m`. */
  function Smaller(s: seq<nat>, m: nat, lo: nat, hi: nat): nat
    requires lo <= hi <= |s|
    decreases hi - lo
  {
    if lo == hi then 0 else (if s[lo] < m then 1 else 0) + Smaller(s, m, lo + 1, hi)
  }

  lemma {:induction false} SmallerIs(s: seq<nat>, m: nat, lo: nat, hi: nat)
    requires lo <= hi <= |s|
    ensures |Below(s[lo..hi], m)| == Smaller(s, m, lo, hi)
    decreases hi - lo
  {
    if lo < hi {
      assert s[lo..hi] == [s[lo]] + s[lo + 1..hi];
      BelowConcat([s[lo]], s[lo + 1..hi], m);
      assert Below([s[lo]], m) == if s[lo] < m then [s[lo]] else [];
      SmallerIs(s, m, lo + 1, hi);
    } else {
      assert s[lo..hi] == [];
    }
  }

  /** The basic code points up to `hi`, as text. */
  function Basics(s: seq<nat>, hi: nat): string
    requires hi <= |s|
  {
    if hi == 0 then "" else Basics(s, hi - 1) + (if s[hi - 1] < 128 then [s[hi - 1] as char] else "")
  }

  lemma {:induction false} BasicsAre(s: seq<nat>, hi: nat)
    requires hi <= |s|
    ensures BasicText(s[..hi]) == Basics(s, hi)
  {
    if hi > 0 {
      assert s[..hi][..hi - 1] == s[..hi - 1];
      BasicsAre(s, hi - 1);
    }
  }

  /** The text begins with the basic code points. */
  lemma Begins(s: seq<nat>, n: nat, h: nat)
    requires n == |s| && h == Smaller(s, 128, 0, n) && h > 0
    ensures Encode(s) == Basics(s, n) + "-" + Ahead(Deltas(s, 128, 0, h), 72, h, true, Adapt)
  {
    assert s[..n] == s && s[0..n] == s;
    BasicsAre(s, n);
    SmallerIs(s, 128, 0, n);
  }

  lemma NoBasics(s: seq<nat>, n: nat)
    requires n == |s| && Smaller(s, 128, 0, n) == 0
    ensures Encode(s) == Ahead(Deltas(s, 128, 0, 0), 72, 0, true, Adapt)
  {
    assert s[..n] == s && s[0..n] == s;
    SmallerIs(s, 128, 0, n);
    BasicTextIs(s);
  }

  lemma OnlyThere(s: seq<nat>, n: nat, i: nat, m: nat)
    requires i < |s| && s[i] == m && n <= m && forall j :: 0 <= j < |s| && j != i ==> s[j] < n || m < s[j]
    ensures m !in s[..i] && m !in s[i + 1..] && LeastFrom(s, n) == Some(m)
  {
    LeastIs(s, n, m);
  }

  lemma OnePlace(s: seq<nat>, n: nat, delta: nat, h: nat, i: nat, len: nat, m: nat)
    requires i < len == |s| && s[i] == m && n <= m
    requires forall j :: 0 <= j < len && j != i ==> s[j] < n || m < s[j]
    ensures Deltas(s, n, delta, h)
            == [delta + (m - n) * (h + 1) + Smaller(s, m, 0, i)]
               + Deltas(s, m + 1, Smaller(s, m, i + 1, len) + 1, h + 1)
  {
    OnlyThere(s, n, i, m);
    OneDelta(s, n, delta, h, m, i);
    SmallerIs(s, m, 0, i);
    SmallerIs(s, m, i + 1, len);
    assert s[0..i] == s[..i] && s[i + 1..len] == s[i + 1..];
  }

  /** What a code point adds to the text. */
  lemma {:induction false} Writes(s: seq<nat>, n: nat, delta: nat, h: nat, bias: nat, first: bool, i: nat, len: nat,
                                  m: nat, d: nat, text: string, bias': nat)
    requires i < len == |s| && s[i] == m && n <= m
    requires forall j :: 0 <= j < len && j != i ==> s[j] < n || m < s[j]
    requires d == delta + (m - n) * (h + 1) + Smaller(s, m, 0, i)
    requires Integer(d, 36, bias) == text && Adapt(d, h, first) == bias'
    ensures Ahead(Deltas(s, n, delta, h), bias, h, first, Adapt)
            == text + Ahead(Deltas(s, m + 1, Smaller(s, m, i + 1, len) + 1, h + 1), bias', h + 1, false, Adapt)
  {
    OnePlace(s, n, delta, h, i, len, m);
    AheadFirst(d, Deltas(s, m + 1, Smaller(s, m, i + 1, len) + 1, h + 1), bias, h, first, Adapt);
  }

  // ----- Two letters outside ASCII

  lemma TwoUmlautsFirstText(d: nat)
    requires 99 < d < 101
    ensures Integer(d, 36, 72) == "4ca" && Adapt(d, 0, true) == 0
  {
    LastDigit(0, 108, 72, 26);
    NextDigit(2, 72, 72, 1, 0, 1, "a");
    NextDigit(d, 36, 72, 1, 2, 29, "ca");
    AdaptIs(d, 0, true, 0, 0);
  }

  lemma TwoUmlautsFirst(s: seq<nat>)
    requires |s| == 2 && s[0] == 0xe4 && s[1] == 0xf6
    ensures Ahead(Deltas(s, 128, 0, 0), 72, 0, true, Adapt)
            == "4ca" + Ahead(Deltas(s, 229, 1, 1), 0, 1, false, Adapt)
  {
    var d: nat := 0 + (s[0] - 128) * 1;
    TwoUmlautsFirstText(d);
    Writes(s, 128, 0, 0, 72, true, 0, 2, s[0], d, "4ca", 0);
  }

  lemma TwoUmlautsSecondText(d: nat)
    requires 35 < d < 37
    ensures Integer(d, 36, 0) == "0b" && Adapt(d, 1, false) == 14
  {
    LastDigit(1, 72, 0, 26);
    NextDigit(d, 36, 0, 26, 1, 0, "b");
    AdaptIs(d, 1, false, 18, 27);
  }

  lemma TwoUmlautsSecond(s: seq<nat>)
    requires |s| == 2 && s[0] == 0xe4 && s[1] == 0xf6
    ensures Ahead(Deltas(s, 229, 1, 1), 0, 1, false, Adapt)
            == "0b" + Ahead(Deltas(s, 247, 1, 2), 14, 2, false, Adapt)
  {
    var d: nat := 2 + (s[1] - 229) * 2;
    TwoUmlautsSecondText(d);
    Writes(s, 229, 1, 1, 0, false, 1, 2, s[1], d, "0b", 14);
  }

  lemma TwoUmlautsBegins(s: seq<nat>)
    requires |s| == 2 && s[0] == 0xe4 && s[1] == 0xf6
    ensures Encode(s) == Ahead(Deltas(s, 128, 0, 0), 72, 0, true, Adapt)
  {
    NoBasics(s, 2);
  }

  lemma TwoUmlautsEnds(s: seq<nat>)
    requires |s| == 2 && s[0] == 0xe4 && s[1] == 0xf6
    ensures Ahead(Deltas(s, 128, 0, 0), 72, 0, true, Adapt) == "4ca0b"
  {
    TwoUmlautsFirst(s);
    TwoUmlautsSecond(s);
    NothingLeft(s, 247, 1, 2, 14);
  }

  lemma TwoUmlauts(s: seq<nat>)
    requires |s| == 2 && s[0] == 0xe4 && s[1] == 0xf6
    ensures Encode(s) == "4ca0b"
  {
    TwoUmlautsBegins(s);
    TwoUmlautsEnds(s);
  }

  // ----- The word for size

  lemma GroesseFirstText(d: nat)
    requires 381 < d < 383
    ensures Integer(d, 36, 72) == "6ka" && Adapt(d, 3, true) == 0
  {
    LastDigit(0, 108, 72, 26);
    NextDigit(10, 72, 72, 1, 0, 9, "a");
    NextDigit(d, 36, 72, 1, 10, 31, "ka");
    AdaptIs(d, 3, true, 0, 0);
  }

  lemma GroesseFirst(s: seq<nat>)
    requires |s| == 5 && s[0] == 0x67 && s[1] == 0x72 && s[2] == 0xf6 && s[3] == 0xdf && s[4] == 0x65
    ensures Ahead(Deltas(s, 128, 0, 3), 72, 3, true, Adapt)
            == "6ka" + Ahead(Deltas(s, 224, 2, 4), 0, 4, false, Adapt)
  {
    var d: nat := 2 + (s[3] - 128) * 4;
    GroesseFirstText(d);
    Writes(s, 128, 0, 3, 72, true, 3, 5, s[3], d, "6ka", 0);
  }

  lemma GroesseSecondText(d: nat)
    requires 113 < d < 115
    ensures Integer(d, 36, 0) == "8i" && Adapt(d, 4, false) == 23
  {
    LastDigit(8, 72, 0, 26);
    NextDigit(d, 36, 0, 26, 8, 8, "i");
    AdaptIs(d, 4, false, 57, 68);
  }

  lemma GroesseSecond(s: seq<nat>)
    requires |s| == 5 && s[0] == 0x67 && s[1] == 0x72 && s[2] == 0xf6 && s[3] == 0xdf && s[4] == 0x65
    ensures Ahead(Deltas(s, 224, 2, 4), 0, 4, false, Adapt)
            == "8i" + Ahead(Deltas(s, 247, 3, 5), 23, 5, false, Adapt)
  {
    var d: nat := 4 + (s[2] - 224) * 5;
    GroesseSecondText(d);
    Writes(s, 224, 2, 4, 0, false, 2, 5, s[2], d, "8i", 23);
  }

  lemma GroesseBegins(s: seq<nat>)
    requires |s| == 5 && s[0] == 0x67 && s[1] == 0x72 && s[2] == 0xf6 && s[3] == 0xdf && s[4] == 0x65
    ensures Encode(s) == "gre-" + Ahead(Deltas(s, 128, 0, 3), 72, 3, true, Adapt)
  {
    assert Basics(s, 1) == "g";
    assert Basics(s, 2) == "gr";
    assert Basics(s, 3) == "gr";
    assert Basics(s, 4) == "gr";
    assert Basics(s, 5) == "gre";
    assert Smaller(s, 128, 4, 5) == 1;
    assert Smaller(s, 128, 3, 5) == 1;
    assert Smaller(s, 128, 2, 5) == 1;
    assert Smaller(s, 128, 1, 5) == 2;
    Begins(s, 5, 3);
  }

  lemma GroesseEnds(s: seq<nat>)
    requires |s| == 5 && s[0] == 0x67 && s[1] == 0x72 && s[2] == 0xf6 && s[3] == 0xdf && s[4] == 0x65
    ensures Ahead(Deltas(s, 128, 0, 3), 72, 3, true, Adapt) == "6ka8i"
  {
    GroesseFirst(s);
    GroesseSecond(s);
    NothingLeft(s, 247, 3, 5, 23);
  }

  lemma Groesse(s: seq<nat>)
    requires |s| == 5 && s[0] == 0x67 && s[1] == 0x72 && s[2] == 0xf6 && s[3] == 0xdf && s[4] == 0x65
    ensures Encode(s) == "gre-6ka8i"
  {
    GroesseBegins(s);
    GroesseEnds(s);
  }

  // ----- The word for the Japanese language

  lemma NihongoFirstText(d: nat)
    requires 25956 < d < 25958
    ensures Integer(d, 36, 72) == "wgv" && Adapt(d, 0, true) == 23
  {
    var q: nat := (d - 1) / 35;
    LastDigit(21, 108, 72, 26);
    NextDigit(q, 72, 72, 1, 21, 5, "v");
    NextDigit(d, 36, 72, 1, q, 21, "gv");
    AdaptIs(d, 0, true, 37, 74);
  }

  lemma NihongoFirst(s: seq<nat>)
    requires |s| == 3 && s[0] == 0x65e5 && s[1] == 0x672c && s[2] == 0x8a9e
    ensures Ahead(Deltas(s, 128, 0, 0), 72, 0, true, Adapt)
            == "wgv" + Ahead(Deltas(s, 26086, 1, 1), 23, 1, false, Adapt)
  {
    var d: nat := 0 + (s[0] - 128) * 1;
    NihongoFirstText(d);
    Writes(s, 128, 0, 0, 72, true, 0, 3, s[0], d, "wgv", 23);
  }

  lemma NihongoSecondText(d: nat)
    requires 653 < d < 655
    ensures Integer(d, 36, 23) == "71a" && Adapt(d, 1, false) == 45
  {
    LastDigit(0, 108, 23, 26);
    NextDigit(27, 72, 23, 26, 0, 1, "a");
    NextDigit(d, 36, 23, 13, 27, 20, "1a");
    AdaptIs(d, 1, false, 327, 490);
  }

  lemma NihongoSecond(s: seq<nat>)
    requires |s| == 3 && s[0] == 0x65e5 && s[1] == 0x672c && s[2] == 0x8a9e
    ensures Ahead(Deltas(s, 26086, 1, 1), 23, 1, false, Adapt)
            == "71a" + Ahead(Deltas(s, 26413, 1, 2), 45, 2, false, Adapt)
  {
    var d: nat := 2 + (s[1] - 26086) * 2;
    NihongoSecondText(d);
    Writes(s, 26086, 1, 1, 23, false, 1, 3, s[1], d, "71a", 45);
  }

  lemma NihongoThirdText(d: nat)
    requires 27221 < d < 27223
    ensures Integer(d, 36, 45) == "119e" && Adapt(d, 2, false) == 81
  {
    var q: nat := (d - 1) / 35;
    LastDigit(4, 144, 45, 26);
    NextDigit(75, 108, 45, 26, 4, 9, "e");
    NextDigit(q, 72, 45, 26, 75, 1, "9e");
    NextDigit(d, 36, 45, 1, q, 26, "19e");
    AdaptIs(d, 2, false, 13611, 18148);
  }

  lemma NihongoThird(s: seq<nat>)
    requires |s| == 3 && s[0] == 0x65e5 && s[1] == 0x672c && s[2] == 0x8a9e
    ensures Ahead(Deltas(s, 26413, 1, 2), 45, 2, false, Adapt)
            == "119e" + Ahead(Deltas(s, 35487, 1, 3), 81, 3, false, Adapt)
  {
    var d: nat := 3 + (s[2] - 26413) * 3;
    NihongoThirdText(d);
    Writes(s, 26413, 1, 2, 45, false, 2, 3, s[2], d, "119e", 81);
  }

  lemma NihongoBegins(s: seq<nat>)
    requires |s| == 3 && s[0] == 0x65e5 && s[1] == 0x672c && s[2] == 0x8a9e
    ensures Encode(s) == Ahead(Deltas(s, 128, 0, 0), 72, 0, true, Adapt)
  {
    NoBasics(s, 3);
  }

  lemma NihongoEnds(s: seq<nat>)
    requires |s| == 3 && s[0] == 0x65e5 && s[1] == 0x672c && s[2] == 0x8a9e
    ensures Ahead(Deltas(s, 128, 0, 0), 72, 0, true, Adapt) == "wgv71a119e"
  {
    NihongoFirst(s);
    NihongoSecond(s);
    NihongoThird(s);
    NothingLeft(s, 35487, 1, 3, 81);
  }

  lemma Nihongo(s: seq<nat>)
    requires |s| == 3 && s[0] == 0x65e5 && s[1] == 0x672c && s[2] == 0x8a9e
    ensures Encode(s) == "wgv71a119e"
  {
    NihongoBegins(s);
    NihongoEnds(s);
  }
}
