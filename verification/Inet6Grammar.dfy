/** The text forms of IPv6 addresses, section 2.2 of RFC 4291: groups of one to four hexadecimal digits
    with colons between them, a double colon for one or more groups of zeros, and an IPv4 address for
    the last two groups. */
module Inet6Grammar {
  import opened ByteStrings
  import opened Inet4
  import opened Inet6
  import opened Inet6Parser

  /** The groups before the double colon and those after it, and the IPv4 address at the end. */
  datatype Form = Form(left: seq<string>, gap: bool, right: seq<string>, v4: Option<Bytes>)

  predicate IsDigit(c: char) {
    '0' <= c <= '9' || 'a' <= c <= 'f' || 'A' <= c <= 'F'
  }

  function DigitValue(c: char): nat
    requires IsDigit(c)
  {
    if c <= '9' then c as nat - '0' as nat
    else if c <= 'F' then 10 + c as nat - 'A' as nat
    else 10 + c as nat - 'a' as nat
  }

  predicate IsHex(g: string) {
    forall i :: 0 <= i < |g| ==> IsDigit(g[i])
  }

  /** The parser takes the same characters for digits. */
  lemma DigitsAgree(c: char)
    ensures HexOf(c) == if IsDigit(c) then Some(DigitValue(c)) else None
  {
  }

  predicate IsGroup(g: string) {
    1 <= |g| <= 4 && IsHex(g)
  }

  predicate AllGroups(gs: seq<string>) {
    forall i :: 0 <= i < |gs| ==> IsGroup(gs[i])
  }

  function HexVal(g: string): nat
    requires IsHex(g)
  {
    if g == "" then 0 else HexVal(g[..|g| - 1]) * 16 + DigitValue(g[|g| - 1])
  }

  /** The bytes of groups. */
  function GroupBytes(gs: seq<string>): (r: Bytes)
    requires AllGroups(gs)
    ensures |r| == 2 * |gs|
  {
    if gs == [] then [] else GroupBytes(gs[..|gs| - 1]) + Pair(HexVal(gs[|gs| - 1]))
  }

  function V4Bytes(v4: Option<Bytes>): Bytes {
    if v4.Some? then v4.value else []
  }

  function Size(f: Form): nat {
    2 * |f.left| + 2 * |f.right| + |V4Bytes(f.v4)|
  }

  predicate Legal(f: Form) {
    && AllGroups(f.left) && AllGroups(f.right) && (f.v4.Some? ==> |f.v4.value| == 4)
    && if f.gap then Size(f) < 16 else f.right == [] && Size(f) == 16
  }

  /** Groups with a colon behind each. */
  function Colonned(gs: seq<string>): string {
    if gs == [] then "" else Colonned(gs[..|gs| - 1]) + gs[|gs| - 1] + ":"
  }

  /** Groups with colons between them, and perhaps an IPv4 address. */
  function Tail(gs: seq<string>, v4: Option<Bytes>): string
    requires v4.Some? ==> |v4.value| == 4
  {
    if v4.Some? then Colonned(gs) + Text4(v4.value)
    else if gs == [] then ""
    else Colonned(gs[..|gs| - 1]) + gs[|gs| - 1]
  }

  /** The text without the first colon, if it begins with one. */
  function Rest(f: Form): string
    requires Legal(f)
  {
    if f.gap then Colonned(f.left) + ":" + Tail(f.right, f.v4) else Tail(f.left, f.v4)
  }

  function Text(f: Form): string
    requires Legal(f)
  {
    (if f.gap && f.left == [] then ":" else "") + Rest(f)
  }

  function Value(f: Form): (r: Bytes)
    requires Legal(f)
    ensures |r| == 16
  {
    if f.gap then GroupBytes(f.left) + Zeros(16 - Size(f)) + (GroupBytes(f.right) + V4Bytes(f.v4))
    else GroupBytes(f.left) + V4Bytes(f.v4)
  }

  /** The text `s` is of this form, which denotes `a`. */
  predicate Denotes(f: Form, s: string, a: Bytes) {
    Legal(f) && Text(f) == s && Value(f) == a
  }

  // ----- Every legal text is read

  lemma {:induction false} HexRuns(g: string, rest: string, cur: string, st: Scan)
    requires Fresh(st) && IsHex(g) && |g| <= 4
    ensures Run6(g + rest, cur, st) == Run6(rest, cur, st.(seen := |g|, val := HexVal(g)))
    decreases |g|
  {
    if g == "" {
      assert g + rest == rest;
    } else {
      var k := |g| - 1;
      assert g + rest == g[..k] + ([g[k]] + rest);
      HexRuns(g[..k], [g[k]] + rest, cur, st);
      FirstOf(g[k], rest, cur, st);
    }
  }

  lemma {:induction false} GroupRuns(g: string, rest: string, cur: string, st: Scan)
    requires Fresh(st) && IsGroup(g) && rest != "" && |st.bytes| + 2 <= 16
    ensures Run6(g + ":" + rest, cur, st) == Run6(rest, rest, st.(bytes := st.bytes + Pair(HexVal(g))))
  {
    HexRuns(g, ":" + rest, cur, st);
    assert g + ":" + rest == g + ([':'] + rest);
    FirstOf(':', rest, cur, st);
  }

  lemma {:induction false} ColonnedRuns(gs: seq<string>, rest: string, cur: string, st: Scan)
    requires Fresh(st) && AllGroups(gs) && rest != "" && |st.bytes| + 2 * |gs| <= 16
    ensures Run6(Colonned(gs) + rest, cur, st)
            == Run6(rest, if gs == [] then cur else rest, st.(bytes := st.bytes + GroupBytes(gs)))
    decreases |gs|
  {
    if gs == [] {
      assert Colonned(gs) + rest == rest && st.bytes + [] == st.bytes;
    } else {
      var k := |gs| - 1;
      var g, init := gs[k], gs[..k];
      assert Colonned(gs) + rest == Colonned(init) + (g + ":" + rest);
      ColonnedRuns(init, g + ":" + rest, cur, st);
      var st' := st.(bytes := st.bytes + GroupBytes(init));
      GroupRuns(g, rest, if init == [] then cur else g + ":" + rest, st');
      assert st.bytes + (GroupBytes(init) + Pair(HexVal(g))) == st.bytes + GroupBytes(init) + Pair(HexVal(g));
    }
  }

  lemma {:induction false} TailEnds(gs: seq<string>, v4: Option<Bytes>, st: Scan)
    requires Fresh(st) && AllGroups(gs) && (v4.Some? ==> |v4.value| == 4) && |st.bytes| + 2 * |gs| + |V4Bytes(v4)| <= 16
    ensures Ends(Tail(gs, v4), Tail(gs, v4), st, st.bytes + GroupBytes(gs) + V4Bytes(v4))
  {
    var s := Tail(gs, v4);
    var bytes := st.bytes + GroupBytes(gs);
    if v4.Some? {
      ColonnedRuns(gs, Text4(v4.value), s, st);
      assert gs == [] ==> s == Text4(v4.value);
      EmbeddedEnds(v4.value, st.(bytes := bytes));
    } else if gs == [] {
      assert st.bytes + [] + [] == st.bytes;
    } else {
      var k := |gs| - 1;
      LastGroupEnds(gs[..k], gs[k], st);
      assert bytes + [] == bytes;
    }
  }

  lemma {:induction false} LastGroupEnds(init: seq<string>, g: string, st: Scan)
    requires Fresh(st) && AllGroups(init) && IsGroup(g) && |st.bytes| + 2 * |init| + 2 <= 16
    ensures AllGroups(init + [g]) && Ends(Colonned(init) + g, Colonned(init) + g, st, st.bytes + GroupBytes(init + [g]))
  {
    var s := Colonned(init) + g;
    assert (init + [g])[..|init|] == init;
    ColonnedRuns(init, g, s, st);
    var st' := st.(bytes := st.bytes + GroupBytes(init));
    HexRuns(g, "", if init == [] then s else g, st');
    assert g + "" == g;
    assert st.bytes + (GroupBytes(init) + Pair(HexVal(g))) == st'.bytes + Pair(HexVal(g));
  }

  /** The rest of a legal text is read to its value. */
  lemma {:induction false} RestParses(f: Form)
    requires Legal(f)
    ensures var r := Run6(Rest(f), Rest(f), EMPTY); r.Some? && Finish(r.value) == Some(Value(f))
  {
    if f.gap {
      GapParses(f, Rest(f), Tail(f.right, f.v4));
    } else {
      TailEnds(f.left, f.v4, EMPTY);
      assert [] + GroupBytes(f.left) + V4Bytes(f.v4) == GroupBytes(f.left) + V4Bytes(f.v4);
    }
  }

  lemma {:induction false} GapRuns(gs: seq<string>, tail: string, cur: string)
    requires AllGroups(gs) && 2 * |gs| <= 16
    ensures Run6(Colonned(gs) + (":" + tail), cur, EMPTY) == Run6(tail, tail, Scan(GroupBytes(gs), 2 * |gs|, 0, 0))
  {
    ColonnedRuns(gs, ":" + tail, cur, EMPTY);
    assert [] + GroupBytes(gs) == GroupBytes(gs);
    ColonRuns(tail, if gs == [] then cur else ":" + tail, Scan(GroupBytes(gs), -1, 0, 0));
  }

  lemma {:induction false} FinishGap(left: Bytes, later: Bytes, val: nat)
    requires |left| + |later| < 16
    ensures Finish(Scan(left + later, |left|, 0, val)) == Some(left + Zeros(16 - |left| - |later|) + later)
  {
    var zeros := Zeros(16 - |left| - |later|);
    SpreadOf(left, later, 16 - |left| - |later|);
    assert left + zeros + later == left + (zeros + later);
  }

  lemma {:induction false} EndsAfterGap(tail: string, left: Bytes, later: Bytes)
    requires |left| + |later| < 16 && Ends(tail, tail, Scan(left, |left|, 0, 0), left + later)
    ensures var r := Run6(tail, tail, Scan(left, |left|, 0, 0));
            r.Some? && Finish(r.value) == Some(left + Zeros(16 - |left| - |later|) + later)
  {
    FinishGap(left, later, 0);
  }

  /** What follows the double colon is read. */
  lemma {:induction false} GapTail(left: Bytes, gs: seq<string>, v4: Option<Bytes>, tail: string, later: Bytes)
    requires AllGroups(gs) && (v4.Some? ==> |v4.value| == 4) && |left| + 2 * |gs| + |V4Bytes(v4)| < 16
    requires tail == Tail(gs, v4) && later == GroupBytes(gs) + V4Bytes(v4)
    ensures Ends(tail, tail, Scan(left, |left|, 0, 0), left + later)
  {
    TailEnds(gs, v4, Scan(left, |left|, 0, 0));
    Regrouped(left, GroupBytes(gs), V4Bytes(v4));
  }

  lemma {:induction false} GapParses(f: Form, t: string, tail: string)
    requires Legal(f) && f.gap && tail == Tail(f.right, f.v4) && t == Colonned(f.left) + ":" + tail
    ensures var r := Run6(t, t, EMPTY); r.Some? && Finish(r.value) == Some(Value(f))
  {
    var left, later := GroupBytes(f.left), GroupBytes(f.right) + V4Bytes(f.v4);
    GapReads(f.left, t, tail, left);
    GapTail(left, f.right, f.v4, tail, later);
    EndsAfterGap(tail, left, later);
    GapValue(f, left, later);
  }

  lemma {:induction false} GapReads(gs: seq<string>, t: string, tail: string, left: Bytes)
    requires AllGroups(gs) && 2 * |gs| <= 16 && t == Colonned(gs) + ":" + tail && left == GroupBytes(gs)
    ensures Run6(t, t, EMPTY) == Run6(tail, tail, Scan(left, |left|, 0, 0))
  {
    assert t == Colonned(gs) + (":" + tail);
    GapRuns(gs, tail, t);
  }

  lemma {:induction false} GapValue(f: Form, left: Bytes, later: Bytes)
    requires Legal(f) && f.gap && left == GroupBytes(f.left) && later == GroupBytes(f.right) + V4Bytes(f.v4)
    ensures |left| + |later| < 16 && Value(f) == left + Zeros(16 - |left| - |later|) + later
  {
  }

  lemma {:induction false} ColonnedStarts(gs: seq<string>)
    requires AllGroups(gs) && gs != []
    ensures Colonned(gs) != "" && HexOf(Colonned(gs)[0]).Some?
    decreases |gs|
  {
    if |gs| > 1 { ColonnedStarts(gs[..|gs| - 1]); }
  }

  /** The rest begins with a colon exactly if the text does. */
  lemma {:induction false} RestStarts(f: Form)
    requires Legal(f)
    ensures Rest(f) != "" && (Rest(f)[0] == ':' <==> f.gap && f.left == [])
  {
    if f.left != [] { ColonnedStarts(f.left); }
    if !f.gap {
      if f.v4.None? {
        var k := |f.left| - 1;
        assert IsGroup(f.left[k]);
        if k > 0 { ColonnedStarts(f.left[..k]); }
      }
    }
  }

  lemma {:induction false} DenotedParses(f: Form, s: string, a: Bytes)
    requires Denotes(f, s, a)
    ensures Parse6(s) == Some(a)
  {
    RestParses(f);
    RestStarts(f);
    var t := Rest(f);
    if f.gap && f.left == [] {
      assert s == ":" + t && s[1..] == t;
    } else {
      assert s == t;
    }
    ParseIs(s, t, a);
  }

  // ----- Nothing else is

  /** The reader has come so far: groups before and after the double colon, and the digits of one more. */
  datatype Progress = Progress(left: seq<string>, gap: bool, right: seq<string>, g: string)

  ghost predicate Tracks(x: Progress, st: Scan) {
    && AllGroups(x.left) && AllGroups(x.right) && (!x.gap ==> x.right == []) && IsHex(x.g) && |x.g| <= 4
    && Inet6Parser.Wf(st) && st.bytes == GroupBytes(x.left) + GroupBytes(x.right)
    && st.colon == (if x.gap then 2 * |x.left| else -1)
    && st.seen == |x.g| && (x.g != "" ==> st.val == HexVal(x.g)) && (x.g == "" ==> st.val == 0)
  }

  /** The text read so far. */
  ghost function Read(x: Progress): string {
    Colonned(x.left) + (if x.gap then ":" else "") + Colonned(x.right) + x.g
  }

  /** A colon is behind us, so that something must follow. */
  ghost predicate Expecting(x: Progress) {
    x.g == "" && (if x.gap then x.right != [] else x.left != [])
  }

  lemma {:induction false} HexSnoc(g: string, ch: char)
    requires IsHex(g) && HexOf(ch).Some?
    ensures IsHex(g + [ch]) && HexVal(g + [ch]) == HexVal(g) * 16 + HexOf(ch).value
  {
    assert (g + [ch])[..|g|] == g;
  }

  lemma {:induction false} GroupSnoc(gs: seq<string>, g: string)
    requires AllGroups(gs) && IsGroup(g)
    ensures AllGroups(gs + [g]) && GroupBytes(gs + [g]) == GroupBytes(gs) + Pair(HexVal(g))
    ensures Colonned(gs + [g]) == Colonned(gs) + g + ":"
  {
    assert (gs + [g])[..|gs|] == gs;
  }

  /** A digit more. */
  lemma {:induction false} DigitTracks(x: Progress, st: Scan, ch: char)
    requires Tracks(x, st) && HexOf(ch).Some? && st.seen + 1 <= 4
    ensures var x' := x.(g := x.g + [ch]);
            && Tracks(x', st.(seen := st.seen + 1, val := st.val * 16 + HexOf(ch).value))
            && Read(x') == Read(x) + [ch] && !Expecting(x')
  {
    HexSnoc(x.g, ch);
    assert x.g == "" ==> HexVal(x.g) == 0;
  }

  ghost function WithGroup(x: Progress): Progress {
    if x.gap then x.(right := x.right + [x.g], g := "") else x.(left := x.left + [x.g], g := "")
  }

  lemma {:induction false} WithGroupBytes(x: Progress)
    requires AllGroups(x.left) && AllGroups(x.right) && (!x.gap ==> x.right == []) && IsGroup(x.g)
    ensures var y := WithGroup(x);
            && AllGroups(y.left) && AllGroups(y.right)
            && GroupBytes(y.left) + GroupBytes(y.right)
               == GroupBytes(x.left) + GroupBytes(x.right) + Pair(HexVal(x.g))
  {
    var left, right, pair := GroupBytes(x.left), GroupBytes(x.right), Pair(HexVal(x.g));
    if x.gap {
      GroupSnoc(x.right, x.g);
      assert left + (right + pair) == left + right + pair;
    } else {
      GroupSnoc(x.left, x.g);
      assert right == [] && (left + pair) + right == left + right + pair;
    }
  }

  lemma {:induction false} WithGroupText(x: Progress)
    requires AllGroups(x.left) && AllGroups(x.right) && (!x.gap ==> x.right == []) && IsGroup(x.g)
    ensures Read(WithGroup(x)) == Read(x) + ":"
  {
    var left, right := Colonned(x.left), Colonned(x.right);
    if x.gap {
      GroupSnoc(x.right, x.g);
      assert left + ":" + (right + x.g + ":") + "" == left + ":" + right + x.g + ":";
    } else {
      GroupSnoc(x.left, x.g);
      assert (left + x.g + ":") + "" + "" + "" == left + "" + "" + x.g + ":";
    }
  }

  /** A group is complete. */
  lemma {:induction false} GroupTracks(x: Progress, st: Scan)
    requires Tracks(x, st) && st.seen > 0 && |st.bytes| + 2 <= 16
    ensures Tracks(WithGroup(x), st.(bytes := st.bytes + Pair(st.val), seen := 0, val := 0))
    ensures Read(WithGroup(x)) == Read(x) + ":"
  {
    WithGroupBytes(x);
    WithGroupText(x);
  }

  /** A double colon. */
  lemma {:induction false} GapTracks(x: Progress, st: Scan)
    requires Tracks(x, st) && st.seen == 0 && st.colon == -1
    ensures Tracks(x.(gap := true), st.(colon := |st.bytes|)) && Read(x.(gap := true)) == Read(x) + ":"
  {
    assert GroupBytes(x.right) == [] && Colonned(x.right) == "";
    assert Colonned(x.left) + ":" + "" + "" == Colonned(x.left) + "" + "" + "" + ":";
  }

  ghost function FormOf(x: Progress, v4: Option<Bytes>): Form {
    Form(x.left, x.gap, x.right, v4)
  }

  ghost predicate WellFormed(x: Progress, v4: Option<Bytes>) {
    AllGroups(x.left) && AllGroups(x.right) && (!x.gap ==> x.right == []) && (v4.Some? ==> |v4.value| == 4)
  }

  lemma {:induction false} FinishWithGap(x: Progress, v4: Option<Bytes>, left: Bytes, later: Bytes, val: nat, a: Bytes)
    requires WellFormed(x, v4) && x.gap && left == GroupBytes(x.left) && later == GroupBytes(x.right) + V4Bytes(v4)
    requires |left| + |later| <= 16 && Finish(Scan(left + later, |left|, 0, val)) == Some(a)
    ensures Legal(FormOf(x, v4)) && Value(FormOf(x, v4)) == a
  {
    FinishGap(left, later, val);
  }

  lemma {:induction false} FinishWithout(x: Progress, v4: Option<Bytes>, left: Bytes, later: Bytes, val: nat, a: Bytes)
    requires WellFormed(x, v4) && !x.gap && left == GroupBytes(x.left) && later == V4Bytes(v4)
    requires |left| + |later| <= 16 && Finish(Scan(left + later, -1, 0, val)) == Some(a)
    ensures Legal(FormOf(x, v4)) && Value(FormOf(x, v4)) == a
  {
  }

  lemma Regrouped(a: Bytes, b: Bytes, c: Bytes)
    ensures a + b + c == a + (b + c) && (b == [] ==> b + c == c)
  {
  }

  /** What the reader makes of the groups it has read. */
  lemma {:induction false} FinishTracks(x: Progress, st: Scan, v4: Option<Bytes>, bytes: Bytes, a: Bytes)
    requires WellFormed(x, v4)
    requires bytes == GroupBytes(x.left) + GroupBytes(x.right) + V4Bytes(v4) && |bytes| <= 16
    requires Finish(Scan(bytes, if x.gap then 2 * |x.left| else -1, 0, st.val)) == Some(a)
    ensures Legal(FormOf(x, v4)) && Value(FormOf(x, v4)) == a
  {
    var left, right, more := GroupBytes(x.left), GroupBytes(x.right), V4Bytes(v4);
    Regrouped(left, right, more);
    if x.gap {
      FinishWithGap(x, v4, left, right + more, st.val, a);
    } else {
      FinishWithout(x, v4, left, right + more, st.val, a);
    }
  }

  ghost predicate Completes(f: Form, t: string, a: Bytes) {
    Legal(f) && Rest(f) == t && Value(f) == a
  }

  lemma {:induction false} EndSound(st: Scan, x: Progress, a: Bytes) returns (f: Form)
    requires Tracks(x, st) && !Expecting(x) && Finish(st) == Some(a)
    ensures Completes(f, Read(x), a)
  {
    if x.g == "" {
      f := FormOf(x, None);
      assert st.bytes + [] == st.bytes;
      FinishTracks(x, st, None, st.bytes, a);
      assert Colonned(x.right) == "";
    } else {
      GroupTracks(x, st);
      var x' := WithGroup(x);
      f := FormOf(x', None);
      var bytes := st.bytes + Pair(st.val);
      assert bytes + [] == bytes;
      FinishTracks(x', st, None, bytes, a);
      LastGroupText(x);
    }
  }

  lemma {:induction false} TailSnoc(gs: seq<string>, g: string)
    ensures Tail(gs + [g], None) == Colonned(gs) + g
  {
    assert (gs + [g])[..|gs|] == gs;
  }

  lemma ReadWithout(left: string, g: string)
    ensures left + "" + "" + g == left + g
  {
  }

  lemma ReadWith(left: string, right: string, g: string)
    ensures left + ":" + right + g == left + ":" + (right + g)
  {
  }

  /** The last group has no colon behind it. */
  lemma {:induction false} LastGroupText(x: Progress)
    requires IsGroup(x.g) && (!x.gap ==> x.right == [])
    ensures var y := WithGroup(x);
            Read(x) == if y.gap then Colonned(y.left) + ":" + Tail(y.right, None) else Tail(y.left, None)
  {
    if x.gap {
      TailSnoc(x.right, x.g);
      ReadWith(Colonned(x.left), Colonned(x.right), x.g);
    } else {
      TailSnoc(x.left, x.g);
      ReadWithout(Colonned(x.left), x.g);
    }
  }

  lemma {:induction false} ReadThen(x: Progress, s: string)
    requires !x.gap ==> x.right == []
    ensures Read(x) + s
            == if x.gap then Colonned(x.left) + ":" + (Colonned(x.right) + (x.g + s)) else Colonned(x.left) + (x.g + s)
  {
    var left, right := Colonned(x.left), Colonned(x.right);
    if x.gap {
      assert left + ":" + right + x.g + s == left + ":" + (right + (x.g + s));
    } else {
      assert left + "" + "" + x.g + s == left + (x.g + s);
    }
  }

  lemma {:induction false} EmbeddedSound(s: string, st: Scan, x: Progress, q: Bytes, a: Bytes) returns (f: Form)
    requires Tracks(x, st) && |st.bytes| + 4 <= 16 && |q| == 4 && x.g + s == Text4(q)
    requires Finish(st.(bytes := st.bytes + q, seen := 0)) == Some(a)
    ensures Completes(f, Read(x) + s, a)
  {
    f := FormOf(x, Some(q));
    FinishTracks(x, st, Some(q), st.bytes + q, a);
    ReadThen(x, s);
  }

  lemma {:induction false} DigitStep(s: string, cur: string, st: Scan)
    requires Inet6Parser.Wf(st) && s != "" && HexOf(s[0]).Some? && Run6(s, cur, st).Some?
    ensures st.seen + 1 <= 4
    ensures Run6(s, cur, st) == Run6(s[1..], cur, st.(seen := st.seen + 1, val := st.val * 16 + HexOf(s[0]).value))
  {
  }

  lemma {:induction false} GapStep(s: string, cur: string, st: Scan)
    requires Inet6Parser.Wf(st) && s != "" && s[0] == ':' && st.seen == 0 && Run6(s, cur, st).Some?
    ensures st.colon == -1 && Run6(s, cur, st) == Run6(s[1..], s[1..], st.(colon := |st.bytes|))
  {
  }

  lemma {:induction false} GroupStep(s: string, cur: string, st: Scan)
    requires Inet6Parser.Wf(st) && s != "" && s[0] == ':' && st.seen > 0 && Run6(s, cur, st).Some?
    ensures s[1..] != "" && |st.bytes| + 2 <= 16
    ensures Run6(s, cur, st) == Run6(s[1..], s[1..], st.(bytes := st.bytes + Pair(st.val), seen := 0, val := 0))
  {
  }

  lemma {:induction false} EmbeddedStep(s: string, cur: string, st: Scan)
    requires Inet6Parser.Wf(st) && s != "" && HexOf(s[0]).None? && s[0] != ':' && Run6(s, cur, st).Some?
    ensures |st.bytes| + 4 <= 16 && Parse4(cur).Some?
    ensures Run6(s, cur, st) == Some(st.(bytes := st.bytes + Parse4(cur).value, seen := 0))
  {
  }

  /** The reader accepts the text and returns this address. */
  ghost predicate Yields(s: string, cur: string, st: Scan, a: Bytes) {
    Inet6Parser.Wf(st) && match Run6(s, cur, st) case None => false case Some(st') => Finish(st') == Some(a)
  }

  lemma {:induction false} DigitYields(s: string, cur: string, st: Scan, st': Scan, a: Bytes)
    requires s != "" && Yields(s, cur, st, a) && HexOf(s[0]).Some?
    requires st' == st.(seen := st.seen + 1, val := st.val * 16 + HexOf(s[0]).value)
    ensures st.seen + 1 <= 4 && Yields(s[1..], cur, st', a)
  {
    DigitStep(s, cur, st);
  }

  lemma {:induction false} GapYields(s: string, cur: string, st: Scan, st': Scan, a: Bytes)
    requires s != "" && Yields(s, cur, st, a) && s[0] == ':' && st.seen == 0 && st' == st.(colon := |st.bytes|)
    ensures st.colon == -1 && Yields(s[1..], s[1..], st', a)
  {
    GapStep(s, cur, st);
  }

  lemma {:induction false} GroupYields(s: string, cur: string, st: Scan, st': Scan, a: Bytes)
    requires s != "" && Yields(s, cur, st, a) && s[0] == ':' && st.seen > 0
    requires st' == st.(bytes := st.bytes + Pair(st.val), seen := 0, val := 0)
    ensures s[1..] != "" && |st.bytes| + 2 <= 16 && Yields(s[1..], s[1..], st', a)
  {
    GroupStep(s, cur, st);
  }

  /** What the reader has made of `Read(x)`, with the bytes, the gap and the digits of `st`. */
  lemma {:induction false} DigitMoves(x: Progress, st: Scan, ch: char) returns (st': Scan, x': Progress)
    requires Tracks(x, st) && HexOf(ch).Some? && st.seen + 1 <= 4
    ensures st' == st.(seen := st.seen + 1, val := st.val * 16 + HexOf(ch).value) && x'.g == x.g + [ch]
    ensures Tracks(x', st') && Read(x') == Read(x) + [ch] && !Expecting(x')
  {
    DigitTracks(x, st, ch);
    st', x' := st.(seen := st.seen + 1, val := st.val * 16 + HexOf(ch).value), x.(g := x.g + [ch]);
  }

  lemma {:induction false} GapMoves(x: Progress, st: Scan) returns (st': Scan, x': Progress)
    requires Tracks(x, st) && st.seen == 0 && st.colon == -1
    ensures st' == st.(colon := |st.bytes|) && x'.g == ""
    ensures Tracks(x', st') && Read(x') == Read(x) + ":" && !Expecting(x')
  {
    GapTracks(x, st);
    st', x' := st.(colon := |st.bytes|), x.(gap := true);
  }

  lemma {:induction false} GroupMoves(x: Progress, st: Scan) returns (st': Scan, x': Progress)
    requires Tracks(x, st) && st.seen > 0 && |st.bytes| + 2 <= 16
    ensures st' == st.(bytes := st.bytes + Pair(st.val), seen := 0, val := 0) && x'.g == ""
    ensures Tracks(x', st') && Read(x') == Read(x) + ":"
  {
    GroupTracks(x, st);
    st', x' := st.(bytes := st.bytes + Pair(st.val), seen := 0, val := 0), WithGroup(x);
  }

  lemma {:induction false} DigitAdvances(s: string, cur: string, st: Scan, x: Progress, a: Bytes)
    returns (st': Scan, x': Progress)
    requires s != "" && Tracks(x, st) && cur == x.g + s && Yields(s, cur, st, a) && HexOf(s[0]).Some?
    ensures Tracks(x', st') && cur == x'.g + s[1..] && !Expecting(x')
    ensures Yields(s[1..], cur, st', a) && Read(x') == Read(x) + [s[0]]
  {
    DigitYields(s, cur, st, st.(seen := st.seen + 1, val := st.val * 16 + HexOf(s[0]).value), a);
    st', x' := DigitMoves(x, st, s[0]);
    OneMore(x.g, s);
  }

  lemma {:induction false} ColonAdvances(s: string, cur: string, st: Scan, x: Progress, a: Bytes)
    returns (st': Scan, x': Progress)
    requires s != "" && Tracks(x, st) && Yields(s, cur, st, a) && s[0] == ':'
    ensures Tracks(x', st') && x'.g == "" && (Expecting(x') ==> s[1..] != "")
    ensures Yields(s[1..], s[1..], st', a) && Read(x') == Read(x) + ":"
  {
    if st.seen == 0 {
      GapYields(s, cur, st, st.(colon := |st.bytes|), a);
      st', x' := GapMoves(x, st);
    } else {
      GroupYields(s, cur, st, st.(bytes := st.bytes + Pair(st.val), seen := 0, val := 0), a);
      st', x' := GroupMoves(x, st);
    }
  }

  /** One character further, if the reader goes on. */
  lemma {:induction false} Advances(s: string, cur: string, st: Scan, x: Progress, a: Bytes)
    returns (cur': string, st': Scan, x': Progress)
    requires s != "" && Tracks(x, st) && cur == x.g + s && Yields(s, cur, st, a)
    requires HexOf(s[0]).Some? || s[0] == ':'
    ensures Tracks(x', st') && cur' == x'.g + s[1..] && (Expecting(x') ==> s[1..] != "")
    ensures Yields(s[1..], cur', st', a) && Read(x') == Read(x) + [s[0]]
  {
    if HexOf(s[0]).Some? {
      cur' := cur;
      st', x' := DigitAdvances(s, cur, st, x, a);
    } else {
      cur' := s[1..];
      NothingBefore(cur');
      st', x' := ColonAdvances(s, cur, st, x, a);
    }
  }

  lemma NothingBefore(s: string)
    ensures "" + s == s
  {
  }

  lemma {:induction false} StopSound(s: string, cur: string, st: Scan, x: Progress, a: Bytes) returns (f: Form)
    requires s != "" && Tracks(x, st) && cur == x.g + s && Yields(s, cur, st, a)
    requires HexOf(s[0]).None? && s[0] != ':'
    ensures Completes(f, Read(x) + s, a)
  {
    EmbeddedStep(s, cur, st);
    ParsedIsPrinted(cur);
    f := EmbeddedSound(s, st, x, Parse4(cur).value, a);
  }

  lemma NoMore(r: string)
    ensures r + "" == r
  {
  }

  lemma OneMore(r: string, s: string)
    requires s != ""
    ensures r + [s[0]] + s[1..] == r + s
  {
    assert s == [s[0]] + s[1..];
  }

  /** Whatever the reader accepts is of a legal form, which denotes what it returns. */
  lemma {:induction false} Sound(s: string, cur: string, st: Scan, x: Progress, a: Bytes) returns (f: Form)
    requires Tracks(x, st) && cur == x.g + s && (Expecting(x) ==> s != "") && Yields(s, cur, st, a)
    ensures Completes(f, Read(x) + s, a)
    decreases |s|
  {
    if s == "" {
      f := EndSound(st, x, a);
      NoMore(Read(x));
    } else if HexOf(s[0]).Some? || s[0] == ':' {
      var cur', st', x' := Advances(s, cur, st, x, a);
      f := Sound(s[1..], cur', st', x', a);
      OneMore(Read(x), s);
    } else {
      f := StopSound(s, cur, st, x, a);
    }
  }

  /** A leading colon is there if and only if the rest begins with one. */
  lemma {:induction false} WholeText(f: Form, s: string, t: string, a: Bytes)
    requires Completes(f, t, a) && s != "" && (if s[0] == ':' then t == s[1..] && t != "" && t[0] == ':' else t == s)
    ensures Denotes(f, s, a)
  {
    RestStarts(f);
    if s[0] == ':' {
      assert s == ":" + t;
    } else {
      assert "" + t == t;
    }
  }

  lemma {:induction false} StartSound(t: string, a: Bytes) returns (f: Form)
    requires Yields(t, t, EMPTY, a)
    ensures Completes(f, t, a)
  {
    var x := Progress([], false, [], "");
    var none: Bytes := [];
    assert none + none == none;
    assert "" + t == t && Read(x) == "";
    f := Sound(t, t, EMPTY, x, a);
  }

  lemma {:induction false} ParsedDenotes(s: string) returns (f: Form)
    requires Parse6(s).Some?
    ensures Denotes(f, s, Parse6(s).value)
  {
    var t := if s != "" && s[0] == ':' then s[1..] else s;
    f := StartSound(t, Parse6(s).value);
    WholeText(f, s, t, Parse6(s).value);
  }

  /** The parser accepts exactly the legal texts, and returns the address they denote. */
  lemma {:induction false} ParsesExactly(s: string, a: Bytes)
    ensures Parse6(s) == Some(a) <==> exists f :: Denotes(f, s, a)
  {
    if Parse6(s) == Some(a) {
      var f := ParsedDenotes(s);
    }
    forall f | Denotes(f, s, a) ensures Parse6(s) == Some(a) {
      DenotedParses(f, s, a);
    }
  }
}
