/** Turning the labels of a host name into ASCII, with 32-bit arithmetic and a bounded buffer. */
module Idna {
  import opened ByteStrings
  import opened UvErrors
  import opened Punycode

  const UINT_MAX: nat := 0xffff_ffff

  /** A buffer that drops what does not fit. */
  class Output {
    const buf: array<char>
    const start: nat
    const end: nat
    var d: nat
    ghost var text: string

    ghost predicate Valid()
      reads this, buf
    {
      && start <= d <= end <= buf.Length
      && d == (if start + |text| <= end then start + |text| else end)
      && buf[start..d] == text[..d - start]
    }

    constructor (buf: array<char>, start: nat, end: nat)
      requires start <= end <= buf.Length
      ensures Valid() && text == "" && this.buf == buf && this.start == start && this.end == end
    {
      this.buf, this.start, this.end, d, text := buf, start, end, start, "";
    }

    method Put(c: char)
      requires Valid()
      modifies this, buf
      ensures Valid() && text == old(text) + [c]
    {
      ghost var was := buf[start..d];
      if d < end {
        buf[d] := c;
        d := d + 1;
      }
      text := text + [c];
      assert old(d) < end ==> buf[start..d] == was + [c];
    }
  }

  /** Every delta fits into an unsigned integer. */
  predicate AllFit(ds: seq<nat>) {
    forall i :: 0 <= i < |ds| ==> ds[i] <= UINT_MAX
  }

  predicate LabelFits(s: seq<nat>) {
    AllFit(Deltas(s, INITIAL_N, 0, |Below(s, INITIAL_N)|))
  }

  /** Code points as the reader of UTF-8 yields them, where the largest number stands for an error. */
  ghost predicate Readable(s: seq<nat>) {
    |s| < UINT_MAX && forall i :: 0 <= i < |s| ==> s[i] <= UINT_MAX
  }

  method PutInteger(out: Output, delta: nat, bias: nat)
    requires out.Valid()
    modifies out, out.buf
    ensures out.Valid() && out.text == old(out.text) + Integer(delta, BASE, bias)
  {
    var k: nat, q: nat, t: nat := BASE, delta, Threshold(BASE, bias);
    ghost var all := out.text + Integer(delta, BASE, bias);
    while q >= t
      invariant out.Valid() && t == Threshold(k, bias)
      invariant all == out.text + Integer(q, k, bias)
      decreases q
    {
      var x, y := q - t, BASE - t;
      AdvanceDivides(0, x, y);
      ghost var later := Integer(x / y, k + BASE, bias);
      assert all == out.text + [Digit(t + x % y)] + later;
      q := x / y;
      out.Put(Digit(t + x % y));
      k := k + BASE;
      t := Threshold(k, bias);
    }
    out.Put(Digit(q));
  }

  lemma Halved(delta: nat)
    ensures delta / 2 / 350 == delta / 700
  {
  }

  method NextBias(delta0: nat, h: nat, first: bool) returns (bias: nat)
    ensures bias == Adapt(delta0, h, first)
  {
    var delta := delta0 / 2;
    Halved(delta0);
    if first { delta := delta / 350; }
    AdvanceDivides(delta, delta, h + 1);
    delta := delta + delta / (h + 1);
    bias := ReduceDelta(delta);
  }

  lemma {:induction false} ReduceFirst(delta: nat, k: nat)
    ensures delta > 455 ==> Reduce(delta, k) == Reduce(delta / 35, k + BASE)
    ensures delta <= 455 ==> Reduce(delta, k) == k + BASE * delta / (delta + 38)
  {
    AdvanceDivides(0, BASE * delta, delta + 38);
  }

  method ReduceDelta(delta0: nat) returns (bias: nat)
    ensures bias == Reduce(delta0, 0)
  {
    var delta := delta0;
    bias := 0;
    while delta > 455
      invariant Reduce(delta, bias) == Reduce(delta0, 0)
      decreases delta
    {
      ReduceFirst(delta, bias);
      delta := delta / 35;
      bias := bias + BASE;
    }
    ReduceFirst(delta, bias);
    bias := bias + BASE * delta / (delta + 38);
  }

  /** The least code point that is `n` or more, or the greatest integer. */
  method FindLeast(s: seq<nat>, n: nat) returns (m: nat)
    requires forall i :: 0 <= i < |s| ==> s[i] < UINT_MAX
    ensures LeastFrom(s, n) == if m == UINT_MAX then None else Some(m)
  {
    m := UINT_MAX;
    for i := 0 to |s|
      invariant LeastFrom(s[..i], n) == if m == UINT_MAX then None else Some(m)
    {
      assert s[..i + 1][..i] == s[..i];
      if s[i] >= n && s[i] < m { m := s[i]; }
    }
    assert s[..|s|] == s;
  }

  // ----- When the arithmetic overflows

  lemma {:induction false} FitSplit(a: seq<nat>, b: seq<nat>)
    ensures AllFit(a + b) <==> AllFit(a) && AllFit(b)
  {
    if AllFit(a + b) {
      assert forall i :: 0 <= i < |a| ==> a[i] == (a + b)[i];
      assert forall i :: 0 <= i < |b| ==> b[i] == (a + b)[|a| + i];
    }
  }

  lemma DivideBounds(room: nat, y: nat, q: nat)
    requires y > 0 && q == room / y
    ensures q * y <= room < (q + 1) * y
  {
  }

  lemma ProductGrows(a: nat, b: nat, y: nat)
    requires a <= b
    ensures a * y <= b * y
  {
  }

  /** The test that stands in for `delta + x * y > UINT_MAX`. */
  lemma OverflowTest(x: nat, y: nat, delta: nat)
    requires y > 0 && delta <= UINT_MAX
    ensures x > (UINT_MAX - delta) / y <==> delta + Rounds(x, y) > UINT_MAX
  {
    var q := (UINT_MAX - delta) / y;
    DivideBounds(UINT_MAX - delta, y, q);
    RoundsMultiply(x, y);
    if x > q { ProductGrows(q + 1, x, y); } else { ProductGrows(x, q, y); }
  }

  /** The deltas that a pass still has to emit from `j` on, and those of later passes. */
  function DeltasFrom(s: seq<nat>, m: nat, j: nat, delta: nat, h: nat): seq<nat>
    requires j <= |s|
    decreases |s| - j
  {
    if j == |s| then Deltas(s, m + 1, delta + 1, h)
    else if s[j] < m then DeltasFrom(s, m, j + 1, delta + 1, h)
    else if s[j] == m then [delta] + DeltasFrom(s, m, j + 1, 0, h + 1)
    else DeltasFrom(s, m, j + 1, delta, h)
  }

  lemma {:induction false} DeltasFromIs(s: seq<nat>, m: nat, j: nat, delta: nat, h: nat)
    requires j <= |s|
    ensures var (ds, delta', h') := Pass(s, m, j, delta, h);
            DeltasFrom(s, m, j, delta, h) == ds + Deltas(s, m + 1, delta' + 1, h')
    decreases |s| - j
  {
    if j < |s| {
      if s[j] == m {
        var (ds, delta', h') := Pass(s, m, j + 1, 0, h + 1);
        var more := Deltas(s, m + 1, delta' + 1, h');
        DeltasFromIs(s, m, j + 1, 0, h + 1);
        assert [delta] + ds + more == [delta] + (ds + more);
      } else {
        DeltasFromIs(s, m, j + 1, if s[j] < m then delta + 1 else delta, h);
      }
    }
  }

  /** A delta that has grown too large is emitted when its code point comes. */
  lemma {:induction false} TooLargeAhead(s: seq<nat>, m: nat, j: nat, delta: nat, h: nat)
    requires j <= |s| && m in s[j..] && delta > UINT_MAX
    ensures !AllFit(DeltasFrom(s, m, j, delta, h))
    decreases |s| - j
  {
    if s[j] == m {
      var ds := DeltasFrom(s, m, j, delta, h);
      assert ds[0] == delta;
    } else {
      assert m in s[j + 1..] by { assert s[j..] == [s[j]] + s[j + 1..]; }
      TooLargeAhead(s, m, j + 1, if s[j] < m then delta + 1 else delta, h);
    }
  }

  lemma {:induction false} HandledStep(s: seq<nat>, m: nat, j: nat)
    requires j < |s|
    ensures |Handled(s, m, j + 1)| == |Handled(s, m, j)| + (if s[j] == m then 1 else 0)
  {
    BelowFirst(s, j, m);
    BelowFirst(s, j, m + 1);
  }

  // ----- The encoder

  /** What the encoder keeps: the insertion places passed since the last code point, the number of
      code points handled, the bias, whether none was encoded yet and how many are left. */
  datatype Encoder = Encoder(delta: nat, h: nat, bias: nat, first: bool, todo: nat)

  ghost function Left(ds: seq<nat>, e: Encoder): string {
    Ahead(ds, e.bias, e.h, e.first, Adapt)
  }

  /** Position `j` of the pass for `m`. */
  ghost predicate InPass(s: seq<nat>, m: nat, j: nat, delta: nat, h: nat, todo: nat) {
    && j <= |s| < UINT_MAX && delta <= UINT_MAX && (m in s[j..] || delta <= j)
    && h == |Handled(s, m, j)| && h + todo == |s|
  }

  /** With `text` written and the deltas `ds` to come, the label will be `all`, and can be encoded if `fits`. */
  ghost predicate Owes(all: string, fits: bool, text: string, ds: seq<nat>, e: Encoder) {
    text + Left(ds, e) == all && (fits <==> AllFit(ds))
  }

  lemma {:induction false} OwesOneLess(all: string, fits: bool, text: string, later: seq<nat>, e: Encoder, e': Encoder)
    requires Owes(all, fits, text, [e.delta] + later, e) && e.delta <= UINT_MAX
    requires e' == Encoder(0, e.h + 1, Adapt(e.delta, e.h, e.first), false, e'.todo)
    ensures Owes(all, fits, text + Integer(e.delta, BASE, e.bias), later, e')
  {
    AheadFirst(e.delta, later, e.bias, e.h, e.first, Adapt);
    FitSplit([e.delta], later);
  }

  /** Writes the delta of a code point and starts anew. */
  method EncodeOne(e: Encoder, out: Output, ghost all: string, ghost fits: bool, ghost later: seq<nat>)
    returns (e': Encoder)
    requires out.Valid() && e.todo > 0 && e.delta <= UINT_MAX && Owes(all, fits, out.text, [e.delta] + later, e)
    modifies out, out.buf
    ensures out.Valid() && e'.delta == 0 && e'.h == e.h + 1 && e'.todo == e.todo - 1
    ensures Owes(all, fits, out.text, later, e')
  {
    ghost var text := out.text;
    PutInteger(out, e.delta, e.bias);
    var bias := NextBias(e.delta, e.h, e.first);
    e' := Encoder(0, e.h + 1, bias, false, e.todo - 1);
    OwesOneLess(all, fits, text, later, e, e');
  }

  lemma {:induction false} InPassNext(s: seq<nat>, m: nat, j: nat, delta: nat, h: nat, todo: nat)
    requires j < |s| && InPass(s, m, j, delta, h, todo)
    ensures s[j] > m ==> InPass(s, m, j + 1, delta, h, todo)
    ensures s[j] < m ==> if delta < UINT_MAX then InPass(s, m, j + 1, delta + 1, h, todo) else m in s[j + 1..]
    ensures s[j] == m ==> todo > 0 && InPass(s, m, j + 1, 0, h + 1, todo - 1)
  {
    HandledStep(s, m, j);
    assert s[j..] == [s[j]] + s[j + 1..];
    if s[j] == m {
      BelowFirst(s, j, m);
      assert |Below(s[..j], m + 1)| <= j && |Below(s[j + 1..], m)| <= |s| - j - 1;
    }
  }

  /** The deltas to come at position `j` of the pass for `m`. */
  ghost function Coming(s: seq<nat>, m: nat, j: nat, e: Encoder): seq<nat>
    requires j <= |s|
  {
    DeltasFrom(s, m, j, e.delta, e.h)
  }

  lemma {:induction false} PassesBy(all: string, fits: bool, text: string, s: seq<nat>, m: nat, j: nat, e: Encoder)
    requires j < |s| && s[j] != m && Owes(all, fits, text, Coming(s, m, j, e), e)
    ensures var e' := if s[j] < m then e.(delta := e.delta + 1) else e;
            Owes(all, fits, text, Coming(s, m, j + 1, e'), e')
  {
    var e' := if s[j] < m then e.(delta := e.delta + 1) else e;
    assert Coming(s, m, j, e) == Coming(s, m, j + 1, e');
  }

  method EncodeStep(s: seq<nat>, m: nat, j: nat, e: Encoder, out: Output, ghost all: string, ghost fits: bool)
    returns (ok: bool, e': Encoder)
    requires out.Valid() && j < |s| && InPass(s, m, j, e.delta, e.h, e.todo)
    requires Owes(all, fits, out.text, Coming(s, m, j, e), e)
    modifies out, out.buf
    ensures out.Valid()
    ensures ok ==> InPass(s, m, j + 1, e'.delta, e'.h, e'.todo)
    ensures ok ==> Owes(all, fits, out.text, Coming(s, m, j + 1, e'), e')
    ensures !ok ==> !fits
  {
    ok, e' := true, e;
    InPassNext(s, m, j, e.delta, e.h, e.todo);
    if s[j] == m {
      e' := EncodeOne(e, out, all, fits, DeltasFrom(s, m, j + 1, 0, e.h + 1));
    } else {
      PassesBy(all, fits, out.text, s, m, j, e);
      if s[j] < m {
        if e.delta == UINT_MAX {
          TooLargeAhead(s, m, j + 1, e.delta + 1, e.h);
          return false, e;
        }
        e' := e.(delta := e.delta + 1);
      }
    }
  }

  /** One pass over the label: every `m` in it is written, as the number of insertion places that
      were passed since the last code point. */
  method EncodePass(s: seq<nat>, m: nat, e0: Encoder, out: Output, ghost all: string, ghost fits: bool)
    returns (ok: bool, e: Encoder)
    requires out.Valid() && m in s && InPass(s, m, 0, e0.delta, e0.h, e0.todo)
    requires Owes(all, fits, out.text, Coming(s, m, 0, e0), e0)
    modifies out, out.buf
    ensures out.Valid()
    ensures ok ==> e.delta <= |s| && e.h == |Below(s, m + 1)| && e.h + e.todo == |s|
    ensures ok ==> Owes(all, fits, out.text, Deltas(s, m + 1, e.delta + 1, e.h), e)
    ensures !ok ==> !fits
  {
    e := e0;
    for j := 0 to |s|
      invariant out.Valid() && InPass(s, m, j, e.delta, e.h, e.todo)
      invariant Owes(all, fits, out.text, Coming(s, m, j, e), e)
    {
      ok, e := EncodeStep(s, m, j, e, out, all, fits);
      if !ok { return; }
    }
    ok := true;
    HandledEnds(s, m);
    PassOver(s, m, e.delta, e.h);
  }

  lemma {:induction false} PassOver(s: seq<nat>, m: nat, delta: nat, h: nat)
    ensures DeltasFrom(s, m, |s|, delta, h) == Deltas(s, m + 1, delta + 1, h)
    ensures m !in s[|s|..]
  {
  }

  lemma {:induction false} NextDeltas(s: seq<nat>, n: nat, delta: nat, h: nat, m: nat)
    requires LeastFrom(s, n) == Some(m) && n <= m
    ensures Deltas(s, n, delta, h) == DeltasFrom(s, m, 0, delta + Rounds(m - n, h + 1), h)
  {
    DeltasFirst(s, n, delta, h, m);
    DeltasFromIs(s, m, 0, delta + Rounds(m - n, h + 1), h);
  }

  lemma {:induction false} SomeLeft(s: seq<nat>, n: nat)
    requires |Below(s, n)| < |s|
    ensures LeastFrom(s, n).Some?
  {
    if LeastFrom(s, n).None? { NoPassLeft(s, n, 0, 0); }
  }

  /** Before the pass for the code points from `n` on. The number of code points left is that of the
      code points from `n` on. */
  ghost predicate Before(s: seq<nat>, n: nat, e: Encoder) {
    && |s| < UINT_MAX && (forall i :: 0 <= i < |s| ==> s[i] < UINT_MAX)
    && e.delta <= |s| + 1 && e.h == |Below(s, n)| && e.h + e.todo == |s|
  }

  lemma {:induction false} SkipsTo(all: string, fits: bool, text: string, s: seq<nat>, n: nat, e: Encoder, m: nat)
    requires LeastFrom(s, n) == Some(m) && n <= m && Owes(all, fits, text, Deltas(s, n, e.delta, e.h), e)
    ensures var e' := e.(delta := e.delta + Rounds(m - n, e.h + 1));
            Owes(all, fits, text, Coming(s, m, 0, e'), e') && (e'.delta > UINT_MAX ==> !fits)
  {
    NextDeltas(s, n, e.delta, e.h, m);
    var delta := e.delta + Rounds(m - n, e.h + 1);
    if delta > UINT_MAX {
      LeastFromIs(s, n);
      assert s[0..] == s;
      TooLargeAhead(s, m, 0, delta, e.h);
    }
  }

  /** Before the pass for the next code point. */
  lemma {:induction false} PassBegins(s: seq<nat>, n: nat, e: Encoder, m: nat, delta: nat)
    requires Before(s, n, e) && LeastFrom(s, n) == Some(m) && delta <= UINT_MAX
    ensures n <= m && m in s && InPass(s, m, 0, delta, e.h, e.todo) && |Below(s, m + 1)| > |Below(s, n)|
  {
    LeastFromIs(s, n);
    BelowSame(s, n, m);
    BelowGains(s, n, m);
    HandledEnds(s, m);
    assert s[0..] == s;
  }

  /** Finds the next code point and makes up for those skipped, unless the delta grows too large. */
  method SkipToLeast(s: seq<nat>, n: nat, e: Encoder) returns (ok: bool, m: nat, delta: nat)
    requires Before(s, n, e) && e.todo > 0
    ensures LeastFrom(s, n) == Some(m) && n <= m
    ensures ok <==> e.delta + Rounds(m - n, e.h + 1) <= UINT_MAX
    ensures ok ==> delta == e.delta + Rounds(m - n, e.h + 1)
  {
    SomeLeft(s, n);
    m := FindLeast(s, n);
    LeastFromIs(s, n);
    var x, y := m - n, e.h + 1;
    OverflowTest(x, y, e.delta);
    RoundsMultiply(x, y);
    ok, delta := x <= (UINT_MAX - e.delta) / y, e.delta + x * y;
  }

  /** One round: the next code point, and the pass over the label for it. */
  method EncodeRound(s: seq<nat>, n: nat, e: Encoder, out: Output, ghost all: string, ghost fits: bool)
    returns (ok: bool, n': nat, e': Encoder)
    requires out.Valid() && Before(s, n, e) && e.todo > 0 && Owes(all, fits, out.text, Deltas(s, n, e.delta, e.h), e)
    modifies out, out.buf
    ensures out.Valid()
    ensures ok ==> Before(s, n', e') && e'.todo < e.todo && Owes(all, fits, out.text, Deltas(s, n', e'.delta, e'.h), e')
    ensures !ok ==> !fits
  {
    var m, delta;
    ok, m, delta := SkipToLeast(s, n, e);
    n', e' := n, e;
    SkipsTo(all, fits, out.text, s, n, e, m);
    if !ok { return; }
    PassBegins(s, n, e, m, delta);
    ok, e' := EncodePass(s, m, e.(delta := delta), out, all, fits);
    e' := e'.(delta := e'.delta + 1);
    n' := m + 1;
  }

  /** The passes over the label. They fail exactly when some delta does not fit. */
  method EncodeRest(s: seq<nat>, h: nat, out: Output) returns (ok: bool)
    requires out.Valid() && h <= |s| && Before(s, INITIAL_N, Encoder(0, h, INITIAL_BIAS, true, |s| - h))
    modifies out, out.buf
    ensures out.Valid() && (ok <==> LabelFits(s))
    ensures ok ==> out.text == old(out.text) + Ahead(Deltas(s, INITIAL_N, 0, h), INITIAL_BIAS, h, true, Adapt)
  {
    var n, e := INITIAL_N, Encoder(0, h, INITIAL_BIAS, true, |s| - h);
    ghost var all, fits := out.text + Left(Deltas(s, n, e.delta, e.h), e), LabelFits(s);
    while e.todo > 0
      invariant out.Valid() && Before(s, n, e)
      invariant Owes(all, fits, out.text, Deltas(s, n, e.delta, e.h), e)
      decreases e.todo
    {
      ok, n, e := EncodeRound(s, n, e, out, all, fits);
      if !ok { return; }
    }
    ok := true;
    NoneLeft(s, n);
    NoPassLeft(s, n, e.delta, e.h);
  }

  lemma {:induction false} NoneLeft(s: seq<nat>, n: nat)
    requires |Below(s, n)| == |s|
    ensures LeastFrom(s, n).None?
  {
    if LeastFrom(s, n).Some? {
      LeastFromIs(s, n);
      BelowGains(s, n, LeastFrom(s, n).value);
    }
  }

  // ----- Labels

  /** Counts the basic code points; an undecodable one is an error. */
  method CountBasic(s: seq<nat>) returns (ok: bool, h: nat, todo: nat)
    requires forall i :: 0 <= i < |s| ==> s[i] <= UINT_MAX
    ensures ok <==> UINT_MAX !in s
    ensures ok ==> h == |Below(s, INITIAL_N)| && h + todo == |s|
  {
    ok, h, todo := true, 0, 0;
    for i := 0 to |s|
      invariant h == |Below(s[..i], INITIAL_N)| && h + todo == i
      invariant UINT_MAX !in s[..i]
    {
      assert s[..i + 1][..i] == s[..i];
      if s[i] < 128 { h := h + 1; }
      else if s[i] == UINT_MAX { return false, h, todo; }
      else { todo := todo + 1; }
    }
    assert s[..|s|] == s;
  }

  /** Copies the basic code points, and stops after the last. */
  method CopyBasic(s: seq<nat>, h: nat, out: Output)
    requires out.Valid() && h == |Below(s, INITIAL_N)|
    modifies out, out.buf
    ensures out.Valid() && out.text == old(out.text) + BasicText(s)
  {
    var x := 0;
    for i := 0 to |s|
      invariant out.Valid() && x == |Below(s[..i], INITIAL_N)|
      invariant out.text == old(out.text) + BasicText(s[..i])
    {
      CopyStep(s, i);
      if s[i] > 127 { continue; }
      out.Put(s[i] as char);
      x := x + 1;
      if x == h {
        RestNotBasic(s, i + 1);
        return;
      }
    }
    assert s[..|s|] == s;
  }

  lemma {:induction false} CopyStep(s: seq<nat>, i: nat)
    requires i < |s|
    ensures |Below(s[..i + 1], INITIAL_N)| == |Below(s[..i], INITIAL_N)| + (if s[i] > 127 then 0 else 1)
    ensures BasicText(s[..i + 1]) == BasicText(s[..i]) + (if s[i] > 127 then "" else [s[i] as char])
  {
    assert s[..i + 1][..i] == s[..i];
  }

  lemma {:induction false} RestNotBasic(s: seq<nat>, i: nat)
    requires i <= |s| && |Below(s[..i], INITIAL_N)| == |Below(s, INITIAL_N)|
    ensures BasicText(s[..i]) == BasicText(s)
  {
    assert s == s[..i] + s[i..];
    BelowConcat(s[..i], s[i..], INITIAL_N);
    BasicTextIs(s[..i]);
    BasicTextIs(s);
  }

  /** What a label becomes. */
  function LabelText(s: seq<nat>): string {
    if IsBasic(s) then BasicText(s) else "xn--" + Encode(s)
  }

  lemma {:induction false} AllBasic(s: seq<nat>)
    ensures |Below(s, INITIAL_N)| == |s| <==> IsBasic(s)
    ensures IsBasic(s) ==> Below(s, INITIAL_N) == s
  {
    if IsBasic(s) { BelowAll(s, INITIAL_N); }
    if |Below(s, INITIAL_N)| == |s| {
      NoneLeft(s, INITIAL_N);
      LeastFromIs(s, INITIAL_N);
    }
  }

  lemma {:induction false} EncodeIs(s: seq<nat>, h: nat, before: string)
    requires h == |Below(s, INITIAL_N)|
    ensures before + "xn--" + BasicText(s) + (if h == 0 then "" else "-")
            + Ahead(Deltas(s, INITIAL_N, 0, h), INITIAL_BIAS, h, true, Adapt)
            == before + ("xn--" + Encode(s))
  {
    var sep, ahead := if h == 0 then "" else "-", Ahead(Deltas(s, INITIAL_N, 0, h), INITIAL_BIAS, h, true, Adapt);
    Regroup(before, "xn--", BasicText(s), sep, ahead);
  }

  lemma Regroup(a: string, b: string, c: string, d: string, e: string)
    ensures a + b + c + d + e == a + (b + (c + d + e))
  {
  }

  /** A label with code points that are not basic. */
  method EncodeLabel(s: seq<nat>, h: nat, out: Output) returns (ok: bool)
    requires out.Valid() && |s| < UINT_MAX && h == |Below(s, INITIAL_N)|
    requires forall i :: 0 <= i < |s| ==> s[i] < UINT_MAX
    modifies out, out.buf
    ensures out.Valid() && (ok <==> LabelFits(s))
    ensures ok ==> out.text == old(out.text) + ("xn--" + Encode(s))
  {
    EncodeIs(s, h, out.text);
    PutText(out, "xn--");
    CopyBasic(s, h, out);
    PutText(out, if h > 0 then "-" else "");
    ok := EncodeRest(s, h, out);
  }

  /** `uv__idna_toascii_label`. */
  method ToAsciiLabel(s: seq<nat>, out: Output) returns (rc: int)
    requires out.Valid() && Readable(s)
    modifies out, out.buf
    ensures out.Valid()
    ensures UINT_MAX in s ==> rc == UV_EINVAL && out.text == old(out.text)
    ensures UINT_MAX !in s ==> rc == if IsBasic(s) then |s| else if LabelFits(s) then 0 else UV_E2BIG
    ensures rc >= 0 ==> out.text == old(out.text) + LabelText(s)
  {
    var ok, h, todo := CountBasic(s);
    if !ok { return UV_EINVAL; }
    AllBasic(s);
    if todo == 0 {
      CopyBasic(s, h, out);
      return h;
    }
    ok := EncodeLabel(s, h, out);
    rc := if ok then 0 else UV_E2BIG;
  }

  method PutText(out: Output, text: string)
    requires out.Valid()
    modifies out, out.buf
    ensures out.Valid() && out.text == old(out.text) + text
  {
    for i := 0 to |text|
      invariant out.Valid() && out.text == old(out.text) + text[..i]
    {
      out.Put(text[i]);
    }
  }

  /** The text behind the prefix decodes to the label. */
  lemma {:induction false} LabelRoundTrip(s: seq<nat>)
    requires !IsBasic(s)
    ensures |LabelText(s)| >= 4 && LabelText(s)[..4] == "xn--" && Decode(LabelText(s)[4..]) == Some(s)
  {
    RoundTrip(s);
    assert LabelText(s)[4..] == Encode(s);
  }

  // ----- Host names

  /** The full stop and its ideographic, fullwidth and halfwidth forms. */
  predicate IsDot(c: nat) {
    c == 0x2E || c == 0x3002 || c == 0xFF0E || c == 0xFF61
  }

  predicate NoDot(s: seq<nat>) {
    forall i :: 0 <= i < |s| ==> !IsDot(s[i])
  }

  /** The next dot from `i` on, or the end. */
  function NextDot(s: seq<nat>, i: nat): (k: nat)
    requires i <= |s|
    ensures i <= k <= |s|
    decreases |s| - i
  {
    if i == |s| || IsDot(s[i]) then i else NextDot(s, i + 1)
  }

  /** The labels from `i` on in ASCII, with full stops between them. */
  function HostText(s: seq<nat>, i: nat): string
    requires i <= |s|
    decreases |s| - i
  {
    var k := NextDot(s, i);
    if k == |s| then LabelText(s[i..k]) else LabelText(s[i..k]) + "." + HostText(s, k + 1)
  }

  predicate LabelOk(s: seq<nat>) {
    UINT_MAX !in s && (IsBasic(s) || LabelFits(s))
  }

  predicate HostOk(s: seq<nat>, i: nat)
    requires i <= |s|
    decreases |s| - i
  {
    var k := NextDot(s, i);
    LabelOk(s[i..k]) && (k < |s| ==> HostOk(s, k + 1))
  }

  /** A label, if it can be encoded. */
  method PutLabel(s: seq<nat>, out: Output) returns (rc: int)
    requires out.Valid() && Readable(s)
    modifies out, out.buf
    ensures out.Valid() && (rc >= 0 <==> LabelOk(s))
    ensures rc >= 0 ==> out.text == old(out.text) + LabelText(s) && out.d >= old(out.d)
  {
    rc := ToAsciiLabel(s, out);
  }

  /** What is still to be read from `i` on when `text` is written. */
  ghost predicate Pending(all: string, ok: bool, s: seq<nat>, i: nat, text: string)
    requires i <= |s|
  {
    text + HostText(s, i) == all && (ok <==> HostOk(s, i))
  }

  lemma {:induction false} PendingDotted(all: string, ok: bool, s: seq<nat>, from: nat, i: nat, text: string)
    requires from <= i < |s| && NextDot(s, from) == i && Pending(all, ok, s, from, text)
    ensures if LabelOk(s[from..i]) then Pending(all, ok, s, i + 1, text + LabelText(s[from..i]) + ".") else !ok
  {
    HostStep(s, from, i);
    HostOkStep(s, from, i);
    Regroup3(text, LabelText(s[from..i]), HostText(s, i + 1));
  }

  lemma {:induction false} HostStep(s: seq<nat>, from: nat, i: nat)
    requires from <= i < |s| && NextDot(s, from) == i
    ensures HostText(s, from) == LabelText(s[from..i]) + "." + HostText(s, i + 1)
  {
  }

  lemma {:induction false} HostOkStep(s: seq<nat>, from: nat, i: nat)
    requires from <= i < |s| && NextDot(s, from) == i
    ensures HostOk(s, from) <==> LabelOk(s[from..i]) && HostOk(s, i + 1)
  {
  }

  lemma Regroup3(a: string, b: string, c: string)
    ensures a + (b + "." + c) == a + b + "." + c
  {
  }

  lemma {:induction false} PendingLast(all: string, ok: bool, s: seq<nat>, from: nat, text: string)
    requires from <= |s| && NextDot(s, from) == |s| && Pending(all, ok, s, from, text)
    ensures all == text + LabelText(s[from..]) && (ok <==> LabelOk(s[from..]))
    ensures from == |s| ==> all == text && ok
  {
    assert s[from..|s|] == s[from..];
  }

  /** The label from `from` to the dot at `i`. */
  method PutDotted(s: seq<nat>, from: nat, i: nat, out: Output, ghost all: string, ghost ok: bool) returns (rc: int)
    requires out.Valid() && from <= i < |s| && Readable(s)
    requires NextDot(s, from) == i && Pending(all, ok, s, from, out.text)
    modifies out, out.buf
    ensures out.Valid()
    ensures if rc >= 0 then Pending(all, ok, s, i + 1, out.text) && out.d >= old(out.d) else !ok
  {
    PendingDotted(all, ok, s, from, i, out.text);
    rc := PutLabel(s[from..i], out);
    if rc < 0 { return; }
    out.Put('.');
  }

  /** Position `i` lies in the label that begins at `from`, and the labels before are written. */
  ghost predicate Reached(all: string, ok: bool, s: seq<nat>, from: nat, i: nat, text: string) {
    from <= i <= |s| && NextDot(s, from) == NextDot(s, i) && Pending(all, ok, s, from, text)
  }

  method PutIfDot(s: seq<nat>, from: nat, i: nat, out: Output, ghost all: string, ghost ok: bool)
    returns (rc: int, next: nat)
    requires out.Valid() && i < |s| && Readable(s) && Reached(all, ok, s, from, i, out.text)
    modifies out, out.buf
    ensures out.Valid()
    ensures if rc >= 0 then Reached(all, ok, s, next, i + 1, out.text) && out.d >= old(out.d) else !ok
  {
    DotStep(s, i);
    rc, next := 0, from;
    if IsDot(s[i]) {
      rc := PutDotted(s, from, i, out, all, ok);
      next := i + 1;
    }
  }

  method PutLast(s: seq<nat>, from: nat, out: Output, ghost all: string, ghost ok: bool) returns (rc: int)
    requires out.Valid() && from <= |s| && Readable(s)
    requires NextDot(s, from) == |s| && Pending(all, ok, s, from, out.text)
    modifies out, out.buf
    ensures out.Valid() && (rc >= 0 <==> ok)
    ensures rc >= 0 ==> out.text == all && out.d >= old(out.d)
  {
    PendingLast(all, ok, s, from, out.text);
    rc := 0;
    if from < |s| { rc := PutLabel(s[from..], out); }
  }

  lemma {:induction false} DotStep(s: seq<nat>, i: nat)
    requires i < |s|
    ensures NextDot(s, i) == if IsDot(s[i]) then i else NextDot(s, i + 1)
  {
  }

  /** All labels. */
  method PutHost(s: seq<nat>, out: Output, ghost all: string, ghost ok: bool) returns (rc: int)
    requires out.Valid() && Readable(s) && Pending(all, ok, s, 0, out.text)
    modifies out, out.buf
    ensures out.Valid() && (rc >= 0 <==> ok)
    ensures rc >= 0 ==> out.text == all && out.d >= old(out.d)
  {
    var from := 0;
    for i := 0 to |s|
      invariant out.Valid() && out.d >= old(out.d) && Reached(all, ok, s, from, i, out.text)
    {
      rc, from := PutIfDot(s, from, i, out, all, ok);
      if rc < 0 { return; }
    }
    rc := PutLast(s, from, out, all, ok);
  }

  /** `uv__idna_toascii`: label by label; the result is the number of characters stored. */
  method ToAscii(s: seq<nat>, out: Output) returns (rc: int)
    requires out.Valid() && Readable(s)
    modifies out, out.buf
    ensures out.Valid() && (rc >= 0 <==> HostOk(s, 0))
    ensures rc >= 0 ==> out.text == old(out.text) + HostText(s, 0) + "\0" && rc == out.d - old(out.d)
  {
    var ds := out.d;
    rc := PutHost(s, out, out.text + HostText(s, 0), HostOk(s, 0));
    if rc < 0 { return; }
    out.Put('\0');
    rc := out.d - ds;
  }

  // ----- Reading the labels back

  function Labels(s: seq<nat>, i: nat): seq<seq<nat>>
    requires i <= |s|
    decreases |s| - i
  {
    var k := NextDot(s, i);
    if k == |s| then [s[i..k]] else [s[i..k]] + Labels(s, k + 1)
  }

  /** The characters up to the first full stop. */
  function FirstStop(s: string): (k: nat)
    ensures k <= |s|
  {
    if s == "" || s[0] == '.' then 0 else 1 + FirstStop(s[1..])
  }

  function Split(s: string): seq<string>
    decreases |s|
  {
    var k := FirstStop(s);
    if k == |s| then [s] else [s[..k]] + Split(s[k + 1..])
  }

  function DecodeLabel(s: string): Option<seq<nat>> {
    if |s| >= 4 && s[..4] == "xn--" then Decode(s[4..]) else Some(CodePoints(s))
  }

  /** Every label of the text decodes to the label that it came from. */
  ghost predicate Decodes(texts: seq<string>, ls: seq<seq<nat>>) {
    |texts| == |ls| && forall i :: 0 <= i < |ls| ==> DecodeLabel(texts[i]) == Some(ls[i])
  }

  /** A label that is ASCII but looks encoded. */
  predicate FalsePrefix(l: seq<nat>) {
    IsBasic(l) && |BasicText(l)| >= 4 && BasicText(l)[..4] == "xn--"
  }

  predicate NoFalsePrefix(ls: seq<seq<nat>>) {
    forall i :: 0 <= i < |ls| ==> !FalsePrefix(ls[i])
  }

  lemma {:induction false} NoStopInDigits(ds: seq<nat>, bias: nat, h: nat, first: bool, adapt: Adaptation)
    ensures '.' !in Ahead(ds, bias, h, first, adapt)
    decreases |ds|
  {
    if ds != [] {
      NoStopInInteger(ds[0], BASE, bias);
      NoStopInDigits(ds[1..], adapt(ds[0], h, first), h + 1, false, adapt);
    }
  }

  lemma {:induction false} NoStopInInteger(q: nat, k: nat, bias: nat)
    ensures '.' !in Integer(q, k, bias)
    decreases q
  {
    var t := Threshold(k, bias);
    if q >= t { NoStopInInteger(Advance(0, q - t, BASE - t).0, k + BASE, bias); }
  }

  lemma {:induction false} NoStopInBasic(s: seq<nat>)
    requires NoDot(s)
    ensures '.' !in BasicText(s)
  {
    if s != [] {
      assert NoDot(s[..|s| - 1]);
      NoStopInBasic(s[..|s| - 1]);
      assert !IsDot(s[|s| - 1]);
    }
  }

  lemma {:induction false} NoStopInLabel(s: seq<nat>)
    requires NoDot(s)
    ensures '.' !in LabelText(s)
  {
    NoStopInBasic(s);
    BasicTextIs(s);
    AllBasic(s);
    if !IsBasic(s) {
      var h := |Below(s, INITIAL_N)|;
      NoStopInDigits(Deltas(s, INITIAL_N, 0, h), INITIAL_BIAS, h, true, Adapt);
      EncodeIs(s, h, "");
      var sep, ahead := if h == 0 then "" else "-", Ahead(Deltas(s, INITIAL_N, 0, h), INITIAL_BIAS, h, true, Adapt);
      assert LabelText(s) == "" + "xn--" + BasicText(s) + sep + ahead;
    }
  }

  lemma {:induction false} StopIsFirst(a: string, b: string)
    requires '.' !in a
    ensures Split(a + "." + b) == [a] + Split(b) && Split(a) == [a]
  {
    var s := a + "." + b;
    FirstStopAfter(a, "." + b);
    assert s == a + ("." + b);
    assert s[..|a|] == a && s[|a| + 1..] == b;
    FirstStopAfter(a, "");
    assert a + "" == a;
  }

  lemma {:induction false} FirstStopAfter(a: string, b: string)
    requires '.' !in a && (b != "" ==> b[0] == '.')
    ensures FirstStop(a + b) == |a|
  {
    if a == "" {
      assert a + b == b;
    } else {
      assert (a + b)[0] == a[0] && (a + b)[1..] == a[1..] + b;
      FirstStopAfter(a[1..], b);
    }
  }

  /** A label is read back unless it is ASCII and looks encoded: then it is taken for something
      shorter. */
  lemma {:induction false} LabelDecodes(s: seq<nat>)
    ensures DecodeLabel(LabelText(s)) == Some(s) <==> !FalsePrefix(s)
  {
    if IsBasic(s) {
      BasicTextIs(s);
      AllBasic(s);
      assert CodePoints(Chars(s)) == s;
      if FalsePrefix(s) { DecodeShortens(LabelText(s)[4..]); }
    } else {
      LabelRoundTrip(s);
    }
  }

  /** The text of a label without dots, alone or in front of others. */
  lemma {:induction false} SplitLabel(l: seq<nat>, b: string)
    requires NoDot(l)
    ensures Split(LabelText(l) + "." + b) == [LabelText(l)] + Split(b) && Split(LabelText(l)) == [LabelText(l)]
  {
    NoStopInLabel(l);
    StopIsFirst(LabelText(l), b);
  }

  lemma {:induction false} NoDotBefore(s: seq<nat>, i: nat)
    requires i <= |s|
    ensures NoDot(s[i..NextDot(s, i)])
    decreases |s| - i
  {
    if i < |s| && !IsDot(s[i]) {
      NoDotBefore(s, i + 1);
      var k := NextDot(s, i);
      assert s[i..k] == [s[i]] + s[i + 1..k];
    }
  }

  function LabelTexts(ls: seq<seq<nat>>): seq<string> {
    if ls == [] then [] else [LabelText(ls[0])] + LabelTexts(ls[1..])
  }

  lemma {:induction false} LabelTextsCons(l: seq<nat>, ls: seq<seq<nat>>)
    ensures LabelTexts([l] + ls) == [LabelText(l)] + LabelTexts(ls) && LabelTexts([l]) == [LabelText(l)]
  {
    assert ([l] + ls)[1..] == ls;
    assert [l][1..] == [];
  }

  lemma {:induction false} HostSplits(s: seq<nat>, i: nat)
    requires i <= |s|
    ensures Split(HostText(s, i)) == LabelTexts(Labels(s, i))
    decreases |s| - i
  {
    NoDotBefore(s, i);
    var k := NextDot(s, i);
    var l := s[i..k];
    if k == |s| {
      SplitLabel(l, "");
      LabelTextsCons(l, []);
    } else {
      HostSplits(s, k + 1);
      SplitLabel(l, HostText(s, k + 1));
      LabelTextsCons(l, Labels(s, k + 1));
    }
  }

  lemma {:induction false} LabelTextAt(ls: seq<seq<nat>>, i: nat)
    requires i < |ls|
    ensures |LabelTexts(ls)| == |ls| && LabelTexts(ls)[i] == LabelText(ls[i])
  {
    if |ls| > 1 { LabelTextAt(ls[1..], if i == 0 then 0 else i - 1); }
  }

  lemma {:induction false} LabelsDecode(ls: seq<seq<nat>>)
    ensures Decodes(LabelTexts(ls), ls) <==> NoFalsePrefix(ls)
  {
    forall i | 0 <= i < |ls|
      ensures |LabelTexts(ls)| == |ls|
      ensures DecodeLabel(LabelTexts(ls)[i]) == Some(ls[i]) <==> !FalsePrefix(ls[i])
    {
      LabelTextAt(ls, i);
      LabelDecodes(ls[i]);
    }
  }

  /** Splitting the result at full stops and decoding each part gives the labels of the host name,
      exactly if no label is ASCII but looks encoded. */
  lemma {:induction false} HostRoundTrip(s: seq<nat>)
    ensures Decodes(Split(HostText(s, 0)), Labels(s, 0)) <==> NoFalsePrefix(Labels(s, 0))
  {
    HostSplits(s, 0);
    LabelsDecode(Labels(s, 0));
  }

  /** The host name `xn--` passes for the encoding of the empty label. */
  lemma {:induction false} FalsePrefixIsLost(s: seq<nat>)
    requires s == [0x78, 0x6e, 0x2d, 0x2d]
    ensures HostText(s, 0) == "xn--" && Labels(s, 0) == [s] && DecodeLabel("xn--") == Some([])
    ensures !Decodes(Split(HostText(s, 0)), Labels(s, 0))
  {
    assert NextDot(s, 4) == 4 && NextDot(s, 3) == 4 && NextDot(s, 2) == 4;
    assert NextDot(s, 1) == 4 && NextDot(s, 0) == 4;
    assert s[0..4] == s;
    BasicTextIs(s);
    AllBasic(s);
    assert Chars(s) == "xn--";
    assert "xn--"[4..] == "";
    assert CodePoints(""[..0]) == [];
    assert Labels(s, 0)[0] == s;
    HostRoundTrip(s);
  }
}
