/** The Punycode encoding and decoding procedures of RFC 3492 over unbounded integers, and the proof
    that decoding undoes encoding. A label is given as its code points. */
module Punycode {
  import opened ByteStrings

  const BASE: nat := 36
  const INITIAL_N: nat := 128
  const INITIAL_BIAS: nat := 72

  // ----- Division, by counting rounds

  /** `n` and the rounds that `v` makes, and what is left of `v`. */
  function Advance(n: nat, v: nat, l: nat): (r: (nat, nat))
    requires l > 0
    ensures r.1 < l && n <= r.0 <= n + v
    decreases v
  {
    if v < l then (n, v) else Advance(n + 1, v - l, l)
  }

  lemma {:induction false} AdvanceRounds(n: nat, v: nat, l: nat, a: nat, r: nat)
    requires v == a * l + r && r < l
    ensures Advance(n, v, l) == (n + a, r)
    decreases a
  {
    if a > 0 {
      assert a * l == (a - 1) * l + l;
      AdvanceRounds(n + 1, v - l, l, a - 1, r);
    }
  }

  lemma AdvanceDivides(n: nat, v: nat, l: nat)
    requires l > 0
    ensures Advance(n, v, l) == (n + v / l, v % l)
  {
    AdvanceRounds(n, v, l, v / l, v % l);
  }

  /** A product, by counting. */
  function Rounds(a: nat, l: nat): nat {
    if a == 0 then 0 else l + Rounds(a - 1, l)
  }

  lemma {:induction false} RoundsMultiply(a: nat, l: nat)
    ensures Rounds(a, l) == a * l
  {
    if a > 0 {
      RoundsMultiply(a - 1, l);
      assert a * l == (a - 1) * l + l;
    }
  }

  lemma {:induction false} RoundsSplit(m: nat, n: nat, l: nat)
    requires n <= m
    ensures Rounds(m, l) == Rounds(n, l) + Rounds(m - n, l)
  {
    if m > n { RoundsSplit(m - 1, n, l); }
  }

  // ----- Bias adaptation, section 6.1

  function Reduce(delta: nat, k: nat): nat
    decreases delta
  {
    if delta > 455 then Reduce(delta / 35, k + BASE) else k + Advance(0, BASE * delta, delta + 38).0
  }

  /** The next bias, after `h` code points and one more. */
  function Adapt(delta: nat, h: nat, first: bool): nat {
    var d := if first then delta / 700 else delta / 2;
    Reduce(Advance(d, d, h + 1).0, 0)
  }

  /** Encoder and decoder need to agree on the adaptation, but not on any one in particular. */
  type Adaptation = (nat, nat, bool) -> nat

  // ----- Variable-length integers

  function Threshold(k: nat, bias: nat): (t: nat)
    ensures 1 <= t <= 26
  {
    if k <= bias then 1 else if k - bias > 26 then 26 else k - bias
  }

  function Digits(q: nat, k: nat, bias: nat): (r: seq<nat>)
    ensures |r| >= 1
    decreases q
  {
    var t := Threshold(k, bias);
    if q < t then [q]
    else
      var (high, low) := Advance(0, q - t, BASE - t);
      [t + low] + Digits(high, k + BASE, bias)
  }

  /** Reads an integer, adds it to `i` and returns what is left. */
  function ReadInteger(s: seq<nat>, i: nat, w: nat, k: nat, bias: nat): (r: Option<(nat, seq<nat>)>)
    ensures r.Some? ==> |r.value.1| < |s| && r.value.0 >= i
  {
    if s == [] then None
    else
      var i', t := i + Rounds(s[0], w), Threshold(k, bias);
      if s[0] < t then Some((i', s[1..])) else ReadInteger(s[1..], i', Rounds(BASE - t, w), k + BASE, bias)
  }

  lemma {:induction false} Weigh(high: nat, b: nat, d: nat, w: nat)
    ensures Rounds(d, w) + Rounds(high, Rounds(b, w)) == Rounds(Rounds(high, b) + d, w)
    decreases high
  {
    if high > 0 {
      Weigh(high - 1, b, d, w);
      RoundsSplit(Rounds(high, b) + d, b, w);
    }
  }

  lemma {:induction false} ReadFirst(d: nat, tail: seq<nat>, i: nat, w: nat, k: nat, bias: nat, t: nat)
    requires t == Threshold(k, bias)
    ensures ReadInteger([d] + tail, i, w, k, bias)
            == if d < t then Some((i + Rounds(d, w), tail))
               else ReadInteger(tail, i + Rounds(d, w), Rounds(BASE - t, w), k + BASE, bias)
  {
    assert ([d] + tail)[1..] == tail;
  }

  lemma DigitsAddUp(q: nat, t: nat, b: nat)
    requires t <= q && b > 0
    ensures var (high, low) := Advance(0, q - t, b); Rounds(high, b) + (t + low) == q
  {
    RoundsMultiply(Advance(0, q - t, b).0, b);
    AdvanceDivides(0, q - t, b);
  }

  /** The first digit and the number that the others stand for. */
  lemma {:induction false} DigitsFirst(q: nat, k: nat, bias: nat, t: nat) returns (d: nat, high: nat)
    requires t == Threshold(k, bias) <= q
    ensures Digits(q, k, bias) == [d] + Digits(high, k + BASE, bias)
    ensures d >= t && high < q && Rounds(high, BASE - t) + d == q
  {
    var (h, low) := Advance(0, q - t, BASE - t);
    d, high := t + low, h;
    DigitsAddUp(q, t, BASE - t);
  }

  lemma {:induction false} ReadUndoesDigits(q: nat, i: nat, w: nat, k: nat, bias: nat, rest: seq<nat>)
    ensures ReadInteger(Digits(q, k, bias) + rest, i, w, k, bias) == Some((i + Rounds(q, w), rest))
    decreases q
  {
    var t := Threshold(k, bias);
    if q < t {
      ReadFirst(q, rest, i, w, k, bias, t);
    } else {
      var d, high := DigitsFirst(q, k, bias, t);
      var tail := Digits(high, k + BASE, bias) + rest;
      assert Digits(q, k, bias) + rest == [d] + tail;
      ReadFirst(d, tail, i, w, k, bias, t);
      Weigh(high, BASE - t, d, w);
      ReadUndoesDigits(high, i + Rounds(d, w), Rounds(BASE - t, w), k + BASE, bias, rest);
    }
  }

  // ----- Which code points are where

  /** The code points below `m`, in order. */
  function Below(s: seq<nat>, m: nat): (r: seq<nat>)
    ensures |r| <= |s|
  {
    if s == [] then []
    else Below(s[..|s| - 1], m) + (if s[|s| - 1] < m then [s[|s| - 1]] else [])
  }

  lemma {:induction false} BelowConcat(a: seq<nat>, b: seq<nat>, m: nat)
    ensures Below(a + b, m) == Below(a, m) + Below(b, m)
  {
    if b == [] {
      assert a + b == a;
    } else {
      var b', s := b[..|b| - 1], a + b;
      assert s[..|s| - 1] == a + b' && s[|s| - 1] == b[|b| - 1];
      BelowConcat(a, b', m);
    }
  }

  lemma {:induction false} BelowFirst(s: seq<nat>, j: nat, m: nat)
    requires j < |s|
    ensures Below(s[j..], m) == (if s[j] < m then [s[j]] else []) + Below(s[j + 1..], m)
    ensures Below(s[..j + 1], m) == Below(s[..j], m) + (if s[j] < m then [s[j]] else [])
  {
    assert s[j..] == [s[j]] + s[j + 1..];
    BelowConcat([s[j]], s[j + 1..], m);
    assert Below([s[j]], m) == if s[j] < m then [s[j]] else [];
    assert s[..j + 1][..j] == s[..j];
  }

  predicate NoneFrom(s: seq<nat>, lo: nat, hi: nat) {
    forall i :: 0 <= i < |s| ==> s[i] < lo || s[i] >= hi
  }

  lemma {:induction false} BelowSame(s: seq<nat>, lo: nat, hi: nat)
    requires lo <= hi && NoneFrom(s, lo, hi)
    ensures Below(s, lo) == Below(s, hi)
  {
    if s != [] {
      assert NoneFrom(s[..|s| - 1], lo, hi);
      BelowSame(s[..|s| - 1], lo, hi);
    }
  }

  lemma {:induction false} BelowAll(s: seq<nat>, n: nat)
    requires forall i :: 0 <= i < |s| ==> s[i] < n
    ensures Below(s, n) == s
  {
    if s != [] {
      BelowAll(s[..|s| - 1], n);
      assert s == s[..|s| - 1] + [s[|s| - 1]];
    }
  }

  /** How many code points are handled once those below `m`, and those equal to `m` in front of
      position `j`, are. */
  function Handled(s: seq<nat>, m: nat, j: nat): seq<nat>
    requires j <= |s|
  {
    Below(s[..j], m + 1) + Below(s[j..], m)
  }

  lemma {:induction false} HandledEnds(s: seq<nat>, m: nat)
    ensures Handled(s, m, 0) == Below(s, m) && Handled(s, m, |s|) == Below(s, m + 1)
  {
    assert s[..0] == [] && s[0..] == s && s[..|s|] == s && s[|s|..] == [];
  }

  // ----- The encoder's deltas, section 6.3

  /** The least code point that is `n` or more. */
  function LeastFrom(s: seq<nat>, n: nat): Option<nat> {
    if s == [] then None
    else
      var rest, c := LeastFrom(s[..|s| - 1], n), s[|s| - 1];
      if c >= n && (rest.None? || c < rest.value) then Some(c) else rest
  }

  lemma {:induction false} LeastFromIs(s: seq<nat>, n: nat)
    ensures var m := LeastFrom(s, n);
            && (m.None? ==> forall i :: 0 <= i < |s| ==> s[i] < n)
            && (m.Some? ==> m.value >= n && m.value in s && NoneFrom(s, n, m.value))
  {
    if s != [] {
      var k := |s| - 1;
      LeastFromIs(s[..k], n);
      assert forall i :: 0 <= i < k ==> s[i] == s[..k][i];
    }
  }

  /** A pass over the label from position `j` on: the deltas it emits, and the delta and the number of
      code points handled that it ends with. */
  function Pass(s: seq<nat>, m: nat, j: nat, delta: nat, h: nat): (seq<nat>, nat, nat)
    requires j <= |s|
    decreases |s| - j
  {
    if j == |s| then ([], delta, h)
    else if s[j] < m then Pass(s, m, j + 1, delta + 1, h)
    else if s[j] == m then
      var (ds, delta', h') := Pass(s, m, j + 1, 0, h + 1);
      ([delta] + ds, delta', h')
    else Pass(s, m, j + 1, delta, h)
  }

  lemma {:induction false} BelowGrows(s: seq<nat>, n: nat, m: nat)
    requires n <= m
    ensures |Below(s, n)| <= |Below(s, m)|
  {
    if s != [] { BelowGrows(s[..|s| - 1], n, m); }
  }

  lemma {:induction false} BelowGains(s: seq<nat>, n: nat, m: nat)
    requires n <= m && m in s
    ensures |Below(s, n)| < |Below(s, m + 1)|
  {
    var last := |s| - 1;
    if s[last] == m { BelowGrows(s[..last], n, m + 1); } else { BelowGains(s[..last], n, m); }
  }

  function Deltas(s: seq<nat>, n: nat, delta: nat, h: nat): seq<nat>
    decreases |s| - |Below(s, n)|
  {
    match LeastFrom(s, n)
    case None => []
    case Some(m) =>
      LeastFromIs(s, n);
      BelowGains(s, n, m);
      var (ds, delta', h') := Pass(s, m, 0, delta + Rounds(m - n, h + 1), h);
      ds + Deltas(s, m + 1, delta' + 1, h')
  }

  // ----- Insertion, the decoder's side

  function Insert(out: seq<nat>, pos: nat, c: nat): seq<nat>
    requires pos <= |out|
  {
    out[..pos] + [c] + out[pos..]
  }

  /** The decoder's state is the next code point, the next position and the text so far. */
  function Apply(ds: seq<nat>, n: nat, i: nat, out: seq<nat>): seq<nat> {
    if ds == [] then out
    else
      var (n', pos) := Advance(n, i + ds[0], |out| + 1);
      Apply(ds[1..], n', pos + 1, Insert(out, pos, n'))
  }

  /** Encoder and decoder agree on how far apart they are: `delta` insertions that the decoder would
      have to skip. */
  ghost predicate InStep(s: seq<nat>, m: nat, j: nat, delta: nat, h: nat, n: nat, i: nat) {
    && j <= |s| && h == |Handled(s, m, j)| && n <= m
    && delta + Rounds(n, h + 1) + i == Rounds(m, h + 1) + |Below(s[..j], m + 1)|
  }

  lemma {:induction false} PassSkips(s: seq<nat>, m: nat, j: nat, delta: nat, h: nat, n: nat, i: nat)
    requires j < |s| && s[j] != m && InStep(s, m, j, delta, h, n, i)
    ensures InStep(s, m, j + 1, if s[j] < m then delta + 1 else delta, h, n, i)
    ensures Handled(s, m, j + 1) == Handled(s, m, j)
  {
    BelowFirst(s, j, m);
    BelowFirst(s, j, m + 1);
    if s[j] < m {
      assert Below(s[..j], m + 1) + ([s[j]] + Below(s[j + 1..], m))
             == Below(s[..j], m + 1) + [s[j]] + Below(s[j + 1..], m);
    }
  }

  /** The decoder inserts a code point where the encoder met it. */
  lemma {:induction false} PassEmits(s: seq<nat>, m: nat, j: nat, delta: nat, h: nat, n: nat, i: nat)
    requires j < |s| && s[j] == m && InStep(s, m, j, delta, h, n, i)
    ensures var (n', pos) := Advance(n, i + delta, h + 1);
            && n' == m && pos == |Below(s[..j], m + 1)| <= h
            && Handled(s, m, j + 1) == Insert(Handled(s, m, j), pos, m)
            && InStep(s, m, j + 1, 0, h + 1, m, pos + 1)
  {
    var v, l, a, b := i + delta, h + 1, Below(s[..j], m + 1), Below(s[j + 1..], m);
    BelowFirst(s, j, m);
    BelowFirst(s, j, m + 1);
    RoundsSplit(m, n, l);
    RoundsMultiply(m - n, l);
    AdvanceRounds(n, v, l, m - n, |a|);
    assert Handled(s, m, j) == a + b && (a + b)[..|a|] == a && (a + b)[|a|..] == b;
    assert Handled(s, m, j + 1) == a + [m] + b;
  }

  lemma {:induction false} ApplyFirst(d: nat, ds: seq<nat>, more: seq<nat>, n: nat, i: nat, out: seq<nat>)
    ensures var (n', pos) := Advance(n, i + d, |out| + 1);
            Apply([d] + ds + more, n, i, out) == Apply(ds + more, n', pos + 1, Insert(out, pos, n'))
  {
    assert ([d] + ds + more)[1..] == ds + more;
  }

  /** The decoder after the deltas that a pass emits from position `j` on. */
  ghost predicate PassLeads(s: seq<nat>, m: nat, j: nat, delta: nat, h: nat, n: nat, i: nat, more: seq<nat>, n': nat,
                            i': nat)
    requires j <= |s|
  {
    var (ds, delta', h') := Pass(s, m, j, delta, h);
    && InStep(s, m, |s|, delta', h', n', i')
    && Apply(ds + more, n, i, Handled(s, m, j)) == Apply(more, n', i', Handled(s, m, |s|))
  }

  lemma {:induction false} EmitLeads(s: seq<nat>, m: nat, j: nat, delta: nat, h: nat, n: nat, i: nat, pos: nat,
                                     more: seq<nat>, n': nat, i': nat)
    requires j < |s| && s[j] == m && h == |Handled(s, m, j)| && Advance(n, i + delta, h + 1) == (m, pos)
    requires Handled(s, m, j + 1) == Insert(Handled(s, m, j), pos, m)
    requires PassLeads(s, m, j + 1, 0, h + 1, m, pos + 1, more, n', i')
    ensures PassLeads(s, m, j, delta, h, n, i, more, n', i')
  {
    ApplyFirst(delta, Pass(s, m, j + 1, 0, h + 1).0, more, n, i, Handled(s, m, j));
  }

  lemma {:induction false} SkipLeads(s: seq<nat>, m: nat, j: nat, delta: nat, h: nat, n: nat, i: nat, more: seq<nat>,
                                     n': nat, i': nat)
    requires j < |s| && s[j] != m && Handled(s, m, j + 1) == Handled(s, m, j)
    requires PassLeads(s, m, j + 1, if s[j] < m then delta + 1 else delta, h, n, i, more, n', i')
    ensures PassLeads(s, m, j, delta, h, n, i, more, n', i')
  {
  }

  /** A whole pass. */
  lemma {:induction false} PassApplies(s: seq<nat>, m: nat, j: nat, delta: nat, h: nat, n: nat, i: nat,
                                       more: seq<nat>)
    returns (n': nat, i': nat)
    requires InStep(s, m, j, delta, h, n, i)
    ensures PassLeads(s, m, j, delta, h, n, i, more, n', i')
    decreases |s| - j
  {
    if j == |s| {
      assert [] + more == more;
      n', i' := n, i;
    } else if s[j] == m {
      PassEmits(s, m, j, delta, h, n, i);
      var pos := Advance(n, i + delta, h + 1).1;
      n', i' := PassApplies(s, m, j + 1, 0, h + 1, m, pos + 1, more);
      EmitLeads(s, m, j, delta, h, n, i, pos, more, n', i');
    } else {
      PassSkips(s, m, j, delta, h, n, i);
      n', i' := PassApplies(s, m, j + 1, if s[j] < m then delta + 1 else delta, h, n, i, more);
      SkipLeads(s, m, j, delta, h, n, i, more, n', i');
    }
  }

  lemma {:induction false} PassStarts(s: seq<nat>, m: nat, n: nat, delta: nat, h: nat, n0: nat, i0: nat)
    requires h == |Below(s, m)| && n0 <= n <= m && delta + Rounds(n0, h + 1) + i0 == Rounds(n, h + 1)
    ensures InStep(s, m, 0, delta + Rounds(m - n, h + 1), h, n0, i0)
  {
    RoundsSplit(m, n, h + 1);
    HandledEnds(s, m);
    assert s[..0] == [];
  }

  lemma {:induction false} PassEnds(s: seq<nat>, m: nat, delta: nat, h: nat, n: nat, i: nat)
    requires InStep(s, m, |s|, delta, h, n, i)
    ensures h == |Below(s, m + 1)| && n <= m + 1 && delta + 1 + Rounds(n, h + 1) + i == Rounds(m + 1, h + 1)
  {
    HandledEnds(s, m);
    assert s[..|s|] == s;
  }

  lemma {:induction false} DeltasFirst(s: seq<nat>, n: nat, delta: nat, h: nat, m: nat)
    requires LeastFrom(s, n) == Some(m) && n <= m
    ensures var (ds, delta', h') := Pass(s, m, 0, delta + Rounds(m - n, h + 1), h);
            Deltas(s, n, delta, h) == ds + Deltas(s, m + 1, delta' + 1, h')
  {
  }

  /** Between the passes, where the decoder's state is `n0`, `i0`. */
  ghost predicate Between(s: seq<nat>, n: nat, delta: nat, h: nat, n0: nat, i0: nat) {
    h == |Below(s, n)| && n0 <= n && delta + Rounds(n0, h + 1) + i0 == Rounds(n, h + 1)
  }

  lemma {:induction false} PassBetween(s: seq<nat>, n: nat, delta: nat, h: nat, n0: nat, i0: nat)
      returns (n': nat, delta': nat, h': nat, n1: nat, i1: nat)
    requires Between(s, n, delta, h, n0, i0) && LeastFrom(s, n).Some?
    ensures Between(s, n', delta', h', n1, i1) && |Below(s, n)| < |Below(s, n')|
    ensures Apply(Deltas(s, n, delta, h), n0, i0, Below(s, n)) == Apply(Deltas(s, n', delta', h'), n1, i1, Below(s, n'))
  {
    var m := LeastFrom(s, n).value;
    LeastFromIs(s, n);
    BelowGains(s, n, m);
    BelowSame(s, n, m);
    HandledEnds(s, m);
    PassStarts(s, m, n, delta, h, n0, i0);
    var start := delta + Rounds(m - n, h + 1);
    var pass := Pass(s, m, 0, start, h);
    n', delta', h' := m + 1, pass.1 + 1, pass.2;
    n1, i1 := PassApplies(s, m, 0, start, h, n0, i0, Deltas(s, n', delta', h'));
    PassEnds(s, m, pass.1, h', n1, i1);
    DeltasFirst(s, n, delta, h, m);
  }

  lemma {:induction false} NoPassLeft(s: seq<nat>, n: nat, delta: nat, h: nat)
    requires LeastFrom(s, n).None?
    ensures Deltas(s, n, delta, h) == [] && Below(s, n) == s
  {
    LeastFromIs(s, n);
    BelowAll(s, n);
  }

  /** All passes. */
  lemma {:induction false} DeltasApply(s: seq<nat>, n: nat, delta: nat, h: nat, n0: nat, i0: nat)
    requires Between(s, n, delta, h, n0, i0)
    ensures Apply(Deltas(s, n, delta, h), n0, i0, Below(s, n)) == s
    decreases |s| - |Below(s, n)|
  {
    if LeastFrom(s, n).None? {
      NoPassLeft(s, n, delta, h);
    } else {
      var n', delta', h', n1, i1 := PassBetween(s, n, delta, h, n0, i0);
      DeltasApply(s, n', delta', h', n1, i1);
    }
  }

  // ----- Text

  function Coded(ds: seq<nat>, bias: nat, h: nat, first: bool, adapt: Adaptation): seq<nat> {
    if ds == [] then []
    else Digits(ds[0], BASE, bias) + Coded(ds[1..], adapt(ds[0], h, first), h + 1, false, adapt)
  }

  /** Section 6.2, without the basic code points. */
  function DecodeDigits(s: seq<nat>, n: nat, i: nat, bias: nat, out: seq<nat>, adapt: Adaptation): Option<seq<nat>>
    decreases |s|
  {
    if s == [] then Some(out)
    else
      match ReadInteger(s, i, 1, BASE, bias)
      case None => None
      case Some((v, rest)) =>
        var (n', pos) := Advance(n, v, |out| + 1);
        DecodeDigits(rest, n', pos + 1, adapt(v - i, |out|, i == 0), Insert(out, pos, n'), adapt)
  }

  lemma {:induction false} DecodeFirst(s: seq<nat>, n: nat, i: nat, bias: nat, out: seq<nat>, v: nat, rest: seq<nat>,
                                       adapt: Adaptation)
    requires s != [] && ReadInteger(s, i, 1, BASE, bias) == Some((v, rest)) && v >= i
    ensures var (n', pos) := Advance(n, v, |out| + 1);
            DecodeDigits(s, n, i, bias, out, adapt)
            == DecodeDigits(rest, n', pos + 1, adapt(v - i, |out|, i == 0), Insert(out, pos, n'), adapt)
  {
  }

  lemma {:induction false} CodedFirst(ds: seq<nat>, bias: nat, h: nat, first: bool, adapt: Adaptation)
    requires ds != []
    ensures Coded(ds, bias, h, first, adapt)
            == Digits(ds[0], BASE, bias) + Coded(ds[1..], adapt(ds[0], h, first), h + 1, false, adapt)
  {
  }

  /** An integer is read, and its code point inserted. */
  lemma {:induction false} DecodeDelta(d: nat, rest: seq<nat>, n: nat, i: nat, bias: nat, out: seq<nat>, n': nat,
                                       pos: nat, adapt: Adaptation)
    requires Advance(n, i + d, |out| + 1) == (n', pos)
    ensures DecodeDigits(Digits(d, BASE, bias) + rest, n, i, bias, out, adapt)
            == DecodeDigits(rest, n', pos + 1, adapt(d, |out|, i == 0), Insert(out, pos, n'), adapt)
  {
    ReadUndoesDigits(d, i, 1, BASE, bias, rest);
    RoundsMultiply(d, 1);
    DecodeFirst(Digits(d, BASE, bias) + rest, n, i, bias, out, i + d, rest, adapt);
  }

  lemma {:induction false} ApplyOne(ds: seq<nat>, n: nat, i: nat, out: seq<nat>, n': nat, pos: nat)
    requires ds != [] && Advance(n, i + ds[0], |out| + 1) == (n', pos)
    ensures Apply(ds, n, i, out) == Apply(ds[1..], n', pos + 1, Insert(out, pos, n'))
            && |Insert(out, pos, n')| == |out| + 1
  {
  }

  lemma {:induction false} DecodeCodedFirst(ds: seq<nat>, n: nat, i: nat, bias: nat, out: seq<nat>, adapt: Adaptation)
      returns (n': nat, i': nat, bias': nat, out': seq<nat>)
    requires ds != []
    ensures DecodeDigits(Coded(ds, bias, |out|, i == 0, adapt), n, i, bias, out, adapt)
            == DecodeDigits(Coded(ds[1..], bias', |out'|, false, adapt), n', i', bias', out', adapt)
    ensures Apply(ds, n, i, out) == Apply(ds[1..], n', i', out') && i' > 0
  {
    var (n1, pos) := Advance(n, i + ds[0], |out| + 1);
    n', i', bias', out' := n1, pos + 1, adapt(ds[0], |out|, i == 0), Insert(out, pos, n1);
    ApplyOne(ds, n, i, out, n1, pos);
    CodedFirst(ds, bias, |out|, i == 0, adapt);
    var rest := Coded(ds[1..], bias', |out'|, false, adapt);
    DecodeDelta(ds[0], rest, n, i, bias, out, n1, pos, adapt);
  }

  lemma {:induction false} DecodeUndoesCoded(ds: seq<nat>, n: nat, i: nat, bias: nat, out: seq<nat>, adapt: Adaptation)
    ensures DecodeDigits(Coded(ds, bias, |out|, i == 0, adapt), n, i, bias, out, adapt) == Some(Apply(ds, n, i, out))
    decreases |ds|
  {
    if ds != [] {
      var n', i', bias', out' := DecodeCodedFirst(ds, n, i, bias, out, adapt);
      DecodeUndoesCoded(ds[1..], n', i', bias', out', adapt);
    }
  }

  function Digit(d: nat): char
    requires d < BASE
  {
    if d < 26 then 'a' + d as char else '0' + (d - 26) as char
  }

  function DigitOf(c: char): Option<nat> {
    if 'a' <= c <= 'z' then Some((c - 'a') as nat)
    else if 'A' <= c <= 'Z' then Some((c - 'A') as nat)
    else if '0' <= c <= '9' then Some((c - '0') as nat + 26)
    else None
  }

  predicate IsDigits(s: seq<nat>) {
    forall i :: 0 <= i < |s| ==> s[i] < BASE
  }

  function DigitChars(s: seq<nat>): (r: string)
    requires IsDigits(s)
    ensures |r| == |s|
  {
    seq(|s|, i requires 0 <= i < |s| => Digit(s[i]))
  }

  function DigitsOf(s: string): Option<seq<nat>> {
    if s == "" then Some([])
    else
      match DigitsOf(s[..|s| - 1])
      case None => None
      case Some(ds) => if DigitOf(s[|s| - 1]).None? then None else Some(ds + [DigitOf(s[|s| - 1]).value])
  }

  lemma {:induction false} DigitsRoundTrip(s: seq<nat>)
    requires IsDigits(s)
    ensures DigitsOf(DigitChars(s)) == Some(s)
    ensures '-' !in DigitChars(s)
  {
    if s != [] {
      var s' := s[..|s| - 1];
      DigitsRoundTrip(s');
      assert DigitChars(s)[..|s| - 1] == DigitChars(s');
      assert s == s' + [s[|s| - 1]];
    }
  }

  predicate IsBasic(s: seq<nat>) {
    forall i :: 0 <= i < |s| ==> s[i] < INITIAL_N
  }

  function Chars(s: seq<nat>): (r: string)
    requires IsBasic(s)
    ensures |r| == |s|
  {
    seq(|s|, i requires 0 <= i < |s| => s[i] as char)
  }

  function CodePoints(s: string): (r: seq<nat>)
    ensures |r| == |s|
  {
    seq(|s|, i requires 0 <= i < |s| => s[i] as nat)
  }

  lemma {:induction false} BelowIsBasic(s: seq<nat>)
    ensures IsBasic(Below(s, INITIAL_N))
  {
    if s != [] { BelowIsBasic(s[..|s| - 1]); }
  }

  lemma {:induction false} CharsConcat(a: seq<nat>, b: seq<nat>)
    requires IsDigits(a) && IsDigits(b)
    ensures IsDigits(a + b) && DigitChars(a + b) == DigitChars(a) + DigitChars(b)
  {
  }

  /** The characters of an integer. */
  function Integer(q: nat, k: nat, bias: nat): string
    decreases q
  {
    var t := Threshold(k, bias);
    if q < t then [Digit(q)]
    else
      var (high, low) := Advance(0, q - t, BASE - t);
      [Digit(t + low)] + Integer(high, k + BASE, bias)
  }

  lemma {:induction false} IntegerIsDigits(q: nat, k: nat, bias: nat)
    ensures IsDigits(Digits(q, k, bias)) && Integer(q, k, bias) == DigitChars(Digits(q, k, bias))
    decreases q
  {
    var t := Threshold(k, bias);
    if q >= t {
      var (high, low) := Advance(0, q - t, BASE - t);
      IntegerIsDigits(high, k + BASE, bias);
      CharsConcat([t + low], Digits(high, k + BASE, bias));
      assert DigitChars([t + low]) == [Digit(t + low)];
    } else {
      assert DigitChars([q]) == [Digit(q)];
    }
  }

  /** What the encoder has yet to write. */
  function Ahead(ds: seq<nat>, bias: nat, h: nat, first: bool, adapt: Adaptation): string {
    if ds == [] then ""
    else Integer(ds[0], BASE, bias) + Ahead(ds[1..], adapt(ds[0], h, first), h + 1, false, adapt)
  }

  lemma {:induction false} AheadIsCoded(ds: seq<nat>, bias: nat, h: nat, first: bool, adapt: Adaptation)
    ensures IsDigits(Coded(ds, bias, h, first, adapt))
            && Ahead(ds, bias, h, first, adapt) == DigitChars(Coded(ds, bias, h, first, adapt))
    decreases |ds|
  {
    if ds != [] {
      var bias' := adapt(ds[0], h, first);
      CodedFirst(ds, bias, h, first, adapt);
      IntegerIsDigits(ds[0], BASE, bias);
      AheadIsCoded(ds[1..], bias', h + 1, false, adapt);
      CharsConcat(Digits(ds[0], BASE, bias), Coded(ds[1..], bias', h + 1, false, adapt));
    }
  }

  lemma {:induction false} AheadFirst(d: nat, ds: seq<nat>, bias: nat, h: nat, first: bool, adapt: Adaptation)
    ensures Ahead([d] + ds, bias, h, first, adapt)
            == Integer(d, BASE, bias) + Ahead(ds, adapt(d, h, first), h + 1, false, adapt)
  {
    assert ([d] + ds)[1..] == ds;
  }

  function BasicText(s: seq<nat>): string {
    if s == [] then ""
    else BasicText(s[..|s| - 1]) + (if s[|s| - 1] < 128 then [s[|s| - 1] as char] else "")
  }

  lemma {:induction false} BasicTextIs(s: seq<nat>)
    ensures IsBasic(Below(s, INITIAL_N)) && BasicText(s) == Chars(Below(s, INITIAL_N))
  {
    BelowIsBasic(s);
    if s != [] { BasicTextIs(s[..|s| - 1]); }
  }

  /** Section 6.3. */
  function Encode(s: seq<nat>): string {
    var h := |Below(s, INITIAL_N)|;
    BasicText(s) + (if h == 0 then "" else "-") + Ahead(Deltas(s, INITIAL_N, 0, h), INITIAL_BIAS, h, true, Adapt)
  }

  /** The position of the last delimiter, or zero. */
  function LastDelimiter(s: string): (p: nat)
    ensures s == "" ==> p == 0
    ensures s != "" ==> p < |s|
  {
    if s == "" then 0 else if s[|s| - 1] == '-' then |s| - 1 else LastDelimiter(s[..|s| - 1])
  }

  /** Section 6.2: what precedes the last delimiter is copied, what follows says what to insert. */
  function Decode(s: string): Option<seq<nat>> {
    var p := LastDelimiter(s);
    var basic := CodePoints(s[..p]);
    if !IsBasic(basic) then None
    else
      match DigitsOf(if p > 0 then s[p + 1..] else s)
      case None => None
      case Some(ds) => DecodeDigits(ds, INITIAL_N, 0, INITIAL_BIAS, basic, Adapt)
  }

  lemma {:induction false} DelimiterBefore(a: string, digits: string)
    requires '-' !in digits
    ensures LastDelimiter(a + "-" + digits) == |a|
  {
    var s := a + "-" + digits;
    if digits == "" {
      assert s[|s| - 1] == '-';
    } else {
      var k := |digits| - 1;
      assert s[|s| - 1] == digits[k] && s[..|s| - 1] == a + "-" + digits[..k];
      DelimiterBefore(a, digits[..k]);
    }
  }

  lemma {:induction false} NoDelimiter(digits: string)
    requires '-' !in digits
    ensures LastDelimiter(digits) == 0
  {
    if digits != "" {
      NoDelimiter(digits[..|digits| - 1]);
    }
  }

  /** Decoding splits the text where encoding joined it. */
  lemma {:induction false} SplitUndoesJoin(basic: seq<nat>, ds: seq<nat>)
    requires IsBasic(basic) && IsDigits(ds)
    ensures Decode(Chars(basic) + (if basic == [] then "" else "-") + DigitChars(ds))
            == DecodeDigits(ds, INITIAL_N, 0, INITIAL_BIAS, basic, Adapt)
  {
    var a, digits := Chars(basic), DigitChars(ds);
    DigitsRoundTrip(ds);
    if basic == [] {
      var s := a + "" + digits;
      assert s == digits;
      NoDelimiter(digits);
      assert CodePoints(s[..0]) == basic;
    } else {
      var s := a + "-" + digits;
      DelimiterBefore(a, digits);
      assert s[..|a|] == a && s[|a| + 1..] == digits;
      assert CodePoints(a) == basic;
    }
  }

  // ----- Decoding never makes a text longer

  lemma {:induction false} DigitsInsertFew(s: seq<nat>, n: nat, i: nat, bias: nat, out: seq<nat>, adapt: Adaptation)
    ensures var r := DecodeDigits(s, n, i, bias, out, adapt); r.Some? ==> |r.value| <= |out| + |s|
    decreases |s|
  {
    if s != [] && ReadInteger(s, i, 1, BASE, bias).Some? {
      var (v, rest) := ReadInteger(s, i, 1, BASE, bias).value;
      var (n', pos) := Advance(n, v, |out| + 1);
      DecodeFirst(s, n, i, bias, out, v, rest, adapt);
      DigitsInsertFew(rest, n', pos + 1, adapt(v - i, |out|, i == 0), Insert(out, pos, n'), adapt);
    }
  }

  lemma {:induction false} DigitsOfLength(s: string)
    ensures DigitsOf(s).Some? ==> |DigitsOf(s).value| == |s|
  {
    if s != "" { DigitsOfLength(s[..|s| - 1]); }
  }

  lemma {:induction false} DecodeShortens(s: string)
    ensures Decode(s).Some? ==> |Decode(s).value| <= |s|
  {
    var p := LastDelimiter(s);
    var basic, rest := CodePoints(s[..p]), if p > 0 then s[p + 1..] else s;
    DigitsOfLength(rest);
    if Decode(s).Some? {
      DigitsInsertFew(DigitsOf(rest).value, INITIAL_N, 0, INITIAL_BIAS, basic, Adapt);
    }
  }

  /** Decoding undoes encoding, for every label. */
  lemma {:induction false} RoundTrip(s: seq<nat>)
    ensures Decode(Encode(s)) == Some(s)
  {
    var basic := Below(s, INITIAL_N);
    var ds := Deltas(s, INITIAL_N, 0, |basic|);
    BasicTextIs(s);
    AheadIsCoded(ds, INITIAL_BIAS, |basic|, true, Adapt);
    SplitUndoesJoin(basic, Coded(ds, INITIAL_BIAS, |basic|, true, Adapt));
    DecodeUndoesCoded(ds, INITIAL_N, 0, INITIAL_BIAS, basic, Adapt);
    DeltasApply(s, INITIAL_N, 0, |basic|, INITIAL_N, 0);
  }
}
