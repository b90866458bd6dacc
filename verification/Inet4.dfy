/** IPv4 addresses as text: four decimal numbers with full stops between them. */
module Inet4 {
  import opened ByteStrings
  import opened UvErrors

  // ----- The printer

  function Decimal(n: nat): char
    requires n < 10
  {
    '0' + n as char
  }

  /** A byte in decimal, without leading zeros. */
  function Octet(n: Byte): string {
    if n < 10 then [Decimal(n)]
    else if n < 100 then [Decimal(n / 10), Decimal(n % 10)]
    else [Decimal(n / 100), Decimal(n / 10 % 10), Decimal(n % 10)]
  }

  function Text4(q: Bytes): string
    requires |q| == 4
  {
    Octet(q[0]) + "." + Octet(q[1]) + "." + Octet(q[2]) + "." + Octet(q[3])
  }

  /** `inet_ntop4`: the text and its end mark must fit. */
  method Ntop4(src: Bytes, size: nat) returns (rc: int, dst: string)
    requires |src| == 4
    ensures rc == 0 || rc == UV_ENOSPC
    ensures rc == 0 <==> |Text4(src)| < size
    ensures rc == 0 ==> dst == Text4(src)
  {
    var tmp := Text4(src);
    if |tmp| >= size { return UV_ENOSPC, ""; }
    return 0, tmp;
  }

  // ----- The parser

  /** The bytes begun, whether the last one has a digit, and how many have one. */
  datatype State = State(tmp: Bytes, saw: bool, octets: nat)

  const START := State([0], false, 0)

  ghost predicate Wf(st: State) {
    && 1 <= |st.tmp| <= 4 && st.octets == |st.tmp| - (if st.saw then 0 else 1)
    && (!st.saw ==> st.tmp[|st.tmp| - 1] == 0)
  }

  function DigitOf(ch: char): Option<nat> {
    if '0' <= ch <= '9' then Some((ch - '0') as nat) else None
  }

  function Step(st: State, ch: char): (r: Option<State>)
    requires Wf(st)
    ensures r.Some? ==> Wf(r.value)
  {
    var last := |st.tmp| - 1;
    match DigitOf(ch)
    case Some(d) =>
      var nw := st.tmp[last] * 10 + d;
      if (st.saw && st.tmp[last] == 0) || nw > 255 || (!st.saw && st.octets + 1 > 4) then None
      else Some(State(st.tmp[last := nw], true, if st.saw then st.octets else st.octets + 1))
    case None =>
      if ch != '.' || !st.saw || st.octets == 4 then None
      else Some(State(st.tmp + [0], false, st.octets))
  }

  function Run(s: string, st: State): (r: Option<State>)
    requires Wf(st)
    ensures r.Some? ==> Wf(r.value)
  {
    if s == "" then Some(st)
    else
      match Step(st, s[0])
      case None => None
      case Some(st') => Run(s[1..], st')
  }

  function Parse4(s: string): (r: Option<Bytes>)
    ensures r.Some? ==> |r.value| == 4
  {
    match Run(s, START)
    case None => None
    case Some(st) => if st.octets < 4 then None else Some(st.tmp)
  }

  // ----- The parser accepts what the printer prints, and nothing else

  /** Numbers with a full stop behind each. */
  function Stopped(t: Bytes): string {
    if t == [] then "" else Stopped(t[..|t| - 1]) + Octet(t[|t| - 1]) + "."
  }

  /** The text that leads to a state. */
  ghost function Rendered(st: State): string
    requires Wf(st)
  {
    var last := |st.tmp| - 1;
    Stopped(st.tmp[..last]) + (if st.saw then Octet(st.tmp[last]) else "")
  }

  lemma OctetGrows(n: Byte, d: nat)
    requires n != 0 && d < 10 && n * 10 + d <= 255
    ensures Octet(n * 10 + d) == Octet(n) + [Decimal(d)]
  {
  }

  lemma {:induction false} StepRenders(st: State, ch: char)
    requires Wf(st) && Step(st, ch).Some?
    ensures Rendered(Step(st, ch).value) == Rendered(st) + [ch]
  {
    var last, st' := |st.tmp| - 1, Step(st, ch).value;
    var before := Stopped(st.tmp[..last]);
    match DigitOf(ch)
    case Some(d) =>
      assert st'.tmp[..last] == st.tmp[..last];
      assert Decimal(d) == ch;
      if st.saw { OctetGrows(st.tmp[last], d); }
    case None =>
      assert st'.tmp[..last + 1] == st.tmp;
      assert Stopped(st.tmp) == before + Octet(st.tmp[last]) + ".";
  }

  lemma {:induction false} RunRenders(s: string, st: State)
    requires Wf(st) && Run(s, st).Some?
    ensures Rendered(Run(s, st).value) == Rendered(st) + s
  {
    if s != "" {
      var st' := Step(st, s[0]).value;
      StepRenders(st, s[0]);
      RunRenders(s[1..], st');
      assert s == [s[0]] + s[1..];
    }
  }

  lemma {:induction false} StoppedThree(q: Bytes)
    requires |q| == 4
    ensures Stopped(q[..3]) + Octet(q[3]) == Text4(q)
  {
    assert q[..3][..2] == q[..2] && q[..2][..1] == q[..1] && q[..1][..0] == [];
    assert Stopped(q[..0]) == "";
    assert Stopped(q[..1]) == Octet(q[0]) + ".";
    assert Stopped(q[..2]) == Octet(q[0]) + "." + Octet(q[1]) + ".";
  }

  lemma {:induction false} ParsedIsPrinted(s: string)
    requires Parse4(s).Some?
    ensures s == Text4(Parse4(s).value)
  {
    RunRenders(s, START);
    var st := Run(s, START).value;
    assert Rendered(START) == "";
    StoppedThree(st.tmp);
  }

  lemma {:induction false} RunFirst(ch: char, s: string, st: State, st': State)
    requires Wf(st) && Step(st, ch) == Some(st')
    ensures Run([ch] + s, st) == Run(s, st')
  {
    assert ([ch] + s)[1..] == s;
  }

  lemma {:induction false} DigitStep(t: Bytes, v: Byte, saw: bool, d: nat)
    requires |t| < 4 && d < 10 && v * 10 + d <= 255 && (if saw then v != 0 else v == 0)
    ensures Step(State(t + [v], saw, if saw then |t| + 1 else |t|), Decimal(d))
            == Some(State(t + [v * 10 + d], true, |t| + 1))
  {
    assert (t + [v])[|t| := v * 10 + d] == t + [v * 10 + d];
  }

  /** A whole number is read. */
  lemma {:induction false} OctetRuns(n: Byte, t: Bytes, s: string)
    requires |t| < 4
    ensures Run(Octet(n) + s, State(t + [0], false, |t|)) == Run(s, State(t + [n], true, |t| + 1))
  {
    var start := State(t + [0], false, |t|);
    var digits := if n < 10 then [n] else if n < 100 then [n / 10, n % 10] else [n / 100, n / 10 % 10, n % 10];
    var st := State(t + [digits[0]], true, |t| + 1);
    DigitStep(t, 0, false, digits[0]);
    if n < 10 {
      RunFirst(Decimal(n), s, start, st);
    } else if n < 100 {
      DigitStep(t, n / 10, true, n % 10);
      RunFirst(Decimal(n % 10), s, st, State(t + [n], true, |t| + 1));
      assert Octet(n) + s == [Decimal(n / 10)] + ([Decimal(n % 10)] + s);
      RunFirst(Decimal(n / 10), [Decimal(n % 10)] + s, start, st);
    } else {
      var st2 := State(t + [n / 10], true, |t| + 1);
      DigitStep(t, n / 100, true, n / 10 % 10);
      DigitStep(t, n / 10, true, n % 10);
      var s2 := [Decimal(n % 10)] + s;
      RunFirst(Decimal(n % 10), s, st2, State(t + [n], true, |t| + 1));
      RunFirst(Decimal(n / 10 % 10), s2, st, st2);
      assert Octet(n) + s == [Decimal(n / 100)] + ([Decimal(n / 10 % 10)] + s2);
      RunFirst(Decimal(n / 100), [Decimal(n / 10 % 10)] + s2, start, st);
    }
  }

  lemma {:induction false} StopRuns(n: Byte, t: Bytes, s: string)
    requires |t| < 3
    ensures Run(Octet(n) + "." + s, State(t + [0], false, |t|)) == Run(s, State(t + [n] + [0], false, |t| + 1))
  {
    OctetRuns(n, t, "." + s);
    assert Octet(n) + "." + s == Octet(n) + ("." + s);
    RunFirst('.', s, State(t + [n], true, |t| + 1), State(t + [n] + [0], false, |t| + 1));
    assert "." + s == ['.'] + s;
  }

  lemma {:induction false} LastTwoRun(a: Byte, b: Byte, c: Byte, d: Byte)
    ensures Run(Octet(c) + "." + Octet(d), State([a, b] + [0], false, 2)) == Some(State([a, b, c, d], true, 4))
  {
    StopRuns(c, [a, b], Octet(d));
    assert [a, b] + [c] + [0] == [a, b, c] + [0];
    OctetRuns(d, [a, b, c], "");
    assert Octet(d) + "" == Octet(d) && [a, b, c] + [d] == [a, b, c, d];
  }

  lemma {:induction false} FirstTwoRun(a: Byte, b: Byte, s: string)
    ensures Run(Octet(a) + "." + (Octet(b) + "." + s), START) == Run(s, State([a, b] + [0], false, 2))
  {
    assert [] + [0] == [0];
    StopRuns(a, [], Octet(b) + "." + s);
    assert [] + [a] + [0] == [a] + [0];
    StopRuns(b, [a], s);
    assert [a] + [b] + [0] == [a, b] + [0];
  }

  lemma Regroup(a: string, b: string, c: string, d: string)
    ensures a + "." + b + "." + c + "." + d == a + "." + (b + "." + (c + "." + d))
  {
  }

  lemma {:induction false} PrintedParses(q: Bytes)
    requires |q| == 4
    ensures Parse4(Text4(q)) == Some(q)
  {
    FirstTwoRun(q[0], q[1], Octet(q[2]) + "." + Octet(q[3]));
    LastTwoRun(q[0], q[1], q[2], q[3]);
    Regroup(Octet(q[0]), Octet(q[1]), Octet(q[2]), Octet(q[3]));
    assert q == [q[0], q[1], q[2], q[3]];
  }

  lemma {:induction false} RunStep(s: string, i: nat, st: State)
    requires i < |s| && Wf(st)
    ensures Run(s[i..], st) == match Step(st, s[i]) case None => None case Some(st') => Run(s[i + 1..], st')
  {
    assert s[i..][0] == s[i] && s[i..][1..] == s[i + 1..];
  }

  /** The loop of `inet_pton4`. */
  method ParseOctets(src: string, tmp: array<Byte>) returns (ok: bool, octets: nat)
    requires tmp.Length == 4
    modifies tmp
    ensures ok == (Run(src, START).Some?)
    ensures ok ==> var st := Run(src, START).value; octets == st.octets && tmp[..|st.tmp|] == st.tmp
  {
    var tp, saw := 0, false;
    octets := 0;
    tmp[0] := 0;
    assert src[0..] == src && tmp[..1] == [0];
    for i := 0 to |src|
      invariant 0 <= tp < 4 && Wf(State(tmp[..tp + 1], saw, octets))
      invariant Run(src, START) == Run(src[i..], State(tmp[..tp + 1], saw, octets))
    {
      var ch := src[i];
      ghost var st := State(tmp[..tp + 1], saw, octets);
      RunStep(src, i, st);
      if DigitOf(ch).Some? {
        var nw := tmp[tp] * 10 + DigitOf(ch).value;
        if saw && tmp[tp] == 0 { return false, octets; }
        if nw > 255 { return false, octets; }
        tmp[tp] := nw;
        assert tmp[..tp + 1] == st.tmp[tp := nw];
        if !saw {
          octets := octets + 1;
          if octets > 4 { return false, octets; }
          saw := true;
        }
      } else if ch == '.' && saw {
        if octets == 4 { return false, octets; }
        tp := tp + 1;
        tmp[tp] := 0;
        assert tmp[..tp + 1] == st.tmp + [0];
        saw := false;
      } else {
        return false, octets;
      }
    }
    ok := true;
  }

  /** `inet_pton4`: accepts exactly the texts that the printer prints. */
  method Pton4(src: string) returns (rc: int, dst: Bytes)
    ensures rc == 0 || rc == UV_EINVAL
    ensures rc == 0 ==> |dst| == 4 && src == Text4(dst)
    ensures rc != 0 ==> forall q: Bytes :: |q| == 4 ==> src != Text4(q)
    ensures rc == 0 <==> Parse4(src).Some?
    ensures rc == 0 ==> Parse4(src) == Some(dst)
  {
    var tmp := new Byte[4];
    var ok, octets := ParseOctets(src, tmp);
    forall q: Bytes | |q| == 4 && src == Text4(q)
      ensures Parse4(src).Some?
    {
      PrintedParses(q);
    }
    if !ok || octets < 4 { return UV_EINVAL, []; }
    ParsedIsPrinted(src);
    assert tmp[..4] == tmp[..];
    rc, dst := 0, tmp[..];
  }
}
