/** The IPv6 parser at work. */
module Inet6Code {
  import opened ByteStrings
  import opened UvErrors
  import opened Inet4
  import opened Inet6
  import opened Inet6Parser
  import opened Inet6Grammar

  /** Makes room for the zeros that a double colon stands for, in place and from the end. */
  method Shift(tmp: array<Byte>, colon: nat, tp: nat)
    requires tmp.Length == 16 && colon <= tp < 16 && forall k :: tp <= k < 16 ==> tmp[k] == 0
    modifies tmp
    ensures tmp[..] == Spread(old(tmp[..tp]), colon)
  {
    var n := tp - colon;
    for i := 1 to n + 1
      invariant forall k :: 0 <= k < tp - (i - 1) ==> tmp[k] == old(tmp[k])
      invariant forall k :: tp - (i - 1) <= k < 16 - (i - 1) ==> tmp[k] == 0
      invariant forall k :: 16 - (i - 1) <= k < 16 ==> tmp[k] == old(tmp[k - (16 - tp)])
    {
      tmp[16 - i] := tmp[colon + n - i];
      tmp[colon + n - i] := 0;
    }
  }

  ghost predicate Holds(tmp: array<Byte>, tp: nat, bytes: Bytes)
    reads tmp
  {
    tmp.Length == 16 && tp == |bytes| <= 16 && tmp[..tp] == bytes && forall k :: tp <= k < 16 ==> tmp[k] == 0
  }

  /** Stores bytes behind those that are there. */
  method Store(tmp: array<Byte>, tp: nat, more: Bytes, ghost bytes: Bytes)
    requires Holds(tmp, tp, bytes) && tp + |more| <= 16
    modifies tmp
    ensures Holds(tmp, tp + |more|, bytes + more)
  {
    for i := 0 to |more|
      invariant Holds(tmp, tp + i, bytes + more[..i])
    {
      tmp[tp + i] := more[i];
      assert tmp[..tp + i + 1] == bytes + more[..i + 1];
    }
    assert more[..|more|] == more;
  }

  lemma {:induction false} RunStep(s: string, i: nat, cur: string, st: Scan)
    requires i < |s| && Inet6Parser.Wf(st)
    ensures Run6(s[i..], cur, st)
            == if HexOf(s[i]).Some? then
                 if st.seen + 1 > 4 then None
                 else Run6(s[i + 1..], cur, st.(seen := st.seen + 1, val := st.val * 16 + HexOf(s[i]).value))
               else if s[i] == ':' then
                 if st.seen == 0 then
                   if st.colon != -1 then None else Run6(s[i + 1..], s[i + 1..], st.(colon := |st.bytes|))
                 else if i + 1 == |s| || |st.bytes| + 2 > 16 then None
                 else Run6(s[i + 1..], s[i + 1..], st.(bytes := st.bytes + Pair(st.val), seen := 0, val := 0))
               else if s[i] == '.' && |st.bytes| + 4 <= 16 && Parse4(cur).Some? then
                 Some(st.(bytes := st.bytes + Parse4(cur).value, seen := 0))
               else None
  {
    assert s[i..][0] == s[i] && s[i..][1..] == s[i + 1..];
  }

  /** The loop over the characters. */
  method ScanText(s: string, tmp: array<Byte>) returns (ok: bool, tp: nat, colon: int, seen: nat, val: nat)
    requires tmp.Length == 16 && forall k :: 0 <= k < 16 ==> tmp[k] == 0
    modifies tmp
    ensures ok == Run6(s, s, EMPTY).Some?
    ensures ok ==> var st := Run6(s, s, EMPTY).value;
                   Holds(tmp, tp, st.bytes) && colon == st.colon && seen == st.seen && val == st.val
  {
    ok, tp, colon, seen, val := false, 0, -1, 0, 0;
    var cur := s;
    ghost var st := EMPTY;
    assert s[0..] == s;
    for i := 0 to |s|
      invariant Inet6Parser.Wf(st) && Holds(tmp, tp, st.bytes) && colon == st.colon && seen == st.seen && val == st.val
      invariant Run6(s, s, EMPTY) == Run6(s[i..], cur, st)
    {
      var ch := s[i];
      RunStep(s, i, cur, st);
      if HexOf(ch).Some? {
        val := val * 16 + HexOf(ch).value;
        seen := seen + 1;
        if seen > 4 { return; }
        st := st.(seen := seen, val := val);
      } else if ch == ':' {
        cur := s[i + 1..];
        if seen == 0 {
          if colon != -1 { return; }
          colon := tp;
          st := st.(colon := tp);
        } else {
          if i + 1 == |s| { return; }
          if tp + 2 > 16 { return; }
          Store(tmp, tp, Pair(val), st.bytes);
          st := st.(bytes := st.bytes + Pair(val), seen := 0, val := 0);
          tp, seen, val := tp + 2, 0, 0;
        }
      } else {
        if ch != '.' || tp + 4 > 16 { return; }
        var rc, q := Pton4(cur);
        if rc != 0 { return; }
        Store(tmp, tp, q, st.bytes);
        tp, seen, ok := tp + 4, 0, true;
        return;
      }
    }
    ok := true;
  }

  /** `inet_pton6`: accepts exactly the texts of RFC 4291 and returns the address they denote. */
  method Pton6(src: string) returns (rc: int, dst: Bytes)
    ensures rc == 0 || rc == UV_EINVAL
    ensures rc == 0 ==> exists f :: Denotes(f, src, dst)
    ensures rc != 0 ==> forall f, a :: !Denotes(f, src, a)
    ensures rc == 0 <==> Parse6(src).Some?
    ensures rc == 0 ==> Parse6(src) == Some(dst)
  {
    forall f, a | Denotes(f, src, a) ensures Parse6(src) == Some(a) {
      DenotedParses(f, src, a);
    }
    if Parse6(src).Some? { ghost var f := ParsedDenotes(src); }
    var s := src;
    if src != "" && src[0] == ':' {
      s := src[1..];
      if s == "" || s[0] != ':' { return UV_EINVAL, []; }
    }
    rc, dst := ParseGroups(s);
  }

  method ParseGroups(s: string) returns (rc: int, dst: Bytes)
    ensures rc == 0 || rc == UV_EINVAL
    ensures rc == 0 <==> Run6(s, s, EMPTY).Some? && Finish(Run6(s, s, EMPTY).value).Some?
    ensures rc == 0 ==> Finish(Run6(s, s, EMPTY).value) == Some(dst)
  {
    var tmp := new Byte[16](_ => 0);
    var ok, tp, colon, seen, val := ScanText(s, tmp);
    if !ok { return UV_EINVAL, []; }
    ghost var bytes := Run6(s, s, EMPTY).value.bytes;
    if seen > 0 {
      if tp + 2 > 16 { return UV_EINVAL, []; }
      Store(tmp, tp, Pair(val), bytes);
      tp := tp + 2;
      bytes := bytes + Pair(val);
    }
    if colon != -1 {
      if tp == 16 { return UV_EINVAL, []; }
      Shift(tmp, colon, tp);
      tp := 16;
    }
    if tp != 16 { return UV_EINVAL, []; }
    assert tmp[..16] == tmp[..];
    return 0, tmp[..];
  }

  /** Printing and reading through the two methods. */
  method PrintAndParse(src: Bytes) returns (rc: int, dst: Bytes)
    requires |src| == 16
    ensures rc == 0 && dst == src
  {
    var printed, text, base, len := Ntop6(src, 46);
    TextFits(src, base, len);
    RoundTrip(src, base, len);
    rc, dst := Pton6(text);
  }
}
