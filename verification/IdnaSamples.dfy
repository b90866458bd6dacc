/** Host names whose ASCII form is known, and what separates their labels. */
module IdnaSamples {
  import opened ByteStrings
  import opened Punycode
  import opened PunycodeSamples
  import opened Idna

  /** The full stop, and the ideographic, full-width and half-width ones. */
  predicate IsStop(c: nat) {
    c in {0x2e, 0x3002, 0xff0e, 0xff61}
  }

  predicate NoStop(s: seq<nat>) {
    forall i :: 0 <= i < |s| ==> !IsStop(s[i])
  }

  lemma {:induction false} NextStop(s: seq<nat>, i: nat, k: nat)
    requires i <= k <= |s| && NoStop(s[i..k]) && (k < |s| ==> IsStop(s[k]))
    ensures NextDot(s, i) == k
    decreases k - i
  {
    if i < k {
      assert s[i] == s[i..k][0];
      assert s[i + 1..k] == s[i..k][1..];
      NextStop(s, i + 1, k);
    }
  }

  /** Without a full stop, the rest of a host name is one label. */
  lemma OneLabel(s: seq<nat>, i: nat)
    requires i <= |s| && NoStop(s[i..])
    ensures HostText(s, i) == LabelText(s[i..])
  {
    assert s[i..|s|] == s[i..];
    NextStop(s, i, |s|);
  }

  /** Each of the four kinds of full stop ends a label and becomes an ASCII one. */
  lemma LabelsJoin(s: seq<nat>, i: nat, k: nat)
    requires i <= k < |s| && NoStop(s[i..k]) && IsStop(s[k])
    ensures HostText(s, i) == LabelText(s[i..k]) + "." + HostText(s, k + 1)
  {
    NextStop(s, i, k);
    HostStep(s, i, k);
  }

  lemma FirstLabel(a: seq<nat>)
    requires |a| == 5 && a[0] == 0x67 && a[1] == 0x72 && a[2] == 0xf6 && a[3] == 0xdf && a[4] == 0x65
    ensures LabelText(a) == "xn--gre-6ka8i" && NoStop(a)
  {
    Groesse(a);
    assert !IsBasic(a);
  }

  lemma SecondLabel(b: seq<nat>)
    requires |b| == 2 && b[0] == 0x64 && b[1] == 0x65
    ensures LabelText(b) == "de" && NoStop(b)
  {
    BasicsAre(b, 2);
    assert b[..2] == b;
    assert Basics(b, 0) == "";
    assert Basics(b, 1) == "" + [b[0] as char];
    assert Basics(b, 2) == "" + [b[0] as char] + [b[1] as char];
    assert IsBasic(b);
  }

  lemma Concatenated(x: string, y: string)
    requires x == "xn--gre-6ka8i" && y == "de"
    ensures x + "." + y == "xn--gre-6ka8i.de"
  {
  }

  /** A label of which two letters are outside ASCII, an ideographic full stop, and an ASCII label. */
  lemma HostSample(s: seq<nat>)
    requires |s| == 8 && s[0] == 0x67 && s[1] == 0x72 && s[2] == 0xf6 && s[3] == 0xdf && s[4] == 0x65
    requires s[5] == 0x3002 && s[6] == 0x64 && s[7] == 0x65
    ensures HostText(s, 0) == "xn--gre-6ka8i.de"
  {
    FirstLabel(s[0..5]);
    SecondLabel(s[6..]);
    LabelsJoin(s, 0, 5);
    OneLabel(s, 6);
    Concatenated(LabelText(s[0..5]), LabelText(s[6..]));
  }

  /** Deltas have 32 bits. */
  lemma DeltasFit(d: nat)
    ensures AllFit([d]) <==> d < 0x1_0000_0000
  {
    assert AllFit([d]) <==> [d][0] <= UINT_MAX;
  }
}
