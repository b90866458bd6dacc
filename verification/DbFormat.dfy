/** Internal keys of the LevelDB store: a user key followed by eight bytes that pack a
    sequence number and a value type. */
module DbFormat {
  import opened ByteStrings

  datatype ValueType = Deletion | Value

  datatype ParsedInternalKey = ParsedInternalKey(userKey: Bytes, sequence: nat, valueType: ValueType)

  const MAX_SEQUENCE_NUMBER: nat := 0x100_0000_0000_0000 - 1

  const VALUE_TYPE_FOR_SEEK := Value

  function TypeCode(t: ValueType): nat {
    match t
    case Deletion => 0
    case Value => 1
  }

  function PackSequenceAndType(sequence: nat, t: ValueType): nat {
    sequence * 256 + TypeCode(t)
  }

  function AppendInternalKey(prefix: Bytes, key: ParsedInternalKey): Bytes {
    prefix + key.userKey + LittleEndian(PackSequenceAndType(key.sequence, key.valueType), 8)
  }

  function ExtractUserKey(ikey: Bytes): Bytes
    requires |ikey| >= 8
  {
    ikey[..|ikey| - 8]
  }

  /** The packed sequence number and type at the end of an internal key. */
  function Trailer(ikey: Bytes): nat
    requires |ikey| >= 8
  {
    FromLittleEndian(ikey[|ikey| - 8..])
  }

  function ParseInternalKey(ikey: Bytes): Option<ParsedInternalKey> {
    if |ikey| < 8 then
      None
    else
      var num := Trailer(ikey);
      var c := num % 256;
      if c > 1 then None
      else Some(ParsedInternalKey(ExtractUserKey(ikey), num / 256, if c == 0 then Deletion else Value))
  }

  lemma Pow256Of8()
    ensures Pow256(8) == 0x1_0000_0000_0000_0000
  {
    assert Pow256(4) == 0x1_0000_0000;
  }

  lemma ParseUndoesAppend(key: ParsedInternalKey)
    requires key.sequence <= MAX_SEQUENCE_NUMBER
    ensures ParseInternalKey(AppendInternalKey([], key)) == Some(key)
    ensures Trailer(AppendInternalKey([], key)) == PackSequenceAndType(key.sequence, key.valueType)
  {
    var num := PackSequenceAndType(key.sequence, key.valueType);
    var ikey := AppendInternalKey([], key);
    assert num < Pow256(8) by { Pow256Of8(); }
    LittleEndianRoundTrip(num, 8);
    assert ikey[|ikey| - 8..] == LittleEndian(num, 8);
    assert ikey[..|ikey| - 8] == key.userKey;
    assert num % 256 == TypeCode(key.valueType) && num / 256 == key.sequence;
  }

  /** Behind the user key, one byte says what kind of entry it is, and seven hold the sequence number, the
      low-order one first. */
  lemma InternalKeyBytes(key: ParsedInternalKey)
    requires key.sequence <= MAX_SEQUENCE_NUMBER
    ensures var n := key.sequence;
            AppendInternalKey([], key)
            == key.userKey
               + ([if key.valueType == Value then 1 else 0, n % 256, n / 256 % 256, n / 256 / 256 % 256]
                  + FourBytes(n / 256 / 256 / 256))
  {
    var n := key.sequence;
    LittleEndianCons(PackSequenceAndType(n, key.valueType), 7);
    LittleEndianCons(n, 6);
    LittleEndianCons(n / 256, 5);
    LittleEndianCons(n / 256 / 256, 4);
    LastFour(n / 256 / 256 / 256);
    assert [] + key.userKey == key.userKey;
  }

  function FourBytes(n: nat): Bytes {
    [n % 256, n / 256 % 256, n / 256 / 256 % 256, n / 256 / 256 / 256 % 256]
  }

  lemma LastFour(n: nat)
    ensures LittleEndian(n, 4) == FourBytes(n)
  {
    LittleEndianCons(n, 3);
    LittleEndianCons(n / 256, 2);
    LittleEndianCons(n / 256 / 256, 1);
    LittleEndianCons(n / 256 / 256 / 256, 0);
  }

  lemma LittleEndianCons(v: nat, n: nat)
    ensures LittleEndian(v, n + 1) == [v % 256] + LittleEndian(v / 256, n)
  {
  }

  lemma AppendUndoesParse(ikey: Bytes)
    requires ParseInternalKey(ikey).Some?
    ensures AppendInternalKey([], ParseInternalKey(ikey).value) == ikey
    ensures ParseInternalKey(ikey).value.sequence <= MAX_SEQUENCE_NUMBER
  {
    TrailerRoundTrip(ikey, |ikey| - 8);
    SplitTrailer(Trailer(ikey));
    var key := ParseInternalKey(ikey).value;
    assert PackSequenceAndType(key.sequence, key.valueType) == Trailer(ikey);
    assert [] + key.userKey == key.userKey;
  }

  lemma TrailerRoundTrip(ikey: Bytes, n: nat)
    requires |ikey| == n + 8
    ensures Trailer(ikey) < 0x1_0000_0000_0000_0000
    ensures ikey == ikey[..n] + LittleEndian(Trailer(ikey), 8)
  {
    var tail := ikey[n..];
    FromLittleEndianRoundTrip(tail);
    Pow256Of8();
    assert |tail| == 8;
    assert ikey == ikey[..n] + tail;
  }

  lemma SplitTrailer(num: nat)
    requires num < 0x1_0000_0000_0000_0000
    ensures num / 256 * 256 + num % 256 == num && num / 256 <= MAX_SEQUENCE_NUMBER
  {
  }

  // ----- Comparators

  type Comparator = (Bytes, Bytes) -> int

  /** The contract of a user comparator: a three-way comparison for a total order. */
  ghost predicate IsTotalOrder(cmp: Comparator) {
    && (forall a, b :: cmp(a, b) == 0 <==> a == b)
    && (forall a, b :: cmp(a, b) < 0 <==> cmp(b, a) > 0)
    && (forall a, b, c :: TransitiveAt(cmp, a, b, c))
  }

  ghost predicate TransitiveAt(cmp: Comparator, a: Bytes, b: Bytes, c: Bytes) {
    cmp(a, b) <= 0 && cmp(b, c) <= 0 ==> cmp(a, c) <= 0
  }

  lemma OrderTransitive(cmp: Comparator, a: Bytes, b: Bytes, c: Bytes)
    requires IsTotalOrder(cmp)
    ensures cmp(a, b) <= 0 && cmp(b, c) <= 0 ==> cmp(a, c) <= 0
    ensures cmp(a, b) <= 0 && cmp(b, c) < 0 ==> cmp(a, c) < 0
    ensures cmp(a, b) < 0 && cmp(b, c) <= 0 ==> cmp(a, c) < 0
  {
    if cmp(a, b) <= 0 && cmp(b, c) <= 0 {
      assert TransitiveAt(cmp, a, b, c);
      if cmp(a, c) == 0 {
        assert a == c;
      }
    }
  }

  function InternalCompare(cmp: Comparator, a: Bytes, b: Bytes): int
    requires |a| >= 8 && |b| >= 8
  {
    var r := cmp(ExtractUserKey(a), ExtractUserKey(b));
    if r == 0 then
      var anum, bnum := Trailer(a), Trailer(b);
      if anum > bnum then -1 else if anum < bnum then 1 else r
    else
      r
  }

  /** User key ascending, then sequence descending, then type descending. */
  ghost predicate ComesBefore(cmp: Comparator, x: ParsedInternalKey, y: ParsedInternalKey) {
    || cmp(x.userKey, y.userKey) < 0
    || (x.userKey == y.userKey && x.sequence > y.sequence)
    || (x.userKey == y.userKey && x.sequence == y.sequence && x.valueType == Value && y.valueType == Deletion)
  }

  lemma InternalCompareOrder(cmp: Comparator, a: Bytes, b: Bytes)
    requires IsTotalOrder(cmp)
    requires ParseInternalKey(a).Some? && ParseInternalKey(b).Some?
    ensures InternalCompare(cmp, a, b) < 0 <==> ComesBefore(cmp, ParseInternalKey(a).value, ParseInternalKey(b).value)
    ensures InternalCompare(cmp, a, b) == 0 <==> a == b
    ensures InternalCompare(cmp, a, b) < 0 <==> InternalCompare(cmp, b, a) > 0
  {
    AppendUndoesParse(a);
    AppendUndoesParse(b);
    var ka, kb := ParseInternalKey(a).value, ParseInternalKey(b).value;
    assert Trailer(a) == PackSequenceAndType(ka.sequence, ka.valueType);
    assert Trailer(b) == PackSequenceAndType(kb.sequence, kb.valueType);
  }

  lemma InternalCompareTransitive(cmp: Comparator, a: Bytes, b: Bytes, c: Bytes)
    requires IsTotalOrder(cmp)
    requires |a| >= 8 && |b| >= 8 && |c| >= 8
    requires InternalCompare(cmp, a, b) <= 0 && InternalCompare(cmp, b, c) <= 0
    ensures InternalCompare(cmp, a, c) <= 0
  {
    OrderTransitive(cmp, ExtractUserKey(a), ExtractUserKey(b), ExtractUserKey(c));
  }

  // ----- Shortened separators

  type Separator = (Bytes, Bytes) -> Bytes

  /** What a user comparator promises of its own separator function: a start below the limit becomes
      some key in [start, limit). */
  ghost predicate IsSeparator(cmp: Comparator, separate: Separator) {
    forall s, l :: cmp(s, l) < 0 ==> cmp(s, separate(s, l)) <= 0 && cmp(separate(s, l), l) < 0
  }

  ghost predicate IsSuccessor(cmp: Comparator, succeed: Bytes -> Bytes) {
    forall k :: cmp(k, succeed(k)) <= 0
  }

  /** The first internal key of a user key. */
  function EarliestKey(userKey: Bytes): (r: Bytes)
    ensures |r| == |userKey| + 8
  {
    userKey + LittleEndian(PackSequenceAndType(MAX_SEQUENCE_NUMBER, VALUE_TYPE_FOR_SEEK), 8)
  }

  /** No version of a user key comes before its earliest key. */
  lemma EarliestIsFirst(cmp: Comparator, ikey: Bytes)
    requires IsTotalOrder(cmp) && ParseInternalKey(ikey).Some?
    ensures InternalCompare(cmp, EarliestKey(ParseInternalKey(ikey).value.userKey), ikey) <= 0
  {
    var userKey := ParseInternalKey(ikey).value.userKey;
    EarliestParses(userKey);
    AppendUndoesParse(ikey);
    TrailerRoundTrip(ikey, |ikey| - 8);
    EarliestTrailer(userKey);
    assert cmp(userKey, userKey) == 0;
  }

  lemma EarliestTrailer(userKey: Bytes)
    ensures Trailer(EarliestKey(userKey)) == MAX_SEQUENCE_NUMBER * 256 + 1
  {
    Pow256Of8();
    LittleEndianRoundTrip(MAX_SEQUENCE_NUMBER * 256 + 1, 8);
    assert EarliestKey(userKey)[|userKey|..] == LittleEndian(MAX_SEQUENCE_NUMBER * 256 + 1, 8);
  }

  lemma EarliestParses(userKey: Bytes)
    ensures ExtractUserKey(EarliestKey(userKey)) == userKey
    ensures ParseInternalKey(EarliestKey(userKey))
            == Some(ParsedInternalKey(userKey, MAX_SEQUENCE_NUMBER, VALUE_TYPE_FOR_SEEK))
  {
    var key := ParsedInternalKey(userKey, MAX_SEQUENCE_NUMBER, VALUE_TYPE_FOR_SEEK);
    assert EarliestKey(userKey) == AppendInternalKey([], key);
    ParseUndoesAppend(key);
  }

  /** The candidate is physically shorter but logically larger. */
  predicate Shortens(cmp: Comparator, key: Bytes, tmp: Bytes) {
    |tmp| < |key| && cmp(key, tmp) < 0
  }

  /** `start` itself, or something strictly between it and `limit`. */
  predicate Separates(cmp: Comparator, start: Bytes, r: Bytes, limit: Bytes)
    requires |start| >= 8 && |r| >= 8 && |limit| >= 8
  {
    r == start || (InternalCompare(cmp, start, r) < 0 && InternalCompare(cmp, r, limit) < 0)
  }

  function ShortestSeparator(cmp: Comparator, separate: Separator, start: Bytes, limit: Bytes): (r: Bytes)
    requires |start| >= 8 && |limit| >= 8
    ensures |r| >= 8
  {
    var tmp := separate(ExtractUserKey(start), ExtractUserKey(limit));
    if Shortens(cmp, ExtractUserKey(start), tmp) then EarliestKey(tmp) else start
  }

  /** With a user comparator that keeps its promise, a changed start is shorter and comes after it; it
      lies below the limit exactly if the user keys do, since nothing is promised for equal ones. */
  method FindShortestSeparator(cmp: Comparator, separate: Separator, start: Bytes, limit: Bytes) returns (r: Bytes)
    requires IsTotalOrder(cmp) && IsSeparator(cmp, separate)
    requires |start| >= 8 && |limit| >= 8
    ensures r == ShortestSeparator(cmp, separate, start, limit) && |r| >= 8
    ensures r != start ==> |r| < |start| && InternalCompare(cmp, start, r) < 0 && r == EarliestKey(ExtractUserKey(r))
    ensures var userStart, tmp := ExtractUserKey(start), separate(ExtractUserKey(start), ExtractUserKey(limit));
            && (r == start <==> |tmp| >= |userStart| || cmp(userStart, tmp) >= 0)
            && (r != start ==> ExtractUserKey(r) == tmp)
    ensures var userStart, userLimit := ExtractUserKey(start), ExtractUserKey(limit);
            Separates(cmp, start, r, limit)
            <==> cmp(userStart, userLimit) < 0 || !Shortens(cmp, userStart, separate(userStart, userLimit))
  {
    var userStart := ExtractUserKey(start);
    var userLimit := ExtractUserKey(limit);
    var tmp := separate(userStart, userLimit);
    r := start;
    if |tmp| < |userStart| && cmp(userStart, tmp) < 0 {
      r := EarliestKey(tmp);
      EarliestParses(tmp);
      OrderTransitive(cmp, userLimit, userStart, tmp);
    }
  }

  ghost predicate AlwaysSeparates(cmp: Comparator, start: Bytes, limit: Bytes)
    requires |start| >= 8 && |limit| >= 8
  {
    forall separate :: IsSeparator(cmp, separate) ==>
                         Separates(cmp, start, ShortestSeparator(cmp, separate, start, limit), limit)
  }

  ghost predicate NoShorterAbove(cmp: Comparator, key: Bytes) {
    forall t :: !Shortens(cmp, key, t)
  }

  /** Which pairs are safe with every user comparator that keeps its promise: those with user keys in
      strict order, and those whose start cannot be shortened at all. */
  lemma SafePairs(cmp: Comparator, start: Bytes, limit: Bytes)
    requires IsTotalOrder(cmp) && |start| >= 8 && |limit| >= 8
    ensures var userStart, userLimit := ExtractUserKey(start), ExtractUserKey(limit);
            AlwaysSeparates(cmp, start, limit) <==> cmp(userStart, userLimit) < 0 || NoShorterAbove(cmp, userStart)
  {
    var userStart, userLimit := ExtractUserKey(start), ExtractUserKey(limit);
    if cmp(userStart, userLimit) < 0 || NoShorterAbove(cmp, userStart) {
      forall separate | IsSeparator(cmp, separate)
        ensures Separates(cmp, start, ShortestSeparator(cmp, separate, start, limit), limit)
      {
        EarliestParses(separate(userStart, userLimit));
      }
    } else {
      var t :| Shortens(cmp, userStart, t);
      PassesLimit(cmp, start, limit, t);
    }
  }

  /** Otherwise some comparator that keeps its promise makes the result pass the limit. */
  lemma PassesLimit(cmp: Comparator, start: Bytes, limit: Bytes, t: Bytes)
    requires IsTotalOrder(cmp) && |start| >= 8 && |limit| >= 8
    requires cmp(ExtractUserKey(start), ExtractUserKey(limit)) >= 0 && Shortens(cmp, ExtractUserKey(start), t)
    ensures !AlwaysSeparates(cmp, start, limit)
  {
    var userStart, userLimit := ExtractUserKey(start), ExtractUserKey(limit);
    var separate: Separator := (s, l) => if s == userStart && l == userLimit then t else s;
    assert IsSeparator(cmp, separate);
    EarliestParses(t);
    OrderTransitive(cmp, userLimit, userStart, t);
    assert !Separates(cmp, start, ShortestSeparator(cmp, separate, start, limit), limit);
  }

  /** Two versions of one user key are such a pair, although they are in order. */
  lemma VersionsAreNotSafe()
    ensures var start := AppendInternalKey([], ParsedInternalKey([1, 0], 2, Value));
            var limit := AppendInternalKey([], ParsedInternalKey([1, 0], 1, Value));
            InternalCompare(BytewiseCompare, start, limit) < 0 && !AlwaysSeparates(BytewiseCompare, start, limit)
  {
    var a, b := ParsedInternalKey([1, 0], 2, Value), ParsedInternalKey([1, 0], 1, Value);
    var start, limit := AppendInternalKey([], a), AppendInternalKey([], b);
    ParseUndoesAppend(a);
    ParseUndoesAppend(b);
    BytewiseIsTotalOrder();
    InternalCompareOrder(BytewiseCompare, start, limit);
    assert ExtractUserKey(start) == [1, 0] && ExtractUserKey(limit) == [1, 0];
    assert BytewiseCompare([1, 0], [2]) < 0;
    PassesLimit(BytewiseCompare, start, limit, [2]);
  }

  method FindShortSuccessor(cmp: Comparator, succeed: Bytes -> Bytes, key: Bytes) returns (r: Bytes)
    requires IsTotalOrder(cmp) && IsSuccessor(cmp, succeed)
    requires |key| >= 8
    ensures r != key ==> 8 <= |r| < |key| && InternalCompare(cmp, key, r) < 0
    ensures r == key || cmp(ExtractUserKey(key), ExtractUserKey(r)) < 0
    ensures var userKey := ExtractUserKey(key);
            r == key <==> |succeed(userKey)| >= |userKey| || cmp(userKey, succeed(userKey)) >= 0
    ensures r != key ==> r == EarliestKey(succeed(ExtractUserKey(key)))
  {
    var userKey := ExtractUserKey(key);
    var tmp := succeed(userKey);
    r := key;
    if |tmp| < |userKey| && cmp(userKey, tmp) < 0 {
      r := EarliestKey(tmp);
      EarliestParses(tmp);
    }
  }

  // ----- The built-in comparator

  function BytewiseCompare(a: Bytes, b: Bytes): int {
    if a == [] && b == [] then 0
    else if a == [] then -1
    else if b == [] then 1
    else if a[0] != b[0] then a[0] - b[0]
    else BytewiseCompare(a[1..], b[1..])
  }

  lemma {:induction false} BytewiseEquality(a: Bytes, b: Bytes)
    ensures BytewiseCompare(a, b) == 0 <==> a == b
    ensures BytewiseCompare(a, b) < 0 <==> BytewiseCompare(b, a) > 0
  {
    if a != [] && b != [] {
      BytewiseEquality(a[1..], b[1..]);
      assert a == [a[0]] + a[1..] && b == [b[0]] + b[1..];
    }
  }

  lemma {:induction false} BytewiseTransitive(a: Bytes, b: Bytes, c: Bytes)
    ensures TransitiveAt(BytewiseCompare, a, b, c)
  {
    if a != [] && b != [] && c != [] {
      BytewiseTransitive(a[1..], b[1..], c[1..]);
    }
  }

  lemma BytewiseIsTotalOrder()
    ensures IsTotalOrder(BytewiseCompare)
  {
    forall a, b
      ensures BytewiseCompare(a, b) == 0 <==> a == b
      ensures BytewiseCompare(a, b) < 0 <==> BytewiseCompare(b, a) > 0
    {
      BytewiseEquality(a, b);
    }
    forall a, b, c ensures TransitiveAt(BytewiseCompare, a, b, c) {
      BytewiseTransitive(a, b, c);
    }
  }

  /** The common prefix, then the first differing byte of `s` raised by one where that stays below
      the limit's; otherwise `s`. */
  function BytewiseSeparator(s: Bytes, l: Bytes): Bytes {
    if s == [] || l == [] then s
    else if s[0] == l[0] then [s[0]] + BytewiseSeparator(s[1..], l[1..])
    else if s[0] < 0xff && s[0] + 1 < l[0] then [s[0] + 1]
    else s
  }

  lemma {:induction false} BytewiseSeparatorLies(s: Bytes, l: Bytes)
    ensures if BytewiseCompare(s, l) < 0
            then BytewiseCompare(s, BytewiseSeparator(s, l)) <= 0 && BytewiseCompare(BytewiseSeparator(s, l), l) < 0
            else BytewiseSeparator(s, l) == s
    ensures |BytewiseSeparator(s, l)| <= |s|
  {
    BytewiseEquality(s, s);
    if s != [] && l != [] && s[0] == l[0] {
      BytewiseSeparatorLies(s[1..], l[1..]);
      var r := BytewiseSeparator(s[1..], l[1..]);
      assert ([s[0]] + r)[1..] == r;
      assert s == [s[0]] + s[1..];
    }
  }

  /** The built-in comparator promises more than it must: any other start stays as it is. So its
      separators are safe for every pair. */
  lemma BytewiseIsSeparator()
    ensures IsSeparator(BytewiseCompare, BytewiseSeparator)
    ensures forall s, l :: BytewiseCompare(s, l) >= 0 ==> BytewiseSeparator(s, l) == s
  {
    forall s, l
      ensures if BytewiseCompare(s, l) < 0
              then BytewiseCompare(s, BytewiseSeparator(s, l)) <= 0 && BytewiseCompare(BytewiseSeparator(s, l), l) < 0
              else BytewiseSeparator(s, l) == s
    {
      BytewiseSeparatorLies(s, l);
    }
  }

  lemma BytewiseSeparates(start: Bytes, limit: Bytes)
    requires |start| >= 8 && |limit| >= 8
    ensures var key := ShortestSeparator(BytewiseCompare, BytewiseSeparator, start, limit);
            Separates(BytewiseCompare, start, key, limit)
  {
    var userStart, userLimit := ExtractUserKey(start), ExtractUserKey(limit);
    BytewiseSeparatorLies(userStart, userLimit);
    BytewiseEquality(userStart, userStart);
    EarliestParses(BytewiseSeparator(userStart, userLimit));
  }

  /** What the separator is, from the first difference: that byte raised by one ends the key, if it stays below
      the limit's; in any other case the start is kept. */
  lemma {:induction false} BytewiseSeparatorIs(s: Bytes, l: Bytes, n: nat)
    requires n <= |s| && n <= |l| && s[..n] == l[..n] && (n == |s| || n == |l| || s[n] != l[n])
    ensures BytewiseSeparator(s, l)
            == if n < |s| && n < |l| && s[n] < 0xff && s[n] + 1 < l[n] then s[..n] + [s[n] + 1] else s
  {
    if n > 0 {
      assert s[0] == s[..n][0] == l[0];
      assert s[1..][..n - 1] == s[..n][1..] && l[1..][..n - 1] == l[..n][1..];
      BytewiseSeparatorIs(s[1..], l[1..], n - 1);
      assert [s[0]] + s[1..] == s;
      assert [s[0]] + s[1..][..n - 1] == s[..n];
    }
  }

  /** The comparator's order is the lexicographic one: at the first difference the smaller byte comes first, and
      a prefix comes before what it is a prefix of. */
  lemma {:induction false} BytewiseIsLexicographic(a: Bytes, b: Bytes, n: nat)
    requires n <= |a| && n <= |b| && a[..n] == b[..n] && (n == |a| || n == |b| || a[n] != b[n])
    ensures BytewiseCompare(a, b) < 0 <==> n < |b| && (n == |a| || a[n] < b[n])
  {
    if n > 0 {
      assert a[0] == a[..n][0] == b[0];
      assert a[1..][..n - 1] == a[..n][1..] && b[1..][..n - 1] == b[..n][1..];
      BytewiseIsLexicographic(a[1..], b[1..], n - 1);
    }
  }

  method BytewiseFindShortestSeparator(start: Bytes, limit: Bytes) returns (r: Bytes)
    ensures r == BytewiseSeparator(start, limit)
  {
    var minLength := if |start| < |limit| then |start| else |limit|;
    var diffIndex := 0;
    while diffIndex < minLength && start[diffIndex] == limit[diffIndex]
      invariant diffIndex <= minLength
      invariant BytewiseSeparator(start, limit)
                == start[..diffIndex] + BytewiseSeparator(start[diffIndex..], limit[diffIndex..])
    {
      SeparatorPastPrefix(start, limit, diffIndex);
      diffIndex := diffIndex + 1;
    }
    r := start;
    SeparatorAtDifference(start, limit, diffIndex);
    if diffIndex < minLength {
      var diffByte := start[diffIndex];
      if diffByte < 0xff && diffByte + 1 < limit[diffIndex] {
        r := start[..diffIndex] + [diffByte + 1];
      }
    }
  }

  lemma SeparatorAtDifference(s: Bytes, l: Bytes, n: nat)
    requires n <= |s| && n <= |l| && (n == |s| || n == |l| || s[n] != l[n])
    ensures s[..n] + BytewiseSeparator(s[n..], l[n..])
            == if n < |s| && n < |l| && s[n] < 0xff && s[n] + 1 < l[n] then s[..n] + [s[n] + 1] else s
  {
    assert s[..n] + s[n..] == s;
  }

  lemma SeparatorPastPrefix(s: Bytes, l: Bytes, n: nat)
    requires n < |s| && n < |l| && s[n] == l[n]
    ensures s[..n] + BytewiseSeparator(s[n..], l[n..]) == s[..n + 1] + BytewiseSeparator(s[n + 1..], l[n + 1..])
  {
    var rest := BytewiseSeparator(s[n + 1..], l[n + 1..]);
    assert s[n..][1..] == s[n + 1..] && l[n..][1..] == l[n + 1..];
    assert BytewiseSeparator(s[n..], l[n..]) == [s[n]] + rest;
    assert s[..n + 1] == s[..n] + [s[n]];
  }

  /** The first byte that can be raised is raised and ends the key; a run of 0xff stays as it is. */
  function BytewiseSuccessor(k: Bytes): Bytes {
    if k == [] then [] else if k[0] != 0xff then [k[0] + 1] else [k[0]] + BytewiseSuccessor(k[1..])
  }

  lemma {:induction false} BytewiseSuccessorFollows(k: Bytes)
    ensures BytewiseCompare(k, BytewiseSuccessor(k)) <= 0 && |BytewiseSuccessor(k)| <= |k|
  {
    if k != [] && k[0] == 0xff {
      BytewiseSuccessorFollows(k[1..]);
      var r := BytewiseSuccessor(k[1..]);
      assert ([k[0]] + r)[1..] == r;
    }
  }

  /** What the successor is: the first byte that is not 0xff, raised by one, ends the key. */
  lemma {:induction false} BytewiseSuccessorIs(k: Bytes, n: nat)
    requires n <= |k| && (forall i :: 0 <= i < n ==> k[i] == 0xff) && (n < |k| ==> k[n] != 0xff)
    ensures BytewiseSuccessor(k) == if n < |k| then k[..n] + [k[n] + 1] else k
  {
    if n > 0 {
      BytewiseSuccessorIs(k[1..], n - 1);
      assert k == [k[0]] + k[1..] && k[..n] == [k[0]] + k[1..][..n - 1];
    }
  }

  lemma BytewiseIsSuccessor()
    ensures IsSuccessor(BytewiseCompare, BytewiseSuccessor)
  {
    forall k ensures BytewiseCompare(k, BytewiseSuccessor(k)) <= 0 { BytewiseSuccessorFollows(k); }
  }

  lemma Moved(k: Bytes, i: nat, rest: Bytes)
    requires i < |k|
    ensures k[..i] + ([k[i]] + rest) == k[..i + 1] + rest
  {
  }

  lemma {:induction false} SuccessorAt(k: Bytes, i: nat)
    requires i < |k|
    ensures k[..i] + BytewiseSuccessor(k[i..])
            == if k[i] != 0xff then k[..i] + [k[i] + 1] else k[..i + 1] + BytewiseSuccessor(k[i + 1..])
  {
    assert k[i..][0] == k[i] && k[i..][1..] == k[i + 1..];
    Moved(k, i, BytewiseSuccessor(k[i + 1..]));
  }

  method BytewiseFindShortSuccessor(key: Bytes) returns (r: Bytes)
    ensures r == BytewiseSuccessor(key)
  {
    assert key[0..] == key;
    for i := 0 to |key|
      invariant BytewiseSuccessor(key) == key[..i] + BytewiseSuccessor(key[i..])
    {
      SuccessorAt(key, i);
      var byte := key[i];
      if byte != 0xff {
        return key[..i] + [byte + 1];
      }
    }
    assert key[..|key|] == key && key[|key|..] == [];
    r := key;
  }
}
