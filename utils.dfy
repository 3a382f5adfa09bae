/**
 * OID and text utilities of the agent (utils.c): comparing OIDs, converting
 * them to and from dotted text, splitting strings into tokens and reading
 * numbers that follow a prefix in a text buffer.
 */
module Utils {

  import opened Types
  import opened CLib

  /* ---------------------------------------------------------------------------
   * oid_cmp
   */

  /**
   * The subidentifier at position i as oid_cmp sees it: the unsigned value
   * converted to int, or -1 past the end of the OID.
   */
  function Key(s: seq<Uint32>, i: nat): int {
    if i < |s| then ToInt32(s[i]) else -1
  }

  /** oid_cmp from position i on; positions at or beyond MAX_NR_OIDS are not looked at. */
  function CmpFrom(a: seq<Uint32>, b: seq<Uint32>, i: nat): int
    decreases MAX_NR_OIDS - i
  {
    if i >= MAX_NR_OIDS then 0
    else if Key(a, i) == -1 && Key(b, i) == -1 then 0
    else if Key(a, i) > Key(b, i) then 1
    else if Key(a, i) < Key(b, i) then -1
    else CmpFrom(a, b, i + 1)
  }

  /** oid_cmp: -1, 0 or 1 as a orders before, with or after b. */
  function OidCmp(a: Oid, b: Oid): int {
    CmpFrom(a.subids, b.subids, 0)
  }

  /** Lexicographic order of subidentifier lists, a proper prefix first. */
  function LexCmp(a: seq<int>, b: seq<int>): int {
    if a == [] && b == [] then 0
    else if a == [] then -1
    else if b == [] then 1
    else if a[0] < b[0] then -1
    else if a[0] > b[0] then 1
    else LexCmp(a[1..], b[1..])
  }

  /** An OID whose subidentifiers oid_cmp compares by their unsigned value. */
  predicate Plain(o: Oid) {
    |o.subids| <= MAX_NR_SUBIDS && forall i :: 0 <= i < |o.subids| ==> o.subids[i] < 0x8000_0000
  }

  lemma {:induction false} CmpFromRange(a: seq<Uint32>, b: seq<Uint32>, i: nat)
    ensures CmpFrom(a, b, i) in {-1, 0, 1}
    ensures CmpFrom(a, b, i) == -CmpFrom(b, a, i)
    decreases MAX_NR_OIDS - i
  {
    if i < MAX_NR_OIDS && Key(a, i) == Key(b, i) && Key(a, i) != -1 {
      CmpFromRange(a, b, i + 1);
    }
  }

  /** oid_cmp yields -1, 0 or 1 and swapping its arguments negates it. */
  lemma OidCmpAntisymmetric(a: Oid, b: Oid)
    ensures OidCmp(a, b) in {-1, 0, 1}
    ensures OidCmp(a, b) == -OidCmp(b, a)
  {
    CmpFromRange(a.subids, b.subids, 0);
  }

  lemma {:induction false} CmpFromReflexive(a: seq<Uint32>, i: nat)
    ensures CmpFrom(a, a, i) == 0
    decreases MAX_NR_OIDS - i
  {
    if i < MAX_NR_OIDS && Key(a, i) != -1 {
      CmpFromReflexive(a, i + 1);
    }
  }

  /** Every OID compares equal to itself. */
  lemma OidCmpReflexive(a: Oid)
    ensures OidCmp(a, a) == 0
  {
    CmpFromReflexive(a.subids, 0);
  }

  lemma {:induction false} CmpFromTransitive(a: seq<Uint32>, b: seq<Uint32>, c: seq<Uint32>, i: nat)
    requires CmpFrom(a, b, i) <= 0 && CmpFrom(b, c, i) <= 0
    ensures CmpFrom(a, c, i) <= 0
    ensures CmpFrom(a, b, i) < 0 || CmpFrom(b, c, i) < 0 ==> CmpFrom(a, c, i) < 0
    decreases MAX_NR_OIDS - i
  {
    if i < MAX_NR_OIDS && Key(a, i) == Key(b, i) && Key(b, i) == Key(c, i) && Key(a, i) != -1 {
      CmpFromTransitive(a, b, c, i + 1);
    }
  }

  /** oid_cmp is transitive, both as a weak and as a strict order. */
  lemma OidCmpTransitive(a: Oid, b: Oid, c: Oid)
    requires OidCmp(a, b) <= 0 && OidCmp(b, c) <= 0
    ensures OidCmp(a, c) <= 0
    ensures OidCmp(a, b) < 0 || OidCmp(b, c) < 0 ==> OidCmp(a, c) < 0
  {
    CmpFromTransitive(a.subids, b.subids, c.subids, 0);
  }

  lemma {:induction false} CmpFromLex(a: seq<Uint32>, b: seq<Uint32>, i: nat)
    requires |a| <= MAX_NR_OIDS && |b| <= MAX_NR_OIDS && i <= MAX_NR_OIDS
    requires forall k :: 0 <= k < |a| ==> a[k] < 0x8000_0000
    requires forall k :: 0 <= k < |b| ==> b[k] < 0x8000_0000
    ensures CmpFrom(a, b, i) == LexCmp(if i <= |a| then a[i..] else [], if i <= |b| then b[i..] else [])
    decreases MAX_NR_OIDS - i
  {
    var x := if i <= |a| then a[i..] else [];
    var y := if i <= |b| then b[i..] else [];
    if i < MAX_NR_OIDS && Key(a, i) == Key(b, i) && Key(a, i) != -1 {
      CmpFromLex(a, b, i + 1);
      assert x[1..] == a[i + 1..] && y[1..] == b[i + 1..];
    }
  }

  /**
   * For OIDs of at most MAX_NR_SUBIDS subidentifiers below 2^31, oid_cmp is the
   * lexicographic order in which a proper prefix comes first.
   */
  lemma OidCmpIsLexicographic(a: Oid, b: Oid)
    requires Plain(a) && Plain(b)
    ensures OidCmp(a, b) == LexCmp(a.subids, b.subids)
  {
    CmpFromLex(a.subids, b.subids, 0);
    assert a.subids[0..] == a.subids && b.subids[0..] == b.subids;
  }

  lemma {:induction false} LexCmpZero(a: seq<int>, b: seq<int>)
    ensures LexCmp(a, b) == 0 <==> a == b
  {
    if a != [] && b != [] && a[0] == b[0] {
      LexCmpZero(a[1..], b[1..]);
      if a[1..] == b[1..] {
        assert a == [a[0]] + a[1..] && b == [b[0]] + b[1..];
      }
    }
  }

  /** For plain OIDs, oid_cmp reports equality exactly for equal subidentifier lists. */
  lemma OidCmpZeroIffEqual(a: Oid, b: Oid)
    requires Plain(a) && Plain(b)
    ensures OidCmp(a, b) == 0 <==> a.subids == b.subids
  {
    OidCmpIsLexicographic(a, b);
    LexCmpZero(a.subids, b.subids);
  }

  /**
   * The conversion to int makes a subidentifier 0xFFFFFFFF indistinguishable
   * from the end of the OID, and makes subidentifiers from 2^31 on order
   * before the end of the OID.
   */
  lemma OidCmpSignedSubids()
    ensures OidCmp(Oid([1, 3, 0xFFFF_FFFF], 0), Oid([1, 3], 0)) == 0
    ensures OidCmp(Oid([1, 3, 0x8000_0000], 0), Oid([1, 3], 0)) == -1
  {
  }

  /* ---------------------------------------------------------------------------
   * oid_ntoa
   */

  /** Size of oid_ntoa's static text buffer, terminating NUL included. */
  const NTOA_BUFFER_SIZE: nat := MAX_NR_SUBIDS * 10 + 2

  /** One subidentifier as ".%d" prints it: the unsigned value converted to int. */
  function SubidText(x: Uint32): string {
    "." + IntToDecimal(ToInt32(x))
  }

  /** The texts of the subidentifiers, one per subidentifier. */
  function Pieces(s: seq<Uint32>): (p: seq<string>)
    ensures |p| == |s|
  {
    seq(|s|, i requires 0 <= i < |s| => SubidText(s[i]))
  }

  function Join(p: seq<string>): string {
    if p == [] then [] else Join(p[..|p| - 1]) + p[|p| - 1]
  }

  /** The dotted text of a subidentifier list, as long as it takes. */
  function OidText(s: seq<Uint32>): string {
    Join(Pieces(s))
  }

  function Truncate(s: string, n: nat): (t: string)
    ensures |t| <= n && |t| <= |s| && t == s[..|t|]
    ensures |s| <= n ==> t == s
  {
    if |s| <= n then s else s[..n]
  }

  lemma {:induction false} JoinAppend(a: seq<string>, b: seq<string>)
    ensures Join(a + b) == Join(a) + Join(b)
    decreases |b|
  {
    if b != [] {
      var b' := b[..|b| - 1];
      assert (a + b)[..|a + b| - 1] == a + b';
      JoinAppend(a, b');
    } else {
      assert a + b == a;
    }
  }

  lemma OidTextAppend(a: seq<Uint32>, b: seq<Uint32>)
    ensures OidText(a + b) == OidText(a) + OidText(b)
  {
    assert Pieces(a + b) == Pieces(a) + Pieces(b);
    JoinAppend(Pieces(a), Pieces(b));
  }

  lemma OidTextSingle(x: Uint32)
    ensures OidText([x]) == SubidText(x)
  {
    assert Pieces([x]) == [SubidText(x)];
    assert [SubidText(x)][..0] == [];
    assert Join([SubidText(x)]) == Join([]) + SubidText(x);
  }

  /**
   * oid_ntoa: appends ".%d" per subidentifier with snprintf into a buffer of
   * NTOA_BUFFER_SIZE bytes and stops once the text no longer fits; the text
   * returned is the full dotted text cut to NTOA_BUFFER_SIZE - 1 characters.
   */
  method OidNtoa(o: Oid) returns (text: string)
    ensures text == Truncate(OidText(o.subids), NTOA_BUFFER_SIZE - 1)
  {
    var s := o.subids;
    text := [];
    var len := 0;
    var i := 0;
    while i < |s|
      invariant 0 <= i <= |s|
      invariant text == OidText(s[..i]) && len == |text| && len < NTOA_BUFFER_SIZE
    {
      var piece := SubidText(s[i]);
      var room := NTOA_BUFFER_SIZE - len - 1;
      NtoaStep(s, i);
      if |piece| <= room {
        text := text + piece;
        assert text == OidText(s[..i + 1]) && len + |piece| < NTOA_BUFFER_SIZE;
      } else {
        TruncateAppend(text, piece, NTOA_BUFFER_SIZE - 1);
        text := text + piece[..room];
        assert text == Truncate(OidText(s[..i + 1]), NTOA_BUFFER_SIZE - 1);
      }
      len := len + |piece|;
      if len >= NTOA_BUFFER_SIZE {
        NtoaStop(s, i + 1, NTOA_BUFFER_SIZE - 1);
        return;
      }
      i := i + 1;
    }
    assert s[..i] == s;
  }

  /** One more subidentifier appends its piece to the text. */
  lemma NtoaStep(s: seq<Uint32>, i: nat)
    requires i < |s|
    ensures OidText(s[..i + 1]) == OidText(s[..i]) + SubidText(s[i])
  {
    OidTextSingle(s[i]);
    OidTextAppend(s[..i], [s[i]]);
    assert s[..i] + [s[i]] == s[..i + 1];
  }

  /** Once the text of a prefix is longer than n, the rest is cut off. */
  lemma NtoaStop(s: seq<Uint32>, i: nat, n: nat)
    requires i <= |s| && |OidText(s[..i])| > n
    ensures Truncate(OidText(s[..i]), n) == Truncate(OidText(s), n)
  {
    OidTextAppend(s[..i], s[i..]);
    assert s[..i] + s[i..] == s;
    var a := OidText(s[..i]);
    var b := OidText(s[i..]);
    assert (a + b)[..n] == a[..n];
  }

  /** snprintf of b after a in a buffer of n + 1 characters keeps what fits. */
  lemma TruncateAppend(a: string, b: string, n: nat)
    requires |a| <= n < |a| + |b|
    ensures a + b[..n - |a|] == Truncate(a + b, n)
  {
    assert a + b[..n - |a|] == (a + b)[..n];
  }

  /* ---------------------------------------------------------------------------
   * oid_aton
   */

  /**
   * The loop of oid_aton from index i of str, with acc the subidentifiers
   * read so far: each one is a '.' followed by what strtoul converts,
   * truncated to unsigned int.
   */
  function AtonFrom(str: string, i: nat, acc: seq<Uint32>): Option<seq<Uint32>>
    requires i <= |str|
    decreases |str| - i
  {
    if i == |str| then Some(acc)
    else if |acc| >= MAX_NR_SUBIDS then None
    else if str[i] != '.' then None
    else if i + 1 == |str| then None
    else
      var c := StrToUL(str, i + 1);
      AtonFrom(str, c.end, acc + [c.value % 0x1_0000_0000])
  }

  /** The first two subidentifiers fit the first content byte of a BER OID. */
  predicate FirstByteFits(s: seq<Uint32>)
    requires |s| >= 2
  {
    (s[0] as int * 40 + s[1] as int) % 0x1_0000_0000 <= 0xFF
  }

  /** What oid_aton returns for str: the subidentifiers, or None for NULL. */
  function OidAtonSpec(str: string): (r: Option<seq<Uint32>>)
    ensures r.Some? ==> |r.value| >= 2
  {
    match AtonFrom(str, 0, [])
    case None => None
    case Some(s) => if |s| < 2 || !FirstByteFits(s) then None else Some(s)
  }

  /**
   * oid_aton: parses ".a.b.c" into subidentifiers; NULL (None) for a
   * character other than '.', a trailing '.', more than MAX_NR_SUBIDS
   * subidentifiers, fewer than two, or a first pair that does not fit a byte.
   */
  method OidAton(str: string) returns (r: Option<seq<Uint32>>)
    ensures r == OidAtonSpec(str)
    ensures r.Some? ==> 2 <= |r.value| <= MAX_NR_SUBIDS && FirstByteFits(r.value)
  {
    var subids: seq<Uint32> := [];
    var ptr := 0;
    while ptr < |str|
      invariant ptr <= |str| && |subids| <= MAX_NR_SUBIDS
      invariant AtonFrom(str, 0, []) == AtonFrom(str, ptr, subids)
      decreases |str| - ptr
    {
      if |subids| >= MAX_NR_SUBIDS {
        return None;
      }
      if str[ptr] != '.' {
        return None;
      }
      ptr := ptr + 1;
      if ptr == |str| {
        return None;
      }
      var c := StrToUL(str, ptr);
      subids := subids + [c.value % 0x1_0000_0000];
      ptr := c.end;
    }
    if |subids| < 2 || (subids[0] as int * 40 + subids[1] as int) % 0x1_0000_0000 > 0xFF {
      return None;
    }
    return Some(subids);
  }

  /** The empty text, text without a leading '.' and text ending in '.' are refused. */
  lemma OidAtonRejects(str: string)
    ensures str == [] ==> OidAtonSpec(str).None?
    ensures str != [] && str[0] != '.' ==> OidAtonSpec(str).None?
    ensures str != [] && str[|str| - 1] == '.' ==> OidAtonSpec(str).None?
  {
    if str != [] && str[|str| - 1] == '.' {
      AtonTrailingDot(str, 0, []);
    }
  }

  /** From any index before a trailing '.', the loop of oid_aton fails. */
  lemma {:induction false} AtonTrailingDot(str: string, i: nat, acc: seq<Uint32>)
    requires i < |str| && str[|str| - 1] == '.'
    ensures AtonFrom(str, i, acc).None?
    decreases |str| - i
  {
    if |acc| < MAX_NR_SUBIDS && str[i] == '.' && i + 1 < |str| {
      var c := StrToUL(str, i + 1);
      StrToULStopsAtDot(str, i + 1, |str| - 1);
      AtonTrailingDot(str, c.end, acc + [c.value % 0x1_0000_0000]);
    }
  }

  lemma {:induction false} AtonFromAtMost(str: string, i: nat, acc: seq<Uint32>)
    requires i <= |str|
    ensures AtonFrom(str, i, acc).Some? ==> |acc| <= |AtonFrom(str, i, acc).value|
    ensures AtonFrom(str, i, acc).Some? && |acc| <= MAX_NR_SUBIDS ==> |AtonFrom(str, i, acc).value| <= MAX_NR_SUBIDS
    decreases |str| - i
  {
    if i < |str| && |acc| < MAX_NR_SUBIDS && str[i] == '.' && i + 1 < |str| {
      var c := StrToUL(str, i + 1);
      AtonFromAtMost(str, c.end, acc + [c.value % 0x1_0000_0000]);
    }
  }

  /**
   * From index i, str holds a '.' and a number strtoul converts to t[0], then
   * the same for the rest of t, and nothing else.
   */
  predicate ReadsBack(str: string, i: nat, t: seq<Uint32>)
    requires i <= |str|
    decreases |t|
  {
    if t == [] then i == |str|
    else
      && i + 1 < |str| && str[i] == '.'
      && var c := StrToUL(str, i + 1);
      && c.value == t[0] && i + 1 < c.end
      && ReadsBack(str, c.end, t[1..])
  }

  lemma {:induction false} TextReadsBack(str: string, i: nat, t: seq<Uint32>)
    requires i <= |str| && str[i..] == OidText(t)
    requires forall k :: 0 <= k < |t| ==> t[k] < 0x8000_0000
    ensures ReadsBack(str, i, t)
    decreases |t|
  {
    if t == [] {
      assert Pieces(t) == [];
      assert |str| == i;
    } else {
      var len := TextStep(str, i, t);
      var c := StrToUL(str, i + 1);
      assert c.value == t[0] && c.end == i + 1 + len;
      TextReadsBack(str, c.end, t[1..]);
    }
  }

  lemma {:induction false} AtonFromReadsBack(str: string, i: nat, t: seq<Uint32>, acc: seq<Uint32>)
    requires i <= |str| && ReadsBack(str, i, t)
    requires |acc| + |t| <= MAX_NR_SUBIDS
    ensures AtonFrom(str, i, acc) == Some(acc + t)
    decreases |t|
  {
    if t == [] {
      assert acc + t == acc;
    } else {
      var c := StrToUL(str, i + 1);
      assert c.value == t[0] && ReadsBack(str, c.end, t[1..]);
      assert c.value % 0x1_0000_0000 == t[0];
      AtonStep(str, i, acc);
      AtonFromReadsBack(str, c.end, t[1..], acc + [t[0]]);
      assert acc + [t[0]] + t[1..] == acc + t;
    }
  }

  /** The first subidentifier of a dotted text as strtoul reads it. */
  lemma TextStep(str: string, i: nat, t: seq<Uint32>) returns (len: nat)
    requires i <= |str| && str[i..] == OidText(t)
    requires t != [] && t[0] < 0x8000_0000
    ensures 0 < len && i + 1 + len <= |str| && str[i] == '.'
    ensures StrToUL(str, i + 1) == Conversion(t[0], i + 1 + len)
    ensures str[i + 1 + len..] == OidText(t[1..])
  {
    len := |NatToDecimal(t[0])|;
    TextSplit(t);
    TextStartsWithDot(t[1..]);
    NumberAt(str, i, t[0], OidText(t[1..]));
  }

  /** strtoul after a '.' reads the decimal number that follows it. */
  lemma NumberAt(s: string, i: nat, n: nat, tail: string)
    requires n <= ULONG_MAX
    requires i <= |s| && s[i..] == "." + NatToDecimal(n) + tail
    requires tail == [] || tail[0] == '.'
    ensures s[i] == '.' && i + 1 + |NatToDecimal(n)| <= |s|
    ensures StrToUL(s, i + 1) == Conversion(n, i + 1 + |NatToDecimal(n)|)
    ensures s[i + 1 + |NatToDecimal(n)|..] == tail
  {
    var d := NatToDecimal(n);
    SliceParts(s, i, d, tail);
    DecimalRoundTrip(s, i + 1, n);
  }

  /** One iteration of oid_aton's loop over a '.' and a converted number. */
  lemma AtonStep(str: string, i: nat, acc: seq<Uint32>)
    requires i + 1 < |str| && |acc| < MAX_NR_SUBIDS && str[i] == '.'
    ensures var c := StrToUL(str, i + 1);
            AtonFrom(str, i, acc) == AtonFrom(str, c.end, acc + [c.value % 0x1_0000_0000])
  {
  }

  lemma SliceParts(s: string, i: nat, d: string, tail: string)
    requires i <= |s| && s[i..] == "." + d + tail
    ensures s[i] == '.' && i + 1 + |d| <= |s|
    ensures s[i + 1..i + 1 + |d|] == d && s[i + 1 + |d|..] == tail
  {
    assert s[i..][0] == '.';
    assert s[i..][1..1 + |d|] == d;
    assert s[i..][1 + |d|..] == tail;
  }

  lemma TextSplit(t: seq<Uint32>)
    requires t != [] && t[0] < 0x8000_0000
    ensures OidText(t) == "." + NatToDecimal(t[0]) + OidText(t[1..])
  {
    OidTextAppend([t[0]], t[1..]);
    assert [t[0]] + t[1..] == t;
    OidTextSingle(t[0]);
  }

  lemma TextStartsWithDot(t: seq<Uint32>)
    ensures OidText(t) == [] || OidText(t)[0] == '.'
  {
    if t != [] {
      OidTextAppend([t[0]], t[1..]);
      assert [t[0]] + t[1..] == t;
      OidTextSingle(t[0]);
    } else {
      assert Pieces(t) == [];
    }
  }

  /**
   * oid_aton reads back the text oid_ntoa writes, for 2 to MAX_NR_SUBIDS
   * subidentifiers below 2^31 whose first pair fits a byte and whose text
   * fits oid_ntoa's buffer.
   */
  lemma NtoaAtonRoundTrip(s: seq<Uint32>)
    requires 2 <= |s| <= MAX_NR_SUBIDS && FirstByteFits(s)
    requires forall k :: 0 <= k < |s| ==> s[k] < 0x8000_0000
    requires |OidText(s)| < NTOA_BUFFER_SIZE
    ensures OidAtonSpec(Truncate(OidText(s), NTOA_BUFFER_SIZE - 1)) == Some(s)
  {
    assert OidText(s)[0..] == OidText(s);
    TextReadsBack(OidText(s), 0, s);
    AtonFromReadsBack(OidText(s), 0, s, []);
    assert [] + s == s;
  }

  /**
   * The buffer holds ten characters per subidentifier, but a subidentifier
   * below 2^31 can take eleven, so the text of sixteen of them is cut short.
   */
  lemma NtoaTruncates()
    ensures var s := seq(16, _ => 0x7FFF_FFFF);
            |OidText(s)| == 176 && |Truncate(OidText(s), NTOA_BUFFER_SIZE - 1)| == 161
  {
    var s: seq<Uint32> := seq(16, _ => 0x7FFF_FFFF);
    assert |SubidText(0x7FFF_FFFF)| == 11;
    JoinLength(Pieces(s), 11);
  }

  lemma {:induction false} JoinLength(p: seq<string>, w: nat)
    requires forall k :: 0 <= k < |p| ==> |p[k]| == w
    ensures |Join(p)| == w * |p|
    decreases |p|
  {
    if p != [] {
      JoinLength(p[..|p| - 1], w);
      assert w * |p| == w * (|p| - 1) + w;
    }
  }

  /* ---------------------------------------------------------------------------
   * split
   */

  /** The size of split's working copy of the string (BUFSIZ). */
  const BUFSIZ: nat := 8192

  /** The index of the first delimiter at or after j, or the end of s. */
  function TokenEnd(s: string, delim: string, j: nat): (e: nat)
    requires j <= |s|
    ensures j <= e <= |s|
    ensures forall m :: j <= m < e ==> s[m] !in delim
    ensures e < |s| ==> s[e] in delim
    decreases |s| - j
  {
    if j == |s| || s[j] in delim then j else TokenEnd(s, delim, j + 1)
  }

  /**
   * What successive strtok calls return from index j on: delimiters are
   * skipped and each maximal run of other characters is one token.
   */
  function TokensFrom(s: string, delim: string, j: nat): seq<string>
    requires j <= |s|
    decreases |s| - j
  {
    if j == |s| then []
    else if s[j] in delim then TokensFrom(s, delim, j + 1)
    else
      var e := TokenEnd(s, delim, j);
      [s[j..e]] + TokensFrom(s, delim, e)
  }

  function Tokens(s: string, delim: string): seq<string> {
    TokensFrom(s, delim, 0)
  }

  /** Each token is non-empty and holds no delimiter. */
  predicate IsToken(t: string, delim: string) {
    t != [] && forall m :: 0 <= m < |t| ==> t[m] !in delim
  }

  lemma {:induction false} TokensFromAreTokens(s: string, delim: string, j: nat)
    requires j <= |s|
    ensures forall k :: 0 <= k < |TokensFrom(s, delim, j)| ==> IsToken(TokensFrom(s, delim, j)[k], delim)
    decreases |s| - j
  {
    if j < |s| {
      if s[j] in delim {
        TokensFromAreTokens(s, delim, j + 1);
      } else {
        var e := TokenEnd(s, delim, j);
        TokensFromAreTokens(s, delim, e);
        var t := s[j..e];
        assert forall m :: 0 <= m < |t| ==> t[m] == s[j + m];
      }
    }
  }

  /** The tokens of s: non-empty runs of non-delimiter characters. */
  lemma TokensAreTokens(s: string, delim: string)
    ensures forall k :: 0 <= k < |Tokens(s, delim)| ==> IsToken(Tokens(s, delim)[k], delim)
  {
    TokensFromAreTokens(s, delim, 0);
  }

  /** The tokens separated by the delimiter d, each followed by one d. */
  function Spaced(tokens: seq<string>, d: char): string {
    if tokens == [] then [] else tokens[0] + [d] + Spaced(tokens[1..], d)
  }

  lemma {:induction false} TokensFromSpaced(pre: string, tokens: seq<string>, delim: string, d: char)
    requires d in delim
    requires forall k :: 0 <= k < |tokens| ==> IsToken(tokens[k], delim)
    ensures TokensFrom(pre + Spaced(tokens, d), delim, |pre|) == tokens
    decreases |tokens|
  {
    var s := pre + Spaced(tokens, d);
    if tokens != [] {
      var t := tokens[0];
      var pre' := pre + t + [d];
      assert s == pre' + Spaced(tokens[1..], d);
      assert s[|pre|] == t[0];
      forall m | |pre| <= m < |pre| + |t| ensures s[m] !in delim {
        assert s[m] == t[m - |pre|];
      }
      TokenEndAt(s, delim, |pre|, |pre| + |t|);
      assert s[|pre|..|pre| + |t|] == t;
      TokensFromSpaced(pre', tokens[1..], delim, d);
      assert s[|pre| + |t|] == d;
      assert TokensFrom(s, delim, |pre| + |t|) == TokensFrom(s, delim, |pre'|);
      assert TokensFrom(s, delim, |pre|) == [t] + TokensFrom(s, delim, |pre| + |t|);
      assert [t] + tokens[1..] == tokens;
    }
  }

  lemma {:induction false} TokenEndAt(s: string, delim: string, j: nat, e: nat)
    requires j <= e < |s| && s[e] in delim
    requires forall m :: j <= m < e ==> s[m] !in delim
    ensures TokenEnd(s, delim, j) == e
    decreases e - j
  {
    if j < e {
      TokenEndAt(s, delim, j + 1, e);
    }
  }

  /** strtok gives back the tokens that were joined with a delimiter. */
  lemma TokensOfSpaced(tokens: seq<string>, delim: string, d: char)
    requires d in delim
    requires forall k :: 0 <= k < |tokens| ==> IsToken(tokens[k], delim)
    ensures Tokens(Spaced(tokens, d), delim) == tokens
  {
    TokensFromSpaced([], tokens, delim, d);
    assert [] + Spaced(tokens, d) == Spaced(tokens, d);
  }

  /**
   * split: copies str into a BUFSIZ buffer (snprintf truncates it), then
   * stores the first max_list_length strtok tokens in list and returns how
   * many it stored; further tokens are dropped.
   */
  method Split(str: string, delim: string, list: array<string>, maxListLength: int)
    returns (listLength: nat)
    requires maxListLength <= list.Length
    modifies list
    ensures var tokens := Tokens(Truncate(str, BUFSIZ - 1), delim);
            && listLength == Min(|tokens|, if maxListLength < 0 then 0 else maxListLength)
            && list[..listLength] == tokens[..listLength]
    ensures list[listLength..] == old(list[listLength..])
  {
    var buffer := Truncate(str, BUFSIZ - 1);
    ghost var seen: seq<string> := [];
    listLength := 0;
    var ptr := 0;
    while ptr < |buffer|
      invariant ptr <= |buffer|
      invariant Tokens(buffer, delim) == seen + TokensFrom(buffer, delim, ptr)
      invariant listLength == Min(|seen|, if maxListLength < 0 then 0 else maxListLength)
      invariant forall k :: 0 <= k < listLength ==> list[k] == seen[k]
      invariant forall k :: listLength <= k < list.Length ==> list[k] == old(list[k])
      decreases |buffer| - ptr
    {
      var token, next := NextToken(buffer, delim, ptr);
      if token.Some? {
        assert seen + ([token.value] + TokensFrom(buffer, delim, next))
            == (seen + [token.value]) + TokensFrom(buffer, delim, next);
        seen := seen + [token.value];
        if listLength < maxListLength {
          list[listLength] := token.value;
          listLength := listLength + 1;
        }
      }
      ptr := next;
    }
    assert list[..listLength] == seen[..listLength];
    assert TokensFrom(buffer, delim, ptr) == [];
    assert seen + [] == seen;
  }

  /**
   * One round of split's loop: strtok steps over a delimiter at ptr, or
   * takes the token that starts there.
   */
  method NextToken(buffer: string, delim: string, ptr: nat) returns (token: Option<string>, next: nat)
    requires ptr < |buffer|
    ensures ptr < next <= |buffer|
    ensures token.None? ==> TokensFrom(buffer, delim, ptr) == TokensFrom(buffer, delim, next)
    ensures token.Some? ==> TokensFrom(buffer, delim, ptr) == [token.value] + TokensFrom(buffer, delim, next)
  {
    if buffer[ptr] in delim {
      token, next := None, ptr + 1;
    } else {
      next := ScanToken(buffer, delim, ptr);
      token := Some(buffer[ptr..next]);
    }
  }

  /** The inner loop of strtok: the end of the token that starts at start. */
  method ScanToken(buffer: string, delim: string, start: nat) returns (ptr: nat)
    requires start <= |buffer|
    ensures ptr == TokenEnd(buffer, delim, start)
  {
    ptr := start;
    while ptr < |buffer| && buffer[ptr] !in delim
      invariant start <= ptr <= |buffer|
      invariant TokenEnd(buffer, delim, start) == TokenEnd(buffer, delim, ptr)
      decreases |buffer| - ptr
    {
      ptr := ptr + 1;
    }
  }

  function Min(a: int, b: int): int {
    if a <= b then a else b
  }

  /* ---------------------------------------------------------------------------
   * read_value, read_values
   */

  /** The unsigned int a conversion of strtoul is stored into. */
  function Low32(n: nat): Uint32 {
    n % 0x1_0000_0000
  }

  /**
   * read_value: the number after the first occurrence of prefix in buffer,
   * 0 when prefix does not occur or only white space follows it.
   */
  function ReadValueSpec(buffer: string, prefix: string): Uint32 {
    var found := StrStr(buffer, prefix);
    if found.None? then 0 else ValueAfter(buffer, found.value + |prefix|)
  }

  /** The value read_value converts from index start on: white space skipped, then strtoul, or 0 at the end. */
  function ValueAfter(buffer: string, start: nat): Uint32
    requires start <= |buffer|
  {
    var j := SkipSpace(buffer, start);
    if j == |buffer| then 0 else Low32(StrToUL(buffer, j).value)
  }

  /** read_value: strstr, the white space skipped one character at a time, then strtoul. */
  method ReadValue(buffer: string, prefix: string) returns (v: Uint32)
    ensures v == ReadValueSpec(buffer, prefix)
  {
    var found := StrStr(buffer, prefix);
    if found.None? {
      return 0;
    }
    var ptr := SkipSpaces(buffer, found.value + |prefix|);
    if ptr == |buffer| {
      v := 0;
    } else {
      var c := StrToUL(buffer, ptr);
      v := Low32(c.value);
    }
  }

  lemma ReadValueAbsent(buffer: string, prefix: string)
    requires forall k: nat :: !MatchAt(buffer, prefix, k)
    ensures ReadValueSpec(buffer, prefix) == 0
  {
  }

  lemma {:induction false} SkipSpaceOver(s: string, j: nat, k: nat)
    requires j <= k <= |s|
    requires forall m :: j <= m < k ==> IsSpace(s[m])
    requires k == |s| || !IsSpace(s[k])
    ensures SkipSpace(s, j) == k
    decreases k - j
  {
    if j < k {
      SkipSpaceOver(s, j + 1, k);
    }
  }

  /**
   * read_value finds the number written after the first occurrence of the
   * prefix and the white space that follows it.
   */
  lemma ReadValueFinds(s: string, prefix: string, k: nat, j: nat, n: Uint32)
    requires MatchAt(s, prefix, k) && forall m: nat :: m < k ==> !MatchAt(s, prefix, m)
    requires k + |prefix| <= j && j + |NatToDecimal(n)| <= |s|
    requires forall m :: k + |prefix| <= m < j ==> IsSpace(s[m])
    requires s[j..j + |NatToDecimal(n)|] == NatToDecimal(n)
    requires j + |NatToDecimal(n)| == |s| || !IsAlphaNum(s[j + |NatToDecimal(n)|])
    ensures ReadValueSpec(s, prefix) == n
  {
    DecimalDigits(n);
    assert s[j] == NatToDecimal(n)[0];
    SkipSpaceOver(s, k + |prefix|, j);
    DecimalRoundTrip(s, j, n);
    FirstMatch(s, prefix, k);
    assert j < |s| && StrToUL(s, j).value == n;
    ReadValueAt(s, prefix, k);
    ValueAfterAt(s, k + |prefix|, j);
    Low32Small(n);
  }

  lemma Low32Small(n: nat)
    requires n < 0x1_0000_0000
    ensures Low32(n) == n
  {
  }

  /** Where the prefix is found, read_value converts what follows it. */
  lemma ReadValueAt(s: string, prefix: string, k: nat)
    requires StrStr(s, prefix) == Some(k) && k + |prefix| <= |s|
    ensures ReadValueSpec(s, prefix) == ValueAfter(s, k + |prefix|)
  {
  }

  /** Where the white space from start on ends before the end of the text, strtoul converts from there. */
  lemma ValueAfterAt(s: string, start: nat, j: nat)
    requires start <= j < |s| && SkipSpace(s, start) == j
    ensures ValueAfter(s, start) == Low32(StrToUL(s, j).value)
  {
  }

  /** strstr reports the first position where needle occurs. */
  lemma FirstMatch(s: string, needle: string, k: nat)
    requires MatchAt(s, needle, k) && forall m: nat :: m < k ==> !MatchAt(s, needle, m)
    ensures StrStr(s, needle) == Some(k)
  {
  }

  /**
   * The values read_values stores from index j on: per value, white space is
   * skipped, then strtoul converts what follows, or 0 at the end of the text.
   */
  function ValuesFrom(s: string, j: nat, count: nat): (r: seq<Uint32>)
    requires j <= |s|
    ensures |r| == count
    decreases count
  {
    if count == 0 then []
    else
      var k := SkipSpace(s, j);
      if k == |s| then [0] + ValuesFrom(s, k, count - 1)
      else
        var c := StrToUL(s, k);
        [Low32(c.value)] + ValuesFrom(s, c.end, count - 1)
  }

  /** count zeros. */
  function Zeros(count: nat): (r: seq<Uint32>)
    ensures |r| == count && forall m :: 0 <= m < count ==> r[m] == 0
  {
    seq(count, _ => 0)
  }

  /** What read_values stores: count values after prefix, or count zeros. */
  function ReadValuesSpec(buffer: string, prefix: string, count: nat): (r: seq<Uint32>)
    ensures |r| == count
  {
    var found := StrStr(buffer, prefix);
    if found.None? then Zeros(count) else ValuesFrom(buffer, found.value + |prefix|, count)
  }

  /** read_values: fills values[0 .. count) from the numbers after prefix. */
  method ReadValues(buffer: string, prefix: string, values: array<Uint32>, count: nat)
    requires count <= values.Length
    modifies values
    ensures values[..count] == ReadValuesSpec(buffer, prefix, count)
    ensures forall k :: count <= k < values.Length ==> values[k] == old(values[k])
  {
    var found := StrStr(buffer, prefix);
    ReadValuesCases(buffer, prefix, count);
    if found.None? {
      ZeroValues(values, count);
    } else {
      ScanValues(buffer, found.value + |prefix|, values, count);
    }
  }

  /** The two outcomes of read_values: no prefix, or the numbers after it. */
  lemma ReadValuesCases(buffer: string, prefix: string, count: nat)
    ensures StrStr(buffer, prefix).None? ==> ReadValuesSpec(buffer, prefix, count) == Zeros(count)
    ensures StrStr(buffer, prefix).Some? ==>
              ReadValuesSpec(buffer, prefix, count) == ValuesFrom(buffer, StrStr(buffer, prefix).value + |prefix|, count)
  {
  }

  /** Numbers as the statistics files write them: each in decimal after its gap of white space. */
  function SpacedNumbers(gaps: seq<string>, ns: seq<Uint32>): string
    requires |gaps| == |ns|
    decreases |ns|
  {
    if ns == [] then [] else gaps[0] + NatToDecimal(ns[0] as nat) + SpacedNumbers(gaps[1..], ns[1..])
  }

  /** Gaps of white space, each one non-empty except perhaps the first. */
  predicate Gaps(gaps: seq<string>) {
    forall g :: 0 <= g < |gaps| ==> (gaps[g] != [] || g == 0) && Blank(gaps[g])
  }

  /** Text of white space only. */
  predicate Blank(t: string) {
    forall m :: 0 <= m < |t| ==> IsSpace(t[m])
  }

  /**
   * What follows the numbers at index e: when all of them were there, the
   * end of the text or a character that ends a number; when fewer, white
   * space only.
   */
  predicate NumbersEnd(s: string, e: nat, full: bool)
    requires e <= |s|
  {
    if full then e == |s| || !IsAlphaNum(s[e]) else forall m :: e <= m < |s| ==> IsSpace(s[m])
  }

  /**
   * read_values finds, in order, the numbers that follow the first
   * occurrence of the prefix, and 0 for each one missing once the text is
   * used up.
   */
  lemma ReadValuesFinds(s: string, prefix: string, j: nat, gaps: seq<string>, ns: seq<Uint32>, count: nat)
    requires StrStr(s, prefix).Some? && j == StrStr(s, prefix).value + |prefix|
    requires |gaps| == |ns| <= count && Gaps(gaps)
    requires SpacedAt(s, j, SpacedNumbers(gaps, ns), |ns| == count)
    ensures ReadValuesSpec(s, prefix, count) == ns + Zeros(count - |ns|)
  {
    ValuesFromSpaced(s, j, gaps, ns, count);
    ReadValuesAt(s, prefix, j, count, ns + Zeros(count - |ns|));
  }

  /** Where the first occurrence of the prefix ends at j, read_values stores the values read from j on. */
  lemma ReadValuesAt(s: string, prefix: string, j: nat, count: nat, v: seq<Uint32>)
    requires StrStr(s, prefix).Some? && j == StrStr(s, prefix).value + |prefix|
    requires ValuesFrom(s, j, count) == v
    ensures ReadValuesSpec(s, prefix, count) == v
  {
    ReadValuesFound(s, prefix, count, v);
  }

  lemma ReadValuesFound(s: string, prefix: string, count: nat, v: seq<Uint32>)
    requires StrStr(s, prefix).Some?
    requires ValuesFrom(s, StrStr(s, prefix).value + |prefix|, count) == v
    ensures ReadValuesSpec(s, prefix, count) == v
  {
  }

  /** text sits in s at j, and what follows it ends the numbers (see NumbersEnd). */
  predicate SpacedAt(s: string, j: nat, text: string, full: bool)
  {
    j + |text| <= |s| && s[j..j + |text|] == text && NumbersEnd(s, j + |text|, full)
  }

  /** The numbers written from index j on are read back, then zeros. */
  lemma {:induction false} ValuesFromSpaced(s: string, j: nat, gaps: seq<string>, ns: seq<Uint32>, count: nat)
    requires |gaps| == |ns| <= count && Gaps(gaps)
    requires SpacedAt(s, j, SpacedNumbers(gaps, ns), |ns| == count)
    ensures ValuesFrom(s, j, count) == ns + Zeros(count - |ns|)
    decreases |ns|, 1
  {
    if ns == [] {
      NoNumbersLeft(s, j, count);
    } else {
      ValuesFromFirst(s, j, gaps, ns, count);
    }
  }

  /** The first number is read, then the others from where it ends. */
  lemma {:induction false} ValuesFromFirst(s: string, j: nat, gaps: seq<string>, ns: seq<Uint32>, count: nat)
    requires |gaps| == |ns| <= count && Gaps(gaps) && ns != []
    requires SpacedAt(s, j, SpacedNumbers(gaps, ns), |ns| == count)
    ensures ValuesFrom(s, j, count) == ns + Zeros(count - |ns|)
    decreases |ns|, 0
  {
    var e := SpacedStep(s, j, gaps, ns, count);
    ValuesFromSpaced(s, e, gaps[1..], ns[1..], count - 1);
    ConsAppend(ValuesFrom(s, j, count), ValuesFrom(s, e, count - 1), ns, count);
  }

  /** The first of the numbers is read, and the rest are written from index e on. */
  lemma SpacedStep(s: string, j: nat, gaps: seq<string>, ns: seq<Uint32>, count: nat) returns (e: nat)
    requires |gaps| == |ns| <= count && Gaps(gaps) && ns != []
    requires SpacedAt(s, j, SpacedNumbers(gaps, ns), |ns| == count)
    ensures Gaps(gaps[1..]) && SpacedAt(s, e, SpacedNumbers(gaps[1..], ns[1..]), |ns[1..]| == count - 1)
    ensures ValuesFrom(s, j, count) == [ns[0]] + ValuesFrom(s, e, count - 1)
  {
    var d := NatToDecimal(ns[0] as nat);
    var rest := SpacedNumbers(gaps[1..], ns[1..]);
    e := j + |gaps[0]| + |d|;
    ghost var text := SpacedNumbers(gaps, ns);
    assert text == gaps[0] + d + rest;
    assert j + |text| == e + |rest|;
    SpacedParts(s, j, gaps[0], d, rest);
    NumberEnds(s, e, gaps, ns, count);
    assert Blank(gaps[0]);
    ValueHead(s, j, gaps[0], ns[0], count, e);
    assert Gaps(gaps[1..]) by {
      forall g | 0 <= g < |gaps[1..]| ensures gaps[1..][g] == gaps[g + 1] { }
    }
  }

  /** A value read in front of the values of the rest. */
  lemma ConsAppend(whole: seq<Uint32>, rest: seq<Uint32>, ns: seq<Uint32>, count: nat)
    requires 0 < |ns| <= count
    requires whole == [ns[0]] + rest && rest == ns[1..] + Zeros(count - 1 - |ns[1..]|)
    ensures whole == ns + Zeros(count - |ns|)
  {
    assert count - 1 - |ns[1..]| == count - |ns|;
    assert ns == [ns[0]] + ns[1..];
  }

  /** With no numbers written, the values are zeros (none at all when count is 0). */
  lemma NoNumbersLeft(s: string, j: nat, count: nat)
    requires j <= |s| && NumbersEnd(s, j, count == 0)
    ensures ValuesFrom(s, j, count) == [] + Zeros(count)
  {
    if count > 0 {
      ValuesAtBlank(s, j, count);
    }
    assert [] + Zeros(count) == Zeros(count);
  }

  /** A number after its gap of white space is the first value read. */
  lemma ValueHead(s: string, j: nat, gap: string, n: Uint32, count: nat, e: nat)
    requires count > 0 && Blank(gap) && e == j + |gap| + |NatToDecimal(n as nat)|
    requires j + |gap| + |NatToDecimal(n as nat)| <= |s|
    requires s[j..j + |gap|] == gap
    requires s[j + |gap|..j + |gap| + |NatToDecimal(n as nat)|] == NatToDecimal(n as nat)
    requires j + |gap| + |NatToDecimal(n as nat)| == |s| || !IsAlphaNum(s[j + |gap| + |NatToDecimal(n as nat)|])
    ensures ValuesFrom(s, j, count) == [n] + ValuesFrom(s, e, count - 1)
  {
    var d := NatToDecimal(n as nat);
    var a := j + |gap|;
    DecimalDigits(n as nat);
    assert !IsSpace(s[a]) by {
      assert s[a] == d[0];
    }
    GapSkipped(s, j, gap, a);
    DecimalRoundTrip(s, a, n as nat);
    Low32Small(n as nat);
    ValuesFromNumber(s, j, count, a, Conversion(n as nat, e));
  }

  /** The white space of a gap written at j is skipped up to index a, where the gap ends. */
  lemma GapSkipped(s: string, j: nat, gap: string, a: nat)
    requires Blank(gap) && a == j + |gap| < |s| && s[j..a] == gap && !IsSpace(s[a])
    ensures SkipSpace(s, j) == a
  {
    forall m | j <= m < a ensures IsSpace(s[m]) {
      assert s[m] == gap[m - j];
    }
    SkipSpaceOver(s, j, a);
  }

  /** Where white space from j on ends at k before the end, the first value is what strtoul converts at k. */
  lemma ValuesFromNumber(s: string, j: nat, count: nat, k: nat, c: Conversion)
    requires count > 0 && j <= k < |s| && SkipSpace(s, j) == k && StrToUL(s, k) == c
    ensures ValuesFrom(s, j, count) == [Low32(c.value)] + ValuesFrom(s, c.end, count - 1)
  {
  }

  /** The character after the first of the numbers ends it. */
  lemma NumberEnds(s: string, e: nat, gaps: seq<string>, ns: seq<Uint32>, count: nat)
    requires |gaps| == |ns| <= count && Gaps(gaps) && ns != []
    requires e + |SpacedNumbers(gaps[1..], ns[1..])| <= |s|
    requires s[e..e + |SpacedNumbers(gaps[1..], ns[1..])|] == SpacedNumbers(gaps[1..], ns[1..])
    requires NumbersEnd(s, e + |SpacedNumbers(gaps[1..], ns[1..])|, |ns| == count)
    ensures e == |s| || !IsAlphaNum(s[e])
  {
    var rest := SpacedNumbers(gaps[1..], ns[1..]);
    if |ns| > 1 {
      assert gaps[1] != [] && Blank(gaps[1]);
      assert IsSpace(gaps[1][0]);
      assert rest[0] == gaps[1][0];
      assert s[e] == rest[0];
    }
  }

  /** The three parts of a text written from index j on. */
  lemma SpacedParts(s: string, j: nat, x: string, y: string, z: string)
    requires j + |x + y + z| <= |s| && s[j..j + |x + y + z|] == x + y + z
    ensures s[j..j + |x|] == x && s[j + |x|..j + |x| + |y|] == y
    ensures s[j + |x| + |y|..j + |x| + |y| + |z|] == z
  {
    var t := x + y + z;
    assert t[..|x|] == x && t[|x|..|x| + |y|] == y && t[|x| + |y|..] == z;
    SliceOfSlice(s, j, t, 0, |x|);
    SliceOfSlice(s, j, t, |x|, |x| + |y|);
    SliceOfSlice(s, j, t, |x| + |y|, |t|);
  }

  /** A part of a text written from index j on. */
  lemma SliceOfSlice(s: string, j: nat, t: string, a: nat, b: nat)
    requires j + |t| <= |s| && s[j..j + |t|] == t && a <= b <= |t|
    ensures s[j + a..j + b] == t[a..b]
  {
    forall m | 0 <= m < b - a ensures s[j + a..j + b][m] == t[a..b][m] {
      assert s[j + a + m] == s[j..j + |t|][a + m];
    }
  }

  /** Only white space left: every value is 0. */
  lemma {:induction false} ValuesAtBlank(s: string, j: nat, count: nat)
    requires j <= |s| && forall m :: j <= m < |s| ==> IsSpace(s[m])
    ensures ValuesFrom(s, j, count) == Zeros(count)
    decreases count
  {
    if count > 0 {
      SkipSpaceOver(s, j, |s|);
      ValuesAtBlank(s, |s|, count - 1);
      assert Zeros(count) == [0] + Zeros(count - 1);
    }
  }

  /** The loop of read_values after its prefix: count numbers read from index start on. */
  method ScanValues(buffer: string, start: nat, values: array<Uint32>, count: nat)
    requires start <= |buffer| && count <= values.Length
    modifies values
    ensures values[..count] == ValuesFrom(buffer, start, count)
    ensures forall k :: count <= k < values.Length ==> values[k] == old(values[k])
  {
    ghost var seen: seq<Uint32> := [];
    var ptr: nat := start;
    var i: nat := 0;
    while i < count
      invariant i <= count && ptr <= |buffer| && |seen| == i
      invariant ValuesFrom(buffer, start, count) == seen + ValuesFrom(buffer, ptr, count - i)
      invariant values[..i] == seen
      invariant forall k :: count <= k < values.Length ==> values[k] == old(values[k])
    {
      var v, next := ReadOne(buffer, ptr, count - i - 1);
      ghost var rest := ValuesFrom(buffer, next, count - i - 1);
      Reassociate(seen, v, rest);
      ghost var before := values[..];
      values[i] := v;
      StoreAppends(before, values[..], i, v);
      seen := seen + [v];
      ptr := next;
      i := i + 1;
    }
    assert ValuesFrom(buffer, ptr, 0) == [];
    assert seen + [] == seen;
  }

  /** Appending one value to what was stored keeps the values still to come. */
  lemma Reassociate(seen: seq<Uint32>, v: Uint32, rest: seq<Uint32>)
    ensures seen + ([v] + rest) == (seen + [v]) + rest
  {
  }

  /** Storing x at index i extends the prefix before i by x. */
  lemma StoreAppends(before: seq<Uint32>, after: seq<Uint32>, i: nat, x: Uint32)
    requires i < |before| && after == before[i := x]
    ensures after[..i + 1] == before[..i] + [x]
  {
  }

  /** One round of the loop of read_values: the value at ptr and where the next one starts. */
  method ReadOne(buffer: string, ptr: nat, n: nat) returns (v: Uint32, next: nat)
    requires ptr <= |buffer|
    ensures next <= |buffer|
    ensures ValuesFrom(buffer, ptr, n + 1) == [v] + ValuesFrom(buffer, next, n)
  {
    next := SkipSpaces(buffer, ptr);
    v := 0;
    if next < |buffer| {
      var c := StrToUL(buffer, next);
      v := Low32(c.value);
      next := c.end;
    }
  }

  /** The loop of read_values that steps over white space before a number. */
  method SkipSpaces(buffer: string, start: nat) returns (ptr: nat)
    requires start <= |buffer|
    ensures ptr == SkipSpace(buffer, start)
  {
    ptr := start;
    while ptr < |buffer| && IsSpace(buffer[ptr])
      invariant start <= ptr <= |buffer|
      invariant SkipSpace(buffer, start) == SkipSpace(buffer, ptr)
      decreases |buffer| - ptr
    {
      ptr := ptr + 1;
    }
  }

  /** read_values without its prefix: every one of the count values is 0. */
  method ZeroValues(values: array<Uint32>, count: nat)
    requires count <= values.Length
    modifies values
    ensures values[..count] == Zeros(count)
    ensures forall k :: count <= k < values.Length ==> values[k] == old(values[k])
  {
    var i := 0;
    while i < count
      invariant i <= count
      invariant forall m :: 0 <= m < i ==> values[m] == 0
      invariant forall k :: count <= k < values.Length ==> values[k] == old(values[k])
    {
      values[i] := 0;
      i := i + 1;
    }
  }
}
