/**
 * The parts of the C library the agent's utilities rely on, as the C
 * standard defines them in the "C" locale: isspace, strtoul with base 0,
 * strstr and the decimal conversion of printf's "%d".
 *
 * A C string is modelled by the characters before its terminating NUL.
 */
module CLib {

  import opened Types

  const ULONG_MAX: nat := 0xFFFF_FFFF_FFFF_FFFF

  /** isspace in the "C" locale. */
  predicate IsSpace(c: char) {
    c == ' ' || c == '\t' || c == '\n' || c == '\U{B}' || c == '\U{C}' || c == '\r'
  }

  predicate IsDigit(c: char) { '0' <= c <= '9' }

  predicate IsAlphaNum(c: char) {
    IsDigit(c) || 'a' <= c <= 'z' || 'A' <= c <= 'Z'
  }

  /** The value of c as a digit in any base up to 36 (36 when c is no digit). */
  function DigitValue(c: char): (d: nat)
    ensures d <= 36
    ensures d < 10 <==> IsDigit(c)
  {
    if IsDigit(c) then c as int - '0' as int
    else if 'a' <= c <= 'z' then c as int - 'a' as int + 10
    else if 'A' <= c <= 'Z' then c as int - 'A' as int + 10
    else 36
  }

  /** The bases strtoul picks with base 0. */
  type Base = b: nat | b == 8 || b == 10 || b == 16 witness 10

  /** acc shifted by one digit of the given base. */
  function Shift(acc: nat, base: Base): nat {
    if base == 8 then acc * 8 else if base == 10 then acc * 10 else acc * 16
  }

  /** Result of strtoul: the converted value and the index endptr is set to. */
  datatype Conversion = Conversion(value: nat, end: nat)

  /**
   * strtoul's digit loop from index j: acc is the value of the digits read
   * so far; the scan stops at the first character that is no digit of base.
   */
  function ScanDigits(s: string, j: nat, base: Base, acc: nat): (r: Conversion)
    requires j <= |s|
    ensures j <= r.end <= |s|
    ensures acc <= r.value
    decreases |s| - j
  {
    if j < |s| && DigitValue(s[j]) < base then
      ScanDigits(s, j + 1, base, Shift(acc, base) + DigitValue(s[j]))
    else Conversion(acc, j)
  }

  /** The index of the first character at or after j that is not white space. */
  function SkipSpace(s: string, j: nat): (k: nat)
    requires j <= |s|
    ensures j <= k <= |s|
    decreases |s| - j
  {
    if j < |s| && IsSpace(s[j]) then SkipSpace(s, j + 1) else j
  }

  /**
   * strtoul(s + i, &end, 0): leading white space, an optional sign, then a
   * hexadecimal number after "0x" or "0X", an octal number after a leading
   * "0", a decimal number otherwise. Without any digit nothing is converted
   * and end is i. A value above ULONG_MAX yields ULONG_MAX; a minus sign
   * negates the value modulo 2^64. White space is skipped one character at
   * a time: strtoul at i is strtoul at i + 1 when it converts something.
   */
  function StrToUL(s: string, i: nat): (r: Conversion)
    requires i <= |s|
    ensures r.value <= ULONG_MAX
    ensures i <= r.end <= |s|
    decreases |s| - i
  {
    if i < |s| && IsSpace(s[i]) then
      var c := StrToUL(s, i + 1);
      if c.end == i + 1 then Conversion(0, i) else c
    else ConvertSigned(s, i, i)
  }

  /** strtoul once the white space up to index j is skipped. */
  function ConvertSigned(s: string, i: nat, j: nat): (r: Conversion)
    requires i <= j <= |s|
    ensures r.value <= ULONG_MAX
    ensures i <= r.end <= |s|
  {
    var negative := j < |s| && s[j] == '-';
    var k := if j < |s| && (s[j] == '-' || s[j] == '+') then j + 1 else j;
    var hex := k + 2 < |s| && s[k] == '0' && (s[k + 1] == 'x' || s[k + 1] == 'X')
               && DigitValue(s[k + 2]) < 16;
    var base := if hex then 16 else if k < |s| && s[k] == '0' then 8 else 10;
    ConvertDigits(s, i, negative, if hex then k + 2 else k, base)
  }

  /** strtoul once the sign and the base prefix up to index start are read. */
  function ConvertDigits(s: string, i: nat, negative: bool, start: nat, base: Base): (r: Conversion)
    requires i <= start <= |s|
    ensures r.value <= ULONG_MAX
    ensures i <= r.end <= |s|
  {
    var d := ScanDigits(s, start, base, 0);
    if d.end == start then Conversion(0, i)
    else
      var v := d.value;
      var value := if v > ULONG_MAX then ULONG_MAX
                   else if negative && v > 0 then ULONG_MAX + 1 - v
                   else v;
      Conversion(value, d.end)
  }

  /** The value of the digit string t read after acc, as strtoul's loop folds it. */
  function Fold(acc: nat, t: string, base: Base): nat
    decreases |t|
  {
    if t == [] then acc else Fold(Shift(acc, base) + DigitValue(t[0]), t[1..], base)
  }

  lemma {:induction false} FoldAppend(acc: nat, a: string, b: string, base: Base)
    ensures Fold(acc, a + b, base) == Fold(Fold(acc, a, base), b, base)
    decreases |a|
  {
    if a == [] {
      assert a + b == b;
    } else {
      assert (a + b)[1..] == a[1..] + b;
      FoldAppend(Shift(acc, base) + DigitValue(a[0]), a[1..], b, base);
    }
  }

  /** strtoul's loop reads a run of digits of its base as their value. */
  lemma {:induction false} ScanOver(s: string, j: nat, k: nat, base: Base, acc: nat)
    requires j <= k <= |s|
    requires forall m :: j <= m < k ==> DigitValue(s[m]) < base
    ensures ScanDigits(s, j, base, acc) == ScanDigits(s, k, base, Fold(acc, s[j..k], base))
    decreases k - j
  {
    if j < k {
      assert s[j..k][1..] == s[j + 1..k];
      ScanOver(s, j + 1, k, base, Shift(acc, base) + DigitValue(s[j]));
    }
  }

  /** The decimal digits of n, as printf's "%u" writes them. */
  function NatToDecimal(n: nat): (s: string)
    ensures |s| >= 1
  {
    if n < 10 then ['0' + n as char]
    else NatToDecimal(n / 10) + ['0' + (n % 10) as char]
  }

  /** The text of n is made of digits and starts with '0' only for zero. */
  lemma {:induction false} DecimalDigits(n: nat)
    ensures forall k :: 0 <= k < |NatToDecimal(n)| ==> IsDigit(NatToDecimal(n)[k])
    ensures NatToDecimal(n)[0] == '0' <==> n == 0
    decreases n
  {
    if n >= 10 {
      DecimalDigits(n / 10);
      var s := NatToDecimal(n);
      assert s[0] == NatToDecimal(n / 10)[0];
    }
  }

  /** The text printf's "%d" writes for n. */
  function IntToDecimal(n: int): string {
    if n < 0 then "-" + NatToDecimal(-n) else NatToDecimal(n)
  }

  lemma {:induction false} DecimalValue(n: nat)
    ensures Fold(0, NatToDecimal(n), 10) == n
    decreases n
  {
    if n >= 10 {
      DecimalValue(n / 10);
      FoldAppend(0, NatToDecimal(n / 10), ['0' + (n % 10) as char], 10);
    }
  }

  /**
   * strtoul reads back what "%u" wrote at index i of s, stopping at the first
   * character after it that is neither a letter nor a digit.
   */
  lemma DecimalRoundTrip(s: string, i: nat, n: nat)
    requires n <= ULONG_MAX
    requires i + |NatToDecimal(n)| <= |s| && s[i..i + |NatToDecimal(n)|] == NatToDecimal(n)
    requires i + |NatToDecimal(n)| == |s| || !IsAlphaNum(s[i + |NatToDecimal(n)|])
    ensures StrToUL(s, i) == Conversion(n, i + |NatToDecimal(n)|)
  {
    var d := NatToDecimal(n);
    DecimalDigits(n);
    var base: Base := if n == 0 then 8 else 10;
    assert s[i] == d[0] && IsDigit(s[i]);
    assert n == 0 ==> |d| == 1;
    forall m | i <= m < i + |d| ensures DigitValue(s[m]) < base {
      assert s[m] == d[m - i];
    }
    ScanOver(s, i, i + |d|, base, 0);
    if n == 0 {
      assert d == "0";
    } else {
      DecimalValue(n);
    }
    StrToULPlain(s, i, base);
  }

  /** strtoul at index i of text that has a digit there and no "0x" prefix. */
  lemma StrToULPlain(s: string, i: nat, base: Base)
    requires i < |s| && IsDigit(s[i])
    requires base == (if s[i] == '0' then 8 else 10)
    requires !(i + 2 < |s| && s[i] == '0' && (s[i + 1] == 'x' || s[i + 1] == 'X'))
    requires ScanDigits(s, i, base, 0).value <= ULONG_MAX
    ensures StrToUL(s, i) == ScanDigits(s, i, base, 0)
  {
  }

  /** The digit loop of strtoul stops at a '.', which is no digit of any base. */
  lemma {:induction false} ScanStopsAtDot(s: string, j: nat, base: Base, acc: nat, k: nat)
    requires j <= k < |s| && s[k] == '.'
    ensures ScanDigits(s, j, base, acc).end <= k
    decreases |s| - j
  {
    if j < |s| && DigitValue(s[j]) < base {
      assert j != k;
      ScanStopsAtDot(s, j + 1, base, Shift(acc, base) + DigitValue(s[j]), k);
    }
  }

  /** strtoul never reads past a '.': white space, signs, "0x" and digits are all different from it. */
  lemma {:induction false} StrToULStopsAtDot(s: string, i: nat, k: nat)
    requires i <= k < |s| && s[k] == '.'
    ensures StrToUL(s, i).end <= k
    decreases |s| - i
  {
    if i < |s| && IsSpace(s[i]) {
      assert i != k;
      StrToULStopsAtDot(s, i + 1, k);
    } else {
      SignedStopsAtDot(s, i, k);
    }
  }

  /** strtoul after the white space stops at a '.' too. */
  lemma SignedStopsAtDot(s: string, i: nat, k: nat)
    requires i <= k < |s| && s[k] == '.'
    ensures ConvertSigned(s, i, i).end <= k
  {
    var j := if s[i] == '-' || s[i] == '+' then i + 1 else i;
    var hex := j + 2 < |s| && s[j] == '0' && (s[j + 1] == 'x' || s[j + 1] == 'X') && DigitValue(s[j + 2]) < 16;
    var base: Base := if hex then 16 else if j < |s| && s[j] == '0' then 8 else 10;
    var start := if hex then j + 2 else j;
    DigitsStopAtDot(s, i, s[i] == '-', start, base, k);
  }

  lemma DigitsStopAtDot(s: string, i: nat, negative: bool, start: nat, base: Base, k: nat)
    requires i <= start <= k < |s| && s[k] == '.'
    ensures ConvertDigits(s, i, negative, start, base).end <= k
  {
    ScanStopsAtDot(s, start, base, 0, k);
  }

  /** needle occurs in hay at index k. */
  predicate MatchAt(hay: string, needle: string, k: nat) {
    k + |needle| <= |hay| && hay[k..k + |needle|] == needle
  }

  /** strstr: the index of the first occurrence of needle in hay. */
  function StrStr(hay: string, needle: string): (r: Option<nat>)
    ensures r.Some? ==> MatchAt(hay, needle, r.value)
    ensures r.Some? ==> forall k: nat :: k < r.value ==> !MatchAt(hay, needle, k)
    ensures r.None? ==> forall k: nat :: !MatchAt(hay, needle, k)
  {
    StrStrFrom(hay, needle, 0)
  }

  function StrStrFrom(hay: string, needle: string, i: nat): (r: Option<nat>)
    requires forall k: nat :: k < i ==> !MatchAt(hay, needle, k)
    ensures r.Some? ==> i <= r.value && MatchAt(hay, needle, r.value)
    ensures r.Some? ==> forall k: nat :: k < r.value ==> !MatchAt(hay, needle, k)
    ensures r.None? ==> forall k: nat :: !MatchAt(hay, needle, k)
    decreases |hay| + 1 - i
  {
    if i + |needle| > |hay| then None
    else if MatchAt(hay, needle, i) then Some(i)
    else StrStrFrom(hay, needle, i + 1)
  }

}
