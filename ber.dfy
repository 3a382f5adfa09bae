/**
 * The ASN.1 BER element codec of the agent (protocol.c): the decoders that
 * read one element type, length or value at a cursor into the received
 * packet, and the encoders and length predictors of the response elements,
 * following sections 8.1.3 (length octets), 8.3 (INTEGER) and 8.19 (OBJECT
 * IDENTIFIER) of ITU-T X.690.
 *
 * A decoder sees p, the size valid bytes of the client's packet buffer; it
 * returns the decoded item with the cursor position after it, or None where
 * the C function returns -1.
 */
module Ber {

  import opened Types

  /** A decoded item and the cursor position after it. */
  datatype Decoded<T> = Decoded(value: T, next: nat)

  /* ---------------------------------------------------------------------------
   * Element type and length
   */

  /** The element types decode_snmp_element_type_length accepts. */
  predicate IsElementType(b: Byte) {
    || b == BER_TYPE_BOOLEAN || b == BER_TYPE_INTEGER || b == BER_TYPE_BIT_STRING
    || b == BER_TYPE_OCTET_STRING || b == BER_TYPE_NULL || b == BER_TYPE_OID
    || b == BER_TYPE_SEQUENCE || b == BER_TYPE_COUNTER || b == BER_TYPE_GAUGE
    || b == BER_TYPE_TIME_TICKS || b == BER_TYPE_NO_SUCH_OBJECT
    || b == BER_TYPE_NO_SUCH_INSTANCE || b == BER_TYPE_END_OF_MIB_VIEW
    || b == BER_TYPE_SNMP_GET || b == BER_TYPE_SNMP_GETNEXT || b == BER_TYPE_SNMP_RESPONSE
    || b == BER_TYPE_SNMP_SET || b == BER_TYPE_SNMP_GETBULK || b == BER_TYPE_SNMP_INFORM
    || b == BER_TYPE_SNMP_TRAP
  }

  /** A type octet and the content length that follows it, and where the content starts. */
  datatype Header = Header(tag: Byte, length: nat, next: nat)

  /** The unsigned value of a big-endian octet string. */
  function BigEndian(s: seq<Byte>): nat {
    if s == [] then 0 else BigEndian(s[..|s| - 1]) * 256 + s[|s| - 1]
  }

  /**
   * decode_snmp_element_type_length at pos: a supported type octet, then
   * either one length octet below 0x80 or 0x80 + n followed by n <= 2
   * big-endian length octets, all within the packet.
   */
  function TypeLength(p: seq<Byte>, pos: nat): (r: Option<Header>)
    ensures r.Some? ==> pos + 1 < |p| && r.value.tag == p[pos] && IsElementType(p[pos])
    ensures r.Some? ==> r.value.length <= 0xFFFF && r.value.next <= |p|
    ensures r.Some? && p[pos + 1] < 0x80 ==> r.value.length == p[pos + 1] && r.value.next == pos + 2
    ensures r.Some? && p[pos + 1] >= 0x80 ==>
              p[pos + 1] <= 0x82 && r.value.next == pos + 2 + (p[pos + 1] - 0x80)
              && r.value.length == BigEndian(p[pos + 2..r.value.next])
  {
    if pos + 1 >= |p| || !IsElementType(p[pos]) then None
    else if p[pos + 1] < 0x80 then Some(Header(p[pos], p[pos + 1], pos + 2))
    else
      var n := p[pos + 1] - 0x80;
      if n > 2 || pos + 2 + n > |p| then None
      else
        var length := BigEndian(p[pos + 2..pos + 2 + n]);
        assert length <= 0xFFFF by { BigEndianBound(p[pos + 2..pos + 2 + n]); }
        Some(Header(p[pos], length, pos + 2 + n))
  }

  lemma BigEndianBound(s: seq<Byte>)
    requires |s| <= 2
    ensures BigEndian(s) <= 0xFFFF
  {
    if |s| == 2 {
      assert s[..1][..0] == [];
    } else if |s| == 1 {
      assert s[..0] == [];
    }
  }

  /** The type and length decoder fails on an unsupported type octet and on a missing octet. */
  lemma TypeLengthRejects(p: seq<Byte>, pos: nat)
    ensures pos < |p| && !IsElementType(p[pos]) ==> TypeLength(p, pos).None?
    ensures pos + 1 >= |p| ==> TypeLength(p, pos).None?
    ensures pos + 1 < |p| && p[pos + 1] > 0x82 ==> TypeLength(p, pos).None?
    ensures !IsElementType(BER_TYPE_SNMP_REPORT)
  {
  }

  /**
   * decode_snmp_element_type_length on the whole client buffer: the same
   * result as TypeLength on its valid bytes.
   */
  method DecodeTypeLength(packet: array<Byte>, size: nat, pos: nat) returns (r: Option<Header>)
    requires size <= packet.Length
    ensures r == TypeLength(packet[..size], pos)
  {
    ghost var p := packet[..size];
    if !(pos < size) {
      return None;
    }
    var tag := packet[pos];
    if !IsElementType(tag) {
      return None;
    }
    var cursor := pos + 1;
    if !(cursor < size) {
      return None;
    }
    if packet[cursor] < 0x80 {
      return Some(Header(tag, packet[cursor], cursor + 1));
    }
    var lengthOfLength := packet[cursor] - 0x80;
    if lengthOfLength > 2 {
      return None;
    }
    cursor := cursor + 1;
    var length: nat := 0;
    var left := lengthOfLength;
    while left > 0
      invariant 0 <= left <= lengthOfLength
      invariant cursor == pos + 2 + (lengthOfLength - left) <= size
      invariant length == BigEndian(p[pos + 2..cursor])
    {
      if !(cursor < size) {
        return None;
      }
      assert p[pos + 2..cursor + 1][..cursor - pos - 2] == p[pos + 2..cursor];
      length := length * 256 + packet[cursor];
      cursor := cursor + 1;
      left := left - 1;
    }
    return Some(Header(tag, length, cursor));
  }

  /* ---------------------------------------------------------------------------
   * The bounds check of the value decoders
   */

  /** 2^64: size_t arithmetic wraps modulo this. */
  const SIZE_T_MODULUS: nat := 0x1_0000_0000_0000_0000

  /**
   * The check `*pos < (size - length + 1)` of the value decoders as written:
   * length is converted to size_t and the difference wraps around when
   * length exceeds size + 1.
   */
  predicate ValueFitsAsWritten(size: nat, pos: nat, length: nat) {
    pos < (size - length + 1) % SIZE_T_MODULUS
  }

  /** What the check evidently intends: the length content bytes lie within the packet. */
  predicate ValueFits(size: nat, pos: nat, length: nat) {
    pos + length <= size
  }

  /** The two checks agree as long as the difference does not wrap. */
  lemma ValueFitsAgree(size: nat, pos: nat, length: nat)
    requires size <= MAX_PACKET_SIZE && length <= size + 1
    ensures ValueFitsAsWritten(size, pos, length) <==> ValueFits(size, pos, length)
  {
  }

  /**
   * A content length beyond the packet passes the check as written: the
   * decoders would then read past the received bytes.
   */
  lemma ValueFitsAsWrittenWraps()
    ensures ValueFitsAsWritten(30, 20, 0xFFFF) && !ValueFits(30, 20, 0xFFFF)
  {
  }

  /* ---------------------------------------------------------------------------
   * INTEGER, COUNTER, GAUGE, TIMETICKS values
   */

  /** `(tmp << 8) | b` on a 32-bit unsigned int. */
  function ShiftIn(acc: Uint32, b: Byte): Uint32 {
    (acc * 256 + b) % 0x1_0000_0000
  }

  /** The octets of s shifted into acc from the left, most significant first. */
  function FoldBytes(acc: Uint32, s: seq<Byte>): Uint32 {
    if s == [] then acc else ShiftIn(FoldBytes(acc, s[..|s| - 1]), s[|s| - 1])
  }

  /** The sign fill of decode_snmp_element_value_integer: all ones for a negative first octet. */
  function SignFill(b: Byte): Uint32 {
    if b >= 0x80 then 0xFFFF_FFFF else 0
  }

  /**
   * decode_snmp_element_value_integer: the sign of the first content octet
   * fills all bits, then the length octets are shifted in; the unsigned
   * result is read as an int.
   */
  function IntegerValue(p: seq<Byte>, pos: nat, length: nat): (r: Option<Decoded<Int32>>)
    ensures r.Some? <==> pos < |p| && ValueFits(|p|, pos, length)
    ensures r.Some? ==> r.value.next == pos + length
  {
    if pos < |p| && ValueFits(|p|, pos, length) then
      Some(Decoded(ToInt32(FoldBytes(SignFill(p[pos]), p[pos..pos + length])), pos + length))
    else None
  }

  /**
   * A zero-length INTEGER whose content would start at the end of the
   * received bytes passes both checks, yet the decoder refuses it: the sign
   * fill has no first content octet to read.
   */
  lemma EmptyIntegerAtEnd(p: seq<Byte>)
    requires |p| <= MAX_PACKET_SIZE
    ensures ValueFitsAsWritten(|p|, |p|, 0) && ValueFits(|p|, |p|, 0)
    ensures IntegerValue(p, |p|, 0).None?
  {
  }

  /** decode_snmp_element_value_unsigned: the length octets shifted into zero. */
  function UnsignedValue(p: seq<Byte>, pos: nat, length: nat): (r: Option<Decoded<Uint32>>)
    ensures r.Some? <==> ValueFits(|p|, pos, length)
    ensures r.Some? ==> r.value.next == pos + length
  {
    if ValueFits(|p|, pos, length) then Some(Decoded(FoldBytes(0, p[pos..pos + length]), pos + length))
    else None
  }

  /** The decoders' loop: shifts the octets at [pos, pos + length) into acc. */
  method ShiftOctets(packet: array<Byte>, size: nat, pos: nat, length: nat, acc: Uint32)
    returns (value: Uint32, next: nat)
    requires size <= packet.Length && pos + length <= size
    ensures value == FoldBytes(acc, packet[..size][pos..pos + length])
    ensures next == pos + length
  {
    ghost var p := packet[..size];
    value := acc;
    next := pos;
    var left := length;
    while left > 0
      invariant 0 <= left <= length && next == pos + (length - left)
      invariant value == FoldBytes(acc, p[pos..next])
    {
      FoldStep(acc, p, pos, next);
      assert packet[next] == p[next];
      value := (value * 256 + packet[next]) % 0x1_0000_0000;
      next := next + 1;
      left := left - 1;
    }
  }

  /** One more octet of the slice is one more ShiftIn. */
  lemma FoldStep(acc: Uint32, p: seq<Byte>, pos: nat, next: nat)
    requires pos <= next < |p|
    ensures FoldBytes(acc, p[pos..next + 1]) == ShiftIn(FoldBytes(acc, p[pos..next]), p[next])
  {
    assert p[pos..next + 1][..next - pos] == p[pos..next];
  }

  method DecodeInteger(packet: array<Byte>, size: nat, pos: nat, length: nat)
    returns (r: Option<Decoded<Int32>>)
    requires size <= packet.Length
    ensures r == IntegerValue(packet[..size], pos, length)
  {
    if !(pos < size && pos + length <= size) {
      return None;
    }
    var fill: Uint32 := if packet[pos] >= 0x80 then 0xFFFF_FFFF else 0;
    var value, next := ShiftOctets(packet, size, pos, length, fill);
    return Some(Decoded(ToInt32(value), next));
  }

  method DecodeUnsigned(packet: array<Byte>, size: nat, pos: nat, length: nat)
    returns (r: Option<Decoded<Uint32>>)
    requires size <= packet.Length
    ensures r == UnsignedValue(packet[..size], pos, length)
  {
    if !(pos + length <= size) {
      return None;
    }
    var value, next := ShiftOctets(packet, size, pos, length, 0);
    return Some(Decoded(value, next));
  }

  /** The value of the octets of s read as a two's complement number. */
  function Signed(s: seq<Byte>): int
    requires s != []
  {
    BigEndian(s) - (if s[0] >= 0x80 then Power256(|s|) else 0)
  }

  function Power256(n: nat): nat {
    if n == 0 then 1 else 256 * Power256(n - 1)
  }

  /**
   * For one to four content octets the decoded INTEGER is their two's
   * complement value (section 8.3.3 of X.690).
   */
  lemma IntegerValueSigned(p: seq<Byte>, pos: nat, length: nat)
    requires 1 <= length <= 4 && pos + length <= |p|
    ensures IntegerValue(p, pos, length).Some?
    ensures IntegerValue(p, pos, length).value.value == Signed(p[pos..pos + length])
  {
    var s := p[pos..pos + length];
    IntegerValueFolds(p, pos, length);
    assert s[0] == p[pos];
    FoldSigned(s);
  }

  /** IntegerValue within the packet: the sign fill of the first octet, then the octets folded in. */
  lemma IntegerValueFolds(p: seq<Byte>, pos: nat, length: nat)
    requires 1 <= length && pos + length <= |p|
    ensures IntegerValue(p, pos, length) ==
            Some(Decoded(ToInt32(FoldBytes(SignFill(p[pos]), p[pos..pos + length])), pos + length))
  {
    assert ValueFits(|p|, pos, length);
  }

  lemma Power256Values()
    ensures Power256(1) == 0x100 && Power256(2) == 0x1_0000
    ensures Power256(3) == 0x100_0000 && Power256(4) == 0x1_0000_0000
  {
  }

  /** BigEndian written out for one to four octets. */
  lemma BigEndianShort(s: seq<Byte>)
    requires 1 <= |s| <= 4
    ensures |s| == 1 ==> BigEndian(s) == s[0]
    ensures |s| == 2 ==> BigEndian(s) == s[0] as int * 0x100 + s[1]
    ensures |s| == 3 ==> BigEndian(s) == s[0] as int * 0x1_0000 + s[1] as int * 0x100 + s[2]
    ensures |s| == 4 ==>
              BigEndian(s) == s[0] as int * 0x100_0000 + s[1] as int * 0x1_0000 + s[2] as int * 0x100 + s[3]
  {
    assert s[..1][..0] == [];
    assert BigEndian(s[..1]) == s[0];
    if |s| >= 2 {
      assert s[..2][..1] == s[..1];
    }
    if |s| >= 3 {
      assert s[..3][..2] == s[..2];
    }
    if |s| == 4 {
      assert s[..4][..3] == s[..3];
    }
    assert s[..|s|] == s;
  }

  /** Shifting octets into the all-ones fill. */
  lemma {:induction false} FoldOnes(s: seq<Byte>)
    requires |s| <= 4
    ensures BigEndian(s) < Power256(|s|)
    ensures FoldBytes(0xFFFF_FFFF, s) == 0x1_0000_0000 - Power256(|s|) + BigEndian(s)
    decreases |s|
  {
    if s != [] {
      var t := s[..|s| - 1];
      FoldOnes(t);
      Power256Bound(|s|);
      var x := 0x1_0000_0000 - Power256(|t|) + BigEndian(t);
      var y := 0x1_0000_0000 - Power256(|s|) + BigEndian(s);
      assert BigEndian(s) == BigEndian(t) * 256 + s[|s| - 1];
      assert x * 256 + s[|s| - 1] == 255 * 0x1_0000_0000 + y;
      assert FoldBytes(0xFFFF_FFFF, s) == (x * 256 + s[|s| - 1]) % 0x1_0000_0000;
      WordMod(255, y);
    }
  }

  /** Power256(n) fits a 33-bit value for the four octets an int holds. */
  lemma Power256Bound(n: nat)
    requires 1 <= n <= 4
    ensures 256 <= Power256(n) <= 0x1_0000_0000 && Power256(n) == 256 * Power256(n - 1)
  {
    Power256Values();
  }

  /** Reduction modulo 2^32 drops whole multiples of 2^32. */
  lemma WordMod(q: nat, y: int)
    requires 0 <= y < 0x1_0000_0000
    ensures (q * 0x1_0000_0000 + y) % 0x1_0000_0000 == y
  {
  }

  lemma FoldSigned(s: seq<Byte>)
    requires 1 <= |s| <= 4
    ensures -0x8000_0000 <= Signed(s) < 0x8000_0000
    ensures ToInt32(FoldBytes(SignFill(s[0]), s)) == Signed(s)
  {
    BigEndianShort(s);
    Power256Values();
    if s[0] >= 0x80 {
      FoldOnes(s);
    } else {
      FoldUnsigned(s);
    }
  }

  /** For up to four content octets an unsigned value is their big-endian value. */
  lemma UnsignedValueBigEndian(p: seq<Byte>, pos: nat, length: nat)
    requires length <= 4 && pos + length <= |p|
    ensures UnsignedValue(p, pos, length) == Some(Decoded(BigEndian(p[pos..pos + length]), pos + length))
  {
    FoldUnsigned(p[pos..pos + length]);
  }

  lemma {:induction false} FoldUnsigned(s: seq<Byte>)
    requires |s| <= 4
    ensures BigEndian(s) < Power256(|s|) && FoldBytes(0, s) == BigEndian(s)
    decreases |s|
  {
    if s != [] {
      var t := s[..|s| - 1];
      FoldUnsigned(t);
      Power256Bound(|s|);
      var x := BigEndian(t) * 256 + s[|s| - 1];
      assert BigEndian(s) == x && x < Power256(|s|);
      assert FoldBytes(0, s) == x % 0x1_0000_0000;
      WordMod(0, x);
    }
  }

  /* ---------------------------------------------------------------------------
   * OCTET STRING and skipped values
   */

  /** The characters of a C string: everything before the first NUL. */
  function CString(s: seq<Byte>): (r: seq<Byte>)
    ensures |r| <= |s| && r == s[..|r|]
    ensures forall k :: 0 <= k < |r| ==> r[k] != 0
    ensures |r| < |s| ==> s[|r|] == 0
  {
    if s == [] || s[0] == 0 then [] else [s[0]] + CString(s[1..])
  }

  /**
   * decode_snmp_element_value_string: snprintf "%.*s" of the length content
   * octets into a buffer of valueSize characters, so the text stops at a NUL
   * and keeps at most valueSize - 1 characters.
   */
  function StringValue(p: seq<Byte>, pos: nat, length: nat, valueSize: nat): (r: Option<Decoded<seq<Byte>>>)
    requires valueSize >= 1
    ensures r.Some? <==> ValueFits(|p|, pos, length)
    ensures r.Some? ==> r.value.next == pos + length && |r.value.value| < valueSize
    ensures r.Some? ==> |r.value.value| <= length && r.value.value == p[pos..pos + |r.value.value|]
    ensures r.Some? ==> forall k :: 0 <= k < |r.value.value| ==> r.value.value[k] != 0
  {
    if ValueFits(|p|, pos, length) then
      var text := CString(p[pos..pos + length]);
      var kept := if |text| < valueSize then text else text[..valueSize - 1];
      assert text == p[pos..pos + length][..|text|];
      assert kept == text[..|kept|];
      assert forall k :: 0 <= k < |kept| ==> kept[k] == text[k];
      assert p[pos..pos + length][..|kept|] == p[pos..pos + |kept|];
      Some(Decoded(kept, pos + length))
    else None
  }

  /** decode_snmp_element_value_void: skips the length content octets. */
  function SkipValue(p: seq<Byte>, pos: nat, length: nat): (r: Option<nat>)
    ensures r.Some? <==> ValueFits(|p|, pos, length)
    ensures r.Some? ==> r.value == pos + length
  {
    if ValueFits(|p|, pos, length) then Some(pos + length) else None
  }

  /* ---------------------------------------------------------------------------
   * OBJECT IDENTIFIER values
   */

  /** One base-128 step of the subidentifier loop in unsigned int arithmetic. */
  function Septet(v: Uint32, b: Byte): Uint32 {
    (v * 128 + b % 128) % 0x1_0000_0000
  }

  /**
   * One subidentifier from index i of the content c, with v the value read so
   * far: octets with the high bit set continue it; a last octet with the high
   * bit set is a truncated subidentifier.
   */
  function SubidGroup(c: seq<Byte>, i: nat, v: Uint32): (r: Option<Decoded<Uint32>>)
    requires i < |c|
    ensures r.Some? ==> i < r.value.next <= |c|
    decreases |c| - i
  {
    if c[i] < 0x80 then Some(Decoded(Septet(v, c[i]), i + 1))
    else if i + 1 == |c| then None
    else SubidGroup(c, i + 1, Septet(v, c[i]))
  }

  /** The subidentifiers from index i of the content on, after those in acc. */
  function SubidsFrom(c: seq<Byte>, i: nat, acc: seq<Uint32>): (r: Option<seq<Uint32>>)
    requires i <= |c|
    ensures r.Some? ==> |acc| <= |r.value| <= MAX_NR_SUBIDS || (i == |c| && r.value == acc)
    decreases |c| - i
  {
    if i == |c| then Some(acc)
    else if |acc| >= MAX_NR_SUBIDS then None
    else
      match SubidGroup(c, i, 0)
      case None => None
      case Some(g) => SubidsFrom(c, g.next, acc + [g.value])
  }

  /**
   * The subidentifiers of OID content: the first octet, below 0x80, gives
   * the first two as its quotient and remainder by 40.
   */
  function OidContent(c: seq<Byte>): Option<seq<Uint32>> {
    if c == [] || c[0] >= 0x80 then None
    else SubidsFrom(c, 1, [c[0] / 40, c[0] % 40])
  }

  /** The size of the type and length octets in front of length content octets. */
  function HeaderSize(length: nat): nat {
    if length > 0xFF then 4 else if length > 0x7F then 3 else 2
  }

  /**
   * decode_snmp_element_value_oid: the subidentifiers and, as encoded
   * length, the content length plus the size of its type and length octets.
   */
  function OidValue(p: seq<Byte>, pos: nat, length: nat): (r: Option<Decoded<Oid>>)
    ensures r.Some? ==> ValueFits(|p|, pos, length) && r.value.next == pos + length
    ensures r.Some? ==> 2 <= |r.value.value.subids| <= MAX_NR_SUBIDS
    ensures r.Some? ==> r.value.value.encodedLength == length + HeaderSize(length)
  {
    if !ValueFits(|p|, pos, length) || length > 0xFFFF then None
    else
      match OidContent(p[pos..pos + length])
      case None => None
      case Some(s) => Some(Decoded(Oid(s, length + HeaderSize(length)), pos + length))
  }

  /** The OID decoder refuses empty content, a first octet with the high bit set and a truncated subidentifier. */
  lemma OidContentRejects(c: seq<Byte>)
    ensures c == [] ==> OidContent(c).None?
    ensures c != [] && c[0] >= 0x80 ==> OidContent(c).None?
    ensures |c| == 2 && c[0] < 0x80 && c[1] >= 0x80 ==> OidContent(c).None?
  {
  }

  /** More than MAX_NR_SUBIDS subidentifiers are refused. */
  lemma {:induction false} SubidsFromTooMany(c: seq<Byte>, i: nat, acc: seq<Uint32>)
    requires i < |c| && |acc| >= MAX_NR_SUBIDS
    ensures SubidsFrom(c, i, acc).None?
  {
  }

  /** decode_snmp_element_value_oid on the whole client buffer. */
  method DecodeOid(packet: array<Byte>, size: nat, pos: nat, length: nat) returns (r: Option<Decoded<Oid>>)
    requires size <= packet.Length
    ensures r == OidValue(packet[..size], pos, length)
  {
    if !(pos + length <= size) || length > 0xFFFF {
      return None;
    }
    ghost var c := packet[pos..pos + length];
    assert packet[..size][pos..pos + length] == c;
    var encodedLength := length + (if length > 0xFF then 4 else if length > 0x7F then 3 else 2);
    if length == 0 || packet[pos] >= 0x80 {
      return None;
    }
    var subids: seq<Uint32> := [packet[pos] / 40, packet[pos] % 40];
    var cursor := pos + 1;
    while cursor < pos + length
      invariant pos < cursor <= pos + length
      invariant SubidsFrom(c, cursor - pos, subids) == OidContent(c)
      decreases pos + length - cursor
    {
      if |subids| >= MAX_NR_SUBIDS {
        return None;
      }
      var subid := DecodeSubid(packet, pos, length, cursor, c);
      if subid.None? {
        return None;
      }
      subids := subids + [subid.value.value];
      cursor := subid.value.next;
    }
    return Some(Decoded(Oid(subids, encodedLength), pos + length));
  }

  /**
   * The inner loop of decode_snmp_element_value_oid: one subidentifier from
   * index cursor of the content c at pos on.
   */
  method DecodeSubid(packet: array<Byte>, pos: nat, length: nat, cursor: nat, ghost c: seq<Byte>)
    returns (r: Option<Decoded<Uint32>>)
    requires pos <= cursor < pos + length <= packet.Length && c == packet[pos..pos + length]
    ensures match SubidGroup(c, cursor - pos, 0)
            case None => r.None?
            case Some(g) => r == Some(Decoded(g.value, pos + g.next))
  {
    var subid: Uint32 := 0;
    var next := cursor;
    while true
      invariant cursor <= next < pos + length
      invariant SubidGroup(c, next - pos, subid) == SubidGroup(c, cursor - pos, 0)
      decreases pos + length - next
    {
      var b := packet[next];
      assert b == c[next - pos];
      subid := (subid * 128 + b % 128) % 0x1_0000_0000;
      if b >= 0x80 {
        if next + 1 == pos + length {
          return None;
        }
        next := next + 1;
      } else {
        return Some(Decoded(subid, next + 1));
      }
    }
  }

  /* ---------------------------------------------------------------------------
   * Encoders on values
   */

  /** The length octets of n: one octet below 0x80, else 0x81 or 0x82 and one or two big-endian octets. */
  function LengthOctets(n: nat): (r: seq<Byte>)
    requires n <= 0xFFFF
    ensures |r| == HeaderSize(n) - 1
  {
    if n > 0xFF then [0x82, n / 256, n % 256] else if n > 0x7F then [0x81, n] else [n]
  }

  /** encode_snmp_sequence_header: the type octet and the length octets. */
  function HeaderBytes(tag: Byte, n: nat): (r: seq<Byte>)
    requires n <= 0xFFFF
    ensures |r| == HeaderSize(n)
  {
    [tag] + LengthOctets(n)
  }

  /** get_sequence_header_length: MAX_PACKET_SIZE stands for a length that cannot be encoded. */
  function SequenceHeaderLength(n: nat): nat {
    if n > 0xFFFF then MAX_PACKET_SIZE else HeaderSize(n)
  }

  /** The header decoder reads back every header the encoder writes. */
  lemma HeaderRoundTrip(p: seq<Byte>, pos: nat, tag: Byte, n: nat)
    requires IsElementType(tag) && n <= 0xFFFF
    requires pos + HeaderSize(n) <= |p| && p[pos..pos + HeaderSize(n)] == HeaderBytes(tag, n)
    ensures TypeLength(p, pos) == Some(Header(tag, n, pos + HeaderSize(n)))
    ensures SequenceHeaderLength(n) == HeaderSize(n)
  {
    var h := HeaderBytes(tag, n);
    var e := p[pos..pos + HeaderSize(n)];
    assert p[pos] == e[0] == h[0] == tag && p[pos + 1] == e[1] == h[1];
    if n > 0xFF {
      assert h == [tag, 0x82, n / 256, n % 256];
      assert p[pos + 2] == e[2] && p[pos + 3] == e[3];
      var s := p[pos + 2..pos + 4];
      assert s == [n / 256, n % 256];
      BigEndianShort(s);
      assert BigEndian(p[pos + 2..pos + 2 + (p[pos + 1] - 0x80)]) == n;
    } else if n > 0x7F {
      assert h == [tag, 0x81, n];
      assert p[pos + 2] == e[2];
      var s := p[pos + 2..pos + 3];
      assert s == [n];
      BigEndianShort(s);
      assert BigEndian(p[pos + 2..pos + 2 + (p[pos + 1] - 0x80)]) == n;
    } else {
      assert h == [tag, n];
    }
  }

  /** get_string_length. */
  function StringLength(text: seq<Byte>): nat {
    if |text| > 0xFFFF then MAX_PACKET_SIZE else |text| + HeaderSize(|text|)
  }

  /** encode_snmp_string: an OCTET STRING header and the characters. */
  function StringBytes(text: seq<Byte>): (r: seq<Byte>)
    requires |text| <= 0xFFFF
    ensures |r| == StringLength(text)
  {
    HeaderBytes(BER_TYPE_OCTET_STRING, |text|) + text
  }

  /** The string decoder reads back a C string the encoder writes, given room for it. */
  lemma StringRoundTrip(p: seq<Byte>, pos: nat, text: seq<Byte>, valueSize: nat)
    requires |text| < valueSize && forall k :: 0 <= k < |text| ==> text[k] != 0
    requires pos + StringLength(text) <= |p| && |text| <= 0xFFFF
    requires p[pos..pos + StringLength(text)] == StringBytes(text)
    ensures TypeLength(p, pos) == Some(Header(BER_TYPE_OCTET_STRING, |text|, pos + HeaderSize(|text|)))
    ensures StringValue(p, pos + HeaderSize(|text|), |text|, valueSize)
            == Some(Decoded(text, pos + StringLength(text)))
  {
    var h := HeaderSize(|text|);
    var header := HeaderBytes(BER_TYPE_OCTET_STRING, |text|);
    assert |header| == h && h + |text| == StringLength(text);
    SliceSplit(p, pos, header, text);
    HeaderRoundTrip(p, pos, BER_TYPE_OCTET_STRING, |text|);
    StringContentRoundTrip(p, pos + h, text, valueSize);
  }

  /** The string decoder reads back the characters of a C string that fits its buffer. */
  lemma StringContentRoundTrip(p: seq<Byte>, at: nat, text: seq<Byte>, valueSize: nat)
    requires |text| < valueSize && forall k :: 0 <= k < |text| ==> text[k] != 0
    requires at + |text| <= |p| && p[at..at + |text|] == text
    ensures StringValue(p, at, |text|, valueSize) == Some(Decoded(text, at + |text|))
  {
    NoNulString(text);
    StringValueWhole(p, at, |text|, valueSize);
  }

  /** A C string shorter than the buffer is kept whole. */
  lemma StringValueWhole(p: seq<Byte>, pos: nat, length: nat, valueSize: nat)
    requires valueSize >= 1 && ValueFits(|p|, pos, length) && |CString(p[pos..pos + length])| < valueSize
    ensures StringValue(p, pos, length, valueSize) == Some(Decoded(CString(p[pos..pos + length]), pos + length))
  {
  }

  lemma {:induction false} NoNulString(text: seq<Byte>)
    requires forall k :: 0 <= k < |text| ==> text[k] != 0
    ensures CString(text) == text
  {
    if text != [] {
      NoNulString(text[1..]);
    }
  }

  /** (unsigned)v >> 8l: l shifts by one octet. */
  function ShiftedOctets(u: Uint32, l: nat): (r: Uint32)
    ensures r <= u
  {
    if l == 0 then u else ShiftedOctets(u, l - 1) / 256
  }

  /** The arithmetic shift of v by l octets. */
  function ArithmeticShift(v: Int32, l: nat): Int32 {
    if l == 0 then v else ArithmeticShift(v, l - 1) / 256
  }

  /**
   * The number of content octets encode_snmp_integer writes, with the
   * thresholds as written: a value in [2^23, 2^24) or [-2^24, -2^23) gets
   * three octets, whose two's complement value has the opposite sign.
   */
  function IntegerWidthAsWritten(v: Int32): nat {
    if v < -16777216 || v > 16777215 then 4
    else if v < -32768 || v > 32767 then 3
    else if v < -128 || v > 127 then 2
    else 1
  }

  /** The number of content octets the two's complement encoding of v needs (section 8.3.2 of X.690). */
  function IntegerWidth(v: Int32): (w: nat)
    ensures 1 <= w <= 4
  {
    if v < -0x80_0000 || v > 0x7F_FFFF then 4
    else if v < -0x8000 || v > 0x7FFF then 3
    else if v < -0x80 || v > 0x7F then 2
    else 1
  }

  /** Octet k of the w content octets of v, as encode_snmp_integer's loop computes it. */
  function IntegerOctet(v: Int32, w: nat, k: nat): Byte
    requires k < w
  {
    ShiftedOctets(ToUint32(v), w - 1 - k) % 256
  }

  function IntegerOctets(v: Int32, w: nat): (r: seq<Byte>)
    ensures |r| == w
  {
    seq(w, k requires 0 <= k < w => IntegerOctet(v, w, k))
  }

  /** encode_snmp_integer as written. */
  function IntegerBytesAsWritten(v: Int32): seq<Byte> {
    [BER_TYPE_INTEGER, IntegerWidthAsWritten(v)] + IntegerOctets(v, IntegerWidthAsWritten(v))
  }

  /** get_integer_length as written. */
  function IntegerLengthAsWritten(v: Int32): nat {
    2 + IntegerWidthAsWritten(v)
  }

  /** encode_snmp_integer with the two's complement thresholds. */
  function IntegerBytes(v: Int32): (r: seq<Byte>)
    ensures |r| == IntegerLength(v)
  {
    [BER_TYPE_INTEGER, IntegerWidth(v)] + IntegerOctets(v, IntegerWidth(v))
  }

  /** get_integer_length with the two's complement thresholds. */
  function IntegerLength(v: Int32): nat {
    2 + IntegerWidth(v)
  }

  /** 2^23 is written in three octets that read back as -2^23. */
  lemma IntegerWidthAsWrittenFlipsSign(p: seq<Byte>)
    requires |p| == 5 && p == IntegerBytesAsWritten(0x80_0000)
    ensures p == [0x02, 0x03, 0x80, 0x00, 0x00]
    ensures TypeLength(p, 0) == Some(Header(BER_TYPE_INTEGER, 3, 2))
    ensures IntegerValue(p, 2, 3) == Some(Decoded(-0x80_0000, 5))
  {
    assert IntegerWidthAsWritten(0x80_0000) == 3;
    assert ShiftedOctets(0x80_0000, 1) == 0x8000;
    assert ShiftedOctets(0x80_0000, 2) == 0x80;
    assert p[2..5] == [0x80, 0x00, 0x00];
    IntegerValueSigned(p, 2, 3);
    BigEndianShort(p[2..5]);
    Power256Values();
  }

  /** The two thresholds agree except on [2^23, 2^24) and [-2^24, -2^23). */
  lemma IntegerWidthsAgree(v: Int32)
    ensures IntegerWidthAsWritten(v) == IntegerWidth(v)
            <==> !(0x80_0000 <= v < 0x100_0000 || -0x100_0000 <= v < -0x80_0000)
  {
  }

  /**
   * What the integer decoder reads back from encode_snmp_integer as written,
   * for every v: v itself outside [2^23, 2^24) and [-2^24, -2^23); on those
   * ranges the three octets written are read as v - 2^24 and v + 2^24.
   */
  lemma IntegerAsWrittenReadsBack(v: Int32)
    ensures IntegerValue(IntegerBytesAsWritten(v), 2, IntegerWidthAsWritten(v)).Some?
    ensures IntegerValue(IntegerBytesAsWritten(v), 2, IntegerWidthAsWritten(v)).value.next == IntegerLengthAsWritten(v)
    ensures !(0x80_0000 <= v < 0x100_0000 || -0x100_0000 <= v < -0x80_0000) ==>
              IntegerValue(IntegerBytesAsWritten(v), 2, IntegerWidthAsWritten(v)).value.value == v
    ensures 0x80_0000 <= v < 0x100_0000 ==>
              IntegerValue(IntegerBytesAsWritten(v), 2, IntegerWidthAsWritten(v)).value.value == v - 0x100_0000
    ensures -0x100_0000 <= v < -0x80_0000 ==>
              IntegerValue(IntegerBytesAsWritten(v), 2, IntegerWidthAsWritten(v)).value.value == v + 0x100_0000
  {
    var p := IntegerBytesAsWritten(v);
    IntegerWidthsAgree(v);
    if 0x80_0000 <= v < 0x100_0000 || -0x100_0000 <= v < -0x80_0000 {
      var m := if v < 0 then v + 0x100_0000 else v;
      GapOctets(v, m);
      IntegerValueSigned(p, 2, 3);
      assert p[2..5] == IntegerOctets(v, 3);
      Power256Values();
    } else {
      assert p == IntegerBytes(v);
      assert p[0..IntegerLength(v)] == p;
      IntegerRoundTrip(p, 0, v);
    }
  }

  /** The three octets as written for v in one of the two ranges are the low 24 bits m of v. */
  lemma GapOctets(v: Int32, m: nat)
    requires 0x80_0000 <= v < 0x100_0000 || -0x100_0000 <= v < -0x80_0000
    requires m == if v < 0 then v + 0x100_0000 else v
    ensures Signed(IntegerOctets(v, 3)) == m - (if m >= 0x80_0000 then 0x100_0000 else 0)
  {
    var s := IntegerOctets(v, 3);
    var hi := if v < 0 then 0xFF else 0;
    assert ToUint32(v) == hi * 0x100_0000 + m;
    LowOctets(ToUint32(v), hi, m);
    ThreeOctetsSigned(s, m);
  }

  /** Three octets holding the 24 bits of m read as m in two's complement. */
  lemma ThreeOctetsSigned(s: seq<Byte>, m: nat)
    requires m < 0x100_0000 && |s| == 3
    requires s[0] == m / 0x1_0000 && s[1] == m / 0x100 % 0x100 && s[2] == m % 0x100
    ensures Signed(s) == m - (if m >= 0x80_0000 then 0x100_0000 else 0)
  {
    BigEndianShort(s);
    Power256Values();
  }

  /** The octets below the top one of u = hi * 2^24 + m are those of m. */
  lemma LowOctets(u: Uint32, hi: nat, m: nat)
    requires u == hi * 0x100_0000 + m && m < 0x100_0000
    ensures ShiftedOctets(u, 2) % 0x100 == m / 0x1_0000
    ensures ShiftedOctets(u, 1) % 0x100 == m / 0x100 % 0x100
    ensures ShiftedOctets(u, 0) % 0x100 == m % 0x100
  {
    assert ShiftedOctets(u, 1) == u / 0x100 == hi * 0x1_0000 + m / 0x100;
    assert ShiftedOctets(u, 2) == ShiftedOctets(u, 1) / 0x100 == hi * 0x100 + m / 0x1_0000;
  }

  /** Shifting the unsigned reinterpretation keeps the low octets of the arithmetic shift. */
  lemma {:induction false} ShiftsAgree(v: Int32, l: nat)
    requires l <= 3
    ensures ShiftedOctets(ToUint32(v), l) % 256 == ArithmeticShift(v, l) % 256
    ensures v < 0 ==> ShiftedOctets(ToUint32(v), l) == ArithmeticShift(v, l) + Power256(4 - l)
    ensures v >= 0 ==> ShiftedOctets(ToUint32(v), l) == ArithmeticShift(v, l)
    decreases l
  {
    if l > 0 {
      ShiftsAgree(v, l - 1);
      if v < 0 {
        var a := ArithmeticShift(v, l - 1);
        assert Power256(5 - l) == 256 * Power256(4 - l);
        assert (a + 256 * Power256(4 - l)) / 256 == a / 256 + Power256(4 - l);
      }
    }
    if v < 0 {
      assert Power256(4 - l) == 256 * Power256(3 - l);
      var a := ArithmeticShift(v, l);
      assert (a + 256 * Power256(3 - l)) % 256 == a % 256;
    }
  }

  /** The width chosen for v leaves only the sign when v is shifted by all but one octet. */
  lemma ShiftedToSign(v: Int32)
    ensures -0x80 <= ArithmeticShift(v, IntegerWidth(v) - 1) < 0x80
  {
    assert ArithmeticShift(v, 1) == v / 0x100;
    assert ArithmeticShift(v, 2) == v / 0x100 / 0x100;
    assert ArithmeticShift(v, 3) == v / 0x100 / 0x100 / 0x100;
  }

  /** The first content octet of v carries its sign, so its sign fill is v shifted out entirely. */
  lemma IntegerSignOctet(v: Int32)
    ensures IntegerOctets(v, IntegerWidth(v))[0] >= 0x80 <==> v < 0
    ensures SignFill(IntegerOctets(v, IntegerWidth(v))[0]) == ToUint32(ArithmeticShift(v, IntegerWidth(v)))
  {
    var w := IntegerWidth(v);
    ShiftedToSign(v);
    ShiftsAgree(v, w - 1);
    var a := ArithmeticShift(v, w - 1);
    assert IntegerOctets(v, w)[0] == a % 256;
    assert ArithmeticShift(v, w) == a / 256;
    assert a < 0 <==> v < 0 by {
      assert ArithmeticShift(v, 1) == v / 0x100;
      assert ArithmeticShift(v, 2) == v / 0x100 / 0x100;
      assert ArithmeticShift(v, 3) == v / 0x100 / 0x100 / 0x100;
    }
  }

  /** One step of the decoder's loop undoes one step of the arithmetic shift. */
  lemma ShiftInOctet(y: int)
    requires -0x8000_0000 <= y < 0x8000_0000
    ensures ShiftIn(ToUint32(y / 256), y % 256) == ToUint32(y)
  {
    assert ToUint32(y / 256) * 256 + y % 256 == ToUint32(y) + (if y < 0 then 255 * 0x1_0000_0000 else 0);
  }

  /** Shifting in the first k content octets of v after its sign fill. */
  lemma {:induction false} IntegerFoldFrom(s: seq<Byte>, v: Int32, k: nat)
    requires s == IntegerOctets(v, IntegerWidth(v)) && k <= |s|
    ensures FoldBytes(SignFill(s[0]), s[..k]) == ToUint32(ArithmeticShift(v, |s| - k))
    decreases k
  {
    if k == 0 {
      IntegerSignOctet(v);
      assert s[..0] == [];
    } else {
      IntegerFoldFrom(s, v, k - 1);
      assert s[..k][..k - 1] == s[..k - 1];
      var y := ArithmeticShift(v, |s| - k);
      assert ArithmeticShift(v, |s| - k + 1) == y / 256;
      ShiftsAgree(v, |s| - k);
      assert s[k - 1] == y % 256;
      ShiftInOctet(y);
    }
  }

  /** The integer decoder reads back every INTEGER the encoder writes. */
  lemma IntegerRoundTrip(p: seq<Byte>, pos: nat, v: Int32)
    requires pos + IntegerLength(v) <= |p| && p[pos..pos + IntegerLength(v)] == IntegerBytes(v)
    ensures TypeLength(p, pos) == Some(Header(BER_TYPE_INTEGER, IntegerWidth(v), pos + 2))
    ensures IntegerValue(p, pos + 2, IntegerWidth(v)) == Some(Decoded(v, pos + IntegerLength(v)))
  {
    var w := IntegerWidth(v);
    var e := IntegerBytes(v);
    assert p[pos] == e[0] && p[pos + 1] == e[1];
    var s := p[pos + 2..pos + 2 + w];
    assert s == e[2..] == IntegerOctets(v, w);
    IntegerFoldFrom(s, v, w);
    assert s[..w] == s;
  }

  /* ---------------------------------------------------------------------------
   * OBJECT IDENTIFIER encoding
   */

  /** The number of octets encode_snmp_oid writes for a subidentifier: one per started septet. */
  function SubidWidth(x: Uint32): (w: nat)
    ensures 1 <= w <= 5
  {
    if x >= 0x1000_0000 then 5 else if x >= 0x20_0000 then 4 else if x >= 0x4000 then 3
    else if x >= 0x80 then 2 else 1
  }

  /** x >> 7l on an unsigned int: l shifts by one septet. */
  function Shifted(x: Uint32, l: nat): (r: Uint32)
    ensures r <= x
  {
    if l == 0 then x else Shifted(x, l - 1) / 128
  }

  /** Octet k of the w octets of x: with the continuation bit on all but the last. */
  function SubidOctet(x: Uint32, w: nat, k: nat): Byte
    requires k < w
  {
    Shifted(x, w - 1 - k) % 128 + (if k < w - 1 then 0x80 else 0)
  }

  /** The base-128 octets of a subidentifier (section 8.19.2 of X.690). */
  function SubidBytes(x: Uint32): (r: seq<Byte>)
    ensures |r| == SubidWidth(x)
  {
    seq(SubidWidth(x), k requires 0 <= k < SubidWidth(x) => SubidOctet(x, SubidWidth(x), k))
  }

  /** The octets of a run of subidentifiers. */
  function SubidsBytes(t: seq<Uint32>): (r: seq<Byte>)
    ensures |r| <= 5 * |t|
  {
    if t == [] then [] else SubidsBytes(t[..|t| - 1]) + SubidBytes(t[|t| - 1])
  }

  /** The content octets: the first two subidentifiers in one octet x * 40 + y, then the rest. */
  function OidContentBytes(s: seq<Uint32>): (r: seq<Byte>)
    requires |s| >= 2
    ensures 1 <= |r| <= 1 + 5 * (|s| - 2)
  {
    [(s[0] as int * 40 + s[1]) % 256] + SubidsBytes(s[2..])
  }

  /** encode_snmp_oid, when its content length fits in two length octets. */
  function OidBytes(s: seq<Uint32>): (r: seq<Byte>)
    requires |s| >= 2 && |OidContentBytes(s)| <= 0xFFFF
  {
    HeaderBytes(BER_TYPE_OID, |OidContentBytes(s)|) + OidContentBytes(s)
  }

  /** The width is the number of septets x needs: shifting it out entirely leaves 0. */
  lemma ShiftedOut(x: Uint32)
    ensures Shifted(x, SubidWidth(x)) == 0
  {
    assert Shifted(x, 1) == x / 0x80;
    assert Shifted(x, 2) == x / 0x80 / 0x80;
    assert Shifted(x, 3) == x / 0x80 / 0x80 / 0x80;
    assert Shifted(x, 4) == x / 0x80 / 0x80 / 0x80 / 0x80;
    assert Shifted(x, 5) == x / 0x80 / 0x80 / 0x80 / 0x80 / 0x80;
  }

  lemma {:induction false} GroupFrom(c: seq<Byte>, i: nat, x: Uint32, k: nat)
    requires k < SubidWidth(x) && i + SubidWidth(x) <= |c|
    requires forall m :: k <= m < SubidWidth(x) ==> c[i + m] == SubidOctet(x, SubidWidth(x), m)
    ensures SubidGroup(c, i + k, Shifted(x, SubidWidth(x) - k)) == Some(Decoded(x, i + SubidWidth(x)))
    decreases SubidWidth(x) - k
  {
    var w := SubidWidth(x);
    var y := Shifted(x, w - 1 - k);
    assert Shifted(x, w - k) == y / 128;
    assert c[i + k] == SubidOctet(x, w, k);
    assert c[i + k] % 128 == y % 128;
    assert (y / 128) * 128 + y % 128 == y;
    assert Septet(y / 128, c[i + k]) == y;
    if k < w - 1 {
      GroupFrom(c, i, x, k + 1);
    }
  }

  /** The subidentifier loop of the decoder reads back the octets of one subidentifier. */
  lemma SubidRoundTrip(c: seq<Byte>, i: nat, x: Uint32)
    requires i + SubidWidth(x) <= |c| && c[i..i + SubidWidth(x)] == SubidBytes(x)
    ensures SubidGroup(c, i, 0) == Some(Decoded(x, i + SubidWidth(x)))
  {
    var w := SubidWidth(x);
    forall m | 0 <= m < w ensures c[i + m] == SubidOctet(x, w, m) {
      assert c[i + m] == c[i..i + w][m];
    }
    ShiftedOut(x);
    GroupFrom(c, i, x, 0);
  }

  /** SubidsBytes read from the front. */
  lemma {:induction false} SubidsBytesFront(t: seq<Uint32>)
    requires t != []
    ensures SubidsBytes(t) == SubidBytes(t[0]) + SubidsBytes(t[1..])
    decreases |t|
  {
    if |t| > 1 {
      var u := t[..|t| - 1];
      SubidsBytesFront(u);
      assert u[1..] == t[1..][..|t[1..]| - 1];
    } else {
      assert t[..0] == [] && t[1..] == [];
    }
  }

  /** The parts of a suffix made of two pieces. */
  lemma SuffixSplit(c: seq<Byte>, i: nat, a: seq<Byte>, b: seq<Byte>)
    requires i <= |c| && c[i..] == a + b
    ensures c[i..i + |a|] == a && c[i + |a|..] == b
  {
    assert c[i..i + |a|] == c[i..][..|a|];
    assert c[i + |a|..] == c[i..][|a|..];
  }

  /** The parts of a slice made of two pieces. */
  lemma SliceSplit(p: seq<Byte>, pos: nat, a: seq<Byte>, b: seq<Byte>)
    requires pos + |a| + |b| <= |p| && p[pos..pos + |a| + |b|] == a + b
    ensures p[pos..pos + |a|] == a && p[pos + |a|..pos + |a| + |b|] == b
  {
    assert p[pos..pos + |a|] == p[pos..pos + |a| + |b|][..|a|];
    assert p[pos + |a|..pos + |a| + |b|] == p[pos..pos + |a| + |b|][|a|..];
  }

  /** The subidentifier loop reads exactly t from index i of c on. */
  predicate ReadsSubids(c: seq<Byte>, i: nat, t: seq<Uint32>)
    decreases |t|
  {
    if t == [] then i == |c|
    else
      && i < |c|
      && match SubidGroup(c, i, 0)
         case None => false
         case Some(g) => g.value == t[0] && ReadsSubids(c, g.next, t[1..])
  }

  /** The octets of t are read back as t. */
  lemma {:induction false} SubidsBytesRead(c: seq<Byte>, i: nat, t: seq<Uint32>)
    requires i <= |c| && c[i..] == SubidsBytes(t)
    ensures ReadsSubids(c, i, t)
    decreases |t|
  {
    if t == [] {
      assert |c[i..]| == 0;
    } else {
      var w := SubidWidth(t[0]);
      assert c[i..i + w] == SubidBytes(t[0]) && c[i + w..] == SubidsBytes(t[1..]) by {
        SubidsBytesFront(t);
        SuffixSplit(c, i, SubidBytes(t[0]), SubidsBytes(t[1..]));
      }
      assert SubidGroup(c, i, 0) == Some(Decoded(t[0], i + w)) by {
        SubidRoundTrip(c, i, t[0]);
      }
      SubidsBytesRead(c, i + w, t[1..]);
      ReadsSubidsCons(c, i, t, w);
    }
  }

  /** The subidentifier loop reads t when it reads t[0] first and then the rest. */
  lemma ReadsSubidsCons(c: seq<Byte>, i: nat, t: seq<Uint32>, w: nat)
    requires t != [] && i < |c| && SubidGroup(c, i, 0) == Some(Decoded(t[0], i + w))
    requires ReadsSubids(c, i + w, t[1..])
    ensures ReadsSubids(c, i, t)
  {
  }

  lemma {:induction false} SubidsRoundTrip(c: seq<Byte>, i: nat, t: seq<Uint32>, acc: seq<Uint32>)
    requires i <= |c| && ReadsSubids(c, i, t) && |acc| + |t| <= MAX_NR_SUBIDS
    ensures SubidsFrom(c, i, acc) == Some(acc + t)
    decreases |t|
  {
    if t == [] {
      assert acc + t == acc;
    } else {
      var g := SubidGroup(c, i, 0).value;
      SubidsRoundTrip(c, g.next, t[1..], acc + [t[0]]);
      assert acc + [t[0]] + t[1..] == acc + t;
    }
  }

  /**
   * The OID decoder reads back every OID the encoder writes whose first two
   * subidentifiers fit the first octet below 0x80, and reports the length of
   * that encoding as its encoded length.
   */
  lemma OidRoundTrip(p: seq<Byte>, pos: nat, s: seq<Uint32>)
    requires 2 <= |s| <= MAX_NR_SUBIDS && s[1] < 40 && s[0] as int * 40 + s[1] < 0x80
    requires |OidContentBytes(s)| <= 0xFFFF
    requires pos + |OidBytes(s)| <= |p| && p[pos..pos + |OidBytes(s)|] == OidBytes(s)
    ensures TypeLength(p, pos) == Some(Header(BER_TYPE_OID, |OidContentBytes(s)|, pos + HeaderSize(|OidContentBytes(s)|)))
    ensures OidValue(p, pos + HeaderSize(|OidContentBytes(s)|), |OidContentBytes(s)|)
            == Some(Decoded(Oid(s, |OidBytes(s)|), pos + |OidBytes(s)|))
  {
    var c := OidContentBytes(s);
    var h := HeaderSize(|c|);
    assert p[pos..pos + h] == HeaderBytes(BER_TYPE_OID, |c|) && p[pos + h..pos + h + |c|] == c by {
      SliceSplit(p, pos, HeaderBytes(BER_TYPE_OID, |c|), c);
    }
    HeaderRoundTrip(p, pos, BER_TYPE_OID, |c|);
    OidContentRoundTrip(s);
  }

  /** The subidentifiers are read back from the content octets the encoder writes. */
  lemma OidContentRoundTrip(s: seq<Uint32>)
    requires 2 <= |s| <= MAX_NR_SUBIDS && s[1] < 40 && s[0] as int * 40 + s[1] < 0x80
    ensures OidContent(OidContentBytes(s)) == Some(s)
  {
    var c := OidContentBytes(s);
    FirstOctet(s[0], s[1]);
    assert c[0] < 0x80 && c[0] / 40 == s[0] && c[0] % 40 == s[1];
    assert c[1..] == SubidsBytes(s[2..]);
    SubidsBytesRead(c, 1, s[2..]);
    SubidsRoundTrip(c, 1, s[2..], [s[0], s[1]]);
    assert [s[0], s[1]] + s[2..] == s;
  }

  /** The first content octet x * 40 + y gives back x and y when y < 40. */
  lemma FirstOctet(x: Uint32, y: Uint32)
    requires y < 40 && x as int * 40 + y < 0x80
    ensures var b := (x as int * 40 + y) % 256; b < 0x80 && b / 40 == x && b % 40 == y
  {
    var v := x as int * 40 + y;
    assert v % 256 == v;
    if x == 0 {
      assert v == y;
    } else if x == 1 {
      assert v == 40 + y;
    } else if x == 2 {
      assert v == 80 + y;
    } else {
      assert x == 3 && v == 120 + y;
    }
  }

  /* ---------------------------------------------------------------------------
   * Encoders writing into a buffer
   */

  /** after is before with bytes written from index at on. */
  predicate Spliced(after: seq<Byte>, before: seq<Byte>, at: nat, bytes: seq<Byte>) {
    && |after| == |before| && at + |bytes| <= |before|
    && forall j :: 0 <= j < |after| ==> after[j] == if at <= j < at + |bytes| then bytes[j - at] else before[j]
  }

  /** Two writes side by side are one write. */
  lemma SplicedJoin(b0: seq<Byte>, b1: seq<Byte>, b2: seq<Byte>, at: nat, x: seq<Byte>, y: seq<Byte>)
    requires Spliced(b1, b0, at, x) && Spliced(b2, b1, at + |x|, y)
    ensures Spliced(b2, b0, at, x + y)
  {
  }

  /** The bytes a write leaves from index at to end. */
  lemma SplicedSlice(after: seq<Byte>, before: seq<Byte>, at: nat, x: seq<Byte>, end: nat)
    requires Spliced(after, before, at, x) && at + |x| <= end <= |before|
    ensures after[at..end] == x + before[at + |x|..end]
  {
  }

  /** encode_snmp_sequence_header: fails, writing nothing, on a length above 0xFFFF. */
  method EncodeHeader(buffer: array<Byte>, at: nat, length: nat, tag: Byte) returns (ok: bool)
    requires length <= 0xFFFF ==> at + HeaderSize(length) <= buffer.Length
    modifies buffer
    ensures ok <==> length <= 0xFFFF
    ensures ok ==> Spliced(buffer[..], old(buffer[..]), at, HeaderBytes(tag, length))
    ensures !ok ==> buffer[..] == old(buffer[..])
  {
    if length > 0xFFFF {
      return false;
    }
    buffer[at] := tag;
    if length > 0xFF {
      buffer[at + 1] := 0x82;
      buffer[at + 2] := length / 256 % 256;
      buffer[at + 3] := length % 256;
    } else if length > 0x7F {
      buffer[at + 1] := 0x81;
      buffer[at + 2] := length % 256;
    } else {
      buffer[at + 1] := length % 128;
    }
    return true;
  }

  /** encode_snmp_string: the header, then a copy of the characters. */
  method EncodeString(buffer: array<Byte>, at: nat, text: seq<Byte>) returns (ok: bool)
    requires |text| <= 0xFFFF ==> at + StringLength(text) <= buffer.Length
    modifies buffer
    ensures ok <==> |text| <= 0xFFFF
    ensures ok ==> Spliced(buffer[..], old(buffer[..]), at, StringBytes(text))
    ensures !ok ==> buffer[..] == old(buffer[..])
  {
    ok := EncodeHeader(buffer, at, |text|, BER_TYPE_OCTET_STRING);
    if !ok {
      return;
    }
    ghost var b1 := buffer[..];
    var start := at + HeaderSize(|text|);
    var k := 0;
    while k < |text|
      invariant k <= |text|
      invariant Spliced(buffer[..], b1, start, text[..k])
    {
      buffer[start + k] := text[k];
      k := k + 1;
    }
    assert text[..k] == text;
    SplicedJoin(old(buffer[..]), b1, buffer[..], at, HeaderBytes(BER_TYPE_OCTET_STRING, |text|), text);
  }

  /** encode_snmp_integer, with the two's complement thresholds. */
  method EncodeInteger(buffer: array<Byte>, at: nat, v: Int32)
    requires at + IntegerLength(v) <= buffer.Length
    modifies buffer
    ensures Spliced(buffer[..], old(buffer[..]), at, IntegerBytes(v))
  {
    var length: nat;
    if v < -0x80_0000 || v > 0x7F_FFFF {
      length := 4;
    } else if v < -0x8000 || v > 0x7FFF {
      length := 3;
    } else if v < -0x80 || v > 0x7F {
      length := 2;
    } else {
      length := 1;
    }
    assert length == IntegerWidth(v);
    ghost var b0 := buffer[..];
    PutByte(buffer, at, BER_TYPE_INTEGER);
    ghost var b1 := buffer[..];
    PutByte(buffer, at + 1, length as Byte);
    ghost var b2 := buffer[..];
    EncodeIntegerOctets(buffer, at + 2, v, length);
    SplicedJoin(b0, b1, b2, at, [BER_TYPE_INTEGER], [length as Byte]);
    SplicedJoin(b0, b2, buffer[..], at, [BER_TYPE_INTEGER] + [length as Byte], IntegerOctets(v, length));
    assert [BER_TYPE_INTEGER] + [length as Byte] == [BER_TYPE_INTEGER, IntegerWidth(v)];
  }

  /** The loop of encode_snmp_integer: the width low octets of v, most significant first. */
  method EncodeIntegerOctets(buffer: array<Byte>, at: nat, v: Int32, width: nat)
    requires at + width <= buffer.Length
    modifies buffer
    ensures Spliced(buffer[..], old(buffer[..]), at, IntegerOctets(v, width))
  {
    var u := ToUint32(v);
    var left := width;
    var k := 0;
    while left > 0
      invariant k + left == width
      invariant Spliced(buffer[..], old(buffer[..]), at, IntegerOctets(v, width)[..k])
    {
      left := left - 1;
      buffer[at + k] := ShiftedOctets(u, left) % 256;
      k := k + 1;
    }
    assert IntegerOctets(v, width)[..k] == IntegerOctets(v, width);
  }

  /** The content length encode_snmp_oid's first loop adds up. */
  method OidContentLength(s: seq<Uint32>) returns (length: nat)
    requires |s| >= 2
    ensures length == |OidContentBytes(s)|
  {
    length := 1;
    var i := 2;
    while i < |s|
      invariant 2 <= i <= |s|
      invariant length == 1 + |SubidsBytes(s[2..i])|
    {
      assert s[2..i + 1][..i - 2] == s[2..i];
      if s[i] >= 0x1000_0000 {
        length := length + 5;
      } else if s[i] >= 0x20_0000 {
        length := length + 4;
      } else if s[i] >= 0x4000 {
        length := length + 3;
      } else if s[i] >= 0x80 {
        length := length + 2;
      } else {
        length := length + 1;
      }
      i := i + 1;
    }
    assert s[2..i] == s[2..];
  }

  /**
   * encode_snmp_oid: the header, the first octet, then the octets of each
   * further subidentifier. A content length above 0xFFFF fails once the
   * type octet is written.
   */
  method EncodeOid(buffer: array<Byte>, at: nat, s: seq<Uint32>) returns (ok: bool)
    requires |s| >= 2 && at < buffer.Length
    requires |OidContentBytes(s)| <= 0xFFFF ==> at + |OidBytes(s)| <= buffer.Length
    modifies buffer
    ensures ok <==> |OidContentBytes(s)| <= 0xFFFF
    ensures ok ==> Spliced(buffer[..], old(buffer[..]), at, OidBytes(s))
    ensures !ok ==> Spliced(buffer[..], old(buffer[..]), at, [BER_TYPE_OID])
  {
    var length := OidContentLength(s);
    if length > 0xFFFF {
      PutByte(buffer, at, BER_TYPE_OID);
      return false;
    }
    WriteOid(buffer, at, s, length);
    return true;
  }

  /** The success path of encode_snmp_oid: the header, the first octet and the further subidentifiers. */
  method WriteOid(buffer: array<Byte>, at: nat, s: seq<Uint32>, length: nat)
    requires |s| >= 2 && length == |OidContentBytes(s)| <= 0xFFFF
    requires at + |OidBytes(s)| <= buffer.Length
    modifies buffer
    ensures Spliced(buffer[..], old(buffer[..]), at, OidBytes(s))
  {
    ghost var b0 := buffer[..];
    ghost var header := HeaderBytes(BER_TYPE_OID, length);
    OidBytesParts(s, length);
    var ok := EncodeHeader(buffer, at, length, BER_TYPE_OID);
    ghost var b1 := buffer[..];
    var cursor := at + HeaderSize(length);
    var first: Byte := (s[0] as int * 40 + s[1]) % 256;
    PutByte(buffer, cursor, first);
    ghost var b2 := buffer[..];
    SplicedJoin(b0, b1, b2, at, header, [first]);
    ghost var front := header + [first];
    assert cursor + 1 == at + |front|;
    EncodeSubids(buffer, cursor + 1, s);
    ghost var b3 := buffer[..];
    assert Spliced(b3, b2, at + |front|, SubidsBytes(s[2..]));
    SplicedJoin(b0, b2, b3, at, front, SubidsBytes(s[2..]));
  }

  /** An encoded object identifier: its header, the octet for the first two subidentifiers, then the rest. */
  lemma OidBytesParts(s: seq<Uint32>, length: nat)
    requires |s| >= 2 && length == |OidContentBytes(s)| <= 0xFFFF
    ensures OidBytes(s) == (HeaderBytes(BER_TYPE_OID, length) + [(s[0] as int * 40 + s[1]) % 256]) + SubidsBytes(s[2..])
    ensures |OidBytes(s)| == HeaderSize(length) + 1 + |SubidsBytes(s[2..])|
  {
  }

  /** One octet stored at index at. */
  method PutByte(buffer: array<Byte>, at: nat, x: Byte)
    requires at < buffer.Length
    modifies buffer
    ensures Spliced(buffer[..], old(buffer[..]), at, [x])
  {
    buffer[at] := x;
  }

  /** The loop of encode_snmp_oid over the subidentifiers after the first two. */
  method EncodeSubids(buffer: array<Byte>, at: nat, s: seq<Uint32>)
    requires |s| >= 2 && at + |SubidsBytes(s[2..])| <= buffer.Length
    modifies buffer
    ensures Spliced(buffer[..], old(buffer[..]), at, SubidsBytes(s[2..]))
  {
    var cursor := at;
    var i := 2;
    assert SubidsBytes(s[2..2]) == [];
    while i < |s|
      invariant 2 <= i <= |s| && cursor == at + |SubidsBytes(s[2..i])|
      invariant Spliced(buffer[..], old(buffer[..]), at, SubidsBytes(s[2..i]))
    {
      ghost var before := buffer[..];
      ghost var done := SubidsBytes(s[2..i]);
      SubidsBytesStep(s, i);
      assert cursor == at + |done| && cursor + SubidWidth(s[i]) <= buffer.Length;
      assert Spliced(before, old(buffer[..]), at, done);
      var width := EncodeSubid(buffer, cursor, s[i]);
      ghost var after := buffer[..];
      assert Spliced(after, before, at + |done|, SubidBytes(s[i]));
      SplicedJoin(old(buffer[..]), before, after, at, done, SubidBytes(s[i]));
      cursor := cursor + width;
      i := i + 1;
    }
    assert s[2..i] == s[2..];
  }

  lemma SubidsBytesStep(s: seq<Uint32>, i: nat)
    requires 2 <= i < |s|
    ensures SubidsBytes(s[2..i + 1]) == SubidsBytes(s[2..i]) + SubidBytes(s[i])
    ensures |SubidsBytes(s[2..i + 1])| <= |SubidsBytes(s[2..])|
  {
    assert s[2..i + 1][..i - 2] == s[2..i];
    SubidsBytesPrefix(s, i + 1);
  }

  /** The inner loop of encode_snmp_oid: the octets of one subidentifier, most significant first. */
  method EncodeSubid(buffer: array<Byte>, at: nat, x: Uint32) returns (width: nat)
    requires at + SubidWidth(x) <= buffer.Length
    modifies buffer
    ensures width == SubidWidth(x)
    ensures Spliced(buffer[..], old(buffer[..]), at, SubidBytes(x))
  {
    width := if x >= 0x1000_0000 then 5 else if x >= 0x20_0000 then 4 else if x >= 0x4000 then 3
             else if x >= 0x80 then 2 else 1;
    var left := width;
    var k := 0;
    while left > 0
      invariant k + left == width == SubidWidth(x)
      invariant Spliced(buffer[..], old(buffer[..]), at, SubidBytes(x)[..k])
    {
      left := left - 1;
      ghost var before := buffer[..];
      var octet: Byte := if left > 0 then Shifted(x, left) % 128 + 0x80 else Shifted(x, left) % 128;
      assert octet == SubidBytes(x)[k];
      PutByte(buffer, at + k, octet);
      SplicedJoin(old(buffer[..]), before, buffer[..], at, SubidBytes(x)[..k], [octet]);
      assert SubidBytes(x)[..k] + [octet] == SubidBytes(x)[..k + 1];
      k := k + 1;
    }
    assert SubidBytes(x)[..k] == SubidBytes(x);
  }

  /** The octets of the first subidentifiers fit in those of all of them. */
  lemma {:induction false} SubidsBytesPrefix(s: seq<Uint32>, i: nat)
    requires 2 <= i <= |s|
    ensures |SubidsBytes(s[2..i])| <= |SubidsBytes(s[2..])|
    decreases |s| - i
  {
    if i < |s| {
      SubidsBytesPrefix(s, i + 1);
      assert s[2..i + 1][..i - 2] == s[2..i];
    } else {
      assert s[2..i] == s[2..];
    }
  }
}
