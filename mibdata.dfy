/**
 * The value buffers of the MIB table (mib.c): each entry's data_t holds the
 * BER encoding of its current value, written by the encoders of mib.c,
 * allocated by data_alloc and rewritten by data_set.
 */
module MibData {

  import opened Types
  import opened Utils
  import opened Ber

  /** data_t: a buffer of max_length bytes whose first encoded_length bytes are the encoded value. */
  class Data {
    var buffer: array<Byte>
    var maxLength: nat
    var encodedLength: int

    predicate Valid()
      reads this
    {
      buffer.Length == maxLength && 0 <= encodedLength <= maxLength
    }

    /** The encoded value: what the protocol handlers copy into a response. */
    function Bytes(): (r: seq<Byte>)
      reads this, buffer
      requires Valid()
      ensures |r| == encodedLength
    {
      buffer[..encodedLength]
    }

    /** The zeroed data_t of an unused table slot: no buffer and nothing encoded. */
    constructor ()
      ensures Valid() && maxLength == 0 && encodedLength == 0 && fresh(buffer)
    {
      buffer := new Byte[0];
      maxLength := 0;
      encodedLength := 0;
    }
  }

  /* ---------------------------------------------------------------- */
  /* Encoding values into a data buffer (mib.c:60-209)                 */
  /* ---------------------------------------------------------------- */

  /** The first n bytes of a buffer after a write of bytes at its start. */
  lemma WrittenPrefix(after: seq<Byte>, before: seq<Byte>, bytes: seq<Byte>)
    requires Spliced(after, before, 0, bytes)
    ensures after[..|bytes|] == bytes
  {
    SplicedSlice(after, before, 0, bytes, |bytes|);
    assert before[|bytes|..|bytes|] == [];
  }

  /** encode_integer: an INTEGER in the fewest two's complement octets (at most sizeof(int)). */
  method EncodeInteger(data: Data, v: Int32) returns (r: int)
    requires data.Valid() && data.maxLength >= 6
    modifies data, data.buffer
    ensures data.Valid() && data.buffer == old(data.buffer) && data.maxLength == old(data.maxLength)
    ensures r == 0 && data.Bytes() == IntegerBytes(v)
  {
    Ber.EncodeInteger(data.buffer, 0, v);
    WrittenPrefix(data.buffer[..], old(data.buffer[..]), IntegerBytes(v));
    data.encodedLength := IntegerLength(v);
    r := 0;
  }

  /** The characters of a C string: no NUL among them. */
  predicate NulFree(text: seq<Byte>) {
    forall k :: 0 <= k < |text| ==> text[k] != 0
  }

  /**
   * encode_string: NULL gives 2; a buffer too small for the string and four
   * header octets is grown (realloc keeps its bytes); a string longer than
   * 0xFFFF gives -1 and is not written; otherwise the OCTET STRING.
   */
  method EncodeString(data: Data, text: Option<seq<Byte>>) returns (r: int)
    requires data.Valid()
    modifies data, data.buffer
    ensures data.Valid()
    ensures text.None? ==> r == 2 && data.buffer == old(data.buffer) && data.maxLength == old(data.maxLength)
                           && data.Bytes() == old(data.Bytes())
    ensures text.Some? ==> data.maxLength == (if |text.value| + 4 > old(data.maxLength) then |text.value| + 4 else old(data.maxLength))
    ensures text.Some? && data.maxLength > old(data.maxLength) ==> fresh(data.buffer)
    ensures data.buffer == old(data.buffer) || fresh(data.buffer)
    ensures text.Some? && |text.value| > 0xFFFF ==> r == -1 && data.Bytes() == old(data.Bytes())
    ensures text.Some? && |text.value| <= 0xFFFF ==> r == 0 && data.Bytes() == StringBytes(text.value)
  {
    if text.None? {
      return 2;
    }
    var t := text.value;
    if |t| + 4 > data.maxLength {
      var grown := new Byte[|t| + 4];
      forall k | 0 <= k < data.buffer.Length {
        grown[k] := data.buffer[k];
      }
      assert grown[..data.encodedLength] == data.buffer[..data.encodedLength];
      data.maxLength := |t| + 4;
      data.buffer := grown;
    }
    if |t| > 0xFFFF {
      return -1;
    }
    ghost var before := data.buffer[..];
    var ok := Ber.EncodeString(data.buffer, 0, t);
    WrittenPrefix(data.buffer[..], before, StringBytes(t));
    data.encodedLength := StringLength(t);
    r := 0;
  }

  /**
   * encode_oid: NULL gives 2; content of more than 0xFFFF octets gives -1
   * and is not written; otherwise the OBJECT IDENTIFIER element.
   */
  method EncodeOid(data: Data, oid: Option<seq<Uint32>>) returns (r: int)
    requires data.Valid()
    requires oid.Some? ==> |oid.value| >= 2
    requires oid.Some? && |OidContentBytes(oid.value)| <= 0xFFFF ==> |OidBytes(oid.value)| <= data.maxLength
    modifies data, data.buffer
    ensures data.Valid() && data.buffer == old(data.buffer) && data.maxLength == old(data.maxLength)
    ensures oid.None? ==> r == 2 && data.Bytes() == old(data.Bytes())
    ensures oid.Some? && |OidContentBytes(oid.value)| > 0xFFFF ==> r == -1 && data.Bytes() == old(data.Bytes())
    ensures oid.Some? && |OidContentBytes(oid.value)| <= 0xFFFF ==> r == 0 && data.Bytes() == OidBytes(oid.value)
  {
    if oid.None? {
      return 2;
    }
    var s := oid.value;
    var length := OidContentLength(s);
    if length > 0xFFFF {
      return -1;
    }
    WriteOid(data.buffer, 0, s, length);
    WrittenPrefix(data.buffer[..], old(data.buffer[..]), OidBytes(s));
    data.encodedLength := |OidBytes(s)|;
    r := 0;
  }

  /** The number of octets encode_unsigned writes: those below the highest non-zero one are kept. */
  function UnsignedWidth(u: Uint32): (w: nat)
    ensures 1 <= w <= 4
  {
    if u >= 0x100_0000 then 4 else if u >= 0x1_0000 then 3 else if u >= 0x100 then 2 else 1
  }

  /** The w low octets of u, most significant first. */
  function UnsignedOctets(u: Uint32, w: nat): (r: seq<Byte>)
    ensures |r| == w
  {
    seq(w, k requires 0 <= k < w => ShiftedOctets(u, w - 1 - k) % 256)
  }

  /** encode_unsigned: the type, the width and the octets, without a leading zero octet. */
  function UnsignedBytes(tag: Byte, u: Uint32): (r: seq<Byte>)
    ensures |r| == 2 + UnsignedWidth(u)
  {
    [tag, UnsignedWidth(u)] + UnsignedOctets(u, UnsignedWidth(u))
  }

  /** encode_unsigned: a COUNTER, GAUGE or TIME_TICKS value. */
  method EncodeUnsigned(data: Data, tag: Byte, u: Uint32) returns (r: int)
    requires data.Valid() && data.maxLength >= 6
    modifies data, data.buffer
    ensures data.Valid() && data.buffer == old(data.buffer) && data.maxLength == old(data.maxLength)
    ensures r == 0 && data.Bytes() == UnsignedBytes(tag, u)
  {
    var length: nat;
    if u >= 0x100_0000 {
      length := 4;
    } else if u >= 0x1_0000 {
      length := 3;
    } else if u >= 0x100 {
      length := 2;
    } else {
      length := 1;
    }
    var buffer := data.buffer;
    buffer[0] := tag;
    buffer[1] := length;
    var k := 0;
    while length > 0
      invariant data.buffer == buffer && data.maxLength == old(data.maxLength)
      invariant k + length == UnsignedWidth(u)
      invariant buffer[..2] == [tag, UnsignedWidth(u)]
      invariant buffer[2..2 + k] == UnsignedOctets(u, UnsignedWidth(u))[..k]
    {
      ghost var before := buffer[..];
      ghost var octets := UnsignedOctets(u, UnsignedWidth(u));
      assert before[2..2 + k] == octets[..k];
      length := length - 1;
      var octet: Byte := ShiftedOctets(u, length) % 256;
      buffer[2 + k] := octet;
      StoreExtends(before, buffer[..], k, octet);
      OctetsStep(u, UnsignedWidth(u), k);
      assert length == UnsignedWidth(u) - 1 - k;
      assert buffer[2..2 + k + 1] == octets[..k + 1];
      k := k + 1;
    }
    assert buffer[..2 + k] == buffer[..2] + buffer[2..2 + k];
    data.encodedLength := 2 + k;
    r := 0;
  }

  /** Storing x at index 2 + k keeps the first two octets and extends the k after them by x. */
  lemma StoreExtends(before: seq<Byte>, after: seq<Byte>, k: nat, x: Byte)
    requires 2 + k < |before| && after == before[2 + k := x]
    ensures after[..2] == before[..2] && after[2..2 + k + 1] == before[2..2 + k] + [x]
  {
  }

  /** The octets up to index k, then the one at k. */
  lemma OctetsStep(u: Uint32, w: nat, k: nat)
    requires k < w
    ensures UnsignedOctets(u, w)[..k + 1] == UnsignedOctets(u, w)[..k] + [ShiftedOctets(u, w - 1 - k) % 256]
  {
  }

  /** Shifting u right by its width in octets leaves nothing. */
  lemma UnsignedWidthFits(u: Uint32)
    ensures ShiftedOctets(u, UnsignedWidth(u)) == 0
    ensures UnsignedWidth(u) > 1 ==> ShiftedOctets(u, UnsignedWidth(u) - 1) > 0
  {
    assert ShiftedOctets(u, 1) == u / 0x100;
    assert ShiftedOctets(u, 2) == u / 0x100 / 0x100;
    assert ShiftedOctets(u, 3) == u / 0x100 / 0x100 / 0x100;
    assert ShiftedOctets(u, 4) == u / 0x100 / 0x100 / 0x100 / 0x100;
  }

  /** The first k octets read big-endian are u shifted right by the w - k octets that follow. */
  lemma {:induction false} UnsignedPrefix(u: Uint32, w: nat, k: nat)
    requires k <= w && ShiftedOctets(u, w) == 0
    ensures BigEndian(UnsignedOctets(u, w)[..k]) == ShiftedOctets(u, w - k)
  {
    if k > 0 {
      var o := UnsignedOctets(u, w);
      UnsignedPrefix(u, w, k - 1);
      assert o[..k][..k - 1] == o[..k - 1];
      var y := ShiftedOctets(u, w - k);
      assert ShiftedOctets(u, w - k + 1) == y / 256;
      assert o[k - 1] == y % 256;
      assert BigEndian(o[..k]) == (y / 256) * 256 + y % 256;
    }
  }

  /**
   * encode_unsigned writes the fewest octets that hold u (the first is
   * non-zero unless u < 256), and the element decoder of the protocol reads
   * u back from them.
   */
  lemma UnsignedRoundTrip(tag: Byte, u: Uint32)
    requires tag == BER_TYPE_COUNTER || tag == BER_TYPE_GAUGE || tag == BER_TYPE_TIME_TICKS
    ensures var b := UnsignedBytes(tag, u);
            && TypeLength(b, 0) == Some(Header(tag, UnsignedWidth(u), 2))
            && UnsignedValue(b, 2, UnsignedWidth(u)) == Some(Decoded(u, |b|))
    ensures UnsignedWidth(u) == 1 || UnsignedOctets(u, UnsignedWidth(u))[0] != 0
  {
    var w := UnsignedWidth(u);
    var b := UnsignedBytes(tag, u);
    UnsignedWidthFits(u);
    UnsignedPrefix(u, w, w);
    assert b[..2] == HeaderBytes(tag, w);
    HeaderRoundTrip(b, 0, tag, w);
    assert b[2..2 + w] == UnsignedOctets(u, w)[..w];
    UnsignedValueBigEndian(b, 2, w);
  }

  /* ---------------------------------------------------------------- */
  /* Allocating and setting data (mib.c:332-405)                        */
  /* ---------------------------------------------------------------- */

  predicate IsUnsignedType(tag: Byte) {
    tag == BER_TYPE_COUNTER || tag == BER_TYPE_GAUGE || tag == BER_TYPE_TIME_TICKS
  }

  /** The types data_alloc and data_set know. */
  predicate Supported(tag: Byte) {
    tag == BER_TYPE_INTEGER || tag == BER_TYPE_OCTET_STRING || tag == BER_TYPE_OID || IsUnsignedType(tag)
  }

  /**
   * The max_length data_alloc gives each type: room for the largest
   * integer, OID and unsigned value; the string buffer grows on demand.
   */
  function Capacity(tag: Byte): nat
    requires Supported(tag)
  {
    if tag == BER_TYPE_INTEGER then 6
    else if tag == BER_TYPE_OCTET_STRING then 4
    else if tag == BER_TYPE_OID then MAX_NR_SUBIDS * 5 + 4
    else 6
  }

  /**
   * data_alloc: for a supported type a fresh buffer of its capacity holding
   * the placeholder element of that type with an empty content; for any
   * other type -1 and nothing changes.
   */
  method DataAlloc(data: Data, tag: Byte) returns (r: int)
    modifies data
    ensures Supported(tag) ==> r == 0 && fresh(data.buffer) && data.Valid()
                               && data.maxLength == Capacity(tag) && data.Bytes() == [tag, 0, 0]
    ensures !Supported(tag) ==> r == -1 && data.buffer == old(data.buffer)
                                && data.maxLength == old(data.maxLength) && data.encodedLength == old(data.encodedLength)
  {
    if tag == BER_TYPE_INTEGER {
      data.maxLength := 6;
    } else if tag == BER_TYPE_OCTET_STRING {
      data.maxLength := 4;
    } else if tag == BER_TYPE_OID {
      data.maxLength := MAX_NR_SUBIDS * 5 + 4;
    } else if IsUnsignedType(tag) {
      data.maxLength := 6;
    } else {
      return -1;
    }
    data.encodedLength := 0;
    data.buffer := new Byte[data.maxLength];
    data.buffer[0] := tag;
    data.buffer[1] := 0;
    data.buffer[2] := 0;
    data.encodedLength := 3;
    r := 0;
  }

  /** A placeholder reads as an element of its type with empty content. */
  lemma PlaceholderDecodes(tag: Byte)
    requires Supported(tag)
    ensures TypeLength([tag, 0, 0], 0) == Some(Header(tag, 0, 2))
  {
    HeaderRoundTrip([tag, 0, 0], 0, tag, 0);
  }

  /**
   * The argument of data_set: an integer passed in the pointer itself
   * (INTEGER and the unsigned types, of which the low 32 bits count), or
   * a C string that may be NULL.
   */
  datatype Arg = Word(word: Uint32) | Text(text: Option<seq<Byte>>)

  /** The argument is of the kind its type is read as: a number, a string, or a non-NULL OID text. */
  predicate ArgFits(tag: Byte, arg: Arg) {
    && (tag == BER_TYPE_INTEGER || IsUnsignedType(tag) ==> arg.Word?)
    && (tag == BER_TYPE_OCTET_STRING ==> arg.Text? && (arg.text.Some? ==> NulFree(arg.text.value)))
    && (tag == BER_TYPE_OID ==> arg.Text? && arg.text.Some? && NulFree(arg.text.value))
  }

  /** The characters of a C string as text. */
  function Chars(t: seq<Byte>): (s: string)
    ensures |s| == |t|
  {
    seq(|t|, k requires 0 <= k < |t| => t[k] as char)
  }

  /** What data_set leaves: the encoding of the argument, or the code it fails with. */
  datatype Outcome = Encoded(bytes: seq<Byte>) | Rejected(code: int)

  /**
   * data_set's result for each type: 1 for an unknown type, 2 for a NULL
   * string or a text oid_aton refuses, -1 for a string or OID too long
   * for two length octets.
   */
  function Encoding(tag: Byte, arg: Arg): (e: Outcome)
    requires ArgFits(tag, arg)
    ensures e.Rejected? ==> e.code == 1 || e.code == 2 || e.code == -1
    ensures !Supported(tag) <==> e == Rejected(1)
  {
    if tag == BER_TYPE_INTEGER then Encoded(IntegerBytes(ToInt32(arg.word)))
    else if tag == BER_TYPE_OCTET_STRING then
      match arg.text
      case None => Rejected(2)
      case Some(t) => if |t| > 0xFFFF then Rejected(-1) else Encoded(StringBytes(t))
    else if tag == BER_TYPE_OID then
      match OidAtonSpec(Chars(arg.text.value))
      case None => Rejected(2)
      case Some(s) => if |OidContentBytes(s)| > 0xFFFF then Rejected(-1) else Encoded(OidBytes(s))
    else if IsUnsignedType(tag) then Encoded(UnsignedBytes(tag, arg.word))
    else Rejected(1)
  }

  /** All bytes are zero. */
  predicate Cleared(b: seq<Byte>) {
    forall k :: 0 <= k < |b| ==> b[k] == 0
  }

  /**
   * data_set: clears the whole buffer, then encodes the argument. On
   * success the data holds its encoding; on failure the code, and the old
   * encoded length over zeroed bytes.
   */
  method DataSet(data: Data, tag: Byte, arg: Arg) returns (r: int)
    requires data.Valid() && ArgFits(tag, arg)
    requires Supported(tag) && tag != BER_TYPE_OCTET_STRING ==> data.maxLength >= Capacity(tag)
    modifies data, data.buffer
    ensures data.Valid() && (data.buffer == old(data.buffer) || fresh(data.buffer))
    ensures Encoding(tag, arg).Encoded? ==> r == 0 && data.Bytes() == Encoding(tag, arg).bytes
    ensures Encoding(tag, arg).Rejected? ==>
              r == Encoding(tag, arg).code && Cleared(data.Bytes()) && data.encodedLength == old(data.encodedLength)
  {
    forall k | 0 <= k < data.buffer.Length {
      data.buffer[k] := 0;
    }
    assert Cleared(data.Bytes());
    if tag == BER_TYPE_INTEGER {
      r := EncodeInteger(data, ToInt32(arg.word));
    } else if tag == BER_TYPE_OCTET_STRING {
      r := EncodeString(data, arg.text);
    } else if tag == BER_TYPE_OID {
      var oid := OidAton(Chars(arg.text.value));
      r := EncodeOid(data, oid);
    } else if IsUnsignedType(tag) {
      r := EncodeUnsigned(data, tag, arg.word);
    } else {
      r := 1;
    }
  }

  /**
   * What data_set encodes, the protocol decodes back: the integer (as the
   * int the pointer argument truncates to), the string, the unsigned value,
   * and an OID whose first two subidentifiers fit one octet below 0x80.
   */
  lemma EncodingDecodes(tag: Byte, arg: Arg)
    requires ArgFits(tag, arg) && Encoding(tag, arg).Encoded?
    ensures var b := Encoding(tag, arg).bytes;
            tag == BER_TYPE_INTEGER ==>
              IntegerValue(b, 2, IntegerWidth(ToInt32(arg.word))) == Some(Decoded(ToInt32(arg.word), |b|))
    ensures var b := Encoding(tag, arg).bytes;
            tag == BER_TYPE_OCTET_STRING ==>
              var t := arg.text.value;
              && TypeLength(b, 0) == Some(Header(BER_TYPE_OCTET_STRING, |t|, HeaderSize(|t|)))
              && StringValue(b, HeaderSize(|t|), |t|, |t| + 1) == Some(Decoded(t, |b|))
    ensures var b := Encoding(tag, arg).bytes;
            IsUnsignedType(tag) ==> UnsignedValue(b, 2, UnsignedWidth(arg.word)) == Some(Decoded(arg.word, |b|))
    ensures var b := Encoding(tag, arg).bytes;
            tag == BER_TYPE_OID ==>
              var s := OidAtonSpec(Chars(arg.text.value)).value;
              s[1] < 40 && s[0] as int * 40 + s[1] < 0x80 ==>
                OidValue(b, HeaderSize(|OidContentBytes(s)|), |OidContentBytes(s)|) == Some(Decoded(Oid(s, |b|), |b|))
  {
    var b := Encoding(tag, arg).bytes;
    assert b[0..|b|] == b;
    if tag == BER_TYPE_INTEGER {
      IntegerRoundTrip(b, 0, ToInt32(arg.word));
    } else if tag == BER_TYPE_OCTET_STRING {
      StringRoundTrip(b, 0, arg.text.value, |arg.text.value| + 1);
    } else if tag == BER_TYPE_OID {
      var s := OidAtonSpec(Chars(arg.text.value)).value;
      if s[1] < 40 && s[0] as int * 40 + s[1] < 0x80 {
        assert |s| <= MAX_NR_SUBIDS by {
          AtonFromAtMost(Chars(arg.text.value), 0, []);
        }
        OidRoundTrip(b, 0, s);
      }
    } else if IsUnsignedType(tag) {
      UnsignedRoundTrip(tag, arg.word);
    }
  }
}
