/**
 * The request side of the SNMP message layer (protocol.c): the syntax check
 * decode_snmp_request makes of a received message (RFC 1157 section 4.1 and
 * RFC 3416 section 3) and snmp_packet_complete, the framing test the agent
 * applies to bytes received over TCP.
 *
 * The specification functions read p, the valid bytes of the client's
 * packet buffer; None stands for the -1 of the C functions.
 */
module RequestDecoder {

  import opened Types
  import opened Ber

  /** What decode_snmp_request guarantees of every request it accepts. */
  predicate WellFormed(r: Request) {
    && (r.version == SNMP_VERSION_1 || r.version == SNMP_VERSION_2C)
    && 1 <= |r.community| < MAX_STRING_SIZE
    && (forall k :: 0 <= k < |r.community| ==> r.community[k] != 0)
    && IsElementType(r.kind)
    && |r.oids| <= MAX_NR_OIDS
    && forall k :: 0 <= k < |r.oids| ==> 2 <= |r.oids[k].subids| <= MAX_NR_SUBIDS
  }

  /**
   * The request as decode_snmp_request reads it: a SEQUENCE spanning the
   * rest of the packet holding the version, the community string and the
   * PDU.
   */
  function ParseRequest(p: seq<Byte>): (r: Option<Request>)
    ensures r.Some? ==> WellFormed(r.value)
    ensures r.Some? ==> TypeLength(p, 0).Some? && TypeLength(p, 0).value.tag == BER_TYPE_SEQUENCE
                        && TypeLength(p, 0).value.next + TypeLength(p, 0).value.length == |p|
  {
    match TypeLength(p, 0)
    case None => None
    case Some(h) =>
      if h.tag != BER_TYPE_SEQUENCE || h.length != |p| - h.next then None
      else ParseVersion(p, h.next)
  }

  /** The version: an INTEGER of exactly one octet, SNMPv1 or SNMPv2c. */
  function ParseVersion(p: seq<Byte>, pos: nat): (r: Option<Request>)
    ensures r.Some? ==> WellFormed(r.value)
  {
    match TypeLength(p, pos)
    case None => None
    case Some(h) =>
      if h.tag != BER_TYPE_INTEGER || h.length != 1 then None
      else
        match IntegerValue(p, h.next, h.length)
        case None => None
        case Some(v) =>
          if v.value != SNMP_VERSION_1 && v.value != SNMP_VERSION_2C then None
          else ParseCommunity(p, v.next, v.value)
  }

  /** The community: an OCTET STRING shorter than the community buffer, not empty as a C string. */
  function ParseCommunity(p: seq<Byte>, pos: nat, version: Int32): (r: Option<Request>)
    requires version == SNMP_VERSION_1 || version == SNMP_VERSION_2C
    ensures r.Some? ==> WellFormed(r.value)
  {
    match TypeLength(p, pos)
    case None => None
    case Some(h) =>
      if h.tag != BER_TYPE_OCTET_STRING || h.length >= MAX_STRING_SIZE then None
      else
        match StringValue(p, h.next, h.length, MAX_STRING_SIZE)
        case None => None
        case Some(s) =>
          if |s.value| < 1 then None else ParsePdu(p, s.next, version, s.value)
  }

  /** An INTEGER element of at least one content octet at pos. */
  function IntegerField(p: seq<Byte>, pos: nat): (r: Option<Decoded<Int32>>)
    ensures r.Some? ==> pos < r.value.next <= |p|
  {
    match TypeLength(p, pos)
    case None => None
    case Some(h) =>
      if h.tag != BER_TYPE_INTEGER || h.length < 1 then None
      else IntegerValue(p, h.next, h.length)
  }

  /**
   * The PDU: any element type, spanning the rest of the packet, holding the
   * request id, two more integers and the variable bindings, a SEQUENCE that
   * spans the rest of the packet as well.
   */
  function ParsePdu(p: seq<Byte>, pos: nat, version: Int32, community: seq<Byte>): (r: Option<Request>)
    requires version == SNMP_VERSION_1 || version == SNMP_VERSION_2C
    requires 1 <= |community| < MAX_STRING_SIZE && forall k :: 0 <= k < |community| ==> community[k] != 0
    ensures r.Some? ==> WellFormed(r.value)
  {
    match TypeLength(p, pos)
    case None => None
    case Some(h) =>
      if h.length != |p| - h.next then None
      else
        match IntegerField(p, h.next)
        case None => None
        case Some(id) =>
          match IntegerField(p, id.next)
          case None => None
          case Some(nonRepeaters) =>
            match IntegerField(p, nonRepeaters.next)
            case None => None
            case Some(maxRepetitions) =>
              match TypeLength(p, maxRepetitions.next)
              case None => None
              case Some(b) =>
                if b.tag != BER_TYPE_SEQUENCE || b.length != |p| - b.next then None
                else
                  match Bindings(p, b.next, [])
                  case None => None
                  case Some(oids) =>
                    Some(Request(community, h.tag, version, id.value, ToUint32(nonRepeaters.value),
                                 ToUint32(maxRepetitions.value), oids))
  }

  /**
   * One variable binding at pos: a non-empty SEQUENCE holding a non-empty
   * OID and a value, which is a NULL of length 0 or an element of another
   * type with content; the value is skipped.
   */
  function Binding(p: seq<Byte>, pos: nat): (r: Option<Decoded<Oid>>)
    ensures r.Some? ==> pos < r.value.next <= |p| && 2 <= |r.value.value.subids| <= MAX_NR_SUBIDS
  {
    match TypeLength(p, pos)
    case None => None
    case Some(s) =>
      if s.tag != BER_TYPE_SEQUENCE || s.length < 1 then None
      else
        match TypeLength(p, s.next)
        case None => None
        case Some(o) =>
          if o.tag != BER_TYPE_OID || o.length < 1 then None
          else
            match OidValue(p, o.next, o.length)
            case None => None
            case Some(oid) =>
              match TypeLength(p, oid.next)
              case None => None
              case Some(v) =>
                if (v.tag == BER_TYPE_NULL && v.length != 0) || (v.tag != BER_TYPE_NULL && v.length == 0) then None
                else
                  match SkipValue(p, v.next, v.length)
                  case None => None
                  case Some(end) => Some(Decoded(oid.value, end))
  }

  /** The bindings from pos to the end of the packet, after the OIDs in acc; at most MAX_NR_OIDS. */
  function Bindings(p: seq<Byte>, pos: nat, acc: seq<Oid>): (r: Option<seq<Oid>>)
    requires |acc| <= MAX_NR_OIDS
    requires forall k :: 0 <= k < |acc| ==> 2 <= |acc[k].subids| <= MAX_NR_SUBIDS
    ensures r.Some? ==> |acc| <= |r.value| <= MAX_NR_OIDS && r.value[..|acc|] == acc
    ensures r.Some? ==> forall k :: 0 <= k < |r.value| ==> 2 <= |r.value[k].subids| <= MAX_NR_SUBIDS
    decreases |p| - pos
  {
    if pos >= |p| then Some(acc)
    else if |acc| >= MAX_NR_OIDS then None
    else
      match Binding(p, pos)
      case None => None
      case Some(b) =>
        var r := Bindings(p, b.next, acc + [b.value]);
        assert r.Some? ==> r.value[..|acc|] == r.value[..|acc| + 1][..|acc|];
        r
  }

  /* ---------------------------------------------------------------------------
   * The framing decode_snmp_request enforces
   */

  /** The position after n consecutive elements from pos, each a header and its content inside the packet. */
  function ElementsEnd(p: seq<Byte>, pos: nat, n: nat): (r: Option<nat>)
    ensures r.Some? ==> pos <= r.value <= |p|
    decreases n
  {
    if n == 0 then (if pos <= |p| then Some(pos) else None)
    else
      match TypeLength(p, pos)
      case None => None
      case Some(h) => if h.next + h.length <= |p| then ElementsEnd(p, h.next + h.length, n - 1) else None
  }

  /** The element at pos has a header whose content ends exactly at the end of the packet. */
  predicate SpansRest(p: seq<Byte>, pos: nat) {
    TypeLength(p, pos).Some? && TypeLength(p, pos).value.next + TypeLength(p, pos).value.length == |p|
  }

  /**
   * The PDU at pos spans the rest of the packet, and after its request id
   * and its two further INTEGERs the binding list is a SEQUENCE that spans
   * the rest of the packet as well.
   */
  predicate PduFramed(p: seq<Byte>, pos: nat) {
    && SpansRest(p, pos)
    && ElementsEnd(p, TypeLength(p, pos).value.next, 3).Some?
    && var list := ElementsEnd(p, TypeLength(p, pos).value.next, 3).value;
       SpansRest(p, list) && TypeLength(p, list).value.tag == BER_TYPE_SEQUENCE
  }

  /**
   * The message: a SEQUENCE spanning the packet whose version and community
   * are followed by a framed PDU.
   */
  predicate MessageFramed(p: seq<Byte>) {
    && SpansRest(p, 0) && TypeLength(p, 0).value.tag == BER_TYPE_SEQUENCE
    && ElementsEnd(p, TypeLength(p, 0).value.next, 2).Some?
    && PduFramed(p, ElementsEnd(p, TypeLength(p, 0).value.next, 2).value)
  }

  /** An INTEGER field is one element: it ends where its header's content ends. */
  lemma IntegerFieldElement(p: seq<Byte>, pos: nat, n: nat)
    requires IntegerField(p, pos).Some?
    ensures ElementsEnd(p, pos, n + 1) == ElementsEnd(p, IntegerField(p, pos).value.next, n)
  {
  }

  /** decode_snmp_request refuses a PDU or a binding list that does not end at the end of the packet. */
  lemma PduSpans(p: seq<Byte>, pos: nat, version: Int32, community: seq<Byte>)
    requires version == SNMP_VERSION_1 || version == SNMP_VERSION_2C
    requires 1 <= |community| < MAX_STRING_SIZE && forall k :: 0 <= k < |community| ==> community[k] != 0
    ensures ParsePdu(p, pos, version, community).Some? ==> PduFramed(p, pos)
  {
    if ParsePdu(p, pos, version, community).Some? {
      var h := TypeLength(p, pos).value;
      var id := IntegerField(p, h.next).value;
      var nonRepeaters := IntegerField(p, id.next).value;
      PduFramedFrom(p, pos, h, id.next, nonRepeaters.next);
    }
  }

  /** The framing of a PDU whose header is h and whose three INTEGER fields follow it. */
  lemma PduFramedFrom(p: seq<Byte>, pos: nat, h: Header, second: nat, third: nat)
    requires TypeLength(p, pos) == Some(h) && h.length == |p| - h.next
    requires IntegerField(p, h.next).Some? && IntegerField(p, h.next).value.next == second
    requires IntegerField(p, second).Some? && IntegerField(p, second).value.next == third
    requires IntegerField(p, third).Some? && SpansRest(p, IntegerField(p, third).value.next)
    requires TypeLength(p, IntegerField(p, third).value.next).value.tag == BER_TYPE_SEQUENCE
    ensures PduFramed(p, pos)
  {
    var list := IntegerField(p, third).value.next;
    IntegerFieldElement(p, h.next, 2);
    IntegerFieldElement(p, second, 1);
    IntegerFieldElement(p, third, 0);
    assert ElementsEnd(p, h.next, 3) == Some(list);
  }

  /**
   * Every request decode_snmp_request accepts is framed: the outer SEQUENCE,
   * the PDU and the binding list each end at the end of the packet.
   */
  lemma RequestFramed(p: seq<Byte>)
    ensures ParseRequest(p).Some? ==> MessageFramed(p)
  {
    if ParseRequest(p).Some? {
      var h := TypeLength(p, 0).value;
      var vh := TypeLength(p, h.next).value;
      var version := IntegerValue(p, vh.next, vh.length).value;
      var ch := TypeLength(p, version.next).value;
      var community := StringValue(p, ch.next, ch.length, MAX_STRING_SIZE).value;
      PduSpans(p, community.next, version.value, community.value);
      MessageFramedFrom(p, h, vh, version.next, ch, community.next);
    }
  }

  /** The framing of a message whose version and community headers are vh and ch. */
  lemma MessageFramedFrom(p: seq<Byte>, h: Header, vh: Header, second: nat, ch: Header, pdu: nat)
    requires TypeLength(p, 0) == Some(h) && h.tag == BER_TYPE_SEQUENCE && h.length == |p| - h.next
    requires TypeLength(p, h.next) == Some(vh) && second == vh.next + vh.length <= |p|
    requires TypeLength(p, second) == Some(ch) && pdu == ch.next + ch.length <= |p|
    requires PduFramed(p, pdu)
    ensures MessageFramed(p)
  {
    assert ElementsEnd(p, second, 1) == Some(pdu);
    assert ElementsEnd(p, h.next, 2) == Some(pdu);
  }

  /** A binding's value obeys the NULL rule: a NULL of length 0, or another type with content. */
  predicate NullRule(v: Header) {
    if v.tag == BER_TYPE_NULL then v.length == 0 else v.length >= 1
  }

  /** The header of the value of the binding at pos: the element after the binding's OID. */
  function ValueHeader(p: seq<Byte>, pos: nat): Option<Header> {
    match TypeLength(p, pos)
    case None => None
    case Some(s) =>
      match TypeLength(p, s.next)
      case None => None
      case Some(o) => TypeLength(p, o.next + o.length)
  }

  /**
   * decode_snmp_request accepts a binding only when its value obeys the NULL
   * rule, and then continues after that value.
   */
  lemma BindingValueRule(p: seq<Byte>, pos: nat)
    ensures Binding(p, pos).Some? ==>
              && ValueHeader(p, pos).Some? && NullRule(ValueHeader(p, pos).value)
              && Binding(p, pos).value.next == ValueHeader(p, pos).value.next + ValueHeader(p, pos).value.length
    ensures ValueHeader(p, pos).Some? && !NullRule(ValueHeader(p, pos).value) ==> Binding(p, pos).None?
  {
  }

  /** An SNMPv1 GET for 1.3.6 with community "p", request id 1 and a NULL value. */
  const NULL_VALUE_GET: seq<Byte> :=
    [0x30, 27, 0x02, 1, 0, 0x04, 1, 0x70, 0xA0, 19, 0x02, 1, 1, 0x02, 1, 0, 0x02, 1, 0,
     0x30, 8, 0x30, 6, 0x06, 2, 0x2B, 6, 0x05, 0]

  /**
   * The same GET whose value is an OCTET STRING header of length 0xFFFF
   * (04 82 FF FF) that ends the message.
   */
  const UNFILLED_VALUE_GET: seq<Byte> :=
    [0x30, 29, 0x02, 1, 0, 0x04, 1, 0x70, 0xA0, 21, 0x02, 1, 1, 0x02, 1, 0, 0x02, 1, 0,
     0x30, 10, 0x30, 8, 0x06, 2, 0x2B, 6, 0x04, 0x82, 0xFF, 0xFF]

  /**
   * A whole request that the bounds check as written lets through and the
   * corrected check refuses: the value header is all that differs from an
   * accepted GET, and the check `*pos < (size - length + 1)` of
   * decode_snmp_element_value_void passes for its 0xFFFF bytes at the end of
   * the 31 received.
   */
  lemma UnfilledValueRefused()
    ensures ParseRequest(NULL_VALUE_GET) == Some(Request([0x70], 0xA0, SNMP_VERSION_1, 1, 0, 0, [Oid([1, 3, 6], 4)]))
    ensures TypeLength(UNFILLED_VALUE_GET, 27) == Some(Header(BER_TYPE_OCTET_STRING, 0xFFFF, 31))
    ensures ValueFitsAsWritten(|UNFILLED_VALUE_GET|, 31, 0xFFFF)
    ensures ParseRequest(UNFILLED_VALUE_GET).None?
  {
    NullValueGetBytes();
    NullValueGetParses(NULL_VALUE_GET);
    UnfilledValueGetBytes();
    UnfilledValueGetRefused(UNFILLED_VALUE_GET);
  }

  /** The bytes of NULL_VALUE_GET, as the parametric lemmas ask for them. */
  lemma NullValueGetBytes()
    ensures GetFront(NULL_VALUE_GET, 8) && OneThreeSixBinding(NULL_VALUE_GET, 6)
    ensures NULL_VALUE_GET[27] == 0x05 && NULL_VALUE_GET[28] == 0
  {
    NullValueMessageFront();
    NullValuePduFront();
    NullValuePduZeros();
  }

  lemma NullValueMessageFront()
    ensures MessageFront(NULL_VALUE_GET, 8)
  {
  }

  lemma NullValuePduFront()
    ensures PduFront(NULL_VALUE_GET, 8)
  {
  }

  lemma NullValuePduZeros()
    ensures PduZeros(NULL_VALUE_GET, 8)
  {
  }

  /** The bytes of UNFILLED_VALUE_GET, as the parametric lemmas ask for them. */
  lemma UnfilledValueGetBytes()
    ensures GetFront(UNFILLED_VALUE_GET, 10) && OneThreeSixBinding(UNFILLED_VALUE_GET, 8)
    ensures UNFILLED_VALUE_GET[27] == 0x04 && UNFILLED_VALUE_GET[28] == 0x82
    ensures UNFILLED_VALUE_GET[29] == 0xFF && UNFILLED_VALUE_GET[30] == 0xFF
  {
    UnfilledValueMessageFront();
    UnfilledValuePduFront();
    UnfilledValuePduZeros();
  }

  lemma UnfilledValueMessageFront()
    ensures MessageFront(UNFILLED_VALUE_GET, 10)
  {
  }

  lemma UnfilledValuePduFront()
    ensures PduFront(UNFILLED_VALUE_GET, 10)
  {
  }

  lemma UnfilledValuePduZeros()
    ensures PduZeros(UNFILLED_VALUE_GET, 10)
  {
  }

  /** The bytes both GETs start with: the SEQUENCE, version 0, community "p", the PDU, id 1 and two zeros. */
  predicate GetFront(p: seq<Byte>, bindingsLength: nat) {
    && |p| == 21 + bindingsLength
    && MessageFront(p, bindingsLength) && PduFront(p, bindingsLength) && PduZeros(p, bindingsLength)
  }

  /** The SEQUENCE header, version 0 and community "p". */
  predicate MessageFront(p: seq<Byte>, bindingsLength: nat) {
    && 8 <= |p|
    && p[0] == 0x30 && p[1] == 19 + bindingsLength && p[2] == 0x02 && p[3] == 1 && p[4] == 0
    && p[5] == 0x04 && p[6] == 1 && p[7] == 0x70
  }

  /** The PDU header and the request id 1. */
  predicate PduFront(p: seq<Byte>, bindingsLength: nat) {
    && 13 <= |p|
    && p[8] == 0xA0 && p[9] == 11 + bindingsLength && p[10] == 0x02 && p[11] == 1 && p[12] == 1
  }

  /** The two zero INTEGERs and the bindings SEQUENCE header. */
  predicate PduZeros(p: seq<Byte>, bindingsLength: nat) {
    && 21 <= |p|
    && p[13] == 0x02 && p[14] == 1 && p[15] == 0 && p[16] == 0x02 && p[17] == 1 && p[18] == 0
    && p[19] == 0x30 && p[20] == bindingsLength
  }

  /** The single binding of 1.3.6, whose binding SEQUENCE holds length octets, from index 21 on. */
  predicate OneThreeSixBinding(p: seq<Byte>, length: nat) {
    && 27 <= |p| && p[21] == 0x30 && p[22] == length && p[23] == 0x06 && p[24] == 2 && p[25] == 0x2B && p[26] == 6
  }

  /** The GET with the NULL value is accepted. */
  lemma NullValueGetParses(p: seq<Byte>)
    requires GetFront(p, 8) && OneThreeSixBinding(p, 6) && p[27] == 0x05 && p[28] == 0
    ensures ParseRequest(p) == Some(Request([0x70], 0xA0, SNMP_VERSION_1, 1, 0, 0, [Oid([1, 3, 6], 4)]))
  {
    var oids := [Oid([1, 3, 6], 4)];
    assert Binding(p, 21) == Some(Decoded(Oid([1, 3, 6], 4), 29)) by {
      ShortHeader(p, 21, 0x30, 6);
      ShortHeader(p, 23, 0x06, 2);
      OidOneThreeSix(p, 25);
      ShortHeader(p, 27, 0x05, 0);
    }
    assert Bindings(p, 21, []) == Some(oids) by {
      assert Bindings(p, 29, oids) == Some(oids);
    }
    PduFields(p, 8);
    Preamble(p, 8);
  }

  /** The GET whose value claims 0xFFFF absent bytes is refused at that value. */
  lemma UnfilledValueGetRefused(p: seq<Byte>)
    requires GetFront(p, 10) && OneThreeSixBinding(p, 8) && p[27] == 0x04 && p[28] == 0x82 && p[29] == 0xFF && p[30] == 0xFF
    ensures ParseRequest(p).None?
    ensures TypeLength(p, 27) == Some(Header(BER_TYPE_OCTET_STRING, 0xFFFF, 31))
  {
    assert TypeLength(p, 27) == Some(Header(BER_TYPE_OCTET_STRING, 0xFFFF, 31)) by {
      assert p[29..31] == [0xFF, 0xFF];
      assert BigEndian([0xFF, 0xFF]) == 0xFFFF by {
        assert [0xFF, 0xFF][..1] == [0xFF] && [0xFF][..0] == [];
      }
    }
    assert Binding(p, 21).None? by {
      ShortHeader(p, 21, 0x30, 8);
      ShortHeader(p, 23, 0x06, 2);
      OidOneThreeSix(p, 25);
    }
    PduFields(p, 10);
    Preamble(p, 10);
  }

  /** A type octet and a one-octet length. */
  lemma ShortHeader(p: seq<Byte>, pos: nat, tag: Byte, length: Byte)
    requires pos + 1 < |p| && p[pos] == tag && IsElementType(tag) && p[pos + 1] == length < 0x80
    ensures TypeLength(p, pos) == Some(Header(tag, length, pos + 2))
  {
  }

  /** An INTEGER of one octet below 0x80. */
  lemma SmallInteger(p: seq<Byte>, pos: nat, b: Byte)
    requires pos + 2 < |p| && p[pos] == BER_TYPE_INTEGER && p[pos + 1] == 1 && p[pos + 2] == b < 0x80
    ensures TypeLength(p, pos) == Some(Header(BER_TYPE_INTEGER, 1, pos + 2))
    ensures IntegerValue(p, pos + 2, 1) == Some(Decoded(b as Int32, pos + 3))
    ensures IntegerField(p, pos) == Some(Decoded(b as Int32, pos + 3))
  {
    assert p[pos + 2..pos + 3] == [b] && [b][..0] == [];
    assert FoldBytes(SignFill(b), [b]) == ShiftIn(FoldBytes(0, []), b) == b;
  }

  /** The OID content 2B 06: 1.3.6. */
  lemma OidOneThreeSix(p: seq<Byte>, pos: nat)
    requires pos + 2 <= |p| && p[pos] == 0x2B && p[pos + 1] == 6
    ensures OidValue(p, pos, 2) == Some(Decoded(Oid([1, 3, 6], 4), pos + 2))
  {
    assert p[pos..pos + 2] == [0x2B, 6];
    var c: seq<Byte> := [0x2B, 6];
    assert SubidGroup(c, 1, 0) == Some(Decoded(6, 2));
    var front: seq<Uint32> := [1, 3];
    assert front + [6] == [1, 3, 6];
    assert SubidsFrom(c, 1, front) == SubidsFrom(c, 2, [1, 3, 6]) == Some([1, 3, 6]);
    assert OidContent(c) == Some([1, 3, 6]);
  }

  /** The PDU of both GETs: id 1, two zeros, then the bindings SEQUENCE from index 19. */
  lemma PduFields(p: seq<Byte>, bindingsLength: nat)
    requires GetFront(p, bindingsLength) && 2 <= bindingsLength < 0x80 - 19
    requires Bindings(p, 21, []).Some? ==> Bindings(p, 21, []) == Some([Oid([1, 3, 6], 4)])
    ensures Bindings(p, 21, []).None? ==> ParsePdu(p, 8, SNMP_VERSION_1, [0x70]).None?
    ensures Bindings(p, 21, []).Some? ==>
              ParsePdu(p, 8, SNMP_VERSION_1, [0x70]) == Some(Request([0x70], 0xA0, SNMP_VERSION_1, 1, 0, 0, [Oid([1, 3, 6], 4)]))
  {
    ShortHeader(p, 8, 0xA0, 11 + bindingsLength);
    SmallInteger(p, 10, 1);
    SmallInteger(p, 13, 0);
    SmallInteger(p, 16, 0);
    ShortHeader(p, 19, 0x30, bindingsLength);
  }

  /** The SEQUENCE, version 0 and community "p" that both GETs start with, up to the PDU at index 8. */
  lemma Preamble(p: seq<Byte>, bindingsLength: nat)
    requires GetFront(p, bindingsLength) && bindingsLength < 0x80 - 19
    ensures ParseRequest(p) == ParsePdu(p, 8, SNMP_VERSION_1, [0x70])
  {
    OuterSequence(p, bindingsLength);
    VersionZero(p, bindingsLength);
    CommunityP(p, bindingsLength);
  }

  /** The outer SEQUENCE spans the packet, and the version follows at index 2. */
  lemma OuterSequence(p: seq<Byte>, bindingsLength: nat)
    requires GetFront(p, bindingsLength) && bindingsLength < 0x80 - 19
    ensures ParseRequest(p) == ParseVersion(p, 2)
  {
    ShortHeader(p, 0, 0x30, 19 + bindingsLength);
  }

  /** Version 0 (SNMPv1), and the community follows at index 5. */
  lemma VersionZero(p: seq<Byte>, bindingsLength: nat)
    requires GetFront(p, bindingsLength)
    ensures ParseVersion(p, 2) == ParseCommunity(p, 5, SNMP_VERSION_1)
  {
    SmallInteger(p, 2, 0);
  }

  /** The community "p", and the PDU follows at index 8. */
  lemma CommunityP(p: seq<Byte>, bindingsLength: nat)
    requires GetFront(p, bindingsLength)
    ensures ParseCommunity(p, 5, SNMP_VERSION_1) == ParsePdu(p, 8, SNMP_VERSION_1, [0x70])
  {
    ShortHeader(p, 5, 0x04, 1);
    assert p[7..8] == [0x70] && CString([0x70]) == [0x70];
    assert StringValue(p, 7, 1, MAX_STRING_SIZE) == Some(Decoded([0x70], 8));
  }

  /* ---------------------------------------------------------------------------
   * decode_snmp_request on the client buffer
   */

  /** decode_snmp_request: the request ParseRequest reads from the client's valid bytes. */
  method DecodeRequest(client: Client) returns (r: Option<Request>)
    requires client.size <= client.packet.Length
    ensures r == ParseRequest(client.packet[..client.size])
  {
    var packet, size := client.packet, client.size;
    ghost var p := packet[..size];
    var h := DecodeTypeLength(packet, size, 0);
    if h.None? || h.value.tag != BER_TYPE_SEQUENCE || h.value.length != size - h.value.next {
      return None;
    }
    h := DecodeTypeLength(packet, size, h.value.next);
    if h.None? || h.value.tag != BER_TYPE_INTEGER || h.value.length != 1 {
      return None;
    }
    var version := DecodeInteger(packet, size, h.value.next, h.value.length);
    if version.None? || (version.value.value != SNMP_VERSION_1 && version.value.value != SNMP_VERSION_2C) {
      return None;
    }
    h := DecodeTypeLength(packet, size, version.value.next);
    if h.None? || h.value.tag != BER_TYPE_OCTET_STRING || h.value.length >= MAX_STRING_SIZE {
      return None;
    }
    var community := StringValue(packet[..size], h.value.next, h.value.length, MAX_STRING_SIZE);
    if community.None? || |community.value.value| < 1 {
      return None;
    }
    r := DecodePdu(client, community.value.next, version.value.value, community.value.value);
  }

  /** The PDU part of decode_snmp_request. */
  method DecodePdu(client: Client, pos: nat, version: Int32, community: seq<Byte>) returns (r: Option<Request>)
    requires client.size <= client.packet.Length
    requires version == SNMP_VERSION_1 || version == SNMP_VERSION_2C
    requires 1 <= |community| < MAX_STRING_SIZE && forall k :: 0 <= k < |community| ==> community[k] != 0
    ensures r == ParsePdu(client.packet[..client.size], pos, version, community)
  {
    var packet, size := client.packet, client.size;
    var h := DecodeTypeLength(packet, size, pos);
    if h.None? || h.value.length != size - h.value.next {
      return None;
    }
    var kind := h.value.tag;
    var id := DecodeIntegerField(packet, size, h.value.next);
    if id.None? {
      return None;
    }
    var nonRepeaters := DecodeIntegerField(packet, size, id.value.next);
    if nonRepeaters.None? {
      return None;
    }
    var maxRepetitions := DecodeIntegerField(packet, size, nonRepeaters.value.next);
    if maxRepetitions.None? {
      return None;
    }
    h := DecodeTypeLength(packet, size, maxRepetitions.value.next);
    if h.None? || h.value.tag != BER_TYPE_SEQUENCE || h.value.length != size - h.value.next {
      return None;
    }
    var oids := DecodeBindings(packet, size, h.value.next);
    if oids.None? {
      return None;
    }
    return Some(Request(community, kind, version, id.value.value, ToUint32(nonRepeaters.value.value),
                        ToUint32(maxRepetitions.value.value), oids.value));
  }

  /** The id, error status and error index fields of decode_snmp_request. */
  method DecodeIntegerField(packet: array<Byte>, size: nat, pos: nat) returns (r: Option<Decoded<Int32>>)
    requires size <= packet.Length
    ensures r == IntegerField(packet[..size], pos)
  {
    var h := DecodeTypeLength(packet, size, pos);
    if h.None? || h.value.tag != BER_TYPE_INTEGER || h.value.length < 1 {
      return None;
    }
    r := DecodeInteger(packet, size, h.value.next, h.value.length);
  }

  /** The loop of decode_snmp_request over the variable bindings. */
  method DecodeBindings(packet: array<Byte>, size: nat, pos: nat) returns (r: Option<seq<Oid>>)
    requires size <= packet.Length
    ensures r == Bindings(packet[..size], pos, [])
  {
    ghost var p := packet[..size];
    var oids: seq<Oid> := [];
    var cursor := pos;
    while cursor < size
      invariant |oids| <= MAX_NR_OIDS
      invariant forall k :: 0 <= k < |oids| ==> 2 <= |oids[k].subids| <= MAX_NR_SUBIDS
      invariant Bindings(p, cursor, oids) == Bindings(p, pos, [])
      decreases size - cursor
    {
      if |oids| >= MAX_NR_OIDS {
        return None;
      }
      var b := DecodeBinding(packet, size, cursor);
      if b.None? {
        return None;
      }
      oids := oids + [b.value.value];
      cursor := b.value.next;
    }
    return Some(oids);
  }

  /** The body of decode_snmp_request's binding loop: one variable binding. */
  method DecodeBinding(packet: array<Byte>, size: nat, pos: nat) returns (r: Option<Decoded<Oid>>)
    requires size <= packet.Length
    ensures r == Binding(packet[..size], pos)
  {
    var h := DecodeTypeLength(packet, size, pos);
    if h.None? || h.value.tag != BER_TYPE_SEQUENCE || h.value.length < 1 {
      return None;
    }
    h := DecodeTypeLength(packet, size, h.value.next);
    if h.None? || h.value.tag != BER_TYPE_OID || h.value.length < 1 {
      return None;
    }
    var oid := DecodeOid(packet, size, h.value.next, h.value.length);
    if oid.None? {
      return None;
    }
    h := DecodeTypeLength(packet, size, oid.value.next);
    if h.None? {
      return None;
    }
    var tag, length := h.value.tag, h.value.length;
    if (tag == BER_TYPE_NULL && length != 0) || (tag != BER_TYPE_NULL && length == 0) {
      return None;
    }
    if !(h.value.next + length <= size) {
      return None;
    }
    return Some(Decoded(oid.value.value, h.value.next + length));
  }

  /* ---------------------------------------------------------------------------
   * snmp_packet_complete
   */

  /** The fewest bytes a request can take: the headers of every element it must hold. */
  const MIN_REQUEST_SIZE: nat := 25

  /**
   * snmp_packet_complete as written: 0 while fewer than 25 bytes are in; -1
   * unless the packet starts with a non-empty SEQUENCE header whose length
   * does not exceed the bytes received after it; then 1 when it spans
   * exactly those bytes and 0 otherwise. A message of which only a part
   * has arrived is thus refused rather than waited for.
   */
  function PacketCompleteAsWritten(p: seq<Byte>): (r: int)
    ensures -1 <= r <= 1
  {
    if |p| < MIN_REQUEST_SIZE then 0
    else
      match TypeLength(p, 0)
      case None => -1
      case Some(h) =>
        if h.tag != BER_TYPE_SEQUENCE || h.length < 1 || h.length > |p| - h.next then -1
        else if |p| - h.next == h.length then 1 else 0
  }

  /**
   * snmp_packet_complete as its comment and its caller intend: -1 for a
   * header that is no SEQUENCE or announces a message that cannot fit in
   * the packet buffer, 1 once the message is whole, 0 while it is not
   * (or when more bytes than the message arrived).
   */
  function PacketComplete(p: seq<Byte>): (r: int)
    ensures -1 <= r <= 1
    ensures r == 1 ==> TypeLength(p, 0).Some? && TypeLength(p, 0).value.tag == BER_TYPE_SEQUENCE
                       && TypeLength(p, 0).value.next + TypeLength(p, 0).value.length == |p|
  {
    if |p| < MIN_REQUEST_SIZE then 0
    else
      match TypeLength(p, 0)
      case None => -1
      case Some(h) =>
        if h.tag != BER_TYPE_SEQUENCE || h.length < 1 || h.next + h.length > MAX_PACKET_SIZE then -1
        else if |p| - h.next == h.length then 1 else 0
  }

  /** The two agree on every packet that holds at least the message its header announces. */
  lemma PacketCompleteAgrees(p: seq<Byte>)
    requires |p| <= MAX_PACKET_SIZE
    requires TypeLength(p, 0).Some? ==> TypeLength(p, 0).value.length <= |p| - TypeLength(p, 0).value.next
    ensures PacketCompleteAsWritten(p) == PacketComplete(p)
  {
  }

  /** Every request decode_snmp_request accepts is a complete packet once it has 25 bytes. */
  lemma RequestIsComplete(p: seq<Byte>)
    requires ParseRequest(p).Some? && MIN_REQUEST_SIZE <= |p| <= MAX_PACKET_SIZE
    ensures PacketComplete(p) == 1
  {
    var h := TypeLength(p, 0).value;
    assert h.length >= 1 by {
      VersionNeedsBytes(p, h.next);
    }
  }

  /** The version element takes three bytes. */
  lemma VersionNeedsBytes(p: seq<Byte>, pos: nat)
    requires ParseVersion(p, pos).Some?
    ensures pos + 3 <= |p|
  {
  }

  /** The header decoder only looks at the bytes of the header it reads. */
  lemma TypeLengthPrefix(p: seq<Byte>, k: nat, pos: nat)
    requires k <= |p| && TypeLength(p, pos).Some? && TypeLength(p, pos).value.next <= k
    ensures TypeLength(p[..k], pos) == TypeLength(p, pos)
  {
    var h := TypeLength(p, pos).value;
    if p[pos + 1] >= 0x80 {
      assert p[..k][pos + 2..h.next] == p[pos + 2..h.next];
    }
  }

  /**
   * A proper prefix of a complete packet that holds its header and 25 bytes
   * is incomplete: the agent waits for the rest.
   */
  lemma PrefixIsIncomplete(p: seq<Byte>, k: nat)
    requires PacketComplete(p) == 1
    requires MIN_REQUEST_SIZE <= k < |p| && TypeLength(p, 0).value.next <= k
    ensures PacketComplete(p[..k]) == 0
  {
    TypeLengthPrefix(p, k, 0);
  }

  /**
   * As written, the same prefix is refused: a request whose first TCP
   * segment carries 25 bytes or more but not all of it closes the connection.
   */
  lemma PrefixRefusedAsWritten(p: seq<Byte>, k: nat)
    requires PacketComplete(p) == 1
    requires MIN_REQUEST_SIZE <= k < |p| && TypeLength(p, 0).value.next <= k
    ensures PacketCompleteAsWritten(p[..k]) == -1
  {
    TypeLengthPrefix(p, k, 0);
  }

  /**
   * Bytes received after a complete packet make it incomplete: a second
   * request sent behind the first on the same connection is never completed.
   */
  lemma TrailingBytesAreIncomplete(p: seq<Byte>, extra: seq<Byte>)
    requires PacketComplete(p) == 1 && |extra| > 0
    ensures PacketComplete(p + extra) == 0
  {
    assert (p + extra)[..|p|] == p;
    TypeLengthExtend(p, p + extra, 0);
  }

  /** More bytes behind a header do not change how it is read. */
  lemma TypeLengthExtend(p: seq<Byte>, q: seq<Byte>, pos: nat)
    requires |p| <= |q| && q[..|p|] == p && TypeLength(p, pos).Some?
    ensures TypeLength(q, pos) == TypeLength(p, pos)
  {
    var h := TypeLength(p, pos).value;
    assert q[pos] == p[pos] && q[pos + 1] == p[pos + 1];
    if p[pos + 1] >= 0x80 {
      forall j | pos + 2 <= j < h.next
        ensures q[j] == p[j]
      {
        assert q[j] == q[..|p|][j];
      }
      assert q[pos + 2..h.next] == p[pos + 2..h.next];
    }
  }
}
