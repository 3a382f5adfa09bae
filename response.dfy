/**
 * The response side of the SNMP message layer (protocol.c): encode_snmp_varbind
 * and encode_snmp_response, which write a GetResponse message (RFC 1157
 * section 4.1.4, RFC 3416 section 4.2.4) backwards from the end of the
 * client's packet buffer and then move it to the front.
 */
module ResponseEncoder {

  import opened Types
  import opened Ber

  /** m_null: the value of every variable binding of an error response. */
  const NULL_DATA: seq<Byte> := [BER_TYPE_NULL, 0x00]

  /**
   * A value the encoder can write: 2 to 16 subidentifiers (what oid_t holds)
   * and data whose length fits the short that holds it.
   */
  predicate Encodable(v: Value) {
    2 <= |v.oid.subids| <= MAX_NR_SUBIDS && |v.data| <= 0x7FFF
  }

  predicate AllEncodable(values: seq<Value>) {
    forall k :: 0 <= k < |values| ==> Encodable(values[k])
  }

  /** A constructed element: the header of its content, then the content. */
  function Sequence(tag: Byte, content: seq<Byte>): (r: seq<Byte>)
    requires |content| <= 0xFFFF
    ensures |r| == HeaderSize(|content|) + |content|
  {
    HeaderBytes(tag, |content|) + content
  }

  /** encode_snmp_varbind: a SEQUENCE of the OID and the data. */
  function VarbindBytes(v: Value): (r: seq<Byte>)
    requires Encodable(v)
    ensures |r| >= 2
  {
    Sequence(BER_TYPE_SEQUENCE, OidBytes(v.oid.subids) + v.data)
  }

  /** The variable bindings one after the other. */
  function VarbindsBytes(values: seq<Value>): seq<Byte>
    requires AllEncodable(values)
  {
    if values == [] then [] else VarbindBytes(values[0]) + VarbindsBytes(values[1..])
  }

  /** The PDU content: the request id, the error status, the error index and the bindings. */
  function PduBytes(id: Int32, status: Int32, index: Int32, bindings: seq<Byte>): seq<Byte>
    requires |bindings| <= 0xFFFF
  {
    IntegerBytes(id) + IntegerBytes(status) + IntegerBytes(index) + Sequence(BER_TYPE_SEQUENCE, bindings)
  }

  /** The message content: the version, the community and the PDU of type kind. */
  function EnvelopeBytes(version: Int32, community: seq<Byte>, kind: Byte, pdu: seq<Byte>): seq<Byte>
    requires |community| <= 0xFFFF && |pdu| <= 0xFFFF
  {
    IntegerBytes(version) + StringBytes(community) + Sequence(kind, pdu)
  }

  /**
   * A message as encode_snmp_response lays it out: a SEQUENCE of the
   * version, the community and the PDU of type kind, which holds the request
   * id, the error status, the error index and the SEQUENCE of bindings.
   * None when it does not fit in the packet buffer.
   */
  function MessageBytes(version: Int32, community: seq<Byte>, kind: Byte, id: Int32,
                        status: Int32, index: Int32, bindings: seq<Byte>): (r: Option<seq<Byte>>)
    requires |community| <= 0xFFFF
    ensures r.Some? ==> |r.value| <= MAX_PACKET_SIZE
  {
    if |bindings| > MAX_PACKET_SIZE then None
    else
      var pdu := PduBytes(id, status, index, bindings);
      if |pdu| > MAX_PACKET_SIZE then None
      else
        var message := EnvelopeBytes(version, community, kind, pdu);
        if |message| > MAX_PACKET_SIZE then None
        else
          var whole := Sequence(BER_TYPE_SEQUENCE, message);
          if |whole| > MAX_PACKET_SIZE then None else Some(whole)
  }

  /** The bindings of an error response: every requested OID with a NULL value. */
  function NullBindings(oids: seq<Oid>): (r: seq<Value>)
    ensures |r| == |oids|
    ensures forall k :: 0 <= k < |r| ==> r[k] == Value(oids[k], NULL_DATA)
  {
    seq(|oids|, k requires 0 <= k < |oids| => Value(oids[k], NULL_DATA))
  }

  /**
   * The bindings encode_snmp_response sends: the response's own, or for an
   * error status the requested OIDs with NULL values, which fails when they
   * are more than the value list holds.
   */
  function ReplyBindings(request: Request, status: Int32, values: seq<Value>): (r: Option<seq<Value>>)
    ensures status == SNMP_STATUS_OK ==> r == Some(values)
    ensures status != SNMP_STATUS_OK ==> (r.Some? <==> |request.oids| <= MAX_NR_VALUES)
    ensures status != SNMP_STATUS_OK && r.Some? ==>
              |r.value| == |request.oids| && forall k :: 0 <= k < |r.value| ==> r.value[k] == Value(request.oids[k], NULL_DATA)
  {
    if status == SNMP_STATUS_OK then Some(values)
    else if |request.oids| > MAX_NR_VALUES then None
    else Some(NullBindings(request.oids))
  }

  /** The bytes of the response to request, or None where encode_snmp_response fails. */
  function ReplyBytes(request: Request, status: Int32, index: Int32, values: seq<Value>): Option<seq<Byte>>
    requires |request.community| <= 0xFFFF
    requires ReplyBindings(request, status, values).Some? ==> AllEncodable(ReplyBindings(request, status, values).value)
  {
    match ReplyBindings(request, status, values)
    case None => None
    case Some(bindings) =>
      MessageBytes(request.version, request.community, BER_TYPE_SNMP_RESPONSE, request.id, status, index,
                   VarbindsBytes(bindings))
  }

  /* ---------------------------------------------------------------------------
   * Properties of the layout
   */

  /** The bindings from index i on are no longer than all the bindings. */
  lemma {:induction false} VarbindsSuffix(values: seq<Value>, i: nat)
    requires AllEncodable(values) && i <= |values|
    ensures |VarbindsBytes(values[i..])| <= |VarbindsBytes(values)|
    decreases i
  {
    if i > 0 {
      VarbindsSuffix(values[1..], i - 1);
      assert values[1..][i - 1..] == values[i..];
    }
  }

  /** The bindings from index i on start with the binding of value i. */
  lemma VarbindsStep(values: seq<Value>, i: nat)
    requires AllEncodable(values) && i < |values|
    ensures VarbindsBytes(values[i..]) == VarbindBytes(values[i]) + VarbindsBytes(values[i + 1..])
  {
    assert values[i..][1..] == values[i + 1..];
  }

  /* ---------------------------------------------------------------------------
   * Writing into the packet buffer
   */

  /** memcpy of bytes to index at of buffer. */
  method CopyBytes(buffer: array<Byte>, at: nat, bytes: seq<Byte>)
    requires at + |bytes| <= buffer.Length
    modifies buffer
    ensures Spliced(buffer[..], old(buffer[..]), at, bytes)
  {
    var k := 0;
    while k < |bytes|
      invariant k <= |bytes|
      invariant Spliced(buffer[..], old(buffer[..]), at, bytes[..k])
    {
      buffer[at + k] := bytes[k];
      k := k + 1;
    }
    assert bytes[..k] == bytes;
  }

  /** A write of x just before the tail at pos makes x + tail the new tail. */
  lemma Prepended(after: seq<Byte>, before: seq<Byte>, at: nat, x: seq<Byte>)
    requires Spliced(after, before, at, x)
    ensures after[at..] == x + before[at + |x|..]
  {
    SplicedSlice(after, before, at, x, |before|);
  }

  /**
   * encode_snmp_varbind: the data, the OID and the SEQUENCE header, each
   * written in front of the bytes from pos on while it fits. The OID takes
   * the length of its encoding (see ReservedOidLength).
   */
  method WriteVarbind(packet: array<Byte>, pos: nat, v: Value) returns (ok: bool, next: nat)
    requires pos <= packet.Length && Encodable(v)
    modifies packet
    ensures ok <==> |VarbindBytes(v)| <= pos
    ensures ok ==> next == pos - |VarbindBytes(v)| && packet[next..] == VarbindBytes(v) + old(packet[pos..])
  {
    ghost var tail := packet[pos..];
    var length := ReservedOidLength(v.oid);
    VarbindShape(v);
    ok := PrefixBytes(packet, pos, v.data);
    if !ok {
      return false, pos;
    }
    next := pos - |v.data|;
    ghost var t1 := packet[next..];
    ok := PrefixOid(packet, next, v.oid);
    if !ok {
      return false, pos;
    }
    next := next - length;
    ghost var t2 := packet[next..];
    ok := PrefixHeader(packet, next, length + |v.data|, BER_TYPE_SEQUENCE);
    if !ok {
      return false, pos;
    }
    next := next - HeaderSize(length + |v.data|);
    ghost var header := HeaderBytes(BER_TYPE_SEQUENCE, length + |v.data|);
    ghost var whole := packet[next..];
    assert whole == header + t2;
    Assemble(whole, header, t2, OidBytes(v.oid.subids), t1, v.data, tail);
  }

  /** The three pieces written in front of the tail, one after the other, read as the binding in front of it. */
  lemma Assemble(whole: seq<Byte>, header: seq<Byte>, t2: seq<Byte>, oid: seq<Byte>, t1: seq<Byte>, data: seq<Byte>, tail: seq<Byte>)
    requires whole == header + t2 && t2 == oid + t1 && t1 == data + tail
    ensures whole == (header + (oid + data)) + tail
  {
    Regroup(header, oid, data, tail);
  }

  /** The binding is the SEQUENCE header of the OID and data lengths, the OID, then the data. */
  lemma VarbindShape(v: Value)
    requires Encodable(v)
    ensures var n := ReservedOidLength(v.oid) + |v.data|;
            VarbindBytes(v) == HeaderBytes(BER_TYPE_SEQUENCE, n) + (OidBytes(v.oid.subids) + v.data) &&
            |VarbindBytes(v)| == HeaderSize(n) + n
  {
  }

  /** Bytes written in front of x, then y, then z read as one element in front of z. */
  lemma Regroup(w: seq<Byte>, x: seq<Byte>, y: seq<Byte>, z: seq<Byte>)
    ensures w + (x + (y + z)) == (w + (x + y)) + z
  {
    assert x + (y + z) == (x + y) + z;
  }

  /** The data of a binding in front of the bytes from pos on, if it fits. */
  method PrefixBytes(packet: array<Byte>, pos: nat, bytes: seq<Byte>) returns (ok: bool)
    requires pos <= packet.Length
    modifies packet
    ensures ok <==> |bytes| <= pos
    ensures ok ==> packet[pos - |bytes|..] == bytes + old(packet[pos..])
  {
    if pos < |bytes| {
      return false;
    }
    ghost var b := packet[..];
    CopyBytes(packet, pos - |bytes|, bytes);
    Prepended(packet[..], b, pos - |bytes|, bytes);
    assert b[pos..] == old(packet[pos..]);
    return true;
  }

  /**
   * The room encode_snmp_varbind leaves for the OID of a binding: the length
   * of the encoding encode_snmp_oid writes there.
   */
  function ReservedOidLength(oid: Oid): (n: nat)
    requires 2 <= |oid.subids| <= MAX_NR_SUBIDS
    ensures n == |OidBytes(oid.subids)| && n <= 2 + 1 + 5 * (MAX_NR_SUBIDS - 2)
  {
    |OidBytes(oid.subids)|
  }

  /**
   * encode_snmp_varbind as written: it reserves the encoded length the OID
   * carries, which for an OID taken from a request is its length on the
   * wire, but encode_snmp_oid writes the minimal encoding at the start of
   * that room, so the stale bytes after it stay between the OID and the data.
   */
  function VarbindAsWritten(v: Value, stale: seq<Byte>): (r: seq<Byte>)
    requires 2 <= |v.oid.subids| <= MAX_NR_SUBIDS && |v.data| <= 0x7FFF
    requires |OidBytes(v.oid.subids)| + |stale| == v.oid.encodedLength <= 0x7FFF
    ensures |r| == HeaderSize(v.oid.encodedLength + |v.data|) + v.oid.encodedLength + |v.data|
  {
    Sequence(BER_TYPE_SEQUENCE, OidBytes(v.oid.subids) + stale + v.data)
  }

  /** For an OID whose encoded length is that of its minimal encoding, the code as written writes the binding. */
  lemma VarbindAsWrittenMinimal(v: Value)
    requires Encodable(v) && v.oid.encodedLength == |OidBytes(v.oid.subids)|
    ensures VarbindAsWritten(v, []) == VarbindBytes(v)
  {
    assert OidBytes(v.oid.subids) + [] == OidBytes(v.oid.subids);
  }

  /**
   * The OID 1.3.1 sent with a padded subidentifier (0x80 0x01) decodes with
   * encoded length 5, one more than its minimal encoding, so the binding as
   * written keeps a stale byte after the OID and is not the binding of the value.
   */
  lemma NonMinimalOidLeavesGap(stale: Byte)
    ensures OidValue([BER_TYPE_OID, 0x03, 0x2B, 0x80, 0x01], 2, 3) == Some(Decoded(Oid([1, 3, 1], 5), 5))
    ensures var v := Value(Oid([1, 3, 1], 5), NULL_DATA);
            |OidBytes(v.oid.subids)| == 4 && VarbindAsWritten(v, [stale]) != VarbindBytes(v)
  {
    PaddedOidDecodes();
    var v := Value(Oid([1, 3, 1], 5), NULL_DATA);
    MinimalOidLength();
    assert |VarbindAsWritten(v, [stale])| != |VarbindBytes(v)|;
  }

  /** The padded OID on the wire: content 0x2B 0x80 0x01 after the type and length octets. */
  lemma PaddedOidDecodes()
    ensures OidValue([BER_TYPE_OID, 0x03, 0x2B, 0x80, 0x01], 2, 3) == Some(Decoded(Oid([1, 3, 1], 5), 5))
  {
    var p: seq<Byte> := [BER_TYPE_OID, 0x03, 0x2B, 0x80, 0x01];
    assert p[2..5] == PADDED_CONTENT;
    PaddedContentDecodes();
    assert HeaderSize(3) == 2;
  }

  /** The content of 1.3.1 with its last subidentifier padded by a leading 0x80 octet. */
  const PADDED_CONTENT: seq<Byte> := [0x2B, 0x80, 0x01]

  /** The first octet gives 1.3 and the padded group then gives 1. */
  lemma PaddedContentDecodes()
    ensures OidContent(PADDED_CONTENT) == Some([1, 3, 1])
  {
    var c := PADDED_CONTENT;
    assert c[0] / 40 == 1 && c[0] % 40 == 3;
    PaddedGroupDecodes();
    var all: seq<Uint32> := [1, 3, 1];
    assert [1, 3] + [1] == all;
    assert SubidsFrom(c, 3, all) == Some(all);
    assert SubidsFrom(c, 1, [1, 3]) == SubidsFrom(c, 3, all);
  }

  /** The octets 0x80 0x01 read as one subidentifier of value 1 that ends the content. */
  lemma PaddedGroupDecodes()
    ensures SubidGroup(PADDED_CONTENT, 1, 0) == Some(Decoded(1, 3))
  {
    var c := PADDED_CONTENT;
    assert Septet(0, 0x80) == 0 && Septet(0, 0x01) == 1;
    assert SubidGroup(c, 2, 0) == Some(Decoded(1, 3));
    assert SubidGroup(c, 1, 0) == SubidGroup(c, 2, 0);
  }

  /** The minimal encoding of 1.3.1 takes four octets. */
  lemma MinimalOidLength()
    ensures |OidBytes([1, 3, 1])| == 4
  {
    var s: seq<Uint32> := [1, 3, 1];
    assert s[2..] == [1];
    assert SubidsBytes([1]) == SubidsBytes([]) + SubidBytes(1);
    assert |SubidBytes(1)| == 1;
    assert |OidContentBytes(s)| == 2;
  }

  /** The OID of a binding in front of the bytes from pos on, if its encoding fits. */
  method PrefixOid(packet: array<Byte>, pos: nat, oid: Oid) returns (ok: bool)
    requires pos <= packet.Length && 2 <= |oid.subids| <= MAX_NR_SUBIDS
    modifies packet
    ensures ok <==> ReservedOidLength(oid) <= pos
    ensures ok ==> packet[pos - ReservedOidLength(oid)..] == OidBytes(oid.subids) + old(packet[pos..])
  {
    var length := ReservedOidLength(oid);
    if pos < length {
      return false;
    }
    ghost var b := packet[..];
    var written := EncodeOid(packet, pos - length, oid.subids);
    Prepended(packet[..], b, pos - length, OidBytes(oid.subids));
    assert b[pos..] == old(packet[pos..]);
    return true;
  }

  /**
   * encode_snmp_response once the bindings are chosen: the bindings from the
   * last to the first, then the headers and fields in front of them, then
   * the message moved to the front of the buffer. On failure the bytes the
   * backwards writes already left in the buffer are not stated: snmp()
   * then returns -1 and the packet is never sent.
   */
  method WriteMessage(client: Client, version: Int32, community: seq<Byte>, id: Int32,
                      status: Int32, index: Int32, values: seq<Value>) returns (ok: bool)
    requires client.packet.Length == MAX_PACKET_SIZE
    requires |community| < MAX_STRING_SIZE && AllEncodable(values)
    modifies client, client.packet
    ensures client.sockfd == old(client.sockfd) && client.outgoing == old(client.outgoing)
    ensures client.timestamp == old(client.timestamp) && client.addr == old(client.addr) && client.port == old(client.port)
    ensures client.packet == old(client.packet)
    ensures var bytes := MessageBytes(version, community, BER_TYPE_SNMP_RESPONSE, id, status, index, VarbindsBytes(values));
            && (ok <==> bytes.Some?)
            && (ok ==> client.size == |bytes.value| && client.packet[..client.size] == bytes.value)
            && (!ok ==> client.size == old(client.size))
  {
    var packet := client.packet;
    var fits, pos := WriteBindings(packet, values);
    if !fits {
      return false;
    }
    var start;
    ok, start := WriteHeaders(packet, pos, version, community, id, status, index, VarbindsBytes(values));
    if ok {
      var size := MoveToFront(packet, start);
      client.size := size;
    }
  }

  /**
   * The bindings of encode_snmp_response, from the last to the first, each
   * in front of the ones after it, while they fit in the buffer.
   */
  method WriteBindings(packet: array<Byte>, values: seq<Value>) returns (fits: bool, pos: nat)
    requires packet.Length == MAX_PACKET_SIZE && AllEncodable(values)
    modifies packet
    ensures fits <==> |VarbindsBytes(values)| <= MAX_PACKET_SIZE
    ensures fits ==> pos + |VarbindsBytes(values)| == MAX_PACKET_SIZE && packet[pos..] == VarbindsBytes(values)
  {
    pos := MAX_PACKET_SIZE;
    var i: nat := |values|;
    while i > 0
      invariant i <= |values| && AllEncodable(values[i..])
      invariant pos + |VarbindsBytes(values[i..])| == MAX_PACKET_SIZE
      invariant packet[pos..] == VarbindsBytes(values[i..])
    {
      i := i - 1;
      VarbindsStep(values, i);
      var ok, next := WriteVarbind(packet, pos, values[i]);
      if !ok {
        VarbindsSuffix(values, i);
        return false, pos;
      }
      pos := next;
    }
    assert values[0..] == values;
    fits := true;
  }

  /**
   * The part of encode_snmp_response after the bindings: from the bindings
   * at pos on, the headers and fields are written in front while they fit.
   */
  method WriteHeaders(packet: array<Byte>, pos: nat, version: Int32, community: seq<Byte>, id: Int32,
                      status: Int32, index: Int32, ghost bindings: seq<Byte>) returns (ok: bool, start: nat)
    requires packet.Length == MAX_PACKET_SIZE && |community| < MAX_STRING_SIZE
    requires pos + |bindings| == MAX_PACKET_SIZE && packet[pos..] == bindings
    modifies packet
    ensures var bytes := MessageBytes(version, community, BER_TYPE_SNMP_RESPONSE, id, status, index, bindings);
            && (ok <==> bytes.Some?)
            && (ok ==> start + |bytes.value| == MAX_PACKET_SIZE && packet[start..] == bytes.value)
  {
    var cursor;
    start := pos;
    ok, cursor := WritePdu(packet, pos, id, status, index, bindings);
    if !ok {
      return;
    }
    ghost var pdu := PduBytes(id, status, index, bindings);
    ok := Prefix(packet, cursor, BER_TYPE_SNMP_RESPONSE);
    if !ok {
      return;
    }
    cursor := cursor - HeaderSize(MAX_PACKET_SIZE - cursor);
    ok, cursor := WriteEnvelope(packet, cursor, version, community, Sequence(BER_TYPE_SNMP_RESPONSE, pdu));
    if !ok {
      return;
    }
    ghost var message := EnvelopeBytes(version, community, BER_TYPE_SNMP_RESPONSE, pdu);
    ok := Prefix(packet, cursor, BER_TYPE_SEQUENCE);
    start := if ok then cursor - HeaderSize(MAX_PACKET_SIZE - cursor) else cursor;
  }

  /** The bindings header, the error index, the error status and the request id, in front of the bindings. */
  method WritePdu(packet: array<Byte>, pos: nat, id: Int32, status: Int32, index: Int32, ghost bindings: seq<Byte>)
    returns (ok: bool, next: nat)
    requires packet.Length == MAX_PACKET_SIZE
    requires pos + |bindings| == MAX_PACKET_SIZE && packet[pos..] == bindings
    modifies packet
    ensures ok <==> |PduBytes(id, status, index, bindings)| <= MAX_PACKET_SIZE
    ensures ok ==> next + |PduBytes(id, status, index, bindings)| == MAX_PACKET_SIZE
                   && packet[next..] == PduBytes(id, status, index, bindings)
  {
    ok := Prefix(packet, pos, BER_TYPE_SEQUENCE);
    if !ok {
      return ok, pos;
    }
    next := pos - HeaderSize(MAX_PACKET_SIZE - pos);
    ghost var t0 := packet[next..];
    ok := PrefixInteger(packet, next, index);
    if !ok {
      return;
    }
    next := next - IntegerLength(index);
    ghost var t1 := packet[next..];
    ok := PrefixInteger(packet, next, status);
    if !ok {
      return;
    }
    next := next - IntegerLength(status);
    ghost var t2 := packet[next..];
    ok := PrefixInteger(packet, next, id);
    if !ok {
      return;
    }
    next := next - IntegerLength(id);
    assert t0 == Sequence(BER_TYPE_SEQUENCE, bindings);
    assert t1 == IntegerBytes(index) + t0 && t2 == IntegerBytes(status) + t1;
    assert packet[next..] == IntegerBytes(id) + t2;
    Regroup(IntegerBytes(id), IntegerBytes(status), IntegerBytes(index), t0);
    assert IntegerBytes(id) + (IntegerBytes(status) + IntegerBytes(index)) == IntegerBytes(id) + IntegerBytes(status) + IntegerBytes(index);
  }

  /** The community and the version in front of the PDU element at pos. */
  method WriteEnvelope(packet: array<Byte>, pos: nat, version: Int32, community: seq<Byte>, ghost pdu: seq<Byte>)
    returns (ok: bool, next: nat)
    requires packet.Length == MAX_PACKET_SIZE && |community| < MAX_STRING_SIZE
    requires pos + |pdu| == MAX_PACKET_SIZE && packet[pos..] == pdu
    modifies packet
    ensures ok <==> |IntegerBytes(version) + StringBytes(community) + pdu| <= MAX_PACKET_SIZE
    ensures ok ==> next + |IntegerBytes(version) + StringBytes(community) + pdu| == MAX_PACKET_SIZE
                   && packet[next..] == IntegerBytes(version) + StringBytes(community) + pdu
  {
    var length := StringLength(community);
    if pos < length {
      return false, pos;
    }
    ghost var b := packet[..];
    ok := EncodeString(packet, pos - length, community);
    Prepended(packet[..], b, pos - length, StringBytes(community));
    next := pos - length;
    ghost var tail := packet[next..];
    assert tail == StringBytes(community) + pdu;
    ok := PrefixInteger(packet, next, version);
    if !ok {
      return;
    }
    next := next - IntegerLength(version);
    assert packet[next..] == IntegerBytes(version) + tail;
    assert IntegerBytes(version) + (StringBytes(community) + pdu) == IntegerBytes(version) + StringBytes(community) + pdu;
  }

  /**
   * A header of the given content length in front of the bytes from pos
   * on, if get_sequence_header_length says it fits.
   */
  method PrefixHeader(packet: array<Byte>, pos: nat, length: nat, tag: Byte) returns (ok: bool)
    requires pos <= packet.Length && length <= 0xFFFF
    modifies packet
    ensures ok <==> HeaderSize(length) <= pos
    ensures ok ==> packet[pos - HeaderSize(length)..] == HeaderBytes(tag, length) + old(packet[pos..])
  {
    var size := SequenceHeaderLength(length);
    if pos < size {
      return false;
    }
    assert size == HeaderSize(length);
    ghost var header := HeaderBytes(tag, length);
    ghost var b := packet[..];
    assert b[pos..] == old(packet[pos..]);
    ok := EncodeHeader(packet, pos - size, length, tag);
    assert Spliced(packet[..], b, pos - size, header);
    Prepended(packet[..], b, pos - size, header);
  }

  /** The header of the element made of the bytes from pos to the end of the buffer. */
  method Prefix(packet: array<Byte>, pos: nat, tag: Byte) returns (ok: bool)
    requires packet.Length == MAX_PACKET_SIZE && pos <= MAX_PACKET_SIZE
    modifies packet
    ensures ok <==> HeaderSize(MAX_PACKET_SIZE - pos) <= pos
    ensures ok ==> packet[pos - HeaderSize(MAX_PACKET_SIZE - pos)..] == Sequence(tag, old(packet[pos..]))
  {
    ok := PrefixHeader(packet, pos, MAX_PACKET_SIZE - pos, tag);
  }

  /** One INTEGER in front of the bytes from pos on, if get_integer_length says it fits. */
  method PrefixInteger(packet: array<Byte>, pos: nat, v: Int32) returns (ok: bool)
    requires pos <= packet.Length
    modifies packet
    ensures ok <==> IntegerLength(v) <= pos
    ensures ok ==> packet[pos - IntegerLength(v)..] == IntegerBytes(v) + old(packet[pos..])
  {
    var length := IntegerLength(v);
    if pos < length {
      return false;
    }
    ghost var b := packet[..];
    EncodeInteger(packet, pos - length, v);
    Prepended(packet[..], b, pos - length, IntegerBytes(v));
    assert b[pos..] == old(packet[pos..]);
    return true;
  }

  /** The memmove of encode_snmp_response: the bytes from pos on, moved to the front. */
  method MoveToFront(packet: array<Byte>, pos: nat) returns (size: nat)
    requires pos <= packet.Length
    modifies packet
    ensures size == packet.Length - pos && packet[..size] == old(packet[pos..])
  {
    size := packet.Length - pos;
    if pos > 0 {
      var k := 0;
      while k < size
        invariant k <= size
        invariant packet[..k] == old(packet[pos..])[..k]
        invariant packet[pos + k..] == old(packet[pos + k..])
      {
        packet[k] := packet[pos + k];
        k := k + 1;
      }
    }
  }

  /**
   * encode_snmp_response: for an error status the bindings become the
   * requested OIDs with NULL values; the message is written as ReplyBytes
   * lays it out and client.size is its length, or the call fails and leaves
   * the size as it was. The bytes written before a failure are not stated,
   * since snmp() then returns -1 and nothing sends them.
   */
  method EncodeResponse(request: Request, response: Response, client: Client) returns (result: int)
    requires client.packet.Length == MAX_PACKET_SIZE && |request.community| < MAX_STRING_SIZE
    requires AllEncodable(response.values)
    requires response.errorStatus != SNMP_STATUS_OK ==> AllEncodable(NullBindings(request.oids))
    modifies response, client, client.packet
    ensures client.sockfd == old(client.sockfd) && client.outgoing == old(client.outgoing)
    ensures client.timestamp == old(client.timestamp) && client.addr == old(client.addr) && client.port == old(client.port)
    ensures client.packet == old(client.packet)
    ensures response.errorStatus == old(response.errorStatus) && response.errorIndex == old(response.errorIndex)
    ensures var bindings := ReplyBindings(request, response.errorStatus, old(response.values));
            && (bindings.Some? ==> response.values == bindings.value)
            && (bindings.None? ==> response.values == old(response.values))
    ensures var bytes := ReplyBytes(request, response.errorStatus, response.errorIndex, old(response.values));
            && (result == 0 <==> bytes.Some?) && (result != 0 ==> result == -1 && client.size == old(client.size))
            && (result == 0 ==> client.size == |bytes.value| && client.packet[..client.size] == bytes.value)
  {
    if response.errorStatus != SNMP_STATUS_OK {
      if |request.oids| > MAX_NR_VALUES {
        return -1;
      }
      response.values := NullBindings(request.oids);
    }
    var ok := WriteMessage(client, request.version, request.community, request.id,
                           response.errorStatus, response.errorIndex, response.values);
    result := if ok then 0 else -1;
  }
}
