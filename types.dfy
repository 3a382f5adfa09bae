/**
 * Constants, machine integer types and the data structures the agent shares
 * between its components (mini_snmpd.h).
 */
module Types {

  /* Limits of the agent (mini_snmpd.h:32-40). */
  const MAX_NR_CLIENTS: nat := 16
  const MAX_NR_OIDS: nat := 16
  const MAX_NR_SUBIDS: nat := 16
  const MAX_NR_VALUES: nat := 192
  const MAX_PACKET_SIZE: nat := 2048
  const MAX_STRING_SIZE: nat := 64

  /* BER element types (mini_snmpd.h:46-66). */
  const BER_TYPE_BOOLEAN: Byte := 0x01
  const BER_TYPE_INTEGER: Byte := 0x02
  const BER_TYPE_BIT_STRING: Byte := 0x03
  const BER_TYPE_OCTET_STRING: Byte := 0x04
  const BER_TYPE_NULL: Byte := 0x05
  const BER_TYPE_OID: Byte := 0x06
  const BER_TYPE_SEQUENCE: Byte := 0x30
  const BER_TYPE_COUNTER: Byte := 0x41
  const BER_TYPE_GAUGE: Byte := 0x42
  const BER_TYPE_TIME_TICKS: Byte := 0x43
  const BER_TYPE_NO_SUCH_OBJECT: Byte := 0x80
  const BER_TYPE_NO_SUCH_INSTANCE: Byte := 0x81
  const BER_TYPE_END_OF_MIB_VIEW: Byte := 0x82
  const BER_TYPE_SNMP_GET: Byte := 0xA0
  const BER_TYPE_SNMP_GETNEXT: Byte := 0xA1
  const BER_TYPE_SNMP_RESPONSE: Byte := 0xA2
  const BER_TYPE_SNMP_SET: Byte := 0xA3
  const BER_TYPE_SNMP_GETBULK: Byte := 0xA5
  const BER_TYPE_SNMP_INFORM: Byte := 0xA6
  const BER_TYPE_SNMP_TRAP: Byte := 0xA7
  const BER_TYPE_SNMP_REPORT: Byte := 0xA8

  /* Protocol versions and error statuses (mini_snmpd.h:68-79). */
  const SNMP_VERSION_1: int := 0
  const SNMP_VERSION_2C: int := 1
  const SNMP_STATUS_OK: int := 0
  const SNMP_STATUS_NO_SUCH_NAME: int := 2
  const SNMP_STATUS_GEN_ERR: int := 5
  const SNMP_STATUS_NO_ACCESS: int := 6

  /* Machine integers: an octet, C's unsigned int and int. */
  type Byte = x: int | 0 <= x < 0x100
  type Uint32 = x: int | 0 <= x < 0x1_0000_0000
  type Int32 = x: int | -0x8000_0000 <= x < 0x8000_0000

  /** Two's complement reinterpretation of an unsigned int as an int. */
  function ToInt32(u: Uint32): (r: Int32)
    ensures 0 <= r ==> r == u
    ensures r < 0 ==> r == u - 0x1_0000_0000
  {
    if u < 0x8000_0000 then u else u - 0x1_0000_0000
  }

  /** Two's complement reinterpretation of an int as an unsigned int. */
  function ToUint32(i: Int32): (r: Uint32)
    ensures ToInt32(r) == i
  {
    if i >= 0 then i else i + 0x1_0000_0000
  }

  datatype Option<T> = None | Some(value: T)

  /**
   * oid_t: the subidentifiers and the number of bytes the OID takes when
   * encoded as a BER element (tag, length octets and content).
   */
  datatype Oid = Oid(subids: seq<Uint32>, encodedLength: int)

  /**
   * value_t as the protocol module sees it: an OID and the encoded BER element
   * holding its data (the first encodedLength bytes of the data buffer).
   */
  datatype Value = Value(oid: Oid, data: seq<Byte>)

  /**
   * request_t after decoding: the community string (the characters before
   * its NUL), the PDU type, version and request id, the two PDU integers
   * that GETBULK reads as non-repeaters and max-repetitions (stored through
   * an int pointer into unsigned fields) and the requested OIDs.
   */
  datatype Request = Request(community: seq<Byte>, kind: Byte, version: Int32, id: Int32,
                             nonRepeaters: Uint32, maxRepetitions: Uint32, oids: seq<Oid>)

  /** response_t: the error status and index and the variable bindings to send. */
  class Response {
    var errorStatus: Int32
    var errorIndex: Int32
    var values: seq<Value>

    /** The response snmp() zeroes before handling a request. */
    constructor ()
      ensures errorStatus == SNMP_STATUS_OK && errorIndex == 0 && values == []
    {
      errorStatus := SNMP_STATUS_OK;
      errorIndex := 0;
      values := [];
    }
  }

  /** client_t: a connected client and its packet buffer. */
  class Client {
    var timestamp: int
    var sockfd: int
    var addr: int
    var port: int
    var packet: array<Byte>
    var size: nat
    var outgoing: int

    constructor (packetBuffer: array<Byte>)
      ensures packet == packetBuffer && size == 0 && outgoing == 0
    {
      packet := packetBuffer;
      size := 0;
      outgoing := 0;
      timestamp := 0;
      sockfd := 0;
      addr := 0;
      port := 0;
    }
  }
}
