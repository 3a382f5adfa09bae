# mini-snmpd: a verified model of the agent core

mini-snmpd is a small SNMP agent. It answers SNMPv1 and SNMPv2c GET, GETNEXT,
GETBULK and SET requests over UDP and TCP, from a read-only MIB that it builds once
and refreshes from the system's statistics. This project models the core of the
agent in Dafny and proves properties of that model:

- the BER element codec of `protocol.c`: type and length octets, INTEGER,
  unsigned, OCTET STRING and OBJECT IDENTIFIER values, and skipping a value;
- `decode_snmp_request`, `snmp_packet_complete`, the response encoder
  (`encode_snmp_varbind`, `encode_snmp_response`, whose backwards writes keep the
  `array` and its `memmove`), and the request handlers and `snmp()`;
- the MIB table of `mib.c`: the data encoders, `data_alloc`, `data_set`,
  `oid_build`, `encode_oid_len`, the entry builders, `mib_update_entry` with its
  `*pos` cursor, `mib_find` and `mib_findnext`. The table is a class whose entries
  own their data buffers;
- `oid_cmp`, `oid_ntoa`, `oid_aton`, `split`, `read_value`, `read_values` and
  `find_oldest_client` of `utils.c`, over a model of the C library calls they use:
  `strtoul`, `strstr`, `isspace`, `strtok` and `printf`'s decimal conversions;
- the TCP side of `mini-snmpd.c`: admission of a connection into the client table,
  the read and write state machine of a client, and the compaction of the table
  after every round.

| module | file | models |
|---|---|---|
| `Types` | types.dfy | the constants of `mini_snmpd.h`, `oid_t`, `value_t`, `request_t`, `response_t`, `client_t`, and 32-bit reinterpretation |
| `CLib` | clib.dfy | `strtoul` with base 0, `strstr`, `isspace`, `"%u"`/`"%d"` printing |
| `Utils` | utils.dfy | `utils.c` |
| `Ber` | ber.dfy | the element decoders and encoders of `protocol.c` |
| `RequestDecoder` | request.dfy | `decode_snmp_request`, `snmp_packet_complete` |
| `ResponseEncoder` | response.dfy | `encode_snmp_varbind`, `encode_snmp_response` |
| `MibView` | mibview.dfy | `mib_find` and `mib_findnext` over the table as the handlers see it |
| `Agent` | agent.dfy | the handlers of `protocol.c` and `snmp()` |
| `MibData` | mibdata.dfy | `data_t`, the encoders, `data_alloc` and `data_set` of `mib.c` |
| `MibTable` | mib.dfy | the entry table of `mib.c` (class `Mib`) |
| `Clients` | clients.dfy | the TCP client table and client state machine of `mini-snmpd.c` (class `Table`) |

Integers are C's `int`, `unsigned int` and `size_t`, written out where they wrap:
`Types.Uint32` and `Types.Int32` with `ToInt32`/`ToUint32` for the casts, `% 2^32`
for the shift loops, `% 2^64` for the `size_t` bounds guard, and `ToShort` for the
`(short)` cast of `encode_oid_len`. One wrap is not carried into the state: the
`short` field `encoded_length` of `data_t` (mini_snmpd.h:160). `MibData.Data` keeps
the unwrapped length there, and `MibTable.StringLengthAsShort` states what the
`short` holds instead (see "## Left out"). The core files `protocol.c`, `mib.c` and
`utils.c` include `mini_snmpd.h`. The model takes all its constants from that header:
16 clients, 16 OIDs per request, 16 subidentifiers, 192 values, 2048-byte packets
and 64-byte strings.

Where the Findings table below records a defect, the handlers, the decoder, the
encoder and the client table of the model are built on the corrected member of that
row, and the rows of "## Model" that describe them say so. The inputs on which this
makes the model differ from the code as written are listed under "## Left out".

Parts that a C function leaves to the environment are parameters of the model. These
are the clock (`now`), the result of `accept()` (`fd`, `addr`, `port`), what `read()`
returned (`Clients.Received`), what `send()` returned (`sent`), the configured
community, and whether authentication is required (`auth`).

## Model

| member | source | states |
|---|---|---|
| Types.ToInt32 | utils.c:223-224 | reading an unsigned subidentifier as `int` keeps values below 2^31 and subtracts 2^32 from the others |
| Types.ToUint32 | mib.c:292-297 | storing an `int` column or row into an unsigned subidentifier is undone by ToInt32 |
| CLib.StrToUL | utils.c:64 | `strtoul(s, &end, 0)`: the converted value never exceeds ULONG_MAX (it saturates), and the end pointer never moves backwards or past the text |
| CLib.DecimalRoundTrip | utils.c:64 | strtoul reads back the decimal text `"%u"` prints for n, when what follows is not alphanumeric, ending right after the digits |
| CLib.StrToULPlain | utils.c:207 | at a digit with no `0x` prefix, strtoul is the digit scan in base 8 (leading 0) or 10 |
| CLib.DecimalDigits | utils.c:181 | the printed text of n is all digits and starts with `0` exactly when n is 0 |
| CLib.StrStr | utils.c:58 | strstr returns the first index where the needle occurs, and None exactly when it occurs nowhere |
| Utils.OidCmpAntisymmetric | utils.c:216-234 | oid_cmp yields -1, 0 or 1, and swapping its arguments negates the result |
| Utils.OidCmpReflexive | utils.c:216-234 | every OID compares equal to itself |
| Utils.OidCmpTransitive | utils.c:216-234 | oid_cmp is transitive as a weak and as a strict order |
| Utils.OidCmpIsLexicographic | utils.c:216-234 | for OIDs of at most 16 subidentifiers below 2^31, oid_cmp is the lexicographic order, with a proper prefix first |
| Utils.OidCmpZeroIffEqual | utils.c:216-234 | for such OIDs, oid_cmp returns 0 exactly when the subidentifier lists are equal |
| Utils.OidCmpSignedSubids | utils.c:223-225 | the `int` casts make a subidentifier 2^32-1 read as the end-of-list marker -1, so 1.3.4294967295 equals 1.3, and 1.3.2147483648 orders before 1.3 |
| Utils.OidNtoa | utils.c:172-187 | the text is `.%d` for every subidentifier, cut to the 161 characters the static buffer holds |
| Utils.NtoaTruncates | utils.c:174-184 | 16 subidentifiers of 2147483647 need 176 characters, and oid_ntoa keeps 161 of them |
| Utils.OidAton | utils.c:189-214 | the result is the OID read from the dotted text, with 2 to 16 subidentifiers whose first two fit the first BER octet, or None |
| Utils.OidAtonRejects | utils.c:196-206 | the empty text, a text not starting with `.`, the text `.` and a text ending in `.` are refused |
| Utils.NtoaAtonRoundTrip | utils.c:172-214 | oid_aton reads back what oid_ntoa prints for any OID it can accept with subidentifiers below 2^31 whose text fits the buffer |
| Utils.Split | utils.c:236-250 | split returns the number of strtok tokens of the first BUFSIZ-1 characters, capped at the list size; the list holds those tokens in order and the rest of the list is untouched |
| Utils.TokensAreTokens | utils.c:244 | every token is non-empty and holds no delimiter |
| Utils.TokensOfSpaced | utils.c:244 | strtok gives back tokens that were joined by a delimiter |
| Utils.ReadValue | utils.c:56-68 | read_value is the number after the white space that follows the first occurrence of the prefix in the buffer, or 0 when there is none |
| Utils.ReadValueAbsent | utils.c:58-66 | a prefix that does not occur gives 0 |
| Utils.ReadValueFinds | utils.c:58-64 | after the first occurrence of the prefix and some white space, a decimal number n is read as n |
| Utils.ReadValues | utils.c:70-90 | `values[0..count)` are ReadValuesSpec: the count numbers after the prefix (0 once the text is used up), or all zeros when the prefix is absent; later slots are untouched |
| Utils.ReadValuesFinds | utils.c:70-90 | when decimal numbers separated by white space follow the first occurrence of the prefix, read_values stores them in order and zeros for the slots past the last one |
| Utils.ValuesFromSpaced | utils.c:77-86 | the loop reads back, in order, the numbers printed with white space before each, then zeros once the text ends |
| Utils.ScanValues | utils.c:77-86 | the loop of read_values stores exactly the sequence of numbers ValuesFrom reads |
| Utils.ZeroValues | utils.c:88 | the memset zeroes exactly the count first slots |
| Ber.TypeLength | protocol.c:42-116 | a header is a known type octet followed by one short-form length octet or by 0x81/0x82 and one or two big-endian length octets, all inside the packet |
| Ber.TypeLengthRejects | protocol.c:42-116 | an unknown type octet (REPORT included), a missing length octet and a long-form length of more than two octets are refused |
| Ber.DecodeTypeLength | protocol.c:42-116 | the decoder on the client buffer computes TypeLength of the valid bytes |
| Ber.ValueFitsAgree | protocol.c:124 | the guard as written agrees with "the content lies within the packet" as long as the length is at most size+1 |
| Ber.ValueFitsAsWrittenWraps | protocol.c:124 | size 30, pos 20, length 0xFFFF: the `size_t` guard wraps and lets a content that ends past the packet through |
| Ber.IntegerValue | protocol.c:118-138 | an INTEGER decodes exactly when its content lies inside the packet and starts before its end, and the cursor moves past the content (with the corrected bounds check of the Findings row protocol.c:124) |
| Ber.EmptyIntegerAtEnd | protocol.c:124-125 | a zero-length INTEGER at the end of the received bytes passes the check as written and the corrected one, and the model refuses it |
| Ber.IntegerValueSigned | protocol.c:124-130 | one to four content octets decode to their two's complement value |
| Ber.DecodeInteger | protocol.c:118-138 | the loop with the sign fill computes IntegerValue, refusing a content that starts at the end of the received bytes (with the corrected bounds check of the Findings row protocol.c:124) |
| Ber.UnsignedValue | protocol.c:140-157 | an unsigned value decodes exactly when its content fits, and the cursor moves past it (with the corrected bounds check of the Findings row protocol.c:124) |
| Ber.UnsignedValueBigEndian | protocol.c:144-149 | up to four octets decode to their big-endian value |
| Ber.DecodeUnsigned | protocol.c:140-157 | the loop computes UnsignedValue (with the corrected bounds check of the Findings row protocol.c:124) |
| Ber.StringValue | protocol.c:159-173 | a string decodes exactly when it fits the packet; the value is the content up to its first NUL, shorter than the value buffer (with the corrected bounds check of the Findings row protocol.c:124) |
| Ber.SkipValue | protocol.c:242-255 | the void decoder skips exactly the content when it fits (with the corrected bounds check of the Findings row protocol.c:124) |
| Ber.OidValue | protocol.c:175-240 | a decoded OID has 2 to 16 subidentifiers, and its encoded length is the content length plus its header size (with the corrected bounds check of the Findings row protocol.c:124) |
| Ber.OidContentRejects | protocol.c:192-224 | empty content, a first octet with the high bit set and a truncated last subidentifier are refused |
| Ber.SubidsFromTooMany | protocol.c:208-215 | a subidentifier beyond the sixteenth is refused |
| Ber.DecodeOid | protocol.c:175-240 | the decoder's loops compute OidValue (with the corrected bounds check of the Findings row protocol.c:124) |
| Ber.HeaderRoundTrip | protocol.c:463-537 | the header decoder reads back every header the sequence-header encoder writes, and get_sequence_header_length is its size |
| Ber.EncodeHeader | protocol.c:520-537 | the encoder writes the header and nothing else, and fails without writing on a length above 0xFFFF |
| Ber.StringRoundTrip | protocol.c:159-173 | a NUL-free string the encoder writes is read back when the value buffer has room |
| Ber.EncodeString | protocol.c:497-518 | writes the OCTET STRING header and the characters, or fails without writing on a string longer than 0xFFFF |
| Ber.IntegerRoundTrip | protocol.c:118-138 | the integer decoder reads back every INTEGER the corrected encoder writes |
| Ber.IntegerWidthAsWrittenFlipsSign | protocol.c:436 | as written, 2^23 is encoded as 02 03 80 00 00, which reads back as -2^23 |
| Ber.IntegerWidthsAgree | protocol.c:436 | the widths as written agree with the two's complement widths exactly outside [2^23, 2^24) and [-2^24, -2^23) |
| Ber.IntegerAsWrittenReadsBack | protocol.c:476-495 | for every `int` v, the integer decoder reads back what encode_snmp_integer as written produces as v outside [2^23, 2^24) and [-2^24, -2^23), as v - 2^24 on the first range and as v + 2^24 on the second |
| Ber.EncodeInteger | protocol.c:476-495 | writes IntegerBytes(v) at the position (the corrected widths of the Findings row protocol.c:436) |
| Ber.OidContentLength | protocol.c:544-557 | the first loop of encode_snmp_oid adds up the size of the content octets |
| Ber.EncodeOid | protocol.c:539-594 | writes the OID element and succeeds exactly when its content fits two length octets; on failure only the type octet is written |
| Ber.EncodeSubid | protocol.c:573-591 | writes the base-128 octets of one subidentifier, most significant first, and returns their number |
| Ber.SubidRoundTrip | protocol.c:216-230 | the subidentifier loop of the decoder reads back the octets of one subidentifier |
| Ber.OidRoundTrip | protocol.c:175-240 | the OID decoder reads back every OID the encoder writes whose first two subidentifiers fit one octet |
| Ber.OidContentRoundTrip | protocol.c:191-232 | the content octets alone decode to the subidentifiers they were made from |
| RequestDecoder.ParseRequest | protocol.c:257-426 | an accepted request is well-formed: version 1 or 2c, a non-empty NUL-free community shorter than 64, at most 16 OIDs of 2 to 16 subidentifiers; its outer SEQUENCE spans the packet exactly (with the corrected bounds check of the Findings row protocol.c:124) |
| RequestDecoder.UnfilledValueRefused | protocol.c:242-255 | a GET of 1.3.6 with a NULL value is accepted, while the same GET whose value header is 04 82 FF FF with no content is refused by the corrected decoder although the value check as written (protocol.c:246, called at 416) lets its 0xFFFF bytes through |
| RequestDecoder.ParseVersion | protocol.c:274-290 | an accepted version field leads to a well-formed request |
| RequestDecoder.ParseCommunity | protocol.c:292-308 | an accepted community field leads to a well-formed request |
| RequestDecoder.ParsePdu | protocol.c:310-373 | an accepted PDU leads to a well-formed request |
| RequestDecoder.Binding | protocol.c:384-423 | an accepted variable binding moves the cursor forward and carries an OID of 2 to 16 subidentifiers |
| RequestDecoder.Bindings | protocol.c:375-424 | the binding list extends the earlier OIDs and holds at most 16 |
| RequestDecoder.RequestFramed | protocol.c:263-372 | every accepted request is framed: the outer SEQUENCE, then after the version and the community the PDU, then after its three INTEGER fields the binding list, a SEQUENCE; each of the three ends exactly at the end of the packet |
| RequestDecoder.PduSpans | protocol.c:310-372 | an accepted PDU spans the rest of the packet, and so does the binding-list SEQUENCE after its three INTEGER fields |
| RequestDecoder.BindingValueRule | protocol.c:406-418 | an accepted binding's value header, after its OID, is a NULL of length 0 or another type with at least one content octet, and the binding ends after that value; a value breaking that rule refuses the binding |
| RequestDecoder.DecodeRequest | protocol.c:257-426 | decode_snmp_request on a client computes ParseRequest of its valid bytes |
| RequestDecoder.DecodeBindings | protocol.c:375-424 | the binding loop computes Bindings |
| RequestDecoder.PacketCompleteAsWritten | protocol.c:987-1012 | snmp_packet_complete as written returns -1, 0 or 1 |
| RequestDecoder.PacketComplete | protocol.c:987-1012 | the corrected check returns 1 only when the outer SEQUENCE spans the packet exactly |
| RequestDecoder.PacketCompleteAgrees | protocol.c:1004-1011 | the two checks agree on every packet that holds at least the message its header announces |
| RequestDecoder.RequestIsComplete | protocol.c:987-1012 | every request that decode_snmp_request accepts and that has at least 25 bytes is complete |
| RequestDecoder.PrefixIsIncomplete | protocol.c:1004-1011 | with the corrected check, a partly arrived message is incomplete, not refused |
| RequestDecoder.PrefixRefusedAsWritten | protocol.c:1004-1011 | as written, the same partly arrived message is refused with -1 |
| RequestDecoder.TrailingBytesAreIncomplete | protocol.c:1004-1011 | bytes past a complete message make the packet incomplete, never complete |
| ResponseEncoder.MessageBytes | protocol.c:666-747 | the response message, when it can be encoded, fits the 2048-byte packet |
| ResponseEncoder.NullBindings | protocol.c:643-654 | an error response binds every requested OID, in order, to NULL |
| ResponseEncoder.ReplyBindings | protocol.c:643-654 | with status OK the bindings are the response's values; otherwise they are the OIDs with NULL, and they fail exactly when there are more than 192 |
| ResponseEncoder.WriteVarbind | protocol.c:596-632 | the binding is written just in front of the bytes already there, and fails exactly when it does not fit before the position (reserving the OID's minimal size, as corrected in the Findings row protocol.c:611) |
| ResponseEncoder.ReservedOidLength | protocol.c:611 | the room the corrected encoder reserves for an OID is the size of its minimal encoding |
| ResponseEncoder.VarbindAsWritten | protocol.c:596-632 | as written, the binding reserves the OID's `encoded_length`, and whatever is left in the reserved room stays inside the element |
| ResponseEncoder.VarbindAsWrittenMinimal | protocol.c:596-632 | when encoded_length is the size of the minimal encoding, the code as written writes the binding correctly |
| ResponseEncoder.NonMinimalOidLeavesGap | protocol.c:611 | the padded OID 1.3.1 (content 2B 80 01) decodes with encoded_length 5, and the binding as written leaves a stale byte in it |
| ResponseEncoder.WriteMessage | protocol.c:666-747 | the response of the given fields is the packet's new content exactly when it fits; on failure the size is unchanged |
| ResponseEncoder.MoveToFront | protocol.c:744-747 | the memmove puts the bytes from the position on at the front of the buffer |
| ResponseEncoder.EncodeResponse | protocol.c:634-750 | returns 0 exactly when the response can be encoded; then the packet holds it; an error status replaces the bindings by NullBindings (with the corrected integer widths and OID room of the Findings rows protocol.c:436 and protocol.c:611) |
| MibView.FindFrom | mib.c:861-874 | the search returns the first entry from the cursor on that equals or lies under the OID, or the end of the table |
| MibView.FindFromMisses | mib.c:866-871 | no entry the search passes over covers the OID |
| MibView.FindNextFrom | mib.c:877-887 | the search returns the first entry that oid_cmp orders after the OID, or the end |
| MibView.FindNextFromMisses | mib.c:880-884 | no entry passed over orders after the OID |
| MibView.FindExact | mib.c:861-874 | in a sorted table, the search for an entry's own OID finds that entry |
| MibView.FindNextIsSuccessor | mib.c:877-887 | in a sorted table, mib_findnext finds the least entry after the OID |
| MibView.SortedUnique | mib.c:861-887 | a sorted table has at most one entry per OID |
| Agent.Append | protocol.c:817-824 | a value is appended exactly when fewer than 192 are in the response, and nothing else changes |
| Agent.GetBinding | protocol.c:768-825 | GET answers the entry mib_find reports when it has the same OID; otherwise the OID with noSuchObject or noSuchInstance |
| Agent.HandleGet | protocol.c:758-829 | one lookup per requested OID, in order; an SNMPv1 miss sets noSuchName at its index; -1 when the value list overflows |
| Agent.GetAnswersAll | protocol.c:762-828 | without an SNMPv1 miss, GET answers the binding of every requested OID, in order |
| Agent.GetStopsAtFirstMissing | protocol.c:771-805 | on SNMPv1, GET stops at the first missing OID with the bindings before it |
| Agent.GetFindsEntry | protocol.c:768-825 | in a sorted table, a GET binding is found exactly when the table has an entry with that OID, and it is that entry |
| Agent.NextBinding | protocol.c:841-868 | GETNEXT answers the entry mib_findnext reports, which orders after the OID, or the OID with endOfMibView |
| Agent.HandleGetNext | protocol.c:831-872 | one successor lookup per requested OID, in order; an SNMPv1 end of the MIB sets noSuchName at its index |
| Agent.GetNextAnswersAll | protocol.c:835-871 | without an SNMPv1 end, GETNEXT answers the successor binding of every requested OID, in order |
| Agent.GetNextStopsAtEnd | protocol.c:844-848 | on SNMPv1, GETNEXT stops at the first OID without a successor |
| Agent.NextIsSuccessor | protocol.c:841-868 | in a sorted table, the GETNEXT binding is the least entry after the OID, or endOfMibView when there is none |
| Agent.RoundFrom | protocol.c:944-972 | a round of the repeaters keeps the earlier values and adds one value per repeater |
| Agent.RoundIsNext | protocol.c:944-972 | a round that has room adds the successor of every repeater, moves each repeater to it, and counts a hit exactly when some repeater had a successor |
| Agent.RepeatBound | protocol.c:943-976 | the repetitions keep the earlier values and add at most one value per repeater per round |
| Agent.BulkBound | protocol.c:882-979 | a GETBULK answer starts with the GETNEXT bindings of the non-repeaters and holds at most max-repetitions values per repeater after them |
| Agent.BulkFirstRound | protocol.c:903-976 | with max-repetitions above 0, the answer starts with the GETNEXT bindings of every requested OID |
| Agent.Clamp | protocol.c:896-901 | the non-repeaters and max-repetitions fields as RFC 3416 (section 4.2.3) reads them: signed, with negative values taken as 0 |
| Agent.GetBulkAsWritten | protocol.c:882-979 | as written, the handler agrees with the clamped one whenever both fields are below 2^31 |
| Agent.NegativeRepetitionsRepeat | protocol.c:896-901 | as written, max-repetitions 0xFFFFFFFF (-1) runs the repeaters, where the clamped handler returns nothing |
| Agent.HandleGetBulk | protocol.c:882-979 | the handler with the clamps in effect: the response holds the GETBULK answer, or -1 on overflow |
| Agent.NonRepeaters | protocol.c:903-932 | the first loop answers GETNEXT for the first non-repeaters OIDs |
| Agent.Repetitions | protocol.c:943-976 | the second loop runs the rounds of the repeaters |
| Agent.Round | protocol.c:944-975 | one round adds the successor of every repeater and moves the repeaters along |
| Agent.Repeater | protocol.c:946-971 | one repeater adds its successor binding or endOfMibView, and overflows exactly when the list is full |
| Agent.HandleSet | protocol.c:874-880 | SET changes no value and answers noSuchName on SNMPv1 and noAccess on SNMPv2c, at index 0 |
| Agent.BulkEncodable | protocol.c:882-979 | every GETBULK answer over an encodable MIB can be encoded |
| Agent.HandledReaction | protocol.c:1045-1069 | a handler that fails aborts snmp(); otherwise its values are sent |
| Agent.React | protocol.c:1045-1069 | snmp() has a handler exactly for GET, GETNEXT, SET and GETBULK, and every answer can be encoded |
| Agent.Encoded | protocol.c:1071-1077 | an admitted request is always answered or fails, never ignored |
| Agent.Reply | protocol.c:1031-1077 | a decoded request is ignored exactly when it is admitted and its PDU type has no handler |
| Agent.Respond | protocol.c:1014-1078 | a packet that does not decode fails; one is ignored exactly when it decodes, is admitted and has no handler |
| Agent.Dispatch | protocol.c:1045-1069 | the switch runs the handler of the PDU type and leaves the answer React describes |
| Agent.Finish | protocol.c:1071-1077 | the label done encodes the response into the packet, and -1 exactly when encoding fails |
| Agent.Serve | protocol.c:1031-1077 | after decoding, the client's packet holds the reply to the request, is emptied for an ignored one, and -1 exactly when the reply fails |
| Agent.Snmp | protocol.c:1014-1078 | snmp() leaves in the client's packet the answer to its old content, or an empty packet when it is ignored, and -1 exactly when that fails |
| Agent.RefusalRevealsNothing | protocol.c:1031-1042 | a refused request is answered noAccess (v2c) or genErr (v1) with no values, whatever the MIB holds |
| Agent.ErrorAnswerIsNull | protocol.c:643-654 | an error answer does not depend on the values the handler collected, and binds every OID to NULL |
| Agent.SetIsReadOnly | protocol.c:874-880 | an admitted SET gets an answer that does not depend on the MIB |
| Agent.GetAnswer | protocol.c:758-829 | an admitted SNMPv2c GET is answered with the GET binding of every requested OID, in order |
| Agent.GetNextAnswer | protocol.c:831-872 | an admitted SNMPv2c GETNEXT is answered with the successor binding of every requested OID, in order |
| Agent.GetMissingAnswer | protocol.c:771-805 | an SNMPv1 GET with a missing OID is answered noSuchName at its index with NULL bindings |
| MibData.Data.Bytes | mib.c:396-421 | the first encoded_length bytes of the data buffer |
| MibData.EncodeInteger | mib.c:64-87 | the data holds the INTEGER in the fewest two's complement octets |
| MibData.EncodeString | mib.c:89-129 | a NULL string fails with 2; a buffer too small grows to the length plus 4; the data holds the OCTET STRING, or -1 for a string longer than 0xFFFF |
| MibData.EncodeOid | mib.c:131-193 | a NULL OID fails with 2; the data holds the OID element, or -1 when its content does not fit two length octets |
| MibData.UnsignedBytes | mib.c:195-218 | the encoder keeps the octets up to the highest non-zero one |
| MibData.EncodeUnsigned | mib.c:195-218 | the data holds the COUNTER, GAUGE or TIME_TICKS value |
| MibData.UnsignedRoundTrip | mib.c:195-218 | the unsigned decoder reads back every value encode_unsigned writes, and the first octet is zero only for a one-octet encoding |
| MibData.DataAlloc | mib.c:346-388 | a known type gets a fresh buffer of its capacity holding an empty placeholder of that type; an unknown type fails with -1 and leaves the data |
| MibData.PlaceholderDecodes | mib.c:346-388 | the placeholder reads as an element of its type with empty content |
| MibData.Encoding | mib.c:396-421 | data_set fails with 1 exactly for an unknown type; its other failures are 2 and -1 |
| MibData.DataSet | mib.c:396-421 | the data holds the encoding of the argument, or the failure code with the buffer zeroed and encoded_length kept |
| MibData.EncodingDecodes | mib.c:396-421 | each stored encoding reads back as its argument with the protocol decoders |
| MibTable.OidBuild | mib.c:284-299 | oid_build returns 0 or -1 and keeps the prefix's encoded_length |
| MibTable.OidBuildAppends | mib.c:284-299 | oid_build succeeds exactly when the prefix has room for two more subidentifiers, and appends the column and the row; the result always lies under the prefix |
| MibTable.StringLengthAsShort | mib.c:126 | the `short` encoded_length (mini_snmpd.h:160) equals the size encode_string wrote exactly for strings of at most 0x7FFB characters; longer ones lose 0x10000, which is negative up to 0xFFFB characters |
| MibTable.StringLengthWraps | mib.c:126 | a string of 40000 characters leaves encoded_length at -25532 |
| MibTable.EncodeOidLen | mib.c:305-339 | the stored length is the size of the OID's BER element, or -1 when its content needs more than two length octets |
| MibTable.RowsAscend | mib.c:423-433 | two rows of one column of a prefix are built in ascending oid_cmp order and lie under the prefix |
| MibTable.RowOidsSorted | mib.c:423-433 | the OIDs mib_build_entries adds are in strictly ascending oid_cmp order |
| MibTable.Mib.Values | mib.c:861-887 | the table as the handlers read it: each entry's OID and encoded value |
| MibTable.Mib.AllocEntry | mib.c:220-250 | a full table refuses; otherwise an entry with oid_build's OID is appended, and it gets a placeholder exactly when the prefix has room and the type is known |
| MibTable.Mib.BuildEntries | mib.c:423-433 | succeeds exactly when the range is empty or every row fits the table; then the rows from first to last are appended in order |
| MibTable.Mib.Find | mib.c:861-874 | the search from the cursor is FindFrom over Values, and reports whether it found an entry |
| MibTable.Mib.FindNext | mib.c:877-887 | the search is MibView.FindNext over Values |
| MibTable.Mib.SetValue | mib.c:265-281 | one entry's data becomes the encoding of the argument, or on -1 its buffer is zeroed and its encoded_length kept; no other entry changes |
| MibTable.Mib.BuildEntry | mib.c:254-263 | a new entry holds the argument's encoding; 0 exactly when the table has room, the prefix has room and the argument encodes |
| MibTable.Mib.UpdateEntry | mib.c:435-457 | the cursor moves to the entry FindFrom finds from it; that entry's data becomes the new encoding (or is zeroed with its encoded_length kept when the value does not encode), all others stay; -1 when the build fails or no entry matches |
| MibTable.CursorResume | mib.c:435-457 | in a sorted table, resuming the search at the last updated entry finds what a search from the start finds, for any later OID |
| MibTable.FindFromSkips | mib.c:866-871 | a search that starts before entries that do not match finds what a search after them finds |
| Clients.OldestIsFirstMinimum | utils.c:252-267 | the corrected search returns the first client with the smallest timestamp below LONG_MAX, or -1 exactly when there is none |
| Clients.OldestAsWritten | utils.c:266 | as written, the function returns the client at index `i`, which is the list length, whenever it found one |
| Clients.OldestAsWrittenOverruns | utils.c:266 | with a full table of 16 clients, the code as written returns slot 16, past the array, while the oldest is in slots 0 to 15 |
| Clients.Table.FindOldestClient | utils.c:252-267 | the loop returns the index of the first oldest client, or -1 |
| Clients.Table.Connect | mini-snmpd.c:145-201 | a failed accept or a descriptor beyond FD_SETSIZE is refused; a full table replaces the oldest client, or exits when there is none; otherwise a fresh client is appended; the new client holds the descriptor, address, port and time with an empty packet (the oldest client found by the corrected search of the Findings row utils.c:266) |
| Clients.Table.Compact | mini-snmpd.c:759-776 | the table keeps exactly its open clients, in their order, and shrinks by the number of closed ones |
| Clients.OpenRemove | mini-snmpd.c:762-774 | taking out a closed client leaves the open clients as they were |
| Clients.OpenLength | mini-snmpd.c:759-776 | the open clients number the table length less the closed ones |
| Clients.OpenMembers | mini-snmpd.c:759-776 | every client kept is one of the table's clients with an open descriptor |
| Clients.HandleRead | mini-snmpd.c:239-298 | an error or end of file closes the client; otherwise the bytes are appended and the time noted; a refused packet closes it, an incomplete one waits, and a complete one is answered by snmp(): the client then sends, or is closed when there is nothing to send (with the corrected completeness check of the Findings row protocol.c:1004-1011, and HandleRead's requires that the MIB values be encodable) |
| Clients.HandleWrite | mini-snmpd.c:204-236 | a send of the whole packet returns the client to reading; an error or a short send closes it |

## Left out

- The UDP path (`handle_udp_client`, mini-snmpd.c:89-142) is not modelled. `snmp()` itself is modelled, and UDP is only another transport for it.
- The `select()` loop of `main` (mini-snmpd.c:749-757) is not modelled. The model has the handlers it calls, one client at a time: Connect, HandleRead, HandleWrite and then Compact.
- Sockets, `accept`, `read`, `send`, `close`, `free` and the clock are not modelled. Their results are parameters, so closing a descriptor, freeing a client and the memory a removed client leaks are not modelled.
- Allocation failure of `malloc`, `calloc`, `realloc` and `strdup` is not modelled. Every allocation succeeds.
- `mib_build` and `mib_update` (mib.c:485-858) are not modelled in full. They call `gethostname`, the system collectors and the configuration, and are left out for that reason. The model keeps what they rely on: entries appended in ascending order (RowOidsSorted) and the `*pos` cursor of repeated updates (CursorResume).
- The collectors of linux.c and freebsd.c, linux_ethtool.c, conf.c, globals.c and the Java relay are not modelled. They are outside the agent core.
- mini_snmpd.c is not modelled. It is an older copy of the daemon.
- `read_file`, `ticks_since`, the `dump_*` functions, `get_demoinfo` and `snmp_element_as_string` are not modelled. They depend on files, the clock or logging, and nothing in the core depends on them.
- The compile-time constants differ between headers. mini-snmpd.c includes mini-snmpd.h, whose OID, subidentifier and value limits (20, 20, 2048) differ from those of mini_snmpd.h used by the other core files. The model uses one set, mini_snmpd.h's.
- Two revisions of the MIB lookup are present. protocol.c calls an index-returning `mib_find`, while mib.c returns a pointer. Both are modelled by MibView's index over the table, with the end of the table standing for "not found". The handlers' `return -1` for a lookup that reports -1 (protocol.c:769, 842, 909, 947) has no counterpart, because the modelled lookup always returns an index.
- `decode_snmp_request` stores version, id and error fields through `int *` into fields the header declares unsigned. The model keeps the decoded `int` for version and id. It keeps non-repeaters and max-repetitions as unsigned, as they are declared.
- Logging (`lprintf`, `logit`) and `errno` are not modelled. Neither changes the result of any modelled function.
- Text and strings hold no NUL before their end. The model's strings are the characters before the terminating NUL.
- MibData.EncodeUnsigned: like encode_unsigned, it writes no leading zero before a value whose first octet has the high bit set. Such a COUNTER, GAUGE or TIME_TICKS value is read back unsigned by this agent's decoder. A two's complement reader would read it as negative.
- Ber.OidRoundTrip: proved for OIDs whose first two subidentifiers give one first octet below 0x80 (`s[0] * 40 + s[1] < 0x80`). The decoder refuses a first octet with the high bit set, which encode_snmp_oid writes for larger first subidentifiers.
- Utils.NtoaAtonRoundTrip: proved for subidentifiers below 2^31. `"%d"` prints larger ones as negative numbers, which `strtoul` reads back modulo 2^32.
- Ber.IntegerValue: a zero-length INTEGER starting at the end of the received bytes passes the C check (protocol.c:124), and the sign fill (protocol.c:125) then reads `packet[size]`, a stale byte or one past the 2048-byte buffer, giving 0 or -1. The model, and Ber.DecodeInteger with it, refuses such an INTEGER (Ber.EmptyIntegerAtEnd) rather than modelling that read. No request is affected: in decode_snmp_request another element always follows an INTEGER, and decoding it at the end of the bytes fails.
- MibData.EncodeString: for strings of 0x7FFC to 0xFFFF characters, encode_string stores a size above 0x7FFF in the `short` encoded_length (mib.c:126), which wraps to a negative value up to 0xFFFB characters and to 0 to 3 beyond. encode_snmp_varbind (protocol.c:601-604) then copies a negative or truncated length. The model stores the unwrapped size, and MibTable.StringLengthAsShort states the wrap. ResponseEncoder.Encodable requires every MIB value to be at most 0x7FFF bytes, so Agent.Respond, Agent.Snmp and Clients.HandleRead say nothing about a MIB holding such a string.
- The model runs on the corrected members of the Findings table, so it answers differently from the code as written on these inputs:
  (a) a request whose last binding value announces more bytes than arrived, such as the header 04 82 FF FF with no content (RequestDecoder.UnfilledValueRefused), is answered by the code and refused by the model;
  (b) a 40-byte request that arrives over TCP as 30 and then 10 bytes makes the code close the connection after the first read, while Clients.HandleRead waits for the rest;
  (c) a response carrying the request id 2^23 is written by the code as 02 03 80 00 00 and by ResponseEncoder.EncodeResponse as 02 04 00 80 00 00;
  (d) a full client table makes the code take slot 16, past the array, while Clients.Table.Connect replaces the oldest client that FindOldestClient returns;
  (e) a request OID received in a non-minimal encoding is answered with its minimal encoding, without the stale byte the code leaves.
- Agent.GetBulkAsWritten: its requires excludes a non-repeaters field of 2^31 or more together with a max-repetitions above 0. There the repetition loop starts `i` at the non-repeaters read as a negative `int` and reads `oid_list[i]` (protocol.c:943-946), which is undefined behaviour in C, so there is no as-written result to state.
- RequestDecoder.ParseRequest: its own contract states well-formedness and the outer SEQUENCE only. The framing of the PDU and of the binding list is stated by RequestFramed and PduSpans. The NULL rule for values is stated for each binding by BindingValueRule, not lifted to a whole request.
- RequestDecoder.PacketCompleteAsWritten: its contract states only the range of the result. Its relation to the corrected check is stated by PacketCompleteAgrees and PrefixRefusedAsWritten.

## Findings

| source | as written | input that shows it | evidently intended | confidence | as-written member | corrected member |
|---|---|---|---|---|---|---|
| protocol.c:124 | the bounds guard `*pos < (size - length + 1)` is computed in `size_t`, and it wraps when the length exceeds size+1 (the same guard is at 144, 163, 179 and 246) | a packet of 30 bytes, content at position 20 with length 0xFFFF passes the guard | accept the content only when `pos + length <= size` | not executed | Ber.ValueFitsAsWrittenWraps | Ber.ValueFitsAgree |
| protocol.c:436 | get_integer_length and encode_snmp_integer (480) use 3 octets up to 2^24-1 and from -2^24 | 8388608 (2^23) is written as 02 03 80 00 00, which decodes to -8388608 | the two's complement widths, with 3 octets for [-2^23, 2^23) | not executed | Ber.IntegerWidthAsWrittenFlipsSign | Ber.IntegerRoundTrip |
| protocol.c:896-901 | the clamps `if (non_repeaters < 0)` and `if (max_repetitions < 0)` test unsigned fields and never fire | a GETBULK whose max-repetitions is 0xFFFFFFFF (-1) runs the repetitions | negative fields are taken as 0 (RFC 3416 section 4.2.3) | not executed | Agent.NegativeRepetitionsRepeat | Agent.HandleGetBulk |
| utils.c:266 | find_oldest_client returns `g_tcp_client_list[i]`, where `i` is the list length after the loop | a full table of 16 clients returns slot 16, past the array | return `g_tcp_client_list[pos]` | not executed | Clients.OldestAsWrittenOverruns | Clients.Table.FindOldestClient |
| protocol.c:1004-1011 | snmp_packet_complete returns -1 when the message is longer than the bytes received, so the connection is closed | a message of which at least 25 bytes, but not all, have arrived is refused | return 0 (wait for more) for a message not yet fully arrived | not executed | RequestDecoder.PrefixRefusedAsWritten | RequestDecoder.PrefixIsIncomplete |
| protocol.c:611 | encode_snmp_varbind reserves the OID's `encoded_length` (also at 621), which the decoder (179-190) derives from the wire, while encode_snmp_oid writes the minimal encoding | the OID 1.3.1 received as content 2B 80 01 has encoded_length 5, and its minimal encoding takes 4, so one stale byte stays inside the binding | reserve the size of the OID's minimal encoding | not executed | ResponseEncoder.NonMinimalOidLeavesGap | ResponseEncoder.ReservedOidLength |
