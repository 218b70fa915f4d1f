/** The identifier octets of an SNMP message by the standards that assign them. */
module SnmpTags {
  import opened Words

  /** Class, and whether the content is itself encoded (X.690 section 8.1.2). */
  const UNIVERSAL := 0x00
  const APPLICATION := 0x40
  const CONTEXT := 0x80
  const CONSTRUCTED := 0x20

  /** X.680 section 8.4. */
  const INTEGER_TYPE: byte := UNIVERSAL + 2
  const OCTET_STRING_TYPE: byte := UNIVERSAL + 4
  const NULL_TYPE: byte := UNIVERSAL + 5
  const OID_TYPE: byte := UNIVERSAL + 6
  const SEQUENCE_TYPE: byte := UNIVERSAL + CONSTRUCTED + 16

  /** RFC 2578 section 2. */
  const COUNTER32_TYPE: byte := APPLICATION + 1
  const GAUGE32_TYPE: byte := APPLICATION + 2
  const TIMETICKS_TYPE: byte := APPLICATION + 3

  /** RFC 3416 section 3. */
  const GET_REQUEST_PDU: byte := CONTEXT + CONSTRUCTED + 0
  const GET_NEXT_REQUEST_PDU: byte := CONTEXT + CONSTRUCTED + 1
  const RESPONSE_PDU: byte := CONTEXT + CONSTRUCTED + 2
}
