/** SNMP v2c messages (RFC 3416) as bridge-core/src/snmp.rs writes and reads them. */
module SnmpMessage {
  import opened Words
  import opened Octets
  import opened Ber
  import opened Oid

  type Text64 = s: seq<byte> | |s| <= 64
  type Community = s: seq<byte> | |s| <= 32
  type Oids = s: seq<Oid> | |s| <= 8

  datatype SnmpValue =
    | Integer(i: i32)
    | OctetString(s: Text64)
    | Counter32(c: u32)
    | Gauge32(g: u32)
    | TimeTicks(t: u32)
    | Null

  datatype VarBind = VarBind(oid: Oid, value: SnmpValue)

  datatype SnmpRequest = SnmpRequest(version: i32, community: Community, requestId: i32, pduType: byte, oids: Oids)

  // ------------------------------------------------------------------ what is written

  function ValueTag(v: SnmpValue): byte {
    match v
    case Integer(_) => TAG_INTEGER
    case OctetString(_) => TAG_OCTET_STRING
    case Counter32(_) => TAG_COUNTER32
    case Gauge32(_) => TAG_GAUGE32
    case TimeTicks(_) => TAG_TIMETICKS
    case Null => TAG_NULL
  }

  function ValueContent(v: SnmpValue): (s: seq<byte>)
    ensures |s| <= 64
  {
    match v
    case Integer(i) => IntContent(i)
    case OctetString(s) => s
    case Counter32(c) => U32Content(c)
    case Gauge32(g) => U32Content(g)
    case TimeTicks(t) => U32Content(t)
    case Null => []
  }

  function IntTlv(v: i32): (s: seq<byte>)
    ensures 3 <= |s| <= 6
  {
    Tlv(TAG_INTEGER, IntContent(v))
  }

  lemma {:induction false} ContinuedLength(v: nat)
    ensures v < 0x80 ==> |Continued(v)| <= 1
    ensures v < 0x4000 ==> |Continued(v)| <= 2
    ensures v < 0x20_0000 ==> |Continued(v)| <= 3
    ensures v < 0x1000_0000 ==> |Continued(v)| <= 4
  {
    if v > 0 {
      ContinuedLength(v / 128);
      assert v < 0x80 ==> Continued(v / 128) == [];
    }
  }

  lemma Base128Length(v: u32)
    ensures |Base128(v)| <= 5
  {
    ContinuedLength(v / 128);
  }

  lemma {:induction false} ArcBytesLength(arcs: seq<u32>)
    ensures |ArcBytes(arcs)| <= 5 * |arcs|
  {
    if arcs != [] {
      ArcBytesLength(arcs[..|arcs| - 1]);
      Base128Length(arcs[|arcs| - 1]);
    }
  }

  lemma OidContentLength(oid: seq<u32>)
    requires |oid| >= 2
    ensures |OidContent(oid)| <= 5 * (|oid| - 1)
  {
    Base128Length(FirstArc(oid));
    ArcBytesLength(oid[2..]);
  }

  /** An identifier and its value, inside a binding. */
  function BindingContent(vb: VarBind): (s: seq<byte>)
    requires |vb.oid| >= 2
    ensures |s| <= 0xFF
  {
    OidContentLength(vb.oid);
    Tlv(TAG_OID, OidContent(vb.oid)) + Tlv(ValueTag(vb.value), ValueContent(vb.value))
  }

  function BindingBytes(vb: VarBind): seq<byte>
    requires |vb.oid| >= 2
  {
    Tlv(TAG_SEQUENCE, BindingContent(vb))
  }

  ghost predicate AllNamed(bindings: seq<VarBind>) {
    forall k :: 0 <= k < |bindings| ==> |bindings[k].oid| >= 2
  }

  function BindingsBytes(bindings: seq<VarBind>): seq<byte>
    requires AllNamed(bindings)
  {
    if bindings == [] then [] else
      BindingsBytes(bindings[..|bindings| - 1]) + BindingBytes(bindings[|bindings| - 1])
  }

  /** The binding list is staged in a 512-octet scratch buffer, each binding with 4 octets spare. */
  const SCRATCH := 512

  ghost predicate BindingsFit(bindings: seq<VarBind>)
    requires AllNamed(bindings)
  {
    forall k :: 0 <= k < |bindings| ==> |BindingsBytes(bindings[..k])| + 4 + |BindingContent(bindings[k])| <= SCRATCH
  }

  lemma {:induction false} BindingsLength(bindings: seq<VarBind>)
    requires AllNamed(bindings) && BindingsFit(bindings)
    ensures |BindingsBytes(bindings)| <= SCRATCH
  {
    if bindings != [] {
      var n := |bindings| - 1;
      assert |BindingsBytes(bindings[..n])| + 4 + |BindingContent(bindings[n])| <= SCRATCH;
    }
  }

  /** Everything after the community string's TLV. */
  function PduContent(id: i32, status: i32, index: i32, bindings: seq<VarBind>): (s: seq<byte>)
    requires AllNamed(bindings) && |BindingsBytes(bindings)| <= SCRATCH
    ensures |s| <= SCRATCH + 22
  {
    IntTlv(id) + IntTlv(status) + IntTlv(index) + Tlv(TAG_SEQUENCE, BindingsBytes(bindings))
  }

  function MessageContent(id: i32, community: seq<byte>, status: i32, index: i32, bindings: seq<VarBind>): seq<byte>
    requires AllNamed(bindings) && |BindingsBytes(bindings)| <= SCRATCH && |community| <= 0xFFFF
  {
    IntTlv(1) + Tlv(TAG_OCTET_STRING, community) + Tlv(TAG_GET_RESPONSE, PduContent(id, status, index, bindings))
  }

  /** What the staging buffers can hold. */
  ghost predicate Staged(id: i32, community: seq<byte>, status: i32, index: i32, bindings: seq<VarBind>) {
    && AllNamed(bindings) && BindingsFit(bindings) && |community| <= 0xFFFF
    && (BindingsLength(bindings); |MessageContent(id, community, status, index, bindings)| <= SCRATCH)
  }

  /** The whole response. */
  ghost function Response(id: i32, community: seq<byte>, status: i32, index: i32, bindings: seq<VarBind>): seq<byte>
    requires Staged(id, community, status, index, bindings)
  {
    BindingsLength(bindings);
    Tlv(TAG_SEQUENCE, MessageContent(id, community, status, index, bindings))
  }

  // ------------------------------------------------------------------ what is read

  /** A TLV with the expected tag: its content and the position after it. */
  function Field(data: seq<byte>, pos: nat, tag: byte): (r: Result<(seq<byte>, nat), DecodeError>)
    ensures r.Success? ==> pos < r.value.1 <= |data|
  {
    var t :- TlvAt(data, pos);
    if t.tag != tag then Failure(InvalidData) else Success((data[t.start..t.end], t.end))
  }

  /** The identifiers of a binding list: the loop of `decode_get_request`. */
  function RequestOids(list: seq<byte>, pos: nat, oids: Oids): Result<Oids, DecodeError>
    decreases |list| - pos
  {
    if pos >= |list| then Success(oids)
    else
      var (binding, next) :- Field(list, pos, TAG_SEQUENCE);
      var (name, _) :- Field(binding, 0, TAG_OID);
      var oid :- OidOf(name);
      if |oids| >= 8 then Failure(InvalidData) else RequestOids(list, next, oids + [oid])
  }

  /** The PDU of a request. */
  function RequestPdu(community: Community, pduType: byte, pdu: seq<byte>): Result<SnmpRequest, DecodeError> {
    var (id, a) :- Field(pdu, 0, TAG_INTEGER);
    var requestId :- IntOf(id);
    var (_, b) :- Field(pdu, a, TAG_INTEGER);
    var (_, c) :- Field(pdu, b, TAG_INTEGER);
    var (list, _) :- Field(pdu, c, TAG_SEQUENCE);
    var oids :- RequestOids(list, 0, []);
    Success(SnmpRequest(1, community, requestId, pduType, oids))
  }

  /** `decode_get_request`. */
  function RequestOf(data: seq<byte>): Result<SnmpRequest, DecodeError> {
    var (msg, _) :- Field(data, 0, TAG_SEQUENCE);
    var (ver, a) :- Field(msg, 0, TAG_INTEGER);
    var version :- IntOf(ver);
    if version != 1 then Failure(InvalidVersion)
    else
      var (community, b) :- Field(msg, a, TAG_OCTET_STRING);
      if |community| > 32 then Failure(InvalidData)
      else
        var t :- TlvAt(msg, b);
        if t.tag != TAG_GET_REQUEST && t.tag != TAG_GET_NEXT_REQUEST then Failure(InvalidData)
        else RequestPdu(community, t.tag, msg[t.start..t.end])
  }

  lemma FieldReadsBack(data: seq<byte>, pos: nat, f: LengthForm, tag: byte, content: seq<byte>)
    requires FormFits(f, |content|) && HasAt(data, pos, TlvIn(f, tag, content))
    ensures Field(data, pos, tag) == Success((content, pos + |TlvIn(f, tag, content)|))
    ensures TlvAt(data, pos).Success? && TlvAt(data, pos).value.tag == tag
  {
    TlvReadsBack(data, pos, f, tag, content);
    hide TlvAt, TlvIn, FormFits;
  }

  lemma ShortFieldReadsBack(data: seq<byte>, pos: nat, tag: byte, content: seq<byte>)
    requires |content| <= 0xFFFF && HasAt(data, pos, Tlv(tag, content))
    ensures Field(data, pos, tag) == Success((content, pos + |Tlv(tag, content)|))
    ensures TlvAt(data, pos).Success? && TlvAt(data, pos).value.tag == tag
  {
    TlvIsShortest(tag, content);
    FieldReadsBack(data, pos, ShortestForm(|content|), tag, content);
  }
}
