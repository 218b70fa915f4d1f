/** Reading a GetResponse back with the codec's own decoders. */
module SnmpResponses {
  import opened Words
  import opened Octets
  import opened Ber
  import opened Oid
  import opened SnmpMessage
  import opened SnmpTags
  import opened SnmpTheorems

  datatype ResponseFields = ResponseFields(
    version: i32, community: seq<byte>, requestId: i32, status: i32, index: i32, bindings: seq<VarBind>)

  /** A value by its tag, with `decode_integer` or `decode_u32`. */
  function ReadValue(data: seq<byte>, pos: nat): Result<SnmpValue, DecodeError> {
    var t :- TlvAt(data, pos);
    var content := data[t.start..t.end];
    if t.tag == INTEGER_TYPE then var i :- IntOf(content); Success(Integer(i))
    else if t.tag == OCTET_STRING_TYPE && |content| <= 64 then Success(OctetString(content))
    else if t.tag == COUNTER32_TYPE then var c :- U32Of(content); Success(Counter32(c))
    else if t.tag == GAUGE32_TYPE then var g :- U32Of(content); Success(Gauge32(g))
    else if t.tag == TIMETICKS_TYPE then var ticks :- U32Of(content); Success(TimeTicks(ticks))
    else if t.tag == NULL_TYPE then Success(Null)
    else Failure(InvalidData)
  }

  function ReadBinding(content: seq<byte>): Result<VarBind, DecodeError> {
    var (name, end) :- Field(content, 0, OID_TYPE);
    var oid :- OidOf(name);
    var value :- ReadValue(content, end);
    Success(VarBind(oid, value))
  }

  function ReadBindings(list: seq<byte>, pos: nat, bindings: seq<VarBind>): Result<seq<VarBind>, DecodeError>
    decreases |list| - pos
  {
    if pos >= |list| then Success(bindings)
    else
      var (content, next) :- Field(list, pos, SEQUENCE_TYPE);
      var binding :- ReadBinding(content);
      ReadBindings(list, next, bindings + [binding])
  }

  function ReadPdu(community: seq<byte>, pdu: seq<byte>): Result<ResponseFields, DecodeError> {
    var (id, a) :- Field(pdu, 0, INTEGER_TYPE);
    var requestId :- IntOf(id);
    var (st, b) :- Field(pdu, a, INTEGER_TYPE);
    var status :- IntOf(st);
    var (ix, c) :- Field(pdu, b, INTEGER_TYPE);
    var index :- IntOf(ix);
    var (list, _) :- Field(pdu, c, SEQUENCE_TYPE);
    var bindings :- ReadBindings(list, 0, []);
    Success(ResponseFields(1, community, requestId, status, index, bindings))
  }

  function ReadResponse(data: seq<byte>): Result<ResponseFields, DecodeError> {
    var (msg, _) :- Field(data, 0, SEQUENCE_TYPE);
    var (ver, a) :- Field(msg, 0, INTEGER_TYPE);
    var version :- IntOf(ver);
    var (community, b) :- Field(msg, a, OCTET_STRING_TYPE);
    var (pdu, _) :- Field(msg, b, RESPONSE_PDU);
    var fields :- ReadPdu(community, pdu);
    Success(fields.(version := version))
  }

  lemma ValueReadsBack(data: seq<byte>, pos: nat, v: SnmpValue)
    requires HasAt(data, pos, Tlv(ValueTag(v), ValueContent(v)))
    ensures ReadValue(data, pos) == Success(v)
  {
    hide TlvAt, Tlv, HasAt, IntContent, U32Content, IntOf, U32Of;
    ShortFieldReadsBack(data, pos, ValueTag(v), ValueContent(v));
    FieldSpan(data, pos, ValueTag(v));
    match v
    case Integer(i) => IntReadsBack(i);
    case OctetString(_) =>
    case Counter32(c) => U32ReadsBack(c);
    case Gauge32(g) => U32ReadsBack(g);
    case TimeTicks(t) => U32ReadsBack(t);
    case Null =>
  }

  lemma BindingReadsBack(vb: VarBind)
    requires Carried(vb.oid)
    ensures ReadBinding(BindingContent(vb)) == Success(vb)
  {
    var content := BindingContent(vb);
    OidContentLength(vb.oid);
    var name, value := Tlv(OID_TYPE, OidContent(vb.oid)), Tlv(ValueTag(vb.value), ValueContent(vb.value));
    HasFront(name, value);
    hide Tlv, HasAt, OidContent, OidOf, Field, ReadValue, ValueContent, ValueTag, Carried;
    ShortFieldReadsBack(content, 0, OID_TYPE, OidContent(vb.oid));
    CarriedReadsBack(vb.oid);
    ValueReadsBack(content, |name|, vb.value);
  }

  ghost predicate AllCarried(bindings: seq<VarBind>) {
    forall k :: 0 <= k < |bindings| ==> Carried(bindings[k].oid)
  }

  lemma CarriedAreNamed(bindings: seq<VarBind>)
    requires AllCarried(bindings)
    ensures AllNamed(bindings)
  {
    forall k | 0 <= k < |bindings|
      ensures |bindings[k].oid| >= 2
    {
      assert Carried(bindings[k].oid);
    }
  }

  lemma NextBinding(list: seq<byte>, pos: nat, before: seq<VarBind>, vb: VarBind)
    requires pos < |list| && Carried(vb.oid) && HasAt(list, pos, BindingBytes(vb))
    ensures ReadBindings(list, pos, before) == ReadBindings(list, pos + |BindingBytes(vb)|, before + [vb])
  {
    hide *;
    CarriedIsNamed(vb.oid);
    BindingReadsBack(vb);
    BindingIsTlv(vb);
    ShortFieldReadsBack(list, pos, SEQUENCE_TYPE, BindingContent(vb));
    StepBindings(list, pos, before, BindingContent(vb), pos + |BindingBytes(vb)|, vb);
  }

  lemma CarriedIsNamed(oid: Oid)
    requires Carried(oid)
    ensures |oid| >= 2
  {
  }

  lemma BindingIsTlv(vb: VarBind)
    requires |vb.oid| >= 2
    ensures BindingBytes(vb) == Tlv(SEQUENCE_TYPE, BindingContent(vb))
  {
  }

  lemma StepBindings(list: seq<byte>, pos: nat, before: seq<VarBind>, content: seq<byte>, next: nat, vb: VarBind)
    requires pos < |list| && Field(list, pos, SEQUENCE_TYPE) == Success((content, next))
    requires ReadBinding(content) == Success(vb)
    ensures ReadBindings(list, pos, before) == ReadBindings(list, next, before + [vb])
  {
    hide Field, ReadBinding;
  }

  /** Reading the first `k` bindings of a list. */
  lemma {:induction false} BindingsReadBack(list: seq<byte>, bindings: seq<VarBind>, k: nat)
    requires k <= |bindings| && AllCarried(bindings) && AllNamed(bindings) && list == BindingsBytes(bindings)
    ensures AllNamed(bindings[..k]) && HasAt(list, 0, BindingsBytes(bindings[..k]))
    ensures ReadBindings(list, 0, []) == ReadBindings(list, |BindingsBytes(bindings[..k])|, bindings[..k])
  {
    hide ReadBindings, HasAt, BindingBytes;
    if k == 0 {
      assert BindingsBytes(bindings[..0]) == [];
      HasNothing(list);
    } else {
      BindingsReadBack(list, bindings, k - 1);
      var upTo, before := BindingsBytes(bindings[..k]), BindingsBytes(bindings[..k - 1]);
      assert bindings[..k][..k - 1] == bindings[..k - 1];
      assert upTo == before + BindingBytes(bindings[k - 1]);
      BindingsPrefix(bindings, k);
      HasConcat(list, 0, before, BindingBytes(bindings[k - 1]));
      HasFits(list, |before|, BindingBytes(bindings[k - 1]));
      BindingNotEmpty(bindings[k - 1]);
      NextBinding(list, |before|, bindings[..k - 1], bindings[k - 1]);
      assert bindings[..k - 1] + [bindings[k - 1]] == bindings[..k];
    }
  }

  lemma HasNothing(list: seq<byte>)
    ensures HasAt(list, 0, [])
  {
  }

  lemma BindingNotEmpty(vb: VarBind)
    requires |vb.oid| >= 2
    ensures BindingBytes(vb) != []
  {
  }

  lemma {:induction false} BindingsPrefix(bindings: seq<VarBind>, k: nat)
    requires k <= |bindings| && AllNamed(bindings)
    ensures HasAt(BindingsBytes(bindings), 0, BindingsBytes(bindings[..k]))
  {
    hide HasAt, BindingBytes;
    var n := |bindings|;
    if k == n {
      assert bindings[..k] == bindings;
      HasWhole(BindingsBytes(bindings));
    } else {
      var most := bindings[..n - 1];
      BindingsPrefix(most, k);
      assert most[..k] == bindings[..k];
      HasFront(BindingsBytes(most), BindingBytes(bindings[n - 1]));
      HasWithin(BindingsBytes(bindings), BindingsBytes(most), BindingsBytes(bindings[..k]));
    }
  }

  lemma HasWithin(data: seq<byte>, x: seq<byte>, y: seq<byte>)
    requires HasAt(data, 0, x) && HasAt(x, 0, y)
    ensures HasAt(data, 0, y)
  {
    assert data[..|y|] == data[..|x|][..|y|];
  }

  lemma WholeListReadsBack(bindings: seq<VarBind>)
    requires AllCarried(bindings) && AllNamed(bindings)
    ensures ReadBindings(BindingsBytes(bindings), 0, []) == Success(bindings)
  {
    BindingsReadBack(BindingsBytes(bindings), bindings, |bindings|);
    assert bindings[..|bindings|] == bindings;
  }

  lemma PduFieldsReadBack(community: seq<byte>, id: i32, status: i32, index: i32, bindings: seq<VarBind>)
    requires AllNamed(bindings) && AllCarried(bindings) && |BindingsBytes(bindings)| <= SCRATCH
    ensures ReadPdu(community, PduContent(id, status, index, bindings)) ==
            Success(ResponseFields(1, community, id, status, index, bindings))
  {
    hide Tlv, HasAt, IntContent, IntOf, Field, BindingsBytes, ReadBindings, Carried, IntTlv, PduContent;
    var data, list := PduContent(id, status, index, bindings), BindingsBytes(bindings);
    var a, b, c, d := IntTlv(id), IntTlv(status), IntTlv(index), Tlv(SEQUENCE_TYPE, list);
    PduParts(id, status, index, bindings);
    FiveParts(a, b, c, d, []);
    IntFieldReadsBack(data, 0, id);
    IntFieldReadsBack(data, |a|, status);
    IntFieldReadsBack(data, |a| + |b|, index);
    ShortFieldReadsBack(data, |a| + |b| + |c|, SEQUENCE_TYPE, list);
    WholeListReadsBack(bindings);
  }

  lemma PduParts(id: i32, status: i32, index: i32, bindings: seq<VarBind>)
    requires AllNamed(bindings) && |BindingsBytes(bindings)| <= SCRATCH
    ensures PduContent(id, status, index, bindings)
            == IntTlv(id) + IntTlv(status) + IntTlv(index) + Tlv(SEQUENCE_TYPE, BindingsBytes(bindings)) + []
  {
    hide IntTlv, Tlv, BindingsBytes;
  }

  lemma IntFieldReadsBack(data: seq<byte>, pos: nat, v: i32)
    requires HasAt(data, pos, IntTlv(v))
    ensures var r := Field(data, pos, INTEGER_TYPE);
            r.Success? && IntOf(r.value.0) == Success(v) && r.value.1 == pos + |IntTlv(v)|
  {
    hide Tlv, HasAt, IntContent, IntOf, Field;
    ShortFieldReadsBack(data, pos, INTEGER_TYPE, IntContent(v));
    IntReadsBack(v);
  }

  /** Every response that is written reads back, field by field and binding by binding, whatever
      follows it in the buffer. */
  lemma ResponseReadsBack(id: i32, community: seq<byte>, status: i32, index: i32, bindings: seq<VarBind>,
                          rest: seq<byte>)
    requires Staged(id, community, status, index, bindings) && AllCarried(bindings)
    ensures ReadResponse(Response(id, community, status, index, bindings) + rest) ==
            Success(ResponseFields(1, community, id, status, index, bindings))
  {
    hide Tlv, HasAt, IntContent, IntOf, Field, BindingsBytes, ReadPdu, PduContent, Carried, BindingsFit;
    BindingsLength(bindings);
    var msg := MessageContent(id, community, status, index, bindings);
    var pdu, whole := PduContent(id, status, index, bindings), Tlv(SEQUENCE_TYPE, msg);
    var data := whole + rest;
    HasFront(whole, rest);
    var a, b, c := IntTlv(1), Tlv(OCTET_STRING_TYPE, community), Tlv(RESPONSE_PDU, pdu);
    assert msg == a + b + c + [];
    hide MessageContent;
    MessageParts(a, b, c, []);
    ShortFieldReadsBack(data, 0, SEQUENCE_TYPE, msg);
    ShortFieldReadsBack(msg, 0, INTEGER_TYPE, IntContent(1));
    ShortFieldReadsBack(msg, |a|, OCTET_STRING_TYPE, community);
    ShortFieldReadsBack(msg, |a| + |b|, RESPONSE_PDU, pdu);
    IntReadsBack(1);
    PduFieldsReadBack(community, id, status, index, bindings);
  }

  // ------------------------------------------------------------------ how large a response can be

  /** The octets of a tag, a length in its shortest form, and so much content. */
  function TlvSize(n: nat): nat {
    n + if n < 0x80 then 2 else if n < 0x100 then 3 else 4
  }

  function SizeOfBinding(vb: VarBind): nat
    requires |vb.oid| >= 2
  {
    OidContentLength(vb.oid);
    TlvSize(|OidContent(vb.oid)|) + TlvSize(|ValueContent(vb.value)|)
  }

  function SizeOfList(bindings: seq<VarBind>): nat
    requires AllNamed(bindings)
  {
    if bindings == [] then 0 else
      SizeOfList(bindings[..|bindings| - 1]) + TlvSize(SizeOfBinding(bindings[|bindings| - 1]))
  }

  lemma {:induction false} SizeOfListIs(bindings: seq<VarBind>)
    requires AllNamed(bindings)
    ensures |BindingsBytes(bindings)| == SizeOfList(bindings)
  {
    hide TlvSize, SizeOfBinding, BindingBytes;
    if bindings != [] {
      var n := |bindings| - 1;
      SizeOfListIs(bindings[..n]);
      SizeOfBindingIs(bindings[n]);
    }
  }

  lemma SizeOfBindingIs(vb: VarBind)
    requires |vb.oid| >= 2
    ensures |BindingContent(vb)| == SizeOfBinding(vb) && |BindingBytes(vb)| == TlvSize(SizeOfBinding(vb))
  {
    hide OidContent, ValueContent;
    OidContentLength(vb.oid);
  }

  function SizeOfMessage(id: i32, community: seq<byte>, status: i32, index: i32, bindings: seq<VarBind>): nat
    requires AllNamed(bindings)
  {
    TlvSize(1) + TlvSize(|community|)
    + TlvSize(TlvSize(IntLength(id)) + TlvSize(IntLength(status)) + TlvSize(IntLength(index))
              + TlvSize(SizeOfList(bindings)))
  }

  lemma TlvSizeIs(tag: byte, content: seq<byte>)
    requires |content| <= 0xFFFF
    ensures |Tlv(tag, content)| == TlvSize(|content|)
  {
  }

  lemma PduSizeIs(id: i32, status: i32, index: i32, bindings: seq<VarBind>)
    requires AllNamed(bindings) && |BindingsBytes(bindings)| <= SCRATCH
    ensures |PduContent(id, status, index, bindings)|
            == TlvSize(IntLength(id)) + TlvSize(IntLength(status)) + TlvSize(IntLength(index))
               + TlvSize(SizeOfList(bindings))
  {
    hide BindingsBytes, IntContent, SizeOfList, Tlv, TlvSize, IntLength;
    SizeOfListIs(bindings);
    TlvSizeIs(TAG_INTEGER, IntContent(id));
    TlvSizeIs(TAG_INTEGER, IntContent(status));
    TlvSizeIs(TAG_INTEGER, IntContent(index));
    TlvSizeIs(TAG_SEQUENCE, BindingsBytes(bindings));
  }

  lemma SizeOfMessageIs(id: i32, community: seq<byte>, status: i32, index: i32, bindings: seq<VarBind>)
    requires AllNamed(bindings) && |BindingsBytes(bindings)| <= SCRATCH && |community| <= 0xFFFF
    ensures |MessageContent(id, community, status, index, bindings)|
            == SizeOfMessage(id, community, status, index, bindings)
  {
    hide BindingsBytes, IntContent, SizeOfList, Tlv, TlvSize, IntLength, PduContent;
    PduSizeIs(id, status, index, bindings);
    OneIsOneOctet();
    TlvSizeIs(TAG_INTEGER, IntContent(1));
    TlvSizeIs(TAG_OCTET_STRING, community);
    TlvSizeIs(TAG_GET_RESPONSE, PduContent(id, status, index, bindings));
  }

  lemma OneIsOneOctet()
    ensures IntLength(1) == 1
  {
  }

  /** A response is staged if, and only if, every binding finds its content and four octets more behind those
      before it in 512 octets, and 512 octets hold the whole message but its own header. */
  lemma StagingLimits(id: i32, community: seq<byte>, status: i32, index: i32, bindings: seq<VarBind>)
    requires AllNamed(bindings)
    ensures Staged(id, community, status, index, bindings) <==>
              && (forall k :: 0 <= k < |bindings| ==> SizeOfList(bindings[..k]) + 4 + SizeOfBinding(bindings[k]) <= 512)
              && SizeOfMessage(id, community, status, index, bindings) <= 512
  {
    hide BindingsBytes, BindingContent, SizeOfBinding, SizeOfList, SizeOfMessage, MessageContent;
    forall k | 0 <= k < |bindings|
      ensures |BindingsBytes(bindings[..k])| == SizeOfList(bindings[..k])
      ensures |BindingContent(bindings[k])| == SizeOfBinding(bindings[k])
    {
      SizeOfListIs(bindings[..k]);
      SizeOfBindingIs(bindings[k]);
    }
    CommunityFits(id, community, status, index, bindings);
    if BindingsFit(bindings) && |community| <= 0xFFFF {
      BindingsLength(bindings);
      SizeOfMessageIs(id, community, status, index, bindings);
    }
  }

  lemma CommunityFits(id: i32, community: seq<byte>, status: i32, index: i32, bindings: seq<VarBind>)
    requires AllNamed(bindings)
    ensures SizeOfMessage(id, community, status, index, bindings) >= |community|
  {
  }
}
