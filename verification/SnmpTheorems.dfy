/** What the SNMP codec guarantees: exactly the well-formed requests are read, and every
    response that is written reads back. */
module SnmpTheorems {
  import opened Words
  import opened Octets
  import opened Numbers
  import opened Ber
  import opened Oid
  import opened SnmpMessage
  import opened SnmpTags

  // ------------------------------------------------------------------ the grammar of requests

  /** One binding of a request: a name in some length form, then anything at all. */
  datatype WireBinding = WireBinding(form: LengthForm, nameForm: LengthForm, name: seq<byte>, rest: seq<byte>)

  ghost predicate BindingOk(b: WireBinding) {
    && FormFits(b.nameForm, |b.name|) && OidOf(b.name).Success?
    && FormFits(b.form, |TlvIn(b.nameForm, OID_TYPE, b.name) + b.rest|)
  }

  function BindingWire(b: WireBinding): (s: seq<byte>)
    requires BindingOk(b)
    ensures s != []
  {
    TlvIn(b.form, SEQUENCE_TYPE, TlvIn(b.nameForm, OID_TYPE, b.name) + b.rest)
  }

  function ListWire(bs: seq<WireBinding>): seq<byte>
    requires forall k :: 0 <= k < |bs| ==> BindingOk(bs[k])
  {
    if bs == [] then [] else BindingWire(bs[0]) + ListWire(bs[1..])
  }

  function Names(bs: seq<WireBinding>): (o: seq<Oid>)
    requires forall k :: 0 <= k < |bs| ==> BindingOk(bs[k])
    ensures |o| == |bs|
  {
    if bs == [] then [] else
      assert BindingOk(bs[0]);
      [OidOf(bs[0].name).value] + Names(bs[1..])
  }

  /** A request as it stands on the wire: any length form for every TLV, any content for
      error-status and error-index, anything after the binding list, the PDU and the message. */
  datatype WirePdu = WirePdu(
    pduType: byte, idForm: LengthForm, id: seq<byte>, statusForm: LengthForm, status: seq<byte>,
    indexForm: LengthForm, index: seq<byte>, listForm: LengthForm, bindings: seq<WireBinding>, rest: seq<byte>)

  datatype WireRequest = WireRequest(
    form: LengthForm, versionForm: LengthForm, version: seq<byte>, communityForm: LengthForm, community: seq<byte>,
    pduForm: LengthForm, pdu: WirePdu, afterPdu: seq<byte>, afterMessage: seq<byte>)

  ghost predicate PduOk(p: WirePdu) {
    && (p.pduType == GET_REQUEST_PDU || p.pduType == GET_NEXT_REQUEST_PDU)
    && FormFits(p.idForm, |p.id|) && IntOf(p.id).Success?
    && FormFits(p.statusForm, |p.status|) && FormFits(p.indexForm, |p.index|)
    && |p.bindings| <= 8 && (forall k :: 0 <= k < |p.bindings| ==> BindingOk(p.bindings[k]))
    && FormFits(p.listForm, |ListWire(p.bindings)|)
  }

  ghost function PduWire(p: WirePdu): seq<byte>
    requires PduOk(p)
  {
    TlvIn(p.idForm, INTEGER_TYPE, p.id) + TlvIn(p.statusForm, INTEGER_TYPE, p.status)
    + TlvIn(p.indexForm, INTEGER_TYPE, p.index) + TlvIn(p.listForm, SEQUENCE_TYPE, ListWire(p.bindings)) + p.rest
  }

  ghost predicate MessageOk(w: WireRequest) {
    && FormFits(w.versionForm, |w.version|) && IntOf(w.version) == Success(1)
    && FormFits(w.communityForm, |w.community|) && |w.community| <= 32
    && PduOk(w.pdu) && FormFits(w.pduForm, |PduWire(w.pdu)|)
  }

  ghost function MessageWire(w: WireRequest): seq<byte>
    requires MessageOk(w)
  {
    TlvIn(w.versionForm, INTEGER_TYPE, w.version) + TlvIn(w.communityForm, OCTET_STRING_TYPE, w.community)
    + TlvIn(w.pduForm, w.pdu.pduType, PduWire(w.pdu)) + w.afterPdu
  }

  ghost predicate RequestOk(w: WireRequest) {
    MessageOk(w) && FormFits(w.form, |MessageWire(w)|)
  }

  ghost function RequestWire(w: WireRequest): seq<byte>
    requires RequestOk(w)
  {
    TlvIn(w.form, SEQUENCE_TYPE, MessageWire(w)) + w.afterMessage
  }

  ghost function Meaning(w: WireRequest): SnmpRequest
    requires RequestOk(w)
  {
    SnmpRequest(1, w.community, IntOf(w.pdu.id).value, w.pdu.pduType, Names(w.pdu.bindings))
  }

  // ------------------------------------------------------------------ every well-formed request is read

  lemma {:induction false} ListReadsBack(list: seq<byte>, pos: nat, oids: Oids, bs: seq<WireBinding>)
    requires forall k :: 0 <= k < |bs| ==> BindingOk(bs[k])
    requires |oids| + |bs| <= 8 && HasAt(list, pos, ListWire(bs)) && pos + |ListWire(bs)| == |list|
    ensures RequestOids(list, pos, oids) == Success(oids + Names(bs))
    decreases bs
  {
    hide *;
    if bs == [] {
      NothingListed(bs);
      NoMoreOids(list, pos, oids);
      assert oids + [] == oids;
    } else {
      var b, more := bs[0], bs[1..];
      ListUnfolds(bs);
      HasConcat(list, pos, BindingWire(b), ListWire(more));
      var next := pos + |BindingWire(b)|;
      var oid := FirstBindingReadsBack(list, pos, oids, b);
      ListReadsBack(list, next, oids + [oid], more);
      assert oids + [oid] + Names(more) == oids + ([oid] + Names(more));
    }
  }

  lemma NothingListed(bs: seq<WireBinding>)
    requires bs == []
    ensures ListWire(bs) == [] && Names(bs) == []
  {
  }

  lemma ListUnfolds(bs: seq<WireBinding>)
    requires bs != [] && forall k :: 0 <= k < |bs| ==> BindingOk(bs[k])
    ensures BindingOk(bs[0]) && forall k :: 0 <= k < |bs[1..]| ==> BindingOk(bs[1..][k])
    ensures ListWire(bs) == BindingWire(bs[0]) + ListWire(bs[1..])
    ensures OidOf(bs[0].name).Success? && Names(bs) == [OidOf(bs[0].name).value] + Names(bs[1..])
  {
    hide TlvIn, FormFits, OidOf;
  }

  lemma FirstBindingReadsBack(list: seq<byte>, pos: nat, oids: Oids, b: WireBinding) returns (oid: Oid)
    requires BindingOk(b) && |oids| < 8 && HasAt(list, pos, BindingWire(b))
    ensures OidOf(b.name) == Success(oid)
    ensures RequestOids(list, pos, oids) == RequestOids(list, pos + |BindingWire(b)|, oids + [oid])
  {
    hide TlvIn, FormFits, OidOf, Field, HasAt, RequestOids;
    var inner := TlvIn(b.nameForm, OID_TYPE, b.name) + b.rest;
    oid := OidOf(b.name).value;
    FieldReadsBack(list, pos, b.form, SEQUENCE_TYPE, inner);
    NameReadsBack(b);
    HasFits(list, pos, BindingWire(b));
    NextOid(list, pos, oids, inner, pos + |BindingWire(b)|, b.name, oid);
  }

  lemma NoMoreOids(list: seq<byte>, pos: nat, oids: Oids)
    requires pos >= |list|
    ensures RequestOids(list, pos, oids) == Success(oids)
  {
  }

  lemma NextOid(list: seq<byte>, pos: nat, oids: Oids, binding: seq<byte>, next: nat, name: seq<byte>, oid: Oid)
    requires pos < |list| && |oids| < 8 && Field(list, pos, SEQUENCE_TYPE) == Success((binding, next))
    requires Field(binding, 0, OID_TYPE).Success? && Field(binding, 0, OID_TYPE).value.0 == name
    requires OidOf(name) == Success(oid)
    ensures RequestOids(list, pos, oids) == RequestOids(list, next, oids + [oid])
  {
    hide Field, OidOf;
  }

  lemma NameReadsBack(b: WireBinding)
    requires BindingOk(b)
    ensures Field(TlvIn(b.nameForm, OID_TYPE, b.name) + b.rest, 0, OID_TYPE) ==
            Success((b.name, |TlvIn(b.nameForm, OID_TYPE, b.name)|))
  {
    hide OidOf;
    HasFront(TlvIn(b.nameForm, OID_TYPE, b.name), b.rest);
    FieldReadsBack(TlvIn(b.nameForm, OID_TYPE, b.name) + b.rest, 0, b.nameForm, OID_TYPE, b.name);
  }

  lemma PduReadsBack(community: Community, p: WirePdu)
    requires PduOk(p)
    ensures RequestPdu(community, p.pduType, PduWire(p)) ==
            Success(SnmpRequest(1, community, IntOf(p.id).value, p.pduType, Names(p.bindings)))
  {
    hide TlvIn, FormFits, IntOf, Field, HasAt, BindingOk, ListWire, Names, RequestPdu, RequestOids;
    var data, list := PduWire(p), ListWire(p.bindings);
    var a, b := TlvIn(p.idForm, INTEGER_TYPE, p.id), TlvIn(p.statusForm, INTEGER_TYPE, p.status);
    var c, d := TlvIn(p.indexForm, INTEGER_TYPE, p.index), TlvIn(p.listForm, SEQUENCE_TYPE, list);
    assert data == a + b + c + d + p.rest;
    hide PduWire;
    FiveParts(a, b, c, d, p.rest);
    FieldReadsBack(data, 0, p.idForm, INTEGER_TYPE, p.id);
    FieldReadsBack(data, |a|, p.statusForm, INTEGER_TYPE, p.status);
    FieldReadsBack(data, |a| + |b|, p.indexForm, INTEGER_TYPE, p.index);
    FieldReadsBack(data, |a| + |b| + |c|, p.listForm, SEQUENCE_TYPE, list);
    RequestPduOf(p.pduType, community, data, p.id, |a|, |a| + |b|, |a| + |b| + |c|, list);
    HasWhole(list);
    ListReadsBack(list, 0, [], p.bindings);
    assert [] + Names(p.bindings) == Names(p.bindings);
  }

  /** `RequestPdu`, its fields known. */
  lemma RequestPduOf(pduType: byte, community: Community, pdu: seq<byte>, id: seq<byte>,
                     a: nat, b: nat, c: nat, list: seq<byte>)
    requires Field(pdu, 0, INTEGER_TYPE) == Success((id, a)) && IntOf(id).Success?
    requires Field(pdu, a, INTEGER_TYPE).Success? && Field(pdu, a, INTEGER_TYPE).value.1 == b
    requires Field(pdu, b, INTEGER_TYPE).Success? && Field(pdu, b, INTEGER_TYPE).value.1 == c
    requires Field(pdu, c, SEQUENCE_TYPE).Success? && Field(pdu, c, SEQUENCE_TYPE).value.0 == list
    ensures RequestOids(list, 0, []).Success? ==>
              RequestPdu(community, pduType, pdu) ==
              Success(SnmpRequest(1, community, IntOf(id).value, pduType, RequestOids(list, 0, []).value))
  {
    hide Field, IntOf, RequestOids;
  }

  lemma MessageParts(a: seq<byte>, b: seq<byte>, c: seq<byte>, rest: seq<byte>)
    ensures var data := a + b + c + rest;
            HasAt(data, 0, a) && HasAt(data, |a|, b) && HasAt(data, |a| + |b|, c)
  {
    var data := a + b + c + rest;
    HasFront(a + b + c, rest);
    hide HasAt;
    HasConcat(data, 0, a + b, c);
    HasConcat(data, 0, a, b);
  }

  /** `decode_get_request` reads every well-formed request as exactly what it says. */
  lemma RequestReadsBack(w: WireRequest)
    requires RequestOk(w)
    ensures RequestOf(RequestWire(w)) == Success(Meaning(w))
  {
    hide TlvIn, FormFits, IntOf, TlvAt, HasAt, PduWire, RequestPdu, Names, Field, RequestOf;
    var data, msg := RequestWire(w), MessageWire(w);
    var whole := TlvIn(w.form, SEQUENCE_TYPE, msg);
    var a, b := TlvIn(w.versionForm, INTEGER_TYPE, w.version), TlvIn(w.communityForm, OCTET_STRING_TYPE, w.community);
    var c := TlvIn(w.pduForm, w.pdu.pduType, PduWire(w.pdu));
    assert data == whole + w.afterMessage && msg == a + b + c + w.afterPdu;
    assert w.pdu.pduType == GET_REQUEST_PDU || w.pdu.pduType == GET_NEXT_REQUEST_PDU;
    hide MessageWire, RequestWire;
    HasFront(whole, w.afterMessage);
    MessageParts(a, b, c, w.afterPdu);
    PduReadsBack(w.community, w.pdu);
    hide PduOk;
    FieldReadsBack(data, 0, w.form, SEQUENCE_TYPE, msg);
    FieldReadsBack(msg, 0, w.versionForm, INTEGER_TYPE, w.version);
    FieldReadsBack(msg, |a|, w.communityForm, OCTET_STRING_TYPE, w.community);
    FieldReadsBack(msg, |a| + |b|, w.pduForm, w.pdu.pduType, PduWire(w.pdu));
    RequestOfFields(data, msg, w.version, |a|, w.community, |a| + |b|, w.pdu.pduType, PduWire(w.pdu));
  }

  /** `decode_get_request`, its fields known. */
  lemma RequestOfFields(data: seq<byte>, msg: seq<byte>, version: seq<byte>, a: nat, community: Community, b: nat,
                        tag: byte, pdu: seq<byte>)
    requires Field(data, 0, SEQUENCE_TYPE).Success? && Field(data, 0, SEQUENCE_TYPE).value.0 == msg
    requires Field(msg, 0, INTEGER_TYPE) == Success((version, a)) && IntOf(version) == Success(1)
    requires Field(msg, a, OCTET_STRING_TYPE) == Success((community, b))
    requires Field(msg, b, tag).Success? && Field(msg, b, tag).value.0 == pdu
    requires tag == GET_REQUEST_PDU || tag == GET_NEXT_REQUEST_PDU
    ensures RequestOf(data) == RequestPdu(community, tag, pdu)
  {
    FieldSpan(msg, b, tag);
    hide Field, IntOf, RequestPdu, TlvAt;
  }

  lemma FieldSpan(data: seq<byte>, pos: nat, tag: byte)
    requires Field(data, pos, tag).Success?
    ensures TlvAt(data, pos).Success?
    ensures var t := TlvAt(data, pos).value;
            t.tag == tag && data[t.start..t.end] == Field(data, pos, tag).value.0
  {
    hide TlvAt;
  }

  // ------------------------------------------------------------------ nothing else is read

  /** A TLV that is read was written in one of the length forms. */
  lemma SpanIsTlv(data: seq<byte>, pos: nat) returns (f: LengthForm)
    requires TlvAt(data, pos).Success?
    ensures var t := TlvAt(data, pos).value;
            var content := data[t.start..t.end];
            FormFits(f, |content|) && data[pos..t.end] == TlvIn(f, t.tag, content)
  {
    var t := TlvAt(data, pos).value;
    var first := data[pos + 1];
    if first < 128 {
      f := Short;
      ShortSpanIsTlv(data, pos);
    } else {
      f := Long(first - 128);
      LongSpanIsTlv(data, pos);
    }
  }

  lemma ShortSpanIsTlv(data: seq<byte>, pos: nat)
    requires TlvAt(data, pos).Success? && data[pos + 1] < 128
    ensures var t := TlvAt(data, pos).value;
            var content := data[t.start..t.end];
            FormFits(Short, |content|) && data[pos..t.end] == TlvIn(Short, t.tag, content)
  {
    var t := TlvAt(data, pos).value;
    assert data[pos..t.end] == [t.tag] + [data[pos + 1]] + data[t.start..t.end];
  }

  lemma LongSpanIsTlv(data: seq<byte>, pos: nat)
    requires TlvAt(data, pos).Success? && data[pos + 1] >= 128
    ensures var t := TlvAt(data, pos).value;
            var content, f := data[t.start..t.end], Long(data[pos + 1] - 128);
            FormFits(f, |content|) && data[pos..t.end] == TlvIn(f, t.tag, content)
  {
    hide BeVal, BeBytes, Pow256;
    var t := TlvAt(data, pos).value;
    var k := data[pos + 1] - 128;
    BeBytesOfVal(data[pos + 2..pos + 2 + k]);
    LongCut(data, pos, k, t.end);
  }

  lemma LongCut(data: seq<byte>, pos: nat, k: nat, end: nat)
    requires pos + 2 + k <= end <= |data|
    ensures data[pos..end] == [data[pos]] + ([data[pos + 1]] + data[pos + 2..pos + 2 + k]) + data[pos + 2 + k..end]
  {
  }

  lemma FieldIsTlv(data: seq<byte>, pos: nat, tag: byte) returns (f: LengthForm)
    requires Field(data, pos, tag).Success?
    ensures var (content, next) := Field(data, pos, tag).value;
            FormFits(f, |content|) && data[pos..next] == TlvIn(f, tag, content)
  {
    f := SpanIsTlv(data, pos);
    hide TlvIn, FormFits, TlvAt;
  }

  lemma {:induction false} OidsAreBindings(list: seq<byte>, pos: nat, oids: Oids) returns (bs: seq<WireBinding>)
    requires pos <= |list| && RequestOids(list, pos, oids).Success?
    ensures forall k :: 0 <= k < |bs| ==> BindingOk(bs[k])
    ensures |oids| + |bs| <= 8 && list[pos..] == ListWire(bs)
    ensures RequestOids(list, pos, oids).value == oids + Names(bs)
    decreases |list| - pos
  {
    if pos == |list| {
      bs := [];
      assert list[pos..] == [] && oids + [] == oids;
    } else {
      var (binding, next) := Field(list, pos, SEQUENCE_TYPE).value;
      var b := BindingFrom(list, pos);
      var oid := OidOf(b.name).value;
      var more := OidsAreBindings(list, next, oids + [oid]);
      bs := [b] + more;
      assert RequestOids(list, pos, oids) == RequestOids(list, next, oids + [oid]);
      OneMoreBinding(list, pos, next, oids, b, more);
    }
  }

  lemma OneMoreBinding(list: seq<byte>, pos: nat, next: nat, oids: seq<Oid>, b: WireBinding, more: seq<WireBinding>)
    requires BindingOk(b) && forall k :: 0 <= k < |more| ==> BindingOk(more[k])
    requires pos <= next <= |list| && list[pos..next] == BindingWire(b) && list[next..] == ListWire(more)
    ensures var bs := [b] + more;
            && (forall k :: 0 <= k < |bs| ==> BindingOk(bs[k]))
            && list[pos..] == ListWire(bs) && oids + [OidOf(b.name).value] + Names(more) == oids + Names(bs)
  {
    hide BindingOk, BindingWire, OidOf;
    var bs := [b] + more;
    assert bs[1..] == more;
    assert list[pos..] == list[pos..next] + list[next..];
  }

  lemma BindingFrom(list: seq<byte>, pos: nat) returns (b: WireBinding)
    requires Field(list, pos, SEQUENCE_TYPE).Success?
    requires var (binding, next) := Field(list, pos, SEQUENCE_TYPE).value;
             Field(binding, 0, OID_TYPE).Success? && OidOf(Field(binding, 0, OID_TYPE).value.0).Success?
    ensures var (binding, next) := Field(list, pos, SEQUENCE_TYPE).value;
            BindingOk(b) && b.name == Field(binding, 0, OID_TYPE).value.0 && list[pos..next] == BindingWire(b)
  {
    hide Field, OidOf, TlvIn, FormFits;
    var (binding, next) := Field(list, pos, SEQUENCE_TYPE).value;
    var (name, end) := Field(binding, 0, OID_TYPE).value;
    var f := FieldIsTlv(list, pos, SEQUENCE_TYPE);
    var g := FieldIsTlv(binding, 0, OID_TYPE);
    b := WireBinding(f, g, name, binding[end..]);
    assert binding == binding[..end] + binding[end..];
  }

  lemma PduFrom(community: Community, pduType: byte, pdu: seq<byte>) returns (p: WirePdu)
    requires pduType == GET_REQUEST_PDU || pduType == GET_NEXT_REQUEST_PDU
    requires RequestPdu(community, pduType, pdu).Success?
    ensures PduOk(p) && p.pduType == pduType && PduWire(p) == pdu
    ensures RequestPdu(community, pduType, pdu).value ==
            SnmpRequest(1, community, IntOf(p.id).value, pduType, Names(p.bindings))
  {
    hide Field, IntOf, TlvIn, FormFits, OidOf, TlvAt, RequestOids, Names, ListWire, BindingOk;
    var (id, a) := Field(pdu, 0, INTEGER_TYPE).value;
    var (status, b) := Field(pdu, a, INTEGER_TYPE).value;
    var (index, c) := Field(pdu, b, INTEGER_TYPE).value;
    var (list, d) := Field(pdu, c, SEQUENCE_TYPE).value;
    var f1 := FieldIsTlv(pdu, 0, INTEGER_TYPE);
    var f2 := FieldIsTlv(pdu, a, INTEGER_TYPE);
    var f3 := FieldIsTlv(pdu, b, INTEGER_TYPE);
    var f4 := FieldIsTlv(pdu, c, SEQUENCE_TYPE);
    var bs := OidsAreBindings(list, 0, []);
    assert list[0..] == list && [] + Names(bs) == Names(bs);
    p := WirePdu(pduType, f1, id, f2, status, f3, index, f4, bs, pdu[d..]);
    FourCuts(pdu, a, b, c, d);
  }

  lemma FourCuts(s: seq<byte>, a: nat, b: nat, c: nat, d: nat)
    requires a <= b <= c <= d <= |s|
    ensures s == s[0..a] + s[a..b] + s[b..c] + s[c..d] + s[d..]
  {
    assert s[0..a] + s[a..b] == s[0..b];
    assert s[0..b] + s[b..c] == s[0..c];
    assert s[0..c] + s[c..d] == s[0..d];
  }

  lemma ThreeCuts(s: seq<byte>, a: nat, b: nat, c: nat)
    requires a <= b <= c <= |s|
    ensures s == s[0..a] + s[a..b] + s[b..c] + s[c..]
  {
    assert s[0..a] + s[a..b] == s[0..b];
    assert s[0..b] + s[b..c] == s[0..c];
  }

  /** Whatever `decode_get_request` accepts is a well-formed request, read as what it says. */
  lemma AcceptedIsWellFormed(data: seq<byte>) returns (w: WireRequest)
    requires RequestOf(data).Success?
    ensures RequestOk(w) && RequestWire(w) == data && RequestOf(data).value == Meaning(w)
  {
    hide IntOf, TlvIn, FormFits, TlvAt, RequestPdu, Names, PduWire, PduOk;
    var (msg, end) := Field(data, 0, SEQUENCE_TYPE).value;
    var (version, a) := Field(msg, 0, INTEGER_TYPE).value;
    var (community, b) := Field(msg, a, OCTET_STRING_TYPE).value;
    var t := TlvAt(msg, b).value;
    var f := FieldIsTlv(data, 0, SEQUENCE_TYPE);
    var f1 := FieldIsTlv(msg, 0, INTEGER_TYPE);
    var f2 := FieldIsTlv(msg, a, OCTET_STRING_TYPE);
    var f3 := SpanIsTlv(msg, b);
    var p := PduFrom(community, t.tag, msg[t.start..t.end]);
    w := WireRequest(f, f1, version, f2, community, f3, p, msg[t.end..], data[end..]);
    hide Field;
    ThreeCuts(msg, a, b, t.end);
    assert data == data[0..end] + data[end..];
  }

  /** `decode_get_request` accepts exactly the well-formed requests. */
  lemma RequestReadExactly(data: seq<byte>)
    ensures RequestOf(data).Success? <==> exists w :: RequestOk(w) && RequestWire(w) == data
  {
    if RequestOf(data).Success? {
      var w := AcceptedIsWellFormed(data);
    }
    forall w | RequestOk(w) && RequestWire(w) == data
      ensures RequestOf(data).Success?
    {
      RequestReadsBack(w);
    }
  }
}
