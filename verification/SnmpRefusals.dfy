/** What `decode_get_request` of bridge-core/src/snmp.rs answers to messages that are well-formed up to
    something it does not take: the error says what that is, whatever follows. */
module SnmpRefusals {
  import opened Words
  import opened Octets
  import opened Numbers
  import opened Ber
  import opened Oid
  import opened SnmpMessage
  import opened SnmpTags
  import opened SnmpTheorems

  /** A message that begins with these octets, in any length form, with anything behind it. */
  ghost predicate BeginsWith(data: seq<byte>, f: LengthForm, start: seq<byte>, after: seq<byte>, rest: seq<byte>) {
    FormFits(f, |start + after|) && data == TlvIn(f, SEQUENCE_TYPE, start + after) + rest
  }

  lemma MessageStarts(data: seq<byte>, f: LengthForm, start: seq<byte>, after: seq<byte>, rest: seq<byte>)
    requires BeginsWith(data, f, start, after, rest)
    ensures Field(data, 0, SEQUENCE_TYPE).Success? && Field(data, 0, SEQUENCE_TYPE).value.0 == start + after
    ensures HasAt(start + after, 0, start)
  {
    hide HasAt, TlvIn, FormFits, Field, TlvAt;
    HasFront(TlvIn(f, SEQUENCE_TYPE, start + after), rest);
    FieldReadsBack(data, 0, f, SEQUENCE_TYPE, start + after);
    HasFront(start, after);
  }

  /** Every version but 1, which stands for SNMP v2c. */
  lemma OtherVersionRefused(data: seq<byte>, f: LengthForm, g: LengthForm, version: seq<byte>, after: seq<byte>,
                            rest: seq<byte>)
    requires FormFits(g, |version|) && IntOf(version).Success? && IntOf(version).value != 1
    requires BeginsWith(data, f, TlvIn(g, INTEGER_TYPE, version), after, rest)
    ensures RequestOf(data) == Failure(InvalidVersion)
  {
    hide HasAt, TlvIn, FormFits, Field, TlvAt, IntOf;
    MessageStarts(data, f, TlvIn(g, INTEGER_TYPE, version), after, rest);
    FieldReadsBack(TlvIn(g, INTEGER_TYPE, version) + after, 0, g, INTEGER_TYPE, version);
  }

  lemma TwoFields(data: seq<byte>, f: LengthForm, g: LengthForm, version: seq<byte>, h: LengthForm,
                  community: seq<byte>, after: seq<byte>, rest: seq<byte>)
    requires FormFits(g, |version|) && FormFits(h, |community|)
    requires BeginsWith(data, f, TlvIn(g, INTEGER_TYPE, version) + TlvIn(h, OCTET_STRING_TYPE, community), after, rest)
    ensures var msg := TlvIn(g, INTEGER_TYPE, version) + TlvIn(h, OCTET_STRING_TYPE, community) + after;
            var a := |TlvIn(g, INTEGER_TYPE, version)|;
            && Field(data, 0, SEQUENCE_TYPE).Success? && Field(data, 0, SEQUENCE_TYPE).value.0 == msg
            && Field(msg, 0, INTEGER_TYPE) == Success((version, a))
            && Field(msg, a, OCTET_STRING_TYPE)
               == Success((community, a + |TlvIn(h, OCTET_STRING_TYPE, community)|))
  {
    hide HasAt, TlvIn, FormFits, Field, TlvAt;
    var a, b := TlvIn(g, INTEGER_TYPE, version), TlvIn(h, OCTET_STRING_TYPE, community);
    MessageStarts(data, f, a + b, after, rest);
    HasConcat(a + b + after, 0, a, b);
    FieldReadsBack(a + b + after, 0, g, INTEGER_TYPE, version);
    FieldReadsBack(a + b + after, |a|, h, OCTET_STRING_TYPE, community);
  }

  /** A community of more than 32 octets. */
  lemma LongCommunityRefused(data: seq<byte>, f: LengthForm, g: LengthForm, version: seq<byte>, h: LengthForm,
                             community: seq<byte>, after: seq<byte>, rest: seq<byte>)
    requires FormFits(g, |version|) && IntOf(version) == Success(1) && FormFits(h, |community|) && |community| > 32
    requires BeginsWith(data, f, TlvIn(g, INTEGER_TYPE, version) + TlvIn(h, OCTET_STRING_TYPE, community), after, rest)
    ensures RequestOf(data) == Failure(InvalidData)
  {
    hide HasAt, TlvIn, FormFits, Field, TlvAt, IntOf;
    TwoFields(data, f, g, version, h, community, after, rest);
  }

  /** Every PDU but a GetRequest and a GetNextRequest. */
  lemma OtherPduRefused(data: seq<byte>, f: LengthForm, g: LengthForm, version: seq<byte>, h: LengthForm,
                        community: seq<byte>, after: seq<byte>, rest: seq<byte>)
    requires FormFits(g, |version|) && IntOf(version) == Success(1) && FormFits(h, |community|) && |community| <= 32
    requires BeginsWith(data, f, TlvIn(g, INTEGER_TYPE, version) + TlvIn(h, OCTET_STRING_TYPE, community), after, rest)
    requires TlvAt(after, 0).Success?
    requires TlvAt(after, 0).value.tag != GET_REQUEST_PDU && TlvAt(after, 0).value.tag != GET_NEXT_REQUEST_PDU
    ensures RequestOf(data) == Failure(InvalidData)
  {
    hide HasAt, TlvIn, FormFits, Field, TlvAt, IntOf, RequestPdu;
    TwoFields(data, f, g, version, h, community, after, rest);
    TlvBehind(TlvIn(g, INTEGER_TYPE, version) + TlvIn(h, OCTET_STRING_TYPE, community), after);
  }

  lemma TlvBehind(front: seq<byte>, after: seq<byte>)
    requires TlvAt(after, 0).Success?
    ensures TlvAt(front + after, |front|).Success?
            && TlvAt(front + after, |front|).value.tag == TlvAt(after, 0).value.tag
  {
    hide BeVal;
    var data, n := front + after, |front|;
    assert data[n] == after[0] && data[n + 1] == after[1];
    if after[1] >= 128 {
      var k := after[1] - 128;
      assert data[n + 2..n + 2 + k] == after[2..2 + k];
    }
  }

  /** A field with another tag than its place asks for. */
  lemma OtherTagRefused(data: seq<byte>, pos: nat, tag: byte)
    requires TlvAt(data, pos).Success? && TlvAt(data, pos).value.tag != tag
    ensures Field(data, pos, tag) == Failure(InvalidData)
  {
    hide TlvAt;
  }

  /** More than eight bindings, however many. */
  lemma NinthBindingRefused(list: seq<byte>, bs: seq<WireBinding>, rest: seq<byte>)
    requires |bs| == 9 && forall k :: 0 <= k < |bs| ==> BindingOk(bs[k])
    requires list == ListWire(bs) + rest
    ensures RequestOids(list, 0, []) == Failure(InvalidData)
  {
    hide *;
    HasFront(ListWire(bs), rest);
    EightThenOne(list, 0, [], bs);
  }

  lemma {:induction false} EightThenOne(list: seq<byte>, pos: nat, oids: Oids, bs: seq<WireBinding>)
    requires (forall k :: 0 <= k < |bs| ==> BindingOk(bs[k])) && |oids| + |bs| == 9
    requires HasAt(list, pos, ListWire(bs))
    ensures RequestOids(list, pos, oids) == Failure(InvalidData)
    decreases bs
  {
    hide *;
    ListUnfolds(bs);
    HasConcat(list, pos, BindingWire(bs[0]), ListWire(bs[1..]));
    if |oids| == 8 {
      OneTooMany(list, pos, oids, bs[0]);
    } else {
      var oid := FirstBindingReadsBack(list, pos, oids, bs[0]);
      EightThenOne(list, pos + |BindingWire(bs[0])|, oids + [oid], bs[1..]);
    }
  }

  lemma OneTooMany(list: seq<byte>, pos: nat, oids: Oids, b: WireBinding)
    requires BindingOk(b) && |oids| == 8 && HasAt(list, pos, BindingWire(b))
    ensures RequestOids(list, pos, oids) == Failure(InvalidData)
  {
    hide TlvIn, FormFits, OidOf, Field, HasAt;
    var inner := TlvIn(b.nameForm, OID_TYPE, b.name) + b.rest;
    FieldReadsBack(list, pos, b.form, SEQUENCE_TYPE, inner);
    NameReadsBack(b);
    HasFits(list, pos, BindingWire(b));
  }
}
