/** The decoding loops of bridge-core/src/snmp.rs. */
module SnmpDecoder {
  import opened Words
  import opened Numbers
  import opened Ber
  import opened Oid
  import opened SnmpMessage

  method DecodeTlv(data: seq<byte>, pos: nat) returns (r: Result<TlvSpan, DecodeError>)
    ensures r == TlvAt(data, pos)
  {
    if pos >= |data| {
      return Failure(UnexpectedEnd);
    }
    var tag := data[pos];
    var p := pos + 1;
    if p >= |data| {
      return Failure(UnexpectedEnd);
    }
    var lenByte := data[p];
    p := p + 1;
    var length: nat, start: nat;
    if lenByte < 128 {
      length, start := lenByte, p;
    } else {
      var count := lenByte % 128;
      if count == 0 || count > 4 {
        return Failure(LengthOutOfBounds);
      }
      if p + count > |data| {
        return Failure(UnexpectedEnd);
      }
      length := 0;
      ghost var octets := data[p..p + count];
      assert octets[..0] == [];
      var i := 0;
      while i < count
        invariant 0 <= i <= count && length == BeVal(octets[..i])
      {
        BeValNext(octets, i);
        length := length * 256 + data[p + i];
        i := i + 1;
      }
      assert octets[..count] == octets;
      start := p + count;
    }
    if start + length > |data| {
      return Failure(LengthOutOfBounds);
    }
    return Success(TlvSpan(tag, start, start + length));
  }

  method DecodeInteger(data: seq<byte>, start: nat, end: nat) returns (r: Result<i32, DecodeError>)
    requires end <= |data|
    ensures r == if end < start then Failure(InvalidData) else IntOf(data[start..end])
  {
    if end < start || end == start || end - start > 4 {
      return Failure(InvalidData);
    }
    ghost var bytes := data[start..end];
    // The sign octets above the first one, as `-1i32` or `0i32` shifted left with it.
    var val: int := if data[start] >= 0x80 then -1 else 0;
    ghost var fill := val;
    hide Filled, SignedVal;
    NothingShifted(bytes, fill);
    var i := start;
    while i < end
      invariant start <= i <= end && val == Filled(bytes[..i - start], fill)
    {
      ShiftIn(bytes, fill, i - start);
      val := val * 256 + data[i];
      i := i + 1;
    }
    assert bytes[..end - start] == bytes;
    SignedValInRange(bytes);
    FilledIsSigned(bytes, fill);
    return Success(val);
  }

  lemma FilledIsSigned(bytes: seq<byte>, fill: int)
    requires bytes != [] && fill == if bytes[0] >= 0x80 then -1 else 0
    ensures Filled(bytes, fill) == SignedVal(bytes)
  {
    hide BeVal, Pow256;
  }

  method DecodeU32(data: seq<byte>, start: nat, end: nat) returns (r: Result<u32, DecodeError>)
    requires end <= |data|
    ensures r == if end < start then Failure(InvalidData) else U32Of(data[start..end])
  {
    if end < start || end == start || end - start > 5 {
      return Failure(InvalidData);
    }
    var skip := if end - start == 5 && data[start] == 0 then 1 else 0;
    var effective := data[start + skip..end];
    if |effective| > 4 {
      return Failure(InvalidData);
    }
    assert effective == data[start..end][skip..];
    FourOctets(effective);
    var val: nat := 0;
    assert effective[..0] == [];
    var i := 0;
    while i < |effective|
      invariant 0 <= i <= |effective| && val == BeVal(effective[..i])
    {
      BeValNext(effective, i);
      val := val * 256 + effective[i];
      i := i + 1;
    }
    assert effective[..|effective|] == effective;
    return Success(val);
  }

  method DecodeOid(data: seq<byte>, start: nat, end: nat) returns (r: Result<Oid, DecodeError>)
    requires start <= end <= |data|
    ensures r == OidOf(data[start..end])
  {
    var bytes := data[start..end];
    if bytes == [] {
      return Failure(InvalidData);
    }
    var oid: Oid := FirstTwo(bytes[0]);
    var i := 1;
    while i < |bytes|
      invariant 1 <= i <= |bytes|
      invariant OidOf(bytes) == ArcsFrom(bytes, i, oid)
    {
      ghost var arcStart := i;
      var sub: u32 := 0;
      var more := true;
      while more
        invariant arcStart <= i <= |bytes|
        invariant if more then ArcAt(bytes, arcStart, 0) == ArcAt(bytes, i, sub)
                  else ArcAt(bytes, arcStart, 0) == Success((sub, i)) && arcStart < i
        decreases more, |bytes| - i
      {
        if i >= |bytes| {
          return Failure(UnexpectedEnd);
        }
        var b := bytes[i];
        i := i + 1;
        if sub > 0x00FF_FFFF {
          return Failure(InvalidData);
        }
        sub := sub * 128 + b % 128;
        more := b >= 128;
      }
      if |oid| >= MAX_ARCS {
        return Failure(InvalidData);
      }
      oid := oid + [sub];
    }
    return Success(oid);
  }

  /** `decode_tlv`, the tag check, and the slice of the parent that every nested read stays in. */
  method DecodeField(data: seq<byte>, pos: nat, tag: byte) returns (r: Result<(seq<byte>, nat), DecodeError>)
    ensures r == Field(data, pos, tag)
  {
    var t :- DecodeTlv(data, pos);
    if t.tag != tag {
      return Failure(InvalidData);
    }
    return Success((data[t.start..t.end], t.end));
  }

  method DecodeBindingNames(list: seq<byte>) returns (r: Result<Oids, DecodeError>)
    ensures r == RequestOids(list, 0, [])
  {
    hide TlvAt, OidOf;
    var p := 0;
    var oids: Oids := [];
    while p < |list|
      invariant 0 <= p <= |list|
      invariant RequestOids(list, 0, []) == RequestOids(list, p, oids)
    {
      var binding :- DecodeField(list, p, TAG_SEQUENCE);
      p := binding.1;
      var t :- DecodeTlv(binding.0, 0);
      if t.tag != TAG_OID {
        return Failure(InvalidData);
      }
      var oid :- DecodeOid(binding.0, t.start, t.end);
      if |oids| >= 8 {
        return Failure(InvalidData);
      }
      oids := oids + [oid];
    }
    return Success(oids);
  }

  method DecodeRequestPdu(community: Community, pduType: byte, pdu: seq<byte>)
    returns (r: Result<SnmpRequest, DecodeError>)
    ensures r == RequestPdu(community, pduType, pdu)
  {
    hide Field, IntOf, RequestOids;
    var id :- DecodeField(pdu, 0, TAG_INTEGER);
    assert id.0[0..|id.0|] == id.0;
    var requestId :- DecodeInteger(id.0, 0, |id.0|);
    var status :- DecodeField(pdu, id.1, TAG_INTEGER);
    var index :- DecodeField(pdu, status.1, TAG_INTEGER);
    var list :- DecodeField(pdu, index.1, TAG_SEQUENCE);
    var oids :- DecodeBindingNames(list.0);
    return Success(SnmpRequest(1, community, requestId, pduType, oids));
  }

  /** Reads a request; by `SnmpTheorems.RequestReadExactly`, exactly the well-formed ones. */
  method DecodeGetRequest(data: seq<byte>) returns (r: Result<SnmpRequest, DecodeError>)
    ensures r == RequestOf(data)
  {
    hide Field, IntOf, RequestPdu, TlvAt;
    var outer :- DecodeField(data, 0, TAG_SEQUENCE);
    var msg := outer.0;
    var ver :- DecodeField(msg, 0, TAG_INTEGER);
    assert ver.0[0..|ver.0|] == ver.0;
    var version :- DecodeInteger(ver.0, 0, |ver.0|);
    if version != 1 {
      return Failure(InvalidVersion);
    }
    var community :- DecodeField(msg, ver.1, TAG_OCTET_STRING);
    if |community.0| > 32 {
      return Failure(InvalidData);
    }
    var t :- DecodeTlv(msg, community.1);
    if t.tag != TAG_GET_REQUEST && t.tag != TAG_GET_NEXT_REQUEST {
      return Failure(InvalidData);
    }
    r := DecodeRequestPdu(community.0, t.tag, msg[t.start..t.end]);
  }
}
