/** `encode_get_response` of bridge-core/src/snmp.rs: built from the inside out in scratch
    buffers, with moves in place, then written to the caller's buffer. */
module SnmpAgent {
  import opened Words
  import opened Octets
  import opened Ber
  import opened SnmpMessage
  import opened SnmpEncoder
  import opened SnmpResponses

  ghost predicate ListFits(bindings: seq<VarBind>) {
    && AllNamed(bindings) && BindingsFit(bindings)
    && (BindingsLength(bindings); |Tlv(TAG_SEQUENCE, BindingsBytes(bindings))| <= SCRATCH)
  }

  /** The whole binding list as it goes into the PDU. */
  ghost function ListTlv(bindings: seq<VarBind>): seq<byte>
    requires ListFits(bindings)
  {
    BindingsLength(bindings);
    Tlv(TAG_SEQUENCE, BindingsBytes(bindings))
  }

  lemma NextFits(bindings: seq<VarBind>, k: nat)
    requires k < |bindings| && AllNamed(bindings[..k]) && |bindings[k].oid| >= 2
    ensures AllNamed(bindings[..k + 1])
    ensures BindingsBytes(bindings[..k + 1]) == BindingsBytes(bindings[..k]) + BindingBytes(bindings[k])
    ensures BindingsFit(bindings[..k + 1]) <==>
              BindingsFit(bindings[..k])
                  && |BindingsBytes(bindings[..k])| + 4 + |BindingContent(bindings[k])| <= SCRATCH
  {
    hide BindingContent, BindingBytes;
    var upTo := bindings[..k + 1];
    assert upTo[..k] == bindings[..k] && upTo[k] == bindings[k];
    assert AllNamed(upTo);
    NextFitsIn(upTo, k);
  }

  lemma NextFitsIn(upTo: seq<VarBind>, k: nat)
    requires |upTo| == k + 1 && AllNamed(upTo)
    ensures BindingsFit(upTo) <==>
              BindingsFit(upTo[..k]) && |BindingsBytes(upTo[..k])| + 4 + |BindingContent(upTo[k])| <= SCRATCH
  {
    hide BindingContent, BindingsBytes;
    forall j | 0 <= j < k
      ensures upTo[..k][..j] == upTo[..j] && upTo[..k][j] == upTo[j]
    {
    }
    if BindingsFit(upTo) {
      PrefixFits(upTo, k);
    }
  }

  lemma PrefixFits(bindings: seq<VarBind>, k: nat)
    requires k <= |bindings| && AllNamed(bindings) && BindingsFit(bindings)
    ensures AllNamed(bindings[..k]) && BindingsFit(bindings[..k])
  {
    hide BindingContent, BindingsBytes;
    forall j | 0 <= j < k
      ensures |BindingsBytes(bindings[..k][..j])| + 4 + |BindingContent(bindings[..k][j])| <= SCRATCH
    {
      assert bindings[..k][..j] == bindings[..j];
    }
  }

  lemma NeededSoFar(bindings: seq<VarBind>, k: nat)
    requires k < |bindings|
    ensures AllNamed(bindings) ==> |bindings[k].oid| >= 2
    ensures AllNamed(bindings) && BindingsFit(bindings) ==>
              |bindings[k].oid| >= 2 && AllNamed(bindings[..k + 1]) && BindingsFit(bindings[..k + 1])
  {
    if AllNamed(bindings) && BindingsFit(bindings) {
      PrefixFits(bindings, k + 1);
    }
  }

  method StageBindings(scratch: array<byte>, bindings: seq<VarBind>) returns (r: Result<nat, EncodeError>)
    requires scratch.Length == SCRATCH
    modifies scratch
    ensures r.Success? <==> AllNamed(bindings) && BindingsFit(bindings)
    ensures r.Failure? && AllNamed(bindings) ==> r.error == BufferTooSmall
    ensures r.Success? ==> r.value <= SCRATCH && scratch[..r.value] == BindingsBytes(bindings)
  {
    hide BindingContent, BindingBytes, BindingsBytes, BindingsFit, AllNamed;
    var p: nat := 0;
    var i := 0;
    assert bindings[..0] == [];
    NoBindings();
    while i < |bindings|
      invariant 0 <= i <= |bindings| && p <= SCRATCH
      invariant AllNamed(bindings[..i]) && BindingsFit(bindings[..i])
      invariant scratch[..p] == BindingsBytes(bindings[..i])
    {
      if |bindings[i].oid| >= 2 {
        NextFits(bindings, i);
      }
      NeededSoFar(bindings, i);
      ghost var was := scratch[..];
      var next := EncodeVarbind(scratch, p, bindings[i]);
      if next.Failure? {
        return next;
      }
      assert scratch[..next.value] == scratch[..p] + scratch[p..next.value];
      p := next.value;
      i := i + 1;
    }
    assert bindings[..|bindings|] == bindings;
    return Success(p);
  }

  lemma NoBindings()
    ensures AllNamed([]) && BindingsBytes([]) == [] && BindingsFit([])
  {
  }

  lemma ListSize(bindings: seq<VarBind>, n: nat)
    requires AllNamed(bindings) && BindingsFit(bindings) && |BindingsBytes(bindings)| == n
    ensures n <= SCRATCH && (ListFits(bindings) <==> BerHeaderSize(n) + n <= SCRATCH)
    ensures ListFits(bindings) ==> ListTlv(bindings) == HeaderBytes(TAG_SEQUENCE, n) + BindingsBytes(bindings)
  {
    hide BindingsFit, AllNamed, BindingsBytes, HeaderBytes;
    BindingsLength(bindings);
  }

  lemma ListNeeds(bindings: seq<VarBind>)
    ensures ListFits(bindings) ==> AllNamed(bindings) && BindingsFit(bindings)
  {
    hide AllNamed, BindingsFit;
  }

  /** The binding list, then moved right to make room for its header. */
  method StageList(scratch: array<byte>, bindings: seq<VarBind>) returns (r: Result<nat, EncodeError>)
    requires scratch.Length == SCRATCH
    modifies scratch
    ensures r.Success? <==> ListFits(bindings)
    ensures r.Failure? && AllNamed(bindings) ==> r.error == BufferTooSmall
    ensures r.Success? ==> r.value <= SCRATCH && scratch[..r.value] == ListTlv(bindings)
  {
    hide ListFits, ListTlv, BindingsBytes, BindingsFit, AllNamed, HeaderBytes;
    ListNeeds(bindings);
    var n := StageBindings(scratch, bindings);
    if n.Failure? {
      return n;
    }
    ListSize(bindings, n.value);
    var size := BerHeaderSize(n.value);
    if size + n.value > SCRATCH {
      return Failure(BufferTooSmall);
    }
    ghost var staged := scratch[..];
    CopyWithin(scratch, 0, n.value, size);
    ghost var moved := scratch[..];
    var h := EncodeTlvHeader(scratch, 0, TAG_SEQUENCE, n.value);
    HeaderInFront(staged, moved, scratch[..], HeaderBytes(TAG_SEQUENCE, n.value), staged[..n.value]);
    return Success(size + n.value);
  }

  lemma HeaderInFront(was: seq<byte>, moved: seq<byte>, now: seq<byte>, header: seq<byte>, content: seq<byte>)
    requires |header| + |content| <= |was| && moved == Splice(was, |header|, content) && now == Splice(moved, 0, header)
    ensures |now| == |was| && now[..|header| + |content|] == header + content
  {
  }

  method StagePdu(pdu: array<byte>, id: i32, status: i32, index: i32, list: seq<byte>)
    returns (r: Result<nat, EncodeError>)
    requires pdu.Length == SCRATCH
    modifies pdu
    ensures var content := IntTlv(id) + IntTlv(status) + IntTlv(index) + list;
            && (r == Failure(BufferTooSmall) <==> |content| > SCRATCH)
            && (r.Success? <==> |content| <= SCRATCH)
            && (r.Success? ==> r.value == |content| && pdu[..r.value] == content)
  {
    hide IntTlv, Puts;
    ghost var b0 := pdu[..];
    var p1 := EncodeInteger(pdu, 0, id);
    ghost var b1 := pdu[..];
    FitsEasily(p1, b0, b1, 0, IntTlv(id));
    var p2 := EncodeInteger(pdu, p1.value, status);
    ghost var b2 := pdu[..];
    PutsThen(p2, b0, b1, b2, 0, IntTlv(id), IntTlv(status));
    FitsEasily(p2, b0, b2, 0, IntTlv(id) + IntTlv(status));
    var p3 := EncodeInteger(pdu, p2.value, index);
    ghost var b3 := pdu[..];
    PutsThen(p3, b0, b2, b3, 0, IntTlv(id) + IntTlv(status), IntTlv(index));
    FitsEasily(p3, b0, b3, 0, IntTlv(id) + IntTlv(status) + IntTlv(index));
    r := Put(pdu, p3.value, list);
    PutsThen(r, b0, b3, pdu[..], 0, IntTlv(id) + IntTlv(status) + IntTlv(index), list);
    PutsAtStart(r, b0, pdu[..], IntTlv(id) + IntTlv(status) + IntTlv(index) + list);
  }

  lemma PutsAtStart(r: Result<nat, EncodeError>, was: seq<byte>, now: seq<byte>, x: seq<byte>)
    requires Puts(r, was, now, 0, x)
    ensures r.Success? <==> |x| <= |was|
    ensures r.Failure? ==> r.error == BufferTooSmall
    ensures |now| == |was| && (r.Success? ==> r.value == |x| && now[..|x|] == x && now[|x|..] == was[|x|..])
  {
  }

  method StageMessage(msg: array<byte>, community: seq<byte>, pdu: seq<byte>) returns (r: Result<nat, EncodeError>)
    requires msg.Length == SCRATCH && |pdu| <= SCRATCH
    modifies msg
    ensures r.Success? <==> |community| <= 0xFFFF
                            && |IntTlv(1) + Tlv(TAG_OCTET_STRING, community) + Tlv(TAG_GET_RESPONSE, pdu)| <= SCRATCH
    ensures r.Failure? ==> r.error == if |community| > 0xFFFF then InvalidValue else BufferTooSmall
    ensures r.Success? ==> var content := IntTlv(1) + Tlv(TAG_OCTET_STRING, community) + Tlv(TAG_GET_RESPONSE, pdu);
                           r.value == |content| && msg[..r.value] == content
  {
    hide IntTlv, Puts, Tlv, HeaderBytes;
    ghost var b0 := msg[..];
    var p1 := EncodeInteger(msg, 0, 1);
    ghost var b1 := msg[..];
    FitsEasily(p1, b0, b1, 0, IntTlv(1));
    var p2 := EncodeOctetString(msg, p1.value, community);
    ghost var b2 := msg[..];
    if |community| > 0xFFFF {
      return p2;
    }
    PutsThen(p2, b0, b1, b2, 0, IntTlv(1), Tlv(TAG_OCTET_STRING, community));
    PutsAtStart(p2, b0, b2, IntTlv(1) + Tlv(TAG_OCTET_STRING, community));
    if p2.Failure? {
      return p2;
    }
    if p2.value + BerHeaderSize(|pdu|) + |pdu| > msg.Length {
      return Failure(BufferTooSmall);
    }
    r := EncodeTlv(msg, p2.value, TAG_GET_RESPONSE, pdu);
    PutsThen(r, b0, b2, msg[..], 0, IntTlv(1) + Tlv(TAG_OCTET_STRING, community), Tlv(TAG_GET_RESPONSE, pdu));
    PutsAtStart(r, b0, msg[..], IntTlv(1) + Tlv(TAG_OCTET_STRING, community) + Tlv(TAG_GET_RESPONSE, pdu));
  }

  /** Nothing is staged whose list, or whose PDU, is too long for the scratch buffers. */
  lemma StagingNeedsList(id: i32, community: seq<byte>, status: i32, index: i32, bindings: seq<VarBind>)
    ensures Staged(id, community, status, index, bindings) ==>
              ListFits(bindings) && |PduOf(id, status, index, bindings)| <= SCRATCH
  {
    hide BindingsFit;
    if Staged(id, community, status, index, bindings) {
      BindingsLength(bindings);
    }
  }

  ghost function PduOf(id: i32, status: i32, index: i32, bindings: seq<VarBind>): seq<byte>
    requires ListFits(bindings)
  {
    IntTlv(id) + IntTlv(status) + IntTlv(index) + ListTlv(bindings)
  }

  ghost function Content(community: seq<byte>, pdu: seq<byte>): seq<byte>
    requires |community| <= 0xFFFF && |pdu| <= SCRATCH
  {
    IntTlv(1) + Tlv(TAG_OCTET_STRING, community) + Tlv(TAG_GET_RESPONSE, pdu)
  }

  lemma StagedExactly(id: i32, community: seq<byte>, status: i32, index: i32, bindings: seq<VarBind>)
    requires ListFits(bindings) && |PduOf(id, status, index, bindings)| <= SCRATCH
    ensures Staged(id, community, status, index, bindings) <==>
              |community| <= 0xFFFF && |Content(community, PduOf(id, status, index, bindings))| <= SCRATCH
    ensures Staged(id, community, status, index, bindings) ==>
              Response(id, community, status, index, bindings)
              == Tlv(TAG_SEQUENCE, Content(community, PduOf(id, status, index, bindings)))
  {
    hide Tlv, IntTlv, BindingsFit, AllNamed, BindingsBytes;
    BindingsLength(bindings);
    assert PduOf(id, status, index, bindings) == PduContent(id, status, index, bindings);
  }

  /** Everything inside the outermost SEQUENCE, built in three scratch buffers. */
  method StageContent(msg: array<byte>, id: i32, community: seq<byte>, status: i32, index: i32,
                      bindings: seq<VarBind>) returns (r: Result<nat, EncodeError>)
    requires msg.Length == SCRATCH
    modifies msg
    ensures r.Success? <==> Staged(id, community, status, index, bindings)
    ensures r.Failure? && AllNamed(bindings) && |community| <= 0xFFFF ==> r.error == BufferTooSmall
    ensures r.Success? ==> r.value <= SCRATCH
                           && Response(id, community, status, index, bindings) == Tlv(TAG_SEQUENCE, msg[..r.value])
  {
    hide Staged, Response, ListFits, ListTlv, Tlv, IntTlv;
    StagingNeedsList(id, community, status, index, bindings);
    var scratch := new byte[SCRATCH];
    var p := StageList(scratch, bindings);
    if p.Failure? {
      return p;
    }
    var pdu := new byte[SCRATCH];
    var pp := StagePdu(pdu, id, status, index, scratch[..p.value]);
    if pp.Failure? {
      return pp;
    }
    StagedExactly(id, community, status, index, bindings);
    r := StageMessage(msg, community, pdu[..pp.value]);
  }

  /** The response is written whole exactly when the staging buffers and the output hold it;
      a failure leaves the output as it was. */
  method EncodeGetResponse(buf: array<byte>, id: i32, community: seq<byte>, status: i32, index: i32,
                           bindings: seq<VarBind>) returns (r: Result<nat, EncodeError>)
    modifies buf
    ensures r.Success? <==> Staged(id, community, status, index, bindings)
                            && |Response(id, community, status, index, bindings)| <= buf.Length
    ensures r.Success? ==> r.value == |Response(id, community, status, index, bindings)|
                           && buf[..] == Response(id, community, status, index, bindings) + old(buf[r.value..])
    ensures r.Failure? ==> buf[..] == old(buf[..])
    ensures r.Failure? && AllNamed(bindings) && |community| <= 0xFFFF ==> r.error == BufferTooSmall
    ensures r.Success? && AllCarried(bindings) ==>
              ReadResponse(buf[..]) == Success(ResponseFields(1, community, id, status, index, bindings))
  {
    hide Staged, Response, HeaderBytes, ReadResponse, AllCarried;
    var msg := new byte[SCRATCH];
    var mp := StageContent(msg, id, community, status, index, bindings);
    if mp.Failure? {
      return mp;
    }
    var total := BerHeaderSize(mp.value) + mp.value;
    if total > buf.Length {
      return Failure(BufferTooSmall);
    }
    ghost var was := buf[..];
    ghost var out := Tlv(TAG_SEQUENCE, msg[..mp.value]);
    r := EncodeTlv(buf, 0, TAG_SEQUENCE, msg[..mp.value]);
    hide Tlv, Puts;
    PutsAtStart(r, was, buf[..], out);
    assert buf[..] == buf[..total] + buf[total..];
    if AllCarried(bindings) {
      ResponseReadsBack(id, community, status, index, bindings, buf[total..]);
    }
  }

  /** Bindings the codec carries, within the sizes of the staging buffers, are encoded into any buffer
      with room, and walk back from it. */
  lemma CarriedResponsesWalkBack(id: i32, community: seq<byte>, status: i32, index: i32, bindings: seq<VarBind>,
                                 rest: seq<byte>)
    requires AllCarried(bindings) && |community| <= 0xFFFF
    ensures AllNamed(bindings) && (BindingsFit(bindings) ==> |BindingsBytes(bindings)| <= SCRATCH)
    ensures BindingsFit(bindings) && |MessageContent(id, community, status, index, bindings)| <= SCRATCH ==>
              && Staged(id, community, status, index, bindings)
              && ReadResponse(Response(id, community, status, index, bindings) + rest)
                 == Success(ResponseFields(1, community, id, status, index, bindings))
  {
    hide AllCarried, AllNamed, BindingsFit, BindingsBytes, MessageContent, ReadResponse, Response;
    CarriedAreNamed(bindings);
    if BindingsFit(bindings) {
      BindingsLength(bindings);
      if |MessageContent(id, community, status, index, bindings)| <= SCRATCH {
        ResponseReadsBack(id, community, status, index, bindings, rest);
      }
    }
  }
}
