/** BACnet/IP framing (Annex J of ASHRAE 135) as in bridge-core/src/bvlc.rs, and the whole packet:
    virtual link, network and application layers one inside the other. */
module Bvlc {
  import opened Words
  import opened Octets
  import opened Npdu
  import opened ApduMessages
  import opened ApduTheorems

  const BVLC_TYPE: byte := 0x81
  const FORWARDED_NPDU: byte := 0x04

  datatype BvlcHeader = BvlcHeader(functionCode: byte, length: u16)

  function BvlcWire(f: byte, npdu: seq<byte>): seq<byte>
    requires 4 + |npdu| <= 0xFFFF
  {
    [BVLC_TYPE, f, (4 + |npdu|) / 0x100, (4 + |npdu|) % 0x100] + npdu
  }

  /** `decode_bvlc`. The announced length is not compared with the header's own four octets, so a
      smaller one asks for a slice that ends before it starts. */
  function BvlcOf(data: seq<byte>): (r: Result<(BvlcHeader, seq<byte>), DecodeError>)
    ensures r.Success? ==> |r.value.1| <= |data|
  {
    if |data| < 4 then Failure(UnexpectedEnd)
    else if data[0] != BVLC_TYPE then Failure(InvalidVersion)
    else
      var length: u16 := (data[2] as int) * 0x100 + data[3] as int;
      if length > |data| then Failure(LengthOutOfBounds)
      else if data[1] == FORWARDED_NPDU then
        if length < 10 then Failure(UnexpectedEnd) else Success((BvlcHeader(data[1], length), data[10..length]))
      else if length < 4 then Failure(OutOfRange)
      else Success((BvlcHeader(data[1], length), data[4..length]))
  }

  method EncodeBvlc(f: byte, npdu: seq<byte>, buf: array<byte>) returns (r: Result<nat, EncodeError>)
    modifies buf
    ensures 4 + |npdu| <= 0xFFFF ==> Puts(r, old(buf[..]), buf[..], 0, BvlcWire(f, npdu))
    ensures 4 + |npdu| > 0xFFFF ==> r == Failure(InvalidValue)
    ensures r.Failure? ==> buf[..] == old(buf[..])
  {
    var total := 4 + |npdu|;
    if total > 0xFFFF {
      return Failure(InvalidValue);
    }
    if buf.Length < total {
      return Failure(BufferTooSmall);
    }
    ghost var was := buf[..];
    buf[0] := BVLC_TYPE;
    buf[1] := f;
    buf[2] := total / 0x100;
    buf[3] := total % 0x100;
    ghost var mid := buf[..];
    assert mid == Splice(was, 0, [BVLC_TYPE, f, total / 0x100, total % 0x100]);
    r := Put(buf, 4, npdu);
    PutsThen(r, was, mid, buf[..], 0, [BVLC_TYPE, f, total / 0x100, total % 0x100], npdu);
  }

  method DecodeBvlc(data: seq<byte>) returns (r: Result<(BvlcHeader, seq<byte>), DecodeError>)
    ensures r == BvlcOf(data)
  {
    if |data| < 4 {
      return Failure(UnexpectedEnd);
    }
    if data[0] != BVLC_TYPE {
      return Failure(InvalidVersion);
    }
    var f := data[1];
    var length: u16 := (data[2] as int) * 0x100 + data[3] as int;
    if length > |data| {
      return Failure(LengthOutOfBounds);
    }
    var start := 4;
    if f == FORWARDED_NPDU {
      if length < 4 + 6 {
        return Failure(UnexpectedEnd);
      }
      start := 4 + 6;
    }
    if length < start {
      return Failure(OutOfRange);
    }
    return Success((BvlcHeader(f, length), data[start..length]));
  }

  /** A frame comes back, whatever follows it in the datagram, exactly when it is not a forwarded one:
      of those the first six octets are taken for an address. */
  lemma BvlcReadsBackExactly(f: byte, npdu: seq<byte>, tail: seq<byte>)
    requires 4 + |npdu| <= 0xFFFF
    ensures BvlcOf(BvlcWire(f, npdu) + tail) == Success((BvlcHeader(f, 4 + |npdu|), npdu)) <==> f != 0x04
    ensures f == 0x04 && |npdu| >= 6 ==>
              BvlcOf(BvlcWire(f, npdu) + tail) == Success((BvlcHeader(f, 4 + |npdu|), npdu[6..]))
    ensures f == 0x04 && |npdu| < 6 ==> BvlcOf(BvlcWire(f, npdu) + tail) == Failure(UnexpectedEnd)
  {
    var n := 4 + |npdu|;
    var data := BvlcWire(f, npdu) + tail;
    assert data[4..n] == npdu;
    assert (n / 0x100) * 0x100 + n % 0x100 == n;
    if f == 0x04 && |npdu| >= 6 {
      assert data[10..n] == npdu[6..];
      assert |npdu[6..]| < |npdu|;
    }
  }

  /** The decoder indexes out of range exactly on a frame, not forwarded, that announces fewer than
      four octets. */
  lemma BvlcOutOfRangeExactly(data: seq<byte>)
    ensures BvlcOf(data) == Failure(OutOfRange) <==>
              |data| >= 4 && data[0] == 0x81 && data[1] != 0x04 && data[2] == 0 && data[3] < 4
  {
  }

  /** Type 81, the function, the length of the whole frame, most significant octet first, and the packet. */
  lemma FrameIsLaidOut(f: byte, npdu: seq<byte>)
    requires 4 + |npdu| <= 0xFFFF
    ensures var s := BvlcWire(f, npdu);
            && s[0] == 0x81 && s[1] == f && s[2] as int * 0x100 + s[3] as int == |s| == 4 + |npdu| && s[4..] == npdu
  {
  }

  /** What a frame of any octets is read as, or why not: too short, another type, longer than what there is, or,
      forwarded, without room for the address of its origin. */
  lemma FrameReadExactly(data: seq<byte>)
    ensures |data| < 4 ==> BvlcOf(data) == Failure(UnexpectedEnd)
    ensures |data| >= 4 && data[0] != 0x81 ==> BvlcOf(data) == Failure(InvalidVersion)
    ensures |data| >= 4 && data[0] == 0x81 ==>
              var n := data[2] as int * 0x100 + data[3] as int;
              var start := if data[1] == 0x04 then 10 else 4;
              && (BvlcOf(data) == Failure(LengthOutOfBounds) <==> n > |data|)
              && (BvlcOf(data) == Failure(UnexpectedEnd) <==> n <= |data| && data[1] == 0x04 && n < 10)
              && (BvlcOf(data).Success? <==> start <= n <= |data|)
              && (BvlcOf(data).Success? ==> BvlcOf(data).value == (BvlcHeader(data[1], n), data[start..n]))
  {
  }

  // ------------------------------------------------------------------ the whole packet

  /** A service in a network packet in a frame. */
  function Packet(f: byte, h: NpduHeader, m: Apdu): seq<byte>
    requires Encodable(h) && !m.Unknown? && 4 + |NpduWire(h, Wire(m))| <= 0xFFFF
  {
    BvlcWire(f, NpduWire(h, Wire(m)))
  }

  function PacketOf(data: Slice): Result<(byte, NpduHeader, Apdu), DecodeError> {
    var (frame, npdu) :- BvlcOf(data);
    var (h, apdu) :- NpduOf(npdu);
    var m :- ApduOf(apdu);
    Success((frame.functionCode, h, m))
  }

  /** All three layers at once, whatever follows the packet: the function, the header and the service
      come back in normal form. */
  lemma PacketReadsBack(f: byte, h: NpduHeader, m: Apdu, data: Slice)
    requires Encodable(h) && !m.Unknown? && 4 + |NpduWire(h, Wire(m))| <= 0xFFFF && f != 0x04
    requires Packet(f, h, m) <= data
    ensures PacketOf(data) == Success((f, NormalHeader(h), Normal(m)))
  {
    hide *;
    var tail := data[|Packet(f, h, m)|..];
    PacketUnfolds(f, h, m, data);
    BvlcReadsBackExactly(f, NpduWire(h, Wire(m)), tail);
    NpduReadsBack(h, Wire(m));
    ApduReadsBack(m);
  }

  lemma PacketUnfolds(f: byte, h: NpduHeader, m: Apdu, data: Slice)
    requires Encodable(h) && !m.Unknown? && 4 + |NpduWire(h, Wire(m))| <= 0xFFFF && Packet(f, h, m) <= data
    ensures Packet(f, h, m) == BvlcWire(f, NpduWire(h, Wire(m)))
    ensures data == BvlcWire(f, NpduWire(h, Wire(m))) + data[|Packet(f, h, m)|..]
    ensures BvlcOf(data).Success? && NpduOf(BvlcOf(data).value.1).Success?
            && ApduOf(NpduOf(BvlcOf(data).value.1).value.1).Success? ==>
              var (frame, npdu) := BvlcOf(data).value;
              var (header, apdu) := NpduOf(npdu).value;
              PacketOf(data) == Success((frame.functionCode, header, ApduOf(apdu).value))
  {
    hide BvlcOf, NpduOf, ApduOf, BvlcWire, NpduWire, Wire;
  }

  /** And unchanged exactly when header and service are canonical. */
  lemma PacketReadsBackExactly(f: byte, h: NpduHeader, m: Apdu, data: Slice)
    requires Encodable(h) && !m.Unknown? && 4 + |NpduWire(h, Wire(m))| <= 0xFFFF && f != 0x04
    requires Packet(f, h, m) <= data
    ensures PacketOf(data) == Success((f, h, m)) <==> CanonicalHeader(h) && Canonical(m)
  {
    hide *;
    PacketReadsBack(f, h, m, data);
    NormalExactly(m);
    NpduReadsBack(h, []);
    NpduReadsBackExactly(h, []);
  }
}
