/** `encode_npdu` and `decode_npdu` of bridge-core/src/npdu.rs. */
module NpduCodec {
  import opened Words
  import opened Octets
  import opened Npdu

  method ControlOf(h: NpduHeader) returns (ctrl: byte)
    ensures ctrl == Control(h)
  {
    ctrl := 0;
    if h.networkMessage {
      ctrl := ctrl + 0x80;
    }
    if h.destPresent {
      ctrl := ctrl + 0x20;
    }
    if h.srcPresent {
      ctrl := ctrl + 0x08;
    }
    if h.expectingReply {
      ctrl := ctrl + 0x04;
    }
    ctrl := ctrl + h.priority % 4;
  }

  /** Network number, length and address octets. */
  method PutAddress(buf: array<byte>, pos: nat, net: u16, mac: Mac, len: byte) returns (next: nat)
    requires len <= 7 && pos + 3 + len <= buf.Length
    modifies buf
    ensures next == pos + 3 + len && Puts(Success(next), old(buf[..]), buf[..], pos, AddressBytes(net, mac, len))
  {
    ghost var was := buf[..];
    buf[pos] := net / 0x100;
    buf[pos + 1] := net % 0x100;
    buf[pos + 2] := len;
    ghost var mid := buf[..];
    assert mid == Splice(was, pos, [net / 0x100, net % 0x100, len]);
    var r := Put(buf, pos + 3, mac[..len]);
    PutsThen(r, was, mid, buf[..], pos, [net / 0x100, net % 0x100, len], mac[..len]);
    return pos + 3 + len;
  }

  lemma Sizes(h: NpduHeader, apdu: seq<byte>)
    requires Encodable(h)
    ensures |NpduWire(h, apdu)| == 2 + |DestBytes(h)| + |SrcBytes(h)| + |HopBytes(h)| + |apdu|
    ensures |DestBytes(h)| == (if h.destPresent then 3 + h.destMacLen else 0)
    ensures |SrcBytes(h)| == (if h.srcPresent then 3 + h.srcMacLen else 0)
    ensures |HopBytes(h)| == if h.destPresent then 1 else 0
  {
  }

  /** The space needed is added up first; then header and payload are written, or nothing is. */
  method EncodeNpdu(h: NpduHeader, apdu: seq<byte>, buf: array<byte>) returns (r: Result<nat, EncodeError>)
    modifies buf
    ensures Encodable(h) ==> Puts(r, old(buf[..]), buf[..], 0, NpduWire(h, apdu))
    ensures !Encodable(h) ==> r == Failure(InvalidValue)
    ensures r.Failure? ==> buf[..] == old(buf[..])
  {
    if (h.destPresent && h.destMacLen > 7) || (h.srcPresent && h.srcMacLen > 7) {
      return Failure(InvalidValue);
    }
    Sizes(h, apdu);
    var ctrl := ControlOf(h);
    var needed := 2;
    if h.destPresent {
      needed := needed + 2 + 1 + h.destMacLen;
    }
    if h.srcPresent {
      needed := needed + 2 + 1 + h.srcMacLen;
    }
    if h.destPresent {
      needed := needed + 1;
    }
    needed := needed + |apdu|;
    if buf.Length < needed {
      return Failure(BufferTooSmall);
    }
    ghost var was := buf[..];
    buf[0] := 0x01;
    buf[1] := ctrl;
    assert buf[..] == Splice(was, 0, [0x01, Control(h)]);
    var pos := WriteAddresses(h, buf, was, [0x01, Control(h)]);
    r := WriteRest(h, apdu, buf, pos, was, [0x01, Control(h)] + DestBytes(h) + SrcBytes(h));
  }

  method WriteAddresses(h: NpduHeader, buf: array<byte>, ghost was: seq<byte>, ghost head: seq<byte>) returns (pos: nat)
    requires Encodable(h) && |head| == 2 && Puts(Success(2), was, buf[..], 0, head)
    requires 2 + |DestBytes(h)| + |SrcBytes(h)| <= buf.Length
    modifies buf
    ensures pos == 2 + |DestBytes(h)| + |SrcBytes(h)|
            && Puts(Success(pos), was, buf[..], 0, head + DestBytes(h) + SrcBytes(h))
  {
    hide Puts, AddressBytes;
    pos := 2;
    ghost var mid := buf[..];
    assert head + [] == head && head + DestBytes(h) + [] == head + DestBytes(h);
    if h.destPresent {
      pos := PutAddress(buf, pos, h.destNet, h.destMac, h.destMacLen);
      PutsThen(Success(pos), was, mid, buf[..], 0, head, DestBytes(h));
    }
    mid := buf[..];
    if h.srcPresent {
      pos := PutAddress(buf, pos, h.srcNet, h.srcMac, h.srcMacLen);
      PutsThen(Success(pos), was, mid, buf[..], 0, head + DestBytes(h), SrcBytes(h));
    }
  }

  method WriteRest(h: NpduHeader, apdu: seq<byte>, buf: array<byte>, start: nat, ghost was: seq<byte>,
                   ghost head: seq<byte>)
    returns (r: Result<nat, EncodeError>)
    requires start == |head| && Puts(Success(start), was, buf[..], 0, head)
    requires start + |HopBytes(h)| + |apdu| <= buf.Length
    modifies buf
    ensures Puts(r, was, buf[..], 0, head + HopBytes(h) + apdu) && r.Success?
  {
    hide Puts;
    var pos := start;
    ghost var mid := buf[..];
    assert head + [] == head;
    if h.destPresent {
      r := Put(buf, pos, [h.hopCount]);
      PutsThen(r, was, mid, buf[..], 0, head, [h.hopCount]);
      FitsEasily(r, mid, buf[..], pos, [h.hopCount]);
      pos := pos + 1;
    }
    mid := buf[..];
    r := Put(buf, pos, apdu);
    FitsEasily(r, mid, buf[..], pos, apdu);
    PutsThen(r, was, mid, buf[..], 0, head + HopBytes(h), apdu);
  }

  lemma AddressHere(data: seq<byte>, pos: nat, octets: seq<byte>)
    requires pos + 3 + |octets| <= |data| && data[pos + 2] == |octets| <= 7
    requires octets == data[pos + 3..pos + 3 + |octets|]
    ensures AddressAt(data, pos) == Success(Address((data[pos] as int) * 0x100 + data[pos + 1] as int, Padded(octets),
                                                    |octets|, pos + 3 + |octets|))
  {
  }

  lemma NoAddressHere(data: seq<byte>, pos: nat)
    ensures |data| < pos + 3 ==> AddressAt(data, pos) == Failure(UnexpectedEnd)
    ensures |data| >= pos + 3 && data[pos + 2] > 7 ==> AddressAt(data, pos) == Failure(InvalidData)
    ensures |data| >= pos + 3 && data[pos + 2] <= 7 && |data| < pos + 3 + data[pos + 2] ==>
              AddressAt(data, pos) == Failure(UnexpectedEnd)
  {
  }

  method DecodeAddress(data: seq<byte>, start: nat) returns (r: Result<Address, DecodeError>)
    ensures r == AddressAt(data, start)
  {
    hide *;
    NoAddressHere(data, start);
    var pos := start;
    if |data| < pos + 3 {
      return Failure(UnexpectedEnd);
    }
    var net: u16 := (data[pos] as int) * 0x100 + data[pos + 1] as int;
    pos := pos + 2;
    var len := data[pos];
    pos := pos + 1;
    if len > 7 {
      return Failure(InvalidData);
    }
    if |data| < pos + len {
      return Failure(UnexpectedEnd);
    }
    var mac: seq<byte> := NO_MAC;
    var octets := data[pos..pos + len];
    mac := octets + mac[len..];
    PaddedWithZeros(octets);
    AddressHere(data, start, octets);
    return Success(Address(net, mac, len, pos + len));
  }

  /** The header is filled in field by field. */
  method DecodeNpdu(data: seq<byte>) returns (r: Result<(NpduHeader, seq<byte>), DecodeError>)
    ensures r == NpduOf(data)
  {
    hide AddressAt, HasBit;
    if |data| < 2 {
      return Failure(UnexpectedEnd);
    }
    if data[0] != 0x01 {
      return Failure(InvalidVersion);
    }
    var ctrl := data[1];
    var header := NpduHeader(data[0], HasBit(ctrl, 0x80), HasBit(ctrl, 0x20), 0, NO_MAC, 0, HasBit(ctrl, 0x08), 0,
                             NO_MAC, 0,
                             0, HasBit(ctrl, 0x04), ctrl % 4);
    var pos := 2;
    if header.destPresent {
      var a :- DecodeAddress(data, pos);
      header := header.(destNet := a.net, destMac := a.mac, destMacLen := a.len);
      pos := a.next;
    }
    if header.srcPresent {
      var a :- DecodeAddress(data, pos);
      header := header.(srcNet := a.net, srcMac := a.mac, srcMacLen := a.len);
      pos := a.next;
    }
    if header.destPresent {
      if |data| < pos + 1 {
        return Failure(UnexpectedEnd);
      }
      header := header.(hopCount := data[pos]);
      pos := pos + 1;
    }
    return Success((header, data[pos..]));
  }
}
