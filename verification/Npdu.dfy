/** The BACnet network layer header (clause 6.2 of ASHRAE 135) as bridge-core/src/npdu.rs packs it. */
module Npdu {
  import opened Words
  import opened Octets

  /** A fixed array of seven octets. */
  type Mac = s: seq<byte> | |s| == 7 witness [0, 0, 0, 0, 0, 0, 0]

  const NO_MAC: Mac := [0, 0, 0, 0, 0, 0, 0]

  datatype NpduHeader = NpduHeader(
    version: byte, networkMessage: bool,
    destPresent: bool, destNet: u16, destMac: Mac, destMacLen: byte,
    srcPresent: bool, srcNet: u16, srcMac: Mac, srcMacLen: byte,
    hopCount: byte, expectingReply: bool, priority: byte)

  // ------------------------------------------------------------------ what is written

  function Bit(b: bool, v: nat): nat {
    if b then v else 0
  }

  function Control(h: NpduHeader): byte {
    Bit(h.networkMessage, 0x80) + Bit(h.destPresent, 0x20) + Bit(h.srcPresent, 0x08) + Bit(h.expectingReply, 0x04)
    + h.priority % 4
  }

  /** `encode_npdu` refuses addresses longer than their arrays. */
  predicate Encodable(h: NpduHeader) {
    (h.destPresent ==> h.destMacLen <= 7) && (h.srcPresent ==> h.srcMacLen <= 7)
  }

  function AddressBytes(net: u16, mac: Mac, len: byte): (s: seq<byte>)
    requires len <= 7
    ensures |s| == 3 + len
  {
    [net / 0x100, net % 0x100, len] + mac[..len]
  }

  function DestBytes(h: NpduHeader): seq<byte>
    requires Encodable(h)
  {
    if h.destPresent then AddressBytes(h.destNet, h.destMac, h.destMacLen) else []
  }

  function SrcBytes(h: NpduHeader): seq<byte>
    requires Encodable(h)
  {
    if h.srcPresent then AddressBytes(h.srcNet, h.srcMac, h.srcMacLen) else []
  }

  function HopBytes(h: NpduHeader): seq<byte> {
    if h.destPresent then [h.hopCount] else []
  }

  function NpduWire(h: NpduHeader, apdu: seq<byte>): seq<byte>
    requires Encodable(h)
  {
    [0x01, Control(h)] + DestBytes(h) + SrcBytes(h) + HopBytes(h) + apdu
  }

  // ------------------------------------------------------------------ what is read

  datatype Address = Address(net: u16, mac: Mac, len: byte, next: nat)

  function Padded(s: seq<byte>): Mac
    requires |s| <= 7
  {
    s + seq(7 - |s|, k => 0)
  }

  lemma PaddedWithZeros(s: seq<byte>)
    requires |s| <= 7
    ensures Padded(s) == s + NO_MAC[|s|..]
  {
  }

  /** A network number, a length, and that many octets of address in an array of zeros. */
  function AddressAt(data: seq<byte>, pos: nat): (r: Result<Address, DecodeError>)
    ensures r.Success? ==> r.value.len <= 7 && r.value.next == pos + 3 + r.value.len <= |data|
  {
    if |data| < pos + 3 then Failure(UnexpectedEnd)
    else if data[pos + 2] > 7 then Failure(InvalidData)
    else if |data| < pos + 3 + data[pos + 2] then Failure(UnexpectedEnd)
    else Success(Address((data[pos] as int) * 0x100 + data[pos + 1] as int,
                         Padded(data[pos + 3..pos + 3 + data[pos + 2]]), data[pos + 2],
                         pos + 3 + data[pos + 2]))
  }

  function OptionalAddressAt(data: seq<byte>, pos: nat, present: bool): (r: Result<Address, DecodeError>)
    requires pos <= |data|
    ensures r.Success? ==> pos <= r.value.next <= |data|
  {
    if present then AddressAt(data, pos) else Success(Address(0, NO_MAC, 0, pos))
  }

  predicate HasBit(control: byte, v: nat)
    requires v > 0
  {
    control / v % 2 == 1
  }

  /** `decode_npdu`: the header and what follows it. */
  function NpduOf(data: seq<byte>): (r: Result<(NpduHeader, seq<byte>), DecodeError>)
    ensures r.Success? ==> |r.value.1| <= |data|
  {
    if |data| < 2 then Failure(UnexpectedEnd)
    else if data[0] != 0x01 then Failure(InvalidVersion)
    else
      var c := data[1];
      var dest :- OptionalAddressAt(data, 2, HasBit(c, 0x20));
      var src :- OptionalAddressAt(data, dest.next, HasBit(c, 0x08));
      if HasBit(c, 0x20) && src.next >= |data| then Failure(UnexpectedEnd)
      else
        var hops := if HasBit(c, 0x20) then data[src.next] else 0;
        var next := if HasBit(c, 0x20) then src.next + 1 else src.next;
        Success((NpduHeader(0x01, HasBit(c, 0x80), HasBit(c, 0x20), dest.net, dest.mac, dest.len,
                            HasBit(c, 0x08), src.net, src.mac, src.len, hops, HasBit(c, 0x04), c % 4),
                 data[next..]))
  }

  // ------------------------------------------------------------------ reading back

  /** A header as it comes back: version 1, absent fields zero, addresses padded, two bits of priority. */
  function NormalHeader(h: NpduHeader): NpduHeader
    requires Encodable(h)
  {
    NpduHeader(0x01, h.networkMessage,
               h.destPresent, if h.destPresent then h.destNet else 0,
               if h.destPresent then Padded(h.destMac[..h.destMacLen]) else NO_MAC,
               if h.destPresent then h.destMacLen else 0,
               h.srcPresent, if h.srcPresent then h.srcNet else 0,
               if h.srcPresent then Padded(h.srcMac[..h.srcMacLen]) else NO_MAC,
               if h.srcPresent then h.srcMacLen else 0,
               if h.destPresent then h.hopCount else 0, h.expectingReply, h.priority % 4)
  }

  lemma ControlBits(h: NpduHeader)
    ensures HasBit(Control(h), 0x80) == h.networkMessage && HasBit(Control(h), 0x20) == h.destPresent
    ensures HasBit(Control(h), 0x08) == h.srcPresent && HasBit(Control(h), 0x04) == h.expectingReply
    ensures Control(h) % 4 == h.priority % 4
  {
    var a, b, d, e := Bit(h.networkMessage, 1), Bit(h.destPresent, 1), Bit(h.srcPresent, 1), Bit(h.expectingReply, 1);
    Scale(h.networkMessage, 0x80);
    Scale(h.destPresent, 0x20);
    Scale(h.srcPresent, 0x08);
    Scale(h.expectingReply, 0x04);
    hide Bit;
    Quotients(a, b, d, e, h.priority % 4);
  }

  lemma Scale(b: bool, v: nat)
    ensures Bit(b, v) == v * Bit(b, 1) && (Bit(b, 1) == if b then 1 else 0)
  {
  }

  lemma Quotients(a: nat, b: nat, d: nat, e: nat, p: nat)
    requires a <= 1 && b <= 1 && d <= 1 && e <= 1 && p < 4
    ensures var c := 0x80 * a + 0x20 * b + 0x08 * d + 0x04 * e + p;
            && (c / 0x80) % 2 == a && (c / 0x20) % 2 == b && (c / 0x08) % 2 == d && (c / 0x04) % 2 == e && c % 4 == p
  {
    var c := 0x80 * a + 0x20 * b + 0x08 * d + 0x04 * e + p;
    assert c / 0x80 == a;
    assert c / 0x20 == 4 * a + b;
    assert c / 0x08 == 16 * a + 4 * b + d;
    assert c / 0x04 == 32 * a + 8 * b + 2 * d + e;
  }

  lemma AddressReadsBack(data: seq<byte>, pos: nat, net: u16, mac: Mac, len: byte)
    requires len <= 7 && HasAt(data, pos, AddressBytes(net, mac, len))
    ensures AddressAt(data, pos) == Success(Address(net, Padded(mac[..len]), len, pos + 3 + len))
  {
    hide HasAt, Padded;
    var head := [net / 0x100, net % 0x100, len];
    HasConcat(data, pos, head, mac[..len]);
    HasIndex(data, pos, head, 0);
    HasIndex(data, pos, head, 1);
    HasIndex(data, pos, head, 2);
    HasSlice(data, pos + 3, mac[..len]);
  }

  /** Decoding an encoded packet gives the header in normal form and the payload. */
  lemma NpduReadsBack(h: NpduHeader, apdu: seq<byte>)
    requires Encodable(h)
    ensures NpduOf(NpduWire(h, apdu)) == Success((NormalHeader(h), apdu))
  {
    hide HasAt, AddressAt, AddressBytes, Control, HasBit, Padded;
    var head, dest, src, hop := [0x01, Control(h)], DestBytes(h), SrcBytes(h), HopBytes(h);
    var data := NpduWire(h, apdu);
    FiveParts(head, dest, src, hop, apdu);
    ControlBits(h);
    HasIndex(data, 0, head, 0);
    HasIndex(data, 0, head, 1);
    if h.destPresent {
      AddressReadsBack(data, 2, h.destNet, h.destMac, h.destMacLen);
      HasIndex(data, 2 + |dest| + |src|, hop, 0);
    }
    if h.srcPresent {
      AddressReadsBack(data, 2 + |dest|, h.srcNet, h.srcMac, h.srcMacLen);
    }
  }

  ghost predicate ZeroFrom(mac: Mac, len: byte) {
    forall k :: 0 <= k < 7 && len <= k ==> mac[k] == 0
  }

  /** What a caller can check of a header before encoding it. */
  ghost predicate CanonicalHeader(h: NpduHeader) {
    && h.version == 0x01 && h.priority < 4 && Encodable(h)
    && (if h.destPresent then ZeroFrom(h.destMac, h.destMacLen)
        else h.destNet == 0 && ZeroFrom(h.destMac, 0) && h.destMacLen == 0 && h.hopCount == 0)
    && (if h.srcPresent then ZeroFrom(h.srcMac, h.srcMacLen)
        else h.srcNet == 0 && ZeroFrom(h.srcMac, 0) && h.srcMacLen == 0)
  }

  lemma PaddedExactly(mac: Mac, len: byte)
    requires len <= 7
    ensures Padded(mac[..len]) == mac <==> ZeroFrom(mac, len)
    ensures mac == NO_MAC <==> ZeroFrom(mac, 0)
  {
    if Padded(mac[..len]) == mac {
      forall k | 0 <= k < 7 && len <= k ensures mac[k] == 0 {
        assert Padded(mac[..len])[k] == 0;
      }
    }
  }

  /** A header survives exactly when it is canonical. */
  lemma NpduReadsBackExactly(h: NpduHeader, apdu: seq<byte>)
    requires Encodable(h)
    ensures NpduOf(NpduWire(h, apdu)) == Success((h, apdu)) <==> CanonicalHeader(h)
  {
    hide NpduOf, NpduWire, Padded, ZeroFrom;
    NpduReadsBack(h, apdu);
    PaddedExactly(h.destMac, if h.destPresent then h.destMacLen else 0);
    PaddedExactly(h.srcMac, if h.srcPresent then h.srcMacLen else 0);
  }

  // ------------------------------------------------------------------ encoding what was decoded

  /** The control octet without its two reserved bits. */
  function Unreserved(c: byte): byte {
    c - (if HasBit(c, 0x40) then 0x40 else 0) - if HasBit(c, 0x10) then 0x10 else 0
  }

  /** One bit's worth of a division. */
  lemma BitOf(c: byte, v: nat)
    requires v == 4 || v == 8 || v == 16 || v == 32 || v == 64
    ensures c / v == 2 * (c / (2 * v)) + Bit(HasBit(c, v), 1)
  {
    HalfOf(c / v, c / v / 2);
    NestedHalves(c);
  }

  lemma NestedHalves(c: byte)
    ensures c / 4 / 2 == c / 8 && c / 8 / 2 == c / 16 && c / 16 / 2 == c / 32 && c / 32 / 2 == c / 64
            && c / 64 / 2 == c / 128
  {
  }

  lemma HalfOf(q: nat, half: nat)
    requires half == q / 2
    ensures q == 2 * half + Bit(q % 2 == 1, 1)
  {
  }

  lemma TopBit(c: byte)
    ensures c / 128 == Bit(HasBit(c, 0x80), 1)
  {
  }

  lemma LowestBits(c: byte)
    ensures c == 4 * (c / 4) + c % 4
  {
  }

  lemma Halvings(c: int, q: int, q8: int, q16: int, q32: int, q64: int, q128: int, p: int, b4: int, b8: int, b16: int,
                 b32: int, b64: int)
    requires c == 4 * q + p && q == 2 * q8 + b4 && q8 == 2 * q16 + b8 && q16 == 2 * q32 + b16 && q32 == 2 * q64 + b32
    requires q64 == 2 * q128 + b64
    ensures c == 0x80 * q128 + 0x40 * b64 + 0x20 * b32 + 0x10 * b16 + 0x08 * b8 + 0x04 * b4 + p
  {
  }

  lemma BitsOfControl(c: byte)
    ensures c == 0x80 * Bit(HasBit(c, 0x80), 1) + 0x40 * Bit(HasBit(c, 0x40), 1) + 0x20 * Bit(HasBit(c, 0x20), 1)
                 + 0x10 * Bit(HasBit(c, 0x10), 1) + 0x08 * Bit(HasBit(c, 0x08), 1) + 0x04 * Bit(HasBit(c, 0x04), 1)
                 + c % 4
  {
    hide HasBit, Bit;
    LowestBits(c);
    BitOf(c, 4);
    BitOf(c, 8);
    BitOf(c, 16);
    BitOf(c, 32);
    BitOf(c, 64);
    TopBit(c);
    Halvings(c, c / 4, c / 8, c / 16, c / 32, c / 64, c / 128, c % 4, Bit(HasBit(c, 4), 1), Bit(HasBit(c, 8), 1),
             Bit(HasBit(c, 16), 1), Bit(HasBit(c, 32), 1), Bit(HasBit(c, 64), 1));
  }

  lemma ControlOfBits(c: byte, h: NpduHeader)
    requires h.networkMessage == HasBit(c, 0x80) && h.destPresent == HasBit(c, 0x20) && h.srcPresent == HasBit(c, 0x08)
    requires h.expectingReply == HasBit(c, 0x04) && h.priority == c % 4
    ensures Control(h) == Unreserved(c)
  {
    hide HasBit;
    BitsOfControl(c);
  }

  lemma AddressRewritten(data: seq<byte>, pos: nat)
    requires AddressAt(data, pos).Success?
    ensures var a := AddressAt(data, pos).value; AddressBytes(a.net, a.mac, a.len) == data[pos..a.next]
  {
    var a := AddressAt(data, pos).value;
    assert a.mac[..a.len] == data[pos + 3..a.next];
    assert a.net / 0x100 == data[pos] && a.net % 0x100 == data[pos + 1];
    assert data[pos..a.next] == [data[pos], data[pos + 1], data[pos + 2]] + data[pos + 3..a.next];
  }

  lemma Cut(data: seq<byte>, a: nat, b: nat, c: nat)
    requires 2 <= a <= b <= c <= |data|
    ensures data == data[..2] + data[2..a] + data[a..b] + data[b..c] + data[c..]
  {
    assert data[..2] + data[2..a] == data[..a];
    assert data[..a] + data[a..b] == data[..b];
    assert data[..b] + data[b..c] == data[..c];
  }

  /** Encoding a decoded packet gives its octets again, reserved bits cleared; so exactly the packets
      whose reserved bits are zero are reproduced. */
  lemma RewrittenExactly(data: seq<byte>)
    requires NpduOf(data).Success?
    ensures var (h, apdu) := NpduOf(data).value;
            && CanonicalHeader(h)
            && NpduWire(h, apdu) == data[1 := Unreserved(data[1])]
            && (NpduWire(h, apdu) == data <==> !HasBit(data[1], 0x40) && !HasBit(data[1], 0x10))
  {
    hide AddressBytes, AddressAt, HasBit, Control, ZeroFrom, Unreserved;
    var (h, apdu) := NpduOf(data).value;
    var c := data[1];
    var dest := OptionalAddressAt(data, 2, HasBit(c, 0x20)).value;
    var src := OptionalAddressAt(data, dest.next, HasBit(c, 0x08)).value;
    var next := if HasBit(c, 0x20) then src.next + 1 else src.next;
    Cut(data, dest.next, src.next, next);
    ControlOfBits(c, h);
    ReservedBits(c);
    PaddingIsZero(data, 2, HasBit(c, 0x20));
    PaddingIsZero(data, dest.next, HasBit(c, 0x08));
    if h.destPresent {
      AddressRewritten(data, 2);
    }
    if h.srcPresent {
      AddressRewritten(data, dest.next);
    }
    assert DestBytes(h) == data[2..dest.next] && SrcBytes(h) == data[dest.next..src.next];
    assert HopBytes(h) == data[src.next..next] && apdu == data[next..];
    Patched(data, [0x01, Unreserved(c)], data[2..dest.next], data[dest.next..src.next], data[src.next..next],
            data[next..]);
  }

  lemma ReservedBits(c: byte)
    ensures Unreserved(c) == c <==> !HasBit(c, 0x40) && !HasBit(c, 0x10)
  {
  }

  lemma PaddingIsZero(data: seq<byte>, pos: nat, present: bool)
    requires pos <= |data| && OptionalAddressAt(data, pos, present).Success?
    ensures var a := OptionalAddressAt(data, pos, present).value;
            a.len <= 7 && ZeroFrom(a.mac, a.len) && (!present ==> a.net == 0 && a.len == 0)
  {
  }

  lemma Patched(data: seq<byte>, head: seq<byte>, a: seq<byte>, b: seq<byte>, c: seq<byte>, d: seq<byte>)
    requires |head| == 2 <= |data| && data == data[..2] + a + b + c + d && head[0] == data[0]
    ensures head + a + b + c + d == data[1 := head[1]]
    ensures data[1 := head[1]] == data <==> head[1] == data[1]
  {
    assert head + a + b + c + d == head + (a + b + c + d);
    assert data[1 := head[1]][..2] == head;
    assert data[1 := head[1]][2..] == data[2..] == a + b + c + d;
    assert data[1 := head[1]] == head + data[2..];
    assert data[1 := head[1]][1] == head[1];
  }
}
