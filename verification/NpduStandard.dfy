/** The network layer header by clause 6.2 of ASHRAE 135, read with numbers of its own. */
module NpduStandard {
  import opened Words
  import opened Octets
  import opened Npdu

  /** Network number, length of the station address, station address; the code keeps up to seven octets. */
  function AddressIn(data: seq<byte>, pos: nat): (a: Option<Address>)
    ensures a.Some? ==> pos + 3 <= a.value.next <= |data|
  {
    if pos + 3 > |data| || data[pos + 2] > 7 || pos + 3 + data[pos + 2] > |data| then None
    else
      var n := data[pos + 2];
      Some(Address(data[pos] as int * 0x100 + data[pos + 1] as int,
                   data[pos + 3..pos + 3 + n] + [0, 0, 0, 0, 0, 0, 0][n..], n, pos + 3 + n))
  }

  /** Protocol version 1; a control octet of which bit 7 marks a network layer message, bit 5 a destination,
      bit 3 a source, bit 2 an expected reply, bits 1 and 0 give the priority, and bits 6 and 4 are zero;
      destination, source; a hop count behind them if there is a destination; the rest. */
  function NpduIn(data: seq<byte>): Option<(NpduHeader, seq<byte>)> {
    if |data| < 2 || data[0] != 1 || data[1] % 0x80 >= 0x40 || data[1] % 0x20 >= 0x10 then None
    else
      var toOther, fromOther := data[1] % 0x40 >= 0x20, data[1] % 0x10 >= 0x08;
      var dest := if toOther then AddressIn(data, 2) else Some(Address(0, [0, 0, 0, 0, 0, 0, 0], 0, 2));
      if dest.None? then None
      else
        var d := dest.value;
        var source := if fromOther then AddressIn(data, d.next) else Some(Address(0, [0, 0, 0, 0, 0, 0, 0], 0, d.next));
        if source.None? then None
        else
          var s := source.value;
          if toOther && s.next == |data| then None
          else
            var next := if toOther then s.next + 1 else s.next;
            Some((NpduHeader(1, data[1] >= 0x80, toOther, d.net, d.mac, d.len, fromOther, s.net, s.mac, s.len,
                             if toOther then data[s.next] else 0, data[1] % 0x08 >= 0x04, data[1] % 0x04),
                  data[next..]))
  }

  lemma BitsAre(c: byte)
    ensures HasBit(c, 0x80) <==> c >= 0x80
    ensures HasBit(c, 0x40) <==> c % 0x80 >= 0x40
    ensures HasBit(c, 0x20) <==> c % 0x40 >= 0x20
    ensures HasBit(c, 0x10) <==> c % 0x20 >= 0x10
    ensures HasBit(c, 0x08) <==> c % 0x10 >= 0x08
    ensures HasBit(c, 0x04) <==> c % 0x08 >= 0x04
  {
    hide HasBit;
    OneBit(c, 0x80);
    OneBit(c, 0x40);
    OneBit(c, 0x20);
    OneBit(c, 0x10);
    OneBit(c, 0x08);
    OneBit(c, 0x04);
  }

  lemma OneBit(c: byte, v: nat)
    requires v == 0x80 || v == 0x40 || v == 0x20 || v == 0x10 || v == 0x08 || v == 0x04
    ensures HasBit(c, v) <==> c % (2 * v) >= v
  {
    var q := c / v;
    assert c % (2 * v) == c - 2 * v * (c / (2 * v));
    assert c / (2 * v) == q / 2;
  }

  lemma AddressIsRead(data: seq<byte>, pos: nat)
    ensures AddressIn(data, pos).Some? ==> AddressAt(data, pos) == Success(AddressIn(data, pos).value)
    ensures AddressIn(data, pos).None? ==> AddressAt(data, pos).Failure?
  {
    hide Padded;
    if pos + 3 <= |data| && data[pos + 2] <= 7 && pos + 3 + data[pos + 2] <= |data| {
      PaddedWithZeros(data[pos + 3..pos + 3 + data[pos + 2]]);
    }
  }

  /** Every standard header is read as what it says. */
  lemma StandardHeaderIsRead(data: seq<byte>)
    requires NpduIn(data).Some?
    ensures NpduOf(data) == Success(NpduIn(data).value)
  {
    hide HasBit, AddressIn, AddressAt;
    BitsAre(data[1]);
    AddressIsRead(data, 2);
    if data[1] % 0x40 >= 0x20 {
      AddressIsRead(data, AddressIn(data, 2).value.next);
    }
  }

  lemma AddressWritten(data: seq<byte>, pos: nat, net: u16, mac: Mac, len: byte)
    requires len <= 7 && HasAt(data, pos, AddressBytes(net, mac, len))
    ensures AddressIn(data, pos) == Some(Address(net, Padded(mac[..len]), len, pos + 3 + len))
  {
    hide HasAt, AddressIn, AddressAt;
    AddressReadsBack(data, pos, net, mac, len);
    AddressIsRead(data, pos);
  }

  lemma NoReservedBits(h: NpduHeader)
    ensures !HasBit(Control(h), 0x40) && !HasBit(Control(h), 0x10)
  {
    var a, b, d, e := Bit(h.networkMessage, 1), Bit(h.destPresent, 1), Bit(h.srcPresent, 1), Bit(h.expectingReply, 1);
    Scale(h.networkMessage, 0x80);
    Scale(h.destPresent, 0x20);
    Scale(h.srcPresent, 0x08);
    Scale(h.expectingReply, 0x04);
    hide Bit;
    ReservedQuotients(a, b, d, e, h.priority % 4);
  }

  lemma ReservedQuotients(a: nat, b: nat, d: nat, e: nat, p: nat)
    requires a <= 1 && b <= 1 && d <= 1 && e <= 1 && p < 4
    ensures var c := 0x80 * a + 0x20 * b + 0x08 * d + 0x04 * e + p; (c / 0x40) % 2 == 0 && (c / 0x10) % 2 == 0
  {
    var c := 0x80 * a + 0x20 * b + 0x08 * d + 0x04 * e + p;
    assert c / 0x40 == 2 * a;
    assert c / 0x10 == 8 * a + 2 * b;
  }

  /** What is written, read by the standard, is the header in normal form and the payload. */
  lemma WrittenIsStandard(h: NpduHeader, apdu: seq<byte>)
    requires Encodable(h)
    ensures NpduIn(NpduWire(h, apdu)) == Some((NormalHeader(h), apdu))
  {
    hide HasAt, AddressIn, AddressBytes, Control, HasBit, Padded;
    var head, dest, src, hop := [0x01, Control(h)], DestBytes(h), SrcBytes(h), HopBytes(h);
    var data := NpduWire(h, apdu);
    FiveParts(head, dest, src, hop, apdu);
    ControlBits(h);
    NoReservedBits(h);
    BitsAre(Control(h));
    HasIndex(data, 0, head, 0);
    HasIndex(data, 0, head, 1);
    if h.destPresent {
      AddressWritten(data, 2, h.destNet, h.destMac, h.destMacLen);
      HasIndex(data, 2 + |dest| + |src|, hop, 0);
    }
    if h.srcPresent {
      AddressWritten(data, 2 + |dest|, h.srcNet, h.srcMac, h.srcMacLen);
    }
  }

  // ------------------------------------------------------------------ what is refused

  /** A header cut short, another version, an address of more than seven octets. */
  lemma HeaderRefused(data: seq<byte>)
    ensures |data| < 2 ==> NpduOf(data) == Failure(UnexpectedEnd)
    ensures |data| >= 2 && data[0] != 1 ==> NpduOf(data) == Failure(InvalidVersion)
    ensures |data| >= 2 && data[0] == 1 && data[1] % 0x40 >= 0x20 && AddressAt(data, 2).Failure? ==>
              NpduOf(data) == Failure(AddressAt(data, 2).error)
    ensures (|data| >= 2 && data[0] == 1 && data[1] % 0x40 < 0x20 && data[1] % 0x10 >= 0x08
             && AddressAt(data, 2).Failure?) ==> NpduOf(data) == Failure(AddressAt(data, 2).error)
    ensures |data| >= 2 && data[0] == 1 && data[1] % 0x40 >= 0x20 && AddressAt(data, 2).Success? ==>
              var next := AddressAt(data, 2).value.next;
              (data[1] % 0x10 >= 0x08 && AddressAt(data, next).Failure? ==>
                 NpduOf(data) == Failure(AddressAt(data, next).error))
              && (data[1] % 0x10 < 0x08 && next == |data| ==> NpduOf(data) == Failure(UnexpectedEnd))
  {
    hide HasBit, AddressAt;
    if |data| >= 2 {
      BitsAre(data[1]);
    }
  }

  lemma AddressRefused(data: seq<byte>, pos: nat)
    ensures pos + 3 > |data| ==> AddressAt(data, pos) == Failure(UnexpectedEnd)
    ensures pos + 3 <= |data| && data[pos + 2] > 7 ==> AddressAt(data, pos) == Failure(InvalidData)
    ensures pos + 3 <= |data| && data[pos + 2] <= 7 ==>
              (AddressAt(data, pos) == Failure(UnexpectedEnd) <==> pos + 3 + data[pos + 2] > |data|)
  {
  }
}
