/** A service on the bus: application, network and link layers of the bridge put together. */
module BusService {
  import opened Words
  import opened Npdu
  import opened ApduMessages
  import opened ApduTheorems
  import Mstp = MstpFrames
  import MstpTheorems

  /** Numbers as the octets the link carries, and back. */
  function OnLine(s: seq<byte>): (t: seq<bv8>)
    ensures |t| == |s|
  {
    seq(|s|, i requires 0 <= i < |s| => s[i] as bv8)
  }

  function OffLine(t: seq<bv8>): (s: seq<byte>)
    ensures |s| == |t|
  {
    seq(|t|, i requires 0 <= i < |t| => t[i] as int)
  }

  lemma LineKeepsOctets(s: seq<byte>)
    ensures OffLine(OnLine(s)) == s
  {
    forall i | 0 <= i < |s|
      ensures OffLine(OnLine(s))[i] == s[i]
    {
      OctetRoundTrip(s[i]);
    }
  }

  /** One frame of type 5 with a network packet inside. */
  function ServiceItem(noise: Mstp.Octets, dest: bv8, source: bv8, h: NpduHeader, m: Apdu): MstpTheorems.Item
    requires Encodable(h) && !m.Unknown?
  {
    MstpTheorems.Item(noise, MstpTheorems.Sent(0x05, dest, source, OnLine(NpduWire(h, Wire(m)))))
  }

  /** What the rest of the bridge makes of an offered PDU. */
  function Understood(o: Mstp.Offered): Result<(NpduHeader, Apdu), DecodeError>
    requires |o.data| <= 501
  {
    var (h, apdu) :- NpduOf(OffLine(o.data));
    var m :- ApduOf(apdu);
    Success((h, m))
  }

  lemma PacketUnderstood(dest: bv8, source: bv8, h: NpduHeader, m: Apdu)
    requires Encodable(h) && !m.Unknown? && |NpduWire(h, Wire(m))| <= 501
    ensures Understood(Mstp.Offered(source, dest, OnLine(NpduWire(h, Wire(m)))))
            == Success((NormalHeader(h), Normal(m)))
  {
    hide OnLine, OffLine, NpduWire, NpduOf, Wire, ApduOf, NormalHeader, Normal;
    LineKeepsOctets(NpduWire(h, Wire(m)));
    NpduReadsBack(h, Wire(m));
    ApduReadsBack(m);
  }

  /** Encoded, framed, sent amid noise and received octet by octet, a service is offered once, last,
      from its sender to its addressee, without an error, and is understood as what it was. */
  lemma ServiceCrossesBus(s: Mstp.Link, noise: Mstp.Octets, dest: bv8, source: bv8, h: NpduHeader, m: Apdu)
    requires s.rx == Mstp.Idle && MstpTheorems.NoPreamble(noise)
    requires Encodable(h) && !m.Unknown? && |NpduWire(h, Wire(m))| <= 501
    ensures var item := ServiceItem(noise, dest, source, h, m);
            var r := Mstp.RunRx(s, noise + MstpTheorems.Wire(item.frame));
            && r.rx == Mstp.Idle && r.errorsRx == s.errorsRx
            && |r.offered| == |s.offered| + 1 && s.offered <= r.offered
            && r.offered[|s.offered|].source == source && r.offered[|s.offered|].dest == dest
            && |r.offered[|s.offered|].data| <= 501
            && Understood(r.offered[|s.offered|]) == Success((NormalHeader(h), Normal(m)))
  {
    hide Wire, Normal, NormalHeader, Understood, Mstp.RunRx, Mstp.Frame;
    NotEmpty(h, m);
    var item := ServiceItem(noise, dest, source, h, m);
    MstpTheorems.ItemReceived(s, item);
    PacketUnderstood(dest, source, h, m);
  }

  lemma NotEmpty(h: NpduHeader, m: Apdu)
    requires Encodable(h) && !m.Unknown?
    ensures |NpduWire(h, Wire(m))| > 0
  {
  }
}
