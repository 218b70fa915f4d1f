/** MS/TP frames and the receive state machine as a function of the octets seen.
    csrc/mstp_port.c; the frame layout is clause 9.3 of ASHRAE 135. */
module MstpFrames {
  import opened Words
  import opened Crc

  type Octets = seq<bv8>

  const MAX_PAYLOAD := 501
  const DATA_NO_REPLY: bv8 := 0x05
  const DATA_REPLY: bv8 := 0x06

  /** A data PDU handed to the inter-core ring: source and destination station, payload. */
  datatype Offered = Offered(source: bv8, dest: bv8, data: Octets)

  // ------------------------------------------------------------------ frames on the wire

  function LengthHigh(n: nat): bv8
    requires n < 0x1_0000
  {
    (n / 256) as bv8
  }

  function LengthLow(n: nat): bv8
    requires n < 0x1_0000
  {
    (n % 256) as bv8
  }

  function Header(frameType: bv8, dest: bv8, source: bv8, length: nat): (h: Octets)
    requires length < 0x1_0000
    ensures |h| == 5
  {
    [frameType, dest, source, LengthHigh(length), LengthLow(length)]
  }

  /** The payload length a header announces. */
  function Announced(h: Octets): (n: nat)
    requires |h| == 5
    ensures n < 0x1_0000
  {
    (h[3] as int) * 256 + h[4] as int
  }

  lemma AnnouncedOfHeader(frameType: bv8, dest: bv8, source: bv8, length: nat)
    requires length < 0x1_0000
    ensures Announced(Header(frameType, dest, source, length)) == length
  {
    OctetRoundTrip(length / 256);
    OctetRoundTrip(length % 256);
  }

  function HeaderTrailerOf(h: Octets): bv8 {
    !HeaderCrc(h, HEADER_INIT)
  }

  function DataTrailerOf(data: Octets): (t: Octets)
    ensures |t| == 2
  {
    var crc := !DataCrc(data, DATA_INIT);
    [LowOctet(crc), HighOctet(crc)]
  }

  const PREAMBLE: Octets := [0x55, 0xFF]

  /** A frame: preamble, header, header check, and a checked payload when there is one. */
  function Frame(frameType: bv8, dest: bv8, source: bv8, data: Octets): Octets
    requires |data| < 0x1_0000
  {
    var h := Header(frameType, dest, source, |data|);
    PREAMBLE + h + [HeaderTrailerOf(h)] + if data == [] then [] else data + DataTrailerOf(data)
  }

  // ------------------------------------------------------------------ the receiver

  /** The seven states, each with the octets it has collected. */
  datatype Rx =
    | Idle
    | Preamble2
    | InHeader(h: Octets)
    | InHeaderCrc(h: Octets)
    | InData(h: Octets, data: Octets)
    | InDataCrc1(h: Octets, data: Octets)
    | InDataCrc2(h: Octets, data: Octets, lo: bv8)

  /** The receiver with its counters, which are C `uint32_t`. */
  datatype Link = Link(
    rx: Rx, framesRx: u32, errorsRx: u32, busActive: bool,
    lastType: bv8, lastSource: bv8, offered: seq<Offered>)

  function Bump(n: u32): u32 {
    (n + 1) % WRAP
  }

  ghost predicate RxOk(rx: Rx) {
    match rx
    case Idle => true
    case Preamble2 => true
    case InHeader(h) => |h| < 5
    case InHeaderCrc(h) => |h| == 5
    case InData(h, data) => |h| == 5 && |data| < Announced(h) <= MAX_PAYLOAD
    case InDataCrc1(h, data) => |h| == 5 && 0 < |data| == Announced(h) <= MAX_PAYLOAD
    case InDataCrc2(h, data, _) => |h| == 5 && 0 < |data| == Announced(h) <= MAX_PAYLOAD
  }

  /** A frame whose checks passed. Data frames with a payload go to the ring. */
  function Accept(s: Link, h: Octets, data: Octets): Link
    requires |h| == 5
  {
    s.(rx := Idle, framesRx := Bump(s.framesRx), busActive := true, lastType := h[0], lastSource := h[2],
       offered := if (h[0] == DATA_NO_REPLY || h[0] == DATA_REPLY) && data != []
                  then s.offered + [Offered(h[2], h[1], data)] else s.offered)
  }

  function Reject(s: Link): Link {
    s.(rx := Idle, errorsRx := Bump(s.errorsRx))
  }

  /** The check octet completes the header. */
  predicate HeaderPasses(h: Octets, check: bv8) {
    HeaderStep(check, HeaderCrc(h, HEADER_INIT)) == HEADER_RESIDUE
  }

  /** The two check octets complete the payload. */
  predicate DataPasses(data: Octets, lo: bv8, hi: bv8) {
    DataStep(hi, DataStep(lo, DataCrc(data, DATA_INIT))) == DATA_RESIDUE
  }

  function AfterHeader(s: Link, h: Octets, check: bv8): (s': Link)
    requires |h| == 5
    ensures s'.rx == Idle || (s'.rx == InData(h, []) && 0 < Announced(h) <= MAX_PAYLOAD)
  {
    if !HeaderPasses(h, check) then Reject(s)
    else if Announced(h) == 0 then Accept(s, h, [])
    else if Announced(h) > MAX_PAYLOAD then s.(rx := Idle)
    else s.(rx := InData(h, []))
  }

  function AfterData(s: Link, h: Octets, data: Octets, lo: bv8, hi: bv8): (s': Link)
    requires |h| == 5
    ensures s'.rx == Idle
  {
    if DataPasses(data, lo, hi) then Accept(s, h, data) else Reject(s)
  }

  /** One more octet of a header or of a payload. */
  function Collected(rx: Rx, b: bv8): (rx': Rx)
    requires RxOk(rx) && (rx.InHeader? || rx.InData?)
    ensures RxOk(rx')
  {
    match rx
    case InHeader(h) => if |h| + 1 >= 5 then InHeaderCrc(h + [b]) else InHeader(h + [b])
    case InData(h, data) =>
      if |data| + 1 >= Announced(h) then InDataCrc1(h, data + [b]) else InData(h, data + [b])
  }

  /** One received octet. */
  function StepRx(s: Link, b: bv8): (s': Link)
    requires RxOk(s.rx)
    ensures RxOk(s'.rx)
  {
    match s.rx
    case Idle => if b == 0x55 then s.(rx := Preamble2) else s
    case Preamble2 =>
      if b == 0xFF then s.(rx := InHeader([]))
      else if b != 0x55 then s.(rx := Idle)
      else s
    case InHeader(_) => s.(rx := Collected(s.rx, b))
    case InHeaderCrc(h) => AfterHeader(s, h, b)
    case InData(_, _) => s.(rx := Collected(s.rx, b))
    case InDataCrc1(h, data) => s.(rx := InDataCrc2(h, data, b))
    case InDataCrc2(h, data, lo) => AfterData(s, h, data, lo, b)
  }

  /** A whole stream of received octets. */
  function RunRx(s: Link, stream: Octets): (s': Link)
    requires RxOk(s.rx)
    ensures RxOk(s'.rx)
  {
    if stream == [] then s else StepRx(RunRx(s, stream[..|stream| - 1]), stream[|stream| - 1])
  }

  /** How the stream is split across calls does not matter. */
  lemma {:induction false} RunRxSplit(s: Link, a: Octets, b: Octets)
    requires RxOk(s.rx)
    ensures RunRx(s, a + b) == RunRx(RunRx(s, a), b)
  {
    if b == [] {
      assert a + b == a;
    } else {
      var n := |b| - 1;
      RunRxSplit(s, a, b[..n]);
      assert (a + b)[..|a + b| - 1] == a + b[..n];
    }
  }

  lemma RunRxOne(s: Link, b: bv8)
    requires RxOk(s.rx)
    ensures RunRx(s, [b]) == StepRx(s, b)
  {
    assert [b][..0] == [];
    assert RunRx(s, []) == s;
  }

  // ------------------------------------------------------------------ walking through one frame

  ghost predicate Hunting(rx: Rx) {
    rx.Idle? || rx.Preamble2?
  }

  lemma RunPreamble(s: Link)
    requires Hunting(s.rx)
    ensures RunRx(s, PREAMBLE) == s.(rx := InHeader([]))
  {
    assert PREAMBLE == [0x55] + [0xFF];
    RunRxSplit(s, [0x55], [0xFF]);
    RunRxOne(s, 0x55);
    RunRxOne(s.(rx := Preamble2), 0xFF);
  }

  lemma {:induction false} RunHeader(s: Link, x: Octets)
    requires s.rx == InHeader([]) && |x| <= 5
    ensures RunRx(s, x) == s.(rx := if |x| == 5 then InHeaderCrc(x) else InHeader(x))
  {
    if x != [] {
      var n := |x| - 1;
      RunHeader(s, x[..n]);
      assert x == x[..n] + [x[n]];
    }
  }

  lemma {:induction false} RunData(s: Link, h: Octets, x: Octets)
    requires s.rx == InData(h, []) && |h| == 5 && |x| <= Announced(h) <= MAX_PAYLOAD && 0 < Announced(h)
    ensures RunRx(s, x) == s.(rx := if |x| == Announced(h) then InDataCrc1(h, x) else InData(h, x))
  {
    if x != [] {
      var n := |x| - 1;
      RunData(s, h, x[..n]);
      assert x == x[..n] + [x[n]];
    }
  }

  /** Any preamble, five octets and a check octet. */
  lemma RunHead(s: Link, h: Octets, check: bv8)
    requires Hunting(s.rx) && |h| == 5
    ensures RunRx(s, PREAMBLE + h + [check]) == AfterHeader(s.(rx := InHeaderCrc(h)), h, check)
  {
    RunPreamble(s);
    RunRxSplit(s, PREAMBLE, h);
    RunHeader(s.(rx := InHeader([])), h);
    RunRxSplit(s, PREAMBLE + h, [check]);
    RunRxOne(s.(rx := InHeaderCrc(h)), check);
  }

  /** Any payload of the announced length and its two check octets. */
  lemma RunTail(s: Link, h: Octets, data: Octets, lo: bv8, hi: bv8)
    requires s.rx == InData(h, []) && |h| == 5 && 0 < |data| == Announced(h) <= MAX_PAYLOAD
    ensures RunRx(s, data + [lo, hi]) == AfterData(s.(rx := InDataCrc2(h, data, lo)), h, data, lo, hi)
  {
    RunData(s, h, data);
    RunRxSplit(s, data, [lo]);
    RunRxOne(s.(rx := InDataCrc1(h, data)), lo);
    RunRxSplit(s, data + [lo], [hi]);
    RunRxOne(s.(rx := InDataCrc2(h, data, lo)), hi);
    assert data + [lo, hi] == data + [lo] + [hi];
  }

  function HeadOf(frameType: bv8, dest: bv8, source: bv8, data: Octets): Octets
    requires |data| < 0x1_0000
  {
    var h := Header(frameType, dest, source, |data|);
    PREAMBLE + h + [HeaderTrailerOf(h)]
  }

  lemma FrameParts(frameType: bv8, dest: bv8, source: bv8, data: Octets)
    requires |data| < 0x1_0000
    ensures data == [] ==> Frame(frameType, dest, source, data) == HeadOf(frameType, dest, source, data)
    ensures data != [] ==>
              Frame(frameType, dest, source, data)
              == HeadOf(frameType, dest, source, data) + (data + [DataTrailerOf(data)[0], DataTrailerOf(data)[1]])
  {
    hide Header, HeaderTrailerOf, DataTrailerOf;
    var t := DataTrailerOf(data);
    assert t == [t[0], t[1]];
  }

  /** Its own check octet completes a header, and takes the receiver to what the header announces. */
  lemma GoodHeader(s: Link, h: Octets)
    requires |h| == 5 && Announced(h) <= MAX_PAYLOAD
    ensures AfterHeader(s, h, HeaderTrailerOf(h))
            == if Announced(h) == 0 then Accept(s, h, []) else s.(rx := InData(h, []))
  {
    hide HeaderStep, HeaderCrc, Announced, Accept;
    HeaderTrailer(HeaderTrailerOf(h), HeaderCrc(h, HEADER_INIT));
  }

  lemma GoodData(s: Link, h: Octets, data: Octets)
    requires |h| == 5
    ensures AfterData(s, h, data, DataTrailerOf(data)[0], DataTrailerOf(data)[1]) == Accept(s, h, data)
  {
    hide DataStep, DataCrc, Accept, LowOctet, HighOctet;
    DataTrailer(DataTrailerOf(data)[0], DataTrailerOf(data)[1], DataCrc(data, DATA_INIT));
  }

  lemma HeadReceived(s: Link, frameType: bv8, dest: bv8, source: bv8, data: Octets)
    requires Hunting(s.rx) && |data| <= MAX_PAYLOAD
    ensures var h := Header(frameType, dest, source, |data|);
            && Announced(h) == |data|
            && RunRx(s, HeadOf(frameType, dest, source, data))
               == if data == [] then Accept(s, h, []) else s.(rx := InData(h, []))
  {
    hide RunRx, Header, HeaderTrailerOf, Announced, AfterHeader;
    var h := Header(frameType, dest, source, |data|);
    AnnouncedOfHeader(frameType, dest, source, |data|);
    RunHead(s, h, HeaderTrailerOf(h));
    GoodHeader(s.(rx := InHeaderCrc(h)), h);
  }

  /** A sent frame is received whole, once, without an error. */
  lemma FrameReceived(s: Link, frameType: bv8, dest: bv8, source: bv8, data: Octets)
    requires Hunting(s.rx) && |data| <= MAX_PAYLOAD
    ensures RunRx(s, Frame(frameType, dest, source, data)) ==
            Accept(s, Header(frameType, dest, source, |data|), data)
  {
    hide RunRx, Frame, Header, HeadOf, Announced, DataTrailerOf, AfterData;
    var h := Header(frameType, dest, source, |data|);
    HeadReceived(s, frameType, dest, source, data);
    FrameParts(frameType, dest, source, data);
    if data != [] {
      var t := DataTrailerOf(data);
      var inside := s.(rx := InData(h, []));
      RunTail(inside, h, data, t[0], t[1]);
      GoodData(inside.(rx := InDataCrc2(h, data, t[0])), h, data);
      RunRxSplit(s, HeadOf(frameType, dest, source, data), data + [t[0], t[1]]);
    }
  }
}
