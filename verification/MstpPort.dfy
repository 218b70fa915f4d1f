/** The MS/TP port as csrc/mstp_port.c runs it: static buffers and indices updated per octet,
    frames sent octet by octet. The UART is a sequence of octets in and a sequence out. */
module MstpPort {
  import opened Words
  import opened Crc
  import opened MstpFrames

  lemma HeaderCrcNext(s: Octets, i: nat, init: bv8)
    requires i < |s|
    ensures HeaderCrc(s[..i + 1], init) == HeaderStep(s[i], HeaderCrc(s[..i], init))
  {
    hide HeaderStep;
    assert s[..i + 1][..i] == s[..i];
  }

  lemma DataCrcNext(s: Octets, i: nat, init: bv16)
    requires i < |s|
    ensures DataCrc(s[..i + 1], init) == DataStep(s[i], DataCrc(s[..i], init))
  {
    hide DataStep;
    assert s[..i + 1][..i] == s[..i];
  }

  datatype RxState = RX_IDLE | RX_PREAMBLE2 | RX_HEADER | RX_HEADER_CRC | RX_DATA | RX_DATA_CRC1 | RX_DATA_CRC2

  class Receiver {
    var rxState: RxState
    const rxHeader: array<bv8>
    var rxHeaderIdx: nat
    const rxData: array<bv8>
    var rxDataIdx: nat
    var rxDataLen: nat
    var framesRx: u32
    var errorsRx: u32
    var busActive: bool
    var lastFrameType: bv8
    var lastSrcMac: bv8
    /** What has been handed to `ipc_ring_push`. */
    var offered: seq<Offered>

    ghost predicate Valid()
      reads this, rxHeader, rxData
    {
      && rxHeader.Length == 5 && rxData.Length == 512 && rxHeader != rxData
      && match rxState
         case RX_IDLE => true
         case RX_PREAMBLE2 => true
         case RX_HEADER => rxHeaderIdx < 5
         case RX_HEADER_CRC => true
         case RX_DATA => rxDataIdx < rxDataLen == Announced(rxHeader[..]) <= MAX_PAYLOAD
         case RX_DATA_CRC1 => 0 < rxDataIdx == rxDataLen == Announced(rxHeader[..]) <= MAX_PAYLOAD
         case RX_DATA_CRC2 => 0 < rxDataIdx == rxDataLen == Announced(rxHeader[..]) <= MAX_PAYLOAD
    }

    ghost function ViewRx(): (rx: Rx)
      requires Valid()
      reads this, rxHeader, rxData
      ensures RxOk(rx)
    {
      match rxState
      case RX_IDLE => Idle
      case RX_PREAMBLE2 => Preamble2
      case RX_HEADER => InHeader(rxHeader[..rxHeaderIdx])
      case RX_HEADER_CRC => InHeaderCrc(rxHeader[..])
      case RX_DATA => InData(rxHeader[..], rxData[..rxDataIdx])
      case RX_DATA_CRC1 => InDataCrc1(rxHeader[..], rxData[..rxDataIdx])
      case RX_DATA_CRC2 => InDataCrc2(rxHeader[..], rxData[..rxDataIdx], rxData[rxDataIdx])
    }

    ghost function View(): (s: Link)
      requires Valid()
      reads this, rxHeader, rxData
      ensures RxOk(s.rx)
    {
      Link(ViewRx(), framesRx, errorsRx, busActive, lastFrameType, lastSrcMac, offered)
    }

    constructor ()
      ensures Valid() && fresh(rxHeader) && fresh(rxData)
      ensures View() == Link(Idle, 0, 0, false, 0, 0, [])
    {
      rxState, rxHeaderIdx, rxDataIdx, rxDataLen := RX_IDLE, 0, 0, 0;
      rxHeader, rxData := new bv8[5], new bv8[512];
      framesRx, errorsRx, busActive := 0, 0, false;
      lastFrameType, lastSrcMac, offered := 0, 0, [];
    }

    /** The check over the collected header and the check octet. */
    method CheckHeader(b: bv8) returns (good: bool)
      requires Valid() && rxState == RX_HEADER_CRC
      ensures good == HeaderPasses(rxHeader[..], b)
    {
      hide HeaderStep, HeaderCrc, Announced;
      var crc := HEADER_INIT;
      ghost var h := rxHeader[..];
      EmptyHeaderCrc(h);
      var i := 0;
      while i < 5
        invariant 0 <= i <= 5 && crc == HeaderCrc(h[..i], HEADER_INIT)
      {
        HeaderCrcNext(h, i, HEADER_INIT);
        crc := HeaderStep(rxHeader[i], crc);
        i := i + 1;
      }
      assert h[..5] == h;
      crc := HeaderStep(b, crc);
      return crc == HEADER_RESIDUE;
    }

    /** A frame whose checks passed is counted and remembered. */
    method NoteFrame()
      requires rxHeader.Length == 5
      modifies this`framesRx, this`busActive, this`lastFrameType, this`lastSrcMac
      ensures framesRx == Bump(old(framesRx)) && busActive
      ensures lastFrameType == rxHeader[0] && lastSrcMac == rxHeader[2]
    {
      framesRx := Bump(framesRx);
      busActive := true;
      lastFrameType := rxHeader[0];
      lastSrcMac := rxHeader[2];
    }

    method OnHeaderCrc(b: bv8)
      requires Valid() && rxState == RX_HEADER_CRC
      modifies this
      ensures Valid() && View() == AfterHeader(old(View()), rxHeader[..], b)
    {
      hide HeaderPasses, Announced, Bump;
      var good := CheckHeader(b);
      if !good {
        errorsRx := Bump(errorsRx);
        rxState := RX_IDLE;
        return;
      }
      rxDataLen := Announced(rxHeader[..]);
      if rxDataLen == 0 {
        NoteFrame();
        rxState := RX_IDLE;
      } else if rxDataLen > MAX_PAYLOAD {
        rxState := RX_IDLE;
      } else {
        rxDataIdx := 0;
        rxState := RX_DATA;
        assert rxData[..0] == [];
      }
    }

    lemma EmptyHeaderCrc(h: Octets)
      ensures HeaderCrc(h[..0], HEADER_INIT) == HEADER_INIT
    {
      assert h[..0] == [];
    }

    lemma EmptyDataCrc(d: Octets)
      ensures DataCrc(d[..0], DATA_INIT) == DATA_INIT
    {
      assert d[..0] == [];
    }

    /** The check over the collected payload, the staged octet and the last one. */
    method CheckData(b: bv8) returns (good: bool)
      requires Valid() && rxState == RX_DATA_CRC2
      ensures good == DataPasses(rxData[..rxDataIdx], rxData[rxDataIdx], b)
    {
      hide DataStep, DataCrc, Announced;
      var crc := DATA_INIT;
      ghost var d := rxData[..rxDataLen];
      EmptyDataCrc(d);
      var i := 0;
      while i < rxDataLen
        invariant 0 <= i <= rxDataLen && crc == DataCrc(d[..i], DATA_INIT)
      {
        DataCrcNext(d, i, DATA_INIT);
        crc := DataStep(rxData[i], crc);
        i := i + 1;
      }
      assert d[..rxDataLen] == d;
      crc := DataStep(rxData[rxDataIdx], crc);
      crc := DataStep(b, crc);
      return crc == DATA_RESIDUE;
    }

    /** The payload copied out for the ring. */
    method Payload() returns (data: Octets)
      requires Valid() && rxState == RX_DATA_CRC2
      ensures data == rxData[..rxDataIdx]
    {
      hide Announced;
      data := [];
      var i := 0;
      while i < rxDataLen
        invariant 0 <= i <= rxDataLen && data == rxData[..i]
      {
        data := data + [rxData[i]];
        i := i + 1;
      }
    }

    method OnDataCrc2(b: bv8)
      requires Valid() && rxState == RX_DATA_CRC2
      modifies this
      ensures Valid()
      ensures View() == AfterData(old(View()), rxHeader[..], old(rxData[..rxDataIdx]), old(rxData[rxDataIdx]), b)
    {
      hide DataPasses, Announced, Bump;
      var good := CheckData(b);
      if !good {
        errorsRx := Bump(errorsRx);
        rxState := RX_IDLE;
        return;
      }
      NoteFrame();
      if (rxHeader[0] == 0x05 || rxHeader[0] == 0x06) && rxDataLen > 0 {
        var data := Payload();
        offered := offered + [Offered(rxHeader[2], rxHeader[1], data)];
      }
      rxState := RX_IDLE;
    }

    method OnHeader(b: bv8)
      requires Valid() && rxState == RX_HEADER
      modifies this, rxHeader
      ensures Valid() && View() == StepRx(old(View()), b)
    {
      hide Announced;
      rxHeader[rxHeaderIdx] := b;
      rxHeaderIdx := rxHeaderIdx + 1;
      assert rxHeader[..rxHeaderIdx] == old(rxHeader[..rxHeaderIdx]) + [b];
      if rxHeaderIdx >= 5 {
        rxState := RX_HEADER_CRC;
      }
    }

    method OnData(b: bv8)
      requires Valid() && (rxState == RX_DATA || rxState == RX_DATA_CRC1)
      modifies this, rxData
      ensures Valid() && View() == StepRx(old(View()), b)
    {
      hide Announced;
      rxData[rxDataIdx] := b;
      if rxState == RX_DATA_CRC1 {
        rxState := RX_DATA_CRC2;
        assert rxData[..rxDataIdx] == old(rxData[..rxDataIdx]);
      } else {
        rxDataIdx := rxDataIdx + 1;
        assert rxData[..rxDataIdx] == old(rxData[..rxDataIdx]) + [b];
        if rxDataIdx >= rxDataLen {
          rxState := RX_DATA_CRC1;
        }
      }
    }

    /** One octet through the state machine. */
    method Receive(b: bv8)
      requires Valid()
      modifies this, rxHeader, rxData
      ensures Valid() && View() == StepRx(old(View()), b)
    {
      hide AfterHeader, AfterData, Announced;
      match rxState {
        case RX_IDLE =>
          if b == 0x55 {
            rxState := RX_PREAMBLE2;
          }
        case RX_PREAMBLE2 =>
          if b == 0xFF {
            rxState := RX_HEADER;
            rxHeaderIdx := 0;
          } else if b != 0x55 {
            rxState := RX_IDLE;
          }
        case RX_HEADER =>
          OnHeader(b);
        case RX_HEADER_CRC =>
          OnHeaderCrc(b);
        case RX_DATA =>
          OnData(b);
        case RX_DATA_CRC1 =>
          OnData(b);
        case RX_DATA_CRC2 =>
          OnDataCrc2(b);
      }
    }

    /** One call: every octet the UART has ready. */
    method ReceiveCheck(available: Octets)
      requires Valid()
      modifies this, rxHeader, rxData
      ensures Valid() && View() == RunRx(old(View()), available)
    {
      hide StepRx, View;
      ghost var s := View();
      var i := 0;
      assert available[..0] == [];
      while i < |available|
        invariant 0 <= i <= |available| && Valid()
        invariant View() == RunRx(s, available[..i])
      {
        Receive(available[i]);
        assert available[..i + 1][..i] == available[..i];
        i := i + 1;
      }
      assert available[..|available|] == available;
    }
  }

  /** What `mstp_send_frame` puts on the line; a null payload leaves only the header. */
  function SentOctets(frameType: bv8, dest: bv8, source: bv8, data: Option<Octets>, length: nat): Octets
    requires length < 0x1_0000
  {
    var h := Header(frameType, dest, source, length);
    PREAMBLE + h + [HeaderTrailerOf(h)]
    + if length > 0 && data.Some? then data.value + DataTrailerOf(data.value) else []
  }

  /** With a payload of the announced length this is a frame the receiver accepts. */
  lemma SentIsFrame(frameType: bv8, dest: bv8, source: bv8, data: Octets)
    requires |data| < 0x1_0000
    ensures SentOctets(frameType, dest, source, Some(data), |data|) == Frame(frameType, dest, source, data)
    ensures data == [] ==> SentOctets(frameType, dest, source, None, 0) == Frame(frameType, dest, source, data)
  {
  }

  class Transmitter {
    /** Every octet given to the UART. */
    var line: Octets
    var framesTx: u32

    constructor ()
      ensures line == [] && framesTx == 0
    {
      line, framesTx := [], 0;
    }

    method PutByte(b: bv8)
      modifies this`line
      ensures line == old(line) + [b]
    {
      line := line + [b];
    }

    method SendFrame(frameType: bv8, dest: bv8, source: bv8, data: array?<bv8>, length: nat)
      requires length < 0x1_0000 && (data != null ==> length <= data.Length)
      modifies this`line
      ensures line == old(line)
              + SentOctets(frameType, dest, source, if data == null then None else Some(data[..length]), length)
    {
      hide Header, HeaderTrailerOf, DataTrailerOf;
      PutByte(0x55);
      PutByte(0xFF);
      var header := Header(frameType, dest, source, length);
      SendHeader(header);
      if length > 0 && data != null {
        SendPayload(data, length);
      }
    }

    method SendHeader(header: Octets)
      requires |header| == 5
      modifies this`line
      ensures line == old(line) + (header + [HeaderTrailerOf(header)])
    {
      hide HeaderStep, HeaderCrc;
      var hcrc := HEADER_INIT;
      assert header[..0] == [];
      assert HeaderCrc(header[..0], HEADER_INIT) == HEADER_INIT by { NoHeaderCrc(); }
      var i := 0;
      while i < 5
        invariant 0 <= i <= 5 && hcrc == HeaderCrc(header[..i], HEADER_INIT)
        invariant line == old(line) + header[..i]
      {
        PutByte(header[i]);
        HeaderCrcNext(header, i, HEADER_INIT);
        hcrc := HeaderStep(header[i], hcrc);
        i := i + 1;
      }
      assert header[..5] == header;
      PutByte(!hcrc);
    }

    lemma NoHeaderCrc()
      ensures HeaderCrc([], HEADER_INIT) == HEADER_INIT
    {
    }

    lemma NoDataCrc()
      ensures DataCrc([], DATA_INIT) == DATA_INIT
    {
    }

    /** The payload octets, with their check on the way. */
    method SendOctets(data: array<bv8>, length: nat) returns (dcrc: bv16)
      requires length <= data.Length
      modifies this`line
      ensures line == old(line) + data[..length] && dcrc == DataCrc(data[..length], DATA_INIT)
    {
      hide DataStep, DataCrc;
      dcrc := DATA_INIT;
      ghost var d := data[..length];
      assert d[..0] == [];
      NoDataCrc();
      var i := 0;
      while i < length
        invariant 0 <= i <= length && dcrc == DataCrc(d[..i], DATA_INIT)
        invariant line == old(line) + d[..i]
      {
        PutByte(data[i]);
        DataCrcNext(d, i, DATA_INIT);
        dcrc := DataStep(data[i], dcrc);
        assert d[..i + 1] == d[..i] + [data[i]];
        i := i + 1;
      }
      assert d[..length] == d;
    }

    method SendPayload(data: array<bv8>, length: nat)
      requires 0 < length <= data.Length
      modifies this`line
      ensures line == old(line) + (data[..length] + DataTrailerOf(data[..length]))
    {
      hide DataCrc, LowOctet, HighOctet;
      var dcrc := SendOctets(data, length);
      dcrc := !dcrc;
      PutByte(LowOctet(dcrc));
      PutByte(HighOctet(dcrc));
    }

    /** Grant the token to `dest`. */
    method SendToken(dest: bv8, source: bv8)
      modifies this
      ensures line == old(line) + Frame(0x00, dest, source, []) && framesTx == Bump(old(framesTx))
    {
      SendFrame(0x00, dest, source, null, 0);
      SentIsFrame(0x00, dest, source, []);
      framesTx := Bump(framesTx);
    }
  }
}
