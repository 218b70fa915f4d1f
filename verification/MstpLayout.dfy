/** MS/TP frames octet by octet (clause 9.3 and Annex G of ASHRAE 135), and what the receiver of
    csrc/mstp_port.c makes of any octets that stand where a frame would. */
module MstpLayout {
  import opened Crc
  import opened MstpFrames
  import opened MstpTheorems

  // ------------------------------------------------------------------ the layout of a frame

  function TwoOctetNumber(hi: bv8, lo: bv8): nat {
    (hi as int) * 256 + lo as int
  }

  /** Preamble, frame type, destination, source, length, header check; then, when there is one, the
      payload and its check. The checks start from all ones and leave their fixed remainders. */
  ghost predicate LaidOut(f: Octets, frameType: bv8, dest: bv8, source: bv8, data: Octets) {
    && |f| == (if data == [] then 8 else 10 + |data|)
    && f[0] == 0x55 && f[1] == 0xFF && f[2] == frameType && f[3] == dest && f[4] == source
    && TwoOctetNumber(f[5], f[6]) == |data| && HeaderCrc(f[2..8], 0xFF) == 0x55
    && (data != [] ==> f[8..8 + |data|] == data && DataCrc(f[8..], 0xFFFF) == 0xF0B8)
  }

  lemma HeaderCheckExactly(h: Octets, check: bv8)
    ensures HeaderCrc(h + [check], 0xFF) == 0x55 <==> check == HeaderTrailerOf(h)
  {
    hide HeaderStep;
    HeaderTrailer(check, HeaderCrc(h, 0xFF));
    assert (h + [check])[..|h|] == h;
  }

  lemma DataCheckExactly(data: Octets, lo: bv8, hi: bv8)
    ensures DataCrc(data + [lo, hi], 0xFFFF) == 0xF0B8 <==> [lo, hi] == DataTrailerOf(data)
  {
    hide DataStep, DataCrc, LowOctet, HighOctet, DataTrailerOf;
    DataCrcOfTail(data, lo, hi);
    DataTrailer(lo, hi, DataCrc(data, 0xFFFF));
    TrailerIs(data, DataCrc(data, 0xFFFF));
    SamePair(lo, hi, DataTrailerOf(data)[0], DataTrailerOf(data)[1]);
  }

  lemma TrailerIs(data: Octets, crc: bv16)
    requires crc == DataCrc(data, 0xFFFF)
    ensures DataTrailerOf(data) == [LowOctet(!crc), HighOctet(!crc)]
  {
    hide DataCrc, LowOctet, HighOctet;
  }

  lemma SamePair(a: bv8, b: bv8, c: bv8, d: bv8)
    ensures [a, b] == [c, d] <==> a == c && b == d
  {
    var x, y: Octets := [a, b], [c, d];
    if x == y {
      assert x[0] == y[0] && x[1] == y[1];
    }
  }

  lemma HeaderExactly(h: Octets, frameType: bv8, dest: bv8, source: bv8, length: nat)
    requires |h| == 5 && length < 0x1_0000
    ensures h == Header(frameType, dest, source, length)
            <==> h[0] == frameType && h[1] == dest && h[2] == source && TwoOctetNumber(h[3], h[4]) == length
  {
    AnnouncedOfHeader(frameType, dest, source, length);
    HeaderOfAnnounced(h);
    AnnouncedIs(h);
    hide Announced, TwoOctetNumber, LengthHigh, LengthLow;
    HeaderDisplay(frameType, dest, source, length);
  }

  lemma AnnouncedIs(h: Octets)
    requires |h| == 5
    ensures Announced(h) == TwoOctetNumber(h[3], h[4])
  {
  }

  lemma FrontOfFrame(f: Octets)
    requires |f| >= 8
    ensures f == f[..2] + f[2..7] + [f[7]] + f[8..] && f[2..8] == f[2..7] + [f[7]]
    ensures f[..2] == PREAMBLE <==> f[0] == 0x55 && f[1] == 0xFF
  {
    assert f[..2] == [f[0], f[1]];
  }

  lemma SameParts(a: Octets, b: Octets, c: Octets, d: Octets, a': Octets, b': Octets, c': Octets, d': Octets)
    requires |a| == |a'| && |b| == |b'| && |c| == |c'|
    ensures a + b + c + d == a' + b' + c' + d' <==> a == a' && b == b' && c == c' && d == d'
  {
    var x, y := a + b + c + d, a' + b' + c' + d';
    if x == y {
      assert x[..|a|] == a && y[..|a|] == a';
      assert x[|a|..|a| + |b|] == b && y[|a|..|a| + |b|] == b';
      assert x[|a| + |b|..|a| + |b| + |c|] == c && y[|a| + |b|..|a| + |b| + |c|] == c';
      assert x[|a| + |b| + |c|..] == d && y[|a| + |b| + |c|..] == d';
    }
  }

  function Tail(data: Octets): Octets {
    if data == [] then [] else data + DataTrailerOf(data)
  }

  lemma TailExactly(rest: Octets, data: Octets)
    requires |rest| == if data == [] then 0 else |data| + 2
    ensures rest == Tail(data) <==> data == [] || (rest[..|data|] == data && DataCrc(rest, 0xFFFF) == 0xF0B8)
  {
    hide DataCrc, DataTrailerOf;
    if data != [] {
      var n := |data|;
      var lo, hi := rest[n], rest[n + 1];
      assert rest == rest[..n] + [lo, hi];
      DataCheckExactly(rest[..n], lo, hi);
      if rest == Tail(data) {
        assert rest[..n] == data && rest[n..] == DataTrailerOf(data) && rest[n..] == [lo, hi];
      }
    }
  }

  lemma FrameInParts(frameType: bv8, dest: bv8, source: bv8, data: Octets)
    requires |data| < 0x1_0000
    ensures var h := Header(frameType, dest, source, |data|);
            Frame(frameType, dest, source, data) == PREAMBLE + h + [HeaderTrailerOf(h)] + Tail(data)
  {
    hide Header, HeaderTrailerOf, DataTrailerOf;
  }

  /** What is sent is, octet for octet, what the standard lays out, and nothing else is. */
  lemma FrameExactly(f: Octets, frameType: bv8, dest: bv8, source: bv8, data: Octets)
    requires |data| < 0x1_0000
    ensures f == Frame(frameType, dest, source, data) <==> LaidOut(f, frameType, dest, source, data)
  {
    hide Frame, Header, HeaderTrailerOf, HeaderCrc, DataCrc, Tail, TwoOctetNumber;
    FrameInParts(frameType, dest, source, data);
    var h := Header(frameType, dest, source, |data|);
    if |f| == (if data == [] then 8 else 10 + |data|) {
      FrontOfFrame(f);
      SameParts(f[..2], f[2..7], [f[7]], f[8..], PREAMBLE, h, [HeaderTrailerOf(h)], Tail(data));
      HeaderExactly(f[2..7], frameType, dest, source, |data|);
      HeaderCheckExactly(f[2..7], f[7]);
      TailExactly(f[8..], data);
      SameOctets(f, data);
    } else {
      TailLength(data);
    }
  }

  lemma TailLength(data: Octets)
    ensures |Tail(data)| == if data == [] then 0 else |data| + 2
  {
    hide DataTrailerOf;
  }

  lemma SameOctets(f: Octets, data: Octets)
    requires |f| == if data == [] then 8 else 10 + |data|
    ensures f[2..7][0] == f[2] && f[2..7][1] == f[3] && f[2..7][2] == f[4] && f[2..7][3] == f[5] && f[2..7][4] == f[6]
    ensures data != [] ==> f[8..][..|data|] == f[8..8 + |data|]
  {
  }

  /** The two worked examples of Annex G: a token from 5 to 16, and the payload 01 22 30. */
  lemma WorkedExamples()
    ensures HeaderTrailerOf([0x00, 0x10, 0x05, 0x00, 0x00]) == 0x8C
    ensures DataTrailerOf([0x01, 0x22, 0x30]) == [0x10, 0xBD]
  {
    hide HeaderStep, DataStep, HeaderCrc, DataCrc;
    HeaderSteps();
    DataSteps();
    NoOctets();
    HeaderSnoc([], 0x00, [0x00]);
    HeaderSnoc([0x00], 0x10, [0x00, 0x10]);
    HeaderSnoc([0x00, 0x10], 0x05, [0x00, 0x10, 0x05]);
    HeaderSnoc([0x00, 0x10, 0x05], 0x00, [0x00, 0x10, 0x05, 0x00]);
    HeaderSnoc([0x00, 0x10, 0x05, 0x00], 0x00, [0x00, 0x10, 0x05, 0x00, 0x00]);
    DataSnoc([], 0x01, [0x01]);
    DataSnoc([0x01], 0x22, [0x01, 0x22]);
    DataSnoc([0x01, 0x22], 0x30, [0x01, 0x22, 0x30]);
  }

  lemma NoOctets()
    ensures HeaderCrc([], HEADER_INIT) == 0xFF && DataCrc([], DATA_INIT) == 0xFFFF
  {
  }

  lemma HeaderSnoc(s: Octets, b: bv8, t: Octets)
    requires t == s + [b]
    ensures HeaderCrc(t, HEADER_INIT) == HeaderStep(b, HeaderCrc(s, HEADER_INIT))
  {
    hide HeaderStep;
    assert t[..|s|] == s;
  }

  lemma DataSnoc(s: Octets, b: bv8, t: Octets)
    requires t == s + [b]
    ensures DataCrc(t, DATA_INIT) == DataStep(b, DataCrc(s, DATA_INIT))
  {
    hide DataStep;
    assert t[..|s|] == s;
  }

  lemma HeaderSteps()
    ensures HeaderStep(0x00, 0xFF) == 0x55 && HeaderStep(0x10, 0x55) == 0xC2 && HeaderStep(0x05, 0xC2) == 0xBC
            && HeaderStep(0x00, 0xBC) == 0x95 && HeaderStep(0x00, 0x95) == 0x73
  {
  }

  lemma DataSteps()
    ensures DataStep(0x01, 0xFFFF) == 0x1E0E && DataStep(0x22, 0x1E0E) == 0xEB70
            && DataStep(0x30, 0xEB70) == 0x42EF
  {
  }

  // ------------------------------------------------------------------ any octets in a frame's place

  /** Whatever stands behind a preamble is judged by its check, then by the length it announces. */
  lemma HeadJudged(s: Link, h: Octets, check: bv8)
    requires Hunting(s.rx) && |h| == 5
    ensures var r, n := RunRx(s, [0x55, 0xFF] + h + [check]), TwoOctetNumber(h[3], h[4]);
            if HeaderCrc(h + [check], 0xFF) != 0x55 then OneErrorCounted(s, r)
            else if n == 0 then OneFrameCounted(s, h, r) && r.offered == s.offered
            else if n > 501 then r == s.(rx := Idle)
            else r == s.(rx := InData(h, []))
  {
    hide RunRx, HeaderCrc, HeaderTrailerOf, TwoOctetNumber, Announced;
    RunHead(s, h, check);
    AnnouncedIs(h);
    HeaderCheckExactly(h, check);
    CheckedHeader(s, h, check);
    RejectCounts(s, InHeaderCrc(h));
  }

  /** One more frame from this source, of this type. */
  ghost predicate OneFrameCounted(s: Link, h: Octets, r: Link)
    requires |h| == 5
  {
    && r.rx == Idle && r.framesRx == (s.framesRx + 1) % 0x1_0000_0000 && r.errorsRx == s.errorsRx
    && r.busActive && r.lastType == h[0] && r.lastSource == h[2]
  }

  lemma CheckedHeader(s: Link, h: Octets, check: bv8)
    requires |h| == 5
    ensures HeaderPasses(h, check) <==> check == HeaderTrailerOf(h)
  {
    HeaderTrailer(check, HeaderCrc(h, HEADER_INIT));
  }

  /** And a payload of the announced length by its own check: of the types 5 and 6 it is offered. */
  lemma TailJudged(s: Link, h: Octets, data: Octets, lo: bv8, hi: bv8)
    requires s.rx == InData(h, []) && |h| == 5 && 0 < |data| == TwoOctetNumber(h[3], h[4]) <= 501
    ensures var r := RunRx(s, data + [lo, hi]);
            if DataCrc(data + [lo, hi], 0xFFFF) != 0xF0B8 then OneErrorCounted(s, r)
            else OneFrameCounted(s, h, r)
                 && r.offered == if h[0] == 0x05 || h[0] == 0x06 then s.offered + [Offered(h[2], h[1], data)]
                                 else s.offered
  {
    hide RunRx, DataCrc, TwoOctetNumber, Announced, DataStep;
    AnnouncedIs(h);
    RunTail(s, h, data, lo, hi);
    DataCrcOfTail(data, lo, hi);
    RejectCounts(s, InDataCrc2(h, data, lo));
  }
}
