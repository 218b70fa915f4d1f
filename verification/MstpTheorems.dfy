/** What the MS/TP receiver guarantees over every octet stream. */
module MstpTheorems {
  import opened Words
  import opened Crc
  import opened MstpFrames

  // ------------------------------------------------------------------ one changed octet is always noticed

  /** One more error, and nothing else. */
  ghost predicate OneErrorCounted(s: Link, r: Link) {
    && r.rx == Idle && r.errorsRx == (s.errorsRx + 1) % 0x1_0000_0000
    && r.offered == s.offered && r.framesRx == s.framesRx
    && r.busActive == s.busActive && r.lastType == s.lastType && r.lastSource == s.lastSource
  }

  lemma RejectCounts(s: Link, rx: Rx)
    ensures OneErrorCounted(s, Reject(s.(rx := rx)))
  {
  }

  /** One octet of the header or of its check changed: one error counted, nothing accepted. */
  lemma HeaderCorruptionDetected(s: Link, frameType: bv8, dest: bv8, source: bv8, data: Octets, bad: Octets, i: nat)
    requires Hunting(s.rx) && |data| < 0x1_0000 && 2 <= i < 8
    requires OneOctetChanged(Frame(frameType, dest, source, data), bad, i)
    ensures OneErrorCounted(s, RunRx(s, bad[..8]))
  {
    hide Frame, Header, HeaderTrailerOf, RunRx, AfterHeader, OneOctetChanged, HeaderCrc;
    var h := Header(frameType, dest, source, |data|);
    var good := h + [HeaderTrailerOf(h)];
    FrameStart(frameType, dest, source, data);
    ChangeInHead(Frame(frameType, dest, source, data), bad, good, i);
    var got := bad[2..8];
    HeaderCrcDetects(good, got, i - 2, HEADER_INIT);
    GoodHeaderCrc(h);
    RunHead(s, got[..5], got[5]);
    BadHeader(s.(rx := InHeaderCrc(got[..5])), got);
    HeadSplit(bad);
    RejectCounts(s, InHeaderCrc(got[..5]));
  }

  lemma FrameStart(frameType: bv8, dest: bv8, source: bv8, data: Octets)
    requires |data| < 0x1_0000
    ensures var f, h := Frame(frameType, dest, source, data), Header(frameType, dest, source, |data|);
            |f| >= 8 && f[..2] == PREAMBLE && f[2..8] == h + [HeaderTrailerOf(h)]
  {
    hide Header, HeaderTrailerOf, DataTrailerOf;
  }

  lemma ChangeInHead(f: Octets, bad: Octets, good: Octets, i: nat)
    requires |f| >= 8 && f[..2] == PREAMBLE && f[2..8] == good && 2 <= i < 8 && OneOctetChanged(f, bad, i)
    ensures |bad| >= 8 && bad[..2] == PREAMBLE && OneOctetChanged(good, bad[2..8], i - 2)
  {
    assert bad[2..8] == good[i - 2 := bad[i]];
  }

  lemma HeadSplit(bad: Octets)
    requires |bad| >= 8 && bad[..2] == PREAMBLE
    ensures bad[..8] == PREAMBLE + bad[2..8][..5] + [bad[2..8][5]]
  {
  }

  lemma GoodHeaderCrc(h: Octets)
    ensures HeaderCrc(h + [HeaderTrailerOf(h)], HEADER_INIT) == HEADER_RESIDUE
  {
    hide HeaderStep;
    HeaderTrailer(HeaderTrailerOf(h), HeaderCrc(h, HEADER_INIT));
    assert (h + [HeaderTrailerOf(h)])[..|h|] == h;
  }

  lemma BadHeader(s: Link, got: Octets)
    requires |got| == 6 && HeaderCrc(got, HEADER_INIT) != HEADER_RESIDUE
    ensures AfterHeader(s, got[..5], got[5]) == Reject(s)
  {
    hide HeaderStep, Announced;
  }

  /** One octet of the payload or of its check changed: one error counted, nothing accepted. */
  lemma DataCorruptionDetected(s: Link, frameType: bv8, dest: bv8, source: bv8, data: Octets, bad: Octets, i: nat)
    requires Hunting(s.rx) && 0 < |data| <= 501 && 8 <= i
    requires OneOctetChanged(Frame(frameType, dest, source, data), bad, i)
    ensures OneErrorCounted(s, RunRx(s, bad))
  {
    hide Frame, Header, HeadOf, RunRx, HeaderTrailerOf, DataTrailerOf, Reject, Announced, OneOctetChanged;
    var h := Header(frameType, dest, source, |data|);
    var head := HeadOf(frameType, dest, source, data);
    FrameIsHeadAndTail(frameType, dest, source, data);
    ChangeInTail(head, data + DataTrailerOf(data), bad, i);
    AnnouncedOfHeader(frameType, dest, source, |data|);
    GoodHead(s, frameType, dest, source, data);
    RunRxSplit(s, head, bad[8..]);
    CorruptTail(s, h, data, bad[8..], i - 8);
    RejectCounts(s, s.rx);
  }

  lemma ChangeInTail(head: Octets, tail: Octets, bad: Octets, i: nat)
    requires |head| == 8 <= i && OneOctetChanged(head + tail, bad, i)
    ensures bad == head + bad[8..] && OneOctetChanged(tail, bad[8..], i - 8)
  {
    assert bad[8..] == tail[i - 8 := bad[i]];
  }

  lemma FrameIsHeadAndTail(frameType: bv8, dest: bv8, source: bv8, data: Octets)
    requires 0 < |data| < 0x1_0000
    ensures |HeadOf(frameType, dest, source, data)| == 8
    ensures Frame(frameType, dest, source, data) == HeadOf(frameType, dest, source, data) + (data + DataTrailerOf(data))
  {
    hide HeaderTrailerOf, DataTrailerOf;
  }

  lemma GoodHead(s: Link, frameType: bv8, dest: bv8, source: bv8, data: Octets)
    requires Hunting(s.rx) && 0 < |data| <= MAX_PAYLOAD
    ensures RunRx(s, HeadOf(frameType, dest, source, data)) ==
            s.(rx := InData(Header(frameType, dest, source, |data|), []))
  {
    var h := Header(frameType, dest, source, |data|);
    AnnouncedOfHeader(frameType, dest, source, |data|);
    RunHead(s, h, HeaderTrailerOf(h));
    HeaderTrailer(HeaderTrailerOf(h), HeaderCrc(h, HEADER_INIT));
  }

  lemma CorruptTail(s: Link, h: Octets, data: Octets, got: Octets, i: nat)
    requires |h| == 5 && 0 < |data| <= MAX_PAYLOAD && Announced(h) == |data|
    requires OneOctetChanged(data + DataTrailerOf(data), got, i)
    ensures RunRx(s.(rx := InData(h, [])), got) == Reject(s)
  {
    hide DataStep, DataCrc, RunRx, Announced;
    var good, n := data + DataTrailerOf(data), |data|;
    var t := DataTrailerOf(data);
    DataCrcDetects(good, got, i, DATA_INIT);
    DataCrcOfTail(data, t[0], t[1]);
    DataTrailer(t[0], t[1], DataCrc(data, DATA_INIT));
    assert good == data + [t[0], t[1]];
    DataCrcOfTail(got[..n], got[n], got[n + 1]);
    assert got == got[..n] + [got[n], got[n + 1]];
    RunTail(s.(rx := InData(h, [])), h, got[..n], got[n], got[n + 1]);
  }

  lemma DataCrcOfTail(data: Octets, lo: bv8, hi: bv8)
    ensures DataCrc(data + [lo, hi], DATA_INIT) == DataStep(hi, DataStep(lo, DataCrc(data, DATA_INIT)))
  {
    hide DataStep;
    var s := data + [lo, hi];
    assert s[..|s| - 1] == data + [lo];
    assert (data + [lo])[..|data|] == data;
  }

  // ------------------------------------------------------------------ frames between noise are all received

  datatype Sent = Sent(frameType: bv8, dest: bv8, source: bv8, data: Octets)

  /** Line noise, then a frame. */
  datatype Item = Item(noise: Octets, frame: Sent)

  ghost predicate ItemOk(item: Item) {
    |item.frame.data| <= 501 && NoPreamble(item.noise)
  }

  /** Noise that never looks like the start of a frame; it may end in 55. */
  ghost predicate NoPreamble(noise: Octets) {
    forall i :: 0 < i < |noise| ==> !(noise[i - 1] == 0x55 && noise[i] == 0xFF)
  }

  function Wire(f: Sent): Octets
    requires |f.data| < 0x1_0000
  {
    Frame(f.frameType, f.dest, f.source, f.data)
  }

  ghost function Stream(items: seq<Item>): Octets
    requires forall k :: 0 <= k < |items| ==> ItemOk(items[k])
  {
    if items == [] then [] else
      var last := items[|items| - 1];
      assert ItemOk(last);
      Stream(items[..|items| - 1]) + last.noise + Wire(last.frame)
  }

  /** The payloads of the data frames, in order. */
  function DataPdus(items: seq<Item>): seq<Offered> {
    if items == [] then [] else
      var f := items[|items| - 1].frame;
      var before := DataPdus(items[..|items| - 1]);
      if (f.frameType == 0x05 || f.frameType == 0x06) && f.data != []
      then before + [Offered(f.source, f.dest, f.data)] else before
  }

  lemma {:induction false} RunNoise(s: Link, noise: Octets)
    requires s.rx == Idle && NoPreamble(noise)
    ensures RunRx(s, noise) == s.(rx := if noise != [] && noise[|noise| - 1] == 0x55 then Preamble2 else Idle)
  {
    if noise != [] {
      var n := |noise| - 1;
      RunNoise(s, noise[..n]);
      if n > 0 {
        assert !(noise[n - 1] == 0x55 && noise[n] == 0xFF);
      }
    }
  }

  /** The receiver after one frame it accepts. */
  function Received(s: Link, f: Sent): Link {
    s.(rx := Idle, framesRx := (s.framesRx + 1) % 0x1_0000_0000, busActive := true,
       lastType := f.frameType, lastSource := f.source,
       offered := if (f.frameType == 0x05 || f.frameType == 0x06) && f.data != []
                  then s.offered + [Offered(f.source, f.dest, f.data)] else s.offered)
  }

  lemma ItemReceived(s: Link, item: Item)
    requires s.rx == Idle && ItemOk(item)
    ensures RunRx(s, item.noise + Wire(item.frame)) == Received(s, item.frame)
  {
    hide RunRx, Received, Frame, Header, Accept, NoPreamble;
    var f := item.frame;
    RunNoise(s, item.noise);
    var s' := RunRx(s, item.noise);
    FrameReceived(s', f.frameType, f.dest, f.source, f.data);
    AcceptedIsReceived(s, s', f);
    RunRxSplit(s, item.noise, Wire(f));
  }

  lemma AcceptedIsReceived(s: Link, s': Link, f: Sent)
    requires s' == s.(rx := s'.rx) && |f.data| < 0x1_0000
    ensures Accept(s', Header(f.frameType, f.dest, f.source, |f.data|), f.data) == Received(s, f)
  {
    HeaderDisplay(f.frameType, f.dest, f.source, |f.data|);
    hide Header, LengthHigh, LengthLow, Bump;
  }

  /** The receiver `r` has taken every one of the items, starting from `s`. */
  ghost predicate TookAll(s: Link, items: seq<Item>, r: Link) {
    && r.rx == Idle && r.errorsRx == s.errorsRx
    && r.framesRx == (s.framesRx + |items|) % WRAP
    && r.offered == s.offered + DataPdus(items)
    && (items != [] ==> r.busActive && r.lastType == items[|items| - 1].frame.frameType
                        && r.lastSource == items[|items| - 1].frame.source)
  }

  lemma TookOneMore(s: Link, items: seq<Item>, r: Link)
    requires items != [] && TookAll(s, items[..|items| - 1], r)
    ensures TookAll(s, items, Received(r, items[|items| - 1].frame))
  {
    BumpCounts(s.framesRx, |items| - 1);
  }

  /** Frames of up to 501 payload octets between noise: all received in order with source,
      destination and payload intact, none counted as an error, the machine idle after each. */
  lemma {:induction false} EveryFrameReceived(s: Link, items: seq<Item>)
    requires s.rx == Idle && forall k :: 0 <= k < |items| ==> ItemOk(items[k])
    ensures TookAll(s, items, RunRx(s, Stream(items)))
  {
    if items == [] {
      assert RunRx(s, []) == s;
    } else {
      var n := |items| - 1;
      EveryFrameReceived(s, items[..n]);
      assert ItemOk(items[n]);
      var before, more := Stream(items[..n]), items[n].noise + Wire(items[n].frame);
      var r := RunRx(s, before);
      TookOneMore(s, items, r);
      Regroup(before, items[n].noise, Wire(items[n].frame));
      assert Stream(items) == before + more;
      RunRxSplit(s, before, more);
      assert r.rx == Idle;
      hide *;
      ItemReceived(r, items[n]);
    }
  }

  lemma BumpCounts(f: u32, n: nat)
    ensures Bump((f + n) % WRAP) == (f + n + 1) % WRAP
  {
  }

  // ------------------------------------------------------------------ nothing else is ever offered

  /** The octets of a frame under way. */
  function Pending(rx: Rx): Octets {
    match rx
    case Idle => []
    case Preamble2 => [0x55]
    case InHeader(h) => PREAMBLE + h
    case InHeaderCrc(h) => PREAMBLE + h
    case InData(h, data) => PREAMBLE + h + [HeaderTrailerOf(h)] + data
    case InDataCrc1(h, data) => PREAMBLE + h + [HeaderTrailerOf(h)] + data
    case InDataCrc2(h, data, lo) => PREAMBLE + h + [HeaderTrailerOf(h)] + data + [lo]
  }

  ghost predicate EndsWith(stream: Octets, tail: Octets) {
    |tail| <= |stream| && stream[|stream| - |tail|..] == tail
  }

  /** Where the frame under way started. */
  function PendingStart(s: Link, stream: Octets): int {
    |stream| - |Pending(s.rx)|
  }

  lemma HeaderOfAnnounced(h: Octets)
    requires |h| == 5
    ensures h == Header(h[0], h[1], h[2], Announced(h))
  {
    hide *;
    AnnouncedOctets(h);
    HeaderDisplay(h[0], h[1], h[2], Announced(h));
    FiveOctets(h);
  }

  lemma AnnouncedOctets(h: Octets)
    requires |h| == 5
    ensures LengthHigh(Announced(h)) == h[3] && LengthLow(Announced(h)) == h[4]
  {
    hide LengthHigh, LengthLow;
    LengthOctets(h[3], h[4]);
  }

  lemma HeaderDisplay(frameType: bv8, dest: bv8, source: bv8, length: nat)
    requires length < 0x1_0000
    ensures Header(frameType, dest, source, length) == [frameType, dest, source, LengthHigh(length), LengthLow(length)]
  {
    hide LengthHigh, LengthLow;
  }

  lemma FiveOctets(h: Octets)
    requires |h| == 5
    ensures h == [h[0], h[1], h[2], h[3], h[4]]
  {
  }

  lemma LengthOctets(hi: bv8, lo: bv8)
    ensures var n := (hi as int) * 256 + lo as int;
            0 <= n < 0x1_0000 && LengthHigh(n) == hi && LengthLow(n) == lo
  {
    OctetOfInt(hi);
    OctetOfInt(lo);
    WordSplit(hi as int, lo as int);
  }

  lemma WordSplit(a: int, b: int)
    requires 0 <= a < 256 && 0 <= b < 256
    ensures (a * 256 + b) / 256 == a && (a * 256 + b) % 256 == b
  {
  }

  lemma OctetOfInt(b: bv8)
    ensures (b as int) as bv8 == b
  {
  }

  /** An octet either extends the frame under way or drops it. */
  lemma PendingStep(s: Link, b: bv8)
    requires RxOk(s.rx)
    ensures Extends(Pending(s.rx), b, Pending(StepRx(s, b).rx))
  {
    match s.rx
    case Idle =>
    case Preamble2 =>
    case InHeader(h) => PendingInHeader(s, b);
    case InHeaderCrc(h) => PendingInHeaderCrc(s, b);
    case InData(h, data) => PendingInData(s, b);
    case InDataCrc1(h, data) =>
    case InDataCrc2(h, data, lo) =>
  }

  ghost predicate Extends(before: Octets, b: bv8, after: Octets) {
    after == before + [b] || after == [] || after == [b]
  }

  lemma PendingInHeader(s: Link, b: bv8)
    requires RxOk(s.rx) && s.rx.InHeader?
    ensures Pending(StepRx(s, b).rx) == Pending(s.rx) + [b]
  {
    Regroup(PREAMBLE, s.rx.h, [b]);
  }

  lemma PendingInHeaderCrc(s: Link, b: bv8)
    requires RxOk(s.rx) && s.rx.InHeaderCrc?
    ensures Extends(Pending(s.rx), b, Pending(StepRx(s, b).rx))
  {
    hide HeaderStep, HeaderCrc, Announced;
    HeaderTrailer(b, HeaderCrc(s.rx.h, HEADER_INIT));
    assert Pending(InData(s.rx.h, [])) == PREAMBLE + s.rx.h + [HeaderTrailerOf(s.rx.h)];
  }

  lemma PendingInData(s: Link, b: bv8)
    requires RxOk(s.rx) && s.rx.InData?
    ensures Pending(StepRx(s, b).rx) == Pending(s.rx) + [b]
  {
    Regroup(PREAMBLE + s.rx.h + [HeaderTrailerOf(s.rx.h)], s.rx.data, [b]);
  }

  lemma Regroup(x: Octets, y: Octets, z: Octets)
    ensures x + (y + z) == (x + y) + z
  {
  }

  lemma PendingGrows(s: Link, stream: Octets, b: bv8)
    requires RxOk(s.rx) && EndsWith(stream, Pending(s.rx))
    ensures EndsWith(stream + [b], Pending(StepRx(s, b).rx))
    ensures PendingStart(s, stream) <= PendingStart(StepRx(s, b), stream + [b])
  {
    PendingStep(s, b);
    hide StepRx, Pending;
    var next := Pending(StepRx(s, b).rx);
    if next == Pending(s.rx) + [b] {
      assert (stream + [b])[PendingStart(s, stream)..] == stream[PendingStart(s, stream)..] + [b];
    }
  }

  /** The frame an offered PDU came in. */
  ghost predicate IsFrameOf(f: Octets, o: Offered) {
    && 0 < |o.data| <= 501
    && (f == Frame(0x05, o.dest, o.source, o.data) || f == Frame(0x06, o.dest, o.source, o.data))
  }

  /** A PDU is offered only when the octet just read completes a correct data frame. */
  lemma OfferCompletesFrame(s: Link, b: bv8)
    requires RxOk(s.rx)
    ensures var s' := StepRx(s, b);
            || s'.offered == s.offered
            || (exists o :: s'.offered == s.offered + [o] && s'.rx == Idle && IsFrameOf(Pending(s.rx) + [b], o))
  {
    hide HeaderStep, DataStep, HeaderCrc, DataCrc, Announced, IsFrameOf;
    var s' := StepRx(s, b);
    if s.rx.InDataCrc2? && s'.offered != s.offered {
      var o := Offered(s.rx.h[2], s.rx.h[1], s.rx.data);
      CompletedFrame(s.rx.h, s.rx.data, s.rx.lo, b);
      assert s'.offered == s.offered + [o];
    }
  }

  lemma CompletedFrame(h: Octets, data: Octets, lo: bv8, hi: bv8)
    requires |h| == 5 && 0 < |data| == Announced(h) <= MAX_PAYLOAD
    requires DataStep(hi, DataStep(lo, DataCrc(data, DATA_INIT))) == DATA_RESIDUE
    requires h[0] == DATA_NO_REPLY || h[0] == DATA_REPLY
    ensures IsFrameOf(Pending(InDataCrc2(h, data, lo)) + [hi], Offered(h[2], h[1], data))
  {
    DataTrailer(lo, hi, DataCrc(data, DATA_INIT));
    HeaderOfAnnounced(h);
    hide HeaderStep, DataStep, HeaderCrc, DataCrc, Header, Announced, HeaderTrailerOf;
    var head := PREAMBLE + h + [HeaderTrailerOf(h)];
    Regroup(head, data, [lo]);
    Regroup(head, data + [lo], [hi]);
    TwoSingles(data, lo, hi);
  }

  lemma TwoSingles(data: Octets, lo: bv8, hi: bv8)
    ensures data + [lo] + [hi] == data + [lo, hi]
  {
  }

  function FrameLength(o: Offered): nat {
    10 + |o.data|
  }

  /** The PDU's frame is the part of the stream starting at `start`. */
  ghost predicate FoundAt(stream: Octets, start: nat, o: Offered) {
    start + FrameLength(o) <= |stream| && IsFrameOf(stream[start..start + FrameLength(o)], o)
  }

  ghost predicate AllFound(stream: Octets, starts: seq<nat>, offered: seq<Offered>, limit: int) {
    && |starts| == |offered|
    && (forall k :: 0 <= k < |starts| ==> FoundAt(stream, starts[k], offered[k]))
    && (forall k :: 0 <= k < |starts| - 1 ==> starts[k] + FrameLength(offered[k]) <= starts[k + 1])
    && (starts != [] ==> starts[|starts| - 1] + FrameLength(offered[|starts| - 1]) <= limit)
  }

  lemma FoundLater(stream: Octets, b: bv8, start: nat, o: Offered)
    requires FoundAt(stream, start, o)
    ensures FoundAt(stream + [b], start, o)
  {
    hide IsFrameOf, FrameLength;
    var e := start + FrameLength(o);
    assert (stream + [b])[start..e] == stream[start..e];
  }

  lemma AllFoundLater(stream: Octets, b: bv8, starts: seq<nat>, offered: seq<Offered>, limit: int, limit': int)
    requires AllFound(stream, starts, offered, limit) && limit <= limit'
    ensures AllFound(stream + [b], starts, offered, limit')
  {
    hide FoundAt, FrameLength;
    forall k | 0 <= k < |starts|
      ensures FoundAt(stream + [b], starts[k], offered[k])
    {
      FoundLater(stream, b, starts[k], offered[k]);
    }
  }

  lemma OneMoreFound(m: Link, before: Octets, b: bv8, starts: seq<nat>) returns (starts': seq<nat>)
    requires RxOk(m.rx) && EndsWith(before, Pending(m.rx))
    requires AllFound(before, starts, m.offered, PendingStart(m, before))
    ensures EndsWith(before + [b], Pending(StepRx(m, b).rx))
    ensures AllFound(before + [b], starts', StepRx(m, b).offered, PendingStart(StepRx(m, b), before + [b]))
  {
    hide StepRx, IsFrameOf, FoundAt, AllFound, Pending, FrameLength;
    PendingGrows(m, before, b);
    OfferCompletesFrame(m, b);
    var r, limit := StepRx(m, b), PendingStart(m, before);
    hide EndsWith;
    StartInside(m, before);
    hide PendingStart;
    if r.offered == m.offered {
      AllFoundLater(before, b, starts, m.offered, limit, PendingStart(r, before + [b]));
      starts' := starts;
    } else {
      var o :| r.offered == m.offered + [o] && r.rx == Idle && IsFrameOf(Pending(m.rx) + [b], o);
      IdleStart(r, before + [b]);
      AllFoundLater(before, b, starts, m.offered, limit, limit);
      FrameIsSuffix(before, b, Pending(m.rx), o);
      AllFoundPlus(before + [b], starts, m.offered, limit, o);
      starts' := starts + [limit];
    }
  }

  lemma StartInside(m: Link, before: Octets)
    requires EndsWith(before, Pending(m.rx))
    ensures 0 <= PendingStart(m, before) == |before| - |Pending(m.rx)|
  {
    hide Pending;
  }

  lemma IdleStart(r: Link, stream: Octets)
    requires r.rx == Idle
    ensures PendingStart(r, stream) == |stream|
  {
  }

  lemma AllFoundPlus(stream: Octets, starts: seq<nat>, offered: seq<Offered>, limit: nat, o: Offered)
    requires AllFound(stream, starts, offered, limit) && FoundAt(stream, limit, o)
    ensures AllFound(stream, starts + [limit], offered + [o], limit + FrameLength(o))
  {
    hide IsFrameOf;
  }

  /** Every PDU ever offered is the payload of a correct frame of type 5 or 6 that stands in the
      stream; the frames are distinct stretches of it, in the order of the offers. */
  lemma {:induction false} OfferedAreFrames(s: Link, stream: Octets) returns (starts: seq<nat>)
    requires s.rx == Idle && s.offered == []
    ensures var r := RunRx(s, stream);
            EndsWith(stream, Pending(r.rx)) && AllFound(stream, starts, r.offered, PendingStart(r, stream))
  {
    hide *;
    IdleIsOk(s);
    if stream == [] {
      starts := [];
      NothingOffered(s);
    } else {
      var n := |stream| - 1;
      var before, b := stream[..n], stream[n];
      starts := OfferedAreFrames(s, before);
      RunLast(s, stream);
      assert stream == before + [b];
      starts := OneMoreFound(RunRx(s, before), before, b, starts);
    }
  }

  lemma IdleIsOk(s: Link)
    requires s.rx == Idle
    ensures RxOk(s.rx)
  {
  }

  lemma NothingOffered(s: Link)
    requires s.rx == Idle && s.offered == []
    ensures RunRx(s, []) == s && EndsWith([], Pending(s.rx)) && AllFound([], [], s.offered, PendingStart(s, []))
  {
  }

  lemma RunLast(s: Link, stream: Octets)
    requires RxOk(s.rx) && stream != []
    ensures RunRx(s, stream) == StepRx(RunRx(s, stream[..|stream| - 1]), stream[|stream| - 1])
  {
    hide StepRx, RxOk;
  }

  lemma FrameIsSuffix(before: Octets, b: bv8, pending: Octets, o: Offered)
    requires EndsWith(before, pending) && IsFrameOf(pending + [b], o)
    ensures |before| - |pending| + FrameLength(o) == |before| + 1
    ensures FoundAt(before + [b], |before| - |pending|, o)
  {
    var a := |before| - |pending|;
    assert (before + [b])[a..] == pending + [b];
    assert (before + [b])[a..a + FrameLength(o)] == (before + [b])[a..];
  }
}
