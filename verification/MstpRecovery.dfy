/** The receiver has no frame-abort timer; what brings it back after a broken frame is the stream
    itself, within a bounded number of octets. */
module MstpRecovery {
  import opened Crc
  import opened MstpFrames
  import opened MstpTheorems

  /** The longest rest of a frame: five header octets, a check, 501 payload octets, two checks. */
  const LONGEST := 509

  /** How many more octets the frame under way can take at most. */
  function Remaining(rx: Rx): (n: int)
    requires RxOk(rx)
    ensures 0 <= n <= LONGEST
    ensures n == 0 <==> Hunting(rx)
  {
    match rx
    case Idle => 0
    case Preamble2 => 0
    case InHeader(h) => LONGEST - |h|
    case InHeaderCrc(_) => LONGEST - 5
    case InData(h, data) => Announced(h) - |data| + 2
    case InDataCrc1(_, _) => 2
    case InDataCrc2(_, _, _) => 1
  }

  lemma HeaderCheckCounts(s: Link, h: Octets, b: bv8)
    requires |h| == 5
    ensures var r := AfterHeader(s, h, b).rx; RxOk(r) && Remaining(r) < LONGEST - 5
  {
    hide HeaderStep, HeaderCrc, DataStep, DataCrc, Announced;
  }

  lemma DataCheckEnds(s: Link, h: Octets, data: Octets, lo: bv8, hi: bv8)
    requires |h| == 5
    ensures Hunting(AfterData(s, h, data, lo, hi).rx)
  {
    hide DataStep, DataCrc;
  }

  lemma PayloadCounts(s: Link, b: bv8)
    requires RxOk(s.rx) && (s.rx.InHeader? || s.rx.InData? || s.rx.InDataCrc1?)
    ensures Remaining(StepRx(s, b).rx) < Remaining(s.rx)
  {
    hide AfterHeader, AfterData, Announced;
  }

  lemma EachOctetCounts(s: Link, b: bv8)
    requires RxOk(s.rx) && !Hunting(s.rx)
    ensures Remaining(StepRx(s, b).rx) < Remaining(s.rx)
  {
    hide AfterHeader, AfterData, Announced;
    match s.rx
    case InHeaderCrc(h) => HeaderCheckCounts(s, h, b);
    case InDataCrc2(h, data, lo) => DataCheckEnds(s, h, data, lo, b);
    case _ => PayloadCounts(s, b);
  }

  lemma HuntingGoesOn(s: Link, b: bv8)
    requires Hunting(s.rx)
    ensures Hunting(StepRx(s, b).rx) <==> !(s.rx == Preamble2 && b == 0xFF)
    ensures StepRx(s, b).rx == Preamble2 <==> b == 0x55
    ensures StepRx(s, b).offered == s.offered && StepRx(s, b).errorsRx == s.errorsRx
  {
  }

  lemma FrameLeavesNoPreamble(s: Link, b: bv8)
    requires RxOk(s.rx) && !Hunting(s.rx)
    ensures StepRx(s, b).rx != Preamble2
  {
    hide HeaderStep, DataStep, HeaderCrc, DataCrc, Announced;
  }

  /** After `k` octets without 55 FF: hunting, or a frame under way since before them or since a
      first FF. */
  lemma {:induction false} Progress(s: Link, noise: Octets)
    requires RxOk(s.rx) && NoPreamble(noise)
    ensures var r := RunRx(s, noise);
            && (r.rx == Preamble2 && noise != [] ==> noise[|noise| - 1] == 0x55)
            && (Hunting(r.rx) || Remaining(r.rx) + |noise| <= LONGEST + 1)
  {
    hide StepRx, Remaining;
    if noise == [] {
      assert RunRx(s, noise) == s;
    } else {
      var n := |noise| - 1;
      var b := noise[n];
      Progress(s, noise[..n]);
      var m := RunRx(s, noise[..n]);
      if Hunting(m.rx) {
        HuntingGoesOn(m, b);
        if n > 0 {
          assert !(noise[n - 1] == 0x55 && noise[n] == 0xFF);
        }
      } else {
        EachOctetCounts(m, b);
        FrameLeavesNoPreamble(m, b);
      }
    }
  }

  /** Whatever state a broken frame left behind, 510 octets of noise without 55 FF bring the
      receiver back to looking for a frame. */
  lemma HuntsAgain(s: Link, noise: Octets)
    requires RxOk(s.rx) && NoPreamble(noise) && |noise| > LONGEST
    ensures Hunting(RunRx(s, noise).rx)
    ensures noise[|noise| - 1] != 0x55 ==> RunRx(s, noise).rx == Idle
  {
    hide RunRx, Remaining;
    Progress(s, noise);
    RemainingPositive(RunRx(s, noise).rx);
  }

  lemma RemainingPositive(rx: Rx)
    requires RxOk(rx)
    ensures 0 <= Remaining(rx)
    ensures !Hunting(rx) ==> Remaining(rx) > 0
  {
  }

  /** So from any state at all, frames sent after such noise are all received, in order, intact. */
  lemma RecoversAfterNoise(s: Link, noise: Octets, items: seq<Item>)
    requires RxOk(s.rx) && NoPreamble(noise) && |noise| > LONGEST && noise[|noise| - 1] != 0x55
    requires forall k :: 0 <= k < |items| ==> ItemOk(items[k])
    ensures TookAll(RunRx(s, noise), items, RunRx(s, noise + Stream(items)))
  {
    hide RunRx, TookAll, Stream, ItemOk;
    HuntsAgain(s, noise);
    EveryFrameReceived(RunRx(s, noise), items);
    RunRxSplit(s, noise, Stream(items));
  }

  /** One octet fewer is not enough: behind a stray 55, the rest of a longest frame is still noise. */
  lemma OneFewerIsNotEnough(s: Link) returns (noise: Octets)
    requires s.rx == Preamble2
    ensures |noise| == LONGEST && NoPreamble(noise) && !Hunting(RunRx(s, noise).rx)
  {
    hide HeaderStep, DataStep, HeaderCrc, DataCrc, RunRx;
    var data: Octets := seq(MAX_PAYLOAD, i => 0);
    var h := Header(DATA_NO_REPLY, 0, 0, MAX_PAYLOAD);
    AnnouncedOfHeader(DATA_NO_REPLY, 0, 0, MAX_PAYLOAD);
    var check := HeaderTrailerOf(h);
    noise := [0xFF] + h + [check] + data + [0];
    var idle := s.(rx := Idle);
    RunRxOne(idle, 0x55);
    RunRxSplit(idle, [0x55], noise);
    RunHead(idle, h, check);
    HeaderTrailer(check, HeaderCrc(h, HEADER_INIT));
    var inside := s.(rx := InData(h, []));
    RunData(inside, h, data);
    RunRxSplit(inside, data, [0]);
    RunRxOne(inside.(rx := InDataCrc1(h, data)), 0);
    RunRxSplit(idle, PREAMBLE + h + [check], data + [0]);
    assert [0x55] + noise == PREAMBLE + h + [check] + (data + [0]);
    NoPreambleInside(h, check, data);
  }

  lemma NoPreambleInside(h: Octets, check: bv8, data: Octets)
    requires |h| == 5 && h == Header(DATA_NO_REPLY, 0, 0, MAX_PAYLOAD) && |data| > 0
             && forall i :: 0 <= i < |data| ==> data[i] == 0
    ensures NoPreamble([0xFF] + h + [check] + data + [0])
  {
  }
}
