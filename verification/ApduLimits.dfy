/** What a caller can check of a message before `decode_apdu` of bridge-core/src/apdu.rs sees it, and
    what then holds of every read. */
module ApduLimits {
  import opened Words
  import opened Numbers
  import opened ApduValues
  import opened ApduMessages
  import opened ApduStops
  import opened ApduReach

  // ------------------------------------------------------------------ no read wraps

  /** Decoding comes to nothing that wraps. */
  ghost predicate NothingWraps(data: Slice, rounds: nat) {
    forall r :: r in Reads(data, rounds) ==> !Wraps(BodyOf(data), r)
  }

  /** Every read stays in range, but for an empty signed integer at the end, and moves forward, if and
      only if nothing decoding comes to wraps. */
  lemma AllOrderlyExactly(data: Slice, rounds: nat)
    ensures (forall r :: r in Reads(data, rounds) ==> Orderly(BodyOf(data), r)) <==> NothingWraps(data, rounds)
  {
    hide Orderly, Wraps, Reads;
    forall r
      ensures Orderly(BodyOf(data), r) <==> !Wraps(BodyOf(data), r)
    {
      OrderlyExactly(BodyOf(data), r);
    }
  }

  /** Then only an empty signed integer at the end can stop it. */
  lemma StopsOnlyAtEmptySigned(data: Slice, rounds: nat)
    requires NothingWraps(data, rounds)
    ensures ApduWithin(data, rounds) == Failure(OutOfRange)
            <==> exists k :: ValueRead(k) in Reads(data, rounds) && EmptySignedAtEnd(BodyOf(data), k)
  {
    hide Wraps, Reads, ApduWithin, EmptySignedAtEnd;
    StopsExactly(data, rounds);
    var body := BodyOf(data);
    if r :| r in Reads(data, rounds) && Stops(body, r) {
      assert ValueRead(r.pos) in Reads(data, rounds) && EmptySignedAtEnd(body, r.pos);
    }
    if k :| ValueRead(k) in Reads(data, rounds) && EmptySignedAtEnd(body, k) {
      assert Stops(body, ValueRead(k));
    }
  }

  // ------------------------------------------------------------------ a check on the octets

  /** Nowhere an octet 255 and behind it a four-octet number of 2 to the 31st or more. */
  ghost predicate NoHugeLength(data: Slice) {
    forall k :: 0 <= k && k + 5 <= |data| && data[k] == 0xFF ==> data[k + 1] < 0x80
  }

  /** Nowhere an octet 255 and behind it a four-octet number greater than the size of the data. */
  ghost predicate NoExcessiveLength(data: Slice) {
    forall k :: 0 <= k && k + 5 <= |data| && data[k] == 0xFF ==> BeVal(data[k + 1..k + 5]) <= |data|
  }

  lemma ExcessiveIsMore(data: Slice)
    requires NoExcessiveLength(data)
    ensures NoHugeLength(data)
  {
    hide BeVal;
    forall k | 0 <= k && k + 5 <= |data| && data[k] == 0xFF
      ensures data[k + 1] < 0x80
    {
      FourOctetValue(data[k + 1..k + 5]);
    }
  }

  lemma SmallLengths(data: Slice, pos: u32)
    requires NoHugeLength(data) && TagAt(data, pos).Success?
    ensures TagAt(data, pos).value.lvt < 0x8000_0000
  {
    hide BeVal;
    var next := if data[pos] / 16 == 15 then pos + 2 else pos + 1;
    if data[pos] % 8 == 5 && next < |data| && data[next] >= 254 {
      if data[next] == 254 {
        TwoOctetValue(data, next);
      } else if next + 5 <= |data| {
        FourOctetValue(data[next + 1..next + 5]);
      }
    }
  }

  lemma TwoOctetValue(data: Slice, next: nat)
    ensures next + 3 <= |data| ==> BeVal(data[next + 1..next + 3]) < 0x1_0000
  {
    if next + 3 <= |data| {
      BeBytesOfVal(data[next + 1..next + 3]);
      PowersOf256();
    }
  }

  /** Such a length added to a position inside the data stays below the last position. */
  lemma ValueStaysNear(data: Slice, pos: u32)
    requires NoHugeLength(data) && ValueAt(data, pos).Success?
    ensures ValueAt(data, pos).value.1 + 1 < WRAP
  {
    hide TagAt, Bacnet.FromRaw, Bacnet.Utf8Valid, StoredText, UnsignedAt, SignedAt, TextAt, ObjectAt, NoHugeLength;
    SmallLengths(data, pos);
  }

  lemma NearReadsDoNotWrap(data: Slice, r: Read)
    requires NoHugeLength(data) && r.pos + 1 < WRAP
    ensures !Wraps(data, r)
  {
    hide TagAt, NoHugeLength;
    if TagAt(data, r.pos).Success? {
      SmallLengths(data, r.pos);
    }
  }

  ghost predicate Near(met: set<Read>) {
    forall r :: r in met ==> r.pos + 1 < WRAP
  }

  lemma FieldsStayNear(data: Slice)
    ensures Near(ReferenceReads(data)) && Near(WhoIsReads(data)) && Near(SubscribeCovReads(data))
    ensures |data| >= 3 ==> Near(ErrorReads(data))
    ensures ReferenceAt(data).Success? ==> ReferenceAt(data).value.next <= |data|
  {
    hide ObjectField, UnsignedField, ContextUnsignedAt, NumberAt;
  }

  lemma BracketedStaysNear(data: Slice, pos: u32, number: byte)
    requires NoHugeLength(data) && pos <= |data|
    ensures Near(BracketedReads(data, pos, number))
  {
    hide BracketAt, ValueAt, NoHugeLength;
    var a := BracketAt(data, pos, number, 6);
    if a.Success? && ValueAt(data, a.value).Success? {
      ValueStaysNear(data, a.value);
    }
  }

  lemma IAmStaysNear(data: Slice)
    requires NoHugeLength(data)
    ensures Near(IAmReads(data))
  {
    hide ValueAt, NoHugeLength;
    forall k: u32 | ValueAt(data, k).Success?
      ensures ValueAt(data, k).value.1 + 1 < WRAP
    {
      ValueStaysNear(data, k);
    }
  }

  lemma PropertyServicesStayNear(data: Slice)
    requires NoHugeLength(data)
    ensures Near(ReadPropertyAckReads(data)) && Near(WritePropertyReads(data))
  {
    hide ReferenceAt, ReferenceReads, BracketedAt, BracketedReads, ContextUnsignedAt, NoHugeLength;
    FieldsStayNear(data);
    var ref := ReferenceAt(data);
    if ref.Success? {
      BracketedStaysNear(data, ref.value.next, 3);
    }
  }

  lemma EntryStaysNear(data: Slice, pos: u32)
    requires NoHugeLength(data) && pos <= |data|
    ensures Near(EntryReads(data, pos))
  {
    hide UnsignedField, ContextUnsignedAt, BracketedReads, NoHugeLength;
    var code := UnsignedField(data, pos, 0);
    if code.Success? {
      var index := ContextUnsignedAt(data, code.value.1, 1);
      if index.Success? {
        BracketedStaysNear(data, index.value.1, 2);
      }
    }
  }

  lemma {:induction false} EntriesStayNear(data: Slice, pos: u32, rounds: nat)
    requires NoHugeLength(data) && pos <= |data|
    ensures Near(EntriesReads(data, pos, rounds))
    decreases rounds
  {
    hide EntryAt, EntryReads, ClosingHere, NoHugeLength;
    if !ClosingHere(data, pos, 4) && rounds > 0 {
      EntryStaysNear(data, pos);
      if EntryAt(data, pos).Success? {
        EntriesStayNear(data, EntryAt(data, pos).value.1, rounds - 1);
      }
    }
  }

  lemma CovNotificationStaysNear(data: Slice, rounds: nat)
    requires NoHugeLength(data)
    ensures Near(CovNotificationReads(data, rounds))
  {
    hide UnsignedField, ObjectField, EntriesWithin, EntriesReads, BracketAt, NoHugeLength;
    forall a: u32 | a <= |data|
      ensures Near(EntriesReads(data, a, rounds))
    {
      EntriesStayNear(data, a, rounds);
    }
  }

  lemma BodyHasNoHugeLength(data: Slice)
    requires NoHugeLength(data)
    ensures NoHugeLength(BodyOf(data))
  {
    var body, start := BodyOf(data), BodyStart(data);
    forall k | 0 <= k && k + 5 <= |body| && body[k] == 0xFF
      ensures body[k + 1] < 0x80
    {
      assert data[start + k] == body[k] && data[start + k + 1] == body[k + 1];
    }
  }

  /** A message without such a length: nothing decoding comes to wraps. */
  lemma NoHugeLengthNothingWraps(data: Slice, rounds: nat)
    requires NoHugeLength(data)
    ensures NothingWraps(data, rounds)
  {
    hide WhoIsReads, IAmReads, ReferenceReads, ReadPropertyAckReads, WritePropertyReads, SubscribeCovReads,
         CovNotificationReads, ErrorReads, NoHugeLength, Wraps;
    var body := BodyOf(data);
    BodyHasNoHugeLength(data);
    FieldsStayNear(body);
    IAmStaysNear(body);
    PropertyServicesStayNear(body);
    CovNotificationStaysNear(body, rounds);
    assert Near(Reads(data, rounds));
    forall r | r in Reads(data, rounds)
      ensures !Wraps(body, r)
    {
      NearReadsDoNotWrap(body, r);
    }
  }

  // ------------------------------------------------------------------ the last octet

  /** The last octet of every way of writing tag 3 with length 0. */
  predicate SuspectEnd(data: Slice) {
    data != [] && (data[|data| - 1] == 0x30 || data[|data| - 1] == 0x03 || data[|data| - 1] == 0x00)
  }

  lemma ZeroEndsInZero(s: seq<byte>)
    requires s != [] && BeVal(s) == 0
    ensures s[|s| - 1] == 0
  {
  }

  lemma EmptySignedIsSuspect(data: Slice, pos: u32)
    requires EmptySignedAtEnd(data, pos)
    ensures SuspectEnd(data)
  {
    hide BeVal;
    var next := if data[pos] / 16 == 15 then pos + 2 else pos + 1;
    if data[pos] % 16 % 8 == 5 {
      if data[next] >= 254 {
        var n := if data[next] == 254 then 2 else 4;
        assert |data| == next + 1 + n;
        ZeroEndsInZero(data[next + 1..next + 1 + n]);
        assert data[next + n] == 0;
      } else {
        assert |data| == next + 1 && data[next] == 0;
      }
    } else if data[pos] / 16 == 15 {
      assert |data| == pos + 2 && data[pos + 1] == 3;
    } else {
      assert |data| == pos + 1 && data[pos] == 0x30;
    }
  }

  /** A message without such a length, whose last octet is none of 00, 03 and 30, is decoded, or
      refused with an error of its own, without indexing out of range. */
  lemma StopsOnlyOnSuspectEnd(data: Slice)
    requires NoHugeLength(data)
    ensures ApduOf(data) == Failure(OutOfRange) ==> SuspectEnd(data)
  {
    hide NoHugeLength, Reads, ApduWithin, EmptySignedAtEnd, SuspectEnd;
    NoHugeLengthNothingWraps(data, |data| + 8);
    StopsOnlyAtEmptySigned(data, |data| + 8);
    if k :| ValueRead(k) in Reads(data, |data| + 8) && EmptySignedAtEnd(BodyOf(data), k) {
      EmptySignedIsSuspect(BodyOf(data), k);
      SameEnd(data);
    }
  }

  lemma SameEnd(data: Slice)
    requires SuspectEnd(BodyOf(data))
    ensures SuspectEnd(data)
  {
  }
}
