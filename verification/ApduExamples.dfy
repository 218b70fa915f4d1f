/** Messages on which `decode_apdu` of bridge-core/src/apdu.rs runs for ever or indexes out of range, and
    one whose wrapping length does no harm. */
module ApduExamples {
  import opened Words
  import opened Numbers
  import opened Bacnet
  import opened ApduValues
  import opened ApduMessages
  import opened ApduStops
  import opened ApduReach
  import opened ApduLimits
  import opened ApduLoop

  // ------------------------------------------------------------------ single reads

  lemma NumberHere(data: Slice, pos: u32, tag: nibble)
    requires pos + 2 <= |data| && tag < 15 && data[pos] == tag * 16 + 9
    ensures UnsignedField(data, pos, tag) == Success((data[pos + 1], pos + 2))
  {
    var s := data[pos + 1..pos + 2];
    assert s[..0] == [];
    assert BeVal(s) == data[pos + 1];
  }

  lemma ObjectHere(data: Slice, pos: u32, tag: nibble)
    requires pos + 5 <= |data| && tag < 15 && data[pos] == tag * 16 + 12
    requires (data[pos + 1] == 0 || data[pos + 1] == 2) && data[pos + 2] == 0 && data[pos + 3] == 0
             && data[pos + 4] == 1
    ensures ObjectField(data, pos, tag).Success? && ObjectField(data, pos, tag).value.1 == pos + 5
  {
    FourOctetValue(data[pos + 1..pos + 5]);
    hide BeVal;
    assert TagAt(data, pos) == Success(Tag(tag, true, 4, 1));
  }

  lemma BracketHere(data: Slice, pos: u32, tag: nibble, kind: u32)
    requires pos < |data| && tag < 15 && (kind == 6 || kind == 7) && data[pos] == tag * 16 + 8 + kind
    ensures BracketAt(data, pos, tag, kind) == Success(pos + 1)
  {
  }

  lemma NullHere(data: Slice, pos: u32)
    requires pos < |data| && data[pos] == 0x00
    ensures ValueAt(data, pos) == Success((Null, pos + 1))
  {
  }

  /** An unknown value with a four-octet length. */
  lemma UnknownHere(data: Slice, pos: u32, n: u32)
    requires pos + 6 <= |data| && data[pos] == 0xD5 && data[pos + 1] == 0xFF && BeVal(data[pos + 2..pos + 6]) == n
    ensures TagAt(data, pos) == Success(Tag(13, false, n, 6))
    ensures ValueAt(data, pos) == Success((Null, Plus(pos + 6, n)))
  {
    hide BeVal;
  }

  /** An entry of a list, by its reads. */
  lemma EntryHere(data: Slice, pos: u32, next: u32)
    requires pos + 3 < |data| && data[pos] == 0x09 && data[pos + 2] == 0x2E
    requires ValueAt(data, pos + 3).Success? && BracketAt(data, ValueAt(data, pos + 3).value.1, 2, 7) == Success(next)
    ensures !ClosingHere(data, pos, 4) && EntryAt(data, pos).Success? && EntryAt(data, pos).value.1 == next
  {
    NumberHere(data, pos, 0);
    OtherTagIsAbsent(data, pos + 2, 0x2E, 1);
    BracketHere(data, pos + 2, 2, 6);
    hide UnsignedField, ContextUnsignedAt, BracketAt, ValueAt;
  }

  // ------------------------------------------------------------------ messages

  const CIRCLING_BODY: Slice :=
    [0x09, 0x01, 0x1C, 0x02, 0x00, 0x00, 0x01, 0x2C, 0x00, 0x00, 0x00, 0x01, 0x39, 0x00, 0x4E,
     0x09, 0x55, 0x2E, 0x00, 0x2F, 0x09, 0x55, 0x2E, 0xD5, 0xFF, 0xFF, 0xFF, 0xFF, 0xF6]

  /** A list start behind fields of fixed sizes. */
  lemma StartHere(body: Slice)
    requires |body| > 15 && body[0] == 0x09 && body[2] == 0x1C && body[7] == 0x2C && body[12] == 0x39
             && body[14] == 0x4E
    requires ObjectField(body, 2, 1).Success? && ObjectField(body, 2, 1).value.1 == 7
    requires ObjectField(body, 7, 2).Success? && ObjectField(body, 7, 2).value.1 == 12
    ensures ListStart(body) == Some(15)
  {
    hide UnsignedField, ObjectField, BracketAt;
    NumberHere(body, 0, 0);
    NumberHere(body, 12, 3);
    BracketHere(body, 14, 4, 6);
  }

  /** The same by the octets of the two object identifiers. */
  lemma StartAfterObjects(body: Slice)
    requires |body| > 15 && body[0] == 0x09 && body[2] == 0x1C && body[7] == 0x2C && body[12] == 0x39
             && body[14] == 0x4E
    requires body[3] == 0x02 && body[4] == 0 && body[5] == 0 && body[6] == 0x01
    requires body[8] == 0 && body[9] == 0 && body[10] == 0 && body[11] == 0x01
    ensures ListStart(body) == Some(15)
  {
    hide *;
    ObjectHere(body, 2, 1);
    ObjectHere(body, 7, 2);
    StartHere(body);
  }

  lemma CirclingStart()
    ensures ListStart(CIRCLING_BODY) == Some(15)
  {
    hide ListStart;
    StartAfterObjects(CIRCLING_BODY);
  }

  lemma CirclingEntries()
    ensures var body := CIRCLING_BODY;
            && !ClosingHere(body, 15, 4) && EntryAt(body, 15).Success? && EntryAt(body, 15).value.1 == 20
            && !ClosingHere(body, 20, 4) && EntryAt(body, 20).Success? && EntryAt(body, 20).value.1 == 20
  {
    hide BeVal, EntryAt, ClosingHere, ValueAt, BracketAt;
    var body := CIRCLING_BODY;
    NullHere(body, 18);
    BracketHere(body, 19, 2, 7);
    EntryHere(body, 15, 20);
    assert body[25..29] == [0xFF, 0xFF, 0xFF, 0xF6];
    FourOctetValue(body[25..29]);
    UnknownHere(body, 23, 0xFFFF_FFF6);
    EntryHere(body, 20, 20);
  }

  /** A notification whose second entry passes over a value so long that the position wraps to the
      closing tag of the first: the loop is back at the second entry, for ever. */
  lemma CirclingIsEndless()
    ensures var message: Slice := [0x10, 0x02] + CIRCLING_BODY;
            && ApduOf(message) == Failure(Endless)
            && forall n: nat :: ApduWithin(message, n) == Failure(Endless)
  {
    var message: Slice := [0x10, 0x02] + CIRCLING_BODY;
    assert LoopStart(message) == ListStart(CIRCLING_BODY) && BodyOf(message) == CIRCLING_BODY;
    hide ApduOf, ApduWithin, EntryAt, ClosingHere, ListStart, LoopStart, BodyOf;
    CirclingStart();
    CirclingEntries();
    var body := CIRCLING_BODY;
    assert After(body, 20, 0) == Some(20);
    assert After(body, 20, 1) == Some(20);
    assert After(body, 15, 1) == Some(20);
    assert After(body, 15, 2) == Some(20);
    assert Recurs(body, 15);
    EndlessExactly(message);
  }

  lemma FourOnes(body: Slice)
    requires |body| == 6 && forall k :: 2 <= k < 6 ==> body[k] == 0xFF
    ensures BeVal(body[2..6]) == 0xFFFF_FFFF
  {
    hide BeVal;
    FourOctetValue(body[2..6]);
  }

  /** A length that wraps stops the reader of a value, and a Who-Is. */
  lemma HugeLengthsStop()
    ensures ValueAt([0x25, 0xFF, 0xFF, 0xFF, 0xFF, 0xFF], 0) == Failure(OutOfRange)
    ensures ApduOf([0x10, 0x08, 0x0D, 0xFF, 0xFF, 0xFF, 0xFF, 0xFF]) == Failure(OutOfRange)
  {
    hide BeVal;
    var value: Slice := [0x25, 0xFF, 0xFF, 0xFF, 0xFF, 0xFF];
    FourOnes(value);
    assert TagAt(value, 0) == Success(Tag(2, false, 0xFFFF_FFFF, 6));
    var message: Slice := [0x10, 0x08, 0x0D, 0xFF, 0xFF, 0xFF, 0xFF, 0xFF];
    var body: Slice := [0x0D, 0xFF, 0xFF, 0xFF, 0xFF, 0xFF];
    assert BodyOf(message) == body;
    FourOnes(body);
    assert TagAt(body, 0) == Success(Tag(0, true, 0xFFFF_FFFF, 6));
    assert ContextUnsignedAt(body, 0, 0) == Failure(OutOfRange);
  }

  /** An empty signed integer where a device identifier is due stops an I-Am. */
  lemma EmptySignedStops()
    ensures ApduOf([0x10, 0x00, 0x30]) == Failure(OutOfRange)
  {
    var message: Slice := [0x10, 0x00, 0x30];
    var body: Slice := message[2..];
    assert TagAt(body, 0) == Success(Tag(3, false, 0, 1));
    assert ValueAt(body, 0) == Failure(OutOfRange);
  }

  /** A length that wraps need not do harm: where a device identifier is due, a value passed over is
      refused wherever the position has gone. */
  lemma HugeLengthRefused()
    ensures var message: Slice := [0x10, 0x00, 0xD5, 0xFF, 0xFF, 0xFF, 0xFF, 0xFF];
            ApduOf(message) == Failure(InvalidData) && !NothingWraps(message, |message| + 8)
  {
    hide BeVal, TagAt, ValueAt;
    var message: Slice := [0x10, 0x00, 0xD5, 0xFF, 0xFF, 0xFF, 0xFF, 0xFF];
    var body: Slice := [0xD5, 0xFF, 0xFF, 0xFF, 0xFF, 0xFF];
    assert BodyOf(message) == body;
    FourOnes(body);
    UnknownHere(body, 0, 0xFFFF_FFFF);
    assert ValueRead(0) in Reads(message, |message| + 8) && Wraps(body, ValueRead(0));
  }

  const LAST_POSITION_BODY: Slice := [0x0C, 0x00, 0x00, 0x00, 0x01, 0x19, 0x55, 0x3E, 0xD5, 0xFF, 0xFF, 0xFF, 0xFF,
                                      0xF1]

  /** An acknowledgement whose value is passed over to the last position of all. */
  lemma AckStopsHere(body: Slice, id: byte)
    requires |body| > 8 && body[5] == 0x19 && body[7] == 0x3E
    requires ObjectField(body, 0, 0).Success? && ObjectField(body, 0, 0).value.1 == 5
    requires ValueAt(body, 8) == Success((Null, WRAP - 1))
    ensures ReadPropertyAckOf(body, id) == Failure(OutOfRange)
  {
    hide TagAt, ValueAt, BracketAt, UnsignedField, ObjectField, ContextUnsignedAt, Stops;
    NumberHere(body, 5, 1);
    OtherTagIsAbsent(body, 7, 0x3E, 2);
    BracketHere(body, 7, 3, 6);
    LastPosition(body);
  }

  lemma LastPosition(body: Slice)
    ensures BracketAt(body, WRAP - 1, 3, 7) == Failure(OutOfRange)
  {
  }

  /** And a length that does not wrap can do harm: one that leads to the last position of all, where
      the bound check of the next tag wraps. */
  lemma LastPositionStops()
    ensures var message: Slice := [0x30, 0x01, 0x0C] + LAST_POSITION_BODY;
            && ApduOf(message) == Failure(OutOfRange) && BodyOf(message) == LAST_POSITION_BODY
            && TagAt(LAST_POSITION_BODY, 8).Success? && ContentEnd(8, TagAt(LAST_POSITION_BODY, 8).value) == WRAP - 1
  {
    hide BeVal, TagAt, ValueAt, ObjectField, ReadPropertyAckOf;
    var message: Slice := [0x30, 0x01, 0x0C] + LAST_POSITION_BODY;
    assert message[3..] == LAST_POSITION_BODY;
    assert LAST_POSITION_BODY[5] == 0x19 && LAST_POSITION_BODY[7] == 0x3E;
    assert LAST_POSITION_BODY[10..14] == [0xFF, 0xFF, 0xFF, 0xF1];
    ObjectHere(LAST_POSITION_BODY, 0, 0);
    FourOctetValue(LAST_POSITION_BODY[10..14]);
    UnknownHere(LAST_POSITION_BODY, 8, 0xFFFF_FFF1);
    AckStopsHere(LAST_POSITION_BODY, 0x01);
  }
}
