/** What `decode_apdu` of bridge-core/src/apdu.rs reads although no standard message has it, and what
    it makes of it. */
module ApduLenient {
  import opened Words
  import opened Octets
  import opened Numbers
  import opened Bacnet
  import opened ApduValues
  import opened ApduMessages
  import opened ApduTheorems

  // ------------------------------------------------------------------ the head

  /** A message without its fixed octets is cut short: none at all, two for an unconfirmed request, four
      for a confirmed one, three for an answer. */
  lemma TooShort(data: Slice, rounds: nat)
    ensures data == [] ==> ApduWithin(data, rounds) == Failure(UnexpectedEnd)
    ensures data != [] && data[0] / 16 == 1 && |data| < 2 ==> ApduWithin(data, rounds) == Failure(UnexpectedEnd)
    ensures data != [] && data[0] / 16 == 0 && |data| < 4 ==> ApduWithin(data, rounds) == Failure(UnexpectedEnd)
    ensures data != [] && data[0] / 16 in {2, 3, 5} && |data| < 3 ==> ApduWithin(data, rounds) == Failure(UnexpectedEnd)
  {
  }

  /** A PDU type of no service is reported with the octet behind it, or 0 if there is none. */
  lemma OtherTypesReported(data: Slice, rounds: nat)
    requires data != [] && data[0] / 0x10 !in {0, 1, 2, 3, 5}
    ensures ApduWithin(data, rounds)
            == Success(Unknown(data[0] / 0x10 * 0x10, if |data| == 1 then 0 else data[1]))
  {
  }

  lemma SameLength(data: Slice, other: Slice, next: nat, headerLen: nat, number: byte, low: nibble)
    requires |data| == |other| && next <= |data| && data[next..] == other[next..]
    ensures TagRest(data, next, headerLen, number, low) == TagRest(other, next, headerLen, number, low)
  {
    hide BeVal;
    assert forall k :: next <= k < |data| ==> data[k] == data[next..][k - next];
    assert forall k :: next <= k < |data| ==> other[k] == other[next..][k - next];
    assert forall a, b :: next <= a <= b <= |data| ==> data[a..b] == other[a..b];
  }

  lemma SameTag(data: Slice, other: Slice, pos: u32)
    requires |data| == |other| && pos <= |data| && data[pos..] == other[pos..]
    ensures TagAt(data, pos) == TagAt(other, pos)
  {
    hide TagRest;
    if pos < |data| {
      assert data[pos] == data[pos..][0] && other[pos] == other[pos..][0];
      assert data[pos + 1..] == data[pos..][1..] && other[pos + 1..] == other[pos..][1..];
      SameLength(data, other, pos + 1, 1, data[pos] / 16, data[pos] % 16);
      if pos + 1 < |data| {
        assert data[pos + 1] == data[pos + 1..][0] && other[pos + 1] == other[pos + 1..][0];
        assert data[pos + 2..] == data[pos..][2..] && other[pos + 2..] == other[pos..][2..];
        SameLength(data, other, pos + 2, 2, data[pos + 1], data[pos] % 16);
      }
    }
  }

  lemma SameStretch(data: seq<byte>, other: seq<byte>, pos: nat, a: nat, b: nat)
    requires |data| == |other| && pos <= a <= b <= |data| && data[pos..] == other[pos..]
    ensures data[a..b] == other[a..b]
  {
    forall k | a <= k < b
      ensures data[k] == other[k]
    {
      assert data[k] == data[pos..][k - pos] && other[k] == other[pos..][k - pos];
    }
  }

  lemma SameNumber(data: Slice, other: Slice, pos: u32)
    requires |data| == |other| && (pos <= |data| ==> data[pos..] == other[pos..])
    ensures NumberAt(data, pos) == NumberAt(other, pos)
  {
    hide TagAt, BeVal;
    if pos < |data| {
      SameTag(data, other, pos);
      if TagAt(data, pos).Success? {
        var tag := TagAt(data, pos).value;
        var a, b := pos + tag.headerLen, pos + tag.headerLen + tag.lvt;
        if b <= |data| {
          SameStretch(data, other, pos, a, b);
        }
      }
    }
  }

  lemma NumberEnds(data: Slice, pos: u32)
    requires NumberAt(data, pos).Success? && NumberAt(data, pos).value.1 <= |data|
    ensures pos <= NumberAt(data, pos).value.1
  {
    hide TagAt, BeVal;
  }

  lemma SameError(data: Slice, b: byte)
    requires |data| >= 3
    ensures ErrorOf(data[0 := b]) == ErrorOf(data)
  {
    hide NumberAt;
    var other: Slice := data[0 := b];
    assert data[3..] == other[3..];
    SameNumber(data, other, 3);
    if NumberAt(data, 3).Success? {
      var a := NumberAt(data, 3).value.1;
      if a <= |data| {
        NumberEnds(data, 3);
        assert data[a..] == data[3..][a - 3..] && other[a..] == other[3..][a - 3..];
      }
      SameNumber(data, other, a);
    }
  }

  /** Flags beside the PDU type are not looked at, nor what a request says its sender can take. */
  lemma FlagsAreIgnored(data: Slice, b: byte, c: byte, rounds: nat)
    requires |data| >= 4 && b / 16 == data[0] / 16
    ensures ApduWithin(data[0 := b], rounds) == ApduWithin(data, rounds)
    ensures data[0] / 16 == 0 ==> ApduWithin(data[1 := c], rounds) == ApduWithin(data, rounds)
  {
    hide WhoIsOf, IAmOf, ReadPropertyOf, ReadPropertyAckOf, WritePropertyOf, SubscribeCovOf, CovNotificationWithin,
         ErrorOf;
    var other, third: Slice := data[0 := b], data[1 := c];
    assert other[2..] == data[2..] && other[3..] == data[3..] && other[4..] == data[4..] && third[4..] == data[4..];
    SameError(data, b);
  }

  // ------------------------------------------------------------------ numbers too large for their fields

  /** The segmentation of an I-Am is kept modulo 256, its vendor modulo 65536. */
  lemma IAmTruncates(device: ObjectId, maxApdu: u32, segmentation: u32, vendor: u32)
    ensures IAmOf(ObjectElement(12, false, device) + UnsignedElement(2, false, maxApdu)
                  + UnsignedElement(9, false, segmentation) + UnsignedElement(2, false, vendor))
            == Success(IAm(NormalObject(device), maxApdu, segmentation % 0x100, vendor % 0x1_0000))
  {
    hide ValueAt, UnsignedElement, ObjectElement, HasAt, NormalObject;
    var a, b, c, d := ObjectElement(12, false, device), UnsignedElement(2, false, maxApdu),
        UnsignedElement(9, false, segmentation), UnsignedElement(2, false, vendor);
    var data: Slice := a + b + c + d;
    assert data == a + b + c + d + [];
    FiveParts(a, b, c, d, []);
    ValueReadsBack(data, 0, ObjectIdentifier(device));
    ValueReadsBack(data, |a|, UnsignedInt(maxApdu));
    ValueReadsBack(data, |a| + |b|, Enumerated(segmentation));
    ValueReadsBack(data, |a| + |b| + |c|, UnsignedInt(vendor));
  }

  /** Four values make an I-Am: an identifier, a number, an enumeration, a number; the first of another kind is
      refused. */
  lemma IAmOfOtherKinds(data: Slice, device: ObjectId, a: u32, maxApdu: u32, b: u32, segmentation: u32, c: u32,
                        v: BacnetValue, next: u32)
    ensures ValueAt(data, 0) == Success((v, next)) && !v.ObjectIdentifier? ==> IAmOf(data) == Failure(InvalidData)
    ensures ValueAt(data, 0) == Success((ObjectIdentifier(device), a)) && ValueAt(data, a) == Success((v, next))
            && !v.UnsignedInt?
            ==> IAmOf(data) == Failure(InvalidData)
    ensures ValueAt(data, 0) == Success((ObjectIdentifier(device), a))
            && ValueAt(data, a) == Success((UnsignedInt(maxApdu), b)) && ValueAt(data, b) == Success((v, next))
            && !v.Enumerated?
            ==> IAmOf(data) == Failure(InvalidData)
    ensures ValueAt(data, 0) == Success((ObjectIdentifier(device), a))
            && ValueAt(data, a) == Success((UnsignedInt(maxApdu), b))
            && ValueAt(data, b) == Success((Enumerated(segmentation), c)) && ValueAt(data, c) == Success((v, next))
            && !v.UnsignedInt?
            ==> IAmOf(data) == Failure(InvalidData)
  {
    hide ValueAt;
  }

  /** A priority is kept modulo 256. */
  lemma PriorityTruncates(o: ObjectId, p: PropertyId, value: BacnetValue, priority: u32, id: byte)
    ensures WritePropertyOf(PropertyRef(o, p, None) + Bracketed(3, value) + UnsignedElement(4, true, priority), id)
            == Success(WriteProperty(NormalObject(o), NormalProperty(p), None, NormalValue(value),
                                     Some(priority % 0x100), id))
  {
    hide ReferenceAt, PropertyRef, BracketedAt, Bracketed, HasAt, NormalObject, NormalProperty, NormalValue,
         NoSuchTag, ContextUnsignedAt, UnsignedElement;
    var ref, v, last := PropertyRef(o, p, None), Bracketed(3, value), UnsignedElement(4, true, priority);
    var data: Slice := ref + v + last;
    HasFront(ref + v, last);
    HasConcat(data, 0, ref, v);
    BracketedReadsBack(data, |ref|, 3, value);
    BracketIsOtherTag(data, |ref|);
    ReferenceReadsBack(data, o, p, None);
    ContextUnsignedReadsBack(data, |ref| + |v|, 4, priority);
  }

  // ------------------------------------------------------------------ numbers under other tags, or missing

  lemma AnyTagReads(data: Slice, pos: u32, number: nibble, context: bool, v: u32)
    requires number < 15 && HasAt(data, pos, UnsignedElement(number, context, v))
    ensures NumberAt(data, pos) == Success((v, pos + |UnsignedElement(number, context, v)|))
  {
    hide TagAt, UnsignedAt, HasAt, UnsignedElement;
    UnsignedReadsBack(data, pos, number, context, v);
  }

  /** Class and code of an error may stand under any tags, are kept modulo 65536, and are 0 when missing. */
  lemma ErrorIsLenient(data: Slice, n1: nibble, context1: bool, n2: nibble, context2: bool, errorClass: u32,
                       errorCode: u32)
    requires |data| >= 3 && n1 < 15 && n2 < 15
    ensures data[3..] == [] ==> ErrorOf(data) == Success(Error(data[1], data[2], 0, 0))
    ensures data[3..] == UnsignedElement(n1, context1, errorClass) ==>
              ErrorOf(data) == Success(Error(data[1], data[2], errorClass % 0x1_0000, 0))
    ensures data[3..] == UnsignedElement(n1, context1, errorClass) + UnsignedElement(n2, context2, errorCode) ==>
              ErrorOf(data)
              == Success(Error(data[1], data[2], errorClass % 0x1_0000, errorCode % 0x1_0000))
  {
    hide UnsignedElement, HasAt, NumberAt;
    var a, b := UnsignedElement(n1, context1, errorClass), UnsignedElement(n2, context2, errorCode);
    assert data == data[..3] + data[3..];
    HasFront(data[..3], data[3..]);
    NoNumber(data, |data|);
    if data[3..] == a + b {
      HasConcat(data, 3, a, b);
      AnyTagReads(data, 3, n1, context1, errorClass);
      AnyTagReads(data, 3 + |a|, n2, context2, errorCode);
    } else if data[3..] == a {
      AnyTagReads(data, 3, n1, context1, errorClass);
    }
  }

  lemma NoNumber(data: Slice, pos: u32)
    requires pos >= |data|
    ensures NumberAt(data, pos) == Success((0, pos))
  {
  }

  /** A notification may end before its list. */
  lemma ListMayBeMissing(process: u32, device: ObjectId, o: ObjectId, timeRemaining: u32, rounds: nat)
    ensures CovNotificationWithin(UnsignedElement(0, true, process) + ObjectElement(1, true, device)
                                  + ObjectElement(2, true, o) + UnsignedElement(3, true, timeRemaining), rounds)
            == Success(CovNotification(process, NormalObject(device), NormalObject(o), timeRemaining, []))
  {
    hide UnsignedField, ObjectField, UnsignedElement, ObjectElement, HasAt, NormalObject, ContextUnsignedAt,
         BracketAt, EntriesWithin;
    var a, b, c, d := UnsignedElement(0, true, process), ObjectElement(1, true, device), ObjectElement(2, true, o),
        UnsignedElement(3, true, timeRemaining);
    var data: Slice := a + b + c + d;
    assert data == a + b + c + d + [];
    FiveParts(a, b, c, d, []);
    UnsignedFieldReadsBack(data, 0, 0, process);
    ObjectFieldReadsBack(data, |a|, 1, device);
    ObjectFieldReadsBack(data, |a| + 5, 2, o);
    UnsignedFieldReadsBack(data, |a| + 10, 3, timeRemaining);
  }

  /** A subscription asks for confirmed notifications by any number but 0. */
  lemma AnyFlagConfirms(process: u32, o: ObjectId, flag: u32, id: byte)
    ensures SubscribeCovOf(UnsignedElement(0, true, process) + ObjectElement(1, true, o)
                           + UnsignedElement(2, true, flag), id)
            == Success(SubscribeCov(process, NormalObject(o), flag > 0, None, id))
  {
    hide UnsignedField, ObjectField, ContextUnsignedAt, UnsignedElement, ObjectElement, HasAt, NormalObject;
    var a, b, c := UnsignedElement(0, true, process), ObjectElement(1, true, o), UnsignedElement(2, true, flag);
    var data: Slice := a + b + c;
    HasFront(a + b, c);
    HasConcat(data, 0, a, b);
    UnsignedFieldReadsBack(data, 0, 0, process);
    ObjectFieldReadsBack(data, |a|, 1, o);
    UnsignedFieldReadsBack(data, |a| + 5, 2, flag);
    NothingIsAbsent(data, |data|, 3);
  }

  /** A field that must be there and is not, because nothing follows or another tag does. */
  lemma MissingField(data: Slice, pos: u32, number: nibble)
    requires number < 15 && NoSuchTag(data, pos, number)
    ensures UnsignedField(data, pos, number) == Failure(InvalidData)
    ensures ObjectField(data, pos, number) == Failure(InvalidData)
  {
  }
}
