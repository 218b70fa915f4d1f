/** Decoding an encoded message gives the message in normal form, for every service. */
module ApduTheorems {
  import opened Words
  import opened Octets
  import opened Bacnet
  import opened ApduValues
  import opened ApduMessages

  // ------------------------------------------------------------------ parts

  lemma UnsignedFieldReadsBack(data: Slice, pos: u32, number: nibble, v: u32)
    requires number < 15 && HasAt(data, pos, UnsignedElement(number, true, v))
    ensures UnsignedField(data, pos, number) == Success((v, pos + |UnsignedElement(number, true, v)|))
    ensures ContextUnsignedAt(data, pos, number) == Success((Some(v), pos + |UnsignedElement(number, true, v)|))
  {
    hide ContextUnsignedAt, HasAt, UnsignedElement;
    ContextUnsignedReadsBack(data, pos, number, v);
  }

  lemma ObjectFieldReadsBack(data: Slice, pos: u32, number: nibble, o: ObjectId)
    requires number < 15 && HasAt(data, pos, ObjectElement(number, true, o))
    ensures ObjectField(data, pos, number) == Success((NormalObject(o), pos + 5))
  {
    hide ContextObjectAt, HasAt, ObjectElement;
    ContextObjectReadsBack(data, pos, number, o);
  }

  /** Nothing follows, or a tag with another number. */
  ghost predicate NoSuchTag(data: Slice, pos: u32, number: nibble) {
    pos == |data| || (pos < |data| && data[pos] / 16 < 15 && data[pos] % 8 != 5 && data[pos] / 16 != number)
  }

  lemma OptionalReadsBack(data: Slice, pos: u32, number: nibble, v: Option<u32>)
    requires number < 15 && HasAt(data, pos, Optional(number, v)) && (v.None? ==> NoSuchTag(data, pos, number))
    ensures ContextUnsignedAt(data, pos, number) == Success((v, pos + |Optional(number, v)|))
  {
    hide HasAt, UnsignedElement, ContextUnsignedAt;
    if v.Some? {
      ContextUnsignedReadsBack(data, pos, number, v.value);
    } else if pos < |data| {
      OtherTagIsAbsent(data, pos, data[pos], number);
    } else {
      NothingIsAbsent(data, pos, number);
    }
  }

  lemma NothingIsAbsent(data: Slice, pos: u32, number: nibble)
    requires pos >= |data|
    ensures ContextUnsignedAt(data, pos, number) == Success((None, pos))
  {
  }

  lemma ReferenceReadsBack(data: Slice, o: ObjectId, p: PropertyId, index: Option<u32>)
    requires HasAt(data, 0, PropertyRef(o, p, index))
    requires index.None? ==> NoSuchTag(data, |PropertyRef(o, p, index)|, 2)
    ensures ReferenceAt(data)
            == Success(Reference(NormalObject(o), NormalProperty(p), index, |PropertyRef(o, p, index)|))
  {
    hide HasAt, ObjectField, UnsignedField, ContextUnsignedAt, Optional, PropertyCode, PropertyFromCode, NoSuchTag,
         UnsignedElement, ObjectElement;
    var a, b, c := ObjectElement(0, true, o), UnsignedElement(1, true, PropertyCode(p)), Optional(2, index);
    HasConcat(data, 0, a + b, c);
    HasConcat(data, 0, a, b);
    ObjectFieldReadsBack(data, 0, 0, o);
    UnsignedFieldReadsBack(data, 5, 1, PropertyCode(p));
    if index.None? {
      NoOptional(data, 5 + |b|, 2);
    }
    OptionalReadsBack(data, 5 + |b|, 2, index);
  }

  lemma BracketedReadsBack(data: Slice, pos: u32, number: nibble, v: BacnetValue)
    requires number < 15 && HasAt(data, pos, Bracketed(number, v))
    ensures BracketedAt(data, pos, number) == Success((NormalValue(v), pos + |Bracketed(number, v)|))
    ensures pos < |data| && data[pos] == number * 16 + 0x0E
  {
    hide HasAt, BracketAt, ValueAt, ValueBytes, NormalValue;
    HasConcat(data, pos, Opening(number) + ValueBytes(v), Closing(number));
    HasConcat(data, pos, Opening(number), ValueBytes(v));
    var a := pos + 1;
    var b := a + |ValueBytes(v)|;
    BracketsReadBack(data, pos, number);
    ValueReadsBack(data, a, v);
    BracketsReadBack(data, b, number);
    HasIndex(data, pos, Opening(number), 0);
    HasFits(data, pos, Opening(number));
  }

  // ------------------------------------------------------------------ lists

  lemma EntryReadsBack(data: Slice, pos: u32, e: Reading)
    requires HasAt(data, pos, EntryBytes(e))
    ensures EntryAt(data, pos) == Success((NormalReading(e), pos + |EntryBytes(e)|))
    ensures !ClosingHere(data, pos, 4)
  {
    hide HasAt, ContextUnsignedAt, BracketedAt, Bracketed, NormalValue, PropertyCode, PropertyFromCode, UnsignedElement;
    var first := UnsignedElement(0, true, PropertyCode(e.property));
    HasConcat(data, pos, first, Bracketed(2, e.value));
    UnsignedFieldReadsBack(data, pos, 0, PropertyCode(e.property));
    BracketedReadsBack(data, pos + |first|, 2, e.value);
    OtherTagIsAbsent(data, pos + |first|, 0x2E, 1);
    FirstOctet(data, pos, PropertyCode(e.property));
  }

  lemma FirstOctet(data: Slice, pos: u32, v: u32)
    requires HasAt(data, pos, UnsignedElement(0, true, v))
    ensures pos < |data| && data[pos] < 16
  {
    HasIndex(data, pos, UnsignedElement(0, true, v), 0);
    HasFits(data, pos, UnsignedElement(0, true, v));
  }

  lemma EntriesSnoc(values: seq<Reading>, k: nat)
    requires k < |values|
    ensures EntriesBytes(values[..k + 1]) == EntriesBytes(values[..k]) + EntryBytes(values[k])
    ensures NormalReadings(values[..k + 1]) == NormalReadings(values[..k]) + [NormalReading(values[k])]
  {
    assert values[..k + 1][..k] == values[..k];
  }

  /** Reading from the first entry on, or from any later one with the earlier ones kept, is the same. */
  lemma {:induction false} EntriesReadBack(data: Slice, pos: u32, values: Readings, k: nat, rounds: nat)
    requires k <= |values| && k <= rounds && HasAt(data, pos, EntriesBytes(values[..k]))
    ensures EntriesWithin(data, pos, [], rounds)
            == EntriesWithin(data, pos + |EntriesBytes(values[..k])|, NormalReadings(values[..k]), rounds - k)
  {
    hide HasAt, EntriesBytes, EntryBytes, EntryAt, NormalReading, NormalReadings, ClosingHere;
    if k == 0 {
      NoEntries(values);
    } else {
      EntriesSnoc(values, k - 1);
      HasConcat(data, pos, EntriesBytes(values[..k - 1]), EntryBytes(values[k - 1]));
      EntriesReadBack(data, pos, values, k - 1, rounds);
      HasFits(data, pos + |EntriesBytes(values[..k - 1])|, EntryBytes(values[k - 1]));
      EntryReadsBack(data, pos + |EntriesBytes(values[..k - 1])|, values[k - 1]);
    }
  }

  lemma NoEntries(values: seq<Reading>)
    ensures EntriesBytes(values[..0]) == [] && NormalReadings(values[..0]) == []
  {
  }

  lemma ListReadsBack(data: Slice, pos: u32, values: Readings, rounds: nat)
    requires HasAt(data, pos, ListBytes(values)) && rounds >= 8
    ensures ListWithin(data, pos, rounds) == Success(NormalReadings(values))
  {
    hide HasAt, EntriesBytes, EntriesWithin, BracketAt, NormalReadings, ClosingHere;
    HasConcat(data, pos, Opening(4) + EntriesBytes(values), Closing(4));
    HasConcat(data, pos, Opening(4), EntriesBytes(values));
    BracketsReadBack(data, pos, 4);
    HasFits(data, pos, Opening(4));
    assert values[..|values|] == values;
    EntriesReadBack(data, pos + 1, values, |values|, rounds);
    BracketsReadBack(data, pos + 1 + |EntriesBytes(values)|, 4);
    ListEnds(data, pos + 1 + |EntriesBytes(values)|, NormalReadings(values), rounds - |values|);
  }

  lemma ListEnds(data: Slice, pos: u32, kept: Readings, rounds: nat)
    requires ClosingHere(data, pos, 4)
    ensures EntriesWithin(data, pos, kept, rounds) == Success((kept, pos))
  {
  }

  // ------------------------------------------------------------------ services

  lemma WhoIsReadsBack(low: Option<u32>, high: Option<u32>)
    ensures WhoIsOf(Body(WhoIs(low, high))) == Success(Normal(WhoIs(low, high)))
  {
    hide ContextUnsignedAt, UnsignedElement, HasAt;
    if low.Some? && high.Some? {
      var a, b := UnsignedElement(0, true, low.value), UnsignedElement(1, true, high.value);
      var data := a + b;
      HasWhole(data);
      HasConcat(data, 0, a, b);
      UnsignedFieldReadsBack(data, 0, 0, low.value);
      UnsignedFieldReadsBack(data, |a|, 1, high.value);
      FirstOctet(data, 0, low.value);
    }
  }

  lemma IAmReadsBack(device: ObjectId, maxApdu: u32, segmentation: byte, vendor: u16)
    ensures IAmOf(Body(IAm(device, maxApdu, segmentation, vendor)))
            == Success(Normal(IAm(device, maxApdu, segmentation, vendor)))
  {
    hide ValueAt, UnsignedElement, ObjectElement, HasAt, NormalObject;
    var a, b, c, d := ObjectElement(12, false, device), UnsignedElement(2, false, maxApdu),
        UnsignedElement(9, false, segmentation), UnsignedElement(2, false, vendor);
    var data := a + b + c + d;
    HasWhole(data);
    HasConcat(data, 0, a + b + c, d);
    HasConcat(data, 0, a + b, c);
    HasConcat(data, 0, a, b);
    ValueReadsBack(data, 0, ObjectIdentifier(device));
    ValueReadsBack(data, |a|, UnsignedInt(maxApdu));
    ValueReadsBack(data, |a| + |b|, Enumerated(segmentation));
    ValueReadsBack(data, |a| + |b| + |c|, UnsignedInt(vendor));
  }

  lemma ReadPropertyReadsBack(o: ObjectId, p: PropertyId, index: Option<u32>, id: byte)
    ensures ReadPropertyOf(Body(ReadProperty(o, p, index, id)), id) == Success(Normal(ReadProperty(o, p, index, id)))
  {
    hide ReferenceAt, PropertyRef, HasAt, NormalObject, NormalProperty;
    var data := PropertyRef(o, p, index);
    HasWhole(data);
    ReferenceReadsBack(data, o, p, index);
  }

  lemma BracketIsOtherTag(data: Slice, pos: u32)
    requires pos < |data| && data[pos] == 0x3E
    ensures NoSuchTag(data, pos, 2)
  {
  }

  lemma ReadPropertyAckReadsBack(o: ObjectId, p: PropertyId, index: Option<u32>, value: BacnetValue, id: byte)
    ensures ReadPropertyAckOf(Body(ReadPropertyAck(o, p, index, value, id)), id)
            == Success(Normal(ReadPropertyAck(o, p, index, value, id)))
  {
    hide ReferenceAt, PropertyRef, BracketedAt, Bracketed, HasAt, NormalObject, NormalProperty, NormalValue, NoSuchTag;
    var ref, v := PropertyRef(o, p, index), Bracketed(3, value);
    var data := ref + v;
    HasWhole(data);
    HasConcat(data, 0, ref, v);
    BracketedReadsBack(data, |ref|, 3, value);
    BracketIsOtherTag(data, |ref|);
    ReferenceReadsBack(data, o, p, index);
  }

  lemma WritePropertyReadsBack(o: ObjectId, p: PropertyId, index: Option<u32>, value: BacnetValue,
                               priority: Option<byte>, id: byte)
    ensures WritePropertyOf(Body(WriteProperty(o, p, index, value, priority, id)), id)
            == Success(Normal(WriteProperty(o, p, index, value, priority, id)))
  {
    hide ReferenceAt, PropertyRef, BracketedAt, Bracketed, HasAt, NormalObject, NormalProperty, NormalValue,
         NoSuchTag, ContextUnsignedAt, Optional;
    var wide := if priority.None? then None else Some(priority.value);
    var ref, v, last := PropertyRef(o, p, index), Bracketed(3, value), Optional(4, wide);
    var data := ref + v + last;
    HasWhole(data);
    HasConcat(data, 0, ref + v, last);
    HasConcat(data, 0, ref, v);
    BracketedReadsBack(data, |ref|, 3, value);
    BracketIsOtherTag(data, |ref|);
    ReferenceReadsBack(data, o, p, index);
    if priority.None? {
      NoOptional(data, |ref| + |v|, 4);
    }
    OptionalReadsBack(data, |ref| + |v|, 4, wide);
  }

  lemma NoOptional(data: Slice, pos: u32, number: nibble)
    ensures Optional(number, None) == []
    ensures pos == |data| ==> NoSuchTag(data, pos, number)
  {
  }

  lemma SubscribeCovReadsBack(process: u32, o: ObjectId, confirmed: bool, lifetime: Option<u32>, id: byte)
    ensures SubscribeCovOf(Body(SubscribeCov(process, o, confirmed, lifetime, id)), id)
            == Success(Normal(SubscribeCov(process, o, confirmed, lifetime, id)))
  {
    hide UnsignedField, ObjectField, ContextUnsignedAt, UnsignedElement, ObjectElement, Optional, HasAt,
         NormalObject, NoSuchTag;
    var flag := if confirmed then 1 else 0;
    var a, b, c, d := UnsignedElement(0, true, process), ObjectElement(1, true, o), UnsignedElement(2, true, flag),
        Optional(3, lifetime);
    var data := a + b + c + d;
    HasWhole(data);
    HasConcat(data, 0, a + b + c, d);
    HasConcat(data, 0, a + b, c);
    HasConcat(data, 0, a, b);
    UnsignedFieldReadsBack(data, 0, 0, process);
    ObjectFieldReadsBack(data, |a|, 1, o);
    UnsignedFieldReadsBack(data, |a| + 5, 2, flag);
    if lifetime.None? {
      NoOptional(data, |a| + 5 + |c|, 3);
    }
    OptionalReadsBack(data, |a| + 5 + |c|, 3, lifetime);
  }

  lemma NotificationParts(process: u32, device: ObjectId, o: ObjectId, timeRemaining: u32, values: Readings)
    ensures var data, n, k := NotificationBytes(process, device, o, timeRemaining, values),
                |UnsignedElement(0, true, process)|, |UnsignedElement(3, true, timeRemaining)|;
            && HasAt(data, 0, UnsignedElement(0, true, process))
            && HasAt(data, n, ObjectElement(1, true, device)) && HasAt(data, n + 5, ObjectElement(2, true, o))
            && HasAt(data, n + 10, UnsignedElement(3, true, timeRemaining))
            && HasAt(data, n + 10 + k, ListBytes(values)) && n + 10 + k < |data|
  {
    hide UnsignedElement, ObjectElement, HasAt;
    FiveParts(UnsignedElement(0, true, process), ObjectElement(1, true, device), ObjectElement(2, true, o),
              UnsignedElement(3, true, timeRemaining), ListBytes(values));
  }

  lemma NotificationBody(process: u32, device: ObjectId, o: ObjectId, timeRemaining: u32, values: Readings)
    ensures var m := CovNotification(process, device, o, timeRemaining, values);
            && Body(m) == NotificationBytes(process, device, o, timeRemaining, values)
            && Normal(m) == CovNotification(process, NormalObject(device), NormalObject(o), timeRemaining,
                                            NormalReadings(values))
  {
    hide NotificationBytes, NormalObject, NormalReadings;
  }

  lemma CovNotificationReadsBack(process: u32, device: ObjectId, o: ObjectId, timeRemaining: u32, values: Readings,
                                 rounds: nat)
    requires rounds >= 8
    ensures CovNotificationWithin(Body(CovNotification(process, device, o, timeRemaining, values)), rounds)
            == Success(Normal(CovNotification(process, device, o, timeRemaining, values)))
  {
    hide UnsignedField, ObjectField, ListWithin, UnsignedElement, ObjectElement, HasAt, NormalObject, NormalReadings,
         ListBytes, NotificationBytes, Body, Normal, ContextUnsignedAt;
    NotificationParts(process, device, o, timeRemaining, values);
    NotificationBody(process, device, o, timeRemaining, values);
    var data := Body(CovNotification(process, device, o, timeRemaining, values));
    var n, k := |UnsignedElement(0, true, process)|, |UnsignedElement(3, true, timeRemaining)|;
    UnsignedFieldReadsBack(data, 0, 0, process);
    ObjectFieldReadsBack(data, n, 1, device);
    ObjectFieldReadsBack(data, n + 5, 2, o);
    UnsignedFieldReadsBack(data, n + 10, 3, timeRemaining);
    ListReadsBack(data, n + 10 + k, values, rounds);
  }

  lemma ErrorReadsBack(data: Slice, errorClass: u16, errorCode: u16)
    requires |data| >= 3 && data[3..] == UnsignedElement(9, false, errorClass) + UnsignedElement(9, false, errorCode)
    ensures ErrorOf(data) == Success(Error(data[1], data[2], errorClass, errorCode))
  {
    hide TagAt, UnsignedAt, UnsignedElement, HasAt;
    var a, b := UnsignedElement(9, false, errorClass), UnsignedElement(9, false, errorCode);
    HasWhole(data);
    assert data == data[..3] + (a + b);
    HasConcat(data, 0, data[..3], a + b);
    HasConcat(data, 3, a, b);
    UnsignedReadsBack(data, 3, 9, false, errorClass);
    UnsignedReadsBack(data, 3 + |a|, 9, false, errorCode);
  }

  // ------------------------------------------------------------------ the whole decoder

  lemma HeadThenBody(m: Apdu)
    requires !m.Unknown?
    ensures Wire(m)[|Head(m)|..] == Body(m) && 2 <= |Head(m)| <= 4 && |Wire(m)| == |Head(m)| + |Body(m)|
    ensures forall k :: 0 <= k < |Head(m)| ==> Wire(m)[k] == Head(m)[k]
  {
    hide Body;
  }

  /** What is decoded from an encoded message is that message in normal form. */
  lemma ApduReadsBack(m: Apdu)
    requires !m.Unknown?
    ensures ApduOf(Wire(m)) == Success(Normal(m))
  {
    hide Body, Wire, WhoIsOf, IAmOf, ReadPropertyOf, ReadPropertyAckOf, WritePropertyOf, SubscribeCovOf,
         CovNotificationWithin, ErrorOf, Normal;
    HeadThenBody(m);
    match m
    case WhoIs(low, high) => WhoIsReadsBack(low, high);
    case IAm(device, maxApdu, segmentation, vendor) =>
      IAmReadsBack(device, maxApdu, segmentation, vendor);
    case ReadProperty(o, p, index, id) => ReadPropertyReadsBack(o, p, index, id);
    case ReadPropertyAck(o, p, index, value, id) => ReadPropertyAckReadsBack(o, p, index, value, id);
    case WriteProperty(o, p, index, value, priority, id) => WritePropertyReadsBack(o, p, index, value, priority, id);
    case SubscribeCov(process, o, confirmed, lifetime, id) =>
      SubscribeCovReadsBack(process, o, confirmed, lifetime, id);
    case CovNotification(process, device, o, timeRemaining, values) =>
      CovNotificationReadsBack(process, device, o, timeRemaining, values, |Wire(m)| + 8);
    case SimpleAck(_, _) => NormalOthers(m);
    case Error(_, _, errorClass, errorCode) =>
      ErrorBody(m);
      ErrorReadsBack(Wire(m), errorClass, errorCode);
      NormalOthers(m);
  }

  lemma NormalOthers(m: Apdu)
    ensures m.SimpleAck? || m.Error? ==> Normal(m) == m
  {
  }

  lemma ErrorBody(m: Apdu)
    requires m.Error?
    ensures Body(m) == UnsignedElement(9, false, m.errorClass) + UnsignedElement(9, false, m.errorCode)
  {
  }

  /** Decoding inverts encoding exactly on canonical messages. */
  lemma ApduReadsBackExactly(m: Apdu)
    requires !m.Unknown?
    ensures ApduOf(Wire(m)) == Success(m) <==> Canonical(m)
  {
    hide *;
    ApduReadsBack(m);
    NormalExactly(m);
  }
}
