/** What `decode_apdu` of bridge-core/src/apdu.rs can make of arbitrary octets, and what becomes of it
    when it is encoded again. */
module ApduCanonical {
  import opened Words
  import opened Octets
  import opened Bacnet
  import opened ApduValues
  import opened ApduMessages
  import opened ApduTheorems

  /** A PDU type and service that none of the services has. */
  ghost predicate NoService(pduType: byte, service: byte) {
    && pduType % 16 == 0
    && match pduType / 16
       case 0 => service != READ_PROPERTY && service != WRITE_PROPERTY && service != SUBSCRIBE_COV
       case 1 => service != WHO_IS && service != I_AM && service != UCOV_NOTIFICATION
       case 2 => false
       case 3 => service != READ_PROPERTY
       case 5 => false
       case _ => true
  }

  /** Only a Who-Is can be decoded that is not canonical: one with a single limit. */
  ghost predicate Decodable(m: Apdu) {
    if m.Unknown? then NoService(m.pduType, m.service) else m.WhoIs? || Canonical(m)
  }

  // ------------------------------------------------------------------ parts

  lemma ObjectHasSmallInstance(data: Slice, pos: u32)
    requires ObjectAt(data, pos).Success?
    ensures SmallInstance(ObjectAt(data, pos).value)
  {
    hide FromRaw, ToRaw, UnsignedAt;
    RawRepacks(UnsignedAt(data, pos, 4).value);
  }

  lemma ObjectFieldIsSmall(data: Slice, pos: u32, number: byte)
    requires ObjectField(data, pos, number).Success?
    ensures SmallInstance(ObjectField(data, pos, number).value.0)
  {
    hide TagAt, ObjectAt, SmallInstance;
    ObjectHasSmallInstance(data, pos + TagAt(data, pos).value.headerLen);
  }

  lemma ContentIsPlain(data: Slice, pos: u32, number: byte, len: u32)
    requires pos <= |data| && ContentAt(data, pos, number, len).Success?
    ensures PlainValue(ContentAt(data, pos, number, len).value.0)
  {
    hide UnsignedAt, SignedAt, TextAt, ObjectAt, SmallInstance, Plus;
    if number == 12 {
      ObjectHasSmallInstance(data, pos);
    } else if number == 7 {
      TextIsText(data, pos, len);
    }
  }

  lemma TextIsText(data: Slice, pos: u32, len: u32)
    requires TextAt(data, pos, len).Success?
    ensures TextAt(data, pos, len).value.CharString?
  {
    hide Utf8Valid, StoredText;
  }

  lemma ValueIsPlain(data: Slice, pos: u32)
    requires ValueAt(data, pos).Success?
    ensures PlainValue(ValueAt(data, pos).value.0)
  {
    hide TagAt, ContentAt, PlainValue;
    var tag := TagAt(data, pos).value;
    ContentIsPlain(data, pos + tag.headerLen, tag.number, tag.lvt);
  }

  lemma BracketedIsPlain(data: Slice, pos: u32, number: byte)
    requires BracketedAt(data, pos, number).Success?
    ensures PlainValue(BracketedAt(data, pos, number).value.0)
  {
    hide BracketAt, ValueAt, PlainValue;
    ValueIsPlain(data, BracketAt(data, pos, number, 6).value);
  }

  lemma NumberedPropertyIsPlain(code: u32)
    ensures PlainProperty(PropertyFromCode(code))
  {
  }

  lemma ReferenceIsPlain(data: Slice)
    requires ReferenceAt(data).Success?
    ensures SmallInstance(ReferenceAt(data).value.o) && PlainProperty(ReferenceAt(data).value.p)
  {
    hide ObjectField, UnsignedField, ContextUnsignedAt, PropertyFromCode, SmallInstance, PlainProperty;
    ObjectFieldIsSmall(data, 0, 0);
    NumberedPropertyIsPlain(UnsignedField(data, ObjectField(data, 0, 0).value.1, 1).value.0);
  }

  // ------------------------------------------------------------------ lists

  ghost predicate PlainReading(e: Reading) {
    PlainProperty(e.property) && PlainValue(e.value)
  }

  lemma EntryIsPlain(data: Slice, pos: u32)
    requires EntryAt(data, pos).Success?
    ensures PlainReading(EntryAt(data, pos).value.0)
  {
    hide UnsignedField, ContextUnsignedAt, BracketedAt, PropertyFromCode, PlainProperty, PlainValue;
    var (code, a) := UnsignedField(data, pos, 0).value;
    NumberedPropertyIsPlain(code);
    BracketedIsPlain(data, ContextUnsignedAt(data, a, 1).value.1, 2);
  }

  lemma OneMorePlain(kept: seq<Reading>, e: Reading)
    requires PlainReadings(kept) && PlainReading(e)
    ensures PlainReadings(kept + [e])
  {
    hide PlainProperty, PlainValue;
  }

  lemma {:induction false} EntriesArePlain(data: Slice, pos: u32, kept: Readings, rounds: nat)
    requires PlainReadings(kept) && EntriesWithin(data, pos, kept, rounds).Success?
    ensures PlainReadings(EntriesWithin(data, pos, kept, rounds).value.0)
    decreases rounds
  {
    hide ClosingHere, EntryAt, PlainReadings;
    if !ClosingHere(data, pos, 4) {
      var (e, next) := EntryAt(data, pos).value;
      EntryIsPlain(data, pos);
      OneMorePlain(kept, e);
      EntriesArePlain(data, next, if |kept| < 8 then kept + [e] else kept, rounds - 1);
    }
  }

  lemma ListIsPlain(data: Slice, pos: u32, rounds: nat)
    requires ListWithin(data, pos, rounds).Success?
    ensures PlainReadings(ListWithin(data, pos, rounds).value)
  {
    hide BracketAt, EntriesWithin;
    if pos < |data| {
      EntriesArePlain(data, BracketAt(data, pos, 4, 6).value, [], rounds);
    }
  }

  // ------------------------------------------------------------------ services

  lemma IAmIsDecodable(data: Slice)
    requires IAmOf(data).Success?
    ensures Decodable(IAmOf(data).value)
  {
    hide ValueAt;
    ValueIsPlain(data, 0);
  }

  lemma RequestsAreDecodable(data: Slice, id: byte)
    ensures ReadPropertyOf(data, id).Success? ==> Decodable(ReadPropertyOf(data, id).value)
    ensures ReadPropertyAckOf(data, id).Success? ==> Decodable(ReadPropertyAckOf(data, id).value)
    ensures WritePropertyOf(data, id).Success? ==> Decodable(WritePropertyOf(data, id).value)
  {
    hide ReferenceAt, BracketedAt, ContextUnsignedAt, SmallInstance, PlainProperty, PlainValue;
    if ReferenceAt(data).Success? {
      ReferenceIsPlain(data);
      var next := ReferenceAt(data).value.next;
      if BracketedAt(data, next, 3).Success? {
        BracketedIsPlain(data, next, 3);
      }
    }
  }

  lemma SubscribeCovIsDecodable(data: Slice, id: byte)
    requires SubscribeCovOf(data, id).Success?
    ensures Decodable(SubscribeCovOf(data, id).value)
  {
    hide UnsignedField, ObjectField, ContextUnsignedAt, SmallInstance;
    ObjectFieldIsSmall(data, UnsignedField(data, 0, 0).value.1, 1);
  }

  lemma CovNotificationIsDecodable(data: Slice, rounds: nat)
    requires CovNotificationWithin(data, rounds).Success?
    ensures Decodable(CovNotificationWithin(data, rounds).value)
  {
    hide UnsignedField, ObjectField, ListWithin, SmallInstance, PlainReadings;
    var a := UnsignedField(data, 0, 0).value.1;
    ObjectFieldIsSmall(data, a, 1);
    var b := ObjectField(data, a, 1).value.1;
    ObjectFieldIsSmall(data, b, 2);
    var c := ObjectField(data, b, 2).value.1;
    ListIsPlain(data, UnsignedField(data, c, 3).value.1, rounds);
  }

  /** What follows the head of a message, service by service. */
  lemma ServicesAreDecodable(data: Slice, id: byte, rounds: nat)
    ensures WhoIsOf(data).Success? ==> Decodable(WhoIsOf(data).value)
    ensures IAmOf(data).Success? ==> Decodable(IAmOf(data).value)
    ensures SubscribeCovOf(data, id).Success? ==> Decodable(SubscribeCovOf(data, id).value)
    ensures CovNotificationWithin(data, rounds).Success? ==> Decodable(CovNotificationWithin(data, rounds).value)
  {
    hide IAmOf, SubscribeCovOf, CovNotificationWithin, ContextUnsignedAt, Canonical;
    if IAmOf(data).Success? {
      IAmIsDecodable(data);
    }
    if SubscribeCovOf(data, id).Success? {
      SubscribeCovIsDecodable(data, id);
    }
    if CovNotificationWithin(data, rounds).Success? {
      CovNotificationIsDecodable(data, rounds);
    }
  }

  lemma OthersAreDecodable(data: Slice)
    ensures forall t: byte, s: byte ::
              Decodable(SimpleAck(t, s)) && (Decodable(Unknown(t, s)) <==> NoService(t, s))
    ensures |data| >= 3 && ErrorOf(data).Success? ==> Decodable(ErrorOf(data).value)
  {
    hide NumberAt;
  }

  /** Whatever octets are decoded, however long the list loop is followed, the message is canonical,
      or a Who-Is with a single limit. */
  lemma DecodedIsCanonical(data: Slice, rounds: nat)
    requires ApduWithin(data, rounds).Success?
    ensures var m := ApduWithin(data, rounds).value;
            Canonical(m) <==> (m.WhoIs? ==> m.low.Some? == m.high.Some?)
  {
    hide ApduWithin, Canonical, Decodable;
    DecodedIsDecodable(data, rounds);
    CanonicalUnlessHalfLimited(ApduWithin(data, rounds).value);
  }

  lemma HighHalf(t: nibble)
    ensures t * 16 % 16 == 0 && t * 16 / 16 == t
  {
  }

  lemma DecodedIsDecodable(data: Slice, rounds: nat)
    requires ApduWithin(data, rounds).Success?
    ensures Decodable(ApduWithin(data, rounds).value)
  {
    hide WhoIsOf, IAmOf, ReadPropertyOf, ReadPropertyAckOf, WritePropertyOf, SubscribeCovOf, CovNotificationWithin,
         ErrorOf, Decodable;
    OthersAreDecodable(data);
    if data != [] {
      HighHalf(data[0] / 16);
    }
    if |data| >= 2 {
      ServicesAreDecodable(data[2..], 0, rounds);
    }
    if |data| >= 4 {
      ServicesAreDecodable(data[4..], data[2], rounds);
      RequestsAreDecodable(data[4..], data[2]);
    }
    if |data| >= 3 {
      RequestsAreDecodable(data[3..], data[1]);
    }
  }

  // ------------------------------------------------------------------ again

  /** Encoded and decoded, the message is itself again. */
  ghost predicate ComesBack(m: Apdu) {
    !m.Unknown? && ApduOf(Wire(m)) == Success(m)
  }

  /** A decoded message, encoded and decoded again, is the same message, unless it is a Who-Is with a
      single limit, which comes back without any; and from then on nothing changes any more. */
  lemma RewrittenReadsBack(data: Slice, m: Apdu)
    requires ApduOf(data) == Success(m) && !m.Unknown?
    ensures ComesBack(m) <==> (m.WhoIs? ==> m.low.Some? == m.high.Some?)
    ensures m.WhoIs? && m.low.Some? != m.high.Some? ==> ApduOf(Wire(m)) == Success(WhoIs(None, None))
    ensures ApduOf(Wire(m)) == Success(Normal(m)) && ComesBack(Normal(m))
  {
    DecodedByLoop(data);
    hide Canonical, ApduOf, Normal;
    CanonicalUnlessHalfLimited(m);
    NormalExactly(m);
    ApduReadsBack(m);
    ApduReadsBackExactly(m);
    NormalIsNormal(m);
    ApduReadsBack(Normal(m));
  }

  lemma CanonicalUnlessHalfLimited(m: Apdu)
    requires Decodable(m)
    ensures Canonical(m) <==> (m.WhoIs? ==> m.low.Some? == m.high.Some?)
  {
    hide SmallInstance, PlainProperty, PlainValue, PlainReadings;
  }

  lemma NormalIsNormal(m: Apdu)
    requires Decodable(m) && !m.Unknown?
    ensures !Normal(m).Unknown? && Normal(Normal(m)) == Normal(m)
    ensures m.WhoIs? && m.low.Some? != m.high.Some? ==> Normal(m) == WhoIs(None, None)
  {
    hide SmallInstance, PlainProperty, PlainValue, PlainReadings;
    NormalExactly(m);
    if m.WhoIs? {
      NormalWhoIs(m);
    }
    hide Normal;
  }

  lemma NormalWhoIs(m: Apdu)
    requires m.WhoIs?
    ensures Normal(m) == if m.low.Some? && m.high.Some? then m else WhoIs(None, None)
    ensures Normal(Normal(m)) == Normal(m)
  {
  }

  /** A Who-Is with a single limit, which is read though it is never written. */
  function OneLimit(low: Option<u32>, high: Option<u32>): Slice {
    [0x10, WHO_IS] + if low.Some? then UnsignedElement(0, true, low.value)
                     else if high.Some? then UnsignedElement(1, true, high.value) else []
  }

  lemma OneLimitReads(low: Option<u32>, high: Option<u32>)
    requires low.Some? != high.Some?
    ensures ApduOf(OneLimit(low, high)) == Success(WhoIs(low, high))
  {
    hide ContextUnsignedAt, UnsignedElement, HasAt;
    var number: nibble := if low.Some? then 0 else 1;
    var v := if low.Some? then low.value else high.value;
    var body: Slice := UnsignedElement(number, true, v);
    assert OneLimit(low, high)[2..] == body;
    HasWhole(body);
    ContextUnsignedReadsBack(body, 0, number, v);
    if low.Some? {
      NothingIsAbsent(body, |body|, 1);
    } else {
      SecondLimitFirst(body, v);
    }
  }

  lemma SecondLimitFirst(body: Slice, v: u32)
    requires HasAt(body, 0, UnsignedElement(1, true, v))
    ensures body != [] && ContextUnsignedAt(body, 0, 0) == Success((None, 0))
  {
    HasIndex(body, 0, UnsignedElement(1, true, v), 0);
    HasFits(body, 0, UnsignedElement(1, true, v));
    hide ContextUnsignedAt;
    OtherTagIsAbsent(body, 0, body[0], 0);
  }

  /** A message of no service, as short as can be. */
  function Unserved(t: byte, service: byte): Slice {
    if t == 0 then [t, 0, 0, service] else if t == 0x30 then [t, 0, service] else [t, service]
  }

  lemma UnknownReads(t: byte, service: byte)
    requires NoService(t, service)
    ensures ApduOf(Unserved(t, service)) == Success(Unknown(t, service))
  {
    var high: nibble := t / 16;
    assert t == high * 16;
  }

  /** So decoding yields exactly the canonical messages of the services, every Who-Is, and the report
      of any PDU type and service that it does not know. */
  lemma DecodableExactly(m: Apdu)
    ensures (exists data: Slice :: ApduOf(data) == Success(m)) <==> Decodable(m)
  {
    hide ApduOf, Canonical;
    if m.Unknown? && Decodable(m) {
      UnknownReads(m.pduType, m.service);
    } else if Decodable(m) {
      CanonicalUnlessHalfLimited(m);
      if Canonical(m) {
        ApduReadsBackExactly(m);
        assert ApduOf(Wire(m)) == Success(m);
      } else {
        OneLimitReads(m.low, m.high);
      }
    }
    forall data: Slice | ApduOf(data) == Success(m)
      ensures Decodable(m)
    {
      DecodedByLoop(data);
    }
  }

  lemma DecodedByLoop(data: Slice)
    requires ApduOf(data).Success?
    ensures Decodable(ApduOf(data).value)
  {
    hide ApduWithin, Decodable;
    DecodedIsDecodable(data, |data| + 8);
  }
}
