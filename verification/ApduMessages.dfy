/** The services of bridge-core/src/apdu.rs: the octets of each message, and what `decode_apdu`
    makes of any octets. */
module ApduMessages {
  import opened Words
  import opened Bacnet
  import opened ApduValues

  datatype Reading = Reading(property: PropertyId, value: BacnetValue)

  type Readings = s: seq<Reading> | |s| <= 8

  /** `DecodedApdu`. */
  datatype Apdu =
    | WhoIs(low: Option<u32>, high: Option<u32>)
    | IAm(device: ObjectId, maxApdu: u32, segmentation: byte, vendor: u16)
    | ReadProperty(o: ObjectId, p: PropertyId, index: Option<u32>, invokeId: byte)
    | ReadPropertyAck(o: ObjectId, p: PropertyId, index: Option<u32>, value: BacnetValue, invokeId: byte)
    | WriteProperty(o: ObjectId, p: PropertyId, index: Option<u32>, value: BacnetValue, priority: Option<byte>,
                    invokeId: byte)
    | SubscribeCov(process: u32, o: ObjectId, confirmed: bool, lifetime: Option<u32>, invokeId: byte)
    | CovNotification(process: u32, device: ObjectId, o: ObjectId, timeRemaining: u32, values: Readings)
    | SimpleAck(invokeId: byte, service: byte)
    | Error(invokeId: byte, service: byte, errorClass: u16, errorCode: u16)
    | Unknown(pduType: byte, service: byte)

  const WHO_IS: byte := 0x08
  const I_AM: byte := 0x00
  const UCOV_NOTIFICATION: byte := 0x02
  const SUBSCRIBE_COV: byte := 0x05
  const READ_PROPERTY: byte := 0x0C
  const WRITE_PROPERTY: byte := 0x0F

  // ------------------------------------------------------------------ what is written

  function Optional(number: nibble, v: Option<u32>): (s: seq<byte>)
    ensures |s| <= 5
  {
    if v.None? then [] else UnsignedElement(number, true, v.value)
  }

  function PropertyRef(o: ObjectId, p: PropertyId, index: Option<u32>): (s: seq<byte>)
    ensures |s| <= 15
  {
    ObjectElement(0, true, o) + UnsignedElement(1, true, PropertyCode(p)) + Optional(2, index)
  }

  function Bracketed(number: nibble, v: BacnetValue): (s: seq<byte>)
    ensures |s| <= 69
  {
    Opening(number) + ValueBytes(v) + Closing(number)
  }

  function EntryBytes(e: Reading): (s: seq<byte>)
    ensures |s| <= 74
  {
    UnsignedElement(0, true, PropertyCode(e.property)) + Bracketed(2, e.value)
  }

  function EntriesBytes(values: seq<Reading>): (s: seq<byte>)
    ensures |s| <= 74 * |values|
  {
    if values == [] then [] else EntriesBytes(values[..|values| - 1]) + EntryBytes(values[|values| - 1])
  }

  function ListBytes(values: seq<Reading>): (s: seq<byte>)
    ensures |s| <= 2 + 74 * |values|
  {
    Opening(4) + EntriesBytes(values) + Closing(4)
  }

  /** PDU type, invoke id and service; a confirmed request also announces what it can take. */
  function Head(m: Apdu): (s: seq<byte>)
    requires !m.Unknown?
    ensures |s| <= 4
  {
    match m
    case WhoIs(_, _) => [0x10, WHO_IS]
    case IAm(_, _, _, _) => [0x10, I_AM]
    case ReadProperty(_, _, _, id) => [0x00, 0x05, id, READ_PROPERTY]
    case ReadPropertyAck(_, _, _, _, id) => [0x30, id, READ_PROPERTY]
    case WriteProperty(_, _, _, _, _, id) => [0x00, 0x05, id, WRITE_PROPERTY]
    case SubscribeCov(_, _, _, _, id) => [0x00, 0x05, id, SUBSCRIBE_COV]
    case CovNotification(_, _, _, _, _) => [0x10, UCOV_NOTIFICATION]
    case SimpleAck(id, service) => [0x20, id, service]
    case Error(id, service, _, _) => [0x50, id, service]
  }

  function NotificationBytes(process: u32, device: ObjectId, o: ObjectId, timeRemaining: u32, values: Readings)
    : (s: seq<byte>)
    ensures |s| <= 614
  {
    UnsignedElement(0, true, process) + ObjectElement(1, true, device) + ObjectElement(2, true, o)
    + UnsignedElement(3, true, timeRemaining) + ListBytes(values)
  }

  function Body(m: Apdu): (s: Slice)
    requires !m.Unknown?
    ensures |s| <= 700
  {
    match m
    case WhoIs(low, high) =>
      if low.Some? && high.Some? then UnsignedElement(0, true, low.value) + UnsignedElement(1, true, high.value) else []
    case IAm(device, maxApdu, segmentation, vendor) =>
      ObjectElement(12, false, device) + UnsignedElement(2, false, maxApdu) + UnsignedElement(9, false, segmentation)
      + UnsignedElement(2, false, vendor)
    case ReadProperty(o, p, index, _) => PropertyRef(o, p, index)
    case ReadPropertyAck(o, p, index, value, _) => PropertyRef(o, p, index) + Bracketed(3, value)
    case WriteProperty(o, p, index, value, priority, _) =>
      PropertyRef(o, p, index) + Bracketed(3, value)
      + Optional(4, if priority.None? then None else Some(priority.value))
    case SubscribeCov(process, o, confirmed, lifetime, _) =>
      UnsignedElement(0, true, process) + ObjectElement(1, true, o)
      + UnsignedElement(2, true, if confirmed then 1 else 0)
      + Optional(3, lifetime)
    case CovNotification(process, device, o, timeRemaining, values) =>
      NotificationBytes(process, device, o, timeRemaining, values)
    case SimpleAck(_, _) => []
    case Error(_, _, errorClass, errorCode) =>
      UnsignedElement(9, false, errorClass) + UnsignedElement(9, false, errorCode)
  }

  function Wire(m: Apdu): (s: Slice)
    requires !m.Unknown?
    ensures |s| <= 704
  {
    Head(m) + Body(m)
  }

  // ------------------------------------------------------------------ what is read

  /** A number that must be there. */
  function UnsignedField(data: Slice, pos: u32, expected: byte): (r: Result<(u32, u32), DecodeError>)
    ensures r.Success? ==> pos < r.value.1 <= |data|
  {
    var (v, next) :- ContextUnsignedAt(data, pos, expected);
    if v.None? then Failure(InvalidData) else Success((v.value, next))
  }

  function ObjectField(data: Slice, pos: u32, expected: byte): (r: Result<(ObjectId, u32), DecodeError>)
    ensures r.Success? ==> pos < r.value.1 <= |data|
  {
    var (o, next) :- ContextObjectAt(data, pos, expected);
    if o.None? then Failure(InvalidData) else Success((o.value, next))
  }

  function BracketedAt(data: Slice, pos: u32, number: byte): (r: Result<(BacnetValue, u32), DecodeError>)
    ensures r.Success? ==> r.value.1 <= |data|
  {
    var a :- BracketAt(data, pos, number, 6);
    var (v, b) :- ValueAt(data, a);
    var c :- BracketAt(data, b, number, 7);
    Success((v, c))
  }

  datatype Reference = Reference(o: ObjectId, p: PropertyId, index: Option<u32>, next: u32)

  function ReferenceAt(data: Slice): Result<Reference, DecodeError> {
    var (o, a) :- ObjectField(data, 0, 0);
    var (code, b) :- UnsignedField(data, a, 1);
    var (index, c) :- ContextUnsignedAt(data, b, 2);
    Success(Reference(o, PropertyFromCode(code), index, c))
  }

  function WhoIsOf(data: Slice): Result<Apdu, DecodeError> {
    if data == [] then Success(WhoIs(None, None))
    else
      var (low, a) :- ContextUnsignedAt(data, 0, 0);
      var (high, _) :- ContextUnsignedAt(data, a, 1);
      Success(WhoIs(low, high))
  }

  function IAmOf(data: Slice): Result<Apdu, DecodeError> {
    var (device, a) :- ValueAt(data, 0);
    if !device.ObjectIdentifier? then Failure(InvalidData)
    else
      var (maxApdu, b) :- ValueAt(data, a);
      if !maxApdu.UnsignedInt? then Failure(InvalidData)
      else
        var (segmentation, c) :- ValueAt(data, b);
        if !segmentation.Enumerated? then Failure(InvalidData)
        else
          var (vendor, _) :- ValueAt(data, c);
          if !vendor.UnsignedInt? then Failure(InvalidData)
          else Success(IAm(device.o, maxApdu.u, segmentation.e % 0x100, vendor.u % 0x1_0000))
  }

  function ReadPropertyOf(data: Slice, invokeId: byte): Result<Apdu, DecodeError> {
    var ref :- ReferenceAt(data);
    Success(ReadProperty(ref.o, ref.p, ref.index, invokeId))
  }

  function ReadPropertyAckOf(data: Slice, invokeId: byte): Result<Apdu, DecodeError> {
    var ref :- ReferenceAt(data);
    var (value, _) :- BracketedAt(data, ref.next, 3);
    Success(ReadPropertyAck(ref.o, ref.p, ref.index, value, invokeId))
  }

  function WritePropertyOf(data: Slice, invokeId: byte): Result<Apdu, DecodeError> {
    var ref :- ReferenceAt(data);
    var (value, a) :- BracketedAt(data, ref.next, 3);
    var (priority, _) :- ContextUnsignedAt(data, a, 4);
    Success(WriteProperty(ref.o, ref.p, ref.index, value,
                          if priority.None? then None else Some(priority.value % 0x100), invokeId))
  }

  function SubscribeCovOf(data: Slice, invokeId: byte): Result<Apdu, DecodeError> {
    var (process, a) :- UnsignedField(data, 0, 0);
    var (o, b) :- ObjectField(data, a, 1);
    var (confirmed, c) :- ContextUnsignedAt(data, b, 2);
    var (lifetime, _) :- ContextUnsignedAt(data, c, 3);
    Success(SubscribeCov(process, o, confirmed.Some? && confirmed.value != 0, lifetime, invokeId))
  }

  /** One entry of a value list, which ends inside the data but not always after where it began. */
  function EntryAt(data: Slice, pos: u32): (r: Result<(Reading, u32), DecodeError>)
    ensures r.Success? ==> pos < |data| && r.value.1 <= |data|
  {
    var (code, a) :- UnsignedField(data, pos, 0);
    var (_, b) :- ContextUnsignedAt(data, a, 1);
    var (value, c) :- BracketedAt(data, b, 2);
    Success((Reading(PropertyFromCode(code), value), c))
  }

  /** The list loop, followed for so many rounds: entries until a closing tag, of which the first
      eight are kept. */
  function EntriesWithin(data: Slice, pos: u32, kept: Readings, rounds: nat): (r: Result<(Readings, u32), DecodeError>)
    ensures r.Success? ==> r.value.1 < |data|
    decreases rounds
  {
    if ClosingHere(data, pos, 4) then Success((kept, pos))
    else if rounds == 0 then Failure(Endless)
    else
      var (e, next) :- EntryAt(data, pos);
      EntriesWithin(data, next, if |kept| < 8 then kept + [e] else kept, rounds - 1)
  }

  function ListWithin(data: Slice, pos: u32, rounds: nat): Result<Readings, DecodeError> {
    if pos >= |data| then Success([])
    else
      var a :- BracketAt(data, pos, 4, 6);
      var (values, b) :- EntriesWithin(data, a, [], rounds);
      var _ :- BracketAt(data, b, 4, 7);
      Success(values)
  }

  function CovNotificationWithin(data: Slice, rounds: nat): Result<Apdu, DecodeError> {
    var (process, a) :- UnsignedField(data, 0, 0);
    var (device, b) :- ObjectField(data, a, 1);
    var (o, c) :- ObjectField(data, b, 2);
    var (timeRemaining, d) :- UnsignedField(data, c, 3);
    var values :- ListWithin(data, d, rounds);
    Success(CovNotification(process, device, o, timeRemaining, values))
  }

  /** A number under any tag, or 0 at the end of the data; and the position after it. */
  function NumberAt(data: Slice, pos: u32): (r: Result<(u32, u32), DecodeError>)
    ensures r.Success? ==> r.value.1 <= |data| || r.value.1 == pos
  {
    if pos >= |data| then Success((0, pos))
    else
      var tag :- TagAt(data, pos);
      var v :- UnsignedAt(data, pos + tag.headerLen, tag.lvt);
      Success((v, Plus(pos + tag.headerLen, tag.lvt)))
  }

  function ErrorOf(data: Slice): Result<Apdu, DecodeError>
    requires |data| >= 3
  {
    var (errorClass, a) :- NumberAt(data, 3);
    var (errorCode, _) :- NumberAt(data, a);
    Success(Error(data[1], data[2], errorClass % 0x1_0000, errorCode % 0x1_0000))
  }

  /** `decode_apdu`, its list loop followed for so many rounds. */
  function ApduWithin(data: Slice, rounds: nat): Result<Apdu, DecodeError> {
    if data == [] then Failure(UnexpectedEnd)
    else
      match data[0] / 16
      case 1 =>
        if |data| < 2 then Failure(UnexpectedEnd)
        else if data[1] == WHO_IS then WhoIsOf(data[2..])
        else if data[1] == I_AM then IAmOf(data[2..])
        else if data[1] == UCOV_NOTIFICATION then CovNotificationWithin(data[2..], rounds)
        else Success(Unknown(0x10, data[1]))
      case 0 =>
        if |data| < 4 then Failure(UnexpectedEnd)
        else if data[3] == READ_PROPERTY then ReadPropertyOf(data[4..], data[2])
        else if data[3] == WRITE_PROPERTY then WritePropertyOf(data[4..], data[2])
        else if data[3] == SUBSCRIBE_COV then SubscribeCovOf(data[4..], data[2])
        else Success(Unknown(0x00, data[3]))
      case 3 =>
        if |data| < 3 then Failure(UnexpectedEnd)
        else if data[2] == READ_PROPERTY then ReadPropertyAckOf(data[3..], data[1])
        else Success(Unknown(0x30, data[2]))
      case 2 => if |data| < 3 then Failure(UnexpectedEnd) else Success(SimpleAck(data[1], data[2]))
      case 5 => if |data| < 3 then Failure(UnexpectedEnd) else ErrorOf(data)
      case other => Success(Unknown(other * 16, if |data| > 1 then data[1] else 0))
  }

  /** `decode_apdu`: a loop still running after more rounds than there are octets runs for ever
      (`ApduLoop.EndlessExactly`). */
  function ApduOf(data: Slice): Result<Apdu, DecodeError> {
    ApduWithin(data, |data| + 8)
  }

  // ------------------------------------------------------------------ the list loop

  /** The same entries, none dropped. */
  function AllEntriesWithin(data: Slice, pos: u32, rounds: nat): Result<(seq<Reading>, u32), DecodeError>
    decreases rounds
  {
    if ClosingHere(data, pos, 4) then Success(([], pos))
    else if rounds == 0 then Failure(Endless)
    else
      var (e, next) :- EntryAt(data, pos);
      var (rest, end) :- AllEntriesWithin(data, next, rounds - 1);
      Success(([e] + rest, end))
  }

  function FirstEight(s: seq<Reading>): Readings {
    if |s| <= 8 then s else s[..8]
  }

  /** Whenever the loop ends it ends inside the data and has kept exactly the first eight entries. */
  lemma {:induction false} ListKeepsFirstEight(data: Slice, pos: u32, kept: Readings, rounds: nat)
    ensures match AllEntriesWithin(data, pos, rounds)
            case Success((all, end)) =>
              && |all| <= rounds && end < |data|
              && EntriesWithin(data, pos, kept, rounds) == Success((FirstEight(kept + all), end))
            case Failure(e) => EntriesWithin(data, pos, kept, rounds) == Failure(e)
    decreases rounds
  {
    hide EntryAt, ClosingHere, FirstEight;
    KeptNone(kept);
    if ClosingHere(data, pos, 4) {
      ClosingInside(data, pos);
    } else if rounds > 0 && EntryAt(data, pos).Success? {
      var (e, next) := EntryAt(data, pos).value;
      ListKeepsFirstEight(data, next, if |kept| < 8 then kept + [e] else kept, rounds - 1);
      var rest := AllEntriesWithin(data, next, rounds - 1);
      if rest.Success? {
        KeptAlike(kept, e, rest.value.0);
      }
    }
  }

  lemma KeptNone(kept: Readings)
    ensures FirstEight(kept + []) == kept
  {
    assert kept + [] == kept;
  }

  lemma ClosingInside(data: Slice, pos: u32)
    requires ClosingHere(data, pos, 4)
    ensures pos < |data|
  {
  }

  lemma KeptAlike(kept: Readings, e: Reading, rest: seq<Reading>)
    ensures FirstEight((if |kept| < 8 then kept + [e] else kept) + rest) == FirstEight(kept + ([e] + rest))
  {
    assert kept + ([e] + rest) == kept + [e] + rest;
  }

  // ------------------------------------------------------------------ reading back

  function NormalProperty(p: PropertyId): PropertyId {
    PropertyFromCode(PropertyCode(p))
  }

  function NormalReading(e: Reading): Reading {
    Reading(NormalProperty(e.property), NormalValue(e.value))
  }

  function NormalReadings(values: seq<Reading>): (s: seq<Reading>)
    ensures |s| == |values|
  {
    if values == [] then [] else NormalReadings(values[..|values| - 1]) + [NormalReading(values[|values| - 1])]
  }

  /** A message as it comes back: instances reduced to 22 bits, named properties by name, a Who-Is
      with one limit unlimited. */
  function Normal(m: Apdu): Apdu {
    match m
    case WhoIs(low, high) => if low.Some? && high.Some? then m else WhoIs(None, None)
    case IAm(device, maxApdu, segmentation, vendor) => IAm(NormalObject(device), maxApdu, segmentation, vendor)
    case ReadProperty(o, p, index, id) => ReadProperty(NormalObject(o), NormalProperty(p), index, id)
    case ReadPropertyAck(o, p, index, value, id) =>
      ReadPropertyAck(NormalObject(o), NormalProperty(p), index, NormalValue(value), id)
    case WriteProperty(o, p, index, value, priority, id) =>
      WriteProperty(NormalObject(o), NormalProperty(p), index, NormalValue(value), priority, id)
    case SubscribeCov(process, o, confirmed, lifetime, id) =>
      SubscribeCov(process, NormalObject(o), confirmed, lifetime, id)
    case CovNotification(process, device, o, timeRemaining, values) =>
      CovNotification(process, NormalObject(device), NormalObject(o), timeRemaining, NormalReadings(values))
    case _ => m
  }

  ghost predicate SmallInstance(o: ObjectId) {
    o.instance < INSTANCE_SPAN
  }

  ghost predicate PlainProperty(p: PropertyId) {
    !(p.Raw? && p.code in NAMED_CODES)
  }

  ghost predicate PlainValue(v: BacnetValue) {
    v.ObjectIdentifier? ==> SmallInstance(v.o)
  }

  ghost predicate PlainReadings(values: seq<Reading>) {
    forall k :: 0 <= k < |values| ==> PlainProperty(values[k].property) && PlainValue(values[k].value)
  }

  /** What a caller can check before encoding. */
  ghost predicate Canonical(m: Apdu) {
    match m
    case WhoIs(low, high) => low.Some? == high.Some?
    case IAm(device, _, _, _) => SmallInstance(device)
    case ReadProperty(o, p, _, _) => SmallInstance(o) && PlainProperty(p)
    case ReadPropertyAck(o, p, _, value, _) => SmallInstance(o) && PlainProperty(p) && PlainValue(value)
    case WriteProperty(o, p, _, value, _, _) => SmallInstance(o) && PlainProperty(p) && PlainValue(value)
    case SubscribeCov(_, o, _, _, _) => SmallInstance(o)
    case CovNotification(_, device, o, _, values) => SmallInstance(device) && SmallInstance(o) && PlainReadings(values)
    case _ => true
  }

  lemma NormalParts(o: ObjectId, p: PropertyId, v: BacnetValue)
    ensures NormalObject(o) == o <==> SmallInstance(o)
    ensures NormalProperty(p) == p <==> PlainProperty(p)
    ensures NormalValue(v) == v <==> PlainValue(v)
  {
    PropertyReadsBackExactly(p);
  }

  lemma {:induction false} NormalReadingsExactly(values: seq<Reading>)
    ensures NormalReadings(values) == values <==> PlainReadings(values)
  {
    hide NormalProperty, NormalValue, NormalObject, PlainProperty, PlainValue;
    if values != [] {
      var n := |values| - 1;
      NormalReadingsExactly(values[..n]);
      NormalParts(ObjectId(Device, 0), values[n].property, values[n].value);
      assert values == values[..n] + [values[n]];
      assert NormalReadings(values)[..n] == NormalReadings(values[..n]);
    }
  }

  lemma NormalExactly(m: Apdu)
    ensures Normal(m) == m <==> Canonical(m)
  {
    hide NormalProperty, NormalValue, NormalObject, NormalReadings, PlainProperty, PlainValue, SmallInstance,
         PlainReadings;
    match m
    case IAm(device, _, _, _) => NormalParts(device, Units, Null);
    case ReadProperty(o, p, _, _) => NormalParts(o, p, Null);
    case ReadPropertyAck(o, p, _, value, _) => NormalParts(o, p, value);
    case WriteProperty(o, p, _, value, _, _) => NormalParts(o, p, value);
    case SubscribeCov(_, o, _, _, _) => NormalParts(o, Units, Null);
    case CovNotification(_, device, o, _, values) =>
      NormalParts(device, Units, Null);
      NormalParts(o, Units, Null);
      NormalReadingsExactly(values);
    case _ =>
  }
}
