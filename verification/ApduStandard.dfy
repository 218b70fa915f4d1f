/** The services as clauses 20.1 and 21 of ASHRAE 135 lay them out, read with numbers of their own:
    what bridge-core/src/apdu.rs writes is that, and whatever is that, it reads as what it says. */
module ApduStandard {
  import opened Words
  import opened Octets
  import opened Numbers
  import opened Bacnet
  import opened ApduValues
  import opened ApduForms
  import opened ApduMessages

  // ------------------------------------------------------------------ numbers of clause 21

  const OBJECT_TYPES: map<int, ObjectType> :=
    map[0 := AnalogInput, 1 := AnalogOutput, 2 := AnalogValue, 3 := BinaryInput, 4 := BinaryOutput, 5 := BinaryValue,
        6 := Calendar, 8 := Device, 13 := MultiStateInput, 14 := MultiStateOutput, 15 := NotificationClass,
        17 := Schedule, 19 := MultiStateValue, 20 := TrendLog]

  const PROPERTIES: map<int, PropertyId> :=
    map[28 := Description, 31 := DeviceType, 75 := ObjectIdentifierProperty, 77 := ObjectName,
        79 := ObjectTypeProperty, 81 := OutOfService, 85 := PresentValue, 111 := StatusFlags, 117 := Units]

  lemma TypesAreNumbered(code: nat)
    ensures FromCode(code) == if code in OBJECT_TYPES then Some(OBJECT_TYPES[code]) else None
  {
  }

  lemma PropertiesAreNumbered(code: u32)
    ensures PropertyFromCode(code) == if code in PROPERTIES then PROPERTIES[code] else Raw(code)
  {
  }

  // ------------------------------------------------------------------ reading by the standard

  /** The content of a primitive with this tag, and the position after it. */
  function Content(data: Slice, pos: u32, context: bool, number: byte): (r: Result<(seq<byte>, u32), DecodeError>)
    ensures r.Success? ==> pos < r.value.1 <= |data|
  {
    var t := TagIn(data, pos);
    if t.None? || t.value.context != context || t.value.number != number || !t.value.kind.Holds? then
      Failure(InvalidData)
    else
      var a := pos + t.value.size;
      var n := t.value.kind.n;
      if a + n > |data| then Failure(InvalidData) else Success((data[a..a + n], a + n))
  }

  /** An unsigned number below 2^32, in as many octets as its sender liked. */
  function Number(data: Slice, pos: u32, context: bool, number: byte): (r: Result<(u32, u32), DecodeError>)
    ensures r.Success? ==> pos < r.value.1 <= |data|
  {
    var (c, next) :- Content(data, pos, context, number);
    if c == [] || BeVal(c) > 0xFFFF_FFFF then Failure(InvalidData) else Success((BeVal(c), next))
  }

  function Object(data: Slice, pos: u32, context: bool, number: byte): (r: Result<(ObjectId, u32), DecodeError>)
    ensures r.Success? ==> pos < r.value.1 <= |data|
  {
    var (c, next) :- Content(data, pos, context, number);
    if |c| != 4 || BeVal(c) / 0x40_0000 !in OBJECT_TYPES then Failure(InvalidData)
    else Success((ObjectId(OBJECT_TYPES[BeVal(c) / 0x40_0000], BeVal(c) % 0x40_0000), next))
  }

  /** A number that may be missing. */
  function MaybeNumber(data: Slice, pos: u32, number: byte): (r: Result<(Option<u32>, u32), DecodeError>)
    ensures r.Success? ==> pos <= r.value.1 && (r.value.1 <= |data| || r.value.1 == pos)
  {
    var t := TagIn(data, pos);
    if pos == |data| || (t.Some? && t.value.number != number) then Success((None, pos))
    else var (v, next) :- Number(data, pos, true, number); Success((Some(v), next))
  }

  function Bracket(data: Slice, pos: u32, number: byte, kind: Kind): (r: Result<u32, DecodeError>)
    ensures r.Success? ==> pos < r.value <= |data|
  {
    var t := TagIn(data, pos);
    if t.Some? && t.value.context && t.value.number == number && t.value.kind == kind then Success(pos + t.value.size)
    else Failure(InvalidData)
  }

  /** Application tags 0 to 12; text in UTF-8, which is character set 0, of at most 64 octets. */
  function Value(data: Slice, pos: u32): (r: Result<(BacnetValue, u32), DecodeError>)
    ensures r.Success? ==> pos < r.value.1 <= |data|
  {
    var t := TagIn(data, pos);
    if t.None? || t.value.context || !t.value.kind.Holds? then Failure(InvalidData)
    else if t.value.number == 1 then
      if t.value.kind.n > 1 then Failure(InvalidData)
      else Success((Boolean(t.value.kind.n == 1), pos + t.value.size))
    else
      var (c, next) :- Content(data, pos, false, t.value.number);
      match t.value.number
      case 0 => if c == [] then Success((Null, next)) else Failure(InvalidData)
      case 2 => var (v, _) :- Number(data, pos, false, 2); Success((UnsignedInt(v), next))
      case 3 => if c == [] || !(-0x8000_0000 <= SignedVal(c) < 0x8000_0000) then Failure(InvalidData)
                else Success((SignedInt(SignedVal(c)), next))
      case 4 => if |c| != 4 then Failure(InvalidData)
                else var (v, _) :- Number(data, pos, false, 4); Success((Real(v), next))
      case 7 => if c == [] || c[0] != 0 || |c| > 65 || !Utf8Valid(c[1..]) then Failure(InvalidData)
                else Success((CharString(c[1..]), next))
      case 9 => var (v, _) :- Number(data, pos, false, 9); Success((Enumerated(v), next))
      case 12 => var (o, _) :- Object(data, pos, false, 12); Success((ObjectIdentifier(o), next))
      case _ => Failure(InvalidData)
  }

  function Between(data: Slice, pos: u32, number: byte): (r: Result<(BacnetValue, u32), DecodeError>)
    ensures r.Success? ==> pos < r.value.1 <= |data|
  {
    var a :- Bracket(data, pos, number, Opens);
    var (v, b) :- Value(data, a);
    var c :- Bracket(data, b, number, Closes);
    Success((v, c))
  }

  function PropertyOf(code: u32): PropertyId {
    if code in PROPERTIES then PROPERTIES[code] else Raw(code)
  }

  /** Object [0], property [1], and perhaps an array index [2]. */
  function Subject(data: Slice): (r: Result<Reference, DecodeError>)
    ensures r.Success? ==> r.value.next <= |data|
  {
    var (o, a) :- Object(data, 0, true, 0);
    var (code, b) :- Number(data, a, true, 1);
    var (index, c) :- MaybeNumber(data, b, 2);
    Success(Reference(o, PropertyOf(code), index, c))
  }

  /** A property [0], perhaps an index [1], and a value [2]. */
  function Entry(data: Slice, pos: u32): (r: Result<(Reading, u32), DecodeError>)
    ensures r.Success? ==> pos < r.value.1 <= |data|
  {
    var (code, a) :- Number(data, pos, true, 0);
    var (_, b) :- MaybeNumber(data, a, 1);
    var (v, c) :- Between(data, b, 2);
    Success((Reading(PropertyOf(code), v), c))
  }

  /** Entries up to the closing tag 4. */
  function Entries(data: Slice, pos: u32): (r: Result<(seq<Reading>, u32), DecodeError>)
    decreases |data| - pos
  {
    if Bracket(data, pos, 4, Closes).Success? then Success(([], Bracket(data, pos, 4, Closes).value))
    else
      var (e, next) :- Entry(data, pos);
      var (rest, end) :- Entries(data, next);
      Success(([e] + rest, end))
  }

  /** The message, if nothing is left over. */
  function Whole(data: Slice, end: u32, m: Apdu): Result<Apdu, DecodeError> {
    if end == |data| then Success(m) else Failure(InvalidData)
  }

  function Unconfirmed(service: byte, data: Slice): Result<Apdu, DecodeError> {
    match service
    case 0 =>
      var (device, a) :- Object(data, 0, false, 12);
      var (maxApdu, b) :- Number(data, a, false, 2);
      var (segmentation, c) :- Number(data, b, false, 9);
      var (vendor, d) :- Number(data, c, false, 2);
      if segmentation > 0xFF || vendor > 0xFFFF then Failure(InvalidData)
      else Whole(data, d, IAm(device, maxApdu, segmentation, vendor))
    case 2 =>
      var (process, a) :- Number(data, 0, true, 0);
      var (device, b) :- Object(data, a, true, 1);
      var (o, c) :- Object(data, b, true, 2);
      var (timeRemaining, d) :- Number(data, c, true, 3);
      var e :- Bracket(data, d, 4, Opens);
      var (values, f) :- Entries(data, e);
      if |values| > 8 then Failure(InvalidData)
      else Whole(data, f, CovNotification(process, device, o, timeRemaining, values))
    case 8 =>
      if data == [] then Success(WhoIs(None, None))
      else
        var (low, a) :- Number(data, 0, true, 0);
        var (high, b) :- Number(data, a, true, 1);
        Whole(data, b, WhoIs(Some(low), Some(high)))
    case _ => Failure(InvalidData)
  }

  function Confirmed(service: byte, data: Slice, id: byte): Result<Apdu, DecodeError> {
    match service
    case 5 =>
      var (process, a) :- Number(data, 0, true, 0);
      var (o, b) :- Object(data, a, true, 1);
      var (confirmed, c) :- MaybeNumber(data, b, 2);
      var (lifetime, d) :- MaybeNumber(data, c, 3);
      if confirmed.Some? && confirmed.value > 1 then Failure(InvalidData)
      else Whole(data, d, SubscribeCov(process, o, confirmed == Some(1), lifetime, id))
    case 12 =>
      var s :- Subject(data);
      Whole(data, s.next, ReadProperty(s.o, s.p, s.index, id))
    case 15 =>
      var s :- Subject(data);
      var (v, a) :- Between(data, s.next, 3);
      var (priority, b) :- MaybeNumber(data, a, 4);
      if priority.Some? && priority.value > 0xFF then Failure(InvalidData)
      else Whole(data, b, WriteProperty(s.o, s.p, s.index, v,
                                        if priority.None? then None else Some(priority.value), id))
    case _ => Failure(InvalidData)
  }

  /** The acknowledgement of a ReadProperty. */
  function Acknowledged(data: Slice, id: byte): Result<Apdu, DecodeError> {
    var s :- Subject(data);
    var (v, a) :- Between(data, s.next, 3);
    Whole(data, a, ReadPropertyAck(s.o, s.p, s.index, v, id))
  }

  /** Class and code of an error, from the third octet on. */
  function Failed(data: Slice): Result<Apdu, DecodeError>
    requires |data| >= 3
  {
    var (errorClass, a) :- Number(data, 3, false, 9);
    var (errorCode, b) :- Number(data, a, false, 9);
    if errorClass > 0xFFFF || errorCode > 0xFFFF then Failure(InvalidData)
    else Whole(data, b, Error(data[1], data[2], errorClass, errorCode))
  }

  /** The longest message a confirmed request says its sender takes, by the low half of its second octet. */
  function LongestApdu(code: nibble): nat {
    match code
    case 0 => 50
    case 1 => 128
    case 2 => 206
    case 3 => 480
    case 4 => 1024
    case 5 => 1476
    case _ => 0
  }

  /** The PDU types 0 to 5, unsegmented; a request takes an unspecified number of segments, none of
      them more than 1476 octets. */
  function StandardApdu(data: Slice): Result<Apdu, DecodeError> {
    if |data| < 2 || data[0] % 0x10 != 0 then Failure(InvalidData)
    else
      match data[0] / 0x10
      case 0 =>
        if |data| < 4 || data[1] / 0x10 != 0 || LongestApdu(data[1] % 0x10) != 1476 then Failure(InvalidData)
        else Confirmed(data[3], data[4..], data[2])
      case 1 => Unconfirmed(data[1], data[2..])
      case 2 => if |data| != 3 then Failure(InvalidData) else Success(SimpleAck(data[1], data[2]))
      case 3 =>
        if |data| < 3 || data[2] != 12 then Failure(InvalidData)
        else Acknowledged(data[3..], data[1])
      case 5 =>
        if |data| < 3 then Failure(InvalidData)
        else Failed(data)
      case _ => Failure(InvalidData)
  }

  // ------------------------------------------------------------------ whatever is standard is read so

  lemma NumberIsRead(data: Slice, pos: u32, number: byte)
    ensures Number(data, pos, true, number).Success? ==>
              UnsignedField(data, pos, number) == Number(data, pos, true, number)
  {
    hide TagAt, TagIn, BeVal;
    TagReadExactly(data, pos);
    if Number(data, pos, true, number).Success? {
      var t := TagIn(data, pos).value;
      NumberSaid(data, pos + t.size, t.kind.n);
    }
  }

  lemma ObjectIsRead(data: Slice, pos: u32, number: byte)
    ensures Object(data, pos, true, number).Success? ==>
              ObjectField(data, pos, number) == Object(data, pos, true, number)
  {
    hide TagAt, TagIn, BeVal, ObjectAt;
    TagReadExactly(data, pos);
    if Object(data, pos, true, number).Success? {
      var t := TagIn(data, pos).value;
      ObjectThere(data, pos + t.size);
    }
  }

  lemma ObjectThere(data: Slice, pos: u32)
    requires pos + 4 <= |data| && BeVal(data[pos..pos + 4]) / 0x40_0000 in OBJECT_TYPES
    ensures var raw := BeVal(data[pos..pos + 4]);
            ObjectAt(data, pos) == Success(ObjectId(OBJECT_TYPES[raw / 0x40_0000], raw % 0x40_0000))
  {
    hide BeVal, FromCode;
    TypesAreNumbered(BeVal(data[pos..pos + 4]) / 0x40_0000);
    NumberSaid(data, pos, 4);
  }

  lemma MaybeNumberIsRead(data: Slice, pos: u32, number: byte)
    ensures MaybeNumber(data, pos, number).Success? ==>
              ContextUnsignedAt(data, pos, number) == MaybeNumber(data, pos, number)
  {
    NumberIsRead(data, pos, number);
    TagReadExactly(data, pos);
    hide TagAt, TagIn, Number, UnsignedAt;
  }

  lemma BracketIsRead(data: Slice, pos: u32, number: byte, kind: Kind)
    requires kind != Holds(0)
    ensures Bracket(data, pos, number, kind).Success? ==>
              BracketAt(data, pos, number, Lvt(kind)) == Bracket(data, pos, number, kind)
  {
    TagReadExactly(data, pos);
    hide TagAt, TagIn;
  }

  lemma NumberRange(c: seq<byte>)
    requires BeVal(c) <= 0xFFFF_FFFF
    ensures BeVal(c) % 0x1_0000_0000 == BeVal(c)
  {
    hide BeVal;
  }

  lemma SignedRange(c: seq<byte>, i: i32)
    requires -0x8000_0000 <= SignedVal(c) < 0x8000_0000 && (i - SignedVal(c)) % 0x1_0000_0000 == 0
    ensures i == SignedVal(c)
  {
    hide SignedVal;
  }

  lemma WholeTextIsRead(content: seq<byte>, r: Result<BacnetValue, DecodeError>)
    requires content != [] && |content| <= 65 && Utf8Valid(content[1..]) && SaysText(content, r)
    ensures r == Success(CharString(content[1..]))
  {
    hide Utf8Valid;
  }

  lemma ObjectValueIsRead(content: seq<byte>, r: Result<BacnetValue, DecodeError>)
    requires |content| == 4 && BeVal(content) / 0x40_0000 in OBJECT_TYPES && SaysObject(content, r)
    ensures r == Success(ObjectIdentifier(ObjectId(OBJECT_TYPES[BeVal(content) / 0x40_0000],
                                                   BeVal(content) % 0x40_0000)))
  {
    hide BeVal, FromCode;
    TypesAreNumbered(BeVal(content) / 0x40_0000);
  }

  /** The number and content of a value that is no Boolean. */
  lemma ValueSaid(data: Slice, pos: u32, number: byte)
    requires Content(data, pos, false, number).Success? && number != 1
    ensures var (c, next) := Content(data, pos, false, number).value;
            && (ValueAt(data, pos).Success? ==> ValueAt(data, pos).value.1 == next)
            && exists behind :: Says(number, c, behind, Only(ValueAt(data, pos)))
  {
    hide TagIn, Says, ValueAt, Only;
    ValueInAnyForm(data, pos, TagIn(data, pos).value);
  }

  lemma ValueIsRead(data: Slice, pos: u32)
    ensures Value(data, pos).Success? ==> ValueAt(data, pos) == Value(data, pos)
  {
    hide TagIn, ValueAt, BeVal, SignedVal, Utf8Valid, SaysText, SaysObject, CutTo64;
    if Value(data, pos).Success? {
      var t := TagIn(data, pos).value;
      if t.number == 1 {
        BooleanInAnyForm(data, pos, t);
      } else {
        ValueSaid(data, pos, t.number);
        var c := Content(data, pos, false, t.number).value.0;
        var r := Only(ValueAt(data, pos));
        match t.number
        case 0 =>
        case 2 => NumberRange(c);
        case 3 => SignedRange(c, r.value.i);
        case 4 =>
        case 7 => WholeTextIsRead(c, r);
        case 9 => NumberRange(c);
        case 12 => ObjectValueIsRead(c, r);
      }
    }
  }

  lemma BetweenIsRead(data: Slice, pos: u32, number: byte)
    ensures Between(data, pos, number).Success? ==> BracketedAt(data, pos, number) == Between(data, pos, number)
  {
    hide Bracket, BracketAt, Value, ValueAt;
    if Between(data, pos, number).Success? {
      BracketIsRead(data, pos, number, Opens);
      var a := Bracket(data, pos, number, Opens).value;
      ValueIsRead(data, a);
      BracketIsRead(data, Value(data, a).value.1, number, Closes);
    }
  }

  lemma SubjectIsRead(data: Slice)
    ensures Subject(data).Success? ==> ReferenceAt(data) == Subject(data)
  {
    hide Object, ObjectField, Number, UnsignedField, MaybeNumber, ContextUnsignedAt, PropertyFromCode;
    if Subject(data).Success? {
      ObjectIsRead(data, 0, 0);
      var a := Object(data, 0, true, 0).value.1;
      NumberIsRead(data, a, 1);
      var (code, b) := Number(data, a, true, 1).value;
      MaybeNumberIsRead(data, b, 2);
      PropertiesAreNumbered(code);
    }
  }

  lemma EntryIsRead(data: Slice, pos: u32)
    ensures Entry(data, pos).Success? ==> EntryAt(data, pos) == Entry(data, pos)
  {
    hide Number, UnsignedField, MaybeNumber, ContextUnsignedAt, Between, BracketedAt, PropertyFromCode;
    if Entry(data, pos).Success? {
      NumberIsRead(data, pos, 0);
      var (code, a) := Number(data, pos, true, 0).value;
      MaybeNumberIsRead(data, a, 1);
      var b := MaybeNumber(data, a, 1).value.1;
      BetweenIsRead(data, b, 2);
      PropertiesAreNumbered(code);
    }
  }

  lemma ClosingIsHere(data: Slice, pos: u32)
    ensures Bracket(data, pos, 4, Closes).Success? <==> ClosingHere(data, pos, 4)
  {
  }

  lemma {:induction false} EntriesAreRead(data: Slice, pos: u32, kept: Readings, rounds: nat)
    requires Entries(data, pos).Success?
    requires |kept| + |Entries(data, pos).value.0| <= 8 && |Entries(data, pos).value.0| <= rounds
    ensures var (list, end) := Entries(data, pos).value;
            && EntriesWithin(data, pos, kept, rounds).Success?
            && EntriesWithin(data, pos, kept, rounds).value.0 == kept + list
            && BracketAt(data, EntriesWithin(data, pos, kept, rounds).value.1, 4, 7) == Success(end)
    decreases |data| - pos
  {
    hide Bracket, BracketAt, Entry, EntryAt, ClosingHere;
    ClosingIsHere(data, pos);
    if Bracket(data, pos, 4, Closes).Success? {
      BracketIsRead(data, pos, 4, Closes);
      assert kept + [] == kept;
    } else {
      var (e, next) := Entry(data, pos).value;
      EntryIsRead(data, pos);
      EntriesAreRead(data, next, kept + [e], rounds - 1);
      Regroup(kept, [e], Entries(data, next).value.0);
    }
  }

  lemma ListIsRead(data: Slice, pos: u32, rounds: nat)
    requires Bracket(data, pos, 4, Opens).Success? && rounds >= 8
    requires Entries(data, Bracket(data, pos, 4, Opens).value).Success?
    requires |Entries(data, Bracket(data, pos, 4, Opens).value).value.0| <= 8
    ensures ListWithin(data, pos, rounds) == Success(Entries(data, Bracket(data, pos, 4, Opens).value).value.0)
  {
    hide Bracket, BracketAt, Entries, EntriesWithin;
    BracketIsRead(data, pos, 4, Opens);
    var a := Bracket(data, pos, 4, Opens).value;
    EntriesAreRead(data, a, [], rounds);
    assert [] + Entries(data, a).value.0 == Entries(data, a).value.0;
  }

  // ------------------------------------------------------------------ services

  lemma IAmIsRead(data: Slice)
    ensures Unconfirmed(0, data).Success? ==> IAmOf(data) == Unconfirmed(0, data)
  {
    hide Number, Object, Value, ValueAt;
    if Unconfirmed(0, data).Success? {
      ObjectAsValue(data, 0);
      var a := Object(data, 0, false, 12).value.1;
      NumberAsValue(data, a, 2);
      var b := Number(data, a, false, 2).value.1;
      NumberAsValue(data, b, 9);
      var c := Number(data, b, false, 9).value.1;
      NumberAsValue(data, c, 2);
    }
  }

  lemma ObjectAsValue(data: Slice, pos: u32)
    requires Object(data, pos, false, 12).Success?
    ensures var (o, next) := Object(data, pos, false, 12).value;
            ValueAt(data, pos) == Success((ObjectIdentifier(o), next))
  {
    ValueIsRead(data, pos);
    hide TagIn, ValueAt, BeVal;
  }

  lemma NumberAsValue(data: Slice, pos: u32, number: byte)
    requires (number == 2 || number == 9) && Number(data, pos, false, number).Success?
    ensures var (v, next) := Number(data, pos, false, number).value;
            ValueAt(data, pos) == Success((if number == 2 then UnsignedInt(v) else Enumerated(v), next))
  {
    ValueIsRead(data, pos);
    hide TagIn, ValueAt, BeVal;
  }

  lemma WhoIsIsRead(data: Slice)
    ensures Unconfirmed(8, data).Success? ==> WhoIsOf(data) == Unconfirmed(8, data)
  {
    hide Number, ContextUnsignedAt;
    if Unconfirmed(8, data).Success? && data != [] {
      NumberIsThere(data, 0, 0);
      NumberIsThere(data, Number(data, 0, true, 0).value.1, 1);
    }
  }

  lemma NumberIsThere(data: Slice, pos: u32, number: byte)
    requires Number(data, pos, true, number).Success?
    ensures var (v, next) := Number(data, pos, true, number).value;
            ContextUnsignedAt(data, pos, number) == Success((Some(v), next))
  {
    hide Number, ContextUnsignedAt;
    NumberIsRead(data, pos, number);
  }

  lemma NotificationIsRead(data: Slice, rounds: nat)
    requires rounds >= 8
    ensures Unconfirmed(2, data).Success? ==> CovNotificationWithin(data, rounds) == Unconfirmed(2, data)
  {
    hide Number, UnsignedField, Object, ObjectField, Bracket, Entries, ListWithin;
    if Unconfirmed(2, data).Success? {
      NumberIsRead(data, 0, 0);
      var a := Number(data, 0, true, 0).value.1;
      ObjectIsRead(data, a, 1);
      var b := Object(data, a, true, 1).value.1;
      ObjectIsRead(data, b, 2);
      var c := Object(data, b, true, 2).value.1;
      NumberIsRead(data, c, 3);
      ListIsRead(data, Number(data, c, true, 3).value.1, rounds);
    }
  }

  lemma SubscribeCovIsRead(data: Slice, id: byte)
    ensures Confirmed(5, data, id).Success? ==> SubscribeCovOf(data, id) == Confirmed(5, data, id)
  {
    hide Number, UnsignedField, Object, ObjectField, MaybeNumber, ContextUnsignedAt;
    if Confirmed(5, data, id).Success? {
      NumberIsRead(data, 0, 0);
      var a := Number(data, 0, true, 0).value.1;
      ObjectIsRead(data, a, 1);
      var b := Object(data, a, true, 1).value.1;
      MaybeNumberIsRead(data, b, 2);
      MaybeNumberIsRead(data, MaybeNumber(data, b, 2).value.1, 3);
    }
  }

  lemma PropertyRequestsAreRead(data: Slice, id: byte)
    ensures Confirmed(12, data, id).Success? ==> ReadPropertyOf(data, id) == Confirmed(12, data, id)
    ensures Confirmed(15, data, id).Success? ==> WritePropertyOf(data, id) == Confirmed(15, data, id)
  {
    hide Subject, ReferenceAt, Between, BracketedAt, MaybeNumber, ContextUnsignedAt;
    SubjectIsRead(data);
    if Confirmed(15, data, id).Success? {
      var next := Subject(data).value.next;
      BetweenIsRead(data, next, 3);
      MaybeNumberIsRead(data, Between(data, next, 3).value.1, 4);
    }
  }

  lemma AcknowledgementIsRead(data: Slice, id: byte)
    ensures Acknowledged(data, id).Success? ==> ReadPropertyAckOf(data, id) == Acknowledged(data, id)
  {
    hide Subject, ReferenceAt, Between, BracketedAt;
    SubjectIsRead(data);
    if Acknowledged(data, id).Success? {
      BetweenIsRead(data, Subject(data).value.next, 3);
    }
  }

  lemma NumberUnderAnyTag(data: Slice, pos: u32)
    requires Number(data, pos, false, 9).Success?
    ensures NumberAt(data, pos) == Number(data, pos, false, 9)
  {
    hide TagAt, TagIn, BeVal;
    TagReadExactly(data, pos);
    var t := TagIn(data, pos).value;
    NumberSaid(data, pos + t.size, t.kind.n);
    NumberRange(data[pos + t.size..pos + t.size + t.kind.n]);
  }

  lemma ErrorIsRead(data: Slice)
    requires |data| >= 3
    ensures Failed(data).Success? ==> ErrorOf(data) == Failed(data)
  {
    hide Number, NumberAt;
    if Failed(data).Success? {
      NumberUnderAnyTag(data, 3);
      NumberUnderAnyTag(data, Number(data, 3, false, 9).value.1);
    }
  }

  /** Every message in the standard's form is decoded as what it says. */
  lemma StandardIsRead(data: Slice)
    requires StandardApdu(data).Success?
    ensures ApduOf(data) == StandardApdu(data)
  {
    hide Unconfirmed, Confirmed, Acknowledged, Failed, WhoIsOf, IAmOf, CovNotificationWithin, SubscribeCovOf,
         ReadPropertyOf, ReadPropertyAckOf, WritePropertyOf, ErrorOf;
    if data[0] / 0x10 == 1 {
      IAmIsRead(data[2..]);
      WhoIsIsRead(data[2..]);
      NotificationIsRead(data[2..], |data| + 8);
      ThreeServices(data[1], data[2..]);
    } else if data[0] / 0x10 == 0 {
      SubscribeCovIsRead(data[4..], data[2]);
      PropertyRequestsAreRead(data[4..], data[2]);
      ThreeRequests(data[3], data[4..], data[2]);
    } else if data[0] / 0x10 == 3 {
      AcknowledgementIsRead(data[3..], data[1]);
    } else if data[0] / 0x10 == 5 {
      ErrorIsRead(data);
    }
  }

  lemma ThreeServices(service: byte, data: Slice)
    requires Unconfirmed(service, data).Success?
    ensures service == 0 || service == 2 || service == 8
  {
  }

  lemma ThreeRequests(service: byte, data: Slice, id: byte)
    requires Confirmed(service, data, id).Success?
    ensures service == 5 || service == 12 || service == 15
  {
  }
}
