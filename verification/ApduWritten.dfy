/** What bridge-core/src/apdu.rs writes is what the standard lays out: read with the standard's numbers it
    is the message it was written for, in normal form. */
module ApduWritten {
  import opened Words
  import opened Octets
  import opened Numbers
  import opened Bacnet
  import opened ApduValues
  import opened ApduForms
  import opened ApduMessages
  import opened ApduTheorems
  import opened ApduStandard

  // ------------------------------------------------------------------ elements

  lemma TagWritten(data: Slice, pos: u32, number: nibble, context: bool, lvt: nat)
    requires number < 15 && lvt <= 7 && lvt != 5 && (context || lvt <= 4)
    requires HasAt(data, pos, [TagOctet(number, context, lvt)])
    ensures var kind := if lvt == 6 then Opens else if lvt == 7 then Closes else Holds(lvt);
            TagIn(data, pos) == Some(StandardTag(number, context, kind, 1))
  {
    HasIndex(data, pos, [TagOctet(number, context, lvt)], 0);
    HasFits(data, pos, [TagOctet(number, context, lvt)]);
    TagOctetParts(number, context, lvt);
  }

  lemma ContentWritten(data: Slice, pos: u32, number: nibble, context: bool, content: seq<byte>)
    requires number < 15 && |content| <= 4 && HasAt(data, pos, Element(number, context, content))
    ensures Content(data, pos, context, number) == Success((content, pos + 1 + |content|))
    ensures TagIn(data, pos) == Some(StandardTag(number, context, Holds(|content|), 1))
  {
    hide HasAt, TagIn;
    HasConcat(data, pos, [TagOctet(number, context, |content|)], content);
    TagWritten(data, pos, number, context, |content|);
    HasSlice(data, pos + 1, content);
  }

  lemma NumberWritten(data: Slice, pos: u32, number: nibble, context: bool, v: u32)
    requires number < 15 && HasAt(data, pos, UnsignedElement(number, context, v))
    ensures Number(data, pos, context, number) == Success((v, pos + |UnsignedElement(number, context, v)|))
  {
    hide HasAt, Content, BeVal, BeBytes, TagIn;
    var n := UnsignedLength(v);
    LengthFits(v);
    BeRoundTrip(v, n);
    ContentWritten(data, pos, number, context, BeBytes(v, n));
  }

  lemma ObjectWritten(data: Slice, pos: u32, number: nibble, context: bool, o: ObjectId)
    requires number < 15 && HasAt(data, pos, ObjectElement(number, context, o))
    ensures Object(data, pos, context, number) == Success((NormalObject(o), pos + 5))
  {
    hide HasAt, Content, BeVal, BeBytes, TagIn, FromCode, ToRaw;
    LengthFits(ToRaw(o));
    BeRoundTrip(ToRaw(o), 4);
    ContentWritten(data, pos, number, context, BeBytes(ToRaw(o), 4));
    RawOfRaw(o);
    TypesAreNumbered(ToRaw(o) / 0x40_0000);
  }

  lemma BracketsWritten(data: Slice, pos: u32, number: nibble)
    requires number < 15
    ensures HasAt(data, pos, Opening(number)) ==> Bracket(data, pos, number, Opens) == Success(pos + 1)
    ensures HasAt(data, pos, Closing(number)) ==> Bracket(data, pos, number, Closes) == Success(pos + 1)
  {
    hide HasAt, TagIn;
    if HasAt(data, pos, Opening(number)) {
      assert TagOctet(number, true, 6) == number * 16 + 0x0E;
      TagWritten(data, pos, number, true, 6);
    }
    if HasAt(data, pos, Closing(number)) {
      assert TagOctet(number, true, 7) == number * 16 + 0x0F;
      TagWritten(data, pos, number, true, 7);
    }
  }

  lemma MaybeNumberWritten(data: Slice, pos: u32, number: nibble, v: Option<u32>)
    requires number < 15 && HasAt(data, pos, Optional(number, v))
    requires v.None? && pos != |data| ==> TagIn(data, pos).Some? && TagIn(data, pos).value.number != number
    ensures MaybeNumber(data, pos, number) == Success((v, pos + |Optional(number, v)|))
  {
    hide HasAt, TagIn, Content, Number, UnsignedElement;
    if v.Some? {
      NumberWritten(data, pos, number, true, v.value);
      NumberHasTag(data, pos, number);
    }
  }

  lemma NumberHasTag(data: Slice, pos: u32, number: byte)
    requires Number(data, pos, true, number).Success?
    ensures pos < |data| && TagIn(data, pos).Some? && TagIn(data, pos).value.number == number
  {
    hide TagIn, BeVal;
  }

  // ------------------------------------------------------------------ values

  lemma TextInParts(s: Text64)
    ensures TextElement(s) == TextHead(|s|) + s
    ensures |TextHead(|s|)| >= 2 && TextHead(|s|)[|TextHead(|s|)| - 1] == 0x00
  {
    hide Utf8Valid;
  }

  lemma ContentBehindTag(data: Slice, pos: u32, number: byte, n: u32, size: nat)
    requires TagIn(data, pos) == Some(StandardTag(number, false, Holds(n), size)) && pos + size + n <= |data|
    ensures Content(data, pos, false, number) == Success((data[pos + size..pos + size + n], pos + size + n))
  {
    hide TagIn;
  }

  lemma FirstThenRest(data: seq<byte>, a: nat, first: byte, s: seq<byte>)
    requires a + 1 + |s| <= |data| && data[a] == first && data[a + 1..a + 1 + |s|] == s
    ensures data[a..a + 1 + |s|] == [first] + s
  {
    assert data[a..a + 1 + |s|] == [data[a]] + data[a + 1..a + 1 + |s|];
  }

  lemma TextWritten(data: Slice, pos: u32, s: Text64)
    requires HasAt(data, pos, TextElement(s))
    ensures Content(data, pos, false, 7) == Success(([0x00] + s, pos + |TextElement(s)|))
  {
    hide HasAt, Utf8Valid, TagIn, TextElement, TextHead, Content;
    var head := TextHead(|s|);
    TextInParts(s);
    HasConcat(data, pos, head, s);
    TextTagIn(data, pos, |s|);
    HasIndex(data, pos, head, |head| - 1);
    HasSlice(data, pos + |head|, s);
    ContentBehindTag(data, pos, 7, |s| + 1, |head| - 1);
    FirstThenRest(data, pos + |head| - 1, 0x00, s);
  }

  lemma TextTagIn(data: Slice, pos: u32, n: nat)
    requires n <= 64 && HasAt(data, pos, TextHead(n))
    ensures TagIn(data, pos) == Some(StandardTag(7, false, Holds(n + 1), |TextHead(n)| - 1))
  {
    hide HasAt;
    HasIndex(data, pos, TextHead(n), 0);
    HasIndex(data, pos, TextHead(n), 1);
    HasFits(data, pos, TextHead(n));
  }

  /** A value by its content, once its tag is known. */
  lemma ContentHasTag(data: Slice, pos: u32, number: byte)
    requires Content(data, pos, false, number).Success?
    ensures TagIn(data, pos).Some? && TagIn(data, pos).value.number == number && !TagIn(data, pos).value.context
            && TagIn(data, pos).value.kind.Holds?
  {
    hide TagIn;
  }

  lemma NumberHasContent(data: Slice, pos: u32, number: byte)
    requires Number(data, pos, false, number).Success?
    ensures Content(data, pos, false, number).Success?
            && Content(data, pos, false, number).value.1 == Number(data, pos, false, number).value.1
  {
    hide Content, BeVal;
  }

  lemma NumberValue(data: Slice, pos: u32, number: byte)
    requires (number == 2 || number == 9) && Number(data, pos, false, number).Success?
    ensures var (v, next) := Number(data, pos, false, number).value;
            Value(data, pos) == Success((if number == 2 then UnsignedInt(v) else Enumerated(v), next))
  {
    NumberHasContent(data, pos, number);
    ContentHasTag(data, pos, number);
    hide TagIn, Content, Number;
  }

  lemma RealWritten(data: Slice, pos: u32, bits: u32)
    requires HasAt(data, pos, Element(4, false, BeBytes(bits, 4)))
    ensures Value(data, pos) == Success((Real(bits), pos + 5))
  {
    hide HasAt, TagIn, BeVal, BeBytes;
    LengthFits(bits);
    BeRoundTrip(bits, 4);
    ContentWritten(data, pos, 4, false, BeBytes(bits, 4));
  }

  lemma SignedWritten(data: Slice, pos: u32, i: i32)
    requires HasAt(data, pos, Element(3, false, SignedContent(i)))
    ensures Value(data, pos) == Success((SignedInt(i), pos + |Element(3, false, SignedContent(i))|))
  {
    hide HasAt, TagIn, SignedVal, SignedContent;
    ContentWritten(data, pos, 3, false, SignedContent(i));
    SignedContentSays(i);
  }

  lemma ObjectValue(data: Slice, pos: u32)
    requires Object(data, pos, false, 12).Success?
    ensures var (o, next) := Object(data, pos, false, 12).value;
            Value(data, pos) == Success((ObjectIdentifier(o), next))
  {
    ObjectHasContent(data, pos);
    ContentHasTag(data, pos, 12);
    hide TagIn, Content, Object;
  }

  lemma ObjectHasContent(data: Slice, pos: u32)
    requires Object(data, pos, false, 12).Success?
    ensures Content(data, pos, false, 12).Success?
            && Content(data, pos, false, 12).value.1 == Object(data, pos, false, 12).value.1
  {
    hide Content, BeVal;
  }

  lemma PlainWritten(data: Slice, pos: u32, v: BacnetValue)
    requires (v.Null? || v.Boolean?) && HasAt(data, pos, ValueBytes(v))
    ensures Value(data, pos) == Success((v, pos + 1))
  {
    hide HasAt, TagIn;
    var number: nibble := if v.Null? then 0 else 1;
    var lvt := if v.Boolean? && v.b then 1 else 0;
    assert TagOctet(number, false, lvt) == number * 16 + lvt;
    TagWritten(data, pos, number, false, lvt);
    HasFits(data, pos, ValueBytes(v));
  }

  /** Every value is written as the standard has it. */
  lemma ValueWritten(data: Slice, pos: u32, v: BacnetValue)
    requires HasAt(data, pos, ValueBytes(v))
    ensures Value(data, pos) == Success((NormalValue(v), pos + |ValueBytes(v)|))
  {
    hide HasAt, TagIn, Value, Content, Number, Object, NormalObject, UnsignedElement, ObjectElement, SignedContent,
         TextElement, BeBytes;
    match v
    case Null => PlainWritten(data, pos, v);
    case Boolean(_) => PlainWritten(data, pos, v);
    case UnsignedInt(u) =>
      NumberWritten(data, pos, 2, false, u);
      NumberValue(data, pos, 2);
    case SignedInt(i) => SignedWritten(data, pos, i);
    case Real(bits) => RealWritten(data, pos, bits);
    case CharString(s) =>
      TextWritten(data, pos, s);
      TextValue(data, pos, s);
    case Enumerated(e) =>
      NumberWritten(data, pos, 9, false, e);
      NumberValue(data, pos, 9);
    case ObjectIdentifier(o) =>
      ObjectWritten(data, pos, 12, false, o);
      ObjectValue(data, pos);
  }

  lemma TextValue(data: Slice, pos: u32, s: Text64)
    requires Content(data, pos, false, 7).Success? && Content(data, pos, false, 7).value.0 == [0x00] + s
    ensures Value(data, pos) == Success((CharString(s), Content(data, pos, false, 7).value.1))
  {
    ContentHasTag(data, pos, 7);
    hide TagIn, Content, Utf8Valid;
    assert ([0x00] + s)[1..] == s;
  }

  lemma BetweenWritten(data: Slice, pos: u32, number: nibble, v: BacnetValue)
    requires number < 15 && HasAt(data, pos, Bracketed(number, v))
    ensures Between(data, pos, number) == Success((NormalValue(v), pos + |Bracketed(number, v)|))
    ensures TagIn(data, pos).Some? && TagIn(data, pos).value.number == number
  {
    hide HasAt, Bracket, Value, ValueBytes, NormalValue, TagIn;
    HasConcat(data, pos, Opening(number) + ValueBytes(v), Closing(number));
    HasConcat(data, pos, Opening(number), ValueBytes(v));
    BracketsWritten(data, pos, number);
    BracketHasTag(data, pos, number);
    ValueWritten(data, pos + 1, v);
    BracketsWritten(data, pos + 1 + |ValueBytes(v)|, number);
  }

  lemma BracketHasTag(data: Slice, pos: u32, number: byte)
    requires Bracket(data, pos, number, Opens).Success?
    ensures TagIn(data, pos).Some? && TagIn(data, pos).value.number == number
  {
    hide TagIn;
  }

  lemma SubjectWritten(data: Slice, o: ObjectId, p: PropertyId, index: Option<u32>)
    requires HasAt(data, 0, PropertyRef(o, p, index))
    requires var n := |PropertyRef(o, p, index)|;
             index.None? && n != |data| ==> TagIn(data, n).Some? && TagIn(data, n).value.number != 2
    ensures Subject(data)
            == Success(Reference(NormalObject(o), NormalProperty(p), index, |PropertyRef(o, p, index)|))
  {
    hide HasAt, Object, Number, MaybeNumber, Optional, TagIn, PropertyFromCode, PropertyCode, UnsignedElement,
         ObjectElement;
    var a, b, c := ObjectElement(0, true, o), UnsignedElement(1, true, PropertyCode(p)), Optional(2, index);
    HasConcat(data, 0, a + b, c);
    HasConcat(data, 0, a, b);
    ObjectWritten(data, 0, 0, true, o);
    NumberWritten(data, 5, 1, true, PropertyCode(p));
    PropertiesAreNumbered(PropertyCode(p));
    NoOptional(data, 5 + |b|, 2);
    MaybeNumberWritten(data, 5 + |b|, 2, index);
  }

  lemma EntryWritten(data: Slice, pos: u32, e: Reading)
    requires HasAt(data, pos, EntryBytes(e))
    ensures Entry(data, pos) == Success((NormalReading(e), pos + |EntryBytes(e)|))
    ensures Bracket(data, pos, 4, Closes).Failure?
  {
    hide HasAt, Number, MaybeNumber, Between, Bracketed, TagIn, NormalValue, PropertyFromCode, PropertyCode,
         UnsignedElement, Bracket;
    var first := UnsignedElement(0, true, PropertyCode(e.property));
    HasConcat(data, pos, first, Bracketed(2, e.value));
    NumberWritten(data, pos, 0, true, PropertyCode(e.property));
    NumberIsNoBracket(data, pos);
    BetweenWritten(data, pos + |first|, 2, e.value);
    NotThere(data, pos + |first|, 1);
    PropertiesAreNumbered(PropertyCode(e.property));
  }

  lemma NumberIsNoBracket(data: Slice, pos: u32)
    requires Number(data, pos, true, 0).Success?
    ensures Bracket(data, pos, 4, Closes).Failure?
  {
    hide TagIn, BeVal;
  }

  lemma NotThere(data: Slice, pos: u32, number: byte)
    requires TagIn(data, pos).Some? && TagIn(data, pos).value.number != number
    ensures MaybeNumber(data, pos, number) == Success((None, pos))
  {
    hide TagIn;
  }

  lemma EntriesReach(data: Slice, pos: u32, values: Readings, k: nat)
    requires k <= |values| && HasAt(data, pos, EntriesBytes(values) + Closing(4))
    ensures pos + |EntriesBytes(values[..k])| <= pos + |EntriesBytes(values)| < |data|
  {
    hide HasAt, EntriesBytes;
    HasFits(data, pos, EntriesBytes(values) + Closing(4));
    EntriesPrefix(values, k);
  }

  lemma NoMoreEntries(data: Slice, pos: u32)
    requires Bracket(data, pos, 4, Closes).Success?
    ensures Entries(data, pos) == Success(([], Bracket(data, pos, 4, Closes).value))
  {
    hide Bracket, Entry;
  }

  lemma OneMoreEntry(data: Slice, pos: u32, e: Reading, next: u32, rest: seq<Reading>, end: u32)
    requires Bracket(data, pos, 4, Closes).Failure? && Entry(data, pos) == Success((e, next))
    requires Entries(data, next) == Success((rest, end))
    ensures Entries(data, pos) == Success(([e] + rest, end))
  {
    hide Bracket, Entry;
  }

  /** Entries from number `k` on. */
  lemma {:induction false} EntriesWritten(data: Slice, pos: u32, values: Readings, k: nat)
    requires k <= |values| && HasAt(data, pos, EntriesBytes(values) + Closing(4))
    ensures pos + |EntriesBytes(values[..k])| <= |data|
    ensures Entries(data, pos + |EntriesBytes(values[..k])|)
            == Success((NormalReadings(values)[k..], pos + |EntriesBytes(values)| + 1))
    decreases |values| - k
  {
    hide *;
    EntriesReach(data, pos, values, k);
    HasConcat(data, pos, EntriesBytes(values), Closing(4));
    var start := pos + |EntriesBytes(values[..k])|;
    if k == |values| {
      assert values[..k] == values;
      BracketsWritten(data, start, 4);
      NoMoreEntries(data, start);
      assert NormalReadings(values)[k..] == [];
    } else {
      EntriesReach(data, pos, values, k + 1);
      EntriesWritten(data, pos, values, k + 1);
      EntriesSnoc(values, k);
      EntryStands(data, pos, values, k);
      EntryWritten(data, start, values[k]);
      NormalReadingsFrom(values, k);
      var next := pos + |EntriesBytes(values[..k + 1])|;
      OneMoreEntry(data, start, NormalReading(values[k]), next, NormalReadings(values)[k + 1..],
                   pos + |EntriesBytes(values)| + 1);
    }
  }

  lemma EntryStands(data: Slice, pos: u32, values: Readings, k: nat)
    requires k < |values| && HasAt(data, pos, EntriesBytes(values))
    ensures HasAt(data, pos + |EntriesBytes(values[..k])|, EntryBytes(values[k]))
    ensures pos + |EntriesBytes(values[..k])| < |data|
  {
    hide HasAt, EntriesBytes, EntryBytes;
    EntriesPrefix(values, k + 1);
    EntriesSnoc(values, k);
    var upTo := EntriesBytes(values[..k + 1]);
    HasPart(data, pos, EntriesBytes(values), 0, |upTo|);
    HasConcat(data, pos, EntriesBytes(values[..k]), EntryBytes(values[k]));
    HasFits(data, pos + |EntriesBytes(values[..k])|, EntryBytes(values[k]));
    EntryIsSome(values[k]);
  }

  lemma EntryIsSome(e: Reading)
    ensures EntryBytes(e) != []
  {
    hide UnsignedElement, Bracketed;
    BracketedIsSome(2, e.value);
  }

  lemma BracketedIsSome(number: nibble, v: BacnetValue)
    ensures Bracketed(number, v) != []
  {
    hide ValueBytes;
  }

  lemma {:induction false} EntriesPrefix(values: seq<Reading>, k: nat)
    requires k <= |values|
    ensures var all, some := EntriesBytes(values), EntriesBytes(values[..k]); |some| <= |all| && all[0..|some|] == some
    decreases |values|
  {
    hide EntryBytes;
    if k == |values| {
      assert values[..k] == values;
    } else {
      var n := |values| - 1;
      EntriesPrefix(values[..n], k);
      assert values[..n][..k] == values[..k];
      EntriesSnoc(values, n);
      assert values[..n + 1] == values;
    }
  }

  lemma NormalReadingsFrom(values: seq<Reading>, k: nat)
    requires k < |values|
    ensures NormalReadings(values)[k..] == [NormalReading(values[k])] + NormalReadings(values)[k + 1..]
  {
    hide NormalReadings, NormalReading;
    NormalReadingsAt(values, k);
    OneAndTheRest(NormalReadings(values), k);
  }

  lemma OneAndTheRest<T>(s: seq<T>, k: nat)
    requires k < |s|
    ensures s[k..] == [s[k]] + s[k + 1..]
  {
  }

  lemma {:induction false} NormalReadingsAt(values: seq<Reading>, k: nat)
    requires k < |values|
    ensures NormalReadings(values)[k] == NormalReading(values[k])
  {
    hide NormalReading;
    if k < |values| - 1 {
      NormalReadingsAt(values[..|values| - 1], k);
    }
  }

  // ------------------------------------------------------------------ services

  lemma IAmWritten(device: ObjectId, maxApdu: u32, segmentation: byte, vendor: u16)
    ensures var m := IAm(device, maxApdu, segmentation, vendor); Unconfirmed(0, Body(m)) == Success(Normal(m))
  {
    hide Number, Object, UnsignedElement, ObjectElement, HasAt, NormalObject;
    var a, b, c, d := ObjectElement(12, false, device), UnsignedElement(2, false, maxApdu),
        UnsignedElement(9, false, segmentation), UnsignedElement(2, false, vendor);
    var data: Slice := Body(IAm(device, maxApdu, segmentation, vendor));
    assert data == a + b + c + d + [];
    FiveParts(a, b, c, d, []);
    ObjectWritten(data, 0, 12, false, device);
    NumberWritten(data, 5, 2, false, maxApdu);
    NumberWritten(data, 5 + |b|, 9, false, segmentation);
    NumberWritten(data, 5 + |b| + |c|, 2, false, vendor);
  }

  lemma WhoIsWritten(low: Option<u32>, high: Option<u32>)
    ensures var m := WhoIs(low, high); Unconfirmed(8, Body(m)) == Success(Normal(m))
  {
    hide Number, UnsignedElement, HasAt;
    if low.Some? && high.Some? {
      var a, b := UnsignedElement(0, true, low.value), UnsignedElement(1, true, high.value);
      var data: Slice := a + b;
      HasFront(a, b);
      NumberWritten(data, 0, 0, true, low.value);
      NumberWritten(data, |a|, 1, true, high.value);
    }
  }

  lemma ListWritten(data: Slice, pos: u32, values: Readings)
    requires HasAt(data, pos, ListBytes(values))
    ensures Bracket(data, pos, 4, Opens) == Success(pos + 1)
    ensures Entries(data, pos + 1) == Success((NormalReadings(values), pos + |ListBytes(values)|))
  {
    hide HasAt, EntriesBytes, Bracket, Entries, NormalReadings;
    Regroup(Opening(4), EntriesBytes(values), Closing(4));
    HasConcat(data, pos, Opening(4), EntriesBytes(values) + Closing(4));
    BracketsWritten(data, pos, 4);
    HasFits(data, pos, Opening(4));
    EntriesWritten(data, pos + 1, values, 0);
    NoEntries(values);
    assert NormalReadings(values)[0..] == NormalReadings(values);
  }

  lemma NotificationWritten(process: u32, device: ObjectId, o: ObjectId, timeRemaining: u32, values: Readings)
    ensures var m := CovNotification(process, device, o, timeRemaining, values);
            Unconfirmed(2, Body(m)) == Success(Normal(m))
  {
    hide Number, Object, Bracket, Entries, UnsignedElement, ObjectElement, HasAt, NormalObject, NormalReadings,
         ListBytes, NotificationBytes, Body, Normal;
    NotificationParts(process, device, o, timeRemaining, values);
    NotificationBody(process, device, o, timeRemaining, values);
    var data := Body(CovNotification(process, device, o, timeRemaining, values));
    var n, k := |UnsignedElement(0, true, process)|, |UnsignedElement(3, true, timeRemaining)|;
    NumberWritten(data, 0, 0, true, process);
    ObjectWritten(data, n, 1, true, device);
    ObjectWritten(data, n + 5, 2, true, o);
    NumberWritten(data, n + 10, 3, true, timeRemaining);
    ListWritten(data, n + 10 + k, values);
    NotificationSize(process, device, o, timeRemaining, values);
  }

  lemma NotificationSize(process: u32, device: ObjectId, o: ObjectId, timeRemaining: u32, values: Readings)
    ensures |NotificationBytes(process, device, o, timeRemaining, values)|
            == |UnsignedElement(0, true, process)| + 10 + |UnsignedElement(3, true, timeRemaining)|
               + |ListBytes(values)|
  {
    hide UnsignedElement, ObjectElement, ListBytes;
  }

  lemma SubscribeCovWritten(process: u32, o: ObjectId, confirmed: bool, lifetime: Option<u32>, id: byte)
    ensures var m := SubscribeCov(process, o, confirmed, lifetime, id); Confirmed(5, Body(m), id) == Success(Normal(m))
  {
    hide Number, Object, MaybeNumber, UnsignedElement, ObjectElement, Optional, HasAt, NormalObject, TagIn, Body,
         Normal;
    var flag := if confirmed then 1 else 0;
    SubscriptionBody(process, o, confirmed, lifetime, id);
    var a, b, c, d := UnsignedElement(0, true, process), ObjectElement(1, true, o), UnsignedElement(2, true, flag),
        Optional(3, lifetime);
    var data: Slice := Body(SubscribeCov(process, o, confirmed, lifetime, id));
    assert data == a + b + c + d + [];
    FiveParts(a, b, c, d, []);
    NumberWritten(data, 0, 0, true, process);
    ObjectWritten(data, |a|, 1, true, o);
    OneOptional(2, flag);
    MaybeNumberWritten(data, |a| + 5, 2, Some(flag));
    NoOptional(data, |a| + 5 + |c|, 3);
    MaybeNumberWritten(data, |a| + 5 + |c|, 3, lifetime);
  }

  lemma SubscriptionBody(process: u32, o: ObjectId, confirmed: bool, lifetime: Option<u32>, id: byte)
    ensures var m, flag := SubscribeCov(process, o, confirmed, lifetime, id), if confirmed then 1 else 0;
            && Body(m) == UnsignedElement(0, true, process) + ObjectElement(1, true, o)
                          + UnsignedElement(2, true, flag) + Optional(3, lifetime)
            && Normal(m) == SubscribeCov(process, NormalObject(o), confirmed, lifetime, id)
  {
    hide UnsignedElement, ObjectElement, Optional, NormalObject;
  }

  lemma OneOptional(number: nibble, v: u32)
    ensures Optional(number, Some(v)) == UnsignedElement(number, true, v)
  {
  }

  lemma ReadPropertyWritten(o: ObjectId, p: PropertyId, index: Option<u32>, id: byte)
    ensures var m := ReadProperty(o, p, index, id); Confirmed(12, Body(m), id) == Success(Normal(m))
  {
    hide Subject, PropertyRef, HasAt, NormalObject, NormalProperty;
    var data := PropertyRef(o, p, index);
    HasWhole(data);
    SubjectWritten(data, o, p, index);
  }

  lemma AcknowledgementWritten(o: ObjectId, p: PropertyId, index: Option<u32>, value: BacnetValue, id: byte)
    ensures var m := ReadPropertyAck(o, p, index, value, id); Acknowledged(Body(m), id) == Success(Normal(m))
  {
    hide Subject, Between, PropertyRef, Bracketed, HasAt, NormalObject, NormalProperty, NormalValue, TagIn;
    var ref, v := PropertyRef(o, p, index), Bracketed(3, value);
    var data: Slice := ref + v;
    HasFront(ref, v);
    BetweenWritten(data, |ref|, 3, value);
    SubjectWritten(data, o, p, index);
  }

  lemma WritePropertyWritten(o: ObjectId, p: PropertyId, index: Option<u32>, value: BacnetValue,
                             priority: Option<byte>, id: byte)
    ensures var m := WriteProperty(o, p, index, value, priority, id); Confirmed(15, Body(m), id) == Success(Normal(m))
  {
    hide Subject, Between, MaybeNumber, PropertyRef, Bracketed, Optional, HasAt, NormalObject, NormalProperty,
         NormalValue, TagIn;
    var wide := if priority.None? then None else Some(priority.value);
    var ref, v, last := PropertyRef(o, p, index), Bracketed(3, value), Optional(4, wide);
    var data: Slice := ref + v + last;
    HasFront(ref + v, last);
    HasConcat(data, 0, ref, v);
    BetweenWritten(data, |ref|, 3, value);
    SubjectWritten(data, o, p, index);
    NoOptional(data, |ref| + |v|, 4);
    MaybeNumberWritten(data, |ref| + |v|, 4, wide);
  }

  lemma ErrorWritten(data: Slice, errorClass: u16, errorCode: u16)
    requires |data| >= 3 && data[3..] == UnsignedElement(9, false, errorClass) + UnsignedElement(9, false, errorCode)
    ensures Failed(data) == Success(Error(data[1], data[2], errorClass, errorCode))
  {
    hide Number, UnsignedElement, HasAt;
    var a, b := UnsignedElement(9, false, errorClass), UnsignedElement(9, false, errorCode);
    assert data == data[..3] + (a + b);
    HasFront(data[..3], a + b);
    HasConcat(data, 3, a, b);
    NumberWritten(data, 3, 9, false, errorClass);
    NumberWritten(data, 3 + |a|, 9, false, errorCode);
  }

  /** What is written for a message, read by the standard, is that message in normal form. */
  lemma WrittenIsStandard(m: Apdu)
    requires !m.Unknown?
    ensures StandardApdu(Wire(m)) == Success(Normal(m))
  {
    hide Body, Wire, Unconfirmed, Confirmed, Acknowledged, Failed, Normal;
    HeadThenBody(m);
    match m
    case WhoIs(low, high) => WhoIsWritten(low, high);
    case IAm(device, maxApdu, segmentation, vendor) => IAmWritten(device, maxApdu, segmentation, vendor);
    case ReadProperty(o, p, index, id) => ReadPropertyWritten(o, p, index, id);
    case ReadPropertyAck(o, p, index, value, id) => AcknowledgementWritten(o, p, index, value, id);
    case WriteProperty(o, p, index, value, priority, id) => WritePropertyWritten(o, p, index, value, priority, id);
    case SubscribeCov(process, o, confirmed, lifetime, id) =>
      SubscribeCovWritten(process, o, confirmed, lifetime, id);
    case CovNotification(process, device, o, timeRemaining, values) =>
      NotificationWritten(process, device, o, timeRemaining, values);
    case SimpleAck(_, _) =>
      NormalOthers(m);
      AckSize(m);
    case Error(_, _, errorClass, errorCode) =>
      ErrorBody(m);
      ErrorWritten(Wire(m), errorClass, errorCode);
      NormalOthers(m);
  }

  lemma AckSize(m: Apdu)
    requires m.SimpleAck?
    ensures |Wire(m)| == 3
  {
  }
}
