/** Tags and values of the BACnet application layer (clause 20.2 of ASHRAE 135) as
    bridge-core/src/apdu.rs writes and reads them. */
module ApduValues {
  import opened Words
  import opened Octets
  import opened Numbers
  import opened Bacnet

  // ------------------------------------------------------------------ what is written

  type nibble = x: int | 0 <= x < 16

  /** A tag's first octet: number, class, and length or kind. */
  function TagOctet(number: nibble, context: bool, lvt: int): byte
    requires 0 <= lvt < 8
  {
    number * 16 + (if context then 8 else 0) + lvt
  }

  function Element(number: nibble, context: bool, content: seq<byte>): (s: seq<byte>)
    requires |content| <= 4
    ensures |s| == 1 + |content|
  {
    [TagOctet(number, context, |content|)] + content
  }

  /** A number in the fewest octets. */
  function UnsignedElement(number: nibble, context: bool, v: u32): (s: seq<byte>)
    ensures |s| <= 5
  {
    Element(number, context, BeBytes(v, UnsignedLength(v)))
  }

  function ObjectElement(number: nibble, context: bool, o: ObjectId): (s: seq<byte>)
    ensures |s| == 5
  {
    Element(number, context, BeBytes(ToRaw(o), 4))
  }

  function Opening(number: nibble): seq<byte> {
    [number * 16 + 0x0E]
  }

  function Closing(number: nibble): seq<byte> {
    [number * 16 + 0x0F]
  }

  /** Signed numbers take 1, 2 or 4 octets, never 3. */
  function SignedLength(v: i32): nat {
    if -0x80 <= v < 0x80 then 1 else if -0x8000 <= v < 0x8000 then 2 else 4
  }

  function SignedContent(v: i32): (s: seq<byte>)
    ensures |s| == SignedLength(v)
  {
    BeBytes(v % Pow256(SignedLength(v)), SignedLength(v))
  }

  /** Up to three octets of text keep the length in the tag; longer text has it in an octet of its own. */
  function TextElement(s: Text64): seq<byte> {
    if |s| <= 3 then [0x70 + |s| + 1, 0x00] + s else [0x75, |s| + 1, 0x00] + s
  }

  function ValueBytes(v: BacnetValue): (s: seq<byte>)
    ensures 1 <= |s| <= 67
  {
    match v
    case Null => [0x00]
    case Boolean(b) => [if b then 0x11 else 0x10]
    case UnsignedInt(u) => UnsignedElement(2, false, u)
    case SignedInt(i) => Element(3, false, SignedContent(i))
    case Real(bits) => Element(4, false, BeBytes(bits, 4))
    case CharString(s) => TextElement(s)
    case Enumerated(e) => UnsignedElement(9, false, e)
    case ObjectIdentifier(o) => ObjectElement(12, false, o)
  }

  // ------------------------------------------------------------------ what is read

  datatype Tag = Tag(number: byte, context: bool, lvt: u32, headerLen: nat)

  /** `decode_tag`. The bound check alone can wrap: past it, the position lies inside the data. */
  function TagAt(data: Slice, pos: u32): (r: Result<Tag, DecodeError>)
    ensures r.Success? ==> pos < |data| && 1 <= r.value.headerLen <= 7 && pos + r.value.headerLen <= |data|
    ensures r.Failure? && pos < |data| ==> r.error == UnexpectedEnd
    ensures r == Failure(OutOfRange) <==> pos == WRAP - 1
    ensures r.Failure? ==> r.error == UnexpectedEnd || r.error == OutOfRange
  {
    if Plus(pos, 1) > |data| then Failure(UnexpectedEnd)
    else if pos >= |data| then Failure(OutOfRange)
    else if data[pos] / 16 < 15 then TagRest(data, pos + 1, 1, data[pos] / 16, data[pos] % 16)
    else if pos + 1 >= |data| then Failure(UnexpectedEnd)
    else TagRest(data, pos + 2, 2, data[pos + 1], data[pos] % 16)
  }

  /** The class and length, once the number is known; `next` is the octet after the number. */
  function TagRest(data: Slice, next: nat, headerLen: nat, number: byte, low: nibble): (r: Result<Tag, DecodeError>)
    requires next <= |data|
    ensures r.Success? ==>
              && headerLen <= r.value.headerLen <= headerLen + 5
              && next + (r.value.headerLen - headerLen) <= |data|
    ensures r.Success? ==> r.value.number == number && r.value.context == (low >= 8)
    ensures r.Failure? ==> r.error == UnexpectedEnd
  {
    var context := low >= 8;
    var raw := low % 8;
    if context && raw >= 6 then Success(Tag(number, context, raw, headerLen))
    else if raw != 5 then Success(Tag(number, context, raw, headerLen))
    else if next >= |data| then Failure(UnexpectedEnd)
    else if data[next] < 254 then Success(Tag(number, context, data[next], headerLen + 1))
    else
      var n := if data[next] == 254 then 2 else 4;
      if next + 1 + n > |data| then Failure(UnexpectedEnd)
      else
        FourOctets(data[next + 1..next + 1 + n]);
        Success(Tag(number, context, BeVal(data[next + 1..next + 1 + n]), headerLen + 1 + n))
  }

  /** `decode_unsigned`: longer numbers lose their high octets. A length that wraps the bound check
      passes it, and the loop runs out of the data. */
  function UnsignedAt(data: Slice, pos: u32, len: u32): (r: Result<u32, DecodeError>)
    ensures r.Success? ==> pos + len <= |data|
    ensures pos <= |data| ==> (r == Failure(OutOfRange) <==> pos + len >= WRAP)
  {
    if Plus(pos, len) > |data| then Failure(UnexpectedEnd)
    else if pos + len > |data| then Failure(OutOfRange)
    else Success(BeVal(data[pos..pos + len]) % WRAP)
  }

  /** The i32 with the same low 32 bits. */
  function Wrap32(x: int): i32 {
    (x + 0x8000_0000) % WRAP - 0x8000_0000
  }

  /** `decode_signed`: the first octet is read for its sign whatever the length. */
  function SignedAt(data: Slice, pos: u32, len: u32): (r: Result<i32, DecodeError>)
    ensures r.Success? ==> pos + len <= |data|
    ensures pos <= |data| ==> (r == Failure(OutOfRange) <==> pos + len >= WRAP || (len == 0 && pos == |data|))
  {
    if Plus(pos, len) > |data| then Failure(UnexpectedEnd)
    else if pos >= |data| || pos + len > |data| then Failure(OutOfRange)
    else Success(Wrap32(BeVal(data[pos..pos + len]) - if data[pos] >= 0x80 then Pow256(len) else 0))
  }

  /** The last character boundary at or before `k`. */
  function LastBoundary(s: seq<byte>, k: nat): (b: nat)
    requires k <= |s|
    ensures b <= k && CharBoundary(s, b)
    ensures forall j :: b < j <= k ==> !CharBoundary(s, j)
  {
    if CharBoundary(s, k) then k else LastBoundary(s, k - 1)
  }

  /** Text as stored: whole, or cut at the last character boundary within 64 octets. */
  function StoredText(s: seq<byte>): (t: Text64)
    requires Utf8Valid(s)
  {
    if |s| <= 64 then s else
      CutAtBoundary(s, LastBoundary(s, 64));
      s[..LastBoundary(s, 64)]
  }

  function TextAt(data: Slice, pos: u32, len: u32): (r: Result<BacnetValue, DecodeError>)
    ensures r.Success? ==> pos + len <= |data|
    ensures pos <= |data| ==> (r == Failure(OutOfRange) <==> pos + len >= WRAP)
  {
    if len < 1 then Failure(InvalidData)
    else if Plus(pos, len) > |data| then Failure(UnexpectedEnd)
    else if pos + len > |data| then Failure(OutOfRange)
    else
      var text := data[pos + 1..pos + len];
      if Utf8Valid(text) then Success(CharString(StoredText(text))) else Failure(InvalidData)
  }

  function ObjectAt(data: Slice, pos: u32): (r: Result<ObjectId, DecodeError>)
    ensures r.Success? ==> pos + 4 <= |data|
    ensures pos <= |data| ==> r != Failure(OutOfRange)
  {
    var raw :- UnsignedAt(data, pos, 4);
    var o := FromRaw(raw);
    if o.None? then Failure(InvalidData) else Success(o.value)
  }

  /** The value of an application tag whose content starts at `pos`, and the position after it. Only
      nulls and values with unknown tags are passed over unread. */
  function ContentAt(data: Slice, pos: u32, number: byte, len: u32): Result<(BacnetValue, u32), DecodeError>
    requires pos <= |data|
  {
    match number
    case 0 => Success((Null, Plus(pos, len)))
    case 1 => Success((Boolean(len != 0), pos))
    case 2 => var u :- UnsignedAt(data, pos, len); Success((UnsignedInt(u), Plus(pos, len)))
    case 3 => var i :- SignedAt(data, pos, len); Success((SignedInt(i), Plus(pos, len)))
    case 4 =>
      if len != 4 then Failure(InvalidData)
      else var bits :- UnsignedAt(data, pos, 4); Success((Real(bits), Plus(pos, len)))
    case 7 => var v :- TextAt(data, pos, len); Success((v, Plus(pos, len)))
    case 9 => var e :- UnsignedAt(data, pos, len); Success((Enumerated(e), Plus(pos, len)))
    case 12 =>
      if len != 4 then Failure(InvalidData)
      else var o :- ObjectAt(data, pos); Success((ObjectIdentifier(o), Plus(pos, len)))
    case _ => Success((Null, Plus(pos, len)))
  }

  /** `decode_app_value`. */
  function ValueAt(data: Slice, pos: u32): Result<(BacnetValue, u32), DecodeError> {
    var tag :- TagAt(data, pos);
    if tag.context then Failure(InvalidData) else ContentAt(data, pos + tag.headerLen, tag.number, tag.lvt)
  }

  /** `decode_context_unsigned`: nothing there, or another tag, is no number. */
  function ContextUnsignedAt(data: Slice, pos: u32, expected: byte): (r: Result<(Option<u32>, u32), DecodeError>)
    ensures r.Success? ==> if r.value.0.Some? then pos < r.value.1 <= |data| else r.value.1 == pos
  {
    if pos >= |data| then Success((None, pos))
    else
      var tag :- TagAt(data, pos);
      if !tag.context || tag.number != expected then Success((None, pos))
      else
        var v :- UnsignedAt(data, pos + tag.headerLen, tag.lvt);
        Success((Some(v), Plus(pos + tag.headerLen, tag.lvt)))
  }

  /** `decode_context_object_id`. */
  function ContextObjectAt(data: Slice, pos: u32, expected: byte): (r: Result<(Option<ObjectId>, u32), DecodeError>)
    ensures r.Success? ==> if r.value.0.Some? then pos < r.value.1 <= |data| else r.value.1 == pos
    ensures r != Failure(OutOfRange)
  {
    if pos >= |data| then Success((None, pos))
    else
      var tag :- TagAt(data, pos);
      if !tag.context || tag.number != expected || tag.lvt != 4 then Success((None, pos))
      else
        var o :- ObjectAt(data, pos + tag.headerLen);
        Success((Some(o), Plus(pos + tag.headerLen, 4)))
  }

  /** `expect_opening_tag` and `expect_closing_tag`, which differ in the kind they want: 6 or 7. */
  function BracketAt(data: Slice, pos: u32, expected: byte, kind: u32): (r: Result<u32, DecodeError>)
    ensures r.Success? ==> pos < r.value <= |data|
    ensures r == Failure(OutOfRange) <==> pos == WRAP - 1
  {
    var tag :- TagAt(data, pos);
    if !tag.context || tag.number != expected || tag.lvt != kind then Failure(InvalidData)
    else Success(pos + tag.headerLen)
  }

  /** `is_closing_tag`, which looks at one octet only. */
  predicate ClosingHere(data: Slice, pos: u32, number: nibble) {
    pos < |data| && data[pos] == number * 16 + 0x0F
  }

  // ------------------------------------------------------------------ reading back

  lemma PlainTag(data: Slice, pos: u32, number: nibble, context: bool, lvt: nat)
    requires number < 15 && lvt <= 7 && lvt != 5 && (context || lvt <= 4)
    requires HasAt(data, pos, [TagOctet(number, context, lvt)])
    ensures TagAt(data, pos) == Success(Tag(number, context, lvt, 1))
  {
    HasIndex(data, pos, [TagOctet(number, context, lvt)], 0);
    TagOctetParts(number, context, lvt);
  }

  /** The ways clause 20.2.1 of ASHRAE 135 lets a length be written: in the tag octet, in an octet of
      its own, or behind an octet 254 or 255. */
  datatype LengthForm = InTag | OneMore | TwoMore | FourMore

  predicate FormFits(f: LengthForm, n: u32) {
    match f
    case InTag => n <= 4
    case OneMore => n <= 253
    case TwoMore => n <= 0xFFFF
    case FourMore => true
  }

  /** A tag with its number in the first octet or, `wide`, in one of its own. */
  function TagBytes(wide: bool, f: LengthForm, number: byte, context: bool, n: u32): seq<byte>
    requires FormFits(f, n) && (!wide ==> number < 15)
  {
    [TagOctet(if wide then 15 else number, context, if f.InTag? then n else 5)]
    + (if wide then [number] else []) + LengthBytes(f, n)
  }

  function LengthBytes(f: LengthForm, n: u32): seq<byte>
    requires FormFits(f, n)
  {
    match f
    case InTag => []
    case OneMore => [n]
    case TwoMore => [254] + BeBytes(n, 2)
    case FourMore => [255] + BeBytes(n, 4)
  }

  /** A tag in any form reads as its number, class and length, and as many octets as it has. */
  lemma TagReadsBack(data: Slice, pos: u32, wide: bool, f: LengthForm, number: byte, context: bool, n: u32)
    requires FormFits(f, n) && (!wide ==> number < 15) && HasAt(data, pos, TagBytes(wide, f, number, context, n))
    ensures TagAt(data, pos) == Success(Tag(number, context, n, |TagBytes(wide, f, number, context, n)|))
  {
    hide HasAt, LengthBytes, TagRest, TagOctet;
    var first: byte := TagOctet(if wide then 15 else number, context, if f.InTag? then n else 5);
    var numberOctet: seq<byte> := if wide then [number] else [];
    HasConcat(data, pos, [first] + numberOctet, LengthBytes(f, n));
    HasConcat(data, pos, [first], numberOctet);
    HasIndex(data, pos, [first], 0);
    HasFits(data, pos, [first]);
    TagOctetParts(if wide then 15 else number, context, if f.InTag? then n else 5);
    if wide {
      HasIndex(data, pos + 1, [number], 0);
      HasFits(data, pos + 1, [number]);
    }
    LengthReadsBack(data, pos + 1 + |numberOctet|, 1 + |numberOctet|, number, context, f, n);
  }

  lemma LengthReadsBack(data: Slice, next: nat, headerLen: nat, number: byte, context: bool, f: LengthForm, n: u32)
    requires next <= |data| && FormFits(f, n) && HasAt(data, next, LengthBytes(f, n))
    ensures var low := (if context then 8 else 0) + if f.InTag? then n else 5;
            0 <= low < 16 && TagRest(data, next, headerLen, number, low)
                == Success(Tag(number, context, n, headerLen + |LengthBytes(f, n)|))
  {
    hide HasAt, BeVal, BeBytes;
    match f
    case InTag =>
    case OneMore =>
      HasIndex(data, next, [n], 0);
      HasFits(data, next, [n]);
    case TwoMore => LongLength(data, next, 254, n, 2);
    case FourMore => LongLength(data, next, 255, n, 4);
  }

  lemma LongLength(data: Slice, next: nat, first: byte, n: u32, k: nat)
    requires (k == 2 && n <= 0xFFFF) || k == 4
    requires HasAt(data, next, [first] + BeBytes(n, k))
    ensures next + 1 + k <= |data| && data[next] == first && BeVal(data[next + 1..next + 1 + k]) == n
  {
    hide HasAt, BeVal, BeBytes, Pow256;
    PowersOf256();
    BeRoundTrip(n, k);
    HasConcat(data, next, [first], BeBytes(n, k));
    HasIndex(data, next, [first], 0);
    HasSlice(data, next + 1, BeBytes(n, k));
  }

  lemma TagOctetParts(number: nibble, context: bool, lvt: int)
    requires 0 <= lvt < 8
    ensures TagOctet(number, context, lvt) / 16 == number
    ensures TagOctet(number, context, lvt) % 16 == (if context then 8 else 0) + lvt
  {
  }

  lemma ElementReadsBack(data: Slice, pos: u32, number: nibble, context: bool, content: seq<byte>)
    requires number < 15 && |content| <= 4 && HasAt(data, pos, Element(number, context, content))
    ensures TagAt(data, pos) == Success(Tag(number, context, |content|, 1))
    ensures HasAt(data, pos + 1, content)
  {
    hide HasAt, TagAt;
    HasConcat(data, pos, [TagOctet(number, context, |content|)], content);
    PlainTag(data, pos, number, context, |content|);
  }

  lemma ContentReadsBack(data: Slice, pos: u32, v: u32, n: nat)
    requires n <= 4 && v < Pow256(n) && HasAt(data, pos, BeBytes(v, n))
    ensures UnsignedAt(data, pos, n) == Success(v)
  {
    hide BeBytes, BeVal, Pow256, HasAt;
    BeRoundTrip(v, n);
    HasSlice(data, pos, BeBytes(v, n));
  }

  lemma UnsignedReadsBack(data: Slice, pos: u32, number: nibble, context: bool, v: u32)
    requires number < 15 && HasAt(data, pos, UnsignedElement(number, context, v))
    ensures var n := UnsignedLength(v);
            && TagAt(data, pos) == Success(Tag(number, context, n, 1))
            && UnsignedAt(data, pos + 1, n) == Success(v)
            && pos + |UnsignedElement(number, context, v)| == pos + 1 + n <= |data|
  {
    hide TagAt, UnsignedAt, HasAt;
    var n := UnsignedLength(v);
    ElementReadsBack(data, pos, number, context, BeBytes(v, n));
    LengthFits(v);
    ContentReadsBack(data, pos + 1, v, n);
    HasFits(data, pos + 1, BeBytes(v, n));
  }

  /** An object identifier as it comes back: its instance reduced to 22 bits. */
  function NormalObject(o: ObjectId): ObjectId {
    o.(instance := o.instance % INSTANCE_SPAN)
  }

  lemma ObjectReadsBack(data: Slice, pos: u32, number: nibble, context: bool, o: ObjectId)
    requires number < 15 && HasAt(data, pos, ObjectElement(number, context, o))
    ensures TagAt(data, pos) == Success(Tag(number, context, 4, 1))
    ensures ObjectAt(data, pos + 1) == Success(NormalObject(o)) && pos + 5 <= |data|
  {
    hide TagAt, UnsignedAt, HasAt, ToRaw, FromRaw;
    ElementReadsBack(data, pos, number, context, BeBytes(ToRaw(o), 4));
    LengthFits(ToRaw(o));
    ContentReadsBack(data, pos + 1, ToRaw(o), 4);
    HasFits(data, pos + 1, BeBytes(ToRaw(o), 4));
    RawOfRaw(o);
  }

  lemma RawOfRaw(o: ObjectId)
    ensures FromRaw(ToRaw(o)) == Some(NormalObject(o))
  {
    var c, i := o.objectType.Code(), o.instance % INSTANCE_SPAN;
    assert ToRaw(o) / INSTANCE_SPAN == c && ToRaw(o) % INSTANCE_SPAN == i;
  }

  lemma SignedContentSays(i: i32)
    ensures SignedVal(SignedContent(i)) == i && SignedContent(i) != []
  {
    var n := SignedLength(i);
    PowersOf256();
    BeRoundTrip(i % Pow256(n), n);
    TopOctet(SignedContent(i));
    TwosComplement(i, Pow256(n));
  }

  lemma SignedReadsBack(data: Slice, pos: u32, v: i32)
    requires HasAt(data, pos, SignedContent(v))
    ensures SignedAt(data, pos, SignedLength(v)) == Success(v)
  {
    hide *;
    SignedContentSays(v);
    SignedAtIs(data, pos, SignedContent(v));
    SmallStays(v);
  }

  lemma SmallStays(v: i32)
    ensures Wrap32(v) == v
  {
  }

  lemma SignedAtIs(data: Slice, pos: u32, content: seq<byte>)
    requires content != [] && HasAt(data, pos, content)
    ensures SignedAt(data, pos, |content|) == Success(Wrap32(SignedVal(content)))
  {
    hide BeVal, Pow256, Wrap32;
    HasIndex(data, pos, content, 0);
    HasSlice(data, pos, content);
  }

  function TextHead(n: nat): seq<byte>
    requires n <= 64
  {
    if n <= 3 then [0x70 + n + 1, 0x00] else [0x75, n + 1, 0x00]
  }

  lemma TextTag(data: Slice, pos: u32, n: nat)
    requires n <= 64 && HasAt(data, pos, TextHead(n))
    ensures TagAt(data, pos) == Success(Tag(7, false, n + 1, |TextHead(n)| - 1))
  {
    hide HasAt;
    HasIndex(data, pos, TextHead(n), 0);
    HasIndex(data, pos, TextHead(n), 1);
    HasFits(data, pos, TextHead(n));
  }

  lemma TextReadsBack(data: Slice, pos: u32, s: Text64)
    requires HasAt(data, pos, TextElement(s))
    ensures ValueAt(data, pos) == Success((CharString(s), pos + |TextElement(s)|))
  {
    hide HasAt, Utf8Valid, TagAt;
    var head := TextHead(|s|);
    assert TextElement(s) == head + s;
    HasConcat(data, pos, head, s);
    TextTag(data, pos, |s|);
    HasSlice(data, pos + |head|, s);
  }

  /** A value as it comes back. */
  function NormalValue(v: BacnetValue): BacnetValue {
    if v.ObjectIdentifier? then ObjectIdentifier(NormalObject(v.o)) else v
  }

  /** A value by its tag and content, once both are known. */
  lemma ValueOf(data: Slice, pos: u32, number: byte, len: u32, headerLen: nat)
    requires TagAt(data, pos) == Success(Tag(number, false, len, headerLen))
    ensures ValueAt(data, pos) == ContentAt(data, pos + headerLen, number, len)
  {
    hide TagAt, ContentAt;
  }

  lemma NumberValueReadsBack(data: Slice, pos: u32, number: nibble, v: u32)
    requires (number == 2 || number == 9) && HasAt(data, pos, UnsignedElement(number, false, v))
    ensures ValueAt(data, pos) == Success((if number == 2 then UnsignedInt(v) else Enumerated(v),
                                           pos + |UnsignedElement(number, false, v)|))
  {
    hide TagAt, ValueAt, UnsignedAt, HasAt, UnsignedElement;
    UnsignedReadsBack(data, pos, number, false, v);
    ValueOf(data, pos, number, UnsignedLength(v), 1);
  }

  lemma SignedValueReadsBack(data: Slice, pos: u32, v: i32)
    requires HasAt(data, pos, Element(3, false, SignedContent(v)))
    ensures ValueAt(data, pos) == Success((SignedInt(v), pos + |Element(3, false, SignedContent(v))|))
  {
    hide TagAt, ValueAt, SignedAt, HasAt, SignedContent;
    ElementReadsBack(data, pos, 3, false, SignedContent(v));
    HasFits(data, pos + 1, SignedContent(v));
    SignedReadsBack(data, pos + 1, v);
    ValueOf(data, pos, 3, SignedLength(v), 1);
  }

  lemma RealReadsBack(data: Slice, pos: u32, bits: u32)
    requires HasAt(data, pos, Element(4, false, BeBytes(bits, 4)))
    ensures ValueAt(data, pos) == Success((Real(bits), pos + 5))
  {
    hide TagAt, ValueAt, UnsignedAt, HasAt, BeBytes;
    ElementReadsBack(data, pos, 4, false, BeBytes(bits, 4));
    HasFits(data, pos + 1, BeBytes(bits, 4));
    LengthFits(bits);
    ContentReadsBack(data, pos + 1, bits, 4);
    ValueOf(data, pos, 4, 4, 1);
  }

  lemma ObjectValueReadsBack(data: Slice, pos: u32, o: ObjectId)
    requires HasAt(data, pos, ObjectElement(12, false, o))
    ensures ValueAt(data, pos) == Success((ObjectIdentifier(NormalObject(o)), pos + 5))
  {
    hide TagAt, ValueAt, ObjectAt, HasAt, ObjectElement, NormalObject;
    ObjectReadsBack(data, pos, 12, false, o);
    ValueOf(data, pos, 12, 4, 1);
  }

  /** Every value decodes to itself, at any offset and whatever surrounds it, and the position
      advances by exactly its encoded length. */
  lemma ValueReadsBack(data: Slice, pos: u32, v: BacnetValue)
    requires HasAt(data, pos, ValueBytes(v))
    ensures ValueAt(data, pos) == Success((NormalValue(v), pos + |ValueBytes(v)|))
  {
    hide HasAt, TagAt, ValueAt, TextElement, UnsignedElement, ObjectElement, Element, BeBytes, SignedContent,
         NormalObject;
    match v
    case Null =>
      HasFits(data, pos, [0x00]);
      EmptyTag(data, pos, 0, 0);
      ValueOf(data, pos, 0, 0, 1);
    case Boolean(b) =>
      HasFits(data, pos, [if b then 0x11 else 0x10]);
      EmptyTag(data, pos, 1, if b then 1 else 0);
      ValueOf(data, pos, 1, if b then 1 else 0, 1);
    case UnsignedInt(u) => NumberValueReadsBack(data, pos, 2, u);
    case SignedInt(i) => SignedValueReadsBack(data, pos, i);
    case Real(bits) => RealReadsBack(data, pos, bits);
    case CharString(s) => TextReadsBack(data, pos, s);
    case Enumerated(e) => NumberValueReadsBack(data, pos, 9, e);
    case ObjectIdentifier(o) => ObjectValueReadsBack(data, pos, o);
  }

  lemma EmptyTag(data: Slice, pos: u32, number: nibble, lvt: nat)
    requires number <= 1 && lvt <= 1 && HasAt(data, pos, [number * 16 + lvt])
    ensures TagAt(data, pos) == Success(Tag(number, false, lvt, 1))
  {
    assert TagOctet(number, false, lvt) == number * 16 + lvt;
    PlainTag(data, pos, number, false, lvt);
  }

  lemma ContextUnsignedReadsBack(data: Slice, pos: u32, number: nibble, v: u32)
    requires number < 15 && HasAt(data, pos, UnsignedElement(number, true, v))
    ensures ContextUnsignedAt(data, pos, number) == Success((Some(v), pos + |UnsignedElement(number, true, v)|))
  {
    hide TagAt, UnsignedAt, HasAt, UnsignedElement;
    UnsignedReadsBack(data, pos, number, true, v);
  }

  lemma ContextObjectReadsBack(data: Slice, pos: u32, number: nibble, o: ObjectId)
    requires number < 15 && HasAt(data, pos, ObjectElement(number, true, o))
    ensures ContextObjectAt(data, pos, number) == Success((Some(NormalObject(o)), pos + 5))
  {
    hide TagAt, ObjectAt, HasAt, ObjectElement;
    ObjectReadsBack(data, pos, number, true, o);
  }

  lemma BracketsReadBack(data: Slice, pos: u32, number: nibble)
    requires number < 15
    ensures HasAt(data, pos, Opening(number)) ==>
              BracketAt(data, pos, number, 6) == Success(pos + 1) && !ClosingHere(data, pos, 4)
    ensures HasAt(data, pos, Closing(number)) ==>
              BracketAt(data, pos, number, 7) == Success(pos + 1) && ClosingHere(data, pos, number)
  {
    hide HasAt, TagAt;
    if HasAt(data, pos, Opening(number)) {
      assert TagOctet(number, true, 6) == number * 16 + 0x0E;
      PlainTag(data, pos, number, true, 6);
      HasIndex(data, pos, Opening(number), 0);
    }
    if HasAt(data, pos, Closing(number)) {
      assert TagOctet(number, true, 7) == number * 16 + 0x0F;
      PlainTag(data, pos, number, true, 7);
      HasIndex(data, pos, Closing(number), 0);
      HasFits(data, pos, Closing(number));
    }
  }

  /** An optional element that is not there is read as absent when another tag, or nothing, follows. */
  lemma OtherTagIsAbsent(data: Slice, pos: u32, first: byte, expected: byte)
    requires pos < |data| && data[pos] == first && first / 16 < 15 && first % 8 != 5 && first / 16 != expected
    ensures ContextUnsignedAt(data, pos, expected) == Success((None, pos))
  {
  }
}
