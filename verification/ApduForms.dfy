/** Tags by clause 20.2.1 of ASHRAE 135, octet by octet, and what bridge-core/src/apdu.rs makes of a
    value in any form a sender may give it, whether or not the bridge would write it so. */
module ApduForms {
  import opened Words
  import opened Numbers
  import opened Bacnet
  import opened ApduValues

  // ------------------------------------------------------------------ tags

  /** A primitive of so many octets, or the beginning or end of a construction. */
  datatype Kind = Holds(n: u32) | Opens | Closes

  datatype StandardTag = StandardTag(number: byte, context: bool, kind: Kind, size: nat)

  /** The length by the low half of the first octet: in three bits, or behind them, in one octet or
      after an octet 254 in two, 255 in four. Opening and closing there are in the context class only. */
  function KindIn(data: Slice, next: nat, low: nibble): (k: Option<(Kind, nat)>)
    requires next <= |data|
    ensures k.Some? ==> k.value.1 <= 5 && next + k.value.1 <= |data|
  {
    match low % 8
    case 6 => if low >= 8 then Some((Opens, 0)) else None
    case 7 => if low >= 8 then Some((Closes, 0)) else None
    case 5 =>
      var rest := data[next..];
      if rest == [] then None
      else if rest[0] < 254 then Some((Holds(rest[0]), 1))
      else if rest[0] == 254 then
        if |rest| < 3 then None else Some((Holds(rest[1] * 0x100 + rest[2] as int), 3))
      else if |rest| < 5 then None
      else Some((Holds(FourOctetNumber(rest[1], rest[2], rest[3], rest[4])), 5))
    case n => Some((Holds(n), 0))
  }

  /** Four bits of number, all ones if it is 15 to 254 and stands in an octet of its own; one bit of class;
      the length. */
  function TagIn(data: Slice, pos: nat): (t: Option<StandardTag>)
    ensures t.Some? ==> 1 <= t.value.size <= 7 && pos + t.value.size <= |data|
  {
    if pos >= |data| then None
    else if data[pos] >= 0xF0 && (pos + 1 >= |data| || data[pos + 1] < 15 || data[pos + 1] == 255) then None
    else
      var size := if data[pos] >= 0xF0 then 2 else 1;
      var number := if data[pos] >= 0xF0 then data[pos + 1] else data[pos] / 0x10;
      var kind := KindIn(data, pos + size, data[pos] % 0x10);
      if kind.None? then None
      else Some(StandardTag(number, data[pos] % 0x10 >= 0x08, kind.value.0, size + kind.value.1))
  }

  function FourOctetNumber(a: byte, b: byte, c: byte, d: byte): u32 {
    a * 0x100_0000 + b * 0x1_0000 + c * 0x100 + d
  }

  /** The number the code keeps for length, opening and closing alike. */
  function Lvt(k: Kind): u32 {
    match k
    case Holds(n) => n
    case Opens => 6
    case Closes => 7
  }

  /** What the standard does not have: a number below 15, or 255, in an octet of its own, and the
      lengths 6 and 7 in three bits of an application tag. The code reads both all the same. */
  predicate Reserved(data: Slice, pos: nat) {
    && pos < |data| && (data[pos] >= 0xF0 ==> pos + 1 < |data|)
    && (data[pos] % 0x10 in {6, 7} || (data[pos] >= 0xF0 && (data[pos + 1] < 15 || data[pos + 1] == 255)
                                       && KindIn(data, pos + 2, data[pos] % 0x10).Some?))
  }

  /** A standard tag is read as what it says; nothing else is read but a reserved one. */
  lemma TagReadExactly(data: Slice, pos: u32)
    ensures TagIn(data, pos).Some? ==>
              var t := TagIn(data, pos).value;
              TagAt(data, pos) == Success(Tag(t.number, t.context, Lvt(t.kind), t.size))
    ensures TagAt(data, pos).Success? <==> TagIn(data, pos).Some? || Reserved(data, pos)
  {
    if pos < |data| && (data[pos] >= 0xF0 ==> pos + 1 < |data|) {
      var size := if data[pos] >= 0xF0 then 2 else 1;
      LengthIsRead(data, pos + size, size, if data[pos] >= 0xF0 then data[pos + 1] else data[pos] / 0x10,
                   data[pos] % 0x10);
      hide TagRest, KindIn;
      HalfOctet(data[pos]);
    }
  }

  lemma HalfOctet(b: byte)
    ensures b / 16 < 15 <==> b < 0xF0
    ensures b % 16 % 8 == b % 8
  {
  }

  lemma LengthIsRead(data: Slice, next: nat, size: nat, number: byte, low: nibble)
    requires next <= |data|
    ensures KindIn(data, next, low).Some? ==>
              var (kind, more) := KindIn(data, next, low).value;
              TagRest(data, next, size, number, low) == Success(Tag(number, low >= 8, Lvt(kind), size + more))
    ensures KindIn(data, next, low).None? ==>
              (TagRest(data, next, size, number, low).Success? <==> low == 6 || low == 7)
  {
    hide BeVal;
    if low % 8 == 5 && next < |data| {
      if data[next] == 254 && next + 3 <= |data| {
        TwoOctetValue(data[next + 1..next + 3]);
      } else if data[next] == 255 && next + 5 <= |data| {
        FourOctetValue(data[next + 1..next + 5]);
      }
    }
  }

  // ------------------------------------------------------------------ values

  /** What a value says by its tag number and content; `behind` is the octet after it, if there is one. */
  ghost predicate Says(number: byte, content: seq<byte>, behind: Option<byte>, r: Result<BacnetValue, DecodeError>) {
    match number
    case 2 => r == Success(UnsignedInt(BeVal(content) % 0x1_0000_0000))
    case 3 => SaysSigned(content, behind, r)
    case 4 => if |content| == 4 then r.Success? && r.value.Real? && r.value.bits == BeVal(content)
              else r == Failure(InvalidData)
    case 7 => SaysText(content, r)
    case 9 => r == Success(Enumerated(BeVal(content) % 0x1_0000_0000))
    case 12 => SaysObject(content, r)
    case _ => r == Success(Null)
  }

  /** Ten bits of type, 22 of instance. */
  ghost predicate SaysObject(content: seq<byte>, r: Result<BacnetValue, DecodeError>) {
    if |content| != 4 || FromCode(BeVal(content) / 0x40_0000).None? then r == Failure(InvalidData)
    else && r.Success? && r.value.ObjectIdentifier? && r.value.o.instance == BeVal(content) % 0x40_0000
         && Some(r.value.o.objectType) == FromCode(BeVal(content) / 0x40_0000)
  }

  /** The number with the same low 32 bits; without any octet, the sign is that of the octet behind. */
  ghost predicate SaysSigned(content: seq<byte>, behind: Option<byte>, r: Result<BacnetValue, DecodeError>) {
    if content != [] then
      r.Success? && r.value.SignedInt? && (r.value.i - SignedVal(content)) % 0x1_0000_0000 == 0
    else if behind.None? then r == Failure(OutOfRange)
    else r == Success(SignedInt(if behind.value >= 0x80 then -1 else 0))
  }

  /** The longest stretch of characters, from the first on, that 64 octets hold; whatever the octet
      in front says of their encoding, they are taken for UTF-8. */
  ghost predicate SaysText(content: seq<byte>, r: Result<BacnetValue, DecodeError>) {
    if content == [] || !Utf8Valid(content[1..]) then r == Failure(InvalidData)
    else r.Success? && r.value.CharString? && CutTo64(content[1..], r.value.s)
  }

  ghost predicate CutTo64(s: seq<byte>, t: seq<byte>) {
    && t <= s && |t| <= 64 && CharBoundary(s, |t|) && (|s| <= 64 ==> t == s)
    && forall k :: |t| < k <= 64 && k <= |s| ==> !CharBoundary(s, k)
  }

  lemma TextIsCut(s: seq<byte>)
    requires Utf8Valid(s)
    ensures CutTo64(s, StoredText(s))
  {
    hide Utf8Valid;
  }

  lemma TextSaid(data: Slice, pos: u32, n: u32)
    requires pos + n <= |data|
    ensures SaysText(data[pos..pos + n], TextAt(data, pos, n))
  {
    hide Utf8Valid, StoredText, CutTo64;
    if n > 0 {
      var text := data[pos + 1..pos + n];
      assert data[pos..pos + n][1..] == text;
      if Utf8Valid(text) {
        TextIsCut(text);
      }
    }
  }

  lemma SignedSaid(data: Slice, pos: u32, n: u32)
    requires pos + n <= |data|
    ensures var r := SignedAt(data, pos, n);
            SaysSigned(data[pos..pos + n], if pos + n < |data| then Some(data[pos + n]) else None,
                       if r.Success? then Success(SignedInt(r.value)) else Failure(r.error))
  {
    hide BeVal, Pow256;
    var content := data[pos..pos + n];
    if n > 0 {
      assert content[0] == data[pos];
      SameLowBits(SignedVal(content));
    } else if pos < |data| {
      NothingIsZero();
    }
  }

  lemma NothingIsZero()
    ensures BeVal([]) == 0 && Pow256(0) == 1
  {
  }

  lemma SameLowBits(x: int)
    ensures (Wrap32(x) - x) % 0x1_0000_0000 == 0
  {
    var q := (x + 0x8000_0000) / WRAP;
    assert Wrap32(x) - x == -q * WRAP;
  }

  lemma NumberSaid(data: Slice, pos: u32, n: u32)
    requires pos + n <= |data|
    ensures UnsignedAt(data, pos, n) == Success(BeVal(data[pos..pos + n]) % 0x1_0000_0000)
    ensures n == 4 ==> UnsignedAt(data, pos, n) == Success(BeVal(data[pos..pos + n]))
  {
    hide BeVal;
    if n == 4 {
      FourOctets(data[pos..pos + n]);
    }
  }

  lemma ObjectSaid(data: Slice, pos: u32)
    requires pos + 4 <= |data|
    ensures var r := ObjectAt(data, pos);
            SaysObject(data[pos..pos + 4], if r.Success? then Success(ObjectIdentifier(r.value)) else Failure(r.error))
  {
    NumberSaid(data, pos, 4);
    hide BeVal, FromCode, UnsignedAt;
  }

  function Only(r: Result<(BacnetValue, u32), DecodeError>): Result<BacnetValue, DecodeError> {
    if r.Success? then Success(r.value.0) else Failure(r.error)
  }

  lemma ContentSaid(data: Slice, pos: u32, number: byte, n: u32)
    requires pos + n <= |data| && number != 1
    ensures var r := ContentAt(data, pos, number, n);
            && (r.Success? ==> r.value.1 == pos + n)
            && Says(number, data[pos..pos + n], if pos + n < |data| then Some(data[pos + n]) else None, Only(r))
  {
    hide SaysText, SaysSigned, SaysObject, TextAt, SignedAt, UnsignedAt, ObjectAt, BeVal;
    TextSaid(data, pos, n);
    SignedSaid(data, pos, n);
    NumberSaid(data, pos, n);
    if n == 4 {
      ObjectSaid(data, pos);
    } else {
      NotFour(data[pos..pos + n]);
    }
  }

  lemma NotFour(content: seq<byte>)
    requires |content| != 4
    ensures SaysObject(content, Failure(InvalidData))
  {
  }

  /** Whatever the form of the tag and however long the content, a value is read as what it says, and
      the position behind it is right; a Boolean has no content. */
  lemma ValueInAnyForm(data: Slice, pos: u32, t: StandardTag)
    requires TagIn(data, pos) == Some(t) && !t.context && t.number != 1 && t.kind.Holds?
    requires pos + t.size + t.kind.n <= |data|
    ensures var a := pos + t.size;
            var b := a + t.kind.n;
            var r := ValueAt(data, pos);
            && (r.Success? ==> r.value.1 == b)
            && Says(t.number, data[a..b], if b < |data| then Some(data[b]) else None, Only(r))
  {
    hide *;
    TagReadExactly(data, pos);
    LvtOfHolds(t.kind);
    ValueOf(data, pos, t.number, t.kind.n, t.size);
    ContentSaid(data, pos + t.size, t.number, t.kind.n);
  }

  lemma LvtOfHolds(k: Kind)
    requires k.Holds?
    ensures Lvt(k) == k.n
  {
  }

  lemma ContentCut(data: Slice, pos: u32, number: byte, n: u32)
    requires pos <= |data| < pos + n < 0x1_0000_0000 && number != 1
    ensures ContentAt(data, pos, number, n)
            == match number
               case 2 => Failure(UnexpectedEnd)
               case 3 => Failure(UnexpectedEnd)
               case 4 => Failure(if n == 4 then UnexpectedEnd else InvalidData)
               case 7 => Failure(UnexpectedEnd)
               case 9 => Failure(UnexpectedEnd)
               case 12 => Failure(if n == 4 then UnexpectedEnd else InvalidData)
               case _ => Success((Null, pos + n))
  {
    hide BeVal, Utf8Valid, StoredText, FromRaw, Pow256;
  }

  /** A value whose content the data ends before is refused for that, or for its length; but what is passed over
      unread may lead beyond the end. */
  lemma ValueCut(data: Slice, pos: u32, t: StandardTag)
    requires TagIn(data, pos) == Some(t) && !t.context && t.number != 1 && t.kind.Holds?
    requires |data| < pos + t.size + t.kind.n < 0x1_0000_0000
    ensures ValueAt(data, pos)
            == match t.number
               case 2 => Failure(UnexpectedEnd)
               case 3 => Failure(UnexpectedEnd)
               case 4 => Failure(if t.kind.n == 4 then UnexpectedEnd else InvalidData)
               case 7 => Failure(UnexpectedEnd)
               case 9 => Failure(UnexpectedEnd)
               case 12 => Failure(if t.kind.n == 4 then UnexpectedEnd else InvalidData)
               case _ => Success((Null, pos + t.size + t.kind.n))
  {
    hide *;
    TagReadExactly(data, pos);
    LvtOfHolds(t.kind);
    ValueOf(data, pos, t.number, t.kind.n, t.size);
    ContentCut(data, pos + t.size, t.number, t.kind.n);
  }

  lemma BooleanInAnyForm(data: Slice, pos: u32, t: StandardTag)
    requires TagIn(data, pos) == Some(t) && !t.context && t.number == 1 && t.kind.Holds?
    ensures ValueAt(data, pos) == Success((Boolean(t.kind.n != 0), pos + t.size))
  {
    TagReadExactly(data, pos);
    hide TagAt, TagIn;
  }

  /** A tag of the context class is no value. */
  lemma ContextIsNoValue(data: Slice, pos: u32)
    requires TagIn(data, pos).Some? && TagIn(data, pos).value.context
    ensures ValueAt(data, pos) == Failure(InvalidData)
  {
    TagReadExactly(data, pos);
    hide TagAt, TagIn;
  }
}
