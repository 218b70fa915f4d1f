/** The decoders of bridge-core/src/apdu.rs, reading forward through the octets of a message. */
module ApduDecoder {
  import opened Words
  import opened Numbers
  import opened Bacnet
  import opened ApduValues
  import opened ApduMessages

  // ------------------------------------------------------------------ tags and numbers

  method DecodeTag(data: Slice, pos: u32) returns (r: Result<Tag, DecodeError>)
    ensures r == TagAt(data, pos)
  {
    hide TagRest;
    if Plus(pos, 1) > |data| {
      return Failure(UnexpectedEnd);
    }
    if pos >= |data| {
      return Failure(OutOfRange);
    }
    var b := data[pos];
    var headerLen := 1;
    var number: byte := b / 16;
    if number == 15 {
      if pos + 2 > |data| {
        return Failure(UnexpectedEnd);
      }
      number := data[pos + 1];
      headerLen := 2;
    }
    r := DecodeLvt(data, pos, headerLen, number, b % 16);
  }

  /** Class and length: the low half of the first octet, and what follows the number. */
  method DecodeLvt(data: Slice, pos: u32, hlen: nat, number: byte, low: nibble) returns (r: Result<Tag, DecodeError>)
    requires pos + hlen <= |data|
    ensures r == TagRest(data, pos + hlen, hlen, number, low)
  {
    var headerLen := hlen;
    var context := low / 8 % 2 == 1;
    var raw := low % 8;
    if context && (raw == 6 || raw == 7) {
      return Success(Tag(number, context, raw, headerLen));
    }
    var lvt: u32 := raw;
    if raw == 5 {
      if pos + headerLen + 1 > |data| {
        return Failure(UnexpectedEnd);
      }
      var ext := data[pos + headerLen];
      headerLen := headerLen + 1;
      if ext < 254 {
        lvt := ext;
      } else {
        var n := if ext == 254 then 2 else 4;
        if pos + headerLen + n > |data| {
          return Failure(UnexpectedEnd);
        }
        lvt := BigEndian(data, pos + headerLen, n);
        headerLen := headerLen + n;
      }
    }
    return Success(Tag(number, context, lvt, headerLen));
  }

  method BigEndian(data: Slice, pos: u32, n: nat) returns (v: u32)
    requires (n == 2 || n == 4) && pos + n <= |data|
    ensures v == BeVal(data[pos..pos + n])
  {
    var wide := DecodeUnsigned(data, pos, n);
    FourOctets(data[pos..pos + n]);
    return wide.value;
  }

  lemma WrapStep(x: nat, b: byte)
    ensures ((x % WRAP) * 256 + b) % WRAP == (x * 256 + b) % WRAP
  {
    var q, r := x / WRAP, x % WRAP;
    var k, t := (r * 256 + b) / WRAP, (r * 256 + b) % WRAP;
    QuotientUnique(x * 256 + b, 256 * q + k, t, WRAP);
  }

  method DecodeUnsigned(data: Slice, pos: u32, len: u32) returns (r: Result<u32, DecodeError>)
    ensures r == UnsignedAt(data, pos, len)
  {
    if Plus(pos, len) > |data| {
      return Failure(UnexpectedEnd);
    }
    ghost var there := if pos + len <= |data| then data[pos..pos + len] else if pos <= |data| then data[pos..] else [];
    var val: u32 := 0;
    var i := 0;
    assert there[..0] == [];
    while i < len
      invariant 0 <= i <= len && i <= |there| && val == BeVal(there[..i]) % WRAP
    {
      if pos + i >= |data| {
        return Failure(OutOfRange);
      }
      BeValNext(there, i);
      WrapStep(BeVal(there[..i]), there[i]);
      val := (val * 256 + data[pos + i]) % WRAP;
      i := i + 1;
    }
    assert there[..len] == there;
    return Success(val);
  }

  lemma WrapAgain(z: int, m: int)
    ensures Wrap32(z + WRAP * m) == Wrap32(z)
  {
    var q, t := (z + 0x8000_0000) / WRAP, (z + 0x8000_0000) % WRAP;
    QuotientUnique(z + WRAP * m + 0x8000_0000, q + m, t, WRAP);
  }

  lemma SignedStep(y: int, b: byte)
    ensures Wrap32(Wrap32(y) * 256 + b) == Wrap32(y * 256 + b)
  {
    var k := -((y + 0x8000_0000) / WRAP);
    assert Wrap32(y) == y + WRAP * k;
    WrapAgain(y * 256 + b, 256 * k);
  }

  method DecodeSigned(data: Slice, pos: u32, len: u32) returns (r: Result<i32, DecodeError>)
    ensures r == SignedAt(data, pos, len)
  {
    if Plus(pos, len) > |data| {
      return Failure(UnexpectedEnd);
    }
    if pos >= |data| {
      return Failure(OutOfRange);
    }
    ghost var there := if pos + len <= |data| then data[pos..pos + len] else data[pos..];
    var val: i32 := if data[pos] >= 0x80 then -1 else 0;
    ghost var fill := val;
    var i := 0;
    hide Wrap32, Filled;
    NothingRead(there, fill);
    while i < len
      invariant 0 <= i <= len && i <= |there| && val == Wrap32(Filled(there[..i], fill))
    {
      if pos + i >= |data| {
        return Failure(OutOfRange);
      }
      ShiftIn(there, fill, i);
      SignedStep(Filled(there[..i], fill), there[i]);
      val := Wrap32(val * 256 + data[pos + i]);
      i := i + 1;
    }
    assert there[..len] == there;
    FilledIs(there, fill);
    return Success(val);
  }

  lemma NothingRead(there: seq<byte>, fill: i32)
    ensures Wrap32(Filled(there[..0], fill)) == fill
  {
    NothingShifted(there, fill);
    SmallWraps(fill);
  }

  lemma FilledIs(there: seq<byte>, fill: int)
    requires fill == 0 || fill == -1
    ensures Filled(there, fill) == BeVal(there) - if fill == -1 then Pow256(|there|) else 0
  {
    hide BeVal, Pow256;
  }

  lemma SmallWraps(v: i32)
    ensures Wrap32(v) == v
  {
  }

  // ------------------------------------------------------------------ values

  /** Backs up from 64 to a character boundary. */
  method SafeEnd(s: seq<byte>) returns (end: nat)
    requires |s| > 64
    ensures end == LastBoundary(s, 64)
  {
    end := 64;
    while end > 0 && !CharBoundary(s, end)
      invariant end <= 64 && LastBoundary(s, end) == LastBoundary(s, 64)
    {
      end := end - 1;
    }
  }

  method DecodeText(data: Slice, pos: u32, len: u32) returns (r: Result<BacnetValue, DecodeError>)
    ensures r == TextAt(data, pos, len)
  {
    if len < 1 {
      return Failure(InvalidData);
    }
    if Plus(pos, len) > |data| {
      return Failure(UnexpectedEnd);
    }
    if pos + len > |data| {
      return Failure(OutOfRange);
    }
    var text := data[pos + 1..pos + len];
    if !Utf8Valid(text) {
      return Failure(InvalidData);
    }
    if |text| <= 64 {
      return Success(CharString(text));
    }
    var end := SafeEnd(text);
    CutAtBoundary(text, end);
    return Success(CharString(text[..end]));
  }

  method DecodeObjectId(data: Slice, pos: u32) returns (r: Result<ObjectId, DecodeError>)
    ensures r == ObjectAt(data, pos)
  {
    var raw :- DecodeUnsigned(data, pos, 4);
    var o := FromRaw(raw);
    if o.None? {
      return Failure(InvalidData);
    }
    return Success(o.value);
  }

  method DecodeAppValue(data: Slice, pos: u32) returns (r: Result<(BacnetValue, u32), DecodeError>)
    ensures r == ValueAt(data, pos)
  {
    hide TagAt, UnsignedAt, SignedAt, TextAt, ObjectAt;
    var tag :- DecodeTag(data, pos);
    if tag.context {
      return Failure(InvalidData);
    }
    var vpos, vlen := pos + tag.headerLen, tag.lvt;
    match tag.number
    case 0 =>
      return Success((Null, Plus(vpos, vlen)));
    case 1 =>
      return Success((Boolean(vlen != 0), vpos));
    case 2 =>
      var u :- DecodeUnsigned(data, vpos, vlen);
      return Success((UnsignedInt(u), Plus(vpos, vlen)));
    case 3 =>
      var i :- DecodeSigned(data, vpos, vlen);
      return Success((SignedInt(i), Plus(vpos, vlen)));
    case 4 =>
      if vlen != 4 {
        return Failure(InvalidData);
      }
      var bits :- DecodeUnsigned(data, vpos, 4);
      return Success((Real(bits), Plus(vpos, vlen)));
    case 7 =>
      var text :- DecodeText(data, vpos, vlen);
      return Success((text, Plus(vpos, vlen)));
    case 9 =>
      var e :- DecodeUnsigned(data, vpos, vlen);
      return Success((Enumerated(e), Plus(vpos, vlen)));
    case 12 =>
      if vlen != 4 {
        return Failure(InvalidData);
      }
      var o :- DecodeObjectId(data, vpos);
      return Success((ObjectIdentifier(o), Plus(vpos, vlen)));
    case _ =>
      return Success((Null, Plus(vpos, vlen)));
  }

  method DecodeContextUnsigned(data: Slice, pos: u32, expected: byte)
    returns (r: Result<(Option<u32>, u32), DecodeError>)
    ensures r == ContextUnsignedAt(data, pos, expected)
  {
    if pos >= |data| {
      return Success((None, pos));
    }
    var tag :- DecodeTag(data, pos);
    if !tag.context || tag.number != expected {
      return Success((None, pos));
    }
    var v :- DecodeUnsigned(data, pos + tag.headerLen, tag.lvt);
    return Success((Some(v), Plus(pos + tag.headerLen, tag.lvt)));
  }

  method DecodeContextObjectId(data: Slice, pos: u32, expected: byte)
    returns (r: Result<(Option<ObjectId>, u32), DecodeError>)
    ensures r == ContextObjectAt(data, pos, expected)
  {
    if pos >= |data| {
      return Success((None, pos));
    }
    var tag :- DecodeTag(data, pos);
    if !tag.context || tag.number != expected || tag.lvt != 4 {
      return Success((None, pos));
    }
    var o :- DecodeObjectId(data, pos + tag.headerLen);
    return Success((Some(o), Plus(pos + tag.headerLen, 4)));
  }

  method ExpectBracket(data: Slice, pos: u32, expected: byte, kind: u32) returns (r: Result<u32, DecodeError>)
    ensures r == BracketAt(data, pos, expected, kind)
  {
    var tag :- DecodeTag(data, pos);
    if !tag.context || tag.number != expected || tag.lvt != kind {
      return Failure(InvalidData);
    }
    return Success(pos + tag.headerLen);
  }

  // ------------------------------------------------------------------ services

  method NeedUnsigned(data: Slice, pos: u32, expected: byte) returns (r: Result<(u32, u32), DecodeError>)
    ensures r == UnsignedField(data, pos, expected)
  {
    var v :- DecodeContextUnsigned(data, pos, expected);
    if v.0.None? {
      return Failure(InvalidData);
    }
    return Success((v.0.value, v.1));
  }

  method NeedObjectId(data: Slice, pos: u32, expected: byte) returns (r: Result<(ObjectId, u32), DecodeError>)
    ensures r == ObjectField(data, pos, expected)
  {
    var o :- DecodeContextObjectId(data, pos, expected);
    if o.0.None? {
      return Failure(InvalidData);
    }
    return Success((o.0.value, o.1));
  }

  method DecodeBracketed(data: Slice, pos: u32, number: byte) returns (r: Result<(BacnetValue, u32), DecodeError>)
    ensures r == BracketedAt(data, pos, number)
  {
    hide BracketAt, ValueAt;
    var a :- ExpectBracket(data, pos, number, 6);
    var v :- DecodeAppValue(data, a);
    var c :- ExpectBracket(data, v.1, number, 7);
    return Success((v.0, c));
  }

  method DecodeReference(data: Slice) returns (r: Result<Reference, DecodeError>)
    ensures r == ReferenceAt(data)
  {
    hide ObjectField, UnsignedField, ContextUnsignedAt;
    var o :- NeedObjectId(data, 0, 0);
    var code :- NeedUnsigned(data, o.1, 1);
    var index :- DecodeContextUnsigned(data, code.1, 2);
    return Success(Reference(o.0, PropertyFromCode(code.0), index.0, index.1));
  }

  method DecodeWhoIs(data: Slice) returns (r: Result<Apdu, DecodeError>)
    ensures r == WhoIsOf(data)
  {
    hide ContextUnsignedAt;
    if data == [] {
      return Success(WhoIs(None, None));
    }
    var low :- DecodeContextUnsigned(data, 0, 0);
    var high :- DecodeContextUnsigned(data, low.1, 1);
    return Success(WhoIs(low.0, high.0));
  }

  method DecodeIAm(data: Slice) returns (r: Result<Apdu, DecodeError>)
    ensures r == IAmOf(data)
  {
    hide ValueAt;
    var device :- DecodeAppValue(data, 0);
    if !device.0.ObjectIdentifier? {
      return Failure(InvalidData);
    }
    var maxApdu :- DecodeAppValue(data, device.1);
    if !maxApdu.0.UnsignedInt? {
      return Failure(InvalidData);
    }
    var segmentation :- DecodeAppValue(data, maxApdu.1);
    if !segmentation.0.Enumerated? {
      return Failure(InvalidData);
    }
    var vendor :- DecodeAppValue(data, segmentation.1);
    if !vendor.0.UnsignedInt? {
      return Failure(InvalidData);
    }
    return Success(IAm(device.0.o, maxApdu.0.u, segmentation.0.e % 0x100, vendor.0.u % 0x1_0000));
  }

  method DecodeReadProperty(data: Slice, invokeId: byte) returns (r: Result<Apdu, DecodeError>)
    ensures r == ReadPropertyOf(data, invokeId)
  {
    hide ReferenceAt;
    var ref :- DecodeReference(data);
    return Success(ReadProperty(ref.o, ref.p, ref.index, invokeId));
  }

  method DecodeReadPropertyAck(data: Slice, invokeId: byte) returns (r: Result<Apdu, DecodeError>)
    ensures r == ReadPropertyAckOf(data, invokeId)
  {
    hide ReferenceAt, BracketedAt;
    var ref :- DecodeReference(data);
    var value :- DecodeBracketed(data, ref.next, 3);
    return Success(ReadPropertyAck(ref.o, ref.p, ref.index, value.0, invokeId));
  }

  method DecodeWriteProperty(data: Slice, invokeId: byte) returns (r: Result<Apdu, DecodeError>)
    ensures r == WritePropertyOf(data, invokeId)
  {
    hide ReferenceAt, BracketedAt, ContextUnsignedAt;
    var ref :- DecodeReference(data);
    var value :- DecodeBracketed(data, ref.next, 3);
    var priority :- DecodeContextUnsigned(data, value.1, 4);
    return Success(WriteProperty(ref.o, ref.p, ref.index, value.0,
                                 if priority.0.None? then None else Some(priority.0.value % 0x100), invokeId));
  }

  method DecodeSubscribeCov(data: Slice, invokeId: byte) returns (r: Result<Apdu, DecodeError>)
    ensures r == SubscribeCovOf(data, invokeId)
  {
    hide UnsignedField, ObjectField, ContextUnsignedAt;
    var process :- NeedUnsigned(data, 0, 0);
    var o :- NeedObjectId(data, process.1, 1);
    var confirmed :- DecodeContextUnsigned(data, o.1, 2);
    var lifetime :- DecodeContextUnsigned(data, confirmed.1, 3);
    return Success(SubscribeCov(process.0, o.0, confirmed.0.Some? && confirmed.0.value != 0, lifetime.0, invokeId));
  }

  method DecodeEntry(data: Slice, pos: u32) returns (r: Result<(Reading, u32), DecodeError>)
    ensures r == EntryAt(data, pos)
  {
    hide UnsignedField, ContextUnsignedAt, BracketedAt;
    var code :- NeedUnsigned(data, pos, 0);
    var index :- DecodeContextUnsigned(data, code.1, 1);
    var value :- DecodeBracketed(data, index.1, 2);
    return Success((Reading(PropertyFromCode(code.0), value.0), value.1));
  }

  /** The list of values, if there is one, its loop followed for so many rounds. */
  method DecodeList(data: Slice, start: u32, rounds: nat) returns (r: Result<Readings, DecodeError>)
    ensures r == ListWithin(data, start, rounds)
  {
    hide EntryAt, BracketAt, ClosingHere;
    var values: Readings := [];
    if start < |data| {
      var first :- ExpectBracket(data, start, 4, 6);
      var pos := first;
      var left := rounds;
      while !ClosingHere(data, pos, 4)
        invariant EntriesWithin(data, pos, values, left) == EntriesWithin(data, first, [], rounds)
        decreases left
      {
        if left == 0 {
          return Failure(Endless);
        }
        var e :- DecodeEntry(data, pos);
        if |values| < 8 {
          values := values + [e.0];
        }
        pos := e.1;
        left := left - 1;
      }
      var end :- ExpectBracket(data, pos, 4, 7);
    }
    return Success(values);
  }

  method DecodeUcovNotification(data: Slice, rounds: nat) returns (r: Result<Apdu, DecodeError>)
    ensures r == CovNotificationWithin(data, rounds)
  {
    hide UnsignedField, ObjectField, ListWithin;
    var process :- NeedUnsigned(data, 0, 0);
    var device :- NeedObjectId(data, process.1, 1);
    var o :- NeedObjectId(data, device.1, 2);
    var timeRemaining :- NeedUnsigned(data, o.1, 3);
    var values :- DecodeList(data, timeRemaining.1, rounds);
    return Success(CovNotification(process.0, device.0, o.0, timeRemaining.0, values));
  }

  method DecodeNumber(data: Slice, pos: u32) returns (r: Result<(u32, u32), DecodeError>)
    ensures r == NumberAt(data, pos)
  {
    hide TagAt, UnsignedAt;
    if pos >= |data| {
      return Success((0, pos));
    }
    var tag :- DecodeTag(data, pos);
    var v :- DecodeUnsigned(data, pos + tag.headerLen, tag.lvt);
    return Success((v, Plus(pos + tag.headerLen, tag.lvt)));
  }

  /** The decoder observed for any number of rounds of its list loop. */
  method DecodeApdu(data: Slice, rounds: nat) returns (r: Result<Apdu, DecodeError>)
    ensures r == ApduWithin(data, rounds)
  {
    hide WhoIsOf, IAmOf, ReadPropertyOf, ReadPropertyAckOf, WritePropertyOf, SubscribeCovOf, CovNotificationWithin,
         NumberAt;
    if data == [] {
      return Failure(UnexpectedEnd);
    }
    var pduType := data[0] / 16;
    if pduType == 1 {
      if |data| < 2 {
        return Failure(UnexpectedEnd);
      }
      var service := data[1];
      if service == WHO_IS {
        r := DecodeWhoIs(data[2..]);
      } else if service == I_AM {
        r := DecodeIAm(data[2..]);
      } else if service == UCOV_NOTIFICATION {
        r := DecodeUcovNotification(data[2..], rounds);
      } else {
        r := Success(Unknown(0x10, service));
      }
    } else if pduType == 0 {
      if |data| < 4 {
        return Failure(UnexpectedEnd);
      }
      var invokeId, service := data[2], data[3];
      if service == READ_PROPERTY {
        r := DecodeReadProperty(data[4..], invokeId);
      } else if service == WRITE_PROPERTY {
        r := DecodeWriteProperty(data[4..], invokeId);
      } else if service == SUBSCRIBE_COV {
        r := DecodeSubscribeCov(data[4..], invokeId);
      } else {
        r := Success(Unknown(0x00, service));
      }
    } else if pduType == 3 || pduType == 2 || pduType == 5 {
      if |data| < 3 {
        return Failure(UnexpectedEnd);
      }
      var invokeId, service := data[1], data[2];
      if pduType == 2 {
        r := Success(SimpleAck(invokeId, service));
      } else if pduType == 5 {
        var errorClass :- DecodeNumber(data, 3);
        var errorCode :- DecodeNumber(data, errorClass.1);
        r := Success(Error(invokeId, service, errorClass.0 % 0x1_0000, errorCode.0 % 0x1_0000));
      } else if service == READ_PROPERTY {
        r := DecodeReadPropertyAck(data[3..], invokeId);
      } else {
        r := Success(Unknown(0x30, service));
      }
    } else {
      r := Success(Unknown(pduType * 16, if |data| > 1 then data[1] else 0));
    }
  }
}
