/** The encoders of bridge-core/src/apdu.rs, writing into the caller's buffer: each succeeds exactly
    when the buffer holds the message, and leaves what follows the message alone. */
module ApduEncoder {
  import opened Words
  import opened Octets
  import opened Numbers
  import opened Bacnet
  import opened ApduValues
  import opened ApduMessages

  // ------------------------------------------------------------------ elements

  /** The number in as many octets as it needs, behind a tag octet whose high part is `base`. */
  method EncodeUnsigned(base: byte, val: u32, buf: array<byte>, pos: nat) returns (r: Result<nat, EncodeError>)
    requires base <= 0xFB
    modifies buf
    ensures Puts(r, old(buf[..]), buf[..], pos, [base + UnsignedLength(val)] + BeBytes(val, UnsignedLength(val)))
  {
    UnsignedOctets(val);
    hide BeBytes;
    if val <= 0xFF {
      r := Put(buf, pos, [base + 1, val]);
    } else if val <= 0xFFFF {
      r := Put(buf, pos, [base + 2, val / 0x100, val % 0x100]);
    } else if val <= 0xFF_FFFF {
      r := Put(buf, pos, [base + 3, val / 0x1_0000, val / 0x100 % 0x100, val % 0x100]);
    } else {
      r := Put(buf, pos, [base + 4, val / 0x100_0000, val / 0x1_0000 % 0x100, val / 0x100 % 0x100, val % 0x100]);
    }
  }

  lemma UnsignedOctets(v: u32)
    ensures BeBytes(v, UnsignedLength(v)) ==
            if v <= 0xFF then [v] else if v <= 0xFFFF then [v / 0x100, v % 0x100]
            else if v <= 0xFF_FFFF then [v / 0x1_0000, v / 0x100 % 0x100, v % 0x100]
            else [v / 0x100_0000, v / 0x1_0000 % 0x100, v / 0x100 % 0x100, v % 0x100]
  {
    hide BeBytes;
    FourBytes(v);
    LowOctets(v);
  }

  method EncodeAppUnsigned(val: u32, buf: array<byte>, pos: nat) returns (r: Result<nat, EncodeError>)
    modifies buf
    ensures Puts(r, old(buf[..]), buf[..], pos, UnsignedElement(2, false, val))
  {
    r := EncodeUnsigned(0x20, val, buf, pos);
  }

  method EncodeAppEnumerated(val: u32, buf: array<byte>, pos: nat) returns (r: Result<nat, EncodeError>)
    modifies buf
    ensures Puts(r, old(buf[..]), buf[..], pos, UnsignedElement(9, false, val))
  {
    r := EncodeUnsigned(0x90, val, buf, pos);
  }

  method EncodeContextUnsigned(tag: nibble, val: u32, buf: array<byte>, pos: nat) returns (r: Result<nat, EncodeError>)
    modifies buf
    ensures Puts(r, old(buf[..]), buf[..], pos, UnsignedElement(tag, true, val))
  {
    r := EncodeUnsigned(tag * 16 + 8, val, buf, pos);
  }

  method EncodeAppObjectId(o: ObjectId, buf: array<byte>, pos: nat) returns (r: Result<nat, EncodeError>)
    modifies buf
    ensures Puts(r, old(buf[..]), buf[..], pos, ObjectElement(12, false, o))
  {
    FourBytes(ToRaw(o));
    var raw := ToRaw(o);
    r := Put(buf, pos, [0xC4, raw / 0x100_0000, raw / 0x1_0000 % 0x100, raw / 0x100 % 0x100, raw % 0x100]);
  }

  method EncodeContextObjectId(tag: nibble, o: ObjectId, buf: array<byte>, pos: nat)
    returns (r: Result<nat, EncodeError>)
    modifies buf
    ensures Puts(r, old(buf[..]), buf[..], pos, ObjectElement(tag, true, o))
  {
    FourBytes(ToRaw(o));
    var raw := ToRaw(o);
    r := Put(buf, pos, [tag * 16 + 0x0C, raw / 0x100_0000, raw / 0x1_0000 % 0x100, raw / 0x100 % 0x100, raw % 0x100]);
  }

  method EncodeOpeningTag(tag: nibble, buf: array<byte>, pos: nat) returns (r: Result<nat, EncodeError>)
    modifies buf
    ensures Puts(r, old(buf[..]), buf[..], pos, Opening(tag))
  {
    r := Put(buf, pos, [tag * 16 + 0x0E]);
  }

  method EncodeClosingTag(tag: nibble, buf: array<byte>, pos: nat) returns (r: Result<nat, EncodeError>)
    modifies buf
    ensures Puts(r, old(buf[..]), buf[..], pos, Closing(tag))
  {
    r := Put(buf, pos, [tag * 16 + 0x0F]);
  }

  /** Four octets of which the last one, two, or all four are written. */
  method EncodeSigned(v: i32, buf: array<byte>, pos: nat) returns (r: Result<nat, EncodeError>)
    modifies buf
    ensures Puts(r, old(buf[..]), buf[..], pos, Element(3, false, SignedContent(v)))
  {
    var bytes := BeBytes(v % WRAP, 4);
    var len := if -128 <= v <= 127 then 1 else if -32768 <= v <= 32767 then 2 else 4;
    SignedTail(v);
    r := Put(buf, pos, [0x30 + len] + bytes[4 - len..]);
  }

  lemma SignedTail(v: i32)
    ensures SignedContent(v) == BeBytes(v % WRAP, 4)[4 - SignedLength(v)..]
  {
    var n := SignedLength(v);
    BeBytesTail(v % WRAP, 4, n);
    hide BeBytes, SignedLength;
    PowersOf256();
    LowPart(v);
  }

  method EncodeText(s: Text64, buf: array<byte>, pos: nat) returns (r: Result<nat, EncodeError>)
    modifies buf
    ensures Puts(r, old(buf[..]), buf[..], pos, TextElement(s))
  {
    var slen := |s| + 1;
    if slen <= 4 {
      r := Put(buf, pos, [0x70 + slen, 0x00] + s);
    } else {
      r := Put(buf, pos, [0x75, slen, 0x00] + s);
    }
  }

  method EncodeAppValue(val: BacnetValue, buf: array<byte>, pos: nat) returns (r: Result<nat, EncodeError>)
    modifies buf
    ensures Puts(r, old(buf[..]), buf[..], pos, ValueBytes(val))
  {
    hide Puts, UnsignedElement, ObjectElement, TextElement, SignedContent, BeBytes;
    match val
    case Null => r := Put(buf, pos, [0x00]);
    case Boolean(b) => r := Put(buf, pos, [if b then 0x11 else 0x10]);
    case UnsignedInt(v) => r := EncodeAppUnsigned(v, buf, pos);
    case SignedInt(v) => r := EncodeSigned(v, buf, pos);
    case Real(bits) => r := Put(buf, pos, [0x44] + BeBytes(bits, 4));
    case CharString(s) => r := EncodeText(s, buf, pos);
    case Enumerated(v) => r := EncodeAppEnumerated(v, buf, pos);
    case ObjectIdentifier(o) => r := EncodeAppObjectId(o, buf, pos);
  }

  // ------------------------------------------------------------------ parts of messages

  method EncodeOptional(tag: nibble, v: Option<u32>, buf: array<byte>, pos: nat) returns (r: Result<nat, EncodeError>)
    requires pos <= buf.Length
    modifies buf
    ensures Puts(r, old(buf[..]), buf[..], pos, Optional(tag, v))
  {
    if v.Some? {
      r := EncodeContextUnsigned(tag, v.value, buf, pos);
    } else {
      return Success(pos);
    }
  }

  method EncodeReference(o: ObjectId, p: PropertyId, index: Option<u32>, buf: array<byte>, pos: nat)
    returns (r: Result<nat, EncodeError>)
    modifies buf
    ensures Puts(r, old(buf[..]), buf[..], pos, PropertyRef(o, p, index))
  {
    hide Puts, ObjectElement, UnsignedElement, Optional, PropertyCode;
    ghost var was, whole := buf[..], PropertyRef(o, p, index);
    ghost var a, b := ObjectElement(0, true, o), UnsignedElement(1, true, PropertyCode(p));
    r := EncodeContextObjectId(0, o, buf, pos);
    First(r, was, buf[..], pos, a, whole);
    if r.Failure? { return; }
    ghost var mid := buf[..];
    r := EncodeContextUnsigned(1, PropertyCode(p), buf, r.value);
    Next(r, was, mid, buf[..], pos, a, b, whole);
    if r.Failure? { return; }
    mid := buf[..];
    FitsThere(r, was, mid, pos, a + b);
    r := EncodeOptional(2, index, buf, r.value);
    Next(r, was, mid, buf[..], pos, a + b, Optional(2, index), whole);
  }

  method EncodeBracketed(tag: nibble, v: BacnetValue, buf: array<byte>, pos: nat) returns (r: Result<nat, EncodeError>)
    modifies buf
    ensures Puts(r, old(buf[..]), buf[..], pos, Bracketed(tag, v))
  {
    hide Puts, Opening, Closing, ValueBytes;
    ghost var was, whole := buf[..], Bracketed(tag, v);
    r := EncodeOpeningTag(tag, buf, pos);
    First(r, was, buf[..], pos, Opening(tag), whole);
    if r.Failure? { return; }
    ghost var mid := buf[..];
    r := EncodeAppValue(v, buf, r.value);
    Next(r, was, mid, buf[..], pos, Opening(tag), ValueBytes(v), whole);
    if r.Failure? { return; }
    mid := buf[..];
    r := EncodeClosingTag(tag, buf, r.value);
    Next(r, was, mid, buf[..], pos, Opening(tag) + ValueBytes(v), Closing(tag), whole);
  }

  method EncodeEntry(e: Reading, buf: array<byte>, pos: nat) returns (r: Result<nat, EncodeError>)
    modifies buf
    ensures Puts(r, old(buf[..]), buf[..], pos, EntryBytes(e))
  {
    hide Puts, UnsignedElement, Bracketed, PropertyCode;
    ghost var was, whole, first := buf[..], EntryBytes(e), UnsignedElement(0, true, PropertyCode(e.property));
    r := EncodeContextUnsigned(0, PropertyCode(e.property), buf, pos);
    First(r, was, buf[..], pos, first, whole);
    if r.Failure? { return; }
    ghost var mid := buf[..];
    r := EncodeBracketed(2, e.value, buf, r.value);
    Next(r, was, mid, buf[..], pos, first, Bracketed(2, e.value), whole);
  }

  lemma EntriesSoFar(values: seq<Reading>, k: nat)
    requires k < |values|
    ensures EntriesBytes(values[..k + 1]) == EntriesBytes(values[..k]) + EntryBytes(values[k])
    ensures |EntriesBytes(values[..k])| + |EntryBytes(values[k])| <= |EntriesBytes(values)|
  {
    hide EntryBytes;
    assert values[..k + 1][..k] == values[..k];
    PrefixLength(values, k + 1);
  }

  lemma {:induction false} PrefixLength(values: seq<Reading>, k: nat)
    requires k <= |values|
    ensures |EntriesBytes(values[..k])| <= |EntriesBytes(values)|
  {
    hide EntryBytes;
    if k < |values| {
      var n := |values| - 1;
      PrefixLength(values[..n], k);
      assert values[..n][..k] == values[..k];
    } else {
      assert values[..k] == values;
    }
  }

  method EncodeEntries(values: seq<Reading>, buf: array<byte>, pos: nat) returns (r: Result<nat, EncodeError>)
    requires pos <= buf.Length
    modifies buf
    ensures Puts(r, old(buf[..]), buf[..], pos, EntriesBytes(values))
  {
    hide *;
    ghost var was, whole := buf[..], EntriesBytes(values);
    r := Success(pos);
    var i := 0;
    NoEntriesYet(was, pos, values);
    while i < |values|
      invariant 0 <= i <= |values|
      invariant r == Success(pos + |EntriesBytes(values[..i])|)
      invariant Puts(r, was, buf[..], pos, EntriesBytes(values[..i]))
    {
      ghost var mid := buf[..];
      EntriesSoFar(values, i);
      r := EncodeEntry(values[i], buf, r.value);
      Next(r, was, mid, buf[..], pos, EntriesBytes(values[..i]), EntryBytes(values[i]), whole);
      if r.Failure? { return; }
      i := i + 1;
    }
    assert values[..|values|] == values;
  }

  lemma NoEntriesYet(was: seq<byte>, pos: nat, values: seq<Reading>)
    requires pos <= |was|
    ensures EntriesBytes(values[..0]) == [] && Puts(Success(pos), was, was, pos, [])
  {
  }

  method EncodeList(values: seq<Reading>, buf: array<byte>, pos: nat) returns (r: Result<nat, EncodeError>)
    modifies buf
    ensures Puts(r, old(buf[..]), buf[..], pos, ListBytes(values))
  {
    hide Puts, EntriesBytes;
    ghost var was, whole := buf[..], ListBytes(values);
    r := EncodeOpeningTag(4, buf, pos);
    First(r, was, buf[..], pos, Opening(4), whole);
    if r.Failure? { return; }
    ghost var mid := buf[..];
    FitsThere(r, was, mid, pos, Opening(4));
    r := EncodeEntries(values, buf, r.value);
    Next(r, was, mid, buf[..], pos, Opening(4), EntriesBytes(values), whole);
    if r.Failure? { return; }
    mid := buf[..];
    r := EncodeClosingTag(4, buf, r.value);
    Next(r, was, mid, buf[..], pos, Opening(4) + EntriesBytes(values), Closing(4), whole);
  }

  // ------------------------------------------------------------------ services

  method EncodeWhoIs(low: Option<u32>, high: Option<u32>, buf: array<byte>) returns (r: Result<nat, EncodeError>)
    modifies buf
    ensures Puts(r, old(buf[..]), buf[..], 0, Wire(WhoIs(low, high)))
  {
    hide Puts, UnsignedElement;
    ghost var was, whole, head := buf[..], Wire(WhoIs(low, high)), [0x10, WHO_IS];
    r := Put(buf, 0, [0x10, WHO_IS]);
    First(r, was, buf[..], 0, head, whole);
    if r.Failure? { return; }
    if low.Some? && high.Some? {
      ghost var a, b := UnsignedElement(0, true, low.value), UnsignedElement(1, true, high.value);
      assert whole == head + a + b;
      ghost var mid := buf[..];
      r := EncodeContextUnsigned(0, low.value, buf, r.value);
      Next(r, was, mid, buf[..], 0, head, a, whole);
      if r.Failure? { return; }
      mid := buf[..];
      r := EncodeContextUnsigned(1, high.value, buf, r.value);
      Next(r, was, mid, buf[..], 0, head + a, b, whole);
    } else {
      assert whole == head;
    }
  }

  method EncodeIAm(device: ObjectId, maxApdu: u32, segmentation: byte, vendor: u16, buf: array<byte>)
    returns (r: Result<nat, EncodeError>)
    modifies buf
    ensures Puts(r, old(buf[..]), buf[..], 0, Wire(IAm(device, maxApdu, segmentation, vendor)))
  {
    hide Puts, UnsignedElement, ObjectElement;
    ghost var was, whole, head := buf[..], Wire(IAm(device, maxApdu, segmentation, vendor)), [0x10, I_AM];
    ghost var a, b, c, d := ObjectElement(12, false, device), UnsignedElement(2, false, maxApdu),
        UnsignedElement(9, false, segmentation), UnsignedElement(2, false, vendor);
    InOrder(head, a, b, c, d);
    r := Put(buf, 0, [0x10, I_AM]);
    First(r, was, buf[..], 0, head, whole);
    if r.Failure? { return; }
    ghost var mid := buf[..];
    r := EncodeAppObjectId(device, buf, r.value);
    Next(r, was, mid, buf[..], 0, head, a, whole);
    if r.Failure? { return; }
    mid := buf[..];
    r := EncodeAppUnsigned(maxApdu, buf, r.value);
    Next(r, was, mid, buf[..], 0, head + a, b, whole);
    if r.Failure? { return; }
    mid := buf[..];
    r := EncodeAppEnumerated(segmentation, buf, r.value);
    Next(r, was, mid, buf[..], 0, head + a + b, c, whole);
    if r.Failure? { return; }
    mid := buf[..];
    r := EncodeAppUnsigned(vendor, buf, r.value);
    Next(r, was, mid, buf[..], 0, head + a + b + c, d, whole);
  }

  lemma InOrder(head: seq<byte>, a: seq<byte>, b: seq<byte>, c: seq<byte>, d: seq<byte>)
    ensures head + (a + b + c + d) == head + a + b + c + d
    ensures head + (a + b + c) == head + a + b + c
    ensures head + (a + b) == head + a + b
  {
  }

  method EncodeReadProperty(o: ObjectId, p: PropertyId, index: Option<u32>, invokeId: byte, buf: array<byte>)
    returns (r: Result<nat, EncodeError>)
    modifies buf
    ensures Puts(r, old(buf[..]), buf[..], 0, Wire(ReadProperty(o, p, index, invokeId)))
  {
    hide Puts, PropertyRef;
    ghost var was, whole := buf[..], Wire(ReadProperty(o, p, index, invokeId));
    var head := [0x00, 0x05, invokeId, READ_PROPERTY];
    r := Put(buf, 0, head);
    First(r, was, buf[..], 0, head, whole);
    if r.Failure? { return; }
    ghost var mid := buf[..];
    r := EncodeReference(o, p, index, buf, r.value);
    Next(r, was, mid, buf[..], 0, head, PropertyRef(o, p, index), whole);
  }

  method EncodeReadPropertyAck(o: ObjectId, p: PropertyId, index: Option<u32>, value: BacnetValue, invokeId: byte,
                               buf: array<byte>)
    returns (r: Result<nat, EncodeError>)
    modifies buf
    ensures Puts(r, old(buf[..]), buf[..], 0, Wire(ReadPropertyAck(o, p, index, value, invokeId)))
  {
    hide Puts, PropertyRef, Bracketed;
    ghost var was, whole := buf[..], Wire(ReadPropertyAck(o, p, index, value, invokeId));
    ghost var a, b := PropertyRef(o, p, index), Bracketed(3, value);
    var head := [0x30, invokeId, READ_PROPERTY];
    InOrder(head, a, b, [], []);
    r := Put(buf, 0, head);
    First(r, was, buf[..], 0, head, whole);
    if r.Failure? { return; }
    ghost var mid := buf[..];
    r := EncodeReference(o, p, index, buf, r.value);
    Next(r, was, mid, buf[..], 0, head, a, whole);
    if r.Failure? { return; }
    mid := buf[..];
    r := EncodeBracketed(3, value, buf, r.value);
    Next(r, was, mid, buf[..], 0, head + a, b, whole);
  }

  method EncodeWriteProperty(o: ObjectId, p: PropertyId, index: Option<u32>, value: BacnetValue,
                             priority: Option<byte>, invokeId: byte,
                             buf: array<byte>)
    returns (r: Result<nat, EncodeError>)
    modifies buf
    ensures Puts(r, old(buf[..]), buf[..], 0, Wire(WriteProperty(o, p, index, value, priority, invokeId)))
  {
    hide Puts, PropertyRef, Bracketed, Optional;
    ghost var was, whole := buf[..], Wire(WriteProperty(o, p, index, value, priority, invokeId));
    var wide := if priority.None? then None else Some(priority.value);
    ghost var a, b, c := PropertyRef(o, p, index), Bracketed(3, value), Optional(4, wide);
    var head := [0x00, 0x05, invokeId, WRITE_PROPERTY];
    InOrder(head, a, b, c, []);
    r := Put(buf, 0, head);
    First(r, was, buf[..], 0, head, whole);
    if r.Failure? { return; }
    ghost var mid := buf[..];
    r := EncodeReference(o, p, index, buf, r.value);
    Next(r, was, mid, buf[..], 0, head, a, whole);
    if r.Failure? { return; }
    mid := buf[..];
    r := EncodeBracketed(3, value, buf, r.value);
    Next(r, was, mid, buf[..], 0, head + a, b, whole);
    if r.Failure? { return; }
    mid := buf[..];
    FitsThere(r, was, mid, 0, head + a + b);
    r := EncodeOptional(4, wide, buf, r.value);
    Next(r, was, mid, buf[..], 0, head + a + b, c, whole);
  }

  method EncodeSimpleAck(invokeId: byte, service: byte, buf: array<byte>) returns (r: Result<nat, EncodeError>)
    modifies buf
    ensures Puts(r, old(buf[..]), buf[..], 0, Wire(SimpleAck(invokeId, service)))
  {
    assert Wire(SimpleAck(invokeId, service)) == [0x20, invokeId, service];
    r := Put(buf, 0, [0x20, invokeId, service]);
  }

  method EncodeError(invokeId: byte, service: byte, errorClass: u16, errorCode: u16, buf: array<byte>)
    returns (r: Result<nat, EncodeError>)
    modifies buf
    ensures Puts(r, old(buf[..]), buf[..], 0, Wire(Error(invokeId, service, errorClass, errorCode)))
  {
    hide Puts, UnsignedElement;
    ghost var was, whole := buf[..], Wire(Error(invokeId, service, errorClass, errorCode));
    ghost var a, b := UnsignedElement(9, false, errorClass), UnsignedElement(9, false, errorCode);
    var head := [0x50, invokeId, service];
    InOrder(head, a, b, [], []);
    r := Put(buf, 0, head);
    First(r, was, buf[..], 0, head, whole);
    if r.Failure? { return; }
    ghost var mid := buf[..];
    r := EncodeAppEnumerated(errorClass, buf, r.value);
    Next(r, was, mid, buf[..], 0, head, a, whole);
    if r.Failure? { return; }
    mid := buf[..];
    r := EncodeAppEnumerated(errorCode, buf, r.value);
    Next(r, was, mid, buf[..], 0, head + a, b, whole);
  }

  method EncodeSubscribeCov(process: u32, o: ObjectId, confirmed: bool, lifetime: Option<u32>, invokeId: byte,
                            buf: array<byte>)
    returns (r: Result<nat, EncodeError>)
    modifies buf
    ensures Puts(r, old(buf[..]), buf[..], 0, Wire(SubscribeCov(process, o, confirmed, lifetime, invokeId)))
  {
    hide Puts, UnsignedElement, ObjectElement, Optional;
    ghost var was, whole := buf[..], Wire(SubscribeCov(process, o, confirmed, lifetime, invokeId));
    var flag := if confirmed then 1 else 0;
    ghost var a, b, c, d := UnsignedElement(0, true, process), ObjectElement(1, true, o),
        UnsignedElement(2, true, flag), Optional(3, lifetime);
    var head := [0x00, 0x05, invokeId, SUBSCRIBE_COV];
    InOrder(head, a, b, c, d);
    r := Put(buf, 0, head);
    First(r, was, buf[..], 0, head, whole);
    if r.Failure? { return; }
    ghost var mid := buf[..];
    r := EncodeContextUnsigned(0, process, buf, r.value);
    Next(r, was, mid, buf[..], 0, head, a, whole);
    if r.Failure? { return; }
    mid := buf[..];
    r := EncodeContextObjectId(1, o, buf, r.value);
    Next(r, was, mid, buf[..], 0, head + a, b, whole);
    if r.Failure? { return; }
    mid := buf[..];
    r := EncodeContextUnsigned(2, flag, buf, r.value);
    Next(r, was, mid, buf[..], 0, head + a + b, c, whole);
    if r.Failure? { return; }
    mid := buf[..];
    FitsThere(r, was, mid, 0, head + a + b + c);
    r := EncodeOptional(3, lifetime, buf, r.value);
    Next(r, was, mid, buf[..], 0, head + a + b + c, d, whole);
  }

  lemma InLongerOrder(head: seq<byte>, a: seq<byte>, b: seq<byte>, c: seq<byte>, d: seq<byte>, e: seq<byte>)
    ensures head + (a + b + c + d + e) == head + a + b + c + d + e
  {
  }

  method EncodeUcovNotification(process: u32, device: ObjectId, o: ObjectId, timeRemaining: u32, values: Readings,
                                buf: array<byte>)
    returns (r: Result<nat, EncodeError>)
    modifies buf
    ensures Puts(r, old(buf[..]), buf[..], 0, Wire(CovNotification(process, device, o, timeRemaining, values)))
  {
    hide Puts, UnsignedElement, ObjectElement, ListBytes;
    ghost var was, whole, head := buf[..], Wire(CovNotification(process, device, o, timeRemaining, values)),
        [0x10, UCOV_NOTIFICATION];
    ghost var a, b, c, d, e := UnsignedElement(0, true, process), ObjectElement(1, true, device),
        ObjectElement(2, true, o),
        UnsignedElement(3, true, timeRemaining), ListBytes(values);
    InLongerOrder(head, a, b, c, d, e);
    r := Put(buf, 0, [0x10, UCOV_NOTIFICATION]);
    First(r, was, buf[..], 0, head, whole);
    if r.Failure? { return; }
    ghost var mid := buf[..];
    r := EncodeContextUnsigned(0, process, buf, r.value);
    Next(r, was, mid, buf[..], 0, head, a, whole);
    if r.Failure? { return; }
    mid := buf[..];
    r := EncodeContextObjectId(1, device, buf, r.value);
    Next(r, was, mid, buf[..], 0, head + a, b, whole);
    if r.Failure? { return; }
    mid := buf[..];
    r := EncodeContextObjectId(2, o, buf, r.value);
    Next(r, was, mid, buf[..], 0, head + a + b, c, whole);
    if r.Failure? { return; }
    mid := buf[..];
    r := EncodeContextUnsigned(3, timeRemaining, buf, r.value);
    Next(r, was, mid, buf[..], 0, head + a + b + c, d, whole);
    if r.Failure? { return; }
    mid := buf[..];
    r := EncodeList(values, buf, r.value);
    Next(r, was, mid, buf[..], 0, head + a + b + c + d, e, whole);
  }
}
