/** The BACnet types of bridge-core/src/bacnet.rs: object and property identifiers, values. */
module Bacnet {
  import opened Words

  datatype ObjectType =
    | AnalogInput | AnalogOutput | AnalogValue | BinaryInput | BinaryOutput | BinaryValue | Calendar
    | Device | MultiStateInput | MultiStateOutput | NotificationClass | Schedule | MultiStateValue | TrendLog
  {
    function Code(): (c: u16)
      ensures FromCode(c) == Some(this)
    {
      match this
      case AnalogInput => 0
      case AnalogOutput => 1
      case AnalogValue => 2
      case BinaryInput => 3
      case BinaryOutput => 4
      case BinaryValue => 5
      case Calendar => 6
      case Device => 8
      case MultiStateInput => 13
      case MultiStateOutput => 14
      case NotificationClass => 15
      case Schedule => 17
      case MultiStateValue => 19
      case TrendLog => 20
    }
  }

  function FromCode(code: nat): (t: Option<ObjectType>) {
    match code
    case 0 => Some(AnalogInput)
    case 1 => Some(AnalogOutput)
    case 2 => Some(AnalogValue)
    case 3 => Some(BinaryInput)
    case 4 => Some(BinaryOutput)
    case 5 => Some(BinaryValue)
    case 6 => Some(Calendar)
    case 8 => Some(Device)
    case 13 => Some(MultiStateInput)
    case 14 => Some(MultiStateOutput)
    case 15 => Some(NotificationClass)
    case 17 => Some(Schedule)
    case 19 => Some(MultiStateValue)
    case 20 => Some(TrendLog)
    case _ => None
  }

  datatype ObjectId = ObjectId(objectType: ObjectType, instance: u32)

  /** An instance number has 22 bits. */
  const INSTANCE_SPAN: int := 0x40_0000

  function ToRaw(o: ObjectId): (raw: u32)
  {
    o.objectType.Code() * INSTANCE_SPAN + o.instance % INSTANCE_SPAN
  }

  function FromRaw(raw: u32): Option<ObjectId> {
    var t := FromCode(raw / INSTANCE_SPAN);
    if t.None? then None else Some(ObjectId(t.value, raw % INSTANCE_SPAN))
  }

  /** An identifier survives the packing exactly when its instance has 22 bits. */
  lemma RawReadsBackExactly(o: ObjectId)
    ensures FromRaw(ToRaw(o)) == Some(o) <==> o.instance < INSTANCE_SPAN
  {
    var c, i := o.objectType.Code(), o.instance % INSTANCE_SPAN;
    assert ToRaw(o) / INSTANCE_SPAN == c && ToRaw(o) % INSTANCE_SPAN == i;
  }

  /** What unpacks packs again to the same word. */
  lemma RawRepacks(raw: u32)
    requires FromRaw(raw).Some?
    ensures ToRaw(FromRaw(raw).value) == raw && FromRaw(raw).value.instance < INSTANCE_SPAN
  {
  }

  datatype PropertyId =
    | Description | DeviceType | ObjectIdentifierProperty | ObjectName | ObjectTypeProperty | OutOfService
    | PresentValue | StatusFlags | Units
    | Raw(code: u32)

  function PropertyCode(p: PropertyId): u32 {
    match p
    case Description => 28
    case DeviceType => 31
    case ObjectIdentifierProperty => 75
    case ObjectName => 77
    case ObjectTypeProperty => 79
    case OutOfService => 81
    case PresentValue => 85
    case StatusFlags => 111
    case Units => 117
    case Raw(v) => v
  }

  function PropertyFromCode(code: u32): PropertyId {
    match code
    case 28 => Description
    case 31 => DeviceType
    case 75 => ObjectIdentifierProperty
    case 77 => ObjectName
    case 79 => ObjectTypeProperty
    case 81 => OutOfService
    case 85 => PresentValue
    case 111 => StatusFlags
    case 117 => Units
    case other => Raw(other)
  }

  const NAMED_CODES: set<int> := {28, 31, 75, 77, 79, 81, 85, 111, 117}

  /** A property survives its code unless it is a named one given by number. */
  lemma PropertyReadsBackExactly(p: PropertyId)
    ensures PropertyFromCode(PropertyCode(p)) == p <==> !(p.Raw? && p.code in NAMED_CODES)
  {
  }

  // ------------------------------------------------------------------ text

  predicate Continues(b: byte) {
    0x80 <= b < 0xC0
  }

  /** The length of the well-formed UTF-8 sequence (RFC 3629, section 4) that `s` begins with, or 0. */
  function CharLength(s: seq<byte>): (n: nat)
    ensures n <= |s| && n <= 4
    ensures forall k :: 1 <= k < n ==> Continues(s[k])
    ensures n > 0 ==> !Continues(s[0])
  {
    if s == [] then 0
    else if s[0] < 0x80 then 1
    else if 0xC2 <= s[0] < 0xE0 && |s| >= 2 && Continues(s[1]) then 2
    else if 0xE0 <= s[0] < 0xF0 && |s| >= 3 && Continues(s[1]) && Continues(s[2])
         && (s[0] == 0xE0 ==> s[1] >= 0xA0) && (s[0] == 0xED ==> s[1] < 0xA0) then 3
    else if 0xF0 <= s[0] < 0xF5 && |s| >= 4 && Continues(s[1]) && Continues(s[2]) && Continues(s[3])
         && (s[0] == 0xF0 ==> s[1] >= 0x90) && (s[0] == 0xF4 ==> s[1] < 0x90) then 4
    else 0
  }

  predicate Utf8Valid(s: seq<byte>) {
    s == [] || (var n := CharLength(s); n > 0 && Utf8Valid(s[n..]))
  }

  /** `is_char_boundary`. */
  predicate CharBoundary(s: seq<byte>, k: nat)
    requires k <= |s|
  {
    k == 0 || k == |s| || !Continues(s[k])
  }

  lemma CharOfPrefix(s: seq<byte>, k: nat)
    requires CharLength(s) > 0 && CharLength(s) <= k <= |s|
    ensures CharLength(s[..k]) == CharLength(s)
  {
  }

  /** Cut at a boundary, well-formed text stays well-formed. */
  lemma {:induction false} CutAtBoundary(s: seq<byte>, k: nat)
    requires Utf8Valid(s) && k <= |s| && CharBoundary(s, k)
    ensures Utf8Valid(s[..k])
  {
    if k > 0 {
      var n := CharLength(s);
      if n <= k {
        CharOfPrefix(s, k);
        assert s[..k][n..] == s[n..][..k - n];
        CutAtBoundary(s[n..], k - n);
      }
    }
  }

  type Text64 = s: seq<byte> | |s| <= 64 && Utf8Valid(s)

  // ------------------------------------------------------------------ values

  /** A `Real` is its 32 bits. */
  datatype BacnetValue =
    | Null
    | Boolean(b: bool)
    | UnsignedInt(u: u32)
    | SignedInt(i: i32)
    | Real(bits: u32)
    | CharString(s: Text64)
    | Enumerated(e: u32)
    | ObjectIdentifier(o: ObjectId)
}
