/** The devices and points that `BridgeStateInner` of bridge-core/src/bridge.rs tracks: the
    table the arrays hold, slot by slot, and what its operations do to it. */
module BridgeTable {
  import opened Words
  import opened Bacnet

  const MAX_DEVICES := 8
  const MAX_POINTS := 64

  // ------------------------------------------------------------------ names

  const NAME_CAPACITY := 32

  function Width(c: char): nat {
    if c < 0x80 as char then 1 else if c < 0x800 as char then 2 else if c as int < 0x1_0000 then 3 else 4
  }

  function Utf8Size(s: seq<char>): nat {
    if s == [] then 0 else Utf8Size(s[..|s| - 1]) + Width(s[|s| - 1])
  }

  /** What is stored of a name: each character that still fits. */
  function Stored(s: seq<char>): (t: seq<char>)
    ensures Utf8Size(t) <= NAME_CAPACITY
  {
    if s == [] then [] else
      var t := Stored(s[..|s| - 1]);
      var c := s[|s| - 1];
      if Utf8Size(t) + Width(c) <= NAME_CAPACITY then assert (t + [c])[..|t|] == t; t + [c] else t
  }

  /** A name that fits is stored whole. */
  lemma {:induction false} ShortNamesKept(s: seq<char>)
    ensures Stored(s) == s <==> Utf8Size(s) <= 32
  {
    if s != [] {
      ShortNamesKept(s[..|s| - 1]);
      assert s == s[..|s| - 1] + [s[|s| - 1]];
    }
  }

  // ------------------------------------------------------------------ entries

  datatype DeviceEntry = DeviceEntry(
    deviceId: u32, name: seq<char>, vendor: seq<char>, mac: byte, online: bool, lastSeen: u32, addr: seq<byte>,
    pointsLoaded: bool)

  const EMPTY_DEVICE := DeviceEntry(0, [], [], 0xFF, false, 0, [0, 0, 0, 0, 0, 0], false)

  datatype PointEntry = PointEntry(
    objectId: ObjectId, name: seq<char>, description: seq<char>, presentValue: Option<BacnetValue>, unit: u16,
    writable: bool, dirty: bool)

  /** The occupied device slots, and the points of all eight slots. */
  datatype Table = Table(devices: seq<DeviceEntry>, lists: seq<seq<PointEntry>>)

  ghost predicate Shaped(t: Table) {
    && |t.devices| <= MAX_DEVICES && |t.lists| == MAX_DEVICES
    && forall s :: 0 <= s < MAX_DEVICES ==> |t.lists[s]| <= MAX_POINTS
  }

  const NO_DEVICES := Table([], [[], [], [], [], [], [], [], []])

  // ------------------------------------------------------------------ operations

  /** The first slot with this identifier. */
  function SlotOf(devices: seq<DeviceEntry>, id: u32): (r: Option<nat>)
    ensures r.Some? ==> r.value < |devices| && devices[r.value].deviceId == id
                        && forall k :: 0 <= k < r.value ==> devices[k].deviceId != id
    ensures r.None? ==> forall k :: 0 <= k < |devices| ==> devices[k].deviceId != id
  {
    if devices == [] then None
    else if devices[0].deviceId == id then Some(0)
    else
      var rest := SlotOf(devices[1..], id);
      if rest.None? then None else Some(rest.value + 1)
  }

  /** The first point for this object. */
  function PlaceOf(list: seq<PointEntry>, o: ObjectId): (r: Option<nat>)
    ensures r.Some? ==> r.value < |list| && list[r.value].objectId == o
                        && forall k :: 0 <= k < r.value ==> list[k].objectId != o
    ensures r.None? ==> forall k :: 0 <= k < |list| ==> list[k].objectId != o
  {
    if list == [] then None
    else if list[0].objectId == o then Some(0)
    else
      var rest := PlaceOf(list[1..], o);
      if rest.None? then None else Some(rest.value + 1)
  }

  /** A device heard from again. */
  function SeenAgain(d: DeviceEntry, mac: byte, name: seq<char>): DeviceEntry {
    if name == [] then d.(mac := mac) else d.(mac := mac, name := Stored(name))
  }

  function NewDevice(id: u32, mac: byte, name: seq<char>): DeviceEntry {
    EMPTY_DEVICE.(deviceId := id, mac := mac, name := Stored(name))
  }

  /** The slot that `upsert_device` returns. */
  function UpsertSlot(t: Table, id: u32): nat {
    var found := SlotOf(t.devices, id);
    if found.Some? then found.value else if |t.devices| < MAX_DEVICES then |t.devices| else 0
  }

  function Upsert(t: Table, id: u32, mac: byte, name: seq<char>): (u: Table)
    requires Shaped(t)
    ensures Shaped(u)
  {
    var found := SlotOf(t.devices, id);
    if found.Some? then t.(devices := t.devices[found.value := SeenAgain(t.devices[found.value], mac, name)])
    else if |t.devices| < MAX_DEVICES then t.(devices := t.devices + [NewDevice(id, mac, name)])
    else Table(t.devices[0 := NewDevice(id, mac, name)], t.lists[0 := []])
  }

  function Touched(p: PointEntry, value: BacnetValue, unit: u16): PointEntry {
    p.(presentValue := Some(value), unit := unit, dirty := true)
  }

  function NewPoint(o: ObjectId, value: BacnetValue, unit: u16): PointEntry {
    PointEntry(o, [], [], Some(value), unit, false, true)
  }

  function ListUpdate(list: seq<PointEntry>, o: ObjectId, value: BacnetValue, unit: u16): seq<PointEntry> {
    var at := PlaceOf(list, o);
    if at.Some? then list[at.value := Touched(list[at.value], value, unit)]
    else if |list| < MAX_POINTS then list + [NewPoint(o, value, unit)]
    else list
  }

  function ListUnit(list: seq<PointEntry>, o: ObjectId, unit: u16): seq<PointEntry> {
    var at := PlaceOf(list, o);
    if at.None? then list else list[at.value := list[at.value].(unit := unit)]
  }

  function ListClean(list: seq<PointEntry>, place: nat): seq<PointEntry> {
    if place < |list| then list[place := list[place].(dirty := false)] else list
  }

  function UnitOf(list: seq<PointEntry>, o: ObjectId): u16 {
    var at := PlaceOf(list, o);
    if at.None? then 0 else list[at.value].unit
  }

  datatype Operation =
    | UpsertDevice(id: u32, mac: byte, name: seq<char>)
    | UpdatePoint(slot: nat, o: ObjectId, value: BacnetValue, unit: u16)
    | UpdateUnit(slot: nat, o: ObjectId, unit: u16)
    | MarkClean(slot: nat, place: nat)

  function Step(t: Table, op: Operation): (u: Table)
    requires Shaped(t)
    ensures Shaped(u)
  {
    match op
    case UpsertDevice(id, mac, name) => Upsert(t, id, mac, name)
    case UpdatePoint(slot, o, value, unit) =>
      if slot >= MAX_DEVICES then t else t.(lists := t.lists[slot := ListUpdate(t.lists[slot], o, value, unit)])
    case UpdateUnit(slot, o, unit) =>
      if slot >= MAX_DEVICES then t else t.(lists := t.lists[slot := ListUnit(t.lists[slot], o, unit)])
    case MarkClean(slot, place) =>
      if slot >= MAX_DEVICES || place >= MAX_POINTS then t
      else t.(lists := t.lists[slot := ListClean(t.lists[slot], place)])
  }
}
