/** `BridgeStateInner` of bridge-core/src/bridge.rs: fixed arrays, searched and updated in place. */
module BridgeState {
  import opened Words
  import opened Bacnet
  import opened BridgeTable

  class Bridge {
    const devices: array<DeviceEntry>
    var deviceCount: nat
    const points: array2<Option<PointEntry>>
    const pointCounts: array<nat>
    /** The table the arrays hold. */
    ghost var table: Table

    /** Occupied slots come first, and say what the table says. */
    ghost predicate Valid()
      reads this, devices, points, pointCounts
    {
      && devices.Length == MAX_DEVICES && pointCounts.Length == MAX_DEVICES
      && points.Length0 == MAX_DEVICES && points.Length1 == MAX_POINTS
      && Shaped(table) && deviceCount == |table.devices|
      && devices[..deviceCount] == table.devices
      && (forall s :: 0 <= s < MAX_DEVICES ==> pointCounts[s] == |table.lists[s]|)
      && forall s, j :: 0 <= s < MAX_DEVICES && 0 <= j < MAX_POINTS ==>
           points[s, j] == if j < |table.lists[s]| then Some(table.lists[s][j]) else None
    }

    constructor ()
      ensures Valid() && table == NO_DEVICES
      ensures fresh(devices) && fresh(points) && fresh(pointCounts)
      ensures forall i :: 0 <= i < devices.Length ==>
                devices[i] == DeviceEntry(0, [], [], 0xFF, false, 0, [0, 0, 0, 0, 0, 0], false)
    {
      NothingListed();
      hide NO_DEVICES;
      devices := new DeviceEntry[MAX_DEVICES](i => EMPTY_DEVICE);
      deviceCount := 0;
      points := new Option<PointEntry>[MAX_DEVICES, MAX_POINTS]((i, j) => None);
      pointCounts := new nat[MAX_DEVICES](i => 0);
      table := NO_DEVICES;
    }

    static lemma NothingListed()
      ensures Shaped(NO_DEVICES) && NO_DEVICES.devices == []
      ensures forall s :: 0 <= s < MAX_DEVICES ==> NO_DEVICES.lists[s] == []
    {
    }

    method FindDevice(id: u32) returns (r: Option<nat>)
      requires Valid()
      ensures r == SlotOf(table.devices, id)
    {
      var i := 0;
      while i < deviceCount
        invariant 0 <= i <= deviceCount
        invariant forall k :: 0 <= k < i ==> table.devices[k].deviceId != id
      {
        assert devices[i] == devices[..deviceCount][i];
        if devices[i].deviceId == id {
          return Some(i);
        }
        i := i + 1;
      }
      return None;
    }

    static method StoreName(name: seq<char>) returns (stored: seq<char>)
      ensures stored == Stored(name)
    {
      stored := [];
      var i := 0;
      while i < |name|
        invariant 0 <= i <= |name| && stored == Stored(name[..i])
      {
        assert name[..i + 1][..i] == name[..i];
        if Utf8Size(stored) + Width(name[i]) <= NAME_CAPACITY {
          stored := stored + [name[i]];
        }
        i := i + 1;
      }
      assert name[..|name|] == name;
    }

    method UpsertDevice(id: u32, mac: byte, name: seq<char>) returns (slot: nat)
      requires Valid()
      modifies this, devices, points, pointCounts
      ensures Valid() && table == Upsert(old(table), id, mac, name) && slot == UpsertSlot(old(table), id)
      ensures slot < deviceCount && table.devices[slot].deviceId == id
    {
      hide SeenAgain, NewDevice, Stored;
      NewDeviceId(id, mac, name);
      var found := FindDevice(id);
      if found.Some? {
        slot := found.value;
        SeeAgain(slot, mac, name);
        SeenAgainId(table.devices[slot], mac, name);
        table := Upsert(table, id, mac, name);
        return;
      }
      table := Upsert(table, id, mac, name);
      if deviceCount < MAX_DEVICES {
        slot := deviceCount;
        deviceCount := deviceCount + 1;
      } else {
        pointCounts[0] := 0;
        ClearPoints(0);
        slot := 0;
      }
      Occupy(slot, id, mac, name);
    }

    static lemma NewDeviceId(id: u32, mac: byte, name: seq<char>)
      ensures NewDevice(id, mac, name).deviceId == id
    {
    }

    static lemma SeenAgainId(d: DeviceEntry, mac: byte, name: seq<char>)
      ensures SeenAgain(d, mac, name).deviceId == d.deviceId
    {
    }

    method SeeAgain(slot: nat, mac: byte, name: seq<char>)
      requires slot < devices.Length
      modifies devices
      ensures devices[..] == old(devices[..])[slot := SeenAgain(old(devices[slot]), mac, name)]
    {
      devices[slot] := devices[slot].(mac := mac);
      if name != [] {
        var stored := StoreName(name);
        devices[slot] := devices[slot].(name := stored);
      }
    }

    method Occupy(slot: nat, id: u32, mac: byte, name: seq<char>)
      requires slot < devices.Length
      modifies devices
      ensures devices[..] == old(devices[..])[slot := NewDevice(id, mac, name)]
    {
      devices[slot] := EMPTY_DEVICE;
      devices[slot] := devices[slot].(deviceId := id);
      devices[slot] := devices[slot].(mac := mac);
      if name != [] {
        var stored := StoreName(name);
        devices[slot] := devices[slot].(name := stored);
      }
    }

    method ClearPoints(slot: nat)
      requires points.Length0 == MAX_DEVICES && points.Length1 == MAX_POINTS && slot < MAX_DEVICES
      modifies points
      ensures forall j :: 0 <= j < MAX_POINTS ==> points[slot, j] == None
      ensures forall s, j :: 0 <= s < MAX_DEVICES && 0 <= j < MAX_POINTS && s != slot ==>
                points[s, j] == old(points[s, j])
    {
      var j := 0;
      while j < MAX_POINTS
        invariant 0 <= j <= MAX_POINTS
        invariant forall k :: 0 <= k < j ==> points[slot, k] == None
        invariant forall s, k :: 0 <= s < MAX_DEVICES && 0 <= k < MAX_POINTS && s != slot ==>
                  points[s, k] == old(points[s, k])
      {
        points[slot, j] := None;
        j := j + 1;
      }
    }

    /** The search loop of the point operations. */
    method FindPoint(slot: nat, o: ObjectId) returns (r: Option<nat>)
      requires Valid() && slot < MAX_DEVICES
      ensures r == PlaceOf(table.lists[slot], o)
      ensures r.Some? ==> points[slot, r.value] == Some(table.lists[slot][r.value])
    {
      var i := 0;
      while i < pointCounts[slot]
        invariant 0 <= i <= pointCounts[slot]
        invariant forall k :: 0 <= k < i ==> table.lists[slot][k].objectId != o
      {
        assert points[slot, i] == Some(table.lists[slot][i]);
        if points[slot, i].Some? && points[slot, i].value.objectId == o {
          return Some(i);
        }
        i := i + 1;
      }
      return None;
    }

    static lemma UpdatedList(list: seq<PointEntry>, o: ObjectId, value: BacnetValue, unit: u16)
      ensures var at, after := PlaceOf(list, o), ListUpdate(list, o, value, unit);
              if at.Some? then after == list[at.value := Touched(list[at.value], value, unit)]
              else if |list| < MAX_POINTS then after == list + [NewPoint(o, value, unit)]
              else after == list
    {
    }

    method UpdatePoint(slot: nat, o: ObjectId, value: BacnetValue, unit: u16)
      requires Valid()
      modifies this`table, points, pointCounts
      ensures Valid() && table == Step(old(table), BridgeTable.UpdatePoint(slot, o, value, unit))
    {
      if slot >= MAX_DEVICES {
        return;
      }
      UpdatedList(table.lists[slot], o, value, unit);
      hide ListUpdate, Touched, NewPoint, PlaceOf;
      var count := pointCounts[slot];
      var found := FindPoint(slot, o);
      if found.Some? {
        ReplacePoint(slot, found.value, Touched(points[slot, found.value].value, value, unit));
        return;
      }
      if count < MAX_POINTS {
        AddPoint(slot, NewPoint(o, value, unit));
      }
    }

    method ReplacePoint(slot: nat, place: nat, p: PointEntry)
      requires Valid() && slot < MAX_DEVICES && place < |table.lists[slot]|
      modifies this`table, points
      ensures Valid() && table == WithList(old(table), slot, old(table).lists[slot][place := p])
    {
      table := WithList(table, slot, table.lists[slot][place := p]);
      points[slot, place] := Some(p);
    }

    method AddPoint(slot: nat, p: PointEntry)
      requires Valid() && slot < MAX_DEVICES && |table.lists[slot]| < MAX_POINTS
      modifies this`table, points, pointCounts
      ensures Valid() && table == WithList(old(table), slot, old(table).lists[slot] + [p])
    {
      var count := pointCounts[slot];
      table := WithList(table, slot, table.lists[slot] + [p]);
      points[slot, count] := Some(p);
      pointCounts[slot] := pointCounts[slot] + 1;
    }

    static ghost function WithList(t: Table, slot: nat, list: seq<PointEntry>): Table
      requires Shaped(t) && slot < MAX_DEVICES
    {
      t.(lists := t.lists[slot := list])
    }

    method UpdatePointUnit(slot: nat, o: ObjectId, unit: u16)
      requires Valid()
      modifies this`table, points
      ensures Valid() && table == Step(old(table), UpdateUnit(slot, o, unit))
    {
      if slot >= MAX_DEVICES {
        return;
      }
      var found := FindPoint(slot, o);
      if found.Some? {
        ReplacePoint(slot, found.value, points[slot, found.value].value.(unit := unit));
      }
    }

    method GetPointUnit(slot: nat, o: ObjectId) returns (unit: u16)
      requires Valid()
      ensures unit == if slot >= MAX_DEVICES then 0 else UnitOf(table.lists[slot], o)
    {
      if slot >= MAX_DEVICES {
        return 0;
      }
      var found := FindPoint(slot, o);
      if found.Some? {
        return points[slot, found.value].value.unit;
      }
      return 0;
    }

    method MarkClean(slot: nat, place: nat)
      requires Valid()
      modifies this`table, points
      ensures Valid() && table == Step(old(table), BridgeTable.MarkClean(slot, place))
    {
      if slot >= MAX_DEVICES || place >= MAX_POINTS {
        return;
      }
      if points[slot, place].Some? {
        ReplacePoint(slot, place, points[slot, place].value.(dirty := false));
      }
    }
  }
}
