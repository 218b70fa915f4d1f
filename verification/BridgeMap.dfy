/** The bridge's table as a nested map: devices by identifier, their points by object. */
module BridgeMap {
  import opened Words
  import opened Bacnet
  import opened BridgeTable

  datatype Tracked = Tracked(entry: DeviceEntry, points: map<ObjectId, PointEntry>)

  type Tracks = map<u32, Tracked>

  // ------------------------------------------------------------------ tidy tables

  ghost predicate DistinctIds(devices: seq<DeviceEntry>) {
    forall i, j :: 0 <= i < j < |devices| ==> devices[i].deviceId != devices[j].deviceId
  }

  ghost predicate DistinctObjects(list: seq<PointEntry>) {
    forall i, j :: 0 <= i < j < |list| ==> list[i].objectId != list[j].objectId
  }

  /** No device twice, no object twice, no points without a device. */
  ghost predicate Tidy(t: Table) {
    && Shaped(t) && DistinctIds(t.devices)
    && (forall s :: 0 <= s < MAX_DEVICES ==> DistinctObjects(t.lists[s]))
    && forall s :: |t.devices| <= s < MAX_DEVICES ==> t.lists[s] == []
  }

  /** The operation writes points only for a tracked device. */
  predicate UsesTrackedSlot(t: Table, op: Operation) {
    op.UpdatePoint? ==> op.slot < |t.devices| || op.slot >= MAX_DEVICES
  }

  lemma ListStaysDistinct(list: seq<PointEntry>, o: ObjectId, value: BacnetValue, unit: u16, place: nat)
    requires DistinctObjects(list)
    ensures DistinctObjects(ListUpdate(list, o, value, unit))
    ensures DistinctObjects(ListUnit(list, o, unit)) && DistinctObjects(ListClean(list, place))
  {
  }

  lemma ListGrows(list: seq<PointEntry>, o: ObjectId, value: BacnetValue, unit: u16)
    ensures ListUpdate(list, o, value, unit) != []
    ensures list == [] ==> ListUnit(list, o, unit) == [] && ListClean(list, 0) == []
  {
  }

  /** A tidy table stays tidy exactly when the operation uses a tracked device's slot. */
  lemma StaysTidyExactly(t: Table, op: Operation)
    requires Tidy(t)
    ensures Tidy(Step(t, op)) <==> UsesTrackedSlot(t, op)
  {
    match op
    case UpsertDevice(id, mac, name) => UpsertStaysTidy(t, id, mac, name);
    case UpdatePoint(slot, o, value, unit) =>
      if slot < MAX_DEVICES {
        ListStaysDistinct(t.lists[slot], o, value, unit, 0);
        ListGrows(t.lists[slot], o, value, unit);
        assert Step(t, op).lists[slot] != [];
      }
    case UpdateUnit(slot, o, unit) =>
      if slot < MAX_DEVICES {
        ListStaysDistinct(t.lists[slot], o, Null, unit, 0);
      }
    case MarkClean(slot, place) =>
      if slot < MAX_DEVICES {
        ListStaysDistinct(t.lists[slot], ObjectId(Device, 0), Null, 0, place);
      }
  }

  lemma UpsertStaysTidy(t: Table, id: u32, mac: byte, name: seq<char>)
    requires Tidy(t)
    ensures Tidy(Upsert(t, id, mac, name))
  {
  }

  // ------------------------------------------------------------------ the map a table stands for

  function PointMap(list: seq<PointEntry>): (m: map<ObjectId, PointEntry>)
  {
    if list == [] then map[] else PointMap(list[..|list| - 1])[list[|list| - 1].objectId := list[|list| - 1]]
  }

  function TracksIn(devices: seq<DeviceEntry>, lists: seq<seq<PointEntry>>): Tracks
    requires |devices| <= |lists|
  {
    if devices == [] then map[]
    else
      var n := |devices| - 1;
      TracksIn(devices[..n], lists)[devices[n].deviceId := Tracked(devices[n], PointMap(lists[n]))]
  }

  lemma {:induction false} PointMapIs(list: seq<PointEntry>)
    requires DistinctObjects(list)
    ensures forall k :: 0 <= k < |list| ==>
              list[k].objectId in PointMap(list) && PointMap(list)[list[k].objectId] == list[k]
    ensures forall o :: o in PointMap(list) ==> exists k :: 0 <= k < |list| && list[k].objectId == o
  {
    if list != [] {
      var n := |list| - 1;
      PointMapIs(list[..n]);
      assert forall k :: 0 <= k < n ==> list[..n][k] == list[k];
    }
  }

  lemma {:induction false} PointMapSize(list: seq<PointEntry>)
    requires DistinctObjects(list)
    ensures |PointMap(list)| == |list|
  {
    if list != [] {
      var n := |list| - 1;
      PointMapSize(list[..n]);
      NotYetThere(list);
      OneMoreKey(PointMap(list[..n]), list[n].objectId, list[n]);
    }
  }

  lemma NotYetThere(list: seq<PointEntry>)
    requires DistinctObjects(list) && |list| > 0
    ensures list[|list| - 1].objectId !in PointMap(list[..|list| - 1])
  {
    hide PointMap;
    PointMapIs(list[..|list| - 1]);
  }

  lemma OneMoreKey(m: map<ObjectId, PointEntry>, o: ObjectId, p: PointEntry)
    requires o !in m
    ensures |m[o := p]| == |m| + 1
  {
    assert m[o := p].Keys == m.Keys + {o};
  }

  lemma {:induction false} TracksIs(devices: seq<DeviceEntry>, lists: seq<seq<PointEntry>>)
    requires |devices| <= |lists| && DistinctIds(devices)
    ensures forall s :: 0 <= s < |devices| ==>
              && devices[s].deviceId in TracksIn(devices, lists)
              && TracksIn(devices, lists)[devices[s].deviceId] == Tracked(devices[s], PointMap(lists[s]))
    ensures forall id :: id in TracksIn(devices, lists) ==> exists s :: 0 <= s < |devices| && devices[s].deviceId == id
  {
    hide PointMap;
    if devices != [] {
      var n := |devices| - 1;
      TracksIs(devices[..n], lists);
      assert forall k :: 0 <= k < n ==> devices[..n][k] == devices[k];
    }
  }

  // ------------------------------------------------------------------ what happens to the map

  /** An operation by what it names: devices and objects instead of slots and places. */
  datatype Event =
    | Seen(id: u32, mac: byte, name: seq<char>, evicting: Option<u32>)
    | Updated(id: u32, o: ObjectId, value: BacnetValue, unit: u16)
    | UnitSet(id: u32, o: ObjectId, unit: u16)
    | Cleaned(id: u32, o: ObjectId)
    | Nothing

  /** What an operation means in a table. */
  function EventOf(t: Table, op: Operation): Event
    requires Shaped(t)
  {
    match op
    case UpsertDevice(id, mac, name) =>
      var full := SlotOf(t.devices, id).None? && |t.devices| == MAX_DEVICES;
      Seen(id, mac, name, if full then Some(t.devices[0].deviceId) else None)
    case UpdatePoint(slot, o, value, unit) =>
      if slot < |t.devices| then Updated(t.devices[slot].deviceId, o, value, unit) else Nothing
    case UpdateUnit(slot, o, unit) =>
      if slot < |t.devices| then UnitSet(t.devices[slot].deviceId, o, unit) else Nothing
    case MarkClean(slot, place) =>
      if slot < |t.devices| && place < |t.lists[slot]|
      then Cleaned(t.devices[slot].deviceId, t.lists[slot][place].objectId)
      else Nothing
  }

  function PointsUpdate(m: map<ObjectId, PointEntry>, o: ObjectId, value: BacnetValue, unit: u16)
    : map<ObjectId, PointEntry>
  {
    if o in m then m[o := Touched(m[o], value, unit)]
    else if |m| < MAX_POINTS then m[o := NewPoint(o, value, unit)]
    else m
  }

  function PointsUnit(m: map<ObjectId, PointEntry>, o: ObjectId, unit: u16): map<ObjectId, PointEntry> {
    if o in m then m[o := m[o].(unit := unit)] else m
  }

  function PointsClean(m: map<ObjectId, PointEntry>, o: ObjectId): map<ObjectId, PointEntry> {
    if o in m then m[o := m[o].(dirty := false)] else m
  }

  /** The nested map's own operations. */
  function Apply(b: Tracks, e: Event): Tracks {
    match e
    case Seen(id, mac, name, evicting) =>
      if id in b then b[id := b[id].(entry := SeenAgain(b[id].entry, mac, name))]
      else if evicting.Some? then (b - {evicting.value})[id := Tracked(NewDevice(id, mac, name), map[])]
      else b[id := Tracked(NewDevice(id, mac, name), map[])]
    case Updated(id, o, value, unit) =>
      if id in b then b[id := b[id].(points := PointsUpdate(b[id].points, o, value, unit))] else b
    case UnitSet(id, o, unit) => if id in b then b[id := b[id].(points := PointsUnit(b[id].points, o, unit))] else b
    case Cleaned(id, o) => if id in b then b[id := b[id].(points := PointsClean(b[id].points, o))] else b
    case Nothing => b
  }

  function TracksOf(t: Table): Tracks
    requires Shaped(t)
  {
    TracksIn(t.devices, t.lists)
  }

  lemma ListIsMap(list: seq<PointEntry>, o: ObjectId)
    requires DistinctObjects(list)
    ensures o in PointMap(list) <==> PlaceOf(list, o).Some?
    ensures PlaceOf(list, o).Some? ==> PointMap(list)[o] == list[PlaceOf(list, o).value]
  {
    hide PointMap, PlaceOf;
    PointMapIs(list);
  }

  lemma {:induction false} PointMapSet(list: seq<PointEntry>, k: nat, p: PointEntry)
    requires DistinctObjects(list) && k < |list| && p.objectId == list[k].objectId
    ensures PointMap(list[k := p]) == PointMap(list)[p.objectId := p]
  {
    var n := |list| - 1;
    var now := list[k := p];
    if k == n {
      assert now[..n] == list[..n];
    } else {
      assert now[..n] == list[..n][k := p] && now[n] == list[n];
      PointMapSet(list[..n], k, p);
    }
  }

  lemma KnownPointChanges(list: seq<PointEntry>, o: ObjectId, value: BacnetValue, unit: u16)
    requires DistinctObjects(list) && PlaceOf(list, o).Some?
    ensures PointMap(ListUpdate(list, o, value, unit)) == PointsUpdate(PointMap(list), o, value, unit)
    ensures PointMap(ListUnit(list, o, unit)) == PointsUnit(PointMap(list), o, unit)
  {
    hide PlaceOf, PointMap;
    ListIsMap(list, o);
    var at := PlaceOf(list, o);
    var p := list[at.value];
    PointMapSet(list, at.value, Touched(p, value, unit));
    PointMapSet(list, at.value, p.(unit := unit));
  }

  lemma PointMapSnoc(list: seq<PointEntry>, p: PointEntry)
    ensures PointMap(list + [p]) == PointMap(list)[p.objectId := p]
  {
    assert (list + [p])[..|list|] == list;
  }

  /** List and map change alike. */
  lemma ListRefinesMap(list: seq<PointEntry>, o: ObjectId, value: BacnetValue, unit: u16)
    requires DistinctObjects(list)
    ensures PointMap(ListUpdate(list, o, value, unit)) == PointsUpdate(PointMap(list), o, value, unit)
    ensures PointMap(ListUnit(list, o, unit)) == PointsUnit(PointMap(list), o, unit)
  {
    hide PlaceOf, PointMap;
    if PlaceOf(list, o).Some? {
      KnownPointChanges(list, o, value, unit);
    } else {
      ListIsMap(list, o);
      PointMapSize(list);
      PointMapSnoc(list, NewPoint(o, value, unit));
    }
  }

  lemma CleanRefinesMap(list: seq<PointEntry>, place: nat)
    requires DistinctObjects(list) && place < |list|
    ensures PointMap(ListClean(list, place)) == PointsClean(PointMap(list), list[place].objectId)
  {
    hide PointMap;
    PointMapIs(list);
    PointMapSet(list, place, list[place].(dirty := false));
  }

  lemma SlotIsKey(t: Table, slot: nat)
    requires Shaped(t) && DistinctIds(t.devices) && slot < |t.devices|
    ensures t.devices[slot].deviceId in TracksOf(t)
    ensures TracksOf(t)[t.devices[slot].deviceId] == Tracked(t.devices[slot], PointMap(t.lists[slot]))
  {
    TracksIs(t.devices, t.lists);
  }

  lemma {:induction false} TracksSet(devices: seq<DeviceEntry>, lists: seq<seq<PointEntry>>, slot: nat,
                                     d: DeviceEntry, list: seq<PointEntry>)
    requires |devices| <= |lists| && DistinctIds(devices) && slot < |devices| && d.deviceId == devices[slot].deviceId
    ensures TracksIn(devices[slot := d], lists[slot := list])
            == TracksIn(devices, lists)[d.deviceId := Tracked(d, PointMap(list))]
  {
    hide PointMap;
    var n := |devices| - 1;
    var now := devices[slot := d];
    if slot == n {
      assert now[..n] == devices[..n];
      TracksFrame(devices[..n], lists, lists[slot := list]);
    } else {
      assert now[..n] == devices[..n][slot := d] && now[n] == devices[n];
      TracksSet(devices[..n], lists, slot, d, list);
    }
  }

  lemma {:induction false} TracksFrame(devices: seq<DeviceEntry>, lists: seq<seq<PointEntry>>,
                                       others: seq<seq<PointEntry>>)
    requires |devices| <= |lists| == |others| && forall s :: 0 <= s < |devices| ==> others[s] == lists[s]
    ensures TracksIn(devices, lists) == TracksIn(devices, others)
  {
    if devices != [] {
      TracksFrame(devices[..|devices| - 1], lists, others);
    }
  }

  lemma PointsChange(t: Table, slot: nat, list: seq<PointEntry>)
    requires Tidy(t) && slot < |t.devices|
    ensures TracksIn(t.devices, t.lists[slot := list])
            == TracksOf(t)[t.devices[slot].deviceId := Tracked(t.devices[slot], PointMap(list))]
  {
    hide TracksIn, PointMap;
    var d := t.devices[slot];
    assert t.devices[slot := d] == t.devices;
    TracksSet(t.devices, t.lists, slot, d, list);
  }

  lemma SameTracksOf(t: Table, slot: nat, list: seq<PointEntry>)
    requires Shaped(t) && |t.devices| <= slot < MAX_DEVICES
    ensures TracksIn(t.devices, t.lists[slot := list]) == TracksOf(t)
  {
    TracksFrame(t.devices, t.lists, t.lists[slot := list]);
  }

  lemma UpsertRefines(t: Table, id: u32, mac: byte, name: seq<char>)
    requires Tidy(t)
    ensures TracksOf(Upsert(t, id, mac, name)) == Apply(TracksOf(t), EventOf(t, UpsertDevice(id, mac, name)))
  {
    hide PointMap, TracksIn, SlotOf, SeenAgain, NewDevice, Tidy;
    InTracksOf(t, id);
    NewId(id, mac, name);
    var found := SlotOf(t.devices, id);
    if found.Some? {
      SameId(t.devices[found.value], mac, name);
      KnownDevice(t, found.value, SeenAgain(t.devices[found.value], mac, name));
    } else if |t.devices| < MAX_DEVICES {
      NewLast(t, NewDevice(id, mac, name));
    } else {
      NewFirst(t, NewDevice(id, mac, name));
    }
  }

  lemma InTracksOf(t: Table, id: u32)
    requires Tidy(t)
    ensures Shaped(t)
    ensures id in TracksOf(t) <==> SlotOf(t.devices, id).Some?
    ensures id in TracksOf(t) ==>
              var s := SlotOf(t.devices, id).value; TracksOf(t)[id] == Tracked(t.devices[s], PointMap(t.lists[s]))
  {
    hide PointMap, TracksIn, SlotOf;
    TracksIs(t.devices, t.lists);
  }

  lemma SameId(d: DeviceEntry, mac: byte, name: seq<char>)
    ensures SeenAgain(d, mac, name).deviceId == d.deviceId
  {
  }

  lemma NewId(id: u32, mac: byte, name: seq<char>)
    ensures NewDevice(id, mac, name).deviceId == id
  {
  }

  lemma KnownDevice(t: Table, slot: nat, d: DeviceEntry)
    requires Tidy(t) && slot < |t.devices| && d.deviceId == t.devices[slot].deviceId
    ensures d.deviceId in TracksOf(t)
    ensures TracksIn(t.devices[slot := d], t.lists) == TracksOf(t)[d.deviceId := TracksOf(t)[d.deviceId].(entry := d)]
  {
    hide PointMap;
    SlotIsKey(t, slot);
    assert t.lists[slot := t.lists[slot]] == t.lists;
    TracksSet(t.devices, t.lists, slot, d, t.lists[slot]);
  }

  lemma NewLast(t: Table, d: DeviceEntry)
    requires Tidy(t) && |t.devices| < MAX_DEVICES
    ensures TracksIn(t.devices + [d], t.lists) == TracksOf(t)[d.deviceId := Tracked(d, map[])]
  {
    assert (t.devices + [d])[..|t.devices|] == t.devices;
    assert PointMap(t.lists[|t.devices|]) == map[];
  }

  /** Slot 0's device and its points go, nobody else's. */
  lemma NewFirst(t: Table, d: DeviceEntry)
    requires Tidy(t) && |t.devices| == MAX_DEVICES && SlotOf(t.devices, d.deviceId).None?
    ensures TracksIn(t.devices[0 := d], t.lists[0 := []])
            == (TracksOf(t) - {t.devices[0].deviceId})[d.deviceId := Tracked(d, map[])]
  {
    hide SlotOf, TracksIn, PointMap;
    var u := Table(t.devices[0 := d], t.lists[0 := []]);
    NoPointsAtAll();
    var c := (TracksOf(t) - {t.devices[0].deviceId})[d.deviceId := Tracked(d, map[])];
    forall id: u32
      ensures id in TracksOf(u) <==> id in c
      ensures id in c ==> TracksOf(u)[id] == c[id]
    {
      InTracksOf(t, id);
      InTracksOf(u, id);
      SlotsAround(t.devices, d, id);
    }
  }

  lemma NoPointsAtAll()
    ensures PointMap([]) == map[]
  {
  }

  lemma SlotsAround(devices: seq<DeviceEntry>, d: DeviceEntry, id: u32)
    requires |devices| > 0 && DistinctIds(devices) && SlotOf(devices, d.deviceId).None?
    ensures id == d.deviceId ==> SlotOf(devices[0 := d], id) == Some(0)
    ensures id == devices[0].deviceId ==> SlotOf(devices[0 := d], id).None? && SlotOf(devices, id) == Some(0)
    ensures id != d.deviceId && id != devices[0].deviceId ==> SlotOf(devices[0 := d], id) == SlotOf(devices, id)
    ensures SlotOf(devices, id) == Some(0) ==> id == devices[0].deviceId
  {
    hide SlotOf;
    assert devices[0].deviceId != d.deviceId && devices[0 := d][0] == d;
    var a, b := SlotOf(devices[0 := d], id), SlotOf(devices, id);
    assert forall k :: 0 < k < |devices| ==> devices[0 := d][k] == devices[k];
    if a.Some? && b.Some? && a.value > 0 && b.value > 0 {
      assert devices[a.value].deviceId == devices[b.value].deviceId;
    }
  }

  /** One operation on the slots is one event on the nested map. */
  lemma StepRefinesMap(t: Table, op: Operation)
    requires Tidy(t) && UsesTrackedSlot(t, op)
    ensures TracksOf(Step(t, op)) == Apply(TracksOf(t), EventOf(t, op))
  {
    hide TracksIn, PointMap, ListUpdate, ListUnit, ListClean, PointsUpdate, PointsUnit, PointsClean;
    match op
    case UpsertDevice(id, mac, name) => UpsertRefines(t, id, mac, name);
    case UpdatePoint(slot, o, value, unit) =>
      if slot < |t.devices| {
        SlotIsKey(t, slot);
        PointsChange(t, slot, ListUpdate(t.lists[slot], o, value, unit));
        ListRefinesMap(t.lists[slot], o, value, unit);
      }
    case UpdateUnit(slot, o, unit) =>
      if slot < |t.devices| {
        SlotIsKey(t, slot);
        PointsChange(t, slot, ListUnit(t.lists[slot], o, unit));
        ListRefinesMap(t.lists[slot], o, Null, unit);
      } else if slot < MAX_DEVICES {
        SameTracksOf(t, slot, ListUnit(t.lists[slot], o, unit));
      }
    case MarkClean(slot, place) => CleanStep(t, slot, place);
  }

  lemma CleanStep(t: Table, slot: nat, place: nat)
    requires Tidy(t)
    ensures TracksOf(Step(t, MarkClean(slot, place))) == Apply(TracksOf(t), EventOf(t, MarkClean(slot, place)))
  {
    hide TracksIn, PointMap, PointsClean;
    if slot < |t.devices| && place < |t.lists[slot]| {
      SlotIsKey(t, slot);
      PointsChange(t, slot, ListClean(t.lists[slot], place));
      CleanRefinesMap(t.lists[slot], place);
    } else if slot < MAX_DEVICES && place < MAX_POINTS {
      assert t.lists[slot := t.lists[slot]] == t.lists;
    }
  }

  // ------------------------------------------------------------------ whole histories

  function Run(ops: seq<Operation>): (t: Table)
    ensures Shaped(t)
  {
    if ops == [] then NO_DEVICES else Step(Run(ops[..|ops| - 1]), ops[|ops| - 1])
  }

  /** Every point update used the slot of a device tracked at the time. */
  ghost predicate WellUsed(ops: seq<Operation>) {
    forall k :: 0 <= k < |ops| ==> UsesTrackedSlot(Run(ops[..k]), ops[k])
  }

  function Events(ops: seq<Operation>): (es: seq<Event>)
    ensures |es| == |ops|
  {
    if ops == [] then [] else
      Events(ops[..|ops| - 1]) + [EventOf(Run(ops[..|ops| - 1]), ops[|ops| - 1])]
  }

  function ApplyAll(es: seq<Event>): Tracks {
    if es == [] then map[] else Apply(ApplyAll(es[..|es| - 1]), es[|es| - 1])
  }

  /** After any history the arrays are the nested map of the events, devices and objects distinct,
      occupied slots contiguous, no points without a device. */
  lemma {:induction false} HistoryRefinesMap(ops: seq<Operation>)
    requires WellUsed(ops)
    ensures Tidy(Run(ops)) && TracksOf(Run(ops)) == ApplyAll(Events(ops))
  {
    hide Step, Apply, EventOf, TracksIn;
    if ops == [] {
      NothingYet();
    } else {
      var n := |ops| - 1;
      assert WellUsed(ops[..n]) by {
        forall k | 0 <= k < n
          ensures UsesTrackedSlot(Run(ops[..n][..k]), ops[..n][k])
        {
          assert ops[..n][..k] == ops[..k];
        }
      }
      HistoryRefinesMap(ops[..n]);
      StaysTidyExactly(Run(ops[..n]), ops[n]);
      StepRefinesMap(Run(ops[..n]), ops[n]);
      assert Events(ops)[..n] == Events(ops[..n]);
    }
  }

  lemma NothingYet()
    ensures Tidy(NO_DEVICES) && TracksIn(NO_DEVICES.devices, NO_DEVICES.lists) == map[]
  {
  }

  ghost predicate Updates(e: Event, id: u32, o: ObjectId) {
    e.Updated? && e.id == id && e.o == o
  }

  ghost predicate Cleans(e: Event, id: u32, o: ObjectId) {
    e.Cleaned? && e.id == id && e.o == o
  }

  ghost predicate Shown(b: Tracks, id: u32, o: ObjectId) {
    id in b && o in b[id].points
  }

  /** What one event does to one point. */
  lemma OneEvent(b: Tracks, e: Event, id: u32, o: ObjectId)
    requires Shown(Apply(b, e), id, o)
    ensures var p := Apply(b, e)[id].points[o];
            if Updates(e, id, o) then p.presentValue == Some(e.value) && p.dirty
            else Shown(b, id, o) && p.presentValue == b[id].points[o].presentValue
                 && (p.dirty <==> b[id].points[o].dirty && !Cleans(e, id, o))
  {
  }

  ghost predicate LastUpdate(es: seq<Event>, id: u32, o: ObjectId, k: nat) {
    k < |es| && Updates(es[k], id, o) && forall j :: k < j < |es| ==> !Updates(es[j], id, o)
  }

  /** A tracked point shows the value of its last update, and is dirty exactly when it has not
      been cleaned since. */
  lemma {:induction false} PointShowsLastUpdate(es: seq<Event>, id: u32, o: ObjectId) returns (k: nat)
    requires Shown(ApplyAll(es), id, o)
    ensures LastUpdate(es, id, o, k)
    ensures ApplyAll(es)[id].points[o].presentValue == Some(es[k].value)
    ensures ApplyAll(es)[id].points[o].dirty <==> forall j :: k < j < |es| ==> !Cleans(es[j], id, o)
  {
    hide Apply;
    var n := |es| - 1;
    var b := ApplyAll(es[..n]);
    OneEvent(b, es[n], id, o);
    if Updates(es[n], id, o) {
      k := n;
    } else {
      k := PointShowsLastUpdate(es[..n], id, o);
      forall j | k < j < |es|
        ensures !Updates(es[j], id, o)
      {
        assert j < n ==> es[..n][j] == es[j];
      }
      CleansBefore(es, es[..n], id, o, k);
    }
  }

  lemma CleansBefore(es: seq<Event>, front: seq<Event>, id: u32, o: ObjectId, k: nat)
    requires k < |front| && |es| == |front| + 1 && front == es[..|front|]
    ensures (forall j :: k < j < |es| ==> !Cleans(es[j], id, o)) <==>
              (forall j :: k < j < |front| ==> !Cleans(front[j], id, o)) && !Cleans(es[|front|], id, o)
  {
    assert forall j :: k < j < |front| ==> front[j] == es[j];
  }

  // ------------------------------------------------------------------ eviction

  /** A device met for the first time starts without points exactly when none were left in its slot. */
  lemma NewDeviceStartsEmptyExactly(t: Table, id: u32, mac: byte, name: seq<char>)
    requires Shaped(t) && SlotOf(t.devices, id).None?
    ensures Upsert(t, id, mac, name).lists[UpsertSlot(t, id)] == []
            <==> |t.devices| == MAX_DEVICES || t.lists[|t.devices|] == []
  {
  }

  /** Points written to a slot nobody occupies turn up as the next new device's points. */
  lemma StrayPointsAreInherited(t: Table, o: ObjectId, value: BacnetValue, unit: u16, id: u32, mac: byte,
                                name: seq<char>)
    requires Tidy(t) && |t.devices| < MAX_DEVICES && SlotOf(t.devices, id).None?
    ensures var slot := |t.devices|;
            var after := Upsert(Step(t, UpdatePoint(slot, o, value, unit)), id, mac, name);
            after.devices[slot].deviceId == id && after.lists[slot] == [NewPoint(o, value, unit)]
  {
  }

  /** Once the table is full, slots 1 to 7 keep their devices through any further history. */
  lemma {:induction false} FullTableKeepsSlots(t: Table, ops: seq<Operation>)
    requires Shaped(t) && |t.devices| == MAX_DEVICES
    ensures |StepAll(t, ops).devices| == MAX_DEVICES
    ensures forall s :: 1 <= s < MAX_DEVICES ==> StepAll(t, ops).devices[s].deviceId == t.devices[s].deviceId
  {
    if ops != [] {
      var n := |ops| - 1;
      FullTableKeepsSlots(t, ops[..n]);
      OneStepKeepsSlots(StepAll(t, ops[..n]), ops[n]);
    }
  }

  lemma OneStepKeepsSlots(t: Table, op: Operation)
    requires Shaped(t) && |t.devices| == MAX_DEVICES
    ensures |Step(t, op).devices| == MAX_DEVICES
    ensures forall s :: 1 <= s < MAX_DEVICES ==> Step(t, op).devices[s].deviceId == t.devices[s].deviceId
  {
  }

  function StepAll(t: Table, ops: seq<Operation>): (u: Table)
    requires Shaped(t)
    ensures Shaped(u)
  {
    if ops == [] then t else Step(StepAll(t, ops[..|ops| - 1]), ops[|ops| - 1])
  }

  lemma StillDistinct(t: Table, id: u32, mac: byte, name: seq<char>)
    requires Tidy(t)
    ensures DistinctIds(Upsert(t, id, mac, name).devices)
  {
    UpsertStaysTidy(t, id, mac, name);
  }

  /** So eviction is not by age: of two devices new to a full table, the second displaces the first. */
  lemma NewestIsEvicted(t: Table, first: u32, second: u32, mac: byte, name: seq<char>)
    requires Tidy(t) && |t.devices| == MAX_DEVICES && first != second
    requires SlotOf(t.devices, first).None? && SlotOf(t.devices, second).None?
    ensures SlotOf(Upsert(t, first, mac, name).devices, first) == Some(0)
    ensures SlotOf(Upsert(Upsert(t, first, mac, name), second, mac, name).devices, first).None?
  {
    hide SlotOf, NewDevice;
    NewId(first, mac, name);
    NewId(second, mac, name);
    var one := Upsert(t, first, mac, name);
    SlotsAround(t.devices, NewDevice(first, mac, name), first);
    SlotsAround(t.devices, NewDevice(first, mac, name), second);
    StillDistinct(t, first, mac, name);
    SlotsAround(one.devices, NewDevice(second, mac, name), first);
  }
}
