/** What the bridge's table shows of a device and of a point after any history, field by field. */
module BridgeHistory {
  import opened Words
  import opened Bacnet
  import opened Utf8
  import opened BridgeTable
  import opened BridgeMap

  // ------------------------------------------------------------------ devices

  ghost predicate Sees(e: Event, id: u32) {
    e.Seen? && e.id == id
  }

  ghost predicate LastSeen(es: seq<Event>, id: u32, k: nat) {
    k < |es| && Sees(es[k], id) && forall j :: k < j < |es| ==> !Sees(es[j], id)
  }

  /** The name a device was last given: an empty one is no name. */
  function LastName(es: seq<Event>, id: u32): seq<char> {
    if es == [] then []
    else
      var e := es[|es| - 1];
      if e.Seen? && e.id == id && e.name != [] then Stored(e.name) else LastName(es[..|es| - 1], id)
  }

  /** A device with this identifier, name and station address, about which nothing else is known. */
  function Plain(id: u32, name: seq<char>, mac: byte): DeviceEntry {
    DeviceEntry(id, name, [], mac, false, 0, [0, 0, 0, 0, 0, 0], false)
  }

  /** What one event does to one device. */
  lemma OneDeviceEvent(b: Tracks, e: Event, id: u32)
    requires id in Apply(b, e)
    ensures id !in b ==> Sees(e, id) && Apply(b, e)[id].entry == Plain(id, Stored(e.name), e.mac)
    ensures id in b && Sees(e, id) ==>
              Apply(b, e)[id].entry
              == b[id].entry.(mac := e.mac, name := if e.name == [] then b[id].entry.name else Stored(e.name))
    ensures id in b && !Sees(e, id) ==> Apply(b, e)[id].entry == b[id].entry
  {
  }

  lemma NoNameStored()
    ensures Stored([]) == []
  {
  }

  /** The device has been tracked since event number `first`, and was not before. */
  ghost predicate TrackedSince(es: seq<Event>, id: u32, first: nat) {
    && first < |es| && Sees(es[first], id) && id !in ApplyAll(es[..first])
    && forall j :: first < j <= |es| ==> id in ApplyAll(es[..j])
  }

  lemma LastNameStep(es: seq<Event>, first: nat, id: u32)
    requires first < |es|
    ensures var e := es[|es| - 1];
            LastName(es[first..], id) == if Sees(e, id) && e.name != [] then Stored(e.name)
                                         else LastName(es[..|es| - 1][first..], id)
  {
    var tail := es[first..];
    assert tail[..|tail| - 1] == es[..|es| - 1][first..];
  }

  /** A tracked device shows the station address of its last sighting and, cut to what is stored, the name of
      the last one that named it since it was new; in all else it is as an empty slot. */
  lemma {:induction false} DeviceShowsLastSeen(es: seq<Event>, id: u32) returns (first: nat, last: nat)
    requires id in ApplyAll(es)
    ensures TrackedSince(es, id, first) && LastSeen(es, id, last) && first <= last
    ensures ApplyAll(es)[id].entry == Plain(id, LastName(es[first..], id), es[last].mac)
  {
    hide Apply, Stored;
    var n := |es| - 1;
    var b := ApplyAll(es[..n]);
    OneDeviceEvent(b, es[n], id);
    assert es[..|es|] == es;
    if id !in b {
      first, last := n, n;
      NoNameStored();
      assert es[n..] == [es[n]] && [es[n]][..0] == [];
    } else {
      var k;
      first, k := DeviceShowsLastSeen(es[..n], id);
      last := if Sees(es[n], id) then n else k;
      LastNameStep(es, first, id);
      SinceStill(es, id, first);
    }
  }

  lemma SinceStill(es: seq<Event>, id: u32, first: nat)
    requires es != [] && TrackedSince(es[..|es| - 1], id, first) && id in ApplyAll(es)
    ensures TrackedSince(es, id, first)
  {
    hide ApplyAll;
    var n := |es| - 1;
    assert es[..n][..first] == es[..first];
    forall j | first < j <= |es|
      ensures id in ApplyAll(es[..j])
    {
      if j <= n {
        assert es[..n][..j] == es[..j];
      } else {
        assert es[..j] == es;
      }
    }
  }

  // ------------------------------------------------------------------ points

  ghost predicate SetsUnit(e: Event, id: u32, o: ObjectId) {
    e.UnitSet? && e.id == id && e.o == o
  }

  /** The last event that said what unit the point has. */
  ghost predicate LastUnit(es: seq<Event>, id: u32, o: ObjectId, k: nat) {
    && k < |es| && (Updates(es[k], id, o) || SetsUnit(es[k], id, o))
    && forall j :: k < j < |es| ==> !Updates(es[j], id, o) && !SetsUnit(es[j], id, o)
  }

  function UnitIn(e: Event): u16
    requires e.Updated? || e.UnitSet?
  {
    e.unit
  }

  /** What one event does to one point, its value and mark apart. */
  lemma OnePointEvent(b: Tracks, e: Event, id: u32, o: ObjectId)
    requires Shown(Apply(b, e), id, o) && (Shown(b, id, o) ==> b[id].points[o].objectId == o)
    ensures var p := Apply(b, e)[id].points[o];
            if !Shown(b, id, o) then
              Updates(e, id, o) && p == PointEntry(o, [], [], Some(e.value), e.unit, false, true)
            else
              var q := b[id].points[o];
              && p.objectId == o && p.name == q.name && p.description == q.description && p.writable == q.writable
              && p.unit == if Updates(e, id, o) || SetsUnit(e, id, o) then UnitIn(e) else q.unit
  {
  }

  /** A tracked point is its object, with the unit that it was last said to have; nothing has named it,
      described it or made it writable. */
  lemma {:induction false} PointShowsLastUnit(es: seq<Event>, id: u32, o: ObjectId) returns (u: nat)
    requires Shown(ApplyAll(es), id, o)
    ensures LastUnit(es, id, o, u)
    ensures var p := ApplyAll(es)[id].points[o];
            p == PointEntry(o, [], [], p.presentValue, UnitIn(es[u]), false, p.dirty)
  {
    hide Apply;
    var n := |es| - 1;
    var b := ApplyAll(es[..n]);
    if Shown(b, id, o) {
      u := PointShowsLastUnit(es[..n], id, o);
    }
    OnePointEvent(b, es[n], id, o);
    if Updates(es[n], id, o) || SetsUnit(es[n], id, o) {
      u := n;
    } else {
      forall j | u < j < |es|
        ensures !Updates(es[j], id, o) && !SetsUnit(es[j], id, o)
      {
        assert j < n ==> es[..n][j] == es[j];
      }
    }
  }

  /** The unit asked for is that of the point, or 0 if there is none. */
  lemma UnitExactly(list: seq<PointEntry>, o: ObjectId)
    requires DistinctObjects(list)
    ensures UnitOf(list, o) == if o in PointMap(list) then PointMap(list)[o].unit else 0
  {
    hide PointMap, PlaceOf;
    ListIsMap(list, o);
  }

  // ------------------------------------------------------------------ how many

  lemma {:induction false} TracksCount(devices: seq<DeviceEntry>, lists: seq<seq<PointEntry>>)
    requires |devices| <= |lists| && DistinctIds(devices)
    ensures |TracksIn(devices, lists)| == |devices|
  {
    hide PointMap;
    if devices != [] {
      var n := |devices| - 1;
      var before := TracksIn(devices[..n], lists);
      TracksCount(devices[..n], lists);
      TracksIs(devices[..n], lists);
      assert devices[n].deviceId !in before;
      assert TracksIn(devices, lists).Keys == before.Keys + {devices[n].deviceId};
    }
  }

  /** Eight devices are tracked at most; one more sends one of them away, and nothing else does. */
  lemma EightDevicesExactly(t: Table, id: u32, mac: byte, name: seq<char>)
    requires Tidy(t)
    ensures |TracksOf(t)| <= 8 && id in TracksOf(Upsert(t, id, mac, name))
    ensures (exists other :: other in TracksOf(t) && other !in TracksOf(Upsert(t, id, mac, name)))
            <==> id !in TracksOf(t) && |TracksOf(t)| == 8
  {
    hide PointMap, TracksIn, SeenAgain, NewDevice, SlotOf, Tidy;
    TidyCount(t);
    InTracksOf(t, id);
    UpsertRefines(t, id, mac, name);
    if id !in TracksOf(t) && |TracksOf(t)| == 8 {
      FirstIsTracked(t);
      assert t.devices[0].deviceId !in TracksOf(Upsert(t, id, mac, name));
    }
  }

  lemma TidyCount(t: Table)
    requires Tidy(t)
    ensures Shaped(t) && |TracksOf(t)| == |t.devices|
  {
    hide TracksIn;
    TracksCount(t.devices, t.lists);
  }

  lemma FirstIsTracked(t: Table)
    requires Tidy(t) && |t.devices| > 0
    ensures t.devices[0].deviceId in TracksOf(t)
  {
    hide TracksIn;
    SlotIsKey(t, 0);
  }

  /** Sixty-four points are kept of a device; a value for one more is dropped, and no other. */
  lemma SixtyFourPointsExactly(t: Table, slot: nat, o: ObjectId, value: BacnetValue, unit: u16)
    requires Tidy(t) && slot < |t.devices|
    ensures var before := PointMap(t.lists[slot]);
            var after := PointMap(Step(t, UpdatePoint(slot, o, value, unit)).lists[slot]);
            && |before| <= 64 && after.Keys == before.Keys + (if o in before || |before| < 64 then {o} else {})
            && (o !in before && |before| == 64 ==> after == before)
  {
    hide PointMap;
    PointMapSize(t.lists[slot]);
    ListRefinesMap(t.lists[slot], o, value, unit);
  }

  // ------------------------------------------------------------------ names

  lemma WidthIsUtf8(c: char)
    ensures Width(c) == |Utf8Octets(c)|
  {
  }

  function NameOctets(s: seq<char>): nat {
    if s == [] then 0 else NameOctets(s[..|s| - 1]) + |Utf8Octets(s[|s| - 1])|
  }

  lemma {:induction false} SizeIsUtf8(s: seq<char>)
    ensures Utf8Size(s) == NameOctets(s)
  {
    hide Utf8Octets, Width;
    if s != [] {
      SizeIsUtf8(s[..|s| - 1]);
      WidthIsUtf8(s[|s| - 1]);
    }
  }

  /** One more character of a name is stored exactly when 32 octets hold it with those stored before it. */
  lemma NextCharacterExactly(s: seq<char>, c: char)
    ensures NameOctets(Stored(s)) <= 32
    ensures Stored(s + [c])
            == if NameOctets(Stored(s)) + |Utf8Octets(c)| <= 32 then Stored(s) + [c] else Stored(s)
  {
    hide Utf8Octets, Width;
    assert (s + [c])[..|s|] == s;
    SizeIsUtf8(Stored(s));
    WidthIsUtf8(c);
  }

  /** Of a name in ASCII the first 32 characters are stored. */
  lemma {:induction false} AsciiCutAt32(s: seq<char>)
    requires forall k :: 0 <= k < |s| ==> s[k] as int < 0x80
    ensures Stored(s) == if |s| <= 32 then s else s[..32]
    ensures NameOctets(Stored(s)) == |Stored(s)|
  {
    hide Stored;
    if s == [] {
      NoNameStored();
    } else {
      var n := |s| - 1;
      AsciiCutAt32(s[..n]);
      NextCharacterExactly(s[..n], s[n]);
      assert s == s[..n] + [s[n]];
      AsciiSize(Stored(s));
    }
  }

  lemma {:induction false} AsciiSize(s: seq<char>)
    ensures (forall k :: 0 <= k < |s| ==> s[k] as int < 0x80) ==> NameOctets(s) == |s|
  {
    if s != [] {
      AsciiSize(s[..|s| - 1]);
    }
  }
}
