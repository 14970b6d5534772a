/** The vehicle markers of the map view (src/MapComponent.tsx): a table from vehicle
    identifier to marker, brought in line with the shown vehicles each time they change.
    A marker is an opaque object; it is modelled by an identity (`handle`, distinct for
    every marker ever created) and the position it is drawn at. */
module MapMarkers {
  import opened Types

  /** A map position in the order the map library takes it: longitude first. */
  datatype Coord = Coord(lng: real, lat: real)

  datatype Marker = Marker(handle: nat, lngLat: Coord)

  /** `[vehicle.longitude, vehicle.latitude]`. */
  function LngLat(v: Vehicle): Coord
  {
    Coord(v.longitude, v.latitude)
  }

  /** The marker table together with the identity the next created marker gets. */
  datatype Table = Table(markers: map<string, Marker>, nextHandle: nat)

  /** Every marker was created before `nextHandle`, and no two entries share one. */
  ghost predicate HandlesFresh(t: Table)
  {
    && (forall id :: id in t.markers ==> t.markers[id].handle < t.nextHandle)
    && (forall a, b :: a in t.markers && b in t.markers && a != b ==> t.markers[a].handle != t.markers[b].handle)
  }

  /** The removal pass: only the entries whose identifier is in `ids` remain. */
  function KeepOnly(m: map<string, Marker>, ids: set<string>): (r: map<string, Marker>)
    ensures r.Keys == m.Keys * ids
    ensures forall id :: id in r ==> r[id] == m[id]
  {
    map id | id in m && id in ids :: m[id]
  }

  /** One vehicle of the placing pass: its marker is moved, or created when it has none. */
  function Place(t: Table, v: Vehicle): Table
  {
    if v.id in t.markers then Table(t.markers[v.id := t.markers[v.id].(lngLat := LngLat(v))], t.nextHandle)
    else Table(t.markers[v.id := Marker(t.nextHandle, LngLat(v))], t.nextHandle + 1)
  }

  /** The placing pass over all vehicles, in order: no marker is removed and the
      identity counter only grows. */
  function PlaceAll(t: Table, vs: seq<Vehicle>): (r: Table)
    ensures t.markers.Keys <= r.markers.Keys
    ensures t.nextHandle <= r.nextHandle
  {
    if vs == [] then t else Place(PlaceAll(t, vs[..|vs| - 1]), vs[|vs| - 1])
  }

  /** The table after the synchronisation effect has run on a loaded map: it holds a
      marker for exactly the shown vehicles. */
  function Synced(t: Table, vs: seq<Vehicle>): (r: Table)
    ensures r.markers.Keys == IdSet(vs)
  {
    var kept := Table(KeepOnly(t.markers, IdSet(vs)), t.nextHandle);
    PlaceAllKeys(kept, vs);
    PlaceAll(kept, vs)
  }

  /** The map view's state: whether a map exists (`map.current`), whether it has
      loaded, and the marker table (`markers.current`). */
  class MarkerLayer {
    var hasMap: bool
    var mapLoaded: bool
    var markers: map<string, Marker>
    var nextHandle: nat

    ghost predicate Valid()
      reads this
    {
      HandlesFresh(Table(markers, nextHandle))
    }

    constructor()
      ensures Valid()
      ensures !hasMap && !mapLoaded && markers == map[] && nextHandle == 0
    {
      hasMap := false;
      mapLoaded := false;
      markers := map[];
      nextHandle := 0;
    }

    /** The initialisation effect: a map is created once the container is mounted,
        and only if there is none yet. */
    method CreateMap(containerMounted: bool)
      modifies this
      ensures hasMap == (old(hasMap) || containerMounted)
      ensures mapLoaded == old(mapLoaded) && markers == old(markers) && nextHandle == old(nextHandle)
    {
      if !containerMounted || hasMap {
        return;
      }
      hasMap := true;
    }

    /** The map's `load` event. */
    method OnLoad()
      modifies this
      ensures mapLoaded
      ensures hasMap == old(hasMap) && markers == old(markers) && nextHandle == old(nextHandle)
    {
      mapLoaded := true;
    }

    /** The initialisation effect's cleanup: the map is removed, while the loaded flag
        and the marker table stay as they are. */
    method Teardown()
      modifies this
      ensures !hasMap
      ensures mapLoaded == old(mapLoaded) && markers == old(markers) && nextHandle == old(nextHandle)
    {
      hasMap := false;
    }

    /** The synchronisation effect: nothing happens without a loaded map; otherwise
        markers of vanished vehicles are removed, then every vehicle's marker is moved
        to it or created. */
    method SyncMarkers(vehicles: seq<Vehicle>)
      requires Valid()
      modifies this
      ensures Valid()
      ensures hasMap == old(hasMap) && mapLoaded == old(mapLoaded)
      ensures Table(markers, nextHandle) ==
        if old(hasMap) && old(mapLoaded) then Synced(Table(old(markers), old(nextHandle)), vehicles)
        else Table(old(markers), old(nextHandle))
    {
      if !hasMap || !mapLoaded {
        return;
      }
      var currentVehicleIds := IdSet(vehicles);
      ghost var start := Table(markers, nextHandle);
      RemoveGone(currentVehicleIds);
      KeepOnlyFresh(start, currentVehicleIds);
      PlaceAllFresh(Table(markers, nextHandle), vehicles);
      PlaceMarkers(vehicles);
    }

    /** `markers.current.forEach(...)`: each marker whose vehicle is gone is deleted. */
    method RemoveGone(currentVehicleIds: set<string>)
      modifies this
      ensures markers == KeepOnly(old(markers), currentVehicleIds)
      ensures hasMap == old(hasMap) && mapLoaded == old(mapLoaded) && nextHandle == old(nextHandle)
    {
      ghost var before := markers;
      var keys := markers.Keys;
      assert KeepOnly(before, currentVehicleIds + keys) == before;
      while keys != {}
        invariant keys <= before.Keys
        invariant markers == KeepOnly(before, currentVehicleIds + keys)
        invariant hasMap == old(hasMap) && mapLoaded == old(mapLoaded) && nextHandle == old(nextHandle)
        decreases |keys|
      {
        var id :| id in keys;
        KeepOnlyStep(before, currentVehicleIds, keys, id);
        if id !in currentVehicleIds {
          markers := markers - {id};
        }
        keys := keys - {id};
      }
      assert currentVehicleIds + keys == currentVehicleIds;
    }

    /** `vehicles.forEach(...)`: each vehicle's marker is moved to it, or created at
        its position when it has none. */
    method PlaceMarkers(vehicles: seq<Vehicle>)
      modifies this
      ensures Table(markers, nextHandle) == PlaceAll(Table(old(markers), old(nextHandle)), vehicles)
      ensures hasMap == old(hasMap) && mapLoaded == old(mapLoaded)
    {
      ghost var start := Table(markers, nextHandle);
      for i := 0 to |vehicles|
        invariant Table(markers, nextHandle) == PlaceAll(start, vehicles[..i])
        invariant hasMap == old(hasMap) && mapLoaded == old(mapLoaded)
      {
        var vehicle := vehicles[i];
        if vehicle.id !in markers {
          markers := markers[vehicle.id := Marker(nextHandle, Coord(vehicle.longitude, vehicle.latitude))];
          nextHandle := nextHandle + 1;
        } else {
          var marker := markers[vehicle.id];
          markers := markers[vehicle.id := marker.(lngLat := Coord(vehicle.longitude, vehicle.latitude))];
        }
        PlaceAllSnoc(start, vehicles, i);
      }
      assert vehicles[..|vehicles|] == vehicles;
    }
  }

  /** Visiting one more key of the removal pass deletes it exactly when its vehicle
      is gone. */
  lemma KeepOnlyStep(m: map<string, Marker>, current: set<string>, keys: set<string>, id: string)
    requires id in keys
    ensures KeepOnly(m, current + (keys - {id})) ==
      if id in current then KeepOnly(m, current + keys) else KeepOnly(m, current + keys) - {id}
  {
  }

  /** Removing markers keeps identities unique and below the counter. */
  lemma KeepOnlyFresh(t: Table, ids: set<string>)
    requires HandlesFresh(t)
    ensures HandlesFresh(Table(KeepOnly(t.markers, ids), t.nextHandle))
  {
  }

  /** One more vehicle, one more step of the placing pass. */
  lemma PlaceAllSnoc(t: Table, vs: seq<Vehicle>, i: int)
    requires 0 <= i < |vs|
    ensures PlaceAll(t, vs[..i + 1]) == Place(PlaceAll(t, vs[..i]), vs[i])
  {
    var p := vs[..i + 1];
    assert p != [] && p[..|p| - 1] == vs[..i] && p[|p| - 1] == vs[i];
  }

  /** After the placing pass, exactly the old identifiers and those of the vehicles
      have a marker. */
  lemma {:induction false} PlaceAllKeys(t: Table, vs: seq<Vehicle>)
    ensures PlaceAll(t, vs).markers.Keys == t.markers.Keys + IdSet(vs)
  {
    if vs != [] {
      var n := |vs| - 1;
      PlaceAllKeys(t, vs[..n]);
      assert vs == vs[..n] + [vs[n]];
      IdSetConcat(vs[..n], [vs[n]]);
    }
  }

  /** Each marker sits at `[longitude, latitude]` of the last vehicle carrying its
      identifier. */
  lemma {:induction false} PlaceAllPosition(t: Table, vs: seq<Vehicle>, id: string, j: int)
    requires LastIdAt(vs, id, j)
    ensures id in PlaceAll(t, vs).markers
    ensures PlaceAll(t, vs).markers[id].lngLat == LngLat(vs[j])
  {
    var n := |vs| - 1;
    var prefix := vs[..n];
    assert PlaceAll(t, vs) == Place(PlaceAll(t, prefix), vs[n]);
    PlaceOne(PlaceAll(t, prefix), vs[n], id);
    if j < n {
      assert vs[n].id != id;
      assert LastIdAt(prefix, id, j) by {
        assert prefix[j] == vs[j];
        assert forall j' :: j < j' < n ==> prefix[j'] == vs[j'];
      }
      PlaceAllPosition(t, prefix, id, j);
    }
  }

  /** Placing one vehicle moves or creates its own marker and touches no other. */
  lemma PlaceOne(t: Table, v: Vehicle, id: string)
    ensures id == v.id ==> id in Place(t, v).markers && Place(t, v).markers[id].lngLat == LngLat(v)
    ensures id != v.id ==> (id in Place(t, v).markers <==> id in t.markers)
    ensures id != v.id && id in t.markers ==> Place(t, v).markers[id] == t.markers[id]
  {
  }

  /** A marker that existed is reused: it keeps its identity. */
  lemma {:induction false} PlaceAllReuses(t: Table, vs: seq<Vehicle>)
    ensures forall id :: id in t.markers ==> PlaceAll(t, vs).markers[id].handle == t.markers[id].handle
  {
    if vs != [] {
      PlaceAllReuses(t, vs[..|vs| - 1]);
    }
  }

  /** A marker that did not exist is new: its identity was never handed out before. */
  lemma {:induction false} PlaceAllCreates(t: Table, vs: seq<Vehicle>)
    ensures forall id :: id in PlaceAll(t, vs).markers && id !in t.markers ==>
      t.nextHandle <= PlaceAll(t, vs).markers[id].handle < PlaceAll(t, vs).nextHandle
  {
    if vs != [] {
      PlaceAllCreates(t, vs[..|vs| - 1]);
    }
  }

  /** The placing pass keeps identities unique and below the counter. */
  lemma {:induction false} PlaceAllFresh(t: Table, vs: seq<Vehicle>)
    requires HandlesFresh(t)
    ensures HandlesFresh(PlaceAll(t, vs))
  {
    if vs != [] {
      var n := |vs| - 1;
      PlaceAllFresh(t, vs[..n]);
      PlaceFresh(PlaceAll(t, vs[..n]), vs[n]);
    }
  }

  lemma PlaceFresh(t: Table, v: Vehicle)
    requires HandlesFresh(t)
    ensures HandlesFresh(Place(t, v))
  {
  }

  /** A vehicle list whose identifiers all have markers creates none. */
  lemma {:induction false} PlaceAllNoneNew(t: Table, vs: seq<Vehicle>)
    requires forall v :: v in vs ==> v.id in t.markers
    ensures PlaceAll(t, vs).nextHandle == t.nextHandle
    ensures PlaceAll(t, vs).markers.Keys == t.markers.Keys
  {
    if vs != [] {
      var n := |vs| - 1;
      assert forall v :: v in vs[..n] ==> v in vs;
      PlaceAllNoneNew(t, vs[..n]);
      assert vs[n] in vs;
    }
  }

  /** Markers of vehicles still shown are reused, new ones get identities never
      handed out before, and each marker sits at its vehicle's last reported position. */
  lemma SyncedMarkers(t: Table, vs: seq<Vehicle>)
    ensures forall id :: id in t.markers && id in IdSet(vs) ==> Synced(t, vs).markers[id].handle == t.markers[id].handle
    ensures forall id :: id in IdSet(vs) && id !in t.markers ==> t.nextHandle <= Synced(t, vs).markers[id].handle
    ensures forall id, j :: LastIdAt(vs, id, j) ==> Synced(t, vs).markers[id].lngLat == LngLat(vs[j])
  {
    var kept := Table(KeepOnly(t.markers, IdSet(vs)), t.nextHandle);
    PlaceAllReuses(kept, vs);
    PlaceAllCreates(kept, vs);
    forall id, j | LastIdAt(vs, id, j) ensures Synced(t, vs).markers[id].lngLat == LngLat(vs[j]) {
      PlaceAllPosition(kept, vs, id, j);
    }
  }

  /** Synchronising twice with the same vehicles changes nothing the second time. */
  lemma SyncedIdempotent(t: Table, vs: seq<Vehicle>)
    ensures Synced(Synced(t, vs), vs) == Synced(t, vs)
  {
    var once := Synced(t, vs);
    var twice := Synced(once, vs);
    assert KeepOnly(once.markers, IdSet(vs)) == once.markers;
    PlaceAllNoneNew(once, vs);
    SyncedMarkers(t, vs);
    SyncedMarkers(once, vs);
    forall id | id in twice.markers ensures twice.markers[id] == once.markers[id] {
      var v :| v in vs && v.id == id;
      var i :| 0 <= i < |vs| && vs[i] == v;
      LastIdExists(vs, id, i);
      var j :| LastIdAt(vs, id, j);
    }
  }
}
