/** The merge stage of the feed adapter (src/gtfsService.ts, mergeVehicleData): each
    vehicle is given the delay of the trip update for its trip. */
module GtfsService {
  import opened Types
  import opened JsMap

  /** `tripUpdates.map(u => [u.tripId, u])`. */
  function UpdateEntries(updates: seq<TripUpdate>): (es: seq<(string, TripUpdate)>)
    ensures |es| == |updates|
    ensures forall i :: 0 <= i < |updates| ==> es[i] == (updates[i].tripId, updates[i])
  {
    seq(|updates|, i requires 0 <= i < |updates| => (updates[i].tripId, updates[i]))
  }

  /** `new Map(...)` over the trip updates, keyed by trip identifier. */
  function TripUpdateMap(updates: seq<TripUpdate>): map<string, TripUpdate>
  {
    FromEntries(UpdateEntries(updates)).entries
  }

  /** `vehicle.tripId ? ... : undefined`: an absent or empty trip identifier is falsy. */
  predicate Truthy(tripId: Option<string>)
  {
    tripId.Some? && tripId.value != ""
  }

  /** `tripUpdate?.delay` for one vehicle. */
  function DelayOf(v: Vehicle, lookup: map<string, TripUpdate>): Option<int>
  {
    if Truthy(v.tripId) && v.tripId.value in lookup then lookup[v.tripId.value].delay
    else None
  }

  /** `{...vehicle, delay: tripUpdate?.delay}` for every vehicle, in order. */
  function MergeVehicleData(vehicles: seq<Vehicle>, tripUpdates: seq<TripUpdate>): (merged: seq<Vehicle>)
    ensures |merged| == |vehicles|
    ensures forall i :: 0 <= i < |vehicles| ==> merged[i].(delay := None) == vehicles[i].(delay := None)
    ensures forall i :: 0 <= i < |vehicles| && merged[i].delay.Some? ==> Truthy(vehicles[i].tripId)
  {
    var lookup := TripUpdateMap(tripUpdates);
    seq(|vehicles|, i requires 0 <= i < |vehicles| => vehicles[i].(delay := DelayOf(vehicles[i], lookup)))
  }

  /** Reference definition: the trip update for `tripId` that comes last in the feed. */
  function LatestUpdate(updates: seq<TripUpdate>, tripId: string): (r: Option<TripUpdate>)
    ensures r.Some? ==> r.value in updates && r.value.tripId == tripId
    ensures r.None? <==> forall u :: u in updates ==> u.tripId != tripId
    ensures r.Some? ==>
      exists j :: 0 <= j < |updates| && updates[j] == r.value && forall j' :: j < j' < |updates| ==> updates[j'].tripId != tripId
  {
    if updates == [] then None
    else if updates[|updates| - 1].tripId == tripId then Some(updates[|updates| - 1])
    else
      assert updates == updates[..|updates| - 1] + [updates[|updates| - 1]];
      LatestUpdate(updates[..|updates| - 1], tripId)
  }

  /** The lookup holds a trip exactly when some update carries it, and then holds the
      last such update. */
  lemma {:induction false} TripUpdateMapIsLatest(updates: seq<TripUpdate>, tripId: string)
    ensures tripId in TripUpdateMap(updates) <==> LatestUpdate(updates, tripId).Some?
    ensures tripId in TripUpdateMap(updates) ==>
      TripUpdateMap(updates)[tripId] == LatestUpdate(updates, tripId).value
  {
    if updates != [] {
      var n := |updates| - 1;
      assert UpdateEntries(updates)[..n] == UpdateEntries(updates[..n]);
      TripUpdateMapIsLatest(updates[..n], tripId);
    }
  }

  /** Every merged vehicle carries the delay of the last update for its trip, and none
      when its trip identifier is absent or empty or no update carries it. */
  lemma MergeTakesLatestDelay(vehicles: seq<Vehicle>, tripUpdates: seq<TripUpdate>, i: int)
    requires 0 <= i < |vehicles|
    ensures var d := MergeVehicleData(vehicles, tripUpdates)[i].delay;
      if Truthy(vehicles[i].tripId) && LatestUpdate(tripUpdates, vehicles[i].tripId.value).Some?
      then d == LatestUpdate(tripUpdates, vehicles[i].tripId.value).value.delay
      else d.None?
  {
    if Truthy(vehicles[i].tripId) {
      TripUpdateMapIsLatest(tripUpdates, vehicles[i].tripId.value);
    }
  }

  /** A delay the vehicle already carried plays no part: merging again gives the same. */
  lemma MergeIdempotent(vehicles: seq<Vehicle>, tripUpdates: seq<TripUpdate>)
    ensures MergeVehicleData(MergeVehicleData(vehicles, tripUpdates), tripUpdates)
            == MergeVehicleData(vehicles, tripUpdates)
  {
    var once := MergeVehicleData(vehicles, tripUpdates);
    var twice := MergeVehicleData(once, tripUpdates);
    forall i | 0 <= i < |vehicles| ensures twice[i] == once[i] {
      assert once[i].tripId == vehicles[i].tripId;
    }
  }

  /** With no trip update at all, every delay is cleared. */
  lemma MergeWithoutUpdates(vehicles: seq<Vehicle>)
    ensures forall i :: 0 <= i < |vehicles| ==> MergeVehicleData(vehicles, [])[i] == vehicles[i].(delay := None)
  {
    assert TripUpdateMap([]) == map[];
  }
}
