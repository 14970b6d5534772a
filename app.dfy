/** The dashboard's state (src/App.tsx): the shown vehicles and their position history,
    and one successful poll of the feeds. The two feeds arrive as parameters, and the
    clock readings of the two state updaters arrive as `vehiclesNow` and `historyNow`. */
module App {
  import opened Types
  import opened GtfsService
  import opened Reconciliation
  import opened PositionHistory

  class Dashboard {
    var vehicles: seq<Vehicle>
    var vehicleHistory: History

    /** No vehicle is shown twice, and no trail is longer than the cap. */
    ghost predicate Valid()
      reads this
    {
      && Distinct(Ids(vehicles))
      && forall id :: id in vehicleHistory ==> |vehicleHistory[id]| <= MaxHistoryPoints
    }

    constructor()
      ensures Valid()
      ensures vehicles == [] && vehicleHistory == map[]
    {
      vehicles := [];
      vehicleHistory := map[];
    }

    /** The success path of `fetchData`: merge the two feeds, then reconcile the shown
        vehicles and update the history with the merged list. */
    method FetchData(vehiclePositions: seq<Vehicle>, tripUpdates: seq<TripUpdate>,
                     vehiclesNow: real, historyNow: real)
      requires Valid()
      modifies this
      ensures Valid()
      ensures vehicles == Reconcile(old(vehicles), MergeVehicleData(vehiclePositions, tripUpdates), vehiclesNow)
      ensures vehicleHistory == UpdatedHistory(old(vehicleHistory), MergeVehicleData(vehiclePositions, tripUpdates), historyNow)
    {
      var mergedVehicles := MergeVehicleData(vehiclePositions, tripUpdates);
      ReconcileKeepsIdsDistinct(vehicles, mergedVehicles, vehiclesNow);
      vehicles := ReconcileVehicles(vehicles, mergedVehicles, vehiclesNow);
      HistoryBounded(vehicleHistory, mergedVehicles, historyNow);
      vehicleHistory := UpdateHistory(vehicleHistory, mergedVehicles, historyNow);
    }
  }
}
