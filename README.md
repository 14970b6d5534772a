# Vehicle tracker core, modelled in Dafny

The tracker polls a GTFS Realtime feed every few seconds. It shows the trams and buses of
a city network on a map and keeps a short trail of where each vehicle has been. This
project models the sequential logic at the centre of one poll, and proves what that logic
guarantees:

- **Merge** (`GtfsService`). Each vehicle report is given the delay of the trip update for
  its trip. The lookup keeps the last update per trip id.
- **Reconciliation** (`Reconciliation`). The updater behind `setVehicles` builds the list
  shown after a poll from two inputs: the list shown before and the merged feed.
  - A vehicle seen again is replaced by its fresh record, at its old position.
  - A vehicle missing from the feed stays while its report is younger than 300 s.
  - Brand-new vehicles follow, in order of first appearance in the feed.
- **Position history** (`PositionHistory`). The updater behind `setVehicleHistory` keeps a
  trail of points per vehicle.
  - A point is appended only when the vehicle moved.
  - Trails of vehicles in the feed are capped at 100 points and lose points an hour old or
    older.
  - A vehicle absent from the feed keeps its trail as it is. The trail is deleted once its
    last point is more than an hour old; an empty trail stays.
- **Route labels** (`Utils`). `getLineInfo` strips leading zeros from a route id and looks
  the id up among the three tram lines. It returns a colour and a short text.
- **Map markers** (`MapMarkers`). Each time the shown list changes, the table of map
  markers is brought in line with it.
  - Markers of vanished vehicles are removed.
  - Surviving markers are moved.
  - Missing markers are created.

Supporting modules:

- `Types` holds the records.
- `JsMap` models the JavaScript `Map`:
  - insertion order;
  - last write wins;
  - `delete`;
  - `new Map(entries)`.
- `App` holds the dashboard's two pieces of state and one successful poll, which is merge,
  then reconcile, then history.

The code that changes state step by step is modelled imperatively:

- the two updaters;
- the marker effect, as a class `MarkerLayer` over its marker table.

Each method that walks a list or a table is proved equal to a specification function, and
the properties are proved as lemmas about those functions. The map's lifecycle methods
(`CreateMap`, `OnLoad`, `Teardown`) state their new fields directly.

The two clock readings (`Date.now() / 1000`) are parameters, and so are the two fetched
feeds. Numbers that the code only copies, compares and subtracts (coordinates and
timestamps) are `real`. Delays are `int`.

## Model

| member | source | states |
|---|---|---|
| Types.IdSet | src/App.tsx:110 | `new Set(vehicles.map(v => v.id))`: the set of ids of a vehicle list, used as `currentVehicleIds` by the history sweep and, for src/MapComponent.tsx:49, by the marker sync |
| GtfsService.Truthy | src/gtfsService.ts:112 | `vehicle.tripId ? ... : undefined`: a trip id counts only when present and non-empty |
| GtfsService.TripUpdateMap | src/gtfsService.ts:107-109 | the `Map` from trip id to update, built from the entries left to right (its meaning is stated by `TripUpdateMapIsLatest`) |
| GtfsService.DelayOf | src/gtfsService.ts:112-118 | `tripUpdate?.delay` for one vehicle: the delay of the looked-up update, or undefined for a falsy or unknown trip id |
| GtfsService.MergeVehicleData | src/gtfsService.ts:103-121 | one output per input, in order; every field other than `delay` is copied unchanged; a delay is set only when the trip id is present and non-empty |
| GtfsService.UpdateEntries | src/gtfsService.ts:107-109 | the entries `[tripId, update]`, one per update, in feed order |
| GtfsService.LatestUpdate | src/gtfsService.ts:107-109 | reference definition of the update a `Map` built from the updates keeps: when present it is an update of the feed carrying that trip id at a position after which no update carries the trip id, and it is absent exactly when no update carries the trip id |
| GtfsService.TripUpdateMapIsLatest | src/gtfsService.ts:107-109 | the lookup holds a trip id exactly when some update carries it, and then holds the last such update |
| GtfsService.MergeTakesLatestDelay | src/gtfsService.ts:111-119 | a vehicle's delay is the delay of the last update for its trip; with no trip id, an empty one, or no matching update, the delay is undefined (an earlier delay is overwritten) |
| GtfsService.MergeIdempotent | src/gtfsService.ts:103-121 | merging an already merged list again with the same updates changes nothing |
| GtfsService.MergeWithoutUpdates | src/gtfsService.ts:103-121 | with no trip updates every delay is cleared and nothing else changes |
| JsMap.OrderedMap.Set | src/App.tsx:39 | `m.set(k, v)`: the value is replaced in place for a present key, and a new key goes to the end of the iteration order |
| JsMap.OrderedMap.Delete | src/App.tsx:49 | `m.delete(k)`: the key leaves both the entries and the iteration order |
| JsMap.DeleteAll | src/App.tsx:49 | the map after deleting every key of a set, one `delete` at a time |
| JsMap.FromEntries | src/App.tsx:39 | `new Map(entries)`: the entries set one after the other, left to right; its keys are exactly the entry keys |
| JsMap.FromEntriesLastWins | src/App.tsx:39 | a `Map` built from entries maps each key to the value of the last entry carrying it |
| JsMap.FromEntriesFirstSeenOrder | src/App.tsx:39 | a `Map` built from entries iterates its keys in order of first appearance among the entries |
| JsMap.FromEntriesDistinctOrder | src/App.tsx:39 | without repeated keys the iteration order is the entry order |
| JsMap.FromEntriesDistinctValue | src/App.tsx:39 | without repeated keys each key maps to its own entry's value |
| JsMap.DeleteAllThenDelete | src/App.tsx:49 | deleting keys one at a time equals deleting the set of them at once |
| JsMap.DeleteAllAbsent | src/App.tsx:49 | deleting a key the map no longer holds changes nothing |
| JsMap.RemoveKeepsDistinct | src/App.tsx:49 | deleting keys keeps the iteration order free of repeats |
| Reconciliation.IsYoung | src/App.tsx:53 | a vehicle missing from the feed is kept while `now - timestamp < 300` |
| Reconciliation.Entries | src/App.tsx:39 | the entries `[v.id, v]`, one per feed vehicle, in feed order |
| Reconciliation.IncomingMap | src/App.tsx:39 | the lookup `new Map(mergedVehicles.map(v => [v.id, v]))` (its meaning is stated by `IncomingMapLastWins` and `IncomingMapKeyedById`) |
| Reconciliation.Survivors | src/App.tsx:45-57 | what the pass over the previous list emits (stated by `ReconcileReplacesMatched`, `ReconcileKeepsYoungGhost`, `SurvivorIds`) |
| Reconciliation.Values | src/App.tsx:60-62 | the values of the lookup for a list of keys, in that order |
| Reconciliation.Newcomers | src/App.tsx:59-62 | what is left in the lookup, in its iteration order (stated by `NewcomerIds`, `NewcomersInFeedOrder`, `NewcomersAreLatest`) |
| Reconciliation.Reconcile | src/App.tsx:38-65 | the list shown after a poll: survivors, then newcomers (stated by the `Reconcile...` lemmas below) |
| Reconciliation.ReconcileVehicles | src/App.tsx:38-65 | the updater returns exactly `Reconcile(prev, merged, now)` |
| Reconciliation.VisitPrevious | src/App.tsx:45-57 | the pass over the previous list emits `Survivors(...)` and leaves the lookup with every previous id deleted |
| Reconciliation.PushRemaining | src/App.tsx:60-62 | the values left in the lookup are pushed after the survivors, in the lookup's iteration order |
| Reconciliation.PassComplete | src/App.tsx:45-64 | the survivors followed by what is left in the lookup are the reconciled list |
| Reconciliation.PassStep | src/App.tsx:46-55 | one previous vehicle is replaced and taken out of the lookup, kept while young, or dropped |
| Reconciliation.SurvivorsAppend | src/App.tsx:45-57 | the pass over a concatenation is the pass over each part, the second with the lookup the first left behind |
| Reconciliation.IncomingMapLastWins | src/App.tsx:39 | the lookup maps an id to the last feed record carrying it |
| Reconciliation.IncomingMapKeyedById | src/App.tsx:39 | the lookup's keys are exactly the feed ids, and each leads to a record with that id |
| Reconciliation.IncomingMapReadBack | src/App.tsx:39 | for a feed without repeated ids, reading the lookup in feed order gives back the feed |
| Reconciliation.SurvivorIds | src/App.tsx:45-57 | every vehicle the pass emits carries the id of a previous vehicle |
| Reconciliation.SurvivorIdsDistinct | src/App.tsx:45-57 | distinct previous ids give distinct emitted ids |
| Reconciliation.SurvivorsLeaveLookup | src/App.tsx:46-49 | the pass takes every previous id out of the lookup, whether it emitted that vehicle or not |
| Reconciliation.SurvivorsIdempotent | src/App.tsx:45-57 | a second pass over the output with the same lookup and clock changes nothing |
| Reconciliation.SurvivorsOfValues | src/App.tsx:46-49 | records taken from the lookup pass through a second pass unchanged |
| Reconciliation.ReconcileIdempotent | src/App.tsx:38-65 | reconciling the result again with the same feed and clock changes nothing |
| Reconciliation.ReconcileReplacesMatched | src/App.tsx:46-49 | a previous vehicle whose id the feed carries is replaced, at its first occurrence in the previous list, by the last feed record with that id; a later repeat of the id is treated as a vehicle missing from the feed |
| Reconciliation.ReconcileKeepsYoungGhost | src/App.tsx:50-55 | a previous vehicle missing from the feed is emitted unchanged if and only if `now - timestamp < 300` |
| Reconciliation.GhostExample | src/App.tsx:41-55 | a vanished vehicle reported at 1000 s is still shown at 1299 s and gone at 1300 s and 1301 s |
| Reconciliation.NewcomerIds | src/App.tsx:59-62 | the appended vehicles are exactly the feed ids no previous vehicle carries, each once |
| Reconciliation.NewcomersInFeedOrder | src/App.tsx:39-62 | the appended vehicles come in order of first appearance in the feed |
| Reconciliation.NewcomersAreLatest | src/App.tsx:39-62 | each appended vehicle is the last feed record with its id |
| Reconciliation.FirstSeenOrderTail | src/App.tsx:60-62 | a list in first-seen order stays in it without its head |
| Reconciliation.FirstSeenOrderCons | src/App.tsx:60-62 | a key seen before every key of a first-seen-ordered list can be put in front of it |
| Reconciliation.RemoveKeepsFirstSeenOrder | src/App.tsx:49 | deleting keys keeps the remaining iteration order in first-seen order |
| Reconciliation.ReconcileKeepsEveryIncoming | src/App.tsx:38-65 | no feed id is lost, and no id appears that neither list carried |
| Reconciliation.ReconcileKeepsIdsDistinct | src/App.tsx:38-65 | distinct previous ids give distinct ids after the poll, whatever the feed repeats |
| Reconciliation.ReconcileFromEmpty | src/App.tsx:38-65 | with nothing shown yet and a feed without repeated ids, the feed is shown as it is |
| PositionHistory.PointOf | src/App.tsx:76-80 | the point recorded for a report: latitude, longitude and timestamp |
| PositionHistory.IsRecent | src/App.tsx:105 | a point is kept while `now - timestamp < 3600` |
| PositionHistory.Moved | src/App.tsx:88-91 | `isDifferent`: no last point, or a last point at another latitude or longitude (exact comparison) |
| PositionHistory.Trail | src/App.tsx:83-88 | the trail stored for an id, or `[]` for an id without one (`!newHistory[vehicle.id]` then the read) |
| PositionHistory.Track | src/App.tsx:87-106 | what one report does to its trail: append and cap when moved, then filter by age (stated by `StillDoesNotGrow`, `MovedEndsTrail`, `TrackBounded`, `TrackSubseq`) |
| PositionHistory.Step | src/App.tsx:76-106 | one report of the loop: its vehicle's trail, empty for a first sighting, is replaced by the tracked trail |
| PositionHistory.TrackAll | src/App.tsx:74-107 | the loop over the feed: one step per report, in feed order (stated by `TrackAllOthers`, `TrackAllRecent`, `TrackAllBounded`) |
| PositionHistory.Expired | src/App.tsx:114-115 | a trail with a last point strictly older than 3600 s; an empty trail never expires |
| PositionHistory.Sweep | src/App.tsx:110-119 | the ids kept by the sweep: those in the feed or not expired (stated by `AbsentTrails`) |
| PositionHistory.UpdatedHistory | src/App.tsx:68-122 | the history after a poll: the loop, then the sweep (stated by `FeedTrailsRecent`, `AbsentTrails`, `HistoryBounded`) |
| PositionHistory.Append | src/App.tsx:93-101 | the point is appended and only the last 100 points are kept: the result ends with the point, is a suffix of trail + [point], and has length min(len + 1, 100) |
| PositionHistory.KeepRecent | src/App.tsx:104-106 | a point is kept if and only if it is in the trail and `now - timestamp < 3600` |
| PositionHistory.KeepRecentCounts | src/App.tsx:104-106 | the filter keeps every occurrence of a recent point and no occurrence of an old one |
| PositionHistory.UpdateHistory | src/App.tsx:68-122 | the updater returns exactly `UpdatedHistory(prev, merged, now)` |
| PositionHistory.TrackFeed | src/App.tsx:74-107 | the loop over the feed applies one step per report, in feed order |
| PositionHistory.TrackVehicle | src/App.tsx:76-106 | one report starts an empty trail for a first sighting, appends and caps when the vehicle moved, then filters by age |
| PositionHistory.SweepGone | src/App.tsx:110-119 | the sweep deletes exactly the ids absent from the feed whose trail has a last point older than 3600 s |
| PositionHistory.TrackAllSnoc | src/App.tsx:74-107 | one more report is one more step of the loop |
| PositionHistory.SweepStep | src/App.tsx:111-119 | visiting one more key deletes it exactly when it is absent from the feed and expired |
| PositionHistory.SweepNothing | src/App.tsx:111-119 | before any key is visited nothing is deleted |
| PositionHistory.StillDoesNotGrow | src/App.tsx:87-106 | a report at exactly the last stored latitude and longitude does not grow the trail; only the age filter applies |
| PositionHistory.MovedEndsTrail | src/App.tsx:87-106 | a recent report that moved the vehicle becomes the last point of its trail |
| PositionHistory.KeepRecentLast | src/App.tsx:104-106 | the age filter keeps a recent last point last |
| PositionHistory.TrackBounded | src/App.tsx:97-100 | a trail of at most 100 points stays at most 100 points |
| PositionHistory.KeepRecentSubseq | src/App.tsx:104-106 | the age filter only leaves points out |
| PositionHistory.KeepRecentOfSuffix | src/App.tsx:99-106 | filtering a suffix only leaves points out of the whole |
| PositionHistory.SubseqAppend | src/App.tsx:95 | leaving points out of a list still leaves points out after an append |
| PositionHistory.TrackSubseq | src/App.tsx:93-106 | the updated trail is the old trail followed by the new point, with some points left out |
| PositionHistory.TrackAllOthers | src/App.tsx:74-107 | the loop over the feed leaves the trails of ids the feed does not carry untouched |
| PositionHistory.TrackAllRecent | src/App.tsx:74-107 | after the loop every feed id has a trail whose points are all younger than 3600 s |
| PositionHistory.FeedTrailsRecent | src/App.tsx:68-122 | after the update every feed vehicle has a trail, even a first sighting whose point is filtered out, and all its points are younger than 3600 s |
| PositionHistory.AbsentTrails | src/App.tsx:109-119 | an id absent from the feed keeps its trail untouched, and is deleted exactly when its trail has a last point older than 3600 s (an empty trail is kept) |
| PositionHistory.TrackAllBounded | src/App.tsx:74-107 | if no trail exceeds 100 points before the loop, none does after it |
| PositionHistory.HistoryBounded | src/App.tsx:68-122 | if no trail exceeds 100 points before the update, none does after it |
| Utils.StripLeadingZeros | src/utils.ts:5 | the stripped id is empty or does not start with '0', and is no longer than the input |
| Utils.StrippedZeros | src/utils.ts:5 | what was stripped is zeros only: the input is that many zeros followed by the stripped id |
| Utils.StripZerosPrefix | src/utils.ts:5 | zeros before an id that does not start with '0' are all stripped |
| Utils.StripAllZeros | src/utils.ts:5 | an id of zeros only strips to the empty text |
| Utils.GetLineInfo | src/utils.ts:1-24 | the text is "?", empty, or does not start with '0' |
| Utils.MissingRoute | src/utils.ts:2 | an absent or empty route id gives colour #333333 and text "?" |
| Utils.LeadingZerosIgnored | src/utils.ts:4-24 | leading zeros play no part: "001", "01" and "1" give the same result |
| Utils.TramLines | src/utils.ts:8-18 | 1/T1, 2/T2 and 3/T3 are told apart by their colour, in both directions, and are labelled T1, T2, T3 |
| Utils.OtherRoutes | src/utils.ts:21-23 | any other id gives colour #f59e0b and its zero-stripped text |
| Utils.Examples | src/utils.ts:1-24 | "01" and "T1" give #e20613 and "T1"; "000" gives #f59e0b and ""; "012" gives #f59e0b and "12" |
| MapMarkers.LngLat | src/MapComponent.tsx:77 | a marker position is `[vehicle.longitude, vehicle.latitude]`, longitude first |
| MapMarkers.Place | src/MapComponent.tsx:61-103 | one vehicle of the placing pass: its marker is moved, or created with a new identity when it has none (stated by `PlaceOne`, `PlaceFresh`) |
| MapMarkers.KeepOnly | src/MapComponent.tsx:51-57 | the removal pass keeps exactly the entries whose id is current, with their markers unchanged |
| MapMarkers.PlaceAll | src/MapComponent.tsx:60-122 | the placing pass removes no marker and the identity counter only grows |
| MapMarkers.Synced | src/MapComponent.tsx:46-123 | after synchronisation the table holds a marker for exactly the shown vehicle ids |
| MapMarkers.MarkerLayer.constructor | src/MapComponent.tsx:17-20 | no map, not loaded, an empty marker table |
| MapMarkers.MarkerLayer.CreateMap | src/MapComponent.tsx:23-31 | a map is created only when the container is mounted and there is none yet |
| MapMarkers.MarkerLayer.OnLoad | src/MapComponent.tsx:35-37 | the load event sets the loaded flag and changes nothing else |
| MapMarkers.MarkerLayer.Teardown | src/MapComponent.tsx:39-42 | the cleanup removes the map and leaves the flag and the table as they are |
| MapMarkers.MarkerLayer.SyncMarkers | src/MapComponent.tsx:46-123 | without a created and loaded map the table is unchanged; otherwise it becomes `Synced(old table, vehicles)`; marker identities stay unique |
| MapMarkers.MarkerLayer.RemoveGone | src/MapComponent.tsx:51-57 | the loop deletes exactly the markers whose id is not current |
| MapMarkers.MarkerLayer.PlaceMarkers | src/MapComponent.tsx:59-122 | the loop moves or creates one marker per vehicle, in order |
| MapMarkers.KeepOnlyStep | src/MapComponent.tsx:52-57 | visiting one more key deletes it exactly when its vehicle is gone |
| MapMarkers.KeepOnlyFresh | src/MapComponent.tsx:51-57 | removing markers keeps identities unique and below the counter |
| MapMarkers.PlaceAllSnoc | src/MapComponent.tsx:60-122 | one more vehicle is one more step of the placing pass |
| MapMarkers.PlaceAllKeys | src/MapComponent.tsx:60-122 | after the placing pass exactly the old ids and the vehicles' ids have markers |
| MapMarkers.PlaceOne | src/MapComponent.tsx:61-103 | placing one vehicle moves or creates its own marker at `[longitude, latitude]` and touches no other |
| MapMarkers.PlaceAllPosition | src/MapComponent.tsx:76-103 | each marker sits at `[longitude, latitude]` of the last vehicle carrying its id |
| MapMarkers.PlaceAllReuses | src/MapComponent.tsx:101-103 | a marker that existed keeps its identity: it is moved, not recreated |
| MapMarkers.PlaceAllCreates | src/MapComponent.tsx:63-100 | a marker that did not exist gets an identity never handed out before |
| MapMarkers.PlaceFresh | src/MapComponent.tsx:61-103 | placing one vehicle keeps identities unique and below the counter |
| MapMarkers.PlaceAllFresh | src/MapComponent.tsx:60-122 | the placing pass keeps identities unique and below the counter |
| MapMarkers.PlaceAllNoneNew | src/MapComponent.tsx:60-122 | vehicles whose ids all have markers create none |
| MapMarkers.SyncedMarkers | src/MapComponent.tsx:46-123 | markers of vehicles still shown are reused, new ones get fresh identities, and each sits at its vehicle's last reported `[longitude, latitude]` |
| MapMarkers.SyncedIdempotent | src/MapComponent.tsx:46-123 | synchronising twice with the same vehicles changes nothing the second time |
| App.Dashboard.constructor | src/App.tsx:19-20 | no vehicles and an empty history |
| App.Dashboard.FetchData | src/App.tsx:35-122 | the merged feed is reconciled into the shown list and folded into the history; distinct shown ids and the 100-point cap are preserved |

## Left out

- Fetching and decoding (src/gtfsService.ts:14-100). This is HTTP plus GTFS Realtime protobuf decoding through a library that is not part of this model. The two feeds are parameters of `App.Dashboard.FetchData`.
- The entity filter and timestamp conversion inside the fetch functions. They act on the library's objects.
- Polling (src/App.tsx:132-137): `setInterval`, the async `Promise.all`, and the error and loading state (src/App.tsx:23-29, 124-129). These are scheduling and UI state. `FetchData` models only a successful poll.
- React's asynchronous batching of the two state updates. The model applies them in order, each to the latest state.
- The clock. Each of the two `Date.now() / 1000` readings (src/App.tsx:41, 72) is a separate parameter.
- Floating point. Coordinates and timestamps are `real`. The code only copies them, compares them exactly, and subtracts them, so no rounding is modelled.
- The popup HTML, the DOM element, the click handler, `flyTo` and `togglePopup` (src/MapComponent.tsx:65-99, 105-120, 125-143). These are browser and map-library calls.
- Marker identity. A marker object is modelled by a natural-number identity plus its position. This makes "reused, not recreated" observable.
- Iteration order of the marker table. The removal pass deletes by a set of ids, so the order of `markers.current` plays no part.
- Dictionary and set iteration order in the history sweep. It deletes by key, so the order plays no part either.
- Lookups of inherited properties of plain objects, for ids such as "constructor", "toString" or "__proto__". The model uses finite maps, which hold only the keys put in them. Two places are affected:
  - The `colors` record of src/utils.ts:8-15. The model's table holds its six entries only.
  - The history dictionary of src/App.tsx:69-95. For such a vehicle id, `!newHistory[id]` at line 83 is false, so no empty trail is created, and the spread at line 95 throws a TypeError. `PositionHistory.Step` and `PositionHistory.TrackVehicle` give such an id an ordinary trail instead.
- src/VehicleSidebar.tsx, src/useTheme.ts and vite.config.ts. They are UI, browser storage and dev-server configuration.
- Drawing of the history. `vehicleHistory` is passed to `MapComponent` (src/App.tsx:152), but its props (src/MapComponent.tsx:6-10) do not include it, so it is never read. Markers are moved directly to the new position (src/MapComponent.tsx:103).
- Mutation of the inputs. The merge builds a fresh record per vehicle, and the updaters work on copies. In the model every list and dictionary is a value, so neither input can be changed.
- Behaviour of the code worth knowing, which the model keeps:
  - The merge overwrites a delay the vehicle already carried, including with undefined.
  - The trail cap is exactly 100 points.
  - The age filter and the sweep use opposite strict comparisons: a point is kept while younger than 3600 s, and a trail is swept only when its last point is older than 3600 s.
  - An empty trail is never swept.
  - Two consecutive stored points are not always at different positions: the age filter can remove the point between them.
