/** The position-history updater of the dashboard (src/App.tsx, the function passed to
    `setVehicleHistory`): a dictionary from vehicle identifier to the trail of points it
    was seen at, extended with each poll, capped in length and in age, and swept of
    vehicles gone for too long. */
module PositionHistory {
  import opened Types

  const MaxHistoryPoints: nat := 100
  /** In seconds. */
  const MaxHistoryAge: real := 3600.0

  /** `VehicleHistory`: identifier to trail, oldest point first. */
  type History = map<string, seq<Point>>

  /** The point recorded for a vehicle report. */
  function PointOf(v: Vehicle): Point
  {
    Point(v.latitude, v.longitude, v.timestamp)
  }

  /** The filter that keeps a point: strictly younger than the age limit. */
  predicate IsRecent(p: Point, now: real)
  {
    now - p.timestamp < MaxHistoryAge
  }

  /** `isDifferent`: no last point, or a last point at another latitude or longitude
      (exact comparison; the timestamp plays no part). */
  predicate Moved(trail: seq<Point>, p: Point)
  {
    trail == [] || trail[|trail| - 1].latitude != p.latitude || trail[|trail| - 1].longitude != p.longitude
  }

  /** The point appended, then only the last `MaxHistoryPoints` kept (`slice(-100)`). */
  function Append(trail: seq<Point>, p: Point): (r: seq<Point>)
    ensures |r| == if |trail| + 1 > MaxHistoryPoints then MaxHistoryPoints else |trail| + 1
    ensures r == (trail + [p])[|trail| + 1 - |r|..]
    ensures r[|r| - 1] == p
  {
    var a := trail + [p];
    if |a| > MaxHistoryPoints then a[|a| - MaxHistoryPoints..] else a
  }

  /** `trail.filter(pos => now - pos.timestamp < MAX_HISTORY_AGE)`. */
  function KeepRecent(trail: seq<Point>, now: real): (r: seq<Point>)
    ensures |r| <= |trail|
    ensures forall p :: p in r <==> p in trail && IsRecent(p, now)
  {
    if trail == [] then []
    else (if IsRecent(trail[0], now) then [trail[0]] else []) + KeepRecent(trail[1..], now)
  }

  /** The filter keeps every occurrence of a recent point and none of an old one. */
  lemma {:induction false} KeepRecentCounts(trail: seq<Point>, now: real)
    ensures forall q :: multiset(KeepRecent(trail, now))[q] == if IsRecent(q, now) then multiset(trail)[q] else 0
  {
    if trail != [] {
      KeepRecentCounts(trail[1..], now);
      assert trail == [trail[0]] + trail[1..];
    }
  }

  /** What one vehicle report does to its trail. */
  function Track(trail: seq<Point>, p: Point, now: real): seq<Point>
  {
    KeepRecent(if Moved(trail, p) then Append(trail, p) else trail, now)
  }

  /** The trail stored for `id`, or `[]` when there is none yet. */
  function Trail(h: History, id: string): seq<Point>
  {
    if id in h then h[id] else []
  }

  /** One report of the first loop: its vehicle's trail is updated. */
  function Step(h: History, v: Vehicle, now: real): History
  {
    h[v.id := Track(Trail(h, v.id), PointOf(v), now)]
  }

  /** The first loop: every report of the feed, in order, updates its vehicle's trail. */
  function TrackAll(h: History, vs: seq<Vehicle>, now: real): History
  {
    if vs == [] then h else Step(TrackAll(h, vs[..|vs| - 1], now), vs[|vs| - 1], now)
  }

  /** A trail whose last point is strictly older than the age limit. An empty trail
      has no last point and never expires. */
  predicate Expired(trail: seq<Point>, now: real)
  {
    |trail| > 0 && now - trail[|trail| - 1].timestamp > MaxHistoryAge
  }

  /** The sweep: a trail of a vehicle not in `current` is deleted when it has expired. */
  function Sweep(h: History, current: set<string>, now: real): History
  {
    map k | k in h && (k in current || !Expired(h[k], now)) :: h[k]
  }

  /** The new history after a poll that brought `merged`. */
  function UpdatedHistory(h: History, merged: seq<Vehicle>, now: real): History
  {
    Sweep(TrackAll(h, merged, now), IdSet(merged), now)
  }

  /** The updater itself, changing a copy of the dictionary key by key. */
  method UpdateHistory(prevHistory: History, mergedVehicles: seq<Vehicle>, now: real)
    returns (newHistory: History)
    ensures newHistory == UpdatedHistory(prevHistory, mergedVehicles, now)
  {
    newHistory := TrackFeed(prevHistory, mergedVehicles, now);
    var currentVehicleIds := IdSet(mergedVehicles);
    newHistory := SweepGone(newHistory, currentVehicleIds, now);
  }

  /** `mergedVehicles.forEach(...)`: each report updates its vehicle's trail. */
  method TrackFeed(prevHistory: History, mergedVehicles: seq<Vehicle>, now: real)
    returns (newHistory: History)
    ensures newHistory == TrackAll(prevHistory, mergedVehicles, now)
  {
    newHistory := prevHistory;
    for i := 0 to |mergedVehicles|
      invariant newHistory == TrackAll(prevHistory, mergedVehicles[..i], now)
    {
      newHistory := TrackVehicle(newHistory, mergedVehicles[i], now);
      TrackAllSnoc(prevHistory, mergedVehicles, now, i);
    }
    assert mergedVehicles[..|mergedVehicles|] == mergedVehicles;
  }

  /** The body of that loop for one report: start an empty trail for a first sighting,
      append the point when the vehicle moved and cap the length, then drop old points. */
  method TrackVehicle(history: History, vehicle: Vehicle, now: real) returns (newHistory: History)
    ensures newHistory == Step(history, vehicle, now)
  {
    newHistory := history;
    var newPosition := Point(vehicle.latitude, vehicle.longitude, vehicle.timestamp);
    if vehicle.id !in newHistory {
      newHistory := newHistory[vehicle.id := []];
    }
    var trail := newHistory[vehicle.id];
    assert trail == Trail(history, vehicle.id);
    var isDifferent := |trail| == 0
      || trail[|trail| - 1].latitude != newPosition.latitude
      || trail[|trail| - 1].longitude != newPosition.longitude;
    ghost var expected := if Moved(trail, newPosition) then Append(trail, newPosition) else trail;
    var updated := trail;
    if isDifferent {
      updated := trail + [newPosition];
      if |updated| > MaxHistoryPoints {
        updated := updated[|updated| - MaxHistoryPoints..];
      }
      assert updated == expected by {
        assert Moved(trail, newPosition);
      }
    }
    newHistory := newHistory[vehicle.id := KeepRecent(updated, now)];
    assert newHistory == Step(history, vehicle, now) by {
      assert PointOf(vehicle) == newPosition;
      assert updated == expected;
    }
  }

  /** `Object.keys(newHistory).forEach(...)`: the trail of a vehicle not in the feed is
      deleted once its last point is too old. The order of the keys plays no part. */
  method SweepGone(tracked: History, currentVehicleIds: set<string>, now: real)
    returns (newHistory: History)
    ensures newHistory == Sweep(tracked, currentVehicleIds, now)
  {
    newHistory := tracked;
    var keys := newHistory.Keys;
    SweepNothing(tracked, currentVehicleIds, now);
    while keys != {}
      invariant keys <= tracked.Keys
      invariant newHistory == Sweep(tracked, currentVehicleIds + keys, now)
      decreases |keys|
    {
      var vehicleId :| vehicleId in keys;
      SweepStep(tracked, currentVehicleIds, keys, vehicleId, now);
      if vehicleId !in currentVehicleIds {
        var trail := newHistory[vehicleId];
        if |trail| > 0 && now - trail[|trail| - 1].timestamp > MaxHistoryAge {
          newHistory := newHistory - {vehicleId};
        }
      }
      keys := keys - {vehicleId};
    }
    assert currentVehicleIds + keys == currentVehicleIds;
  }

  /** One more report, one more step of the first loop. */
  lemma TrackAllSnoc(h: History, vs: seq<Vehicle>, now: real, i: int)
    requires 0 <= i < |vs|
    ensures TrackAll(h, vs[..i + 1], now) == Step(TrackAll(h, vs[..i], now), vs[i], now)
  {
    var p := vs[..i + 1];
    assert p != [] && p[..|p| - 1] == vs[..i] && p[|p| - 1] == vs[i];
  }

  /** Visiting one more key of the sweep deletes it exactly when it has expired. */
  lemma SweepStep(h: History, current: set<string>, keys: set<string>, id: string, now: real)
    requires id in keys && keys <= h.Keys
    ensures var before := Sweep(h, current + keys, now);
      Sweep(h, current + (keys - {id}), now)
      == if id !in current && Expired(h[id], now) then before - {id} else before
  {
  }

  /** Before the sweep has visited any key, it has deleted nothing. */
  lemma SweepNothing(h: History, current: set<string>, now: real)
    ensures Sweep(h, current + h.Keys, now) == h
  {
  }

  /** Reporting a vehicle at exactly its last stored latitude and longitude does not
      grow its trail; only the age filter applies. */
  lemma StillDoesNotGrow(trail: seq<Point>, p: Point, now: real)
    requires trail != []
    requires trail[|trail| - 1].latitude == p.latitude && trail[|trail| - 1].longitude == p.longitude
    ensures Track(trail, p, now) == KeepRecent(trail, now)
    ensures |Track(trail, p, now)| <= |trail|
  {
  }

  /** A report that moved the vehicle and is recent ends its trail, and the trail keeps
      only the most recent points. */
  lemma MovedEndsTrail(trail: seq<Point>, p: Point, now: real)
    requires Moved(trail, p) && IsRecent(p, now)
    ensures Track(trail, p, now) != []
    ensures Track(trail, p, now)[|Track(trail, p, now)| - 1] == p
  {
    KeepRecentLast(Append(trail, p), now);
  }

  lemma {:induction false} KeepRecentLast(trail: seq<Point>, now: real)
    requires trail != [] && IsRecent(trail[|trail| - 1], now)
    ensures KeepRecent(trail, now) != []
    ensures KeepRecent(trail, now)[|KeepRecent(trail, now)| - 1] == trail[|trail| - 1]
  {
    if |trail| > 1 {
      assert trail[1..][|trail| - 2] == trail[|trail| - 1];
      KeepRecentLast(trail[1..], now);
    }
  }

  /** A trail no longer than the cap stays no longer than the cap. */
  lemma TrackBounded(trail: seq<Point>, p: Point, now: real)
    requires |trail| <= MaxHistoryPoints
    ensures |Track(trail, p, now)| <= MaxHistoryPoints
  {
  }

  /** `a` is `b` with some elements left out. */
  predicate Subseq(a: seq<Point>, b: seq<Point>)
    decreases |b|
  {
    a == [] || (b != [] && (Subseq(a, b[1..]) || (a[0] == b[0] && Subseq(a[1..], b[1..]))))
  }

  lemma {:induction false} KeepRecentSubseq(trail: seq<Point>, now: real)
    ensures Subseq(KeepRecent(trail, now), trail)
  {
    if trail != [] {
      var r := KeepRecent(trail[1..], now);
      KeepRecentSubseq(trail[1..], now);
      if IsRecent(trail[0], now) {
        assert KeepRecent(trail, now) == [trail[0]] + r;
        assert ([trail[0]] + r)[1..] == r;
      } else {
        assert KeepRecent(trail, now) == r;
      }
    }
  }

  lemma {:induction false} KeepRecentOfSuffix(s: seq<Point>, k: nat, now: real)
    requires k <= |s|
    ensures Subseq(KeepRecent(s[k..], now), s)
  {
    if k == 0 {
      assert s[0..] == s;
      KeepRecentSubseq(s, now);
    } else {
      assert s[1..][k - 1..] == s[k..];
      KeepRecentOfSuffix(s[1..], k - 1, now);
    }
  }

  lemma {:induction false} SubseqAppend(a: seq<Point>, b: seq<Point>, x: Point)
    requires Subseq(a, b)
    ensures Subseq(a, b + [x])
    decreases |b|
  {
    if a != [] {
      assert (b + [x])[1..] == b[1..] + [x];
      if Subseq(a, b[1..]) {
        SubseqAppend(a, b[1..], x);
      } else {
        SubseqAppend(a[1..], b[1..], x);
      }
    }
  }

  /** Each updated trail is the old trail followed by the new point, with some points
      left out. */
  lemma TrackSubseq(trail: seq<Point>, p: Point, now: real)
    ensures Subseq(Track(trail, p, now), trail + [p])
  {
    if Moved(trail, p) {
      var a := trail + [p];
      KeepRecentOfSuffix(a, |a| - |Append(trail, p)|, now);
    } else {
      KeepRecentSubseq(trail, now);
      SubseqAppend(KeepRecent(trail, now), trail, p);
    }
  }

  /** Identifiers the feed did not carry keep their trail through the first loop. */
  lemma {:induction false} TrackAllOthers(h: History, vs: seq<Vehicle>, now: real, k: string)
    requires k !in IdSet(vs)
    ensures k in TrackAll(h, vs, now) <==> k in h
    ensures k in h ==> TrackAll(h, vs, now)[k] == h[k]
  {
    if vs != [] {
      var n := |vs| - 1;
      assert vs[n] in vs;
      assert IdSet(vs[..n]) <= IdSet(vs) by {
        forall v | v in vs[..n] ensures v in vs { }
      }
      TrackAllOthers(h, vs[..n], now, k);
    }
  }

  /** After the first loop every identifier of the feed has a trail, and every point of
      it is younger than the age limit. */
  lemma {:induction false} TrackAllRecent(h: History, vs: seq<Vehicle>, now: real)
    ensures forall v :: v in vs ==> v.id in TrackAll(h, vs, now)
    ensures forall v, p :: v in vs && p in TrackAll(h, vs, now)[v.id] ==> IsRecent(p, now)
  {
    if vs != [] {
      var n := |vs| - 1;
      TrackAllRecent(h, vs[..n], now);
      assert vs == vs[..n] + [vs[n]];
      forall v | v in vs ensures v in vs[..n] || v == vs[n] { }
    }
  }

  /** Every vehicle of the feed has a trail after the update, even a first sighting
      whose only point is already too old, and all its points are younger than the age
      limit. */
  lemma FeedTrailsRecent(h: History, merged: seq<Vehicle>, now: real)
    ensures forall v :: v in merged ==> v.id in UpdatedHistory(h, merged, now)
    ensures forall v, p :: v in merged && p in UpdatedHistory(h, merged, now)[v.id] ==> IsRecent(p, now)
  {
    TrackAllRecent(h, merged, now);
  }

  /** A vehicle absent from the feed keeps its trail untouched, and is deleted exactly
      when its trail has a last point strictly older than the age limit; nothing else
      appears. */
  lemma AbsentTrails(h: History, merged: seq<Vehicle>, now: real, k: string)
    requires k !in IdSet(merged)
    ensures k in UpdatedHistory(h, merged, now) <==> k in h && !Expired(h[k], now)
    ensures k in UpdatedHistory(h, merged, now) ==> UpdatedHistory(h, merged, now)[k] == h[k]
  {
    TrackAllOthers(h, merged, now, k);
  }

  /** If no trail was longer than the cap, none is after the update. */
  lemma {:induction false} TrackAllBounded(h: History, vs: seq<Vehicle>, now: real)
    requires forall k :: k in h ==> |h[k]| <= MaxHistoryPoints
    ensures forall k :: k in TrackAll(h, vs, now) ==> |TrackAll(h, vs, now)[k]| <= MaxHistoryPoints
  {
    if vs != [] {
      var n := |vs| - 1;
      TrackAllBounded(h, vs[..n], now);
      var h' := TrackAll(h, vs[..n], now);
      TrackBounded(Trail(h', vs[n].id), PointOf(vs[n]), now);
    }
  }

  lemma HistoryBounded(h: History, merged: seq<Vehicle>, now: real)
    requires forall k :: k in h ==> |h[k]| <= MaxHistoryPoints
    ensures forall k :: k in UpdatedHistory(h, merged, now) ==> |UpdatedHistory(h, merged, now)[k]| <= MaxHistoryPoints
  {
    TrackAllBounded(h, merged, now);
  }
}
