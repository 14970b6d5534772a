/** Records exchanged between the feed adapter, the merge stage, the reconciliation
    and the history tracker (src/types.ts, and VehiclePosition in src/App.tsx). */
module Types {

  /** An optional field (`field?: T` in TypeScript): None stands for `undefined`. */
  datatype Option<T> = None | Some(value: T)

  /** A vehicle report, enriched with `delay` by the merge stage.
      Coordinates and timestamps (seconds since the epoch) are numbers in the source;
      they are only compared and subtracted, so they are modelled as reals. */
  datatype Vehicle = Vehicle(
    id: string,
    latitude: real,
    longitude: real,
    bearing: Option<real>,
    speed: Option<real>,
    tripId: Option<string>,
    routeId: Option<string>,
    vehicleLabel: Option<string>,  // `label` in the source (a reserved word here)
    timestamp: real,
    currentStatus: Option<string>,
    stopId: Option<string>,
    currentStopSequence: Option<int>,
    delay: Option<int>)

  datatype StopTimeUpdate = StopTimeUpdate(
    stopSequence: Option<int>,
    stopId: Option<string>,
    arrivalDelay: Option<int>,
    departureDelay: Option<int>,
    scheduleRelationship: Option<string>)

  /** A trip update of the delay feed; `delay` is in seconds, positive when late. */
  datatype TripUpdate = TripUpdate(
    tripId: string,
    routeId: Option<string>,
    delay: Option<int>,
    timestamp: Option<real>,
    stopTimeUpdates: Option<seq<StopTimeUpdate>>)

  /** One stored point of a vehicle's trail (VehiclePosition). */
  datatype Point = Point(latitude: real, longitude: real, timestamp: real)

  /** The identifiers of a vehicle list, position by position. */
  function Ids(vs: seq<Vehicle>): (ids: seq<string>)
    ensures |ids| == |vs|
    ensures forall i :: 0 <= i < |vs| ==> ids[i] == vs[i].id
  {
    seq(|vs|, i requires 0 <= i < |vs| => vs[i].id)
  }

  /** The set of identifiers of a vehicle list (`new Set(vs.map(v => v.id))`). */
  function IdSet(vs: seq<Vehicle>): set<string>
  {
    set v | v in vs :: v.id
  }

  lemma IdsConcat(a: seq<Vehicle>, b: seq<Vehicle>)
    ensures Ids(a + b) == Ids(a) + Ids(b)
  {
    var l, r := Ids(a + b), Ids(a) + Ids(b);
    assert |l| == |r|;
    forall i | 0 <= i < |l| ensures l[i] == r[i] {
      if i < |a| {
        assert (a + b)[i] == a[i];
      } else {
        assert (a + b)[i] == b[i - |a|];
      }
    }
  }

  lemma IdSetConcat(a: seq<Vehicle>, b: seq<Vehicle>)
    ensures IdSet(a + b) == IdSet(a) + IdSet(b)
  {
    assert forall v :: v in a + b <==> v in a || v in b;
  }

  lemma IdSetSnoc(vs: seq<Vehicle>, i: int)
    requires 0 <= i < |vs|
    ensures IdSet(vs[..i + 1]) == IdSet(vs[..i]) + {vs[i].id}
  {
    assert vs[..i + 1] == vs[..i] + [vs[i]];
    IdSetConcat(vs[..i], [vs[i]]);
  }

  lemma IdSetOfIds(vs: seq<Vehicle>)
    ensures forall k :: k in IdSet(vs) <==> k in Ids(vs)
  {
    forall k | k in IdSet(vs) ensures k in Ids(vs) {
      var v :| v in vs && v.id == k;
      var j :| 0 <= j < |vs| && vs[j] == v;
      assert Ids(vs)[j] == k;
    }
  }

  /** `j` is the last position of `vs` holding a vehicle with identifier `id`. */
  ghost predicate LastIdAt(vs: seq<Vehicle>, id: string, j: int)
  {
    0 <= j < |vs| && vs[j].id == id && forall j' :: j < j' < |vs| ==> vs[j'].id != id
  }

  /** Every identifier that occurs has a last occurrence. */
  lemma LastIdExists(vs: seq<Vehicle>, id: string, i: int)
    requires 0 <= i < |vs| && vs[i].id == id
    ensures exists j :: LastIdAt(vs, id, j)
    decreases |vs| - i
  {
    if !LastIdAt(vs, id, i) {
      var i' :| i < i' < |vs| && vs[i'].id == id;
      LastIdExists(vs, id, i');
    }
  }

  /** The identifiers after the first are distinct too, and the first is not among them. */
  lemma DistinctIdsTail(vs: seq<Vehicle>)
    requires vs != [] && Distinct(Ids(vs))
    ensures Distinct(Ids(vs[1..]))
    ensures vs[0].id !in IdSet(vs[1..])
  {
    var ids, rest := Ids(vs), Ids(vs[1..]);
    assert forall b :: 0 <= b < |rest| ==> rest[b] == ids[b + 1];
    forall v | v in vs[1..] ensures v.id != vs[0].id {
      var b :| 0 <= b < |vs[1..]| && vs[1..][b] == v;
      assert ids[b + 1] == v.id;
    }
  }

  /** No identifier occurs twice. */
  predicate Distinct(s: seq<string>)
  {
    forall i, j :: 0 <= i < j < |s| ==> s[i] != s[j]
  }

  /** Two lists without repeats and without a common element concatenate to a list
      without repeats. */
  lemma DistinctConcat(x: seq<string>, y: seq<string>)
    requires Distinct(x) && Distinct(y)
    requires forall k :: k in x ==> k !in y
    ensures Distinct(x + y)
  {
    var xy := x + y;
    forall a, b | 0 <= a < b < |xy| ensures xy[a] != xy[b] {
      if b < |x| {
        assert xy[a] == x[a] && xy[b] == x[b];
      } else if a >= |x| {
        assert xy[a] == y[a - |x|] && xy[b] == y[b - |x|];
      } else {
        assert xy[a] == x[a] && xy[b] == y[b - |x|];
        assert x[a] in x;
      }
    }
  }
}
