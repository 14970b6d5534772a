/** Poll-cycle reconciliation (the `setVehicles` updater of src/App.tsx): the vehicle
    list shown after a poll, from the list shown before it and the freshly merged feed. */
module Reconciliation {
  import opened Types
  import opened JsMap

  /** A vehicle missing from the feed is still shown while its report is younger than
      this many seconds. */
  const MaxAge: real := 300.0

  predicate IsYoung(v: Vehicle, now: real)
  {
    now - v.timestamp < MaxAge
  }

  /** The entries `[v.id, v]` the lookup of the feed is built from. */
  function Entries(vs: seq<Vehicle>): (es: seq<(string, Vehicle)>)
    ensures |es| == |vs|
    ensures forall i :: 0 <= i < |vs| ==> es[i] == (vs[i].id, vs[i])
  {
    seq(|vs|, i requires 0 <= i < |vs| => (vs[i].id, vs[i]))
  }

  /** The keys of those entries are the identifiers, in feed order. */
  lemma EntryKeys(vs: seq<Vehicle>)
    ensures Keys(Entries(vs)) == Ids(vs)
  {
    assert forall i :: 0 <= i < |vs| ==> Keys(Entries(vs))[i] == Ids(vs)[i];
  }

  /** `new Map(mergedVehicles.map(v => [v.id, v]))`. */
  function IncomingMap(incoming: seq<Vehicle>): OrderedMap<Vehicle>
  {
    FromEntries(Entries(incoming))
  }

  /** Every key of a lookup leads to a vehicle carrying that identifier. */
  ghost predicate KeyedById(lookup: map<string, Vehicle>)
  {
    forall k :: k in lookup ==> lookup[k].id == k
  }

  /** What the pass over the previous vehicles emits: a vehicle still in the lookup is
      replaced by the lookup's record, which is then taken out of the lookup; any other
      vehicle is kept unchanged while young and dropped otherwise. */
  function Survivors(prev: seq<Vehicle>, lookup: map<string, Vehicle>, now: real): seq<Vehicle>
  {
    if prev == [] then []
    else if prev[0].id in lookup then
      [lookup[prev[0].id]] + Survivors(prev[1..], lookup - {prev[0].id}, now)
    else if IsYoung(prev[0], now) then
      [prev[0]] + Survivors(prev[1..], lookup, now)
    else
      Survivors(prev[1..], lookup, now)
  }

  /** The values of a lookup for a list of keys, in that order. */
  function Values(lookup: map<string, Vehicle>, ks: seq<string>): (vs: seq<Vehicle>)
    requires forall k :: k in ks ==> k in lookup
    ensures |vs| == |ks|
    ensures forall i :: 0 <= i < |ks| ==> vs[i] == lookup[ks[i]]
  {
    seq(|ks|, i requires 0 <= i < |ks| => lookup[ks[i]])
  }

  /** The feed vehicles whose identifier no previous vehicle carries, in the lookup's
      iteration order. */
  function Newcomers(prev: seq<Vehicle>, incoming: seq<Vehicle>): seq<Vehicle>
  {
    var m := IncomingMap(incoming);
    Values(m.entries, Remove(m.order, IdSet(prev)))
  }

  /** The list shown after a poll. */
  function Reconcile(prev: seq<Vehicle>, incoming: seq<Vehicle>, now: real): seq<Vehicle>
  {
    Survivors(prev, IncomingMap(incoming).entries, now) + Newcomers(prev, incoming)
  }

  /** The updater itself: one pass over the previous vehicles that takes matches out of
      the lookup, then one pass over what is left of the lookup. */
  method ReconcileVehicles(prevVehicles: seq<Vehicle>, mergedVehicles: seq<Vehicle>, now: real)
    returns (updatedVehicles: seq<Vehicle>)
    ensures updatedVehicles == Reconcile(prevVehicles, mergedVehicles, now)
  {
    var vehicleMap := IncomingMap(mergedVehicles);
    var leftMap;
    updatedVehicles, leftMap := VisitPrevious(prevVehicles, vehicleMap, now);
    PassComplete(prevVehicles, mergedVehicles, now, updatedVehicles, leftMap);
    updatedVehicles := PushRemaining(updatedVehicles, leftMap);
  }

  /** `prevVehicles.forEach(...)`: a previous vehicle still in the feed is replaced by
      the feed's record, which leaves the lookup; one missing from the feed stays only
      while it is younger than `MaxAge`. */
  method VisitPrevious(prevVehicles: seq<Vehicle>, lookup: OrderedMap<Vehicle>, now: real)
    returns (updatedVehicles: seq<Vehicle>, vehicleMap: OrderedMap<Vehicle>)
    requires lookup.Valid()
    ensures updatedVehicles == Survivors(prevVehicles, lookup.entries, now)
    ensures vehicleMap == DeleteAll(lookup, IdSet(prevVehicles))
  {
    vehicleMap := lookup;
    updatedVehicles := [];
    var i := 0;
    assert IdSet(prevVehicles[..0]) == {};
    DeleteAllNone(lookup);
    assert prevVehicles[0..] == prevVehicles;
    while i < |prevVehicles|
      invariant 0 <= i <= |prevVehicles|
      invariant vehicleMap == DeleteAll(lookup, IdSet(prevVehicles[..i]))
      invariant updatedVehicles + Survivors(prevVehicles[i..], vehicleMap.entries, now)
                == Survivors(prevVehicles, lookup.entries, now)
    {
      var prevVehicle := prevVehicles[i];
      IdSetSnoc(prevVehicles, i);
      PassStep(prevVehicles, i, vehicleMap.entries, updatedVehicles, now);
      if prevVehicle.id in vehicleMap.entries {
        updatedVehicles := updatedVehicles + [vehicleMap.entries[prevVehicle.id]];
        DeleteAllThenDelete(lookup, IdSet(prevVehicles[..i]), prevVehicle.id);
        vehicleMap := vehicleMap.Delete(prevVehicle.id);
      } else {
        if now - prevVehicle.timestamp < MaxAge {
          updatedVehicles := updatedVehicles + [prevVehicle];
        }
        DeleteAllAbsent(lookup, IdSet(prevVehicles[..i]), prevVehicle.id);
      }
      i := i + 1;
    }
    assert prevVehicles[i..] == [];
    assert prevVehicles[..i] == prevVehicles;
  }

  /** After the pass over the previous list, the survivors followed by what is left in
      the lookup is the reconciled list. */
  lemma PassComplete(prev: seq<Vehicle>, incoming: seq<Vehicle>, now: real,
                     done: seq<Vehicle>, left: OrderedMap<Vehicle>)
    requires left == DeleteAll(IncomingMap(incoming), IdSet(prev))
    requires done == Survivors(prev, IncomingMap(incoming).entries, now)
    ensures left.Valid()
    ensures done + Values(left.entries, left.order) == Reconcile(prev, incoming, now)
  {
    assert Values(left.entries, left.order) == Newcomers(prev, incoming);
  }

  /** `vehicleMap.forEach(v => updatedVehicles.push(v))`: the values still in the map,
      in its iteration order, pushed after what is already there. */
  method PushRemaining(updatedVehicles: seq<Vehicle>, vehicleMap: OrderedMap<Vehicle>)
    returns (pushed: seq<Vehicle>)
    requires vehicleMap.Valid()
    ensures pushed == updatedVehicles + Values(vehicleMap.entries, vehicleMap.order)
  {
    pushed := updatedVehicles;
    ghost var remaining := Values(vehicleMap.entries, vehicleMap.order);
    var j := 0;
    while j < |vehicleMap.order|
      invariant 0 <= j <= |vehicleMap.order|
      invariant pushed == updatedVehicles + remaining[..j]
    {
      assert remaining[..j + 1] == remaining[..j] + [vehicleMap.entries[vehicleMap.order[j]]];
      pushed := pushed + [vehicleMap.entries[vehicleMap.order[j]]];
      j := j + 1;
    }
    assert remaining[..j] == remaining;
  }

  /** One step of the pass, at position `i`, after `done` has been emitted. */
  lemma PassStep(prev: seq<Vehicle>, i: int, lookup: map<string, Vehicle>, done: seq<Vehicle>, now: real)
    requires 0 <= i < |prev|
    ensures done + Survivors(prev[i..], lookup, now)
            == if prev[i].id in lookup then
                 (done + [lookup[prev[i].id]]) + Survivors(prev[i + 1..], lookup - {prev[i].id}, now)
               else if IsYoung(prev[i], now) then
                 (done + [prev[i]]) + Survivors(prev[i + 1..], lookup, now)
               else
                 done + Survivors(prev[i + 1..], lookup, now)
  {
    assert prev[i..][0] == prev[i];
    assert prev[i..][1..] == prev[i + 1..];
    if prev[i].id in lookup {
      var rest := Survivors(prev[i + 1..], lookup - {prev[i].id}, now);
      assert done + ([lookup[prev[i].id]] + rest) == (done + [lookup[prev[i].id]]) + rest;
    } else if IsYoung(prev[i], now) {
      var rest := Survivors(prev[i + 1..], lookup, now);
      assert done + ([prev[i]] + rest) == (done + [prev[i]]) + rest;
    }
  }

  /** Each key of the feed's lookup leads to the LAST feed vehicle carrying it. */
  lemma {:induction false} IncomingMapLastWins(incoming: seq<Vehicle>, id: string, j: int)
    requires LastIdAt(incoming, id, j)
    ensures id in IncomingMap(incoming).entries && IncomingMap(incoming).entries[id] == incoming[j]
  {
    FromEntriesLastWins(Entries(incoming), id, j);
  }

  lemma IncomingMapKeyedById(incoming: seq<Vehicle>)
    ensures KeyedById(IncomingMap(incoming).entries)
    ensures IncomingMap(incoming).entries.Keys == IdSet(incoming)
  {
    var es := Entries(incoming);
    EntryKeys(incoming);
    IdSetOfIds(incoming);
    forall k | k in IncomingMap(incoming).entries ensures IncomingMap(incoming).entries[k].id == k {
      var j :| 0 <= j < |es| && Keys(es)[j] == k;
      LastKeyExists(es, k, j);
      var j' :| LastKeyAt(es, k, j');
      FromEntriesLastWins(es, k, j');
    }
  }

  // ---------------------------------------------------------------------------
  // The pass over the previous vehicles

  /** The pass over a concatenation is the pass over its first part followed by the
      pass over its second part with the lookup the first part left behind. */
  lemma {:induction false} SurvivorsAppend(a: seq<Vehicle>, b: seq<Vehicle>, lookup: map<string, Vehicle>, now: real)
    ensures Survivors(a + b, lookup, now) == Survivors(a, lookup, now) + Survivors(b, lookup - IdSet(a), now)
  {
    if a == [] {
      assert a + b == b;
      assert lookup - IdSet(a) == lookup;
    } else {
      assert (a + b)[0] == a[0];
      assert (a + b)[1..] == a[1..] + b;
      IdSetConcat([a[0]], a[1..]);
      assert a == [a[0]] + a[1..];
      if a[0].id in lookup {
        SurvivorsAppend(a[1..], b, lookup - {a[0].id}, now);
        assert lookup - {a[0].id} - IdSet(a[1..]) == lookup - IdSet(a);
      } else {
        SurvivorsAppend(a[1..], b, lookup, now);
        assert lookup - IdSet(a[1..]) == lookup - IdSet(a);
      }
    }
  }

  /** Every emitted vehicle carries the identifier of some previous vehicle. */
  lemma {:induction false} SurvivorIds(prev: seq<Vehicle>, lookup: map<string, Vehicle>, now: real)
    requires KeyedById(lookup)
    ensures IdSet(Survivors(prev, lookup, now)) <= IdSet(prev)
  {
    if prev != [] {
      var rest := prev[1..];
      var lookup' := if prev[0].id in lookup then lookup - {prev[0].id} else lookup;
      SurvivorIds(rest, lookup', now);
      assert prev == [prev[0]] + rest;
      IdSetConcat([prev[0]], rest);
      var s := Survivors(rest, lookup', now);
      if prev[0].id in lookup || IsYoung(prev[0], now) {
        var head := if prev[0].id in lookup then lookup[prev[0].id] else prev[0];
        assert Survivors(prev, lookup, now) == [head] + s;
        IdSetConcat([head], s);
      }
    }
  }

  /** The emitted identifiers are distinct when the previous ones are. */
  lemma {:induction false} SurvivorIdsDistinct(prev: seq<Vehicle>, lookup: map<string, Vehicle>, now: real)
    requires KeyedById(lookup)
    requires Distinct(Ids(prev))
    ensures Distinct(Ids(Survivors(prev, lookup, now)))
  {
    if prev != [] {
      var rest := prev[1..];
      var lookup' := if prev[0].id in lookup then lookup - {prev[0].id} else lookup;
      DistinctIdsTail(prev);
      SurvivorIdsDistinct(rest, lookup', now);
      var s := Survivors(rest, lookup', now);
      if prev[0].id in lookup || IsYoung(prev[0], now) {
        var head := if prev[0].id in lookup then lookup[prev[0].id] else prev[0];
        assert Survivors(prev, lookup, now) == [head] + s;
        assert forall k :: k in Ids([head]) ==> k !in Ids(s) by {
          SurvivorIds(rest, lookup', now);
          IdSetOfIds(s);
          assert Ids([head]) == [prev[0].id];
        }
        DistinctConcat(Ids([head]), Ids(s));
        IdsConcat([head], s);
      }
    }
  }

  /** The lookup left after the pass is the feed lookup without every previous identifier,
      whether the pass emitted that vehicle or not. */
  lemma {:induction false} SurvivorsLeaveLookup(prev: seq<Vehicle>, lookup: map<string, Vehicle>, now: real)
    requires KeyedById(lookup)
    ensures lookup - IdSet(Survivors(prev, lookup, now)) == lookup - IdSet(prev)
  {
    if prev != [] {
      var v, rest := prev[0], prev[1..];
      assert prev == [v] + rest;
      IdSetConcat([v], rest);
      if v.id in lookup {
        var lookup' := lookup - {v.id};
        SurvivorsLeaveLookup(rest, lookup', now);
        var s := Survivors(rest, lookup', now);
        IdSetConcat([lookup[v.id]], s);
        assert lookup - IdSet([lookup[v.id]] + s) == lookup' - IdSet(s);
        assert lookup - IdSet(prev) == lookup' - IdSet(rest);
      } else {
        SurvivorsLeaveLookup(rest, lookup, now);
        var s := Survivors(rest, lookup, now);
        if IsYoung(v, now) {
          IdSetConcat([v], s);
          assert lookup - IdSet([v] + s) == lookup - IdSet(s);
        }
        assert lookup - IdSet(prev) == lookup - IdSet(rest);
      }
    }
  }

  /** A second pass over the output of a pass, with the same lookup and clock, changes
      nothing: replaced vehicles are replaced by themselves and kept ones stay young. */
  lemma {:induction false} SurvivorsIdempotent(prev: seq<Vehicle>, lookup: map<string, Vehicle>, now: real)
    requires KeyedById(lookup)
    ensures Survivors(Survivors(prev, lookup, now), lookup, now) == Survivors(prev, lookup, now)
  {
    if prev != [] {
      var v, rest := prev[0], prev[1..];
      if v.id in lookup {
        var lookup' := lookup - {v.id};
        SurvivorsIdempotent(rest, lookup', now);
        var s := Survivors(rest, lookup', now);
        assert ([lookup[v.id]] + s)[1..] == s;
      } else if IsYoung(v, now) {
        SurvivorsIdempotent(rest, lookup, now);
        var s := Survivors(rest, lookup, now);
        assert ([v] + s)[1..] == s;
      } else {
        SurvivorsIdempotent(rest, lookup, now);
      }
    }
  }

  /** The values of distinct keys still in the lookup are passed through unchanged. */
  lemma {:induction false} SurvivorsOfValues(ks: seq<string>, lookup: map<string, Vehicle>, now: real)
    requires KeyedById(lookup)
    requires Distinct(ks)
    requires forall k :: k in ks ==> k in lookup
    ensures Survivors(Values(lookup, ks), lookup, now) == Values(lookup, ks)
  {
    if ks != [] {
      var vs := Values(lookup, ks);
      var lookup' := lookup - {ks[0]};
      var rest := ks[1..];
      assert forall b :: 0 <= b < |rest| ==> rest[b] == ks[b + 1];
      assert ks[0] !in rest;
      assert Distinct(rest) by {
        forall a, b | 0 <= a < b < |rest| ensures rest[a] != rest[b] {
          assert ks[a + 1] != ks[b + 1];
        }
      }
      SurvivorsOfValues(rest, lookup', now);
      assert vs[1..] == Values(lookup', rest);
      assert vs[0].id == ks[0];
    }
  }

  // ---------------------------------------------------------------------------
  // Properties of the updater

  /** Repeating a poll's reconciliation with the same feed and clock changes nothing. */
  lemma ReconcileIdempotent(prev: seq<Vehicle>, incoming: seq<Vehicle>, now: real)
    ensures Reconcile(Reconcile(prev, incoming, now), incoming, now) == Reconcile(prev, incoming, now)
  {
    var m := IncomingMap(incoming);
    var lookup := m.entries;
    IncomingMapKeyedById(incoming);
    var s := Survivors(prev, lookup, now);
    var ks := Remove(m.order, IdSet(prev));
    var n := Values(lookup, ks);
    var r := s + n;
    // the first part: survivors of survivors, then the newcomers pass through
    SurvivorsAppend(s, n, lookup, now);
    SurvivorsIdempotent(prev, lookup, now);
    SurvivorsLeaveLookup(prev, lookup, now);
    var left := lookup - IdSet(prev);
    assert n == Values(left, ks);
    RemoveKeepsDistinct(m.order, IdSet(prev));
    SurvivorsOfValues(ks, left, now);
    assert Survivors(r, lookup, now) == r;
    // the second part: every key of the lookup is now an identifier of r
    IdSetConcat(s, n);
    forall k | k in m.order ensures k in IdSet(r) {
      if k in IdSet(prev) {
        assert k !in left.Keys;
        assert k in IdSet(s);
      } else {
        var a :| 0 <= a < |ks| && ks[a] == k;
        assert n[a].id == k;
        assert n[a] in n;
      }
    }
    RemoveEverything(m.order, IdSet(r));
  }

  /** A previous vehicle whose identifier is in the feed, at its first occurrence, is
      replaced in place by the last feed record with that identifier. */
  lemma ReconcileReplacesMatched(prev: seq<Vehicle>, incoming: seq<Vehicle>, now: real, i: int, j: int)
    requires 0 <= i < |prev|
    requires prev[i].id !in IdSet(prev[..i])
    requires LastIdAt(incoming, prev[i].id, j)
    ensures Survivors(prev[..i + 1], IncomingMap(incoming).entries, now)
            == Survivors(prev[..i], IncomingMap(incoming).entries, now) + [incoming[j]]
    ensures Survivors(prev[..i + 1], IncomingMap(incoming).entries, now) <= Reconcile(prev, incoming, now)
  {
    var lookup := IncomingMap(incoming).entries;
    IncomingMapLastWins(incoming, prev[i].id, j);
    assert prev[..i + 1] == prev[..i] + [prev[i]];
    SurvivorsAppend(prev[..i], [prev[i]], lookup, now);
    assert Survivors([prev[i]], lookup - IdSet(prev[..i]), now) == [incoming[j]] by {
      var l := lookup - IdSet(prev[..i]);
      assert prev[i].id in l && l[prev[i].id] == incoming[j];
      assert [prev[i]][1..] == [];
    }
    assert prev == prev[..i + 1] + prev[i + 1..];
    SurvivorsAppend(prev[..i + 1], prev[i + 1..], lookup, now);
  }

  /** A previous vehicle whose identifier is not in the feed (or was already matched by
      an earlier previous vehicle) is emitted unchanged iff it is younger than MaxAge. */
  lemma ReconcileKeepsYoungGhost(prev: seq<Vehicle>, incoming: seq<Vehicle>, now: real, i: int)
    requires 0 <= i < |prev|
    requires prev[i].id !in IdSet(incoming) || prev[i].id in IdSet(prev[..i])
    ensures Survivors(prev[..i + 1], IncomingMap(incoming).entries, now)
            == Survivors(prev[..i], IncomingMap(incoming).entries, now)
               + (if now - prev[i].timestamp < 300.0 then [prev[i]] else [])
    ensures Survivors(prev[..i + 1], IncomingMap(incoming).entries, now) <= Reconcile(prev, incoming, now)
  {
    var lookup := IncomingMap(incoming).entries;
    IncomingMapKeyedById(incoming);
    assert prev[..i + 1] == prev[..i] + [prev[i]];
    SurvivorsAppend(prev[..i], [prev[i]], lookup, now);
    assert prev[i].id !in lookup - IdSet(prev[..i]);
    assert prev == prev[..i + 1] + prev[i + 1..];
    SurvivorsAppend(prev[..i + 1], prev[i + 1..], lookup, now);
  }

  /** The example of a vehicle that drops out of the feed: still shown 299 s after its
      report, gone at 300 s and later. */
  lemma GhostExample(a: Vehicle)
    requires a.timestamp == 1000.0
    ensures Reconcile([a], [], 1299.0) == [a]
    ensures Reconcile([a], [], 1300.0) == []
    ensures Reconcile([a], [], 1301.0) == []
  {
    assert Entries([]) == [];
    var m := IncomingMap([]);
    assert m.entries == map[] && m.order == [];
    assert Remove([], IdSet([a])) == [];
    assert Newcomers([a], []) == [];
    assert [a][0] == a && [a][1..] == [];
    assert Survivors([a], map[], 1299.0) == [a] + Survivors([], map[], 1299.0);
    assert Survivors([a], map[], 1300.0) == Survivors([], map[], 1300.0);
    assert Survivors([a], map[], 1301.0) == Survivors([], map[], 1301.0);
  }

  /** Brand-new vehicles are exactly the feed identifiers that no previous vehicle
      carries, each once. */
  lemma NewcomerIds(prev: seq<Vehicle>, incoming: seq<Vehicle>)
    ensures IdSet(Newcomers(prev, incoming)) == IdSet(incoming) - IdSet(prev)
    ensures Distinct(Ids(Newcomers(prev, incoming)))
  {
    var m := IncomingMap(incoming);
    IncomingMapKeyedById(incoming);
    var n := Newcomers(prev, incoming);
    assert Ids(n) == Remove(m.order, IdSet(prev));
    RemoveKeepsDistinct(m.order, IdSet(prev));
    IdSetOfIds(n);
  }

  /** Brand-new vehicles come in order of first appearance in the feed. */
  lemma NewcomersInFeedOrder(prev: seq<Vehicle>, incoming: seq<Vehicle>)
    ensures forall a :: 0 <= a < |Newcomers(prev, incoming)| ==> Newcomers(prev, incoming)[a].id in Ids(incoming)
    ensures forall a, b :: 0 <= a < b < |Newcomers(prev, incoming)| ==>
      FirstIndex(Ids(incoming), Newcomers(prev, incoming)[a].id) < FirstIndex(Ids(incoming), Newcomers(prev, incoming)[b].id)
  {
    var m := IncomingMap(incoming);
    var es := Entries(incoming);
    EntryKeys(incoming);
    IncomingMapKeyedById(incoming);
    var ks := Remove(m.order, IdSet(prev));
    var n := Newcomers(prev, incoming);
    FromEntriesFirstSeenOrder(es);
    RemoveKeepsFirstSeenOrder(m.order, IdSet(prev), Ids(incoming));
    forall a | 0 <= a < |n| ensures n[a].id == ks[a] {
      assert n[a] == m.entries[ks[a]];
    }
  }

  /** Each brand-new vehicle is the last feed record carrying its identifier. */
  lemma NewcomersAreLatest(prev: seq<Vehicle>, incoming: seq<Vehicle>)
    ensures forall a, j :: 0 <= a < |Newcomers(prev, incoming)| && LastIdAt(incoming, Newcomers(prev, incoming)[a].id, j) ==>
      Newcomers(prev, incoming)[a] == incoming[j]
  {
    var m := IncomingMap(incoming);
    var ks := Remove(m.order, IdSet(prev));
    var n := Newcomers(prev, incoming);
    IncomingMapKeyedById(incoming);
    forall a, j | 0 <= a < |n| && LastIdAt(incoming, n[a].id, j) ensures n[a] == incoming[j] {
      assert n[a] == m.entries[ks[a]];
      IncomingMapLastWins(incoming, n[a].id, j);
    }
  }

  /** `o` lists keys of `ks` by increasing first occurrence in `ks`. */
  ghost predicate InFirstSeenOrder(o: seq<string>, ks: seq<string>)
  {
    && (forall k :: k in o ==> k in ks)
    && (forall a, b :: 0 <= a < b < |o| ==> FirstIndex(ks, o[a]) < FirstIndex(ks, o[b]))
  }

  lemma FirstSeenOrderTail(o: seq<string>, ks: seq<string>)
    requires InFirstSeenOrder(o, ks) && o != []
    ensures InFirstSeenOrder(o[1..], ks)
    ensures o[0] in ks && forall x :: x in o[1..] ==> FirstIndex(ks, o[0]) < FirstIndex(ks, x)
  {
    assert o[0] in o;
    forall a, b | 0 <= a < b < |o[1..]| ensures FirstIndex(ks, o[1..][a]) < FirstIndex(ks, o[1..][b]) {
      assert o[1..][a] == o[a + 1] && o[1..][b] == o[b + 1];
    }
    forall x | x in o[1..] ensures FirstIndex(ks, o[0]) < FirstIndex(ks, x) {
      var b :| 0 <= b < |o[1..]| && o[1..][b] == x;
      assert o[b + 1] == x;
    }
  }

  lemma FirstSeenOrderCons(x: string, r: seq<string>, ks: seq<string>)
    requires InFirstSeenOrder(r, ks) && x in ks
    requires forall y :: y in r ==> FirstIndex(ks, x) < FirstIndex(ks, y)
    ensures InFirstSeenOrder([x] + r, ks)
  {
    var o := [x] + r;
    assert forall i :: 0 < i < |o| ==> o[i] == r[i - 1];
    forall a, b | 0 <= a < b < |o| ensures FirstIndex(ks, o[a]) < FirstIndex(ks, o[b]) {
      if a == 0 {
        assert r[b - 1] in r;
      }
    }
  }

  lemma {:induction false} RemoveKeepsFirstSeenOrder(o: seq<string>, d: set<string>, ks: seq<string>)
    requires InFirstSeenOrder(o, ks)
    ensures InFirstSeenOrder(Remove(o, d), ks)
  {
    if o != [] {
      FirstSeenOrderTail(o, ks);
      RemoveKeepsFirstSeenOrder(o[1..], d, ks);
      if o[0] !in d {
        FirstSeenOrderCons(o[0], Remove(o[1..], d), ks);
      }
    }
  }

  /** No feed identifier is lost, and nothing appears that neither list carried. */
  lemma ReconcileKeepsEveryIncoming(prev: seq<Vehicle>, incoming: seq<Vehicle>, now: real)
    ensures IdSet(incoming) <= IdSet(Reconcile(prev, incoming, now))
    ensures IdSet(Reconcile(prev, incoming, now)) <= IdSet(prev) + IdSet(incoming)
  {
    var lookup := IncomingMap(incoming).entries;
    IncomingMapKeyedById(incoming);
    var s := Survivors(prev, lookup, now);
    var n := Newcomers(prev, incoming);
    IdSetConcat(s, n);
    SurvivorIds(prev, lookup, now);
    NewcomerIds(prev, incoming);
    SurvivorsLeaveLookup(prev, lookup, now);
    forall k | k in IdSet(incoming) && k in IdSet(prev) ensures k in IdSet(s) {
      assert k !in (lookup - IdSet(prev)).Keys;
    }
  }

  /** Distinct previous identifiers give distinct identifiers after the poll. */
  lemma ReconcileKeepsIdsDistinct(prev: seq<Vehicle>, incoming: seq<Vehicle>, now: real)
    requires Distinct(Ids(prev))
    ensures Distinct(Ids(Reconcile(prev, incoming, now)))
  {
    var lookup := IncomingMap(incoming).entries;
    var s := Survivors(prev, lookup, now);
    var n := Newcomers(prev, incoming);
    assert Distinct(Ids(s)) by {
      IncomingMapKeyedById(incoming);
      SurvivorIdsDistinct(prev, lookup, now);
    }
    assert forall k :: k in Ids(s) ==> k !in Ids(n) by {
      IncomingMapKeyedById(incoming);
      SurvivorIds(prev, lookup, now);
      NewcomerIds(prev, incoming);
      IdSetOfIds(s);
      IdSetOfIds(n);
    }
    NewcomerIds(prev, incoming);
    DistinctConcat(Ids(s), Ids(n));
    IdsConcat(s, n);
  }

  /** For a feed without repeated identifiers, reading the lookup back in feed order
      gives the feed itself. */
  lemma IncomingMapReadBack(incoming: seq<Vehicle>)
    requires Distinct(Ids(incoming))
    ensures forall k :: k in Ids(incoming) ==> k in IncomingMap(incoming).entries
    ensures Values(IncomingMap(incoming).entries, Ids(incoming)) == incoming
  {
    var es := Entries(incoming);
    var m := IncomingMap(incoming);
    EntryKeys(incoming);
    FromEntriesDistinctOrder(es);
    var n := Values(m.entries, Ids(incoming));
    forall i | 0 <= i < |incoming| ensures n[i] == incoming[i] {
      assert es[i] == (incoming[i].id, incoming[i]);
      FromEntriesDistinctValue(es, i);
    }
  }

  /** With nothing shown yet and a feed without repeated identifiers, the feed is shown
      as it is. */
  lemma ReconcileFromEmpty(incoming: seq<Vehicle>, now: real)
    requires Distinct(Ids(incoming))
    ensures Reconcile([], incoming, now) == incoming
  {
    var m := IncomingMap(incoming);
    assert m.order == Ids(incoming) by {
      EntryKeys(incoming);
      FromEntriesDistinctOrder(Entries(incoming));
    }
    assert Remove(m.order, IdSet([])) == m.order by {
      assert IdSet([]) == {};
      RemoveNothing(m.order, {});
    }
    IncomingMapReadBack(incoming);
  }
}
