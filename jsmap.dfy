/** The JavaScript `Map` as the core uses it: keys are strings, `set` on a new key
    appends it to the iteration order, `set` on a present key replaces the value in
    place (last write wins), and `delete` removes the key from both. `new Map(entries)`
    sets the entries one by one from left to right. */
module JsMap {
  import opened Types

  /** The keys of an entry list, in list order. */
  function Keys<V>(es: seq<(string, V)>): (ks: seq<string>)
    ensures |ks| == |es|
    ensures forall i :: 0 <= i < |es| ==> ks[i] == es[i].0
  {
    seq(|es|, i requires 0 <= i < |es| => es[i].0)
  }

  /** The keys of `o` that are not in `d`, in the order of `o`. */
  function Remove(o: seq<string>, d: set<string>): (r: seq<string>)
    ensures forall k :: k in r <==> k in o && k !in d
    ensures |r| <= |o|
  {
    if o == [] then [] else (if o[0] in d then [] else [o[0]]) + Remove(o[1..], d)
  }

  /** A map together with the order in which its keys were first inserted. */
  datatype OrderedMap<V> = OrderedMap(order: seq<string>, entries: map<string, V>)
  {
    /** The order lists every key exactly once. */
    ghost predicate Valid()
    {
      Distinct(order) && forall k :: k in entries <==> k in order
    }

    /** `m.set(k, v)`. */
    function Set(k: string, v: V): (m: OrderedMap<V>)
      requires Valid()
      ensures m.Valid()
      ensures m.entries == entries[k := v]
      ensures k in entries ==> m.order == order
      ensures k !in entries ==> m.order == order + [k]
    {
      if k in entries then OrderedMap(order, entries[k := v])
      else OrderedMap(order + [k], entries[k := v])
    }

    /** `m.delete(k)`. */
    function Delete(k: string): (m: OrderedMap<V>)
      requires Valid()
      ensures m.Valid()
      ensures m.entries == entries - {k}
      ensures m.order == Remove(order, {k})
    {
      RemoveKeepsDistinct(order, {k});
      OrderedMap(Remove(order, {k}), entries - {k})
    }
  }

  /** The map after deleting every key of `d`. */
  function DeleteAll<V>(m: OrderedMap<V>, d: set<string>): (r: OrderedMap<V>)
    requires m.Valid()
    ensures r.Valid()
  {
    RemoveKeepsDistinct(m.order, d);
    OrderedMap(Remove(m.order, d), m.entries - d)
  }

  /** Deleting a set of keys and then one more key is deleting them all at once. */
  lemma DeleteAllThenDelete<V>(m: OrderedMap<V>, d: set<string>, k: string)
    requires m.Valid()
    ensures DeleteAll(m, d).Delete(k) == DeleteAll(m, d + {k})
  {
    RemoveTwice(m.order, d, {k});
    assert m.entries - d - {k} == m.entries - (d + {k});
  }

  /** Deleting a key that is already gone changes nothing. */
  lemma DeleteAllAbsent<V>(m: OrderedMap<V>, d: set<string>, k: string)
    requires m.Valid()
    requires k !in DeleteAll(m, d).entries
    ensures DeleteAll(m, d) == DeleteAll(m, d + {k})
  {
    RemoveSameOnOrder(m.order, d, d + {k});
    assert m.entries - d == m.entries - (d + {k});
  }

  /** Deleting nothing changes nothing. */
  lemma DeleteAllNone<V>(m: OrderedMap<V>)
    requires m.Valid()
    ensures DeleteAll(m, {}) == m
  {
    RemoveNothing(m.order, {});
    assert m.entries - {} == m.entries;
  }

  /** A removal that hits every key of `o` leaves nothing. */
  lemma {:induction false} RemoveEverything(o: seq<string>, d: set<string>)
    requires forall k :: k in o ==> k in d
    ensures Remove(o, d) == []
  {
    if o != [] {
      assert o[0] in o;
      RemoveEverything(o[1..], d);
    }
  }

  /** `new Map(es)`: the entries are set one after the other, left to right. */
  function FromEntries<V>(es: seq<(string, V)>): (m: OrderedMap<V>)
    ensures m.Valid()
    ensures forall k :: k in m.entries <==> k in Keys(es)
  {
    if es == [] then OrderedMap([], map[])
    else
      var m' := FromEntries(es[..|es| - 1]);
      assert Keys(es) == Keys(es[..|es| - 1]) + [es[|es| - 1].0];
      m'.Set(es[|es| - 1].0, es[|es| - 1].1)
  }

  /** `j` is the last position of the list whose key is `k`. */
  ghost predicate LastKeyAt<V>(es: seq<(string, V)>, k: string, j: int)
  {
    0 <= j < |es| && es[j].0 == k && forall j' :: j < j' < |es| ==> es[j'].0 != k
  }

  /** The position of the first occurrence of `k`. */
  function FirstIndex(ks: seq<string>, k: string): (r: nat)
    requires k in ks
    ensures r < |ks| && ks[r] == k
    ensures forall j :: 0 <= j < r ==> ks[j] != k
  {
    if ks[0] == k then 0 else 1 + FirstIndex(ks[1..], k)
  }

  lemma {:induction false} RemoveKeepsDistinct(o: seq<string>, d: set<string>)
    requires Distinct(o)
    ensures Distinct(Remove(o, d))
  {
    if o != [] {
      RemoveKeepsDistinct(o[1..], d);
      var r := Remove(o[1..], d);
      assert o[0] !in o[1..] by {
        forall j | 0 <= j < |o[1..]| ensures o[1..][j] != o[0] {
          assert o[1..][j] == o[j + 1];
        }
      }
      assert o[0] !in r;
    }
  }

  /** Removing `a` and then `b` is removing both at once. */
  lemma {:induction false} RemoveTwice(o: seq<string>, a: set<string>, b: set<string>)
    ensures Remove(Remove(o, a), b) == Remove(o, a + b)
  {
    if o != [] {
      RemoveTwice(o[1..], a, b);
      if o[0] in a {
        assert Remove(o, a) == Remove(o[1..], a);
      } else {
        assert Remove(o, a) == [o[0]] + Remove(o[1..], a);
        assert Remove(Remove(o, a), b) == (if o[0] in b then [] else [o[0]]) + Remove(Remove(o[1..], a), b);
      }
    }
  }

  /** Only the keys that `o` holds matter to a removal. */
  lemma {:induction false} RemoveSameOnOrder(o: seq<string>, a: set<string>, b: set<string>)
    requires forall k :: k in o ==> (k in a <==> k in b)
    ensures Remove(o, a) == Remove(o, b)
  {
    if o != [] {
      assert o[0] in o;
      RemoveSameOnOrder(o[1..], a, b);
    }
  }

  /** A removal that hits no key of `o` leaves it as it is. */
  lemma {:induction false} RemoveNothing(o: seq<string>, d: set<string>)
    requires forall k :: k in o ==> k !in d
    ensures Remove(o, d) == o
  {
    if o != [] {
      assert o[0] in o;
      RemoveNothing(o[1..], d);
      assert o == [o[0]] + o[1..];
    }
  }

  /** Building from a non-empty list is building from all but the last entry, then
      setting the last entry. */
  lemma FromEntriesSnoc<V>(es: seq<(string, V)>)
    requires es != []
    ensures FromEntries(es).entries == FromEntries(es[..|es| - 1]).entries[es[|es| - 1].0 := es[|es| - 1].1]
  {
  }

  /** Last write wins: the value of a key is the value of the last entry that carries it. */
  lemma {:induction false} FromEntriesLastWins<V>(es: seq<(string, V)>, k: string, j: int)
    requires LastKeyAt(es, k, j)
    ensures k in FromEntries(es).entries && FromEntries(es).entries[k] == es[j].1
  {
    var n := |es| - 1;
    var es' := es[..n];
    FromEntriesSnoc(es);
    if j < n {
      assert LastKeyAt(es', k, j) by {
        assert es'[j] == es[j];
        assert forall j' :: j < j' < n ==> es'[j'] == es[j'];
      }
      FromEntriesLastWins(es', k, j);
      assert es[n].0 != k;
    }
  }

  /** Every key that occurs has a last occurrence. */
  lemma LastKeyExists<V>(es: seq<(string, V)>, k: string, j: int)
    requires 0 <= j < |es| && es[j].0 == k
    ensures exists j' :: LastKeyAt(es, k, j')
    decreases |es| - j
  {
    if !LastKeyAt(es, k, j) {
      var j' :| j < j' < |es| && es[j'].0 == k;
      LastKeyExists(es, k, j');
    }
  }

  /** Keys are iterated in the order of their first appearance among the entries. */
  lemma {:induction false} FromEntriesFirstSeenOrder<V>(es: seq<(string, V)>)
    ensures forall k :: k in FromEntries(es).order ==> k in Keys(es)
    ensures forall i, j :: 0 <= i < j < |FromEntries(es).order| ==>
      FirstIndex(Keys(es), FromEntries(es).order[i]) < FirstIndex(Keys(es), FromEntries(es).order[j])
  {
    if es != [] {
      var n := |es| - 1;
      var es' := es[..n];
      FromEntriesFirstSeenOrder(es');
      var ks, ks' := Keys(es), Keys(es');
      assert ks == ks' + [es[n].0];
      var o, o' := FromEntries(es).order, FromEntries(es').order;
      forall k | k in ks' ensures FirstIndex(ks, k) == FirstIndex(ks', k) {
        FirstIndexAppend(ks', es[n].0, k);
      }
      if es[n].0 !in FromEntries(es').entries {
        assert o == o' + [es[n].0];
        assert es[n].0 !in ks';
        FirstIndexAppend(ks', es[n].0, es[n].0);
        forall i, j | 0 <= i < j < |o|
          ensures FirstIndex(ks, o[i]) < FirstIndex(ks, o[j])
        {
          assert o[i] == o'[i];
          if j < |o'| {
            assert o[j] == o'[j];
          }
        }
      }
    }
  }

  /** Appending a key does not move the first occurrence of a key already present,
      and a key not yet present first occurs at the end. */
  lemma FirstIndexAppend(ks: seq<string>, x: string, k: string)
    requires k in ks + [x]
    ensures k in ks ==> FirstIndex(ks + [x], k) == FirstIndex(ks, k)
    ensures k !in ks ==> FirstIndex(ks + [x], k) == |ks|
  {
    var r := FirstIndex(ks + [x], k);
    if k in ks {
      var r' := FirstIndex(ks, k);
      assert (ks + [x])[r'] == k;
      assert forall j :: 0 <= j < |ks| ==> (ks + [x])[j] == ks[j];
    } else {
      assert forall j :: 0 <= j < |ks| ==> (ks + [x])[j] == ks[j];
    }
  }

  /** When no key repeats, the iteration order is the entry order. */
  lemma {:induction false} FromEntriesDistinctOrder<V>(es: seq<(string, V)>)
    requires Distinct(Keys(es))
    ensures FromEntries(es).order == Keys(es)
  {
    if es != [] {
      var n := |es| - 1;
      var es' := es[..n];
      assert Keys(es') == Keys(es)[..n];
      FromEntriesDistinctOrder(es');
      assert es[n].0 !in Keys(es');
      assert Keys(es) == Keys(es') + [es[n].0];
    }
  }

  /** When no key repeats, each key maps to its own entry's value. */
  lemma FromEntriesDistinctValue<V>(es: seq<(string, V)>, j: int)
    requires Distinct(Keys(es)) && 0 <= j < |es|
    ensures es[j].0 in FromEntries(es).entries && FromEntries(es).entries[es[j].0] == es[j].1
  {
    var ks := Keys(es);
    assert forall j' :: j < j' < |es| ==> ks[j] != ks[j'];
    FromEntriesLastWins(es, es[j].0, j);
  }
}
