/** A JavaScript `Map` with integer keys: a lookup table that also remembers the
    order in which keys were first inserted, which is the order `values()` iterates in. */
module OrderedMaps {
  import opened Wrappers
  import opened Sequences

  /** Every listed key is stored. */
  predicate KeysIn<V>(keys: seq<int>, entries: map<int, V>)
  {
    forall i :: 0 <= i < |keys| ==> keys[i] in entries
  }

  /** The test `x != k`, as one named value so that every use denotes the same function. */
  function Without(k: int): int -> bool
  {
    x => x != k
  }

  /** The values of `entries` listed in the order of `keys`. */
  function ValuesOf<V>(keys: seq<int>, entries: map<int, V>): (r: seq<V>)
    requires KeysIn(keys, entries)
    ensures |r| == |keys|
    ensures forall i :: 0 <= i < |keys| ==> r[i] == entries[keys[i]]
  {
    if keys == [] then [] else [entries[keys[0]]] + ValuesOf(keys[1..], entries)
  }

  datatype OrderedMap<V> = OrderedMap(keys: seq<int>, entries: map<int, V>) {

    /** Each key is listed once, and the listed keys are exactly the stored ones. */
    ghost predicate Valid()
    {
      && Distinct(keys)
      && KeysIn(keys, entries)
      && forall k :: k in entries ==> k in keys
    }

    /** `map.get(k)`: the stored value, or `undefined`. */
    function Get(k: int): (r: Option<V>)
      ensures r.Some? <==> k in entries
      ensures r.Some? ==> r.value == entries[k]
    {
      if k in entries then Some(entries[k]) else None
    }

    /** `map.set(k, v)`: a new key goes to the end of the order; an existing key keeps its place. */
    function Set(k: int, v: V): (m: OrderedMap<V>)
      requires Valid()
      ensures m.Valid()
      ensures m.entries == entries[k := v]
      ensures m.keys == if k in entries then keys else keys + [k]
    {
      if k in entries then OrderedMap(keys, entries[k := v])
      else
        OrderedMap(keys + [k], entries[k := v])
    }

    /** `map.delete(k)`: the map without `k`, and whether `k` was there. */
    function Delete(k: int): (r: (OrderedMap<V>, bool))
      requires Valid()
      ensures r.0.Valid()
      ensures r.1 <==> k in entries
      ensures r.0.entries == entries - {k}
      ensures r.0.keys == Filter(keys, Without(k))
    {
      FilterDistinct(keys, Without(k));
      DeleteKeysIn(keys, entries, k);
      (OrderedMap(Filter(keys, Without(k)), entries - {k}), k in entries)
    }

    /** `Array.from(map.values())`. */
    function Values(): (r: seq<V>)
      requires Valid()
      ensures |r| == |keys|
      ensures forall i :: 0 <= i < |keys| ==> r[i] == entries[keys[i]]
    {
      ValuesOf(keys, entries)
    }
  }

  /** The empty map, `new Map()`. */
  function Empty<V>(): (m: OrderedMap<V>)
    ensures m.Valid() && m.keys == [] && m.entries == map[]
  {
    OrderedMap([], map[])
  }

  /** Setting a new key appends its value to the iteration order. */
  lemma SetNewValues<V>(m: OrderedMap<V>, k: int, v: V)
    requires m.Valid() && k !in m.entries
    ensures m.Set(k, v).Values() == m.Values() + [v]
  {
    assert forall i :: 0 <= i < |m.keys| ==> m.keys[i] != k;
  }

  /** Setting an existing key replaces its value in place and moves nothing. */
  lemma SetExistingValues<V>(m: OrderedMap<V>, k: int, v: V)
    requires m.Valid() && k in m.entries
    ensures |m.Set(k, v).Values()| == |m.Values()|
    ensures forall i :: 0 <= i < |m.keys| ==>
      m.Set(k, v).Values()[i] == if m.keys[i] == k then v else m.Values()[i]
  {
  }

  /** After a delete the key looks up as absent and every other key as before. */
  lemma DeleteGet<V>(m: OrderedMap<V>, k: int)
    requires m.Valid()
    ensures m.Delete(k).0.Get(k) == None
    ensures forall j :: j != k ==> m.Delete(k).0.Get(j) == m.Get(j)
  {
  }

  /** The keys surviving a delete are still stored after it. */
  lemma DeleteKeysIn<V>(keys: seq<int>, entries: map<int, V>, k: int)
    requires KeysIn(keys, entries)
    ensures KeysIn(Filter(keys, Without(k)), entries - {k})
  {
    var kept := Filter(keys, Without(k));
    forall i | 0 <= i < |kept| ensures kept[i] in entries - {k} {
      assert kept[i] in kept;
    }
  }

  /** Listing the values of two key sequences one after the other. */
  lemma ValuesOfAppend<V>(a: seq<int>, b: seq<int>, entries: map<int, V>)
    requires KeysIn(a, entries) && KeysIn(b, entries)
    ensures ValuesOf(a + b, entries) == ValuesOf(a, entries) + ValuesOf(b, entries)
  {
    assert KeysIn(a + b, entries) by {
      forall i | 0 <= i < |a + b| ensures (a + b)[i] in entries {
        if i >= |a| { assert (a + b)[i] == b[i - |a|]; }
      }
    }
  }

  /** When every value records its own key (as `keyOf`), deleting key `k` removes
      exactly the values whose key is `k` and keeps the rest in order. */
  lemma {:induction false} DeleteValues<V(!new)>(keys: seq<int>, entries: map<int, V>, k: int, keyOf: V -> int, keep: V -> bool)
    requires KeysIn(keys, entries)
    requires forall x :: x in entries ==> keyOf(entries[x]) == x
    requires forall v :: keep(v) == (keyOf(v) != k)
    ensures KeysIn(Filter(keys, Without(k)), entries - {k})
    ensures ValuesOf(Filter(keys, Without(k)), entries - {k})
         == Filter(ValuesOf(keys, entries), keep)
  {
    var kept := Filter(keys, Without(k));
    DeleteKeysIn(keys, entries, k);
    if keys != [] {
      var a, rest := keys[0], keys[1..];
      DeleteValues(rest, entries, k, keyOf, keep);
      var head := if a != k then [a] else [];
      assert kept == head + Filter(rest, Without(k));
      assert KeysIn(head, entries - {k});
      ValuesOfAppend(head, Filter(rest, Without(k)), entries - {k});
      assert ValuesOf(keys, entries) == [entries[a]] + ValuesOf(rest, entries);
      assert keyOf(entries[a]) == a;
    }
  }

  /** `map.delete(k)` on a map whose values record their keys: the remaining values are
      the old ones without those keyed `k`, in the old order. */
  lemma DeleteFiltersValues<V(!new)>(m: OrderedMap<V>, k: int, keyOf: V -> int, keep: V -> bool)
    requires m.Valid()
    requires forall x :: x in m.entries ==> keyOf(m.entries[x]) == x
    requires forall v :: keep(v) == (keyOf(v) != k)
    ensures m.Delete(k).0.Values() == Filter(m.Values(), keep)
  {
    DeleteValues(m.keys, m.entries, k, keyOf, keep);
  }
}
