/**
 * A finite map that remembers the order in which its keys were first inserted,
 * as a JavaScript object enumerates its own string keys (`Object.entries`):
 * overwriting a key keeps its place, deleting it and adding it again moves it to the end.
 */
module OrderedMaps {
  import opened Wrappers
  import opened Sequences

  /** The keys of `s` that are not in `ks`, in their order in `s`. */
  function Without<K(==)>(s: seq<K>, ks: set<K>): (r: seq<K>)
    ensures forall i :: 0 <= i < |r| ==> r[i] in s && r[i] !in ks
    ensures forall i :: 0 <= i < |s| && s[i] !in ks ==> s[i] in r
    ensures Distinct(s) ==> Distinct(r)
  {
    if s == [] then []
    else (if s[0] in ks then [] else [s[0]]) + Without(s[1..], ks)
  }

  /** Dropping keys the sequence does not hold changes nothing. */
  lemma {:induction false} WithoutAbsent<K>(s: seq<K>, ks: set<K>)
    requires forall i :: 0 <= i < |s| ==> s[i] !in ks
    ensures Without(s, ks) == s
  {
    if s != [] {
      WithoutAbsent(s[1..], ks);
    }
  }

  /** Dropping a key the sequence does not hold changes nothing. */
  lemma {:induction false} WithoutMissing<K>(s: seq<K>, k: K)
    requires k !in s
    ensures Without(s, {k}) == s
  {
    if s != [] {
      assert s[0] != k && k !in s[1..];
      WithoutMissing(s[1..], k);
    }
  }

  /** Dropping two sets of keys one after the other drops their union. */
  lemma {:induction false} WithoutWithout<K>(s: seq<K>, a: set<K>, b: set<K>)
    ensures Without(Without(s, a), b) == Without(s, a + b)
  {
    if s != [] {
      var rest := Without(s[1..], a);
      WithoutWithout(s[1..], a, b);
      if s[0] in a {
        assert Without(s, a) == rest;
      } else {
        assert Without(s, a) == [s[0]] + rest;
        assert ([s[0]] + rest)[1..] == rest;
        assert Without([s[0]] + rest, b) == (if s[0] in b then [] else [s[0]]) + Without(rest, b);
      }
    }
  }

  datatype OrderedMap<K(==, !new), V> = OrderedMap(entries: map<K, V>, order: seq<K>) {

    /** `order` lists every key exactly once. */
    ghost predicate Valid() {
      Distinct(order) && forall k :: k in order <==> k in entries
    }

    function Get(k: K): Option<V> {
      if k in entries then Some(entries[k]) else None
    }

    function GetOr(k: K, default: V): V {
      if k in entries then entries[k] else default
    }

    /** `obj[k] = v`. */
    function Put(k: K, v: V): (r: OrderedMap<K, V>)
      ensures r.entries == entries[k := v]
      ensures k in entries ==> r.order == order
      ensures k !in entries ==> r.order == order + [k]
      ensures Valid() ==> r.Valid()
    {
      OrderedMap(entries[k := v], if k in entries then order else order + [k])
    }

    /** `delete obj[k]` for every `k` in `ks`. */
    function RemoveAll(ks: set<K>): (r: OrderedMap<K, V>)
      ensures r.entries == entries - ks
      ensures r.order == Without(order, ks)
      ensures Valid() ==> r.Valid()
    {
      OrderedMap(entries - ks, Without(order, ks))
    }

    /** `delete obj[k]`. */
    function Remove(k: K): (r: OrderedMap<K, V>)
      ensures k !in r.entries
      ensures forall j :: j != k ==> r.Get(j) == Get(j)
      ensures r.order == Without(order, {k})
      ensures Valid() ==> r.Valid()
    {
      RemoveAll({k})
    }

    /** Deleting a key that is not there changes nothing. */
    lemma RemoveAbsent(k: K)
      requires Valid() && k !in entries
      ensures Remove(k) == this
    {
      assert k !in order;
      WithoutMissing(order, k);
      assert entries - {k} == entries;
    }

    /** Deleting no keys changes nothing. */
    lemma RemoveNone()
      ensures RemoveAll({}) == this
    {
      WithoutAbsent(order, {});
      assert entries - {} == entries;
    }

    /** Deleting one set of keys and then another deletes their union. */
    lemma RemoveAllRemoveAll(a: set<K>, b: set<K>)
      ensures RemoveAll(a).RemoveAll(b) == RemoveAll(a + b)
    {
      WithoutWithout(order, a, b);
      assert (entries - a) - b == entries - (a + b);
    }

    /** Deleting a key twice is deleting it once. */
    lemma RemoveTwice(k: K)
      ensures Remove(k).Remove(k) == Remove(k)
    {
      RemoveAllRemoveAll({k}, {k});
      assert {k} + {k} == {k};
    }

    /** Writing the value a key already holds changes nothing. */
    lemma PutSame(k: K)
      requires k in entries
      ensures Put(k, entries[k]) == this
    {
      assert entries[k := entries[k]] == entries;
    }

    /** A second write to the same key only replaces the value. */
    lemma PutPut(k: K, v: V, w: V)
      ensures Put(k, v).Put(k, w) == Put(k, w)
    {
      assert entries[k := v][k := w] == entries[k := w];
    }

    /** `Object.entries(obj)`: the key/value pairs in key order. */
    function Items(): seq<(K, V)> {
      ItemsOf(order)
    }

    /** The pairs for the stored keys among `keys`, in the order of `keys`. */
    function ItemsOf(keys: seq<K>): seq<(K, V)> {
      if keys == [] then []
      else
        var k := keys[|keys| - 1];
        ItemsOf(keys[..|keys| - 1]) + if k in entries then [(k, entries[k])] else []
    }

    lemma {:induction false} ItemsOfStoredKeys(keys: seq<K>)
      requires forall k :: k in keys ==> k in entries
      ensures |ItemsOf(keys)| == |keys|
      ensures forall i :: 0 <= i < |keys| ==> ItemsOf(keys)[i] == (keys[i], entries[keys[i]])
    {
      if keys != [] {
        ItemsOfStoredKeys(keys[..|keys| - 1]);
      }
    }

    /** `Object.entries` yields every stored pair exactly once. */
    lemma ItemsExact()
      requires Valid()
      ensures |Items()| == |order| == |entries|
      ensures forall i :: 0 <= i < |Items()| ==> Items()[i].0 == order[i] && Items()[i].1 == entries[order[i]]
      ensures forall k :: k in entries ==> (k, entries[k]) in Items()
    {
      ItemsOfStoredKeys(order);
      DistinctKeysCount(order, entries.Keys);
      forall k | k in entries ensures (k, entries[k]) in Items() {
        var i :| 0 <= i < |order| && order[i] == k;
        assert Items()[i] == (k, entries[k]);
      }
    }
  }

  /** A repetition-free sequence that lists exactly the members of a set is as long as the set is large. */
  lemma {:induction false} DistinctKeysCount<K(!new)>(s: seq<K>, ks: set<K>)
    requires Distinct(s)
    requires forall k :: k in s <==> k in ks
    ensures |s| == |ks|
  {
    if s != [] {
      var last := s[|s| - 1];
      var prefix := s[..|s| - 1];
      assert s == prefix + [last];
      assert forall k :: k in prefix <==> k in ks - {last};
      DistinctKeysCount(prefix, ks - {last});
    }
  }
}
