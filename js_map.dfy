/** JavaScript's `Map`: a finite map that remembers the order in which its
    keys were first inserted. Iteration (`entries()`, `keys()`) follows that
    order, `set` on a present key keeps its place, `delete` drops it. */
module JsMaps {
  import opened Wrappers

  /** No element occurs twice. */
  ghost predicate Distinct<K>(s: seq<K>) {
    forall i, j | 0 <= i < j < |s| :: s[i] != s[j]
  }

  datatype JsMap<K(==), V> = JsMap(keys: seq<K>, entries: map<K, V>) {

    /** The key order lists each key of `entries` exactly once. */
    ghost predicate Valid() {
      && Distinct(keys)
      && (forall k | k in entries :: k in keys)
      && (forall k | k in keys :: k in entries)
    }

    /** `map.get(k)`, with `undefined` as None. */
    function Get(k: K): (r: Option<V>)
      ensures r.Some? <==> k in entries
      ensures r.Some? ==> r.value == entries[k]
    {
      if k in entries then Some(entries[k]) else None
    }

    /** `map.size` */
    function Size(): (n: nat)
      requires Valid()
      ensures n == 0 <==> entries == map[]
    {
      if keys != [] then assert keys[0] in entries; |keys| else |keys|
    }

    /** `map.set(k, v)`: a new key is placed last, a present key keeps its place. */
    function Set(k: K, v: V): (r: JsMap<K, V>)
      requires Valid()
      ensures r.Valid()
      ensures r.entries == entries[k := v]
      ensures k in entries ==> r.keys == keys
      ensures k !in entries ==> r.keys == keys + [k]
    {
      JsMap(if k in entries then keys else keys + [k], entries[k := v])
    }

    /** `map.delete(k)`: a no-op when `k` is absent. */
    function Delete(k: K): (r: JsMap<K, V>)
      requires Valid()
      ensures r.Valid()
      ensures r.entries == entries - {k}
      ensures r.keys == Without(keys, k)
      ensures k !in entries ==> r == this
    {
      WithoutKeepsDistinct(keys, k);
      if k !in entries then WithoutAbsent(keys, k); this
      else JsMap(Without(keys, k), entries - {k})
    }
  }

  /** `new Map()` */
  function Empty<K(==), V>(): (r: JsMap<K, V>)
    ensures r.Valid() && r.keys == [] && r.entries == map[]
  {
    JsMap([], map[])
  }

  /** `keys` with `k` removed, the others in their order. */
  function Without<K(==)>(keys: seq<K>, k: K): (r: seq<K>)
    ensures forall x | x in r :: x in keys && x != k
    ensures forall x | x in keys && x != k :: x in r
  {
    if keys == [] then []
    else (if keys[0] == k then [] else [keys[0]]) + Without(keys[1..], k)
  }

  lemma {:induction false} WithoutAbsent<K>(keys: seq<K>, k: K)
    requires k !in keys
    ensures Without(keys, k) == keys
  {
    if keys != [] {
      WithoutAbsent(keys[1..], k);
    }
  }

  lemma {:induction false} WithoutLast<K>(keys: seq<K>, k: K)
    requires k !in keys
    ensures Without(keys + [k], k) == keys
  {
    if keys == [] {
      assert Without([k], k) == [] + Without([], k);
    } else {
      assert (keys + [k])[1..] == keys[1..] + [k];
      WithoutLast(keys[1..], k);
    }
  }

  /** Setting a new key and deleting it again gives back the map, key
      order included. */
  lemma DeleteUndoesSet<K, V>(m: JsMap<K, V>, k: K, v: V)
    requires m.Valid() && k !in m.entries
    ensures m.Set(k, v).Delete(k) == m
  {
    WithoutLast(m.keys, k);
    assert m.entries[k := v] - {k} == m.entries;
  }

  lemma {:induction false} WithoutKeepsDistinct<K>(keys: seq<K>, k: K)
    requires Distinct(keys)
    ensures Distinct(Without(keys, k))
  {
    if keys != [] {
      WithoutKeepsDistinct(keys[1..], k);
      var rest := Without(keys[1..], k);
      assert keys[0] !in keys[1..];
      assert keys[0] !in rest;
    }
  }
}
