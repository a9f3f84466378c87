/**
 * A JavaScript `Map`: a finite map that remembers the order in which keys were
 * first set. Setting an existing key replaces its value and keeps its place;
 * iteration follows that order.
 */
module JsMap {

  datatype Map<K(==,!new), V> = Map(keys: seq<K>, entries: map<K, V>)

  /** The key order lists every key exactly once. */
  ghost predicate Valid<K(!new), V>(m: Map<K, V>) {
    && (forall i, j :: 0 <= i < j < |m.keys| ==> m.keys[i] != m.keys[j])
    && (forall k :: k in m.entries <==> k in m.keys)
  }

  /** `new Map()`. */
  function Empty<K(==,!new), V>(): (m: Map<K, V>)
    ensures Valid(m) && m.keys == []
  {
    Map([], map[])
  }

  /** `m.set(key, value)`. */
  function Set<K(==,!new), V>(m: Map<K, V>, key: K, value: V): (r: Map<K, V>)
    requires Valid(m)
    ensures Valid(r)
    ensures r.entries == m.entries[key := value]
    ensures key in m.entries ==> r.keys == m.keys
    ensures key !in m.entries ==> r.keys == m.keys + [key]
  {
    Map(if key in m.entries then m.keys else m.keys + [key], m.entries[key := value])
  }

  /** `Array.from(m.values())`: the values in key order. */
  function Values<K(==,!new), V>(m: Map<K, V>): (vs: seq<V>)
    requires Valid(m)
    ensures |vs| == |m.keys|
    ensures forall i :: 0 <= i < |vs| ==> vs[i] == m.entries[m.keys[i]]
  {
    seq(|m.keys|, i requires 0 <= i < |m.keys| => m.entries[m.keys[i]])
  }

  /** Setting a new key appends its value to the iteration. */
  lemma ValuesSetNew<K(!new), V>(m: Map<K, V>, key: K, value: V)
    requires Valid(m) && key !in m.entries
    ensures Values(Set(m, key, value)) == Values(m) + [value]
  {
    var r := Set(m, key, value);
    assert forall i :: 0 <= i < |m.keys| ==> r.keys[i] == m.keys[i] && m.keys[i] != key;
  }
}
