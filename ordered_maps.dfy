/**
 * Python's built-in `dict` as the modelled code uses it: a finite map whose
 * iteration order is the order in which keys were first inserted.  Assigning
 * to a key that is already present replaces its value and keeps its position.
 */
module OrderedMaps {

  /** `keys` lists every key once, in insertion order; `entries` holds the values. */
  datatype OrderedMap<K, V> = OrderedMap(keys: seq<K>, entries: map<K, V>)

  /** The keys are pairwise distinct. */
  predicate Distinct<T(==)>(s: seq<T>) {
    forall i, j :: 0 <= i < j < |s| ==> s[i] != s[j]
  }

  /** The two views of the dictionary agree: each key is listed exactly once. */
  ghost predicate Valid<K(!new), V>(m: OrderedMap<K, V>) {
    && Distinct(m.keys)
    && (forall k :: k in m.entries <==> k in m.keys)
  }

  /** `{}` */
  function Empty<K(==, !new), V>(): (m: OrderedMap<K, V>)
    ensures Valid(m) && m.keys == [] && m.entries == map[]
  {
    OrderedMap([], map[])
  }

  /** `m[k] = v`: a new key goes to the end of the iteration order, an old key keeps its place. */
  function Put<K(==), V>(m: OrderedMap<K, V>, k: K, v: V): (r: OrderedMap<K, V>)
    ensures k in r.entries && r.entries[k] == v
    ensures forall j :: j in m.entries && j != k ==> j in r.entries && r.entries[j] == m.entries[j]
    ensures forall j :: j in r.entries ==> j == k || j in m.entries
    ensures k in m.entries ==> r.keys == m.keys
    ensures k !in m.entries ==> r.keys == m.keys + [k]
  {
    if k in m.entries then OrderedMap(m.keys, m.entries[k := v])
    else OrderedMap(m.keys + [k], m.entries[k := v])
  }

  /** Assignment keeps each key listed exactly once. */
  lemma PutValid<K(!new), V>(m: OrderedMap<K, V>, k: K, v: V)
    requires Valid(m)
    ensures Valid(Put(m, k, v))
  {
  }

  /** Dropping the last element of a distinct sequence leaves a distinct sequence without it. */
  lemma DistinctInit<T>(s: seq<T>)
    requires s != [] && Distinct(s)
    ensures Distinct(s[..|s| - 1])
    ensures s[|s| - 1] !in s[..|s| - 1]
  {
  }
}
