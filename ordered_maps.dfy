/** An insertion-ordered dictionary, as Python's `dict` is: `keys` lists every
    key once, in the order it was first stored, and `entries` gives the values.
    Iterating a dict visits `keys` in order. */
module OrderedMaps {

  datatype OrdMap<K(==, !new), V> = OrdMap(keys: seq<K>, entries: map<K, V>) {

    /** Each key is listed once, and the listed keys are exactly the stored ones. */
    ghost predicate Valid() {
      && Distinct(keys)
      && (forall k :: k in entries <==> k in keys)
    }
  }

  /** No element of `s` occurs twice. */
  ghost predicate Distinct<T>(s: seq<T>) {
    forall i, j :: 0 <= i < j < |s| ==> s[i] != s[j]
  }

  /** The empty dictionary `{}`. */
  function Empty<K(==, !new), V>(): (m: OrdMap<K, V>)
    ensures m.Valid()
    ensures |m.keys| == 0 && forall k :: k !in m.entries
  {
    OrdMap([], map[])
  }

  /** `if k not in d: d[k] = v`. A new key goes to the end of the order; a key
      already present keeps its value and its place. */
  function SetDefault<K(==, !new), V>(m: OrdMap<K, V>, k: K, v: V): (r: OrdMap<K, V>)
    requires m.Valid()
    ensures r.Valid()
    ensures k in r.entries
    ensures k in m.entries ==> r == m
    ensures k !in m.entries ==> r.keys == m.keys + [k] && r.entries[k] == v
    ensures forall k' :: k' in m.entries ==> k' in r.entries && r.entries[k'] == m.entries[k']
    ensures forall k' :: k' in r.entries ==> k' in m.entries || k' == k
  {
    if k in m.entries then m else OrdMap(m.keys + [k], m.entries[k := v])
  }

  /** `d[k] = v` for a key `k` already present: the value changes, the order
      of the keys does not. */
  function Replace<K(==, !new), V>(m: OrdMap<K, V>, k: K, v: V): (r: OrdMap<K, V>)
    requires m.Valid() && k in m.entries
    ensures r.Valid()
    ensures r.keys == m.keys
    ensures k in r.entries && r.entries[k] == v
    ensures forall k' :: k' in m.entries && k' != k ==> k' in r.entries && r.entries[k'] == m.entries[k']
    ensures forall k' :: k' in r.entries ==> k' in m.entries
  {
    OrdMap(m.keys, m.entries[k := v])
  }
}
