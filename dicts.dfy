/**
 * Python dictionaries keep their keys in insertion order, and several loops
 * of the annotation code depend on that order (which records are stored
 * first, which CDS is processed last). `Dict` pairs the key order with the
 * map itself.
 */
module Dicts {
  /** The keys of `d` in insertion order, and what each key maps to. */
  datatype Dict<K, V> = Dict(keys: seq<K>, items: map<K, V>)

  /** Every key is listed exactly once, and only keys of the map are listed. */
  ghost predicate Valid<K(!new), V>(d: Dict<K, V>) {
    (forall i, j :: 0 <= i < j < |d.keys| ==> d.keys[i] != d.keys[j])
    && (forall k :: k in d.items <==> k in d.keys)
  }

  function Empty<K(!new), V>(): (d: Dict<K, V>)
    ensures Valid(d) && d.items == map[]
  {
    Dict([], map[])
  }

  /**
   * `d[k] = v`: a new key goes to the end of the order, an existing key keeps
   * its place and gets the new value.
   */
  function Put<K(!new), V>(d: Dict<K, V>, k: K, v: V): (r: Dict<K, V>)
    requires Valid(d)
    ensures Valid(r)
    ensures r.items == d.items[k := v]
    ensures k in d.items ==> r.keys == d.keys
    ensures k !in d.items ==> r.keys == d.keys + [k]
  {
    if k in d.items then Dict(d.keys, d.items[k := v])
    else Dict(d.keys + [k], d.items[k := v])
  }

  /** `d.values()`, in key order. */
  function Values<K(!new), V>(d: Dict<K, V>): (vs: seq<V>)
    requires Valid(d)
    ensures |vs| == |d.keys|
    ensures forall i :: 0 <= i < |vs| ==> vs[i] == d.items[d.keys[i]]
  {
    seq(|d.keys|, i requires 0 <= i < |d.keys| => d.items[d.keys[i]])
  }
}
