/**
 * Python's `dict` as the downloader uses it: keys remember the order in
 * which they were first inserted, and assigning to an existing key changes
 * its value but not its place.
 */
module Dicts {

  datatype Dict<K(!new), V> = Dict(keys: seq<K>, values: map<K, V>)
  {
    /** Keys are listed once each, and exactly the keys with a value are listed. */
    ghost predicate Valid() {
      && (forall i, j :: 0 <= i < j < |keys| ==> keys[i] != keys[j])
      && (forall k :: k in values <==> k in keys)
    }

    /** Every listed key has a value: what iterating over `items()` needs. */
    ghost predicate Listed() {
      forall n :: 0 <= n < |keys| ==> keys[n] in values
    }

    /** `d[k] = v` */
    function Put(k: K, v: V): (d: Dict<K, V>)
      ensures d.values == values[k := v]
      ensures k in values ==> d.keys == keys
      ensures k !in values ==> d.keys == keys + [k]
      ensures Valid() ==> d.Valid()
    {
      if k in values then Dict(keys, values[k := v]) else Dict(keys + [k], values[k := v])
    }
  }

  /** `{}` */
  function Empty<K(!new), V>(): (d: Dict<K, V>)
    ensures d.Valid() && |d.keys| == 0
  {
    Dict([], map[])
  }
}
