/**
 * A Python dict with string keys. Python dicts remember the order in which
 * keys were first inserted; `keys` records that order.
 */
module Dicts {

  datatype Dict<V> = Dict(keys: seq<string>, vals: map<string, V>) {

    /** The keys are listed once each, and exactly the keys of `vals` are listed. */
    ghost predicate Valid() {
      && (forall i, j :: 0 <= i < j < |keys| ==> keys[i] != keys[j])
      && (forall k :: k in vals <==> k in keys)
    }

    /**
     * `d[k] = v`: the value is replaced; a new key is placed after all
     * existing ones, an existing key keeps its position.
     */
    function Put(k: string, v: V): (d: Dict<V>)
      ensures Valid() ==> d.Valid()
      ensures d.vals == vals[k := v]
      ensures keys <= d.keys
      ensures |d.keys| == if k in vals then |keys| else |keys| + 1
    {
      if k in vals then Dict(keys, vals[k := v]) else Dict(keys + [k], vals[k := v])
    }
  }

  /** `{ }` */
  function Empty<V>(): (d: Dict<V>)
    ensures d.Valid() && d.keys == []
  {
    Dict([], map[])
  }
}
