/** A Python `dict` keyed by strings: the map itself plus the order in which its
    keys were first inserted, which is the order `keys()` iterates over them. */
module Dicts {

  datatype Dict<V> = Dict(order: seq<string>, entries: map<string, V>)
  {
    /** Every key is listed once, and exactly the keys are listed. */
    ghost predicate Valid()
    {
      && (forall i, j :: 0 <= i < j < |order| ==> order[i] != order[j])
      && (forall k :: k in entries <==> k in order)
    }

    /** `d[k] = v`: a new key goes to the end of the order, an existing key keeps
        its place and gets the new value. */
    function Put(k: string, v: V): (r: Dict<V>)
      ensures Valid() ==> r.Valid()
      ensures r.entries == entries[k := v]
      ensures r.order == if k in entries then order else order + [k]
    {
      if k in entries then Dict(order, entries[k := v]) else Dict(order + [k], entries[k := v])
    }
  }

  /** `{}` */
  function Empty<V>(): (r: Dict<V>)
    ensures r.Valid() && r.entries == map[] && r.order == []
  {
    Dict([], map[])
  }
}
