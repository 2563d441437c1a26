/** Python's `dict` with string keys, as the backend loads it from a JSON
    object: its entries, and the order in which keys were first inserted,
    which is the order `items()` and `values()` visit them in. */
module Dicts {
  import opened Seqs

  datatype Dict<V> = Dict(keys: seq<string>, entries: map<string, V>) {

    /** Each key is listed once, and exactly the keys with an entry are listed. */
    ghost predicate Valid() {
      Distinct(keys) && forall k :: k in entries <==> k in keys
    }

    /** `not d` */
    predicate IsEmpty() {
      keys == []
    }

    /** `d[k] = v`: a new key goes to the end of the order, an existing key
        keeps its place and gets the new value. */
    function Put(k: string, v: V): (d: Dict<V>)
      requires Valid()
      ensures d.Valid()
    {
      Dict(if k in entries then keys else keys + [k], entries[k := v])
    }

    /** `del d[k]` (or nothing, when `k` is absent): the other keys keep their
        order. */
    function Remove(k: string): (d: Dict<V>)
      requires Valid()
      ensures d.Valid()
    {
      FilterKeepsDistinct(keys, x => x != k);
      FilterMembers(keys, x => x != k);
      Dict(Filter(keys, x => x != k), entries - {k})
    }

    /** `list(d.values())` */
    function Values(): (vs: seq<V>)
      requires Valid()
      ensures |vs| == |keys|
    {
      seq(|keys|, i requires 0 <= i < |keys| => entries[keys[i]])
    }
  }

  function Empty<V>(): (d: Dict<V>)
    ensures d.Valid() && d.IsEmpty()
  {
    Dict([], map[])
  }

  /** Deleting an absent key changes nothing. */
  lemma RemoveAbsent<V>(d: Dict<V>, k: string)
    requires d.Valid() && k !in d.entries
    ensures d.Remove(k) == d
  {
    FilterDropsNothing(d.keys, x => x != k);
  }

  /** Inserting a new key and deleting it again gives back the dict one
      started with, order included. */
  lemma PutThenRemove<V>(d: Dict<V>, k: string, v: V)
    requires d.Valid() && k !in d.entries
    ensures d.Put(k, v).Remove(k) == d
  {
    var p := x => x != k;
    FilterAppend(d.keys, [k], p);
    FilterDropsNothing(d.keys, p);
    assert Filter([k], p) == [];
    assert d.entries[k := v] - {k} == d.entries;
  }
}
