/**
 * Insertion-ordered maps with string keys: the model of a plain JavaScript
 * object used as a dictionary, whose `Object.keys` order is the order in
 * which keys were first assigned.
 */
module OrderedMaps {

  /** `keys` is the `Object.keys` order, `entries` the key/value association. */
  datatype OrderedMap<V> = OrderedMap(keys: seq<string>, entries: map<string, V>)
  {
    /** Every key is listed once, and exactly the keys that have an entry are listed. */
    predicate Valid()
    {
      && Distinct(keys)
      && (forall k :: k in entries ==> k in keys)
      && (forall k :: k in keys ==> k in entries)
    }

    /** `obj[k] = v`: an existing key keeps its place, a new key goes last. */
    function Set(k: string, v: V): (r: OrderedMap<V>)
      ensures r.entries == entries[k := v]
      ensures k in entries ==> r.keys == keys
      ensures k !in entries ==> r.keys == keys + [k]
    {
      if k in entries then OrderedMap(keys, entries[k := v])
      else OrderedMap(keys + [k], entries[k := v])
    }

    /** Assigning a key keeps every key listed once. */
    lemma SetValid(k: string, v: V)
      requires Valid()
      ensures Set(k, v).Valid()
    {
    }
  }

  /** No key occurs twice. */
  predicate Distinct(s: seq<string>)
  {
    forall i, j :: 0 <= i < j < |s| ==> s[i] != s[j]
  }

  /** `{}` */
  function Empty<V>(): (r: OrderedMap<V>)
    ensures r.Valid() && r.keys == []
  {
    OrderedMap([], map[])
  }
}
