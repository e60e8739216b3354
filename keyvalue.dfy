/** The key-value store rqs keeps its entries in (rqs.py:14-16): `get`, `put`,
    `delete` and `keys`, over an in-memory map in place of the directory of
    files. Values are stored as they are; the pickle encoding is not modelled. */
module KeyValue {
  import opened Basics

  class Store<V> {
    var entries: map<string, V>

    constructor ()
      ensures entries == map[]
    {
      entries := map[];
    }

    /** `store.keys()`: every key once, in an order the store chooses. */
    method Keys() returns (ks: seq<string>)
      ensures Enumerates(ks, entries)
    {
      var rest := entries.Keys;
      ks := [];
      while rest != {}
        invariant rest <= entries.Keys
        invariant forall k :: k in ks ==> k in entries && k !in rest
        invariant forall k :: k in entries ==> k in ks || k in rest
        invariant Distinct(ks)
        decreases rest
      {
        var k :| k in rest;
        ks := ks + [k];
        rest := rest - {k};
      }
    }

    /** `store.get(key)`; a missing key raises KeyError, here `None`. */
    method Get(key: string) returns (r: Option<V>)
      ensures key in entries <==> r.Some?
      ensures r.Some? ==> r.value == entries[key]
    {
      if key in entries {
        r := Some(entries[key]);
      } else {
        r := None;
      }
    }

    /** `store.put(key, value)`: adds or replaces the value under `key`. */
    method Put(key: string, value: V)
      modifies this
      ensures entries == old(entries)[key := value]
    {
      entries := entries[key := value];
    }

    /** `store.delete(key)`: removes `key`, if present. */
    method Delete(key: string)
      modifies this
      ensures entries == old(entries) - {key}
    {
      entries := entries - {key};
    }
  }
}
