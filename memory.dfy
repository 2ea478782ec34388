/**
 * The in-memory symbol store (`InMemoryIndexStore`): a map from symbol key to the
 * verbatim text of one declaration, updated in place.
 */
module Memory {
  import opened Text

  /** `IndexData`: the stored text of one declaration. */
  datatype IndexData = IndexData(value: bytes)

  class InMemoryIndexStore {
    /** The `inner` hash map. */
    var inner: map<bytes, IndexData>

    /** `new`: an empty store. */
    constructor ()
      ensures inner == map[]
    {
      inner := map[];
    }

    /**
     * `set`: an unconditional upsert. The key maps to the new value (an old value is
     * replaced, never kept beside it); every other key keeps its value and no other
     * key is added.
     */
    method Set(key: bytes, value: IndexData)
      modifies this
      ensures inner == old(inner)[key := value]
      ensures inner.Keys == old(inner).Keys + {key}
      ensures inner[key] == value
      ensures forall k | k in old(inner) && k != key :: inner[k] == old(inner)[k]
    {
      inner := inner[key := value];
    }

    /**
     * `get`: the stored text of `key`. The source unwraps the lookup and panics on a
     * missing key, so the key must be present. The store is not changed.
     */
    method Get(key: bytes) returns (text: bytes)
      requires key in inner
      ensures text == inner[key].value
    {
      text := inner[key].value;
    }

    /**
     * `get_all`: a snapshot of every key with its text. The trait declares it and this
     * store does not implement it; the only reading the declaration allows is the whole map.
     */
    function GetAll(): (all: map<bytes, bytes>)
      reads this
      ensures all.Keys == inner.Keys
      ensures forall k | k in all :: all[k] == inner[k].value
    {
      map k | k in inner :: inner[k].value
    }
  }
}
