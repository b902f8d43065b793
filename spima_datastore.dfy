/**
 * The legacy keyed in-memory store: the same dict wrapper as the current
 * store, but with no `exist` operation.
 */
module SpimaDataStore {
  import opened Values
  import DataStore

  class InMemoryDataStore {
    /** The wrapped dict. */
    var data: map<Key, Value>

    constructor ()
      ensures data == map[]
    {
      data := map[];
    }

    /** `get`: never fails; an absent key reads as `None`. */
    function Get(key: Key): (r: Value)
      reads this
      ensures r == DataStore.Lookup(data, key)
    {
      if key in data then data[key] else NoneValue
    }

    /** `set`: inserts or overwrites one key. */
    method Set(key: Key, value: Value)
      modifies this
      ensures data == old(data)[key := value]
      ensures Get(key) == value
      ensures forall k :: k != key ==> Get(k) == old(Get(k))
    {
      data := data[key := value];
    }

    /** `delete`: `del data[key]`, a `KeyError` when the key is absent. */
    method Delete(key: Key) returns (outcome: Outcome)
      modifies this
      ensures key in old(data) ==> outcome == Pass && data == old(data) - {key}
      ensures key !in old(data) ==> outcome == Fail(MissingKey(key)) && data == old(data)
      ensures key !in data
      ensures forall k :: k != key ==> Get(k) == old(Get(k))
    {
      if key in data {
        data := data - {key};
        outcome := Pass;
      } else {
        outcome := Fail(MissingKey(key));
      }
    }

    /** `clear`: afterwards the dict is empty. */
    method Clear()
      modifies this
      ensures data == map[]
      ensures forall k :: Get(k) == NoneValue
    {
      data := map[];
    }
  }
}
