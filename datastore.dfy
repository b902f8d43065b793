/**
 * The keyed in-memory store a pipeline reads payloads from and writes node
 * outputs to: a Python dict wrapped in `get`/`exist`/`set`/`delete`/`clear`.
 */
module DataStore {
  import opened Values

  /** `dict.get(key)`: the stored value, or `None` when the key is absent. */
  function Lookup(data: map<Key, Value>, key: Key): (r: Value)
    ensures key !in data ==> r == NoneValue
    ensures key in data ==> r == data[key]
  {
    if key in data then data[key] else NoneValue
  }

  class InMemoryDataStore {
    /** The wrapped dict. */
    var data: map<Key, Value>

    constructor ()
      ensures data == map[]
    {
      data := map[];
    }

    /** `get`: never fails; an absent key reads as `None`. */
    function Get(key: Key): (r: Value)
      reads this
      ensures r == Lookup(data, key)
    {
      if key in data then data[key] else NoneValue
    }

    /** `exist`: membership of the key in the dict. */
    function Exist(key: Key): (r: bool)
      reads this
      ensures r <==> key in data
    {
      key in data
    }

    /** `set`: inserts or overwrites one key. */
    method Set(key: Key, value: Value)
      modifies this
      ensures data == old(data)[key := value]
      ensures Get(key) == value && Exist(key)
      ensures forall k :: k != key ==> Get(k) == old(Get(k)) && (Exist(k) <==> old(Exist(k)))
    {
      data := data[key := value];
    }

    /** `delete`: `del data[key]`, a `KeyError` when the key is absent. */
    method Delete(key: Key) returns (outcome: Outcome)
      modifies this
      ensures key in old(data) ==> outcome == Pass && data == old(data) - {key}
      ensures key !in old(data) ==> outcome == Fail(MissingKey(key)) && data == old(data)
      ensures !Exist(key)
      ensures forall k :: k != key ==> Get(k) == old(Get(k))
    {
      if key in data {
        data := data - {key};
        outcome := Pass;
      } else {
        outcome := Fail(MissingKey(key));
      }
    }

    /** `clear`: afterwards no key exists. */
    method Clear()
      modifies this
      ensures data == map[]
      ensures forall k :: !Exist(k) && Get(k) == NoneValue
    {
      data := map[];
    }
  }
}
