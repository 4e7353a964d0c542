// The key-value map of core/CacheMap.h. A value is its JSON text.
module CacheMap {
  class Cache {
    var m: map<string, string>

    constructor ()
      ensures m == map[]
    {
      m := map[];
    }

    method Set(key: string, value: string)
      modifies this
      ensures m == old(m)[key := value]
    {
      m := m[key := value];
    }

    method Clear() returns (count: nat)
      modifies this
      ensures m == map[] && count == |old(m)|
    {
      count := |m|;
      m := map[];
    }
  }
}
