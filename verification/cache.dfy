/**
  The cache the lookups consult and fill. The store itself is outside the
  model: a lookup receives what the store holds under its key and returns
  the write it asks for, if any.
 */
module Cache {
  import opened Region

  /** `Cache::set(key, value, ttl)`. */
  datatype CacheWrite = CacheWrite(key: string, value: Location, ttl: int)

  /** Seconds a location stays cached. */
  const LocationTtl: int := 3600
}
