/**
  `IpCity::getIpCity`: reserved addresses first, then the cache under
  `ipCity_<ip>`, then a memory-mode search whose region text is turned into
  a location. The method returns before its `Cache::set`, so it never fills
  the cache; and it does not test the search result, so a failed search
  reaches `explode` with `null`, which strict typing rejects.
 */
module IpCity {
  import opened Bytes
  import opened Records
  import opened Index
  import opened Database
  import opened Region
  import opened Cache

  function CacheKey(ip: string): (key: string)
    ensures |key| == |ip| + 7 && key[..7] == "ipCity_" && key[7..] == ip
  {
    "ipCity_" + ip
  }

  /** The reply for a search result: a `TypeError` when nothing matched,
      otherwise the location of the record's region text. */
  function ReplyOf(r: Lookup): (reply: Reply)
    ensures reply == Fault <==> r == NotFound
    ensures reply.Located? ==> reply.loc == LocationOf(r.record.region)
  {
    match r
    case NotFound => Fault
    case Found(rec) => Located(LocationOf(rec.region))
  }

  /**
    `getIpCity(ip)`, with `key` and `cached` as for `getipLocation`. Its
    cache write is unreachable: it comes after the method has returned.
   */
  method GetIpCity(db: seq<byte>, ip: string, key: u32, cached: Option<Location>)
    returns (reply: Reply, write: Option<CacheWrite>)
    requires ReservedLocation(ip).Some? || cached.Some? || MemoryReadable(db, key)
    ensures reply != NoLocation
    ensures write == None
    ensures ReservedLocation(ip).Some? ==> reply == Located(ReservedLocation(ip).value)
    ensures ReservedLocation(ip).None? && cached.Some? ==> reply == Located(cached.value)
    ensures ReservedLocation(ip).None? && cached.None? && IndexWellFormed(db) && !Overshoots(db, key) ==>
      reply == ReplyOf(Reference(db, key))
    ensures ReservedLocation(ip).None? && cached.None? ==>
      forall k :: 0 <= k < Blocks(db) && Sorted(db, First(db), Blocks(db)) && Covers(Probe(db, First(db), k), key) ==>
        reply == ReplyOf(MemoryResult(db, Probe(db, First(db), k).dataPtr))
    ensures ReservedLocation(ip).None? && cached.None? && Overshoots(db, key) && Sorted(db, First(db), Blocks(db)) ==>
      reply == ReplyOf(MemoryResult(db, Probe(db, First(db), Blocks(db)).dataPtr))
    ensures ReservedLocation(ip).None? && cached.None? && reply != Fault ==>
      || (exists k :: 0 <= k < Blocks(db) && Covers(Probe(db, First(db), k), key)
            && Probe(db, First(db), k).dataPtr != 0
            && reply == ReplyOf(MemoryResult(db, Probe(db, First(db), k).dataPtr)))
      || (Overshoots(db, key) && reply == ReplyOf(MemoryResult(db, Probe(db, First(db), Blocks(db)).dataPtr)))
  {
    write := None;
    if ip == "::1" {
      return Located(Location([], [], ReservedLabel)), None;
    }
    if ip == "127.0.0.1" {
      return Located(Location([], [], LocalLabel)), None;
    }
    if cached.Some? {
      return Located(cached.value), None;
    }
    var data := MemorySearch(db, key);
    if data == NotFound {
      return Fault, None;
    }
    var location := LocationOf(data.record.region);
    reply := Located(location);
    // `getIpCity` returns here, before its `Cache::set('ipCity_' . $ip, ..)`
  }
}
