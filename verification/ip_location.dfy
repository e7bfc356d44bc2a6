/**
  `IpLocation::getipLocation`: reserved addresses first, then the cache under
  `ipLocation_<ip>`, then a memory-mode search whose region text is turned
  into a location and cached for an hour; `[]` when the search fails.
 */
module IpLocation {
  import opened Bytes
  import opened Records
  import opened Index
  import opened Database
  import opened Region
  import opened Cache

  function CacheKey(ip: string): (key: string)
    ensures |key| == |ip| + 11 && key[..11] == "ipLocation_" && key[11..] == ip
  {
    "ipLocation_" + ip
  }

  /** The reply for a search result: `[]` when nothing matched, otherwise
      the location of the record's region text. */
  function ReplyOf(r: Lookup): (reply: Reply)
    ensures reply == NoLocation <==> r == NotFound
    ensures reply.Located? ==> reply.loc == LocationOf(r.record.region)
  {
    match r
    case NotFound => NoLocation
    case Found(rec) => Located(LocationOf(rec.region))
  }

  /**
    `getipLocation(ip)`, where `key` is the u32 `memorySearch` derives from `ip`
    with `ip2long` and `cached` is what the cache holds under
    `CacheKey(ip)` (`None` for a miss). The search is `memorySearch` as
    written, probe one past the last entry included.
   */
  method GetIpLocation(db: seq<byte>, ip: string, key: u32, cached: Option<Location>)
    returns (reply: Reply, write: Option<CacheWrite>)
    requires ReservedLocation(ip).Some? || cached.Some? || MemoryReadable(db, key)
    ensures reply != Fault
    ensures ReservedLocation(ip).Some? ==> reply == Located(ReservedLocation(ip).value) && write == None
    ensures ReservedLocation(ip).None? && cached.Some? ==> reply == Located(cached.value) && write == None
    ensures write.Some? <==> ReservedLocation(ip).None? && cached.None? && reply.Located?
    ensures write.Some? ==> write.value == CacheWrite(CacheKey(ip), reply.loc, LocationTtl)
    ensures ReservedLocation(ip).None? && cached.None? && IndexWellFormed(db) && !Overshoots(db, key) ==>
      reply == ReplyOf(Reference(db, key))
    ensures ReservedLocation(ip).None? && cached.None? ==>
      forall k :: 0 <= k < Blocks(db) && Sorted(db, First(db), Blocks(db)) && Covers(Probe(db, First(db), k), key) ==>
        reply == ReplyOf(MemoryResult(db, Probe(db, First(db), k).dataPtr))
    ensures ReservedLocation(ip).None? && cached.None? && Overshoots(db, key) && Sorted(db, First(db), Blocks(db)) ==>
      reply == ReplyOf(MemoryResult(db, Probe(db, First(db), Blocks(db)).dataPtr))
    ensures ReservedLocation(ip).None? && cached.None? && reply != NoLocation ==>
      || (exists k :: 0 <= k < Blocks(db) && Covers(Probe(db, First(db), k), key)
            && Probe(db, First(db), k).dataPtr != 0
            && reply == ReplyOf(MemoryResult(db, Probe(db, First(db), k).dataPtr)))
      || (Overshoots(db, key) && reply == ReplyOf(MemoryResult(db, Probe(db, First(db), Blocks(db)).dataPtr)))
  {
    write := None;
    if ip == "::1" {
      return Located(Location([], [], ReservedLabel)), None;
    }
    if ip == "127.0.0.1" {
      return Located(Location([], [], LocalLabel)), None;
    }
    if cached.Some? {
      return Located(cached.value), None;
    }
    var data := MemorySearch(db, key);
    if data == NotFound {
      return NoLocation, None;
    }
    var location := LocationOf(data.record.region);
    write := Some(CacheWrite(CacheKey(ip), location, LocationTtl));
    reply := Located(location);
  }

  /** The phantom-entry hit reaches the reply: on `OvershootImage`, whose one
      entry does not hold key 15, `getipLocation("0.0.0.15")` answers with
      the location of the empty region text and caches it for an hour. */
  method OvershootReply() returns (reply: Reply, write: Option<CacheWrite>)
    ensures IndexWellFormed(OvershootImage()) && Reference(OvershootImage(), 15) == NotFound
    ensures reply == Located(LocationOf([]))
    ensures write == Some(CacheWrite(CacheKey("0.0.0.15"), LocationOf([]), LocationTtl))
  {
    var db := OvershootImage();
    OvershootLayout();
    OvershootWellFormed();
    OvershootRecord();
    assert Covers(Probe(db, First(db), Blocks(db)), 15);
    reply, write := GetIpLocation(db, "0.0.0.15", 15, None);
  }
}
