/**
  The database image, its 8-byte file header, the reference meaning of a
  lookup, and memory-mode search (`memorySearch`) over the whole super-index.
 */
module Database {
  import opened Bytes
  import opened Records
  import opened Index

  const HeaderSize: int := 8

  datatype DbHeader = DbHeader(firstIndexPtr: u32, lastIndexPtr: u32, totalBlocks: int)

  /** The file header: offsets of the first and last super-index entries and the
      entry count `(lastIndexPtr - firstIndexPtr) / 12 + 1`. `memorySearch` divides
      with PHP's `/`, which may yield a float; the loops only use it through
      `l <= h` and `(l + h) >> 1` with integer `l`, where it behaves as the
      floor taken here. */
  function DecodeHeader(db: seq<byte>): (h: DbHeader)
    requires |db| >= HeaderSize
    ensures h.firstIndexPtr <= h.lastIndexPtr && (h.lastIndexPtr - h.firstIndexPtr) % EntrySize == 0 ==>
      h.totalBlocks >= 1 && h.firstIndexPtr + EntrySize * (h.totalBlocks - 1) == h.lastIndexPtr
    ensures h.lastIndexPtr < h.firstIndexPtr ==> h.totalBlocks <= 0
  {
    var first := GetLong(db, 0);
    var last := GetLong(db, 4);
    DbHeader(first, last, (last - first) / EntrySize + 1)
  }

  lemma HeaderRoundTrip(first: u32, last: u32, rest: seq<byte>)
    requires first <= last && (last - first) % EntrySize == 0
    ensures var h := DecodeHeader(PutLong(first) + PutLong(last) + rest);
            && h.firstIndexPtr == first && h.lastIndexPtr == last
            && first + EntrySize * (h.totalBlocks - 1) == last
  {
    GetPutLong(first, [], PutLong(last) + rest);
    assert PutLong(first) + PutLong(last) + rest == [] + PutLong(first) + (PutLong(last) + rest);
    GetPutLong(last, PutLong(first), rest);
  }

  function First(db: seq<byte>): u32
    requires |db| >= HeaderSize
  {
    DecodeHeader(db).firstIndexPtr
  }

  function Last(db: seq<byte>): u32
    requires |db| >= HeaderSize
  {
    DecodeHeader(db).lastIndexPtr
  }

  function Blocks(db: seq<byte>): int
    requires |db| >= HeaderSize
  {
    DecodeHeader(db).totalBlocks
  }

  /** The image as its writer lays it out: the header spans a whole number of
      entries, the entries are sorted, and every non-zero data pointer of an
      entry addresses a record of at least four bytes inside the image. */
  ghost predicate IndexWellFormed(db: seq<byte>)
  {
    && |db| >= HeaderSize
    && var h := DecodeHeader(db);
    && h.firstIndexPtr <= h.lastIndexPtr
    && (h.lastIndexPtr - h.firstIndexPtr) % EntrySize == 0
    && AdjacentSorted(db, h.firstIndexPtr, h.totalBlocks)
    && forall k :: 0 <= k < h.totalBlocks ==> RecordInImage(db, Probe(db, h.firstIndexPtr, k).dataPtr)
  }

  /** The writer's neighbour-by-neighbour order makes all entries ascend
      pairwise, the order the searches rely on. */
  lemma WellFormedSorted(db: seq<byte>)
    requires IndexWellFormed(db)
    ensures Sorted(db, First(db), Blocks(db))
  {
    AdjacentSortedIsSorted(db, First(db), Blocks(db));
  }

  /** What a lookup of `ip` means: the record of the entry whose range holds
      it, found by a plain scan; `NotFound` when no entry does or when that
      entry's data pointer is 0. */
  ghost function Reference(db: seq<byte>, ip: u32): (r: Lookup)
    requires IndexWellFormed(db)
  {
    match Covering(db, First(db), Blocks(db), 0, ip)
    case Absent => NotFound
    case At(k) =>
      var w := Probe(db, First(db), k).dataPtr;
      if w == 0 then NotFound else Found(StoredRecord(db, w))
  }

  /** What `memorySearch` returns for a matching entry's data pointer `w`. */
  function MemoryResult(db: seq<byte>, w: u32): (r: Lookup)
    requires CityIdReadable(db, w)
    ensures r.Found? <==> w != 0
    ensures r.Found? && RecordInImage(db, w) ==> r.record == StoredRecord(db, w)
  {
    if w == 0 then NotFound else Found(MemoryRecord(db, w))
  }

  /** Every read `memorySearch` may make for `ip` lies in the image: the
      header, the entries `0 .. totalBlocks - 1`, the twelve bytes after the
      last entry when the search reaches them (`h = totalBlocks`, taken only
      for a key above the last entry), and the city id of the record of each
      entry holding the key (the search reads that of the one it matches). */
  ghost predicate MemoryReadable(db: seq<byte>, ip: u32)
  {
    && |db| >= HeaderSize
    && SearchReadable(db, First(db), Blocks(db), ip)
    && (forall k :: 0 <= k < Blocks(db) && Covers(Probe(db, First(db), k), ip) ==>
          CityIdReadable(db, Probe(db, First(db), k).dataPtr))
    && (Blocks(db) >= 0 && ReachesTop(db, First(db), Blocks(db), ip) && Covers(Probe(db, First(db), Blocks(db)), ip) ==>
          CityIdReadable(db, Probe(db, First(db), Blocks(db)).dataPtr))
  }

  /** The search reaches the twelve bytes after the last entry (the key
      lies above that entry, or the header counts no entries) and those
      bytes, read as an entry, hold the key: the one case in which
      `memorySearch` as written answers from past `lastIndexPtr`. */
  ghost predicate Overshoots(db: seq<byte>, ip: u32)
  {
    && |db| >= HeaderSize
    && Blocks(db) >= 0
    && Probeable(db, First(db), Blocks(db))
    && ReachesTop(db, First(db), Blocks(db), ip)
    && Covers(Probe(db, First(db), Blocks(db)), ip)
  }

  /** On a well-formed image every read of `memorySearch` lies in the image
      for a key no greater than the last entry's end ip: the search never
      passes the last entry then. */
  lemma WellFormedReadable(db: seq<byte>, ip: u32)
    requires IndexWellFormed(db) && ip <= Probe(db, First(db), Blocks(db) - 1).endIp
    ensures MemoryReadable(db, ip)
  {
  }

  /** `memorySearch` as written: one binary search with `h = totalBlocks`,
      then the record of the matching entry. */
  method MemorySearch(db: seq<byte>, ip: u32) returns (r: Lookup)
    requires MemoryReadable(db, ip)
    ensures r.Found? ==>
      || (exists k :: 0 <= k < Blocks(db) && Covers(Probe(db, First(db), k), ip)
            && Probe(db, First(db), k).dataPtr != 0
            && r == MemoryResult(db, Probe(db, First(db), k).dataPtr))
      || (Overshoots(db, ip) && r == MemoryResult(db, Probe(db, First(db), Blocks(db)).dataPtr))
    ensures forall k :: 0 <= k < Blocks(db) && Sorted(db, First(db), Blocks(db)) && Covers(Probe(db, First(db), k), ip) ==>
      r == MemoryResult(db, Probe(db, First(db), k).dataPtr)
    ensures Overshoots(db, ip) && Sorted(db, First(db), Blocks(db)) ==>
      r == MemoryResult(db, Probe(db, First(db), Blocks(db)).dataPtr)
    ensures IndexWellFormed(db) && !Overshoots(db, ip) ==> r == Reference(db, ip)
  {
    var h := DecodeHeader(db);
    var w := SearchIndex(db, h.firstIndexPtr, h.totalBlocks, ip);
    if w == 0 {
      r := NotFound;
    } else {
      MemoryHit(db, ip, w);
      r := Found(MemoryRecord(db, w));
    }
    if IndexWellFormed(db) && !Overshoots(db, ip) {
      WellFormedSorted(db);
      ReferenceAgrees(db, ip, w, h.totalBlocks);
    }
  }

  /** A pointer the search of `memorySearch` returns comes from a real entry
      holding the key, or from the twelve bytes after the last entry when
      the search overshoots; either way its city id lies in the image. */
  lemma MemoryHit(db: seq<byte>, ip: u32, w: u32)
    requires MemoryReadable(db, ip) && w != 0
    requires exists k ::
      InReach(db, First(db), Blocks(db), ip, k) && Covers(Probe(db, First(db), k), ip) && Probe(db, First(db), k).dataPtr == w
    ensures CityIdReadable(db, w)
    ensures || (exists k :: 0 <= k < Blocks(db) && Covers(Probe(db, First(db), k), ip) && Probe(db, First(db), k).dataPtr == w)
            || (Overshoots(db, ip) && Probe(db, First(db), Blocks(db)).dataPtr == w)
  {
    var k :| InReach(db, First(db), Blocks(db), ip, k)
      && Covers(Probe(db, First(db), k), ip) && Probe(db, First(db), k).dataPtr == w;
  }

  /** `memorySearch` with the evidently intended bound `h = totalBlocks - 1`:
      only the entries from `firstIndexPtr` to `lastIndexPtr` are probed. */
  method MemorySearchCorrected(db: seq<byte>, ip: u32) returns (r: Lookup)
    requires CorrectedReadable(db)
    ensures r.Found? ==>
      exists k :: 0 <= k < Blocks(db) && Covers(Probe(db, First(db), k), ip)
        && Probe(db, First(db), k).dataPtr != 0
        && r == MemoryResult(db, Probe(db, First(db), k).dataPtr)
    ensures forall k :: 0 <= k < Blocks(db) && Sorted(db, First(db), Blocks(db)) && Covers(Probe(db, First(db), k), ip) ==>
      r == MemoryResult(db, Probe(db, First(db), k).dataPtr)
    ensures IndexWellFormed(db) ==> r == Reference(db, ip)
  {
    var h := DecodeHeader(db);
    var w := SearchIndex(db, h.firstIndexPtr, h.totalBlocks - 1, ip);
    if w == 0 {
      r := NotFound;
    } else {
      r := Found(MemoryRecord(db, w));
    }
    if h.totalBlocks >= 1 && Sorted(db, h.firstIndexPtr, h.totalBlocks) {
      SearchComplete(db, h.firstIndexPtr, h.totalBlocks - 1, ip, w);
    }
    if IndexWellFormed(db) {
      WellFormedSorted(db);
      ReferenceAgrees(db, ip, w, h.totalBlocks - 1);
    }
  }

  /** Every read of the corrected search lies in the image. */
  ghost predicate CorrectedReadable(db: seq<byte>)
  {
    && |db| >= HeaderSize
    && Probeable(db, First(db), Blocks(db) - 1)
    && forall k :: 0 <= k < Blocks(db) ==> CityIdReadable(db, Probe(db, First(db), k).dataPtr)
  }

  /** A well-formed image satisfies every read the corrected search makes. */
  lemma WellFormedIsReadable(db: seq<byte>)
    requires IndexWellFormed(db)
    ensures CorrectedReadable(db)
  {
  }

  /** The step shared by both searches: a binary-search result `w` over the
      probes `0 .. top` that is sound, and complete for the real entries, is
      the reference lookup once decoded. */
  lemma ReferenceAgrees(db: seq<byte>, ip: u32, w: u32, top: int)
    requires IndexWellFormed(db)
    requires top == Blocks(db) || top == Blocks(db) - 1
    requires SearchReadable(db, First(db), top, ip)
    requires top == Blocks(db) ==> !Overshoots(db, ip)
    requires w != 0 ==>
      exists k :: InReach(db, First(db), top, ip, k) && Covers(Probe(db, First(db), k), ip) && Probe(db, First(db), k).dataPtr == w
    requires forall k :: 0 <= k < Blocks(db) && Covers(Probe(db, First(db), k), ip) ==>
      w == Probe(db, First(db), k).dataPtr
    ensures CityIdReadable(db, w) && MemoryResult(db, w) == Reference(db, ip)
  {
    var first, n := First(db), Blocks(db);
    match Covering(db, first, n, 0, ip)
    case Absent =>
    case At(k) =>
      assert w == Probe(db, first, k).dataPtr;
      assert RecordInImage(db, w);
      if w != 0 {
        RecordModesAgree(db, w);
      }
  }

  /** A 36-byte image: one real entry [0, 5] at offset 8
      (`firstIndexPtr == lastIndexPtr == 8`), followed by twelve bytes that
      read as an entry [10, 20] whose pointer addresses the 4-byte record
      at offset 32 (city id 7). */
  function OvershootImage(): (db: seq<byte>)
    ensures |db| == 36
  {
    [8, 0, 0, 0, 8, 0, 0, 0]
    + [0, 0, 0, 0, 5, 0, 0, 0, 32, 0, 0, 4]
    + [10, 0, 0, 0, 20, 0, 0, 0, 32, 0, 0, 4]
    + [7, 0, 0, 0]
  }

  /** The header and the two 12-byte entries of `OvershootImage`. */
  lemma OvershootLayout()
    ensures var db := OvershootImage();
      && DecodeHeader(db) == DbHeader(8, 8, 1)
      && Probe(db, 8, 0) == IndexEntry(0, 5, 0x400_0020)
      && Probe(db, 8, 1) == IndexEntry(10, 20, 0x400_0020)
      && DecodePointer(0x400_0020) == Pointer(4, 32)
  {
    var db := OvershootImage();
    assert GetLong(db, 0) == 8 && GetLong(db, 4) == 8;
  }

  /** `OvershootImage` is well formed, every read of either search lies in
      it, and key 15 lies in its one real entry's range no more than in the
      twelve bytes after it sorted behind that entry. */
  lemma OvershootWellFormed()
    ensures var db := OvershootImage();
      && IndexWellFormed(db) && MemoryReadable(db, 15) && CorrectedReadable(db)
      && Sorted(db, 8, 2)
      && Reference(db, 15) == NotFound
  {
    var db := OvershootImage();
    OvershootLayout();
    assert Sorted(db, 8, 2) by {
      forall i, j | 0 <= i < j < 2
        ensures Probe(db, 8, i).endIp < Probe(db, 8, j).startIp
      {
        assert i == 0 && j == 1;
      }
    }
    assert Covering(db, 8, 1, 0, 15) == Absent;
  }

  /** The record the phantom entry points to: city id 7, empty region. */
  lemma OvershootRecord()
    ensures CityIdReadable(OvershootImage(), 0x400_0020)
    ensures MemoryResult(OvershootImage(), 0x400_0020) == Found(Record(7, []))
  {
    OvershootLayout();
    assert GetLong(OvershootImage(), 32) == 7;
  }

  /** On that well-formed image, key 15 lies in no entry, yet `memorySearch`
      as written probes the bytes after `lastIndexPtr` and returns the record
      they point to; the corrected search reports `NotFound`. */
  method OvershootExample() returns (asWritten: Lookup, corrected: Lookup)
    ensures IndexWellFormed(OvershootImage()) && Reference(OvershootImage(), 15) == NotFound
    ensures asWritten == Found(Record(7, [])) && corrected == NotFound
  {
    var db := OvershootImage();
    OvershootLayout();
    OvershootWellFormed();
    OvershootRecord();
    asWritten := MemorySearch(db, 15);
    corrected := MemorySearchCorrected(db, 15);
  }

  /** A 24-byte image that ends at its one entry: the header, the 4-byte
      record at offset 8 (city id 9), and the entry [0, 0xFFFFFFFF] at
      offset 12 pointing to it. */
  function FullRangeImage(): (db: seq<byte>)
    ensures |db| == 24
  {
    [12, 0, 0, 0, 12, 0, 0, 0]
    + [9, 0, 0, 0]
    + [0, 0, 0, 0, 255, 255, 255, 255, 8, 0, 0, 4]
  }

  /** The header, the entry and the record of `FullRangeImage`. */
  lemma FullRangeLayout()
    ensures var db := FullRangeImage();
      && DecodeHeader(db) == DbHeader(12, 12, 1)
      && Probe(db, 12, 0) == IndexEntry(0, 0xFFFF_FFFF, 0x400_0008)
      && DecodePointer(0x400_0008) == Pointer(4, 8)
      && GetLong(db, 8) == 9
  {
    var db := FullRangeImage();
    assert GetLong(db, 0) == 12 && GetLong(db, 4) == 12;
  }

  /** No bytes follow the last entry of `FullRangeImage`, yet every key can
      be looked up in it: the search never passes an entry that holds every
      key, and returns that entry's record. */
  method FullRangeSearch(ip: u32) returns (r: Lookup)
    ensures IndexWellFormed(FullRangeImage()) && |FullRangeImage()| == Last(FullRangeImage()) + EntrySize
    ensures MemoryReadable(FullRangeImage(), ip)
    ensures r == Found(Record(9, [])) && r == Reference(FullRangeImage(), ip)
  {
    var db := FullRangeImage();
    FullRangeLayout();
    assert IndexWellFormed(db);
    WellFormedReadable(db, ip);
    WellFormedSorted(db);
    r := MemorySearch(db, ip);
    assert Covers(Probe(db, 12, 0), ip);
  }

  /** A 36-byte image with entries [0, 5] and [10, 20]: the first points to
      the 4-byte record at offset 32 (city id 9), the second to offset 1000,
      past the end of the file. */
  function StrayPointerImage(): (db: seq<byte>)
    ensures |db| == 36
  {
    [8, 0, 0, 0, 20, 0, 0, 0]
    + [0, 0, 0, 0, 5, 0, 0, 0, 32, 0, 0, 4]
    + [10, 0, 0, 0, 20, 0, 0, 0, 0xE8, 3, 0, 4]
    + [9, 0, 0, 0]
  }

  /** The header, the two entries and the record of `StrayPointerImage`. */
  lemma StrayPointerLayout()
    ensures var db := StrayPointerImage();
      && DecodeHeader(db) == DbHeader(8, 20, 2)
      && Probe(db, 8, 0) == IndexEntry(0, 5, 0x400_0020)
      && Probe(db, 8, 1) == IndexEntry(10, 20, 0x400_03E8)
      && DecodePointer(0x400_0020) == Pointer(4, 32)
      && GetLong(db, 32) == 9
  {
    var db := StrayPointerImage();
    assert GetLong(db, 0) == 8 && GetLong(db, 4) == 20;
  }

  /** Key 3 lies in the first entry only, so `memorySearch` never reads the
      record of the second, which lies outside the file: the lookup needs
      only bytes of the image and returns city 9. */
  method StrayPointerSearch() returns (r: Lookup)
    ensures MemoryReadable(StrayPointerImage(), 3)
    ensures !CityIdReadable(StrayPointerImage(), Probe(StrayPointerImage(), 8, 1).dataPtr)
    ensures r == Found(Record(9, []))
  {
    var db := StrayPointerImage();
    StrayPointerLayout();
    assert Sorted(db, 8, 2) by {
      forall i, j | 0 <= i < j < 2
        ensures Probe(db, 8, i).endIp < Probe(db, 8, j).startIp
      {
        assert i == 0 && j == 1;
      }
    }
    r := MemorySearch(db, 3);
    assert Covers(Probe(db, 8, 0), 3);
  }
}
