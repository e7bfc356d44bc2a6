/**
  Disk-mode lookup (`btreeSearch`): parse the header block, pick the pair of
  header pointers around the key, read that slice of the super-index, binary
  search it, and read the record the matching entry points to.
 */
module BTree {
  import opened Bytes
  import opened Records
  import opened Index
  import opened Database
  import opened HeaderBlock

  /** The slice `btreeSearch` reads for the pointer pair `(s, e)` (the
      `e - s + 12` bytes from `s`) lies in the image, and so does the city id
      of every record its entries point to. */
  ghost predicate BlockReadable(db: seq<byte>, s: u32, e: u32)
  {
    && s <= e && e + EntrySize <= |db|
    && forall j :: 0 <= j <= (e - s) / EntrySize ==> DiskReadable(db, Probe(db, s, j).dataPtr)
  }

  /** Every read `btreeSearch` may make lies in the image: the parse meets its
      terminator inside the header block, there are at least the two entries
      the coarse search indexes, and every slice between adjacent header
      pointers is readable. */
  ghost predicate BtreeReadable(db: seq<byte>)
  {
    var buf := ReadHeaderBlock(db);
    && HeaderReadable(buf)
    && HeaderLen(buf) >= 2
    && forall k :: 0 <= k && k + 1 < HeaderLen(buf) ==>
         BlockReadable(db, HeaderPtrAt(buf, k), HeaderPtrAt(buf, k + 1))
  }

  /** Header entry `k` points at a super-index entry and records that entry's
      start ip. */
  ghost predicate HeaderEntryMatches(db: seq<byte>, buf: seq<byte>, k: nat)
  {
    && InBlock(buf, k) && |db| >= HeaderSize
    && var p := HeaderPtrAt(buf, k);
    && First(db) <= p <= Last(db)
    && (p - First(db)) % EntrySize == 0
    && p + EntrySize <= |db|
    && HeaderSipAt(buf, k) == Probe(db, p, 0).startIp
  }

  /** The image as the database writer lays it out for disk mode: a
      well-formed super-index, and a header block whose entries sample it in
      order, from the first entry to the last. */
  ghost predicate BtreeWellFormed(db: seq<byte>)
  {
    && IndexWellFormed(db)
    && var buf := ReadHeaderBlock(db);
    && HeaderReadable(buf)
    && HeaderLen(buf) >= 2
    && (forall k :: 0 <= k < HeaderLen(buf) ==> HeaderEntryMatches(db, buf, k))
    && (forall i, j :: 0 <= i < j < HeaderLen(buf) ==> HeaderPtrAt(buf, i) <= HeaderPtrAt(buf, j))
    && HeaderPtrAt(buf, 0) == First(db)
    && HeaderPtrAt(buf, HeaderLen(buf) - 1) == Last(db)
  }

  /** Entry `j` of the run at `base + 12 * a` is entry `a + j` of the run at `base`. */
  lemma ProbeShift(buf: seq<byte>, base: nat, a: nat, j: nat, s: nat)
    requires s == base + EntrySize * a && base + EntrySize * (a + j) + EntrySize <= |buf|
    ensures Probe(buf, s, j) == Probe(buf, base, a + j)
  {
    assert s + EntrySize * j == base + EntrySize * (a + j);
  }

  /** Probing the slice read at `s` is probing the image from `s`. */
  lemma SliceProbe(db: seq<byte>, s: nat, hi: nat, j: nat)
    requires s <= hi <= |db| && EntrySize * j + EntrySize <= hi - s
    ensures Probe(db[s..hi], 0, j) == Probe(db, s, j)
  {
    GetLongSlice(db, s, hi, EntrySize * j);
    GetLongSlice(db, s, hi, EntrySize * j + 4);
    GetLongSlice(db, s, hi, EntrySize * j + 8);
  }

  /** The super-index entry number a header pointer addresses. */
  function EntryNumber(db: seq<byte>, p: int): int
    requires |db| >= HeaderSize
  {
    (p - First(db)) / EntrySize
  }

  /** What a well-formed image promises about one header entry. */
  lemma EntryFacts(db: seq<byte>, k: nat)
    requires BtreeWellFormed(db) && k < HeaderLen(ReadHeaderBlock(db))
    ensures var buf := ReadHeaderBlock(db);
      var a := EntryNumber(db, HeaderPtrAt(buf, k));
      && 0 <= a < Blocks(db)
      && HeaderPtrAt(buf, k) == First(db) + EntrySize * a
      && HeaderSipAt(buf, k) == Probe(db, First(db), a).startIp
  {
    var buf := ReadHeaderBlock(db);
    assert HeaderEntryMatches(db, buf, k);
    MatchFacts(db, buf, k);
  }

  /** A header entry that points at a super-index entry addresses entry
      number `EntryNumber` of the image and records its start ip. */
  lemma MatchFacts(db: seq<byte>, buf: seq<byte>, k: nat)
    requires HeaderEntryMatches(db, buf, k)
    ensures var a := EntryNumber(db, HeaderPtrAt(buf, k));
      && 0 <= a < Blocks(db)
      && HeaderPtrAt(buf, k) == First(db) + EntrySize * a
      && HeaderSipAt(buf, k) == Probe(db, First(db), a).startIp
  {
    var p := HeaderPtrAt(buf, k);
    EntryIndex(db, p);
    ProbeShift(db, First(db), EntryNumber(db, p), 0, p);
  }

  /** A pointer from the first entry to the last, a whole number of entries
      past the first, addresses entry `EntryNumber(db, p)`. */
  lemma EntryIndex(db: seq<byte>, p: int)
    requires |db| >= HeaderSize
    requires First(db) <= p <= Last(db) && (p - First(db)) % EntrySize == 0
    ensures 0 <= EntryNumber(db, p) < Blocks(db) && p == First(db) + EntrySize * EntryNumber(db, p)
  {
    EntryArith(First(db), p, Last(db), Blocks(db));
  }

  /** A pointer a whole number of entries past `f`, and no further than the
      last entry `l` of `n`, addresses entry `(p - f) / 12`. */
  lemma EntryArith(f: int, p: int, l: int, n: int)
    requires f <= p <= l && (p - f) % EntrySize == 0 && n == (l - f) / EntrySize + 1
    ensures 0 <= (p - f) / EntrySize < n && p == f + EntrySize * ((p - f) / EntrySize)
  {
    var a := (p - f) / EntrySize;
    assert p - f == EntrySize * a;
  }

  /** What a well-formed image promises about an adjacent pair of header
      entries: they address entries `a <= b`, the first pair starts at entry
      0 and the last pair ends at the last entry. */
  lemma PairFacts(db: seq<byte>, k: nat)
    requires BtreeWellFormed(db) && k + 1 < HeaderLen(ReadHeaderBlock(db))
    ensures var buf := ReadHeaderBlock(db);
      var a, b := EntryNumber(db, HeaderPtrAt(buf, k)), EntryNumber(db, HeaderPtrAt(buf, k + 1));
      && 0 <= a <= b < Blocks(db)
      && HeaderPtrAt(buf, k) == First(db) + EntrySize * a
      && HeaderPtrAt(buf, k + 1) == First(db) + EntrySize * b
      && HeaderSipAt(buf, k) == Probe(db, First(db), a).startIp
      && HeaderSipAt(buf, k + 1) == Probe(db, First(db), b).startIp
      && (k == 0 ==> a == 0)
      && (k + 2 == HeaderLen(buf) ==> b == Blocks(db) - 1)
  {
    EntryFacts(db, k);
    EntryFacts(db, k + 1);
  }

  /** A well-formed image satisfies every read of `btreeSearch`. */
  lemma WellFormedIsBtreeReadable(db: seq<byte>)
    requires BtreeWellFormed(db)
    ensures BtreeReadable(db)
  {
    var buf := ReadHeaderBlock(db);
    forall k | 0 <= k && k + 1 < HeaderLen(buf)
      ensures BlockReadable(db, HeaderPtrAt(buf, k), HeaderPtrAt(buf, k + 1))
    {
      PairBlockReadable(db, k);
    }
  }

  lemma PairBlockReadable(db: seq<byte>, k: nat)
    requires BtreeWellFormed(db) && k + 1 < HeaderLen(ReadHeaderBlock(db))
    ensures BlockReadable(db, HeaderPtrAt(ReadHeaderBlock(db), k), HeaderPtrAt(ReadHeaderBlock(db), k + 1))
  {
    var buf := ReadHeaderBlock(db);
    var first := First(db);
    var s, e := HeaderPtrAt(buf, k), HeaderPtrAt(buf, k + 1);
    PairFacts(db, k);
    var a, b := EntryNumber(db, s), EntryNumber(db, e);
    assert (e - s) / EntrySize == b - a;
    forall j | 0 <= j <= (e - s) / EntrySize
      ensures DiskReadable(db, Probe(db, s, j).dataPtr)
    {
      ProbeShift(db, first, a, j, s);
      assert RecordInImage(db, Probe(db, first, a + j).dataPtr);
    }
  }

  /** Sorted entries start in ascending order. */
  lemma StartsAscend(buf: seq<byte>, base: nat, n: nat, i: nat, j: nat)
    requires Sorted(buf, base, n) && i <= j < n
    ensures Probe(buf, base, i).startIp <= Probe(buf, base, j).startIp
  {
    if i < j {
      assert Probe(buf, base, i).startIp <= Probe(buf, base, i).endIp;
    }
  }

  /** The header's start ips ascend in a well-formed image: that is what
      lets the coarse search always find a pair. */
  lemma HeaderSipsAscend(db: seq<byte>)
    requires BtreeWellFormed(db)
    ensures NonDecreasing(HeaderSips(ReadHeaderBlock(db)))
  {
    var buf := ReadHeaderBlock(db);
    var sips := HeaderSips(buf);
    WellFormedSorted(db);
    forall i, j | 0 <= i < j < |sips|
      ensures sips[i] <= sips[j]
    {
      EntryFacts(db, i);
      EntryFacts(db, j);
      assert HeaderPtrAt(buf, i) <= HeaderPtrAt(buf, j);
      StartsAscend(db, First(db), Blocks(db), EntryNumber(db, HeaderPtrAt(buf, i)), EntryNumber(db, HeaderPtrAt(buf, j)));
    }
  }

  /** Where the coarse search's pair of start ips (those of entries `a` and
      `b`) brackets `ip`, the entry `c` holding `ip` lies between `a` and `b`. */
  lemma BracketLocates(buf: seq<byte>, base: nat, n: nat, sips: seq<u32>, k: nat, ip: u32, a: nat, b: nat, c: nat)
    requires Sorted(buf, base, n) && a <= b < n
    requires k + 1 < |sips| && Bracket(sips, k, ip)
    requires sips[k] == Probe(buf, base, a).startIp && sips[k + 1] == Probe(buf, base, b).startIp
    requires k == 0 ==> a == 0
    requires k + 2 == |sips| ==> b == n - 1
    requires c < n && Covers(Probe(buf, base, c), ip)
    ensures a <= c <= b
  {
    StartsAscend(buf, base, n, a, b);
    if Covers(Probe(buf, base, b), ip) {
      SortedCoverUnique(buf, base, n, ip, b, c);
    }
  }

  /** Steps 0 and 1 of `btreeSearch`: read and parse the header block, then
      run the coarse search. The result is an adjacent pair of header
      pointers that brackets `ip`, or `(0, 0)`; on a well-formed image it is
      always a pair. */
  method LocateBlock(db: seq<byte>, ip: u32) returns (s: u32, e: u32)
    requires HeaderReadable(ReadHeaderBlock(db)) && HeaderLen(ReadHeaderBlock(db)) >= 2
    ensures (s == 0 && e == 0) || PairAt(ReadHeaderBlock(db), ip, s, e)
    ensures BtreeWellFormed(db) ==> PairAt(ReadHeaderBlock(db), ip, s, e)
  {
    var buf := ReadHeaderBlock(db);
    var sips, ptrs := ParseHeader(buf);
    if BtreeWellFormed(db) {
      HeaderSipsAscend(db);
    }
    s, e := CoarseSearch(sips, ptrs, ip);
  }

  /** `(s, e)` are the block pointers of adjacent header entries `k, k + 1`
      whose start ips bracket `ip`. */
  ghost predicate PairAt(buf: seq<byte>, ip: u32, s: u32, e: u32)
  {
    exists k: nat :: k + 1 < HeaderLen(buf) && Bracket(HeaderSips(buf), k, ip)
      && s == HeaderPtrs(buf)[k] && e == HeaderPtrs(buf)[k + 1]
  }

  /** Step 2 of `btreeSearch`: read the `e - s + 12` bytes at `s` and binary
      search the `(e - s) / 12 + 1` entries they hold. The answer is the data
      pointer of an entry in that run holding `ip`, and when the run is
      sorted it is the pointer of any such entry; 0 when none matched. */
  method SearchBlock(db: seq<byte>, s: u32, e: u32, ip: u32) returns (w: u32)
    requires s <= e && e + EntrySize <= |db|
    ensures w != 0 ==>
      exists j :: 0 <= j <= (e - s) / EntrySize && Covers(Probe(db, s, j), ip) && Probe(db, s, j).dataPtr == w
    ensures Sorted(db, s, (e - s) / EntrySize + 1) ==>
      forall j :: 0 <= j <= (e - s) / EntrySize && Covers(Probe(db, s, j), ip) ==> w == Probe(db, s, j).dataPtr
  {
    var blockLen := e - s;
    var index := Read(db, s, blockLen + EntrySize);
    assert index == db[s..e + EntrySize];
    var top := blockLen / EntrySize;
    forall j | 0 <= j <= top
      ensures Probe(index, 0, j) == Probe(db, s, j)
    {
      SliceProbe(db, s, e + EntrySize, j);
    }
    w := SearchIndex(index, 0, top, ip);
  }

  /** What the disk read of a matching entry's data pointer `w` returns. */
  function DiskResult(db: seq<byte>, w: u32): (r: Lookup)
    requires DiskReadable(db, w)
    ensures r.Found? <==> w != 0
    ensures r.Found? ==> EncodeRecord(r.record) == ReadRecord(db, w)
    ensures r.Found? && RecordInImage(db, w) ==> r.record == StoredRecord(db, w)
  {
    if w == 0 then NotFound
    else if RecordInImage(db, w) then
      RecordModesAgree(db, w);
      Found(DiskRecord(ReadRecord(db, w)))
    else Found(DiskRecord(ReadRecord(db, w)))
  }

  /** A search result `w` over the image entries `a .. b` that is sound, and
      complete for those entries, is the reference lookup once read from
      disk, provided every entry holding `ip` lies in `a .. b`. */
  lemma RangeAgrees(db: seq<byte>, ip: u32, w: u32, a: nat, b: nat)
    requires IndexWellFormed(db) && a <= b < Blocks(db)
    requires forall c :: 0 <= c < Blocks(db) && Covers(Probe(db, First(db), c), ip) ==> a <= c <= b
    requires w != 0 ==>
      exists c :: a <= c <= b && Covers(Probe(db, First(db), c), ip) && Probe(db, First(db), c).dataPtr == w
    requires forall c :: a <= c <= b && Covers(Probe(db, First(db), c), ip) ==> w == Probe(db, First(db), c).dataPtr
    ensures DiskReadable(db, w) && DiskResult(db, w) == Reference(db, ip)
  {
    var first, n := First(db), Blocks(db);
    if w != 0 {
      WellFormedSorted(db);
      var c :| a <= c <= b && Covers(Probe(db, first, c), ip) && Probe(db, first, c).dataPtr == w;
      CoveringFindsCover(db, first, n, ip, c);
      RecordModesAgree(db, w);
    }
  }

  /** A run of consecutive entries taken from sorted entries is sorted. */
  lemma RunSorted(db: seq<byte>, first: nat, n: nat, a: nat, b: nat, s: nat)
    requires Sorted(db, first, n) && a <= b < n && s == first + EntrySize * a
    ensures Sorted(db, s, b - a + 1)
  {
    forall j | 0 <= j <= b - a
      ensures Probe(db, s, j) == Probe(db, first, a + j)
    {
      ProbeShift(db, first, a, j, s);
    }
    forall i, j | 0 <= i < j <= b - a
      ensures Probe(db, s, i).endIp < Probe(db, s, j).startIp
    {
      assert Probe(db, first, a + i).endIp < Probe(db, first, a + j).startIp;
    }
  }

  /** Every entry holding `ip` lies in the run `a .. b` whose start ips
      bracket it. */
  lemma CoverInRun(db: seq<byte>, first: nat, n: nat, sips: seq<u32>, k: nat, ip: u32, a: nat, b: nat)
    requires Sorted(db, first, n) && a <= b < n
    requires k + 1 < |sips| && Bracket(sips, k, ip)
    requires sips[k] == Probe(db, first, a).startIp && sips[k + 1] == Probe(db, first, b).startIp
    requires k == 0 ==> a == 0
    requires k + 2 == |sips| ==> b == n - 1
    ensures forall c :: 0 <= c < n && Covers(Probe(db, first, c), ip) ==> a <= c <= b
  {
    forall c | 0 <= c < n && Covers(Probe(db, first, c), ip)
      ensures a <= c <= b
    {
      BracketLocates(db, first, n, sips, k, ip, a, b, c);
    }
  }

  /** The search guarantees over the run read at `s`, restated over the
      image's entry numbers `a .. b`. */
  lemma RunRenumbered(db: seq<byte>, first: nat, a: nat, b: nat, s: nat, e: nat, ip: u32, w: u32)
    requires a <= b && s == first + EntrySize * a && e == first + EntrySize * b && e + EntrySize <= |db|
    requires w != 0 ==>
      exists j :: 0 <= j <= (e - s) / EntrySize && Covers(Probe(db, s, j), ip) && Probe(db, s, j).dataPtr == w
    requires forall j :: 0 <= j <= (e - s) / EntrySize && Covers(Probe(db, s, j), ip) ==> w == Probe(db, s, j).dataPtr
    ensures w != 0 ==>
      exists c :: a <= c <= b && Covers(Probe(db, first, c), ip) && Probe(db, first, c).dataPtr == w
    ensures forall c :: a <= c <= b && Covers(Probe(db, first, c), ip) ==> w == Probe(db, first, c).dataPtr
  {
    assert (e - s) / EntrySize == b - a;
    forall c | a <= c <= b && Covers(Probe(db, first, c), ip)
      ensures w == Probe(db, first, c).dataPtr
    {
      ProbeShift(db, first, a, c - a, s);
    }
    if w != 0 {
      var j :| 0 <= j <= b - a && Covers(Probe(db, s, j), ip) && Probe(db, s, j).dataPtr == w;
      ProbeShift(db, first, a, j, s);
      assert Probe(db, first, a + j) == Probe(db, s, j);
    }
  }

  /** Searching the run of entries `a .. b` (bytes `s .. e + 12`) whose start
      ips bracket `ip` as the coarse search left them yields the reference
      lookup. */
  lemma RunAgrees(db: seq<byte>, sips: seq<u32>, k: nat, ip: u32, w: u32, a: nat, b: nat, s: nat, e: nat)
    requires IndexWellFormed(db) && a <= b < Blocks(db)
    requires s == First(db) + EntrySize * a && e == First(db) + EntrySize * b
    requires k + 1 < |sips| && Bracket(sips, k, ip)
    requires sips[k] == Probe(db, First(db), a).startIp && sips[k + 1] == Probe(db, First(db), b).startIp
    requires k == 0 ==> a == 0
    requires k + 2 == |sips| ==> b == Blocks(db) - 1
    requires w != 0 ==>
      exists j :: 0 <= j <= (e - s) / EntrySize && Covers(Probe(db, s, j), ip) && Probe(db, s, j).dataPtr == w
    requires Sorted(db, s, (e - s) / EntrySize + 1) ==>
      forall j :: 0 <= j <= (e - s) / EntrySize && Covers(Probe(db, s, j), ip) ==> w == Probe(db, s, j).dataPtr
    ensures DiskReadable(db, w) && DiskResult(db, w) == Reference(db, ip)
  {
    var first, n := First(db), Blocks(db);
    assert (e - s) / EntrySize == b - a;
    WellFormedSorted(db);
    RunSorted(db, first, n, a, b, s);
    CoverInRun(db, first, n, sips, k, ip, a, b);
    RunRenumbered(db, first, a, b, s, e, ip, w);
    RangeAgrees(db, ip, w, a, b);
  }

  /** On a well-formed image, searching the run between the pair picked by
      the coarse search yields the reference lookup. */
  lemma DiskAgrees(db: seq<byte>, k: nat, ip: u32, s: u32, e: u32, w: u32)
    requires BtreeWellFormed(db)
    requires k + 1 < HeaderLen(ReadHeaderBlock(db)) && Bracket(HeaderSips(ReadHeaderBlock(db)), k, ip)
    requires s == HeaderPtrs(ReadHeaderBlock(db))[k] && e == HeaderPtrs(ReadHeaderBlock(db))[k + 1]
    requires s <= e && e + EntrySize <= |db|
    requires w != 0 ==>
      exists j :: 0 <= j <= (e - s) / EntrySize && Covers(Probe(db, s, j), ip) && Probe(db, s, j).dataPtr == w
    requires Sorted(db, s, (e - s) / EntrySize + 1) ==>
      forall j :: 0 <= j <= (e - s) / EntrySize && Covers(Probe(db, s, j), ip) ==> w == Probe(db, s, j).dataPtr
    ensures DiskReadable(db, w) && DiskResult(db, w) == Reference(db, ip)
  {
    var buf := ReadHeaderBlock(db);
    PairFacts(db, k);
    assert s == HeaderPtrAt(buf, k) && e == HeaderPtrAt(buf, k + 1);
    var a, b := EntryNumber(db, s), EntryNumber(db, e);
    RunAgrees(db, HeaderSips(buf), k, ip, w, a, b, s, e);
  }

  /** Entry `j` of the run read between the block pointers of adjacent
      header entries `k` and `k + 1`, whose start ips bracket `ip`, holds
      `ip` and has the data pointer `w`. */
  ghost predicate RunHit(db: seq<byte>, ip: u32, k: nat, j: nat, w: u32)
  {
    var buf := ReadHeaderBlock(db);
    && k + 1 < HeaderLen(buf) && Bracket(HeaderSips(buf), k, ip)
    && var s, e := HeaderPtrs(buf)[k], HeaderPtrs(buf)[k + 1];
    && s <= e && j <= (e - s) / EntrySize && s + EntrySize * j + EntrySize <= |db|
    && Covers(Probe(db, s, j), ip) && Probe(db, s, j).dataPtr == w
  }

  /** A pointer the block search returns for the pair `k, k + 1` is that of
      an entry of the run holding `ip`, and its record may be read from disk. */
  lemma BlockHit(db: seq<byte>, k: nat, s: u32, e: u32, ip: u32, w: u32)
    requires BlockReadable(db, s, e) && w != 0
    requires k + 1 < HeaderLen(ReadHeaderBlock(db)) && Bracket(HeaderSips(ReadHeaderBlock(db)), k, ip)
    requires s == HeaderPtrs(ReadHeaderBlock(db))[k] && e == HeaderPtrs(ReadHeaderBlock(db))[k + 1]
    requires exists j :: 0 <= j <= (e - s) / EntrySize && Covers(Probe(db, s, j), ip) && Probe(db, s, j).dataPtr == w
    ensures DiskReadable(db, w)
    ensures exists j: nat :: RunHit(db, ip, k, j, w)
  {
    var j :| 0 <= j <= (e - s) / EntrySize && Covers(Probe(db, s, j), ip) && Probe(db, s, j).dataPtr == w;
    assert RunHit(db, ip, k, j, w);
  }

  /**
    `btreeSearch`. The header arrays are parsed on every call here; the
    PHP object parses them once and keeps them, which reads the same
    bytes from the same file.
   */
  method BtreeSearch(db: seq<byte>, ip: u32) returns (r: Lookup)
    requires BtreeReadable(db)
    ensures r.Found? ==>
      exists k: nat, j: nat, w: u32 :: RunHit(db, ip, k, j, w) && w != 0 && DiskReadable(db, w) && r == DiskResult(db, w)
    ensures BtreeWellFormed(db) ==> r == Reference(db, ip)
  {
    var s, e := LocateBlock(db, ip);
    if s == 0 {
      return NotFound;
    }
    ghost var buf := ReadHeaderBlock(db);
    ghost var k: nat :| k + 1 < HeaderLen(buf) && Bracket(HeaderSips(buf), k, ip)
      && s == HeaderPtrs(buf)[k] && e == HeaderPtrs(buf)[k + 1];
    assert BlockReadable(db, s, e);
    var w := SearchBlock(db, s, e, ip);
    if w == 0 {
      r := NotFound;
    } else {
      BlockHit(db, k, s, e, ip, w);
      r := Found(DiskRecord(ReadRecord(db, w)));
    }
    if BtreeWellFormed(db) {
      DiskAgrees(db, k, ip, s, e, w);
    }
  }

  /** On a well-formed image the two lookup strategies give the same answer,
      and that answer is the reference lookup. */
  method CompareStrategies(db: seq<byte>, ip: u32) returns (memory: Lookup, disk: Lookup)
    requires BtreeWellFormed(db)
    ensures memory == disk == Reference(db, ip)
  {
    WellFormedIsReadable(db);
    WellFormedIsBtreeReadable(db);
    memory := MemorySearchCorrected(db, ip);
    disk := BtreeSearch(db, ip);
  }

  /** `memorySearch` and `btreeSearch` as written, on a well-formed image:
      the disk mode gives the reference answer, and the memory mode gives
      the same one unless the key lies above the last entry and the twelve
      bytes after it, read as an entry, hold it; then the disk mode finds
      nothing and the memory mode answers from those bytes. */
  method CompareAsWritten(db: seq<byte>, ip: u32) returns (memory: Lookup, disk: Lookup)
    requires BtreeWellFormed(db) && MemoryReadable(db, ip)
    ensures disk == Reference(db, ip)
    ensures !Overshoots(db, ip) ==> memory == disk
    ensures Overshoots(db, ip) ==>
      disk == NotFound && memory == MemoryResult(db, Probe(db, First(db), Blocks(db)).dataPtr)
  {
    WellFormedIsBtreeReadable(db);
    WellFormedSorted(db);
    memory := MemorySearch(db, ip);
    disk := BtreeSearch(db, ip);
    if Overshoots(db, ip) {
      NoneBelow(db, First(db), Blocks(db), Blocks(db) - 1, ip);
    }
  }
}
