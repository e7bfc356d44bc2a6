/**
  The header block of the database file (disk mode only): up to 1024 8-byte
  entries (startIp, blockPtr) read from the 8192 bytes after the file header,
  parsed into the parallel arrays `HeaderSip` / `HeaderPtr`, and the coarse
  binary search over them that picks the super-index slice to read.
 */
module HeaderBlock {
  import opened Bytes

  const HeaderBlockOffset: nat := 8
  const HeaderBlockSize: int := 8192
  const MaxHeaderEntries: int := 1024

  datatype HeaderEntry = HeaderEntry(startIp: u32, blockPtr: u32)

  /** `fseek($h, 8); fread($h, 8192)`. */
  function ReadHeaderBlock(db: seq<byte>): (buf: seq<byte>)
    ensures |buf| == if |db| <= HeaderBlockOffset then 0 else Min(HeaderBlockSize, |db| - HeaderBlockOffset)
    ensures forall i :: 0 <= i < |buf| ==> buf[i] == db[HeaderBlockOffset + i]
  {
    Read(db, HeaderBlockOffset, HeaderBlockSize)
  }

  /** Header entry `k` lies inside the bytes read. */
  predicate InBlock(buf: seq<byte>, k: nat)
  {
    8 * k + 8 <= |buf|
  }

  function HeaderSipAt(buf: seq<byte>, k: nat): u32
    requires InBlock(buf, k)
  {
    GetLong(buf, 8 * k)
  }

  function HeaderPtrAt(buf: seq<byte>, k: nat): u32
    requires InBlock(buf, k)
  {
    GetLong(buf, 8 * k + 4)
  }

  /** How many entries, from number `j` on, the parse takes: it stops at the
      first zero block pointer, at the 1024th entry, or where the bytes read
      end. */
  function HeaderLenFrom(buf: seq<byte>, j: nat): (n: nat)
    ensures j <= MaxHeaderEntries ==> j + n <= MaxHeaderEntries
    ensures forall k :: j <= k < j + n ==> InBlock(buf, k) && HeaderPtrAt(buf, k) != 0
    ensures j + n < MaxHeaderEntries && InBlock(buf, j + n) ==> HeaderPtrAt(buf, j + n) == 0
    decreases MaxHeaderEntries - j
  {
    if j >= MaxHeaderEntries || !InBlock(buf, j) || HeaderPtrAt(buf, j) == 0 then 0
    else 1 + HeaderLenFrom(buf, j + 1)
  }

  /** `headerLen`. */
  function HeaderLen(buf: seq<byte>): (n: nat)
    ensures n <= MaxHeaderEntries
    ensures forall k :: 0 <= k < n ==> InBlock(buf, k) && HeaderPtrAt(buf, k) != 0
    ensures n < MaxHeaderEntries && InBlock(buf, n) ==> HeaderPtrAt(buf, n) == 0
  {
    HeaderLenFrom(buf, 0)
  }

  /** The start ips and block pointers of the entries the parse takes. */
  function HeaderSips(buf: seq<byte>): (sips: seq<u32>)
    ensures |sips| == HeaderLen(buf)
  {
    seq(HeaderLen(buf), k requires 0 <= k < HeaderLen(buf) => HeaderSipAt(buf, k))
  }

  function HeaderPtrs(buf: seq<byte>): (ptrs: seq<u32>)
    ensures |ptrs| == HeaderLen(buf)
    ensures forall k :: 0 <= k < |ptrs| ==> ptrs[k] != 0
  {
    seq(HeaderLen(buf), k requires 0 <= k < HeaderLen(buf) => HeaderPtrAt(buf, k))
  }

  /** The parse loop stays inside the bytes read: it either takes all 1024
      entries or meets a zero block pointer before the bytes run out. */
  predicate HeaderReadable(buf: seq<byte>)
  {
    HeaderLen(buf) == MaxHeaderEntries || InBlock(buf, HeaderLen(buf))
  }

  /** One stride of the parse loop: the entry it reads lies in the buffer and
      has a zero pointer exactly when the parse ends there. */
  lemma ParseStep(buf: seq<byte>, idx: nat)
    requires HeaderReadable(buf) && idx < MaxHeaderEntries && idx <= HeaderLen(buf)
    ensures InBlock(buf, idx)
    ensures idx < HeaderLen(buf) <==> HeaderPtrAt(buf, idx) != 0
  {
  }

  /** The header-filling loop of `btreeSearch`: walk the buffer in 8-byte
      strides, stop at the first zero pointer, append to both arrays. */
  method ParseHeader(buf: seq<byte>) returns (sips: seq<u32>, ptrs: seq<u32>)
    requires HeaderReadable(buf)
    ensures sips == HeaderSips(buf) && ptrs == HeaderPtrs(buf)
    ensures |ptrs| <= MaxHeaderEntries
    ensures |ptrs| == MaxHeaderEntries || HeaderPtrAt(buf, |ptrs|) == 0
  {
    var i := 0;
    var idx := 0;
    sips, ptrs := [], [];
    ghost var n := HeaderLen(buf);
    while i < HeaderBlockSize
      invariant i == 8 * idx && idx <= n
      invariant Parsed(buf, sips, ptrs) && |ptrs| == idx
    {
      ParseStep(buf, idx);
      // getLong at `i` and `i + 4`
      var startIp := HeaderSipAt(buf, idx);
      var dataPtr := HeaderPtrAt(buf, idx);
      if dataPtr == 0 {
        break;
      }
      ParsedAppend(buf, sips, ptrs);
      sips := sips + [startIp];
      ptrs := ptrs + [dataPtr];
      idx := idx + 1;
      i := i + 8;
    }
    ParsedIsHeader(buf, sips, ptrs);
  }

  /** Arrays that agree, entry by entry, with a prefix of the header block. */
  ghost predicate Parsed(buf: seq<byte>, sips: seq<u32>, ptrs: seq<u32>)
  {
    && |sips| == |ptrs|
    && forall k :: 0 <= k < |ptrs| ==>
         InBlock(buf, k) && sips[k] == HeaderSipAt(buf, k) && ptrs[k] == HeaderPtrAt(buf, k)
  }

  /** Appending the next entry keeps the arrays a parsed prefix. */
  lemma ParsedAppend(buf: seq<byte>, sips: seq<u32>, ptrs: seq<u32>)
    requires Parsed(buf, sips, ptrs) && InBlock(buf, |ptrs|)
    ensures Parsed(buf, sips + [HeaderSipAt(buf, |ptrs|)], ptrs + [HeaderPtrAt(buf, |ptrs|)])
  {
  }

  /** A parsed prefix as long as the header is the header's arrays. */
  lemma ParsedIsHeader(buf: seq<byte>, sips: seq<u32>, ptrs: seq<u32>)
    requires Parsed(buf, sips, ptrs) && |ptrs| == HeaderLen(buf)
    ensures sips == HeaderSips(buf) && ptrs == HeaderPtrs(buf)
  {
  }

  ghost predicate NonDecreasing(sips: seq<u32>)
  {
    forall i, j :: 0 <= i < j < |sips| ==> sips[i] <= sips[j]
  }

  /** Where the coarse search may place `ip` relative to the adjacent pair
      `k, k+1` it picks: below the first start (k = 0), exactly on the upper
      start, strictly above the lower one and up to the upper one, or at or
      above the last start (k the last pair). */
  predicate Bracket(sips: seq<u32>, k: nat, ip: u32)
    requires k + 1 < |sips|
  {
    || (k == 0 && ip <= sips[0])
    || ip == sips[k + 1]
    || (sips[k] < ip <= sips[k + 1])
    || (k + 2 == |sips| && ip >= sips[k + 1])
  }

  /**
    Step 1 of `btreeSearch`: binary search over the header arrays for the
    pair `(s_ptr, e_ptr)`; `(0, 0)` when the loop exhausts. `btreeSearch`
    starts with `h = headerLen` and reads `HeaderPtr[1]` and
    `HeaderPtr[m - 1]` in its `m == 0` and `m == headerLen - 1` branches;
    with at least two entries none of these reads falls outside the arrays.
   */
  method CoarseSearch(sips: seq<u32>, ptrs: seq<u32>, ip: u32) returns (sPtr: u32, ePtr: u32)
    requires |sips| == |ptrs| >= 2
    ensures (sPtr == 0 && ePtr == 0)
      || exists k: nat :: k + 1 < |ptrs| && Bracket(sips, k, ip) && sPtr == ptrs[k] && ePtr == ptrs[k + 1]
    ensures NonDecreasing(sips) ==>
      exists k: nat :: k + 1 < |ptrs| && Bracket(sips, k, ip) && sPtr == ptrs[k] && ePtr == ptrs[k + 1]
  {
    var n := |sips|;
    var l := 0;
    var h := n;
    sPtr, ePtr := 0, 0;
    while l <= h
      invariant 0 <= l <= n - 1 && 0 <= h <= n
      invariant sPtr == 0 && ePtr == 0
      invariant l > 0 ==> ip > sips[l]
      invariant h < n ==> ip <= sips[h]
      decreases h - l
    {
      var m := (l + h) / 2;
      if ip == sips[m] {
        if m > 0 {
          sPtr, ePtr := ptrs[m - 1], ptrs[m];
          assert Bracket(sips, m - 1, ip);
        } else {
          sPtr, ePtr := ptrs[m], ptrs[m + 1];
          assert Bracket(sips, 0, ip);
        }
        break;
      }
      if ip < sips[m] {
        if m == 0 {
          sPtr, ePtr := ptrs[m], ptrs[m + 1];
          assert Bracket(sips, 0, ip);
          break;
        } else if ip > sips[m - 1] {
          sPtr, ePtr := ptrs[m - 1], ptrs[m];
          assert Bracket(sips, m - 1, ip);
          break;
        }
        h := m - 1;
      } else {
        if m == n - 1 {
          sPtr, ePtr := ptrs[m - 1], ptrs[m];
          assert Bracket(sips, m - 1, ip);
          break;
        } else if ip <= sips[m + 1] {
          sPtr, ePtr := ptrs[m], ptrs[m + 1];
          assert Bracket(sips, m, ip);
          break;
        }
        l := m + 1;
      }
    }
  }
}
