/**
  The super-index: consecutive 12-byte entries (startIp, endIp, dataPtr) read
  from a byte buffer at `base + 12 * m`, and the binary search that both
  lookup strategies run over them.
 */
module Index {
  import opened Bytes

  const EntrySize: int := 12

  datatype IndexEntry = IndexEntry(startIp: u32, endIp: u32, dataPtr: u32)

  /** The entry numbered `m` of the run of entries starting at `base`. */
  function Probe(buf: seq<byte>, base: nat, m: nat): (e: IndexEntry)
    requires base + EntrySize * m + EntrySize <= |buf|
  {
    var p := base + EntrySize * m;
    IndexEntry(GetLong(buf, p), GetLong(buf, p + 4), GetLong(buf, p + 8))
  }

  /** The twelve bytes of an entry as the database writer lays it out: the
      three words little-endian, start ip first. */
  function EncodeEntry(e: IndexEntry): (bs: seq<byte>)
    ensures |bs| == EntrySize
  {
    PutLong(e.startIp) + PutLong(e.endIp) + PutLong(e.dataPtr)
  }

  /** The probe reads an entry exactly as it is laid out: the twelve bytes at
      `base + 12 * m` are the encoding of the three words it reads. */
  lemma ProbeEncoding(buf: seq<byte>, base: nat, m: nat)
    requires base + EntrySize * m + EntrySize <= |buf|
    ensures EncodeEntry(Probe(buf, base, m)) == buf[base + EntrySize * m..base + EntrySize * m + EntrySize]
  {
    var p := base + EntrySize * m;
    PutGetLong(buf, p);
    PutGetLong(buf, p + 4);
    PutGetLong(buf, p + 8);
    assert buf[p..p + 12] == buf[p..p + 4] + buf[p + 4..p + 8] + buf[p + 8..p + 12];
  }

  /** An entry written anywhere is probed back unchanged. */
  lemma EntryRoundTrip(pre: seq<byte>, e: IndexEntry, post: seq<byte>)
    ensures Probe(pre + EncodeEntry(e) + post, |pre|, 0) == e
  {
    var buf := pre + EncodeEntry(e) + post;
    GetPutLong(e.startIp, pre, PutLong(e.endIp) + PutLong(e.dataPtr) + post);
    assert buf == pre + PutLong(e.startIp) + (PutLong(e.endIp) + PutLong(e.dataPtr) + post);
    GetPutLong(e.endIp, pre + PutLong(e.startIp), PutLong(e.dataPtr) + post);
    assert buf == (pre + PutLong(e.startIp)) + PutLong(e.endIp) + (PutLong(e.dataPtr) + post);
    GetPutLong(e.dataPtr, pre + PutLong(e.startIp) + PutLong(e.endIp), post);
    assert buf == (pre + PutLong(e.startIp) + PutLong(e.endIp)) + PutLong(e.dataPtr) + post;
  }

  predicate Covers(e: IndexEntry, ip: u32)
  {
    e.startIp <= ip <= e.endIp
  }

  /** Entries `0 .. n-1` lie in the buffer, each range is well formed and the
      ranges ascend without overlapping. */
  ghost predicate Sorted(buf: seq<byte>, base: nat, n: nat)
  {
    && base + EntrySize * n <= |buf|
    && (forall i :: 0 <= i < n ==> Probe(buf, base, i).startIp <= Probe(buf, base, i).endIp)
    && (forall i, j :: 0 <= i < j < n ==> Probe(buf, base, i).endIp < Probe(buf, base, j).startIp)
  }

  /** The same order stated on neighbours only. */
  ghost predicate AdjacentSorted(buf: seq<byte>, base: nat, n: nat)
  {
    && base + EntrySize * n <= |buf|
    && (forall i :: 0 <= i < n ==> Probe(buf, base, i).startIp <= Probe(buf, base, i).endIp)
    && (forall i :: 0 <= i && i + 1 < n ==> Probe(buf, base, i).endIp < Probe(buf, base, i + 1).startIp)
  }

  lemma {:induction false} AdjacentSortedIsSorted(buf: seq<byte>, base: nat, n: nat)
    requires AdjacentSorted(buf, base, n)
    ensures Sorted(buf, base, n)
  {
    forall i, j | 0 <= i < j < n
      ensures Probe(buf, base, i).endIp < Probe(buf, base, j).startIp
    {
      AscendsBetween(buf, base, n, i, j);
    }
  }

  lemma {:induction false} AscendsBetween(buf: seq<byte>, base: nat, n: nat, i: nat, j: nat)
    requires AdjacentSorted(buf, base, n) && i < j < n
    ensures Probe(buf, base, i).endIp < Probe(buf, base, j).startIp
    decreases j - i
  {
    if i + 1 < j {
      AscendsBetween(buf, base, n, i + 1, j);
      assert Probe(buf, base, i).endIp < Probe(buf, base, i + 1).startIp;
    }
  }

  /** In sorted entries at most one range holds a given key. */
  lemma SortedCoverUnique(buf: seq<byte>, base: nat, n: nat, ip: u32, i: nat, j: nat)
    requires Sorted(buf, base, n) && i < n && j < n
    requires Covers(Probe(buf, base, i), ip) && Covers(Probe(buf, base, j), ip)
    ensures i == j
  {
  }

  /** A key below entry `m`'s range lies in no entry from `m` on. */
  lemma NoneAbove(buf: seq<byte>, base: nat, n: nat, m: nat, ip: u32)
    requires Sorted(buf, base, n) && m < n && ip < Probe(buf, base, m).startIp
    ensures forall k :: m <= k < n ==> !Covers(Probe(buf, base, k), ip)
  {
    forall k | m < k < n
      ensures !Covers(Probe(buf, base, k), ip)
    {
      assert Probe(buf, base, m).endIp < Probe(buf, base, k).startIp;
    }
  }

  /** A key above entry `m`'s range lies in no entry up to `m`. */
  lemma NoneBelow(buf: seq<byte>, base: nat, n: nat, m: nat, ip: u32)
    requires Sorted(buf, base, n) && m < n && ip > Probe(buf, base, m).endIp
    ensures forall k :: 0 <= k <= m ==> !Covers(Probe(buf, base, k), ip)
  {
    forall k | 0 <= k < m
      ensures !Covers(Probe(buf, base, k), ip)
    {
      assert Probe(buf, base, k).endIp < Probe(buf, base, m).startIp;
    }
  }

  /** Where the reference scan found the key: at an entry, or nowhere. */
  datatype Hit = Absent | At(index: nat)

  /** Reference search: scan entries `from .. n-1` in order and report the
      first whose range holds `ip`. */
  function Covering(buf: seq<byte>, base: nat, n: nat, from: nat, ip: u32): (r: Hit)
    requires base + EntrySize * n <= |buf|
    ensures r.At? ==> from <= r.index < n && Covers(Probe(buf, base, r.index), ip)
    ensures r.At? ==> forall k :: from <= k < r.index ==> !Covers(Probe(buf, base, k), ip)
    ensures r.Absent? ==> forall k :: from <= k < n ==> !Covers(Probe(buf, base, k), ip)
    decreases n - from
  {
    if from >= n then Absent
    else if Covers(Probe(buf, base, from), ip) then At(from)
    else Covering(buf, base, n, from + 1, ip)
  }

  /** Under the sort order the scan finds exactly the covering entry. */
  lemma CoveringFindsCover(buf: seq<byte>, base: nat, n: nat, ip: u32, k: nat)
    requires Sorted(buf, base, n) && k < n && Covers(Probe(buf, base, k), ip)
    ensures Covering(buf, base, n, 0, ip) == At(k)
  {
    var r := Covering(buf, base, n, 0, ip);
    SortedCoverUnique(buf, base, n, ip, r.index, k);
  }

  /** The probes `0 .. top` all lie in the buffer (nothing is probed when
      `top` is negative). */
  predicate Probeable(buf: seq<byte>, base: nat, top: int)
  {
    top < 0 || base + EntrySize * (top + 1) <= |buf|
  }

  /** Every probe up to `top` lies in the buffer. */
  lemma ProbeIn(buf: seq<byte>, base: nat, top: int, m: nat)
    requires Probeable(buf, base, top) && m <= top
    ensures base + EntrySize * m + EntrySize <= |buf|
  {
    assert EntrySize * m + EntrySize <= EntrySize * (top + 1);
  }

  /** The binary search over the probes `0 .. top` reaches probe `top` only
      once the key has passed entry `top - 1`, or when `top` is 0. */
  predicate ReachesTop(buf: seq<byte>, base: nat, top: int, ip: u32)
    requires Probeable(buf, base, top - 1)
  {
    top == 0 || (top > 0 && ip > Probe(buf, base, top - 1).endIp)
  }

  /** Every probe the search for `ip` can make lies in the buffer: the
      entries `0 .. top - 1`, and entry `top` when the search reaches it. */
  predicate SearchReadable(buf: seq<byte>, base: nat, top: int, ip: u32)
  {
    && Probeable(buf, base, top - 1)
    && (ReachesTop(buf, base, top, ip) ==> Probeable(buf, base, top))
  }

  /** Probe `k` is one the search for `ip` can make. */
  predicate InReach(buf: seq<byte>, base: nat, top: int, ip: u32, k: int)
    requires Probeable(buf, base, top - 1)
  {
    0 <= k < top || (k == top && ReachesTop(buf, base, top, ip))
  }

  /** The search reaches probe `top`, the entries before it ascend, and
      probe `top` holds the key. */
  ghost predicate PastTop(buf: seq<byte>, base: nat, top: int, ip: u32)
    requires SearchReadable(buf, base, top, ip)
  {
    top >= 0 && ReachesTop(buf, base, top, ip) && Sorted(buf, base, top) && Covers(Probe(buf, base, top), ip)
  }

  /** A key above entry `top - 1` of ascending entries is above every entry
      before `top`. */
  lemma AboveRest(buf: seq<byte>, base: nat, top: int, ip: u32, m: nat)
    requires Probeable(buf, base, top - 1) && m < top
    requires Sorted(buf, base, top) && ip > Probe(buf, base, top - 1).endIp
    ensures ip > Probe(buf, base, m).endIp
  {
    if m < top - 1 {
      assert Probe(buf, base, m).endIp < Probe(buf, base, top - 1).startIp;
    }
  }

  /** When the search must reach probe `top`, every midpoint before it lies
      below the key, and the midpoint `top` holds it. */
  lemma PastTopMid(buf: seq<byte>, base: nat, top: int, ip: u32, l: int, h: int, m: nat)
    requires SearchReadable(buf, base, top, ip) && PastTop(buf, base, top, ip)
    requires 0 <= l <= top <= h && h <= top && m == (l + h) / 2
    ensures m <= top && base + EntrySize * m + EntrySize <= |buf|
    ensures m < top ==> ip > Probe(buf, base, m).endIp
    ensures m == top ==> Covers(Probe(buf, base, m), ip)
  {
    if m < top {
      AboveRest(buf, base, top, ip, m);
    }
  }

  /** The midpoint of a window the search keeps is a probe it can make, and
      it lies in the buffer. */
  lemma MidInReach(buf: seq<byte>, base: nat, top: int, ip: u32, l: int, h: int, m: int)
    requires SearchReadable(buf, base, top, ip)
    requires 0 <= l <= h <= top && m == (l + h) / 2
    requires 0 < l <= top ==> ip > Probe(buf, base, l - 1).endIp
    ensures InReach(buf, base, top, ip, m)
    ensures base + EntrySize * m + EntrySize <= |buf|
  {
    if m < top {
      ProbeIn(buf, base, top - 1, m);
    } else {
      assert l == top;
      ProbeIn(buf, base, top, m);
    }
  }

  /** Under the sort order of the first `n` entries, any entry holding `ip`
      lies in the window `l .. h`. */
  ghost predicate Window(buf: seq<byte>, base: nat, n: nat, ip: u32, l: int, h: int)
  {
    Sorted(buf, base, n) ==> forall k :: 0 <= k < n && Covers(Probe(buf, base, k), ip) ==> l <= k <= h
  }

  /** A key below the midpoint entry's range lies left of the midpoint. */
  lemma NarrowHigh(buf: seq<byte>, base: nat, n: nat, ip: u32, l: int, h: int, m: nat)
    requires Window(buf, base, n, ip, l, h) && l <= m <= h
    requires base + EntrySize * m + EntrySize <= |buf| && ip < Probe(buf, base, m).startIp
    ensures Window(buf, base, n, ip, l, m - 1)
  {
    if Sorted(buf, base, n) && m < n {
      NoneAbove(buf, base, n, m, ip);
    }
  }

  /** A key above the midpoint entry's range lies right of the midpoint. */
  lemma NarrowLow(buf: seq<byte>, base: nat, n: nat, ip: u32, l: int, h: int, m: nat)
    requires Window(buf, base, n, ip, l, h) && m == (l + h) / 2 && 0 <= l <= h <= n
    requires base + EntrySize * m + EntrySize <= |buf| && ip > Probe(buf, base, m).endIp
    ensures Window(buf, base, n, ip, m + 1, h)
  {
    if Sorted(buf, base, n) && m < n {
      NoneBelow(buf, base, n, m, ip);
    }
  }

  /** A key inside the midpoint entry's range is held by no other entry. */
  lemma Pinned(buf: seq<byte>, base: nat, n: nat, ip: u32, l: int, h: int, m: nat)
    requires Window(buf, base, n, ip, l, h) && m == (l + h) / 2 && 0 <= l <= h <= n
    requires base + EntrySize * m + EntrySize <= |buf| && Covers(Probe(buf, base, m), ip)
    ensures Sorted(buf, base, n) ==>
      forall k :: 0 <= k < n && Covers(Probe(buf, base, k), ip) ==> Probe(buf, base, k) == Probe(buf, base, m)
  {
    if Sorted(buf, base, n) {
      forall k | 0 <= k < n && Covers(Probe(buf, base, k), ip)
        ensures Probe(buf, base, k) == Probe(buf, base, m)
      {
        if m < n {
          SortedCoverUnique(buf, base, n, ip, k, m);
        }
      }
    }
  }

  /** The first `m` of `n` sorted entries are sorted. */
  lemma SortedPrefix(buf: seq<byte>, base: nat, n: nat, m: nat)
    requires Sorted(buf, base, n) && m <= n
    ensures Sorted(buf, base, m)
  {
  }

  /** Over sorted entries `0 .. top`, the two completeness guarantees of the
      search (for the entries before `top`, and for entry `top` once the key
      has passed entry `top - 1`) together cover every entry holding the key. */
  lemma SearchComplete(buf: seq<byte>, base: nat, top: nat, ip: u32, dataPtr: u32)
    requires Sorted(buf, base, top + 1)
    requires forall k :: 0 <= k < top && Sorted(buf, base, top) && Covers(Probe(buf, base, k), ip) ==>
      dataPtr == Probe(buf, base, k).dataPtr
    requires ReachesTop(buf, base, top, ip) && Sorted(buf, base, top) && Covers(Probe(buf, base, top), ip) ==>
      dataPtr == Probe(buf, base, top).dataPtr
    ensures forall k :: 0 <= k <= top && Covers(Probe(buf, base, k), ip) ==> dataPtr == Probe(buf, base, k).dataPtr
  {
    SortedPrefix(buf, base, top + 1, top);
    if top > 0 && Covers(Probe(buf, base, top), ip) {
      assert Probe(buf, base, top - 1).endIp < Probe(buf, base, top).startIp;
    }
  }

  /**
    The binary search over 12-byte entries shared by `memorySearch` (base
    `firstIndexPtr`, top `totalBlocks`) and the second stage of `btreeSearch`
    (base 0 in the block read, top `blockLen / 12`). The result is the data
    pointer of the matching entry, 0 when the loop exhausts.
   */
  method SearchIndex(buf: seq<byte>, base: nat, top: int, ip: u32) returns (dataPtr: u32)
    requires SearchReadable(buf, base, top, ip)
    ensures dataPtr != 0 ==>
      exists k :: InReach(buf, base, top, ip, k) && Covers(Probe(buf, base, k), ip) && Probe(buf, base, k).dataPtr == dataPtr
    ensures forall k :: 0 <= k < top && Sorted(buf, base, top) && Covers(Probe(buf, base, k), ip) ==>
      dataPtr == Probe(buf, base, k).dataPtr
    ensures top >= 0 && ReachesTop(buf, base, top, ip) && Sorted(buf, base, top) && Covers(Probe(buf, base, top), ip) ==>
      dataPtr == Probe(buf, base, top).dataPtr
  {
    var l := 0;
    var h := top;
    dataPtr := 0;
    ghost var past := PastTop(buf, base, top, ip);
    while l <= h
      invariant 0 <= l && h <= top
      invariant 0 < l <= top ==> ip > Probe(buf, base, l - 1).endIp
      invariant dataPtr == 0
      invariant past ==> l <= top <= h
      invariant top >= 0 ==> Window(buf, base, top, ip, l, h)
      decreases h - l
    {
      var m := (l + h) / 2;
      MidInReach(buf, base, top, ip, l, h, m);
      // `memorySearch` and `btreeSearch` read the three words of entry `m`
      // one at a time, the end ip only once the start ip is passed; reading
      // a buffer has no effect, so reading the whole entry up front is the same
      var e := Probe(buf, base, m);
      if past {
        PastTopMid(buf, base, top, ip, l, h, m);
      }
      if ip < e.startIp {
        NarrowHigh(buf, base, top, ip, l, h, m);
        h := m - 1;
      } else if ip > e.endIp {
        NarrowLow(buf, base, top, ip, l, h, m);
        l := m + 1;
      } else {
        dataPtr := e.dataPtr;
        Pinned(buf, base, top, ip, l, h, m);
        break;
      }
    }
  }
}
