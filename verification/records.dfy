/**
  Data pointers and data records. A data pointer packs the record length into
  its top byte and the record's absolute file offset into the low 24 bits; a
  record is a little-endian city id followed by the region text.
 */
module Records {
  import opened Bytes

  const OffsetLimit: int := 0x100_0000

  datatype Pointer = Pointer(length: byte, offset: nat)

  /** `$dataLen = ($dataPtr >> 24) & 0xFF; $dataPtr = $dataPtr & 0x00FFFFFF`. */
  function DecodePointer(w: u32): (p: Pointer)
    ensures p.offset < OffsetLimit
    ensures p.length * OffsetLimit + p.offset == w
  {
    Pointer((w / OffsetLimit) % 0x100, w % OffsetLimit)
  }

  /** The writer's side: length in the top byte, offset below it. */
  function EncodePointer(length: byte, offset: nat): (w: u32)
    requires offset < OffsetLimit
    ensures w / OffsetLimit == length && w % OffsetLimit == offset
  {
    length * OffsetLimit + offset
  }

  lemma DecodeEncodePointer(length: byte, offset: nat)
    requires offset < OffsetLimit
    ensures DecodePointer(EncodePointer(length, offset)) == Pointer(length, offset)
  {
  }

  lemma EncodeDecodePointer(w: u32)
    ensures EncodePointer(DecodePointer(w).length, DecodePointer(w).offset) == w
  {
  }

  /** What a successful lookup returns: `['city_id' => ..., 'region' => ...]`. */
  datatype Record = Record(cityId: u32, region: seq<byte>)

  /** The outcome of a lookup: the record, or the `false` of `memorySearch` and `btreeSearch`. */
  datatype Lookup = NotFound | Found(record: Record)

  /** `memorySearch` may read the city id of a record: its four bytes lie in the image. */
  predicate CityIdReadable(db: seq<byte>, w: u32)
  {
    w == 0 || DecodePointer(w).offset + 4 <= |db|
  }

  /** A record that occupies exactly the `length` bytes its pointer announces,
      at least the four of its city id, inside the image. */
  predicate RecordInImage(db: seq<byte>, w: u32)
  {
    var p := DecodePointer(w);
    w == 0 || (p.length >= 4 && p.offset + p.length <= |db|)
  }

  /** Memory mode: the city id at the offset and
      `substr($db, $offset + 4, $dataLen - 4)` as the region. */
  function MemoryRecord(db: seq<byte>, w: u32): (r: Record)
    requires w != 0 && CityIdReadable(db, w)
    ensures RecordInImage(db, w) ==> r == StoredRecord(db, w)
    ensures |r.region| <= |db| - DecodePointer(w).offset - 4
  {
    var p := DecodePointer(w);
    Record(GetLong(db, p.offset), Substr(db, p.offset + 4, p.length - 4))
  }

  /** Disk mode: the `$dataLen` bytes read at the offset, split into the city id
      and everything after it (`substr($data, 4)`). */
  function DiskRecord(data: seq<byte>): (r: Record)
    requires |data| >= 4
    ensures EncodeRecord(r) == data
  {
    PutGetLong(data, 0);
    Record(GetLong(data, 0), data[4..])
  }

  /** The disk read of a record pointer is long enough to hold its city id. */
  predicate DiskReadable(db: seq<byte>, w: u32)
  {
    var p := DecodePointer(w);
    w == 0 || (p.length >= 4 && p.offset + 4 <= |db|)
  }

  function ReadRecord(db: seq<byte>, w: u32): (data: seq<byte>)
    requires w != 0 && DiskReadable(db, w)
    ensures |data| >= 4
    ensures RecordInImage(db, w) ==>
      data == db[DecodePointer(w).offset..DecodePointer(w).offset + DecodePointer(w).length]
  {
    var p := DecodePointer(w);
    Read(db, p.offset, p.length)
  }

  /** The record bytes of the writer: city id then region text. */
  function EncodeRecord(r: Record): (bs: seq<byte>)
    ensures |bs| == 4 + |r.region|
  {
    PutLong(r.cityId) + r.region
  }

  /** The record a well-formed pointer addresses: the city id at its offset and
      the `length - 4` region bytes that follow. */
  function StoredRecord(db: seq<byte>, w: u32): (r: Record)
    requires w != 0 && RecordInImage(db, w)
    ensures |r.region| == DecodePointer(w).length - 4
  {
    var p := DecodePointer(w);
    Record(GetLong(db, p.offset), db[p.offset + 4..p.offset + p.length])
  }

  /** For a record lying inside the image, memory mode and disk mode both
      decode the stored record. */
  lemma RecordModesAgree(db: seq<byte>, w: u32)
    requires w != 0 && RecordInImage(db, w)
    ensures DiskReadable(db, w) && CityIdReadable(db, w)
    ensures MemoryRecord(db, w) == StoredRecord(db, w)
    ensures DiskRecord(ReadRecord(db, w)) == StoredRecord(db, w)
  {
    var p := DecodePointer(w);
    var data := ReadRecord(db, w);
    assert data == db[p.offset..p.offset + p.length];
    GetLongSlice(db, p.offset, p.offset + p.length, 0);
    assert data[4..] == db[p.offset + 4..p.offset + p.length];
  }

  /** A record written at `|pre|` and addressed by the pointer encoding its
      length and offset decodes back to itself in both modes. */
  lemma RecordRoundTrip(pre: seq<byte>, r: Record, post: seq<byte>)
    requires |pre| < OffsetLimit && 4 + |r.region| < 0x100
    ensures var db := pre + EncodeRecord(r) + post;
            var w := EncodePointer(4 + |r.region|, |pre|);
            && w != 0 && RecordInImage(db, w) && DiskReadable(db, w) && CityIdReadable(db, w)
            && StoredRecord(db, w) == r
            && MemoryRecord(db, w) == r
            && DiskRecord(ReadRecord(db, w)) == r
  {
    var db := pre + EncodeRecord(r) + post;
    var w := EncodePointer(4 + |r.region|, |pre|);
    DecodeEncodePointer(4 + |r.region|, |pre|);
    assert db == pre + PutLong(r.cityId) + (r.region + post);
    GetPutLong(r.cityId, pre, r.region + post);
    assert db[|pre| + 4..|pre| + 4 + |r.region|] == r.region;
    RecordModesAgree(db, w);
  }
}
