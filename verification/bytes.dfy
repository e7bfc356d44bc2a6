/**
  Byte-level primitives of the ip2region database image: the little-endian
  32-bit reader `getLong`, its inverse, and the two PHP string primitives the
  lookup engine leans on (`fread` after `fseek`, and `substr`).
 */
module Bytes {

  type byte = x: int | 0 <= x < 256
  type u32 = x: int | 0 <= x < 0x1_0000_0000

  /** `getLong`: the u32 stored least-significant byte first at offset `o`.
      `getLong` ORs the shifted bytes together; the shifted bytes occupy disjoint
      bits, so the OR is the sum written here. */
  function GetLong(b: seq<byte>, o: nat): (v: u32)
    requires o + 4 <= |b|
  {
    b[o] as int + 0x100 * b[o + 1] as int + 0x1_0000 * b[o + 2] as int + 0x100_0000 * b[o + 3] as int
  }

  /** The four bytes that store `v` little-endian (the database writer's side). */
  function PutLong(v: u32): (bs: seq<byte>)
    ensures |bs| == 4
  {
    var q1 := v / 0x100;
    var q2 := q1 / 0x100;
    [v % 0x100, q1 % 0x100, q2 % 0x100, q2 / 0x100]
  }

  /** Splitting `x` into its low byte and the rest. */
  lemma ByteSplit(x: int, lo: int, hi: int)
    requires 0 <= lo < 0x100 && x == lo + 0x100 * hi
    ensures x % 0x100 == lo && x / 0x100 == hi
  {
  }

  lemma GetPutLong(v: u32, pre: seq<byte>, post: seq<byte>)
    ensures GetLong(pre + PutLong(v) + post, |pre|) == v
  {
    var b := pre + PutLong(v) + post;
    var o := |pre|;
    var q1 := v / 0x100;
    var q2 := q1 / 0x100;
    var q3 := q2 / 0x100;
    ByteSplit(v, v % 0x100, q1);
    ByteSplit(q1, q1 % 0x100, q2);
    ByteSplit(q2, q2 % 0x100, q3);
    assert b[o] == v % 0x100 && b[o + 1] == q1 % 0x100;
    assert b[o + 2] == q2 % 0x100 && b[o + 3] == q3;
  }

  lemma PutGetLong(b: seq<byte>, o: nat)
    requires o + 4 <= |b|
    ensures PutLong(GetLong(b, o)) == b[o..o + 4]
  {
    var v := GetLong(b, o);
    var r2: int := b[o + 2] as int + 0x100 * b[o + 3] as int;
    var r: int := b[o + 1] as int + 0x100 * r2;
    ByteSplit(v, b[o], r);
    ByteSplit(r, b[o + 1], r2);
    ByteSplit(r2, b[o + 2], b[o + 3]);
  }

  /** Reading inside a slice is reading the whole image at the shifted offset. */
  lemma GetLongSlice(b: seq<byte>, lo: nat, hi: nat, o: nat)
    requires lo <= hi <= |b| && o + 4 <= hi - lo
    ensures GetLong(b[lo..hi], o) == GetLong(b, lo + o)
  {
    assert b[lo..hi][o] == b[lo + o];
    assert b[lo..hi][o + 1] == b[lo + o + 1];
    assert b[lo..hi][o + 2] == b[lo + o + 2];
    assert b[lo..hi][o + 3] == b[lo + o + 3];
  }

  function Min(a: int, b: int): int { if a <= b then a else b }

  /** `fseek(h, off); fread(h, n)` on a file whose bytes are `db`: at most `n`
      bytes, fewer when the file ends first, none when `off` is past the end.
      PHP rejects a non-positive length, hence the precondition. */
  function Read(db: seq<byte>, off: nat, n: int): (r: seq<byte>)
    requires n > 0
    ensures |r| <= n
    ensures off + n <= |db| ==> r == db[off..off + n]
    ensures |r| == if off >= |db| then 0 else Min(n, |db| - off)
    ensures forall i :: 0 <= i < |r| ==> off + i < |db| && r[i] == db[off + i]
  {
    var lo := Min(off, |db|);
    db[lo..Min(off + n, |db|)]
  }

  /** PHP 8 `substr(s, start, length)` for a start inside the string: a
      non-negative length takes at most that many bytes; a negative length
      drops that many bytes from the end, leaving nothing when the cut falls
      at or before `start`. */
  function Substr(s: seq<byte>, start: nat, length: int): (r: seq<byte>)
    requires start <= |s|
    ensures length >= 0 && start + length <= |s| ==> r == s[start..start + length]
    ensures length >= 0 && start + length > |s| ==> r == s[start..]
    ensures length < 0 ==> |r| == if |s| + length <= start then 0 else |s| + length - start
    ensures r <= s[start..]
  {
    if length >= 0 then s[start..Min(start + length, |s|)]
    else if |s| + length <= start then []
    else s[start..|s| + length]
  }
}
