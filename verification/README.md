# ip2region lookup, modelled in Dafny

This project models the lookup engine of a PHP package that maps an IPv4
address to a location. The address is looked up in an ip2region database
file. The model also covers the two thin layers that turn a lookup into a
`nation / province / city` answer.

## The database image (`Ip2Region`)

- An 8-byte header holds `firstIndexPtr` and `lastIndexPtr`.
- A header block of up to 1024 `(startIp, blockPtr)` pairs follows at offset 8.
- The super-index is a run of 12-byte entries `(startIp, endIp, dataPtr)`.
- A data pointer packs the record length into its top byte and the record's
  offset into its low 24 bits.
- A record is a little-endian city id followed by the `|`-separated region
  text.

## The two lookup strategies

- `memorySearch` binary-searches the whole super-index in a loaded image.
- `btreeSearch` works from the file:
  1. it parses the header block;
  2. a coarse binary search over the header block picks a pair of adjacent
     block pointers;
  3. it reads the slice between them and binary-searches it;
  4. it reads the record.

## Reply layers (`IpLocation`, `IpCity`)

- `IpLocation::getipLocation` and `IpCity::getIpCity` answer the two
  loopback addresses with fixed labels.
- Otherwise they consult a cache, run `memorySearch` as written, and split the
  region text on `|`. Fields 1, 2 and 3 become the location; a falsy field
  becomes `''`.

## Modules

- `Bytes` — `getLong`, `fread`, `substr`.
- `Records` — data pointers and records.
- `Index` — the 12-byte entries, their sort order, a reference scan, and the
  binary search that both strategies share.
- `Database` — the header, the reference meaning of a lookup, and memory
  mode.
- `HeaderBlock` — header-block parsing and the coarse search.
- `BTree` — disk mode and the agreement of the two strategies.
- `Region` — `getIp`, the reserved labels, `explode` and the field split.
- `Cache` — the cache write a lookup asks for.
- `IpLocation`, `IpCity` — the two reply methods.

## Modelling choices

The file, the cache and the client request are inputs:

- a lookup receives the database as a byte sequence `db`;
- it receives the cache entry for its key (`None` on a miss);
- it receives the `ip2long` value of the address as `key`.

A lookup returns the cache write it requests instead of performing it.

The reference meaning of a lookup is `Database.Reference`. It is a plain
scan for the first entry whose range holds the key, followed by a decode of
that entry's record. The searches are proved against it.

Behaviour of the code that the model keeps as written:

- The code treats a lookup as failed when the whole 32-bit data pointer is 0
  (`if ($dataPtr == 0)`, Ip2Region.php:145 and :292). It does not test the
  decoded offset.
- The code raises no error for a record shorter than four bytes or one
  past the end of the file. The model states these as well-formedness
  conditions instead (`RecordInImage`, `DiskReadable`).
- `getIpCity` never writes the cache: it returns before its `Cache::set`.
  It also does not test the search result, so a failed search passes
  `null` to `explode`. Under `strict_types` that is a `TypeError`, modelled
  as the reply `Fault`.

## Model

| member | source | states |
|---|---|---|
| `Bytes.GetPutLong` | src/Ip2Region.php:67-81 | `getLong` reads back the u32 the writer stored little-endian at that offset, whatever surrounds it |
| `Bytes.PutGetLong` | src/Ip2Region.php:67-74 | the four bytes at an offset are exactly the little-endian encoding of the value `getLong` reads there |
| `Bytes.GetLongSlice` | src/Ip2Region.php:268-277 | reading a word of a slice read at `s` is reading the image at `s` plus the offset |
| `Bytes.Read` | src/Ip2Region.php:268-269 | `fseek` + `fread(n)` yields `n` bytes, or as many as remain after the offset when fewer do, and none past the end; exactly `db[off..off+n]` when the file is long enough; every byte is the file's byte at the same position |
| `Bytes.Substr` | src/Ip2Region.php:153 | PHP 8 `substr`: a non-negative length within the string takes that slice, and one reaching past the end takes the whole tail; a negative length drops bytes from the end, down to empty; the result is always a prefix of the tail |
| `Records.DecodePointer` | src/Ip2Region.php:148-149 | the decoded offset is below 2^24, and length * 2^24 + offset rebuilds the pointer |
| `Records.DecodeEncodePointer` | src/Ip2Region.php:295-296 | decoding a pointer built from a length byte and a 24-bit offset gives them back |
| `Records.EncodeDecodePointer` | src/Ip2Region.php:295-296 | re-encoding a decoded pointer gives the pointer back, so no bits are lost |
| `Records.MemoryRecord` | src/Ip2Region.php:147-154 | the memory-mode decode (`getLong` at the offset, `substr(.., offset + 4, len - 4)`) yields the stored record when the record lies in the image, and its region never reaches past the end of the image |
| `Records.ReadRecord` | src/Ip2Region.php:294-299 | the disk read of a record pointer has at least the four city-id bytes, and is exactly the `len` bytes at the decoded offset when the record lies in the file |
| `Records.DiskRecord` | src/Ip2Region.php:301-304 | the disk-mode decode (`getLong($data, 0)`, `substr($data, 4)`) splits the bytes read without losing any: re-encoding the record gives those bytes back |
| `Records.RecordModesAgree` | src/Ip2Region.php:151-154 | for a record inside the image, the memory-mode decode (`getLong` + `substr(.., len - 4)`) and the disk-mode decode (`fread` + `substr(.., 4)`) both yield the stored record |
| `Records.RecordRoundTrip` | src/Ip2Region.php:298-304 | a record written at an offset and addressed by its encoded pointer decodes back to itself in both modes |
| `Database.DecodeHeader` | src/Ip2Region.php:107-109 | for a header whose pointers span a whole number of entries, `totalBlocks` >= 1 and the last entry sits at `firstIndexPtr + 12 * (totalBlocks - 1)`; reversed pointers give no entries |
| `Database.HeaderRoundTrip` | src/Ip2Region.php:107-108 | a header written from two pointers decodes back to those pointers |
| `Index.AdjacentSortedIsSorted` | src/Ip2Region.php:127-142 | entries that ascend neighbour by neighbour ascend pairwise, the order the binary search relies on |
| `Index.CoveringFindsCover` | src/Ip2Region.php:127-142 | under the sort order, the reference scan finds exactly the entry whose range holds the key |
| `Index.ProbeEncoding` | src/Ip2Region.php:129-138 | the entry read at `base + 12 * m` (start ip, end ip, data pointer, by `getLong` at `p`, `p + 4`, `p + 8`) is exactly what the twelve bytes there encode |
| `Index.EntryRoundTrip` | src/Ip2Region.php:276-285 | an entry written at any offset is read back unchanged |
| `Index.SearchIndex` | src/Ip2Region.php:124-142 | needs only the probes the search can make: entries `0 .. top - 1`, and entry `top` once the key lies above entry `top - 1`; a non-zero result is the data pointer of such a probe holding the key; on sorted entries, any entry before `top` holding the key yields its pointer, and so does entry `top` when the search reaches it and it holds the key |
| `Database.MemoryResult` | src/Ip2Region.php:145-154 | the lookup fails exactly when the whole data pointer is 0; otherwise it is the stored record whenever that record lies in the image |
| `Database.MemorySearch` | src/Ip2Region.php:121-154 | as written (`h = totalBlocks`), needing only the reads it makes for this key: a found record belongs to a real entry holding the key, or, only when the key lies above the last entry, to the twelve bytes after it; on sorted entries it is that entry's record; on a well-formed image it is the reference lookup unless that extra probe holds the key |
| `Database.WellFormedReadable` | src/Ip2Region.php:127-136 | on a well-formed image, a key no greater than the last entry's end ip never makes the search read past the last entry |
| `Database.StrayPointerSearch` | src/Ip2Region.php:124-154 | the search reads the city id of the matching entry's record only: on an image whose other entry points past the end of the file, key 3 needs only bytes of the image and yields city 9 |
| `Database.FullRangeSearch` | src/Ip2Region.php:121-154 | on a well-formed image that ends at its one entry, covering every key, every key can be looked up and yields that entry's record, the reference lookup |
| `Database.OvershootExample` | src/Ip2Region.php:125 | on a well-formed one-entry image where key 15 lies in no entry, `memorySearch` as written returns the record of the bytes past the last entry; the corrected search returns not found |
| `Database.MemorySearchCorrected` | src/Ip2Region.php:124-154 | with `h = totalBlocks - 1`: a found record belongs to a real entry holding the key; on a well-formed image the result is the reference lookup, both found and not found |
| `Database.WellFormedIsReadable` | src/Ip2Region.php:129-152 | every read the corrected memory search makes on a well-formed image lies inside it |
| `HeaderBlock.ReadHeaderBlock` | src/Ip2Region.php:196-197 | the header block read is the 8192 bytes at offset 8, or all the bytes after offset 8 when the file is shorter, each the file's byte at the same position |
| `HeaderBlock.HeaderLen` | src/Ip2Region.php:200-213 | `headerLen` is at most 1024, every entry it counts has a non-zero block pointer, and the entry after the last one counted, when read, has pointer 0 |
| `HeaderBlock.HeaderLenFrom` | src/Ip2Region.php:203-206 | the parse counts consecutive entries with a non-zero pointer, at most 1024, and stops at a zero pointer when it does not take all 1024 |
| `HeaderBlock.ParseHeader` | src/Ip2Region.php:196-213 | the parse loop fills the two arrays with exactly the header's start ips and block pointers up to the first zero pointer or 1024 entries |
| `HeaderBlock.CoarseSearch` | src/Ip2Region.php:216-264 | the pair is `(0, 0)` or the pointers of adjacent header entries `k, k+1` whose start ips bracket the key; when the start ips ascend, it is always such a pair |
| `BTree.HeaderSipsAscend` | src/Ip2Region.php:238-258 | in a well-formed image the header's start ips ascend, which lets the coarse search always find a pair |
| `BTree.LocateBlock` | src/Ip2Region.php:186-264 | reading and parsing the header block, then the coarse search, yields a bracketing pair of adjacent block pointers, always one on a well-formed image |
| `BTree.SearchBlock` | src/Ip2Region.php:266-289 | the fine search over the slice `s .. e + 12` returns the pointer of an entry of that run holding the key; on a sorted run it returns the pointer of any such entry |
| `BTree.CoverInRun` | src/Ip2Region.php:238-258 | every entry holding the key lies between the two super-index entries the bracketing header pair points to |
| `BTree.DiskAgrees` | src/Ip2Region.php:266-304 | on a well-formed image, the fine search over the run picked by the coarse search, followed by the disk read, is the reference lookup |
| `BTree.DiskResult` | src/Ip2Region.php:291-304 | the lookup fails exactly when the whole data pointer is 0; otherwise the record re-encodes to the bytes read, and is the stored record whenever it lies in the file |
| `BTree.BtreeSearch` | src/Ip2Region.php:182-305 | a found record is the disk read of entry `j <= (e - s) / 12` of the run between the block pointers `s, e` of adjacent header entries whose start ips bracket the key, an entry holding the key; on a well-formed image the result is the reference lookup |
| `BTree.CompareStrategies` | src/Ip2Region.php:84-90 | on a well-formed image the corrected memory search and disk mode return the same answer, the reference lookup |
| `BTree.CompareAsWritten` | src/Ip2Region.php:84-90 | on a well-formed image, disk mode as written returns the reference lookup, and `memorySearch` as written returns the same answer unless the key lies above the last entry and the twelve bytes after it, read as an entry, hold it; then disk mode finds nothing and memory mode returns the record those bytes point to |
| `Region.GetIp` | src/IpLocation.php:23-28 | `::1` is reported as `127.0.0.1`; every other address is unchanged; the result is never `::1` |
| `Region.ReservedLocation` | src/IpLocation.php:37-38 | `::1` and `127.0.0.1` get the reserved and local labels in the city field, with empty nation and province; no other address is reserved |
| `Region.Split` | src/IpLocation.php:49 | `explode` on the pipe character yields at least one piece, and no piece contains a pipe |
| `Region.JoinSplit` | src/IpLocation.php:49 | joining the pieces of `explode` with pipes rebuilds the region text |
| `Region.SplitJoin` | src/IpLocation.php:49 | exploding pipe-free fields joined with pipes gives the fields back |
| `Region.Field` | src/IpLocation.php:51-53 | a field is the element when it exists and is truthy, and `''` otherwise |
| `Region.LocationOf` | src/IpLocation.php:49-53 | each location field is pipe-free and is either truthy or `''` |
| `Region.LocationOfFields` | src/IpLocation.php:49-53 | for region text written as pipe-joined fields, the location holds fields 1, 2 and 3, each `''` when missing or falsy |
| `Region.FirstFieldIgnored` | src/IpLocation.php:51-53 | field 0 of the region text never appears in the location |
| `IpLocation.CacheKey` | src/IpLocation.php:40 | the cache key is the 11-character prefix `ipLocation_` followed by the address |
| `IpLocation.ReplyOf` | src/IpLocation.php:47-56 | `[]` exactly when the search failed; otherwise the location of the record's region text |
| `IpLocation.GetIpLocation` | src/IpLocation.php:35-57 | reserved answers and cache hits come first and write nothing; a miss writes the cache, for an hour, exactly when `memorySearch` found a record; any location it returns is that of the record of a real entry holding the key, or of the twelve bytes after the last entry when the search overshoots; the reply is that of the record of any sorted entry holding the key, and of the twelve bytes after the last entry when the key lies above it and they hold it; on a well-formed image it is the reply for the reference lookup unless that extra probe holds the key; never a fault |
| `IpLocation.OvershootReply` | src/IpLocation.php:43-56 | on the one-entry image where key 15 lies in no entry, the phantom entry read by `memorySearch` as written reaches the reply: a location is returned and cached for an hour instead of `[]` |
| `IpCity.CacheKey` | src/IpCity.php:42 | the cache key is the 7-character prefix `ipCity_` followed by the address |
| `IpCity.ReplyOf` | src/IpCity.php:46-55 | a fault exactly when the search failed; otherwise the location of the record's region text |
| `IpCity.GetIpCity` | src/IpCity.php:37-60 | reserved answers and cache hits come first; the cache is never written; any location it returns is that of the record of a real entry holding the key, or of the twelve bytes after the last entry when the search overshoots; the reply is that of the record of any sorted entry holding the key, and of the twelve bytes after the last entry when the key lies above it and they hold it; on a well-formed image it is the reply for the reference lookup, a fault when that lookup finds nothing, unless the probe after the last entry holds the key; never `[]` |

## Left out

- File and cache I/O: `file_get_contents`, `fopen`/`fseek`/`fread`, `fclose` in the destructor, and the `HttpException` when the file cannot be opened. The database is an immutable byte sequence.
- The process-wide cache of the loaded image (`Cache::get`/`Cache::set('Ip2Region', .., 86400)`): it only avoids reloading the same bytes.
- Expiry of cache entries: the store is outside the model. A lookup sees the entry under its key and returns the write it requests.
- `ip2long`/`safeIp2long` and the `is_string` conversions: the u32 key is a parameter. An address `ip2long` rejects has no key here.
- The 32-bit-host branches of `getLong` and `safeIp2long` (`sprintf("%u", ..)`): a 64-bit PHP integer is assumed, where both branches are dead.
- The lazily filled object state of `btreeSearch` (`HeaderSip`, `HeaderPtr`, `headerLen`, the file handle) and the thread-safety notes. The header is parsed on each call, which reads the same bytes.
- The HTTP-backed lookups (`getipLocationByAMap`, `getipLocationByIpip`, `getipLocationByTencent`, the `getIpCityBy*` variants) and `curl`: they depend on remote services.
- `config.php` and `function.php`: configuration and helpers outside the lookup path.
- Class resolution of `new Ip2Region()` in IpLocation.php. Its namespace differs from the one Ip2Region.php declares. The model assumes the call reaches that class.
- Database.MemorySearch: requires every read it makes for the key to lie inside the image (`MemoryReadable`): the real entries, the city id of the record of each entry holding the key (the search reads only that of the one it matches, so where several entries hold the key the others' city ids are required too), and the twelve bytes after the last entry only for a key above it. PHP's out-of-range string offsets, which warn and read `''`, are not modelled. An entry the search reaches is required whole, although the code reads its end ip only once the key is not below its start ip.
- BTree.BtreeSearch: requires the header to have at least two entries, every slice between adjacent header pointers to be readable, and every record an entry of such a slice points to to be at least four bytes long and to lie in the file (`BtreeReadable`, `BlockReadable`), not only the record of the matching entry. With fewer entries PHP reads a missing array element as `null`; that path is not modelled.
- Bytes.Read: requires a positive length, since PHP's `fread` rejects a length of 0. A well-formed record has a length of at least 4.
- Records.MemoryRecord: the region length `dataLen - 4` is taken as `memorySearch` computes it. For a record shorter than four bytes, `substr($db, off + 4, dataLen - 4)` takes the image from `off + 4` up to `4 - dataLen` bytes before its end, nearly the rest of the file, rather than raising an error.
- IpLocation.GetIpLocation: the reply is promised to be the reference lookup's only when the probe after the last entry does not hold the key, because it calls `memorySearch` as written (see Findings).
- IpCity.GetIpCity: the same restriction, for the same reason.
- The searches' completeness claims assume sorted entries. On an unsorted image only soundness is stated: a found record belongs to an entry holding the key.
- Byte strings are raw bytes, with no encoding. PHP's truthiness is modelled for strings only: `''` and `'0'` are falsy.

## Findings

| source | as written | input that shows it | evidently intended | confidence | as-written member | corrected member |
|---|---|---|---|---|---|---|
| src/Ip2Region.php:125 | `$h = $this->totalBlocks`, so the search may probe entry `totalBlocks`, one past the entry at `lastIndexPtr` | the 36-byte image `OvershootImage` with one entry [0, 5] (`firstIndexPtr == lastIndexPtr == 8`) and key 15: the bytes after the entry read as [10, 20] with a pointer to a record of city id 7, which is returned | `$h = $this->totalBlocks - 1`, probing only entries `0 .. totalBlocks - 1` (btreeSearch's `blockLen / 12` counts its entries from 0 in the same way) | not executed | `Database.MemorySearch` (exhibited by `Database.OvershootExample`, and through the reply by `IpLocation.OvershootReply`) | `Database.MemorySearchCorrected` |
