/**
  Post-processing shared by `IpLocation` and `IpCity`: the client address
  normalisation `getIp`, the two reserved-address answers, and the split of
  a record's region text on `|` into `{nation, province, city}`.
 */
module Region {
  import opened Bytes

  datatype Option<T> = None | Some(value: T)

  /** The three-key array both classes return. */
  datatype Location = Location(nation: seq<byte>, province: seq<byte>, city: seq<byte>)

  /** What a lookup hands back: `[]`, a location, or a PHP `TypeError`. */
  datatype Reply = NoLocation | Located(loc: Location) | Fault

  const Pipe: byte := 0x7C

  /** The UTF-8 bytes of 保留地址 ("reserved address"). */
  const ReservedLabel: seq<byte> := [0xE4, 0xBF, 0x9D, 0xE7, 0x95, 0x99, 0xE5, 0x9C, 0xB0, 0xE5, 0x9D, 0x80]

  /** The UTF-8 bytes of 本机地址 ("this machine"). */
  const LocalLabel: seq<byte> := [0xE6, 0x9C, 0xAC, 0xE6, 0x9C, 0xBA, 0xE5, 0x9C, 0xB0, 0xE5, 0x9D, 0x80]

  /** `getIp`: the IPv6 loopback is reported as the IPv4 one, every other
      address as it came in. */
  function GetIp(requestIp: string): (ip: string)
    ensures ip != "::1"
    ensures requestIp == "::1" ==> ip == "127.0.0.1"
    ensures requestIp != "::1" ==> ip == requestIp
  {
    if requestIp == "::1" then "127.0.0.1" else requestIp
  }

  /** The answer both lookups give, before any cache read or search, for the
      two loopback addresses; `None` for every other address. */
  function ReservedLocation(ip: string): (r: Option<Location>)
    ensures ip == "::1" ==> r == Some(Location([], [], ReservedLabel))
    ensures ip == "127.0.0.1" ==> r == Some(Location([], [], LocalLabel))
    ensures r.Some? <==> ip == "::1" || ip == "127.0.0.1"
  {
    if ip == "::1" then Some(Location([], [], ReservedLabel))
    else if ip == "127.0.0.1" then Some(Location([], [], LocalLabel))
    else None
  }

  /** `explode('|', s)`: the pieces between pipes, at least one. */
  function Split(s: seq<byte>): (parts: seq<seq<byte>>)
    ensures |parts| >= 1
    ensures forall i :: 0 <= i < |parts| ==> Pipe !in parts[i]
    decreases |s|
  {
    if |s| == 0 then [[]]
    else
      var rest := Split(s[1..]);
      if s[0] == Pipe then [[]] + rest
      else [[s[0]] + rest[0]] + rest[1..]
  }

  /** `implode('|', parts)`, the writer's side of the region text. */
  function Join(parts: seq<seq<byte>>): seq<byte>
    requires |parts| >= 1
    decreases |parts|
  {
    if |parts| == 1 then parts[0] else parts[0] + [Pipe] + Join(parts[1..])
  }

  lemma {:induction false} JoinConsHead(c: byte, r: seq<seq<byte>>)
    requires |r| >= 1
    ensures Join([[c] + r[0]] + r[1..]) == [c] + Join(r)
  {
    var ps := [[c] + r[0]] + r[1..];
    if |r| > 1 {
      assert ps[1..] == r[1..];
      assert Join(ps) == [c] + r[0] + [Pipe] + Join(r[1..]);
    }
  }

  /** Joining the pieces gives back the text. */
  lemma {:induction false} JoinSplit(s: seq<byte>)
    ensures Join(Split(s)) == s
    decreases |s|
  {
    if |s| > 0 {
      JoinSplit(s[1..]);
      var rest := Split(s[1..]);
      if s[0] == Pipe {
        assert ([[]] + rest)[1..] == rest;
      } else {
        JoinConsHead(s[0], rest);
      }
      assert s == [s[0]] + s[1..];
    }
  }

  lemma {:induction false} SplitPipeFree(p: seq<byte>)
    requires Pipe !in p
    ensures Split(p) == [p]
    decreases |p|
  {
    if |p| > 0 {
      SplitPipeFree(p[1..]);
      assert [p[0]] + p[1..] == p;
    }
  }

  lemma {:induction false} SplitAfterPiece(p: seq<byte>, s: seq<byte>)
    requires Pipe !in p
    ensures Split(p + [Pipe] + s) == [p] + Split(s)
    decreases |p|
  {
    var x := p + [Pipe] + s;
    if |p| == 0 {
      assert x[1..] == s;
    } else {
      assert x[1..] == p[1..] + [Pipe] + s;
      SplitAfterPiece(p[1..], s);
      assert [p[0]] + p[1..] == p;
    }
  }

  /** Splitting pipe-free pieces after joining them gives back the pieces. */
  lemma {:induction false} SplitJoin(parts: seq<seq<byte>>)
    requires |parts| >= 1
    requires forall i :: 0 <= i < |parts| ==> Pipe !in parts[i]
    ensures Split(Join(parts)) == parts
    decreases |parts|
  {
    if |parts| == 1 {
      SplitPipeFree(parts[0]);
    } else {
      SplitJoin(parts[1..]);
      SplitAfterPiece(parts[0], Join(parts[1..]));
      assert [parts[0]] + parts[1..] == parts;
    }
  }

  /** PHP's truthiness of a string: all but `''` and `'0'`. */
  predicate Truthy(s: seq<byte>)
  {
    s != [] && s != [0x30]
  }

  /** `$data[i] ? $data[i] : ''`, where a missing element reads as `null`. */
  function Field(parts: seq<seq<byte>>, i: nat): (f: seq<byte>)
    ensures f == [] || (i < |parts| && f == parts[i] && Truthy(f))
    ensures i < |parts| && Truthy(parts[i]) ==> f == parts[i]
  {
    if i < |parts| && Truthy(parts[i]) then parts[i] else []
  }

  /** Region text to location: elements 1, 2 and 3 of the split; element 0
      is dropped. Each field is a pipe-free piece that is truthy, or `''`. */
  function LocationOf(region: seq<byte>): (loc: Location)
    ensures Pipe !in loc.nation && Pipe !in loc.province && Pipe !in loc.city
    ensures loc.nation == [] || Truthy(loc.nation)
    ensures loc.province == [] || Truthy(loc.province)
    ensures loc.city == [] || Truthy(loc.city)
  {
    var parts := Split(region);
    Location(Field(parts, 1), Field(parts, 2), Field(parts, 3))
  }

  /** For region text written as pipe-joined fields, the location holds
      fields 1, 2 and 3, each `''` when missing or falsy. */
  lemma LocationOfFields(fields: seq<seq<byte>>)
    requires |fields| >= 1
    requires forall i :: 0 <= i < |fields| ==> Pipe !in fields[i]
    ensures LocationOf(Join(fields)) == Location(Field(fields, 1), Field(fields, 2), Field(fields, 3))
  {
    SplitJoin(fields);
  }

  /** The first field never shows in the location: it holds the three
      fields that follow it. */
  lemma FirstFieldIgnored(x: seq<byte>, rest: seq<seq<byte>>)
    requires Pipe !in x
    requires forall i :: 0 <= i < |rest| ==> Pipe !in rest[i]
    ensures LocationOf(Join([x] + rest)) == Location(Field(rest, 0), Field(rest, 1), Field(rest, 2))
  {
    PipeFreeCons(x, rest);
    LocationOfFields([x] + rest);
    FieldShift(x, rest, 0);
    FieldShift(x, rest, 1);
    FieldShift(x, rest, 2);
  }

  lemma PipeFreeCons(x: seq<byte>, rest: seq<seq<byte>>)
    requires Pipe !in x
    requires forall i :: 0 <= i < |rest| ==> Pipe !in rest[i]
    ensures forall i :: 0 <= i < |[x] + rest| ==> Pipe !in ([x] + rest)[i]
  {
    var fields := [x] + rest;
    forall i | 0 <= i < |fields|
      ensures Pipe !in fields[i]
    {
      if i > 0 {
        assert fields[i] == rest[i - 1];
      }
    }
  }

  lemma FieldShift(x: seq<byte>, rest: seq<seq<byte>>, i: nat)
    ensures Field([x] + rest, i + 1) == Field(rest, i)
  {
    if i < |rest| {
      assert ([x] + rest)[i + 1] == rest[i];
    }
  }
}
