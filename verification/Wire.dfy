/**
 The datagrams of src/transport.c: a packed header of fourteen bytes in network order, then the
 coefficients and the payload of a shard, or the time stamp of a probe.
 */
module Wire {
  import opened LinearAlgebra
  import opened Codec
  import Gf256

  const MAGIC: nat := 0xc0de
  const VERSION: nat := 0x01
  const TYPE_DATA: nat := 0x01
  const TYPE_PROBE: nat := 0x02
  const TYPE_PROBE_ECHO: nat := 0x03
  const HDR_SIZE: nat := 14
  const BUF_SIZE: nat := HDR_SIZE + MAX_K + MAX_PAYLOAD
  const PROBE_SIZE: nat := HDR_SIZE + 8

  type Bytes = seq<bv8>

  datatype Header = Header(magic: nat, version: nat, kind: nat, blockId: nat, shardIdx: nat, k: nat, n: nat,
                           reserved: nat, payloadLen: nat)

  datatype Packet =
    | Data(hdr: Header, shard: Shard<bv8>)
    | Probe(hdr: Header, timestamp: nat)
    | ProbeEcho(hdr: Header, timestamp: nat)

  // ---------------------------------------------------------------------------------------
  // Numbers in network order.

  // A number below 256 as a byte, bit by bit.
  function ToByte(v: nat): bv8
    requires v < 0x100
  {
    if v == 0 then 0 else TwicePlus(ToByte(v / 2), v % 2 == 1)
  }

  function TwicePlus(b: bv8, odd: bool): bv8
  {
    b + b + if odd then 1 else 0
  }

  lemma TwicePlusValue(b: bv8, odd: bool)
    requires b as int < 0x80
    ensures TwicePlus(b, odd) as int == 2 * b as int + if odd then 1 else 0
  {
  }

  lemma {:induction false} ByteValue(v: nat)
    requires v < 0x100
    ensures ToByte(v) as int == v
  {
    if v > 0 {
      ByteValue(v / 2);
      TwicePlusValue(ToByte(v / 2), v % 2 == 1);
    }
  }

  lemma ByteAgain(b: bv8)
    ensures 0 <= b as int < 0x100 && ToByte(b as int) == b
  {
    ByteValue(b as int);
    Gf256.SameByte(ToByte(b as int), b);
  }

  lemma ByteRange(b: bv8)
    ensures 0 <= b as int < 0x100
  {
  }

  function Power256(n: nat): nat
  {
    if n == 0 then 1 else 0x100 * Power256(n - 1)
  }

  // The n low bytes of a number, highest first.
  function Put(v: nat, n: nat): (b: Bytes)
    ensures |b| == n
  {
    if n == 0 then [] else Put(v / 0x100, n - 1) + [ToByte(v % 0x100)]
  }

  function Get(b: Bytes): (v: nat)
  {
    if b == [] then 0
    else
      ByteRange(b[|b| - 1]);
      Get(b[..|b| - 1]) * 0x100 + b[|b| - 1] as int
  }

  lemma {:induction false} GetAfterPut(v: nat, n: nat)
    requires v < Power256(n)
    ensures Get(Put(v, n)) == v
  {
    if n > 0 {
      GetAfterPut(v / 0x100, n - 1);
      ByteValue(v % 0x100);
      assert Put(v, n)[..n - 1] == Put(v / 0x100, n - 1);
    }
  }

  lemma {:induction false} PutAfterGet(b: Bytes)
    ensures Get(b) < Power256(|b|) && Put(Get(b), |b|) == b
    decreases |b|
  {
    if b != [] {
      var high, low := b[..|b| - 1], b[|b| - 1];
      PutAfterGet(high);
      assert Get(b) / 0x100 == Get(high) && Get(b) % 0x100 == low as int;
      ByteAgain(low);
      assert b == high + [low];
    }
  }

  lemma Powers()
    ensures Power256(1) == 0x100
    ensures Power256(2) == 0x10000
    ensures Power256(4) == 0x1_0000_0000
    ensures Power256(8) == 0x1_0000_0000_0000_0000
  {
    assert Power256(3) == 0x1000000;
    assert Power256(5) == 0x100_0000_0000;
    assert Power256(6) == 0x1_0000_0000_0000;
    assert Power256(7) == 0x100_0000_0000_0000;
  }

  // ---------------------------------------------------------------------------------------
  // Headers.

  ghost predicate InRange(h: Header)
  {
    && h.magic < 0x10000 && h.version < 0x100 && h.kind < 0x100 && h.blockId < 0x1_0000_0000
    && h.shardIdx < 0x100 && h.k < 0x100 && h.n < 0x100 && h.reserved < 0x100 && h.payloadLen < 0x10000
  }

  function PutHeader(h: Header): (b: Bytes)
    ensures |b| == HDR_SIZE
  {
    PutFirst(h) + PutSecond(h) + PutThird(h)
  }

  function PutFirst(h: Header): (b: Bytes)
    ensures |b| == 4
  {
    Put(h.magic, 2) + Put(h.version, 1) + Put(h.kind, 1)
  }

  function PutSecond(h: Header): (b: Bytes)
    ensures |b| == 6
  {
    Put(h.blockId, 4) + Put(h.shardIdx, 1) + Put(h.k, 1)
  }

  function PutThird(h: Header): (b: Bytes)
    ensures |b| == 4
  {
    Put(h.n, 1) + Put(h.reserved, 1) + Put(h.payloadLen, 2)
  }

  function GetHeader(b: Bytes): (h: Header)
    requires |b| >= HDR_SIZE
  {
    GetFields(b[..4], b[4..10], b[10..14])
  }

  function GetFields(a: Bytes, b: Bytes, c: Bytes): Header
    requires |a| == 4 && |b| == 6 && |c| == 4
  {
    Header(Get(a[..2]), Get(a[2..3]), Get(a[3..]), Get(b[..4]), Get(b[4..5]), Get(b[5..]), Get(c[..1]), Get(c[1..2]), Get(c[2..]))
  }

  lemma ThreeParts(a: Bytes, b: Bytes, c: Bytes)
    ensures var s := a + b + c;
      s[..|a|] == a && s[|a|..|a| + |b|] == b && s[|a| + |b|..] == c
  {
  }

  lemma FieldsRoundTrip(h: Header)
    requires InRange(h)
    ensures GetFields(PutFirst(h), PutSecond(h), PutThird(h)) == h
  {
    Powers();
    ThreeParts(Put(h.magic, 2), Put(h.version, 1), Put(h.kind, 1));
    ThreeParts(Put(h.blockId, 4), Put(h.shardIdx, 1), Put(h.k, 1));
    ThreeParts(Put(h.n, 1), Put(h.reserved, 1), Put(h.payloadLen, 2));
    GetAfterPut(h.magic, 2);
    GetAfterPut(h.version, 1);
    GetAfterPut(h.kind, 1);
    GetAfterPut(h.blockId, 4);
    GetAfterPut(h.shardIdx, 1);
    GetAfterPut(h.k, 1);
    GetAfterPut(h.n, 1);
    GetAfterPut(h.reserved, 1);
    GetAfterPut(h.payloadLen, 2);
  }

  lemma PartsOfHeader(a: Bytes, b: Bytes, c: Bytes, rest: Bytes)
    requires |a| == 4 && |b| == 6 && |c| == 4
    ensures var s := a + b + c + rest;
      s[..4] == a && s[4..10] == b && s[10..14] == c && s[14..] == rest
  {
  }

  lemma HeaderRoundTrip(h: Header, rest: Bytes)
    requires InRange(h)
    ensures GetHeader(PutHeader(h) + rest) == h
    ensures (PutHeader(h) + rest)[HDR_SIZE..] == rest
  {
    FieldsRoundTrip(h);
    PartsOfHeader(PutFirst(h), PutSecond(h), PutThird(h), rest);
  }

  lemma ThreeAgain(a: Bytes, i: nat, j: nat)
    requires i <= j <= |a|
    ensures Put(Get(a[..i]), i) + Put(Get(a[i..j]), j - i) + Put(Get(a[j..]), |a| - j) == a
    ensures Get(a[..i]) < Power256(i) && Get(a[i..j]) < Power256(j - i) && Get(a[j..]) < Power256(|a| - j)
  {
    PutAgain(a[..i], i);
    PutAgain(a[i..j], j - i);
    PutAgain(a[j..], |a| - j);
    ThreeSplit(a, i, j);
  }

  lemma PutAgain(b: Bytes, n: nat)
    requires n == |b|
    ensures Get(b) < Power256(n) && Put(Get(b), n) == b
  {
    PutAfterGet(b);
  }

  lemma ThreeSplit(a: Bytes, i: nat, j: nat)
    requires i <= j <= |a|
    ensures a[..i] + a[i..j] + a[j..] == a
  {
  }

  lemma FieldsAgain(a: Bytes, b: Bytes, c: Bytes)
    requires |a| == 4 && |b| == 6 && |c| == 4
    ensures var h := GetFields(a, b, c); InRange(h) && PutFirst(h) == a && PutSecond(h) == b && PutThird(h) == c
  {
    Powers();
    ThreeAgain(a, 2, 3);
    ThreeAgain(b, 4, 5);
    ThreeAgain(c, 1, 2);
  }

  lemma HeaderAgain(b: Bytes)
    requires |b| >= HDR_SIZE
    ensures InRange(GetHeader(b)) && PutHeader(GetHeader(b)) == b[..HDR_SIZE]
  {
    FieldsAgain(b[..4], b[4..10], b[10..14]);
    assert b[..HDR_SIZE] == b[..4] + b[4..10] + b[10..14];
  }

  // ---------------------------------------------------------------------------------------
  // Datagrams.

  function DataHeader(blockId: nat, shardIdx: nat, k: nat, n: nat, len: nat): Header
  {
    Header(MAGIC, VERSION, TYPE_DATA, blockId, shardIdx, k, n, 0, len)
  }

  function DataBytes(blockId: nat, shardIdx: nat, k: nat, n: nat, s: Shard<bv8>): (b: Bytes)
    requires k <= |s.coeffs|
  {
    PutHeader(DataHeader(blockId, shardIdx, k, n, |s.data|)) + s.coeffs[..k] + s.data
  }

  function ProbeHeader(kind: nat): Header
  {
    Header(MAGIC, VERSION, kind, 0, 0, 0, 0, 0, 0)
  }

  function ProbeBytes(kind: nat, timestamp: nat): (b: Bytes)
  {
    PutHeader(ProbeHeader(kind)) + Put(timestamp, 8)
  }

  function Min(a: nat, b: nat): nat { if a < b then a else b }

  // What the receiver makes of a datagram.  The socket call keeps at most BUF_SIZE bytes.
  function Parse(datagram: Bytes): (r: Option<Packet>)
  {
    var b := datagram[..Min(|datagram|, BUF_SIZE)];
    if |b| < HDR_SIZE then None else ParseKept(b)
  }

  function ParseKept(b: Bytes): (r: Option<Packet>)
    requires |b| >= HDR_SIZE
  {
    var h := GetHeader(b);
    if h.magic != MAGIC then None
    else if h.kind == TYPE_DATA then ParseData(h, b)
    else if h.kind == TYPE_PROBE || h.kind == TYPE_PROBE_ECHO then
      if |b| < PROBE_SIZE then None
      else if h.kind == TYPE_PROBE then Some(Probe(h, Get(b[HDR_SIZE..PROBE_SIZE])))
      else Some(ProbeEcho(h, Get(b[HDR_SIZE..PROBE_SIZE])))
    else None
  }

  function ParseData(h: Header, b: Bytes): (r: Option<Packet>)
    requires |b| >= HDR_SIZE
  {
    if h.k > MAX_K || h.payloadLen > MAX_PAYLOAD || |b| < HDR_SIZE + h.k + h.payloadLen then None
    else Some(Data(h, Shard(b[HDR_SIZE..HDR_SIZE + h.k], b[HDR_SIZE + h.k..HDR_SIZE + h.k + h.payloadLen])))
  }

  lemma PayloadParts(hdr: Bytes, c: Bytes, d: Bytes)
    ensures var b := hdr + c + d;
      && |b| == |hdr| + |c| + |d| && b == hdr + (c + d)
      && b[|hdr|..|hdr| + |c|] == c && b[|hdr| + |c|..|hdr| + |c| + |d|] == d
  {
  }

  lemma KeptWhole(b: Bytes)
    requires |b| <= BUF_SIZE
    ensures b[..Min(|b|, BUF_SIZE)] == b
  {
  }

  lemma ParseParts(h: Header, hb: Bytes, c: Bytes, d: Bytes)
    requires |hb| == HDR_SIZE && GetHeader(hb + (c + d)) == h
    requires h.magic == MAGIC && h.kind == TYPE_DATA
    requires h.k == |c| <= MAX_K && h.payloadLen == |d| <= MAX_PAYLOAD
    ensures Parse(hb + c + d) == Some(Data(h, Shard(c, d)))
  {
    PayloadParts(hb, c, d);
    KeptWhole(hb + c + d);
  }

  // A shard that is sent arrives unchanged.
  lemma DataRoundTrip(blockId: nat, shardIdx: nat, k: nat, n: nat, s: Shard<bv8>)
    requires blockId < 0x1_0000_0000 && shardIdx < 0x100 && n < 0x100
    requires k <= MAX_K && |s.coeffs| == k && |s.data| <= MAX_PAYLOAD
    ensures Parse(DataBytes(blockId, shardIdx, k, n, s)) == Some(Data(DataHeader(blockId, shardIdx, k, n, |s.data|), s))
  {
    var h := DataHeader(blockId, shardIdx, k, n, |s.data|);
    assert s.coeffs[..k] == s.coeffs;
    HeaderRoundTrip(h, s.coeffs + s.data);
    ParseParts(h, PutHeader(h), s.coeffs, s.data);
  }

  lemma ParseProbe(h: Header, hb: Bytes, t: Bytes)
    requires |hb| == HDR_SIZE && |t| == 8 && GetHeader(hb + t) == h
    requires h.magic == MAGIC && (h.kind == TYPE_PROBE || h.kind == TYPE_PROBE_ECHO)
    ensures Parse(hb + t) == Some(if h.kind == TYPE_PROBE then Probe(h, Get(t)) else ProbeEcho(h, Get(t)))
  {
    KeptWhole(hb + t);
    assert (hb + t)[HDR_SIZE..PROBE_SIZE] == t;
  }

  // Time stamps of all 64 bits survive, in probes and in echoes.
  lemma ProbeRoundTrip(kind: nat, timestamp: nat)
    requires kind == TYPE_PROBE || kind == TYPE_PROBE_ECHO
    requires timestamp < 0x1_0000_0000_0000_0000
    ensures var h := ProbeHeader(kind);
      Parse(ProbeBytes(kind, timestamp)) == Some(if kind == TYPE_PROBE then Probe(h, timestamp) else ProbeEcho(h, timestamp))
  {
    var h := ProbeHeader(kind);
    var t := Put(timestamp, 8);
    Powers();
    GetAfterPut(timestamp, 8);
    HeaderRoundTrip(h, t);
    ParseProbe(h, PutHeader(h), t);
  }

  lemma JoinedSlices(b: Bytes, i: nat, j: nat, e: nat)
    requires i <= j <= e <= |b|
    ensures b[..i] + b[i..j] + b[j..e] == b[..e]
  {
  }

  lemma ParseIsData(datagram: Bytes, h: Header, s: Shard<bv8>)
    requires Parse(datagram) == Some(Data(h, s))
    ensures var b := datagram[..Min(|datagram|, BUF_SIZE)];
      |b| >= HDR_SIZE && h == GetHeader(b) && ParseData(h, b) == Some(Data(h, s))
  {
  }

  lemma ParsedBuffer(b: Bytes, h: Header, s: Shard<bv8>)
    requires |b| >= HDR_SIZE && ParseData(h, b) == Some(Data(h, s))
    requires PutHeader(h) == b[..HDR_SIZE]
    ensures |s.coeffs| == h.k <= MAX_K && |s.data| == h.payloadLen <= MAX_PAYLOAD
    ensures var e := HDR_SIZE + h.k + h.payloadLen; e <= |b| && PutHeader(h) + s.coeffs + s.data == b[..e]
  {
    JoinedSlices(b, HDR_SIZE, HDR_SIZE + h.k, HDR_SIZE + h.k + h.payloadLen);
  }

  // An accepted data datagram is a header followed by exactly the announced coefficients and
  // payload: nothing is read beyond what arrived, and two datagrams that differ there are never
  // taken for one another.
  lemma ParsedDataIsPrefix(datagram: Bytes, h: Header, s: Shard<bv8>)
    requires Parse(datagram) == Some(Data(h, s))
    ensures |s.coeffs| == h.k <= MAX_K && |s.data| == h.payloadLen <= MAX_PAYLOAD && InRange(h)
    ensures PutHeader(h) + s.coeffs + s.data <= datagram
  {
    var b := datagram[..Min(|datagram|, BUF_SIZE)];
    ParseIsData(datagram, h, s);
    HeaderAgain(b);
    ParsedBuffer(b, h, s);
    PrefixOfPrefix(b, datagram, HDR_SIZE + h.k + h.payloadLen);
  }

  lemma PrefixOfPrefix(b: Bytes, d: Bytes, e: nat)
    requires b <= d && e <= |b|
    ensures b[..e] <= d
  {
  }

  // ---------------------------------------------------------------------------------------
  // Every byte at its offset.

  function Value(b: Bytes, i: nat): (v: nat)
    requires i < |b|
  {
    ByteRange(b[i]);
    b[i] as int
  }

  // Two bytes in network order.
  function Value2(b: Bytes, i: nat): nat
    requires i + 1 < |b|
  {
    Value(b, i) * 0x100 + Value(b, i + 1)
  }

  function Value4(b: Bytes, i: nat): nat
    requires i + 3 < |b|
  {
    Value2(b, i) * 0x10000 + Value2(b, i + 2)
  }

  function Value8(b: Bytes, i: nat): nat
    requires i + 7 < |b|
  {
    Value4(b, i) * 0x1_0000_0000 + Value4(b, i + 4)
  }

  lemma GetOne(b: Bytes, i: nat)
    requires i < |b|
    ensures Get(b[i..i + 1]) == Value(b, i)
  {
    var c := b[i..i + 1];
    assert c[..0] == [] && Get(c[..0]) == 0 && c[0] == b[i];
  }

  lemma GetTwo(b: Bytes, i: nat)
    requires i + 1 < |b|
    ensures Get(b[i..i + 2]) == Value2(b, i)
  {
    var c := b[i..i + 2];
    assert c[..1] == b[i..i + 1] && c[1] == b[i + 1];
    GetOne(b, i);
  }

  lemma GetFour(b: Bytes, i: nat)
    requires i + 3 < |b|
    ensures Get(b[i..i + 4]) == Value4(b, i)
  {
    Powers();
    GetTwo(b, i);
    GetTwo(b, i + 2);
    GetSplit(b[i..i + 2], b[i + 2..i + 4]);
    assert b[i..i + 4] == b[i..i + 2] + b[i + 2..i + 4];
  }

  lemma GetEight(b: Bytes, i: nat)
    requires i + 7 < |b|
    ensures Get(b[i..i + 8]) == Value8(b, i)
  {
    Powers();
    GetFour(b, i);
    GetFour(b, i + 4);
    GetSplit(b[i..i + 4], b[i + 4..i + 8]);
    assert b[i..i + 8] == b[i..i + 4] + b[i + 4..i + 8];
  }

  ghost predicate HasLayout(b: Bytes, h: Header)
    requires |b| >= 14
  {
    && Value2(b, 0) == h.magic && Value(b, 2) == h.version && Value(b, 3) == h.kind
    && Value4(b, 4) == h.blockId && Value(b, 8) == h.shardIdx && Value(b, 9) == h.k
    && Value(b, 10) == h.n && Value(b, 11) == h.reserved && Value2(b, 12) == h.payloadLen
  }

  lemma SliceOfSlice(b: Bytes, i: nat, j: nat, p: nat, q: nat)
    requires i <= j <= |b| && p <= q <= j - i
    ensures b[i..j][p..q] == b[i + p..i + q]
  {
    forall r | 0 <= r < q - p
      ensures b[i..j][p..q][r] == b[i + p..i + q][r]
    {
      assert b[i..j][p + r] == b[i + p + r];
    }
  }

  lemma ThreeSlices(b: Bytes, i: nat, j: nat, p: nat, q: nat)
    requires i <= j <= |b| && p <= q <= j - i
    ensures b[i..j][..p] == b[i..i + p] && b[i..j][p..q] == b[i + p..i + q] && b[i..j][q..] == b[i + q..j]
  {
    SliceOfSlice(b, i, j, 0, p);
    SliceOfSlice(b, i, j, p, q);
    SliceOfSlice(b, i, j, q, j - i);
    assert b[i..j][..p] == b[i..j][0..p] && b[i..j][q..] == b[i..j][q..j - i];
  }

  lemma SlicesOfHeader(b: Bytes)
    requires |b| >= HDR_SIZE
    ensures b[..4][..2] == b[0..2] && b[..4][2..3] == b[2..3] && b[..4][3..] == b[3..4]
    ensures b[4..10][..4] == b[4..8] && b[4..10][4..5] == b[8..9] && b[4..10][5..] == b[9..10]
    ensures b[10..14][..1] == b[10..11] && b[10..14][1..2] == b[11..12] && b[10..14][2..] == b[12..14]
  {
    ThreeSlices(b, 0, 4, 2, 3);
    ThreeSlices(b, 4, 10, 4, 5);
    ThreeSlices(b, 10, 14, 1, 2);
    assert b[..4] == b[0..4];
  }

  // The fields that are read from a header.
  lemma FieldsAtOffsets(b: Bytes)
    requires |b| >= HDR_SIZE
    ensures HasLayout(b, GetHeader(b))
  {
    SlicesOfHeader(b);
    GetTwo(b, 0);
    GetOne(b, 2);
    GetOne(b, 3);
    GetFour(b, 4);
    GetOne(b, 8);
    GetOne(b, 9);
    GetOne(b, 10);
    GetOne(b, 11);
    GetTwo(b, 12);
  }

  // And those that are written.
  lemma HeaderLayout(h: Header)
    requires InRange(h)
    ensures HasLayout(PutHeader(h), h)
  {
    HeaderRoundTrip(h, []);
    assert PutHeader(h) + [] == PutHeader(h);
    FieldsAtOffsets(PutHeader(h));
  }

  // A shard on the wire, byte for byte.
  lemma DataLayout(blockId: nat, shardIdx: nat, k: nat, n: nat, s: Shard<bv8>)
    requires blockId < 0x1_0000_0000 && shardIdx < 0x100 && n < 0x100
    requires k <= MAX_K && |s.coeffs| == k && |s.data| <= MAX_PAYLOAD
    ensures var b := DataBytes(blockId, shardIdx, k, n, s);
      && |b| == 14 + k + |s.data|
      && Value(b, 0) == 0xc0 && Value(b, 1) == 0xde && Value(b, 2) == 1 && Value(b, 3) == 1
      && Value4(b, 4) == blockId && Value(b, 8) == shardIdx && Value(b, 9) == k && Value(b, 10) == n && Value(b, 11) == 0
      && Value2(b, 12) == |s.data|
      && b[14..14 + k] == s.coeffs && b[14 + k..] == s.data
  {
    var h := DataHeader(blockId, shardIdx, k, n, |s.data|);
    HeaderLayout(h);
    assert s.coeffs[..k] == s.coeffs;
    PacketLayout(h, PutHeader(h), s.coeffs, s.data, DataBytes(blockId, shardIdx, k, n, s));
  }

  lemma PacketLayout(h: Header, hb: Bytes, c: Bytes, d: Bytes, b: Bytes)
    requires |hb| == 14 && HasLayout(hb, h) && h.magic == MAGIC && b == hb + c + d
    ensures |b| == 14 + |c| + |d| && HasLayout(b, h) && Value(b, 0) == 0xc0 && Value(b, 1) == 0xde
    ensures b[14..14 + |c|] == c && b[14 + |c|..] == d
  {
    PayloadParts(hb, c, d);
    PrefixLayout(hb, b, h);
    MagicBytes(Value(b, 0), Value(b, 1));
    assert b[14 + |c|..] == b[14 + |c|..14 + |c| + |d|];
  }

  // A probe or an echo: nothing but type and time stamp.
  lemma ProbeLayout(kind: nat, timestamp: nat)
    requires kind < 0x100 && timestamp < 0x1_0000_0000_0000_0000
    ensures var b := ProbeBytes(kind, timestamp);
      && |b| == 22 && Value(b, 0) == 0xc0 && Value(b, 1) == 0xde && Value(b, 2) == 1 && Value(b, 3) == kind
      && (forall i :: 4 <= i < 14 ==> Value(b, i) == 0) && Value8(b, 14) == timestamp
  {
    var h := ProbeHeader(kind);
    var b := ProbeBytes(kind, timestamp);
    HeaderLayout(h);
    PrefixLayout(PutHeader(h), b, h);
    MagicBytes(Value(b, 0), Value(b, 1));
    ZeroFields(b, h);
    StampAt(PutHeader(h), timestamp, b);
  }

  lemma StampAt(hb: Bytes, timestamp: nat, b: Bytes)
    requires |hb| == 14 && timestamp < 0x1_0000_0000_0000_0000 && b == hb + Put(timestamp, 8)
    ensures |b| == 22 && Value8(b, 14) == timestamp
  {
    Powers();
    GetAfterPut(timestamp, 8);
    GetEight(b, 14);
    assert b[14..22] == Put(timestamp, 8);
  }

  lemma ZeroFields(b: Bytes, h: Header)
    requires |b| >= 14 && HasLayout(b, h)
    requires h.blockId == h.shardIdx == h.k == h.n == h.reserved == h.payloadLen == 0
    ensures forall i :: 4 <= i < 14 ==> Value(b, i) == 0
  {
    assert Value(b, 4) == 0 && Value(b, 5) == 0 && Value(b, 6) == 0 && Value(b, 7) == 0;
    assert Value(b, 12) == 0 && Value(b, 13) == 0;
  }

  lemma PrefixLayout(a: Bytes, b: Bytes, h: Header)
    requires |a| >= 14 && a <= b && HasLayout(a, h)
    ensures HasLayout(b, h)
  {
    assert forall i :: 0 <= i < 14 ==> b[i] == a[i];
  }

  lemma MagicBytes(x: nat, y: nat)
    requires x < 0x100 && y < 0x100
    ensures x * 0x100 + y == MAGIC <==> x == 0xc0 && y == 0xde
  {
  }

  // A data datagram, told from its bytes.
  ghost predicate LooksLikeData(d: Bytes)
  {
    && |d| >= 14 && Value(d, 0) == 0xc0 && Value(d, 1) == 0xde && Value(d, 3) == 1
    && Value(d, 9) <= 16 && Value2(d, 12) <= 1400 && |d| >= 14 + Value(d, 9) + Value2(d, 12)
  }

  ghost predicate LooksLikeProbe(d: Bytes)
  {
    |d| >= 22 && Value(d, 0) == 0xc0 && Value(d, 1) == 0xde && (Value(d, 3) == 2 || Value(d, 3) == 3)
  }

  // What the bytes say.
  ghost predicate SaysSo(d: Bytes, p: Packet)
  {
    match p
    case Data(h, s) =>
      && LooksLikeData(d) && HasLayout(d, h)
      && s.coeffs == d[14..14 + Value(d, 9)]
      && s.data == d[14 + Value(d, 9)..14 + Value(d, 9) + Value2(d, 12)]
    case Probe(h, t) => LooksLikeProbe(d) && Value(d, 3) == 2 && HasLayout(d, h) && t == Value8(d, 14)
    case ProbeEcho(h, t) => LooksLikeProbe(d) && Value(d, 3) == 3 && HasLayout(d, h) && t == Value8(d, 14)
  }

  lemma KeptHeader(d: Bytes)
    requires |d| >= HDR_SIZE
    ensures var b := d[..Min(|d|, BUF_SIZE)]; |b| >= HDR_SIZE && HasLayout(d, GetHeader(b))
  {
    var b := d[..Min(|d|, BUF_SIZE)];
    FieldsAtOffsets(b);
    PrefixLayout(b, d, GetHeader(b));
  }

  // A datagram is accepted exactly if its bytes make it a shard or a probe, and it is taken for what
  // they say.
  lemma ParseExactly(d: Bytes)
    ensures Parse(d).Some? <==> LooksLikeData(d) || LooksLikeProbe(d)
    ensures Parse(d).Some? ==> SaysSo(d, Parse(d).value)
  {
    if |d| >= HDR_SIZE {
      var b := d[..Min(|d|, BUF_SIZE)];
      KeptExactly(d, b);
    }
  }

  lemma KeptExactly(d: Bytes, b: Bytes)
    requires |d| >= HDR_SIZE && b == d[..Min(|d|, BUF_SIZE)] && |b| >= HDR_SIZE
    ensures ParseKept(b).Some? <==> LooksLikeData(d) || LooksLikeProbe(d)
    ensures ParseKept(b).Some? ==> SaysSo(d, ParseKept(b).value)
  {
    var h := GetHeader(b);
    KeptHeader(d);
    MagicBytes(Value(d, 0), Value(d, 1));
    if h.magic == MAGIC && h.kind == TYPE_DATA {
      ParseDataExactly(d, b, h);
    } else if h.magic == MAGIC && |b| >= PROBE_SIZE {
      GetEight(b, HDR_SIZE);
      SameValue8(d, b);
    }
  }

  lemma SameValue8(d: Bytes, b: Bytes)
    requires b <= d && |b| >= PROBE_SIZE
    ensures Value8(d, HDR_SIZE) == Value8(b, HDR_SIZE)
  {
    assert forall i :: 0 <= i < PROBE_SIZE ==> b[i] == d[i];
  }

  lemma SameSlice(d: Bytes, b: Bytes, i: nat, j: nat)
    requires b <= d && i <= j <= |b|
    ensures b[i..j] == d[i..j]
  {
  }

  lemma EnoughKept(d: nat, k: nat, len: nat)
    requires k <= MAX_K && len <= MAX_PAYLOAD
    ensures Min(d, BUF_SIZE) >= HDR_SIZE + k + len <==> d >= HDR_SIZE + k + len
  {
  }

  lemma KeptDataExactly(d: Bytes, b: Bytes, h: Header)
    requires |d| >= HDR_SIZE && b == d[..Min(|d|, BUF_SIZE)] && |b| >= HDR_SIZE
    ensures ParseData(h, b).Some? <==> h.k <= MAX_K && h.payloadLen <= MAX_PAYLOAD && |d| >= HDR_SIZE + h.k + h.payloadLen
    ensures ParseData(h, b).Some? ==>
      ParseData(h, b).value == Data(h, Shard(d[HDR_SIZE..HDR_SIZE + h.k], d[HDR_SIZE + h.k..HDR_SIZE + h.k + h.payloadLen]))
  {
    if h.k <= MAX_K && h.payloadLen <= MAX_PAYLOAD {
      EnoughKept(|d|, h.k, h.payloadLen);
      if |b| >= HDR_SIZE + h.k + h.payloadLen {
        SameSlice(d, b, HDR_SIZE, HDR_SIZE + h.k);
        SameSlice(d, b, HDR_SIZE + h.k, HDR_SIZE + h.k + h.payloadLen);
      }
    }
  }

  lemma ParseDataExactly(d: Bytes, b: Bytes, h: Header)
    requires |d| >= HDR_SIZE && b == d[..Min(|d|, BUF_SIZE)] && |b| >= HDR_SIZE && HasLayout(d, h)
    requires h.magic == MAGIC && h.kind == TYPE_DATA
    ensures ParseData(h, b).Some? <==> LooksLikeData(d)
    ensures ParseData(h, b).Some? ==> ParseData(h, b).value.Data? && SaysSo(d, ParseData(h, b).value)
  {
    MagicBytes(Value(d, 0), Value(d, 1));
    KeptDataExactly(d, b, h);
  }

  // ---------------------------------------------------------------------------------------
  // The code that fills and reads the buffers.

  // Writes bytes behind what the buffer already holds.
  method Append(buf: array<bv8>, at: nat, bytes: Bytes) returns (end: nat)
    requires at + |bytes| <= buf.Length
    modifies buf
    ensures end == at + |bytes|
    ensures buf[..end] == old(buf[..at]) + bytes
  {
    end := at;
    for i := 0 to |bytes|
      invariant end == at + i
      invariant buf[..end] == old(buf[..at]) + bytes[..i]
    {
      buf[end] := bytes[i];
      end := end + 1;
    }
  }

  // Three fields.
  method AppendThree(buf: array<bv8>, at: nat, a: Bytes, b: Bytes, c: Bytes) returns (end: nat)
    requires at + |a| + |b| + |c| <= buf.Length
    modifies buf
    ensures end == at + |a| + |b| + |c|
    ensures buf[..end] == old(buf[..at]) + a + b + c
  {
    end := Append(buf, at, a);
    end := Append(buf, end, b);
    end := Append(buf, end, c);
  }

  method FillHeader(buf: array<bv8>, h: Header) returns (end: nat)
    requires buf.Length >= HDR_SIZE
    modifies buf
    ensures end == HDR_SIZE && buf[..end] == PutHeader(h)
  {
    end := AppendThree(buf, 0, Put(h.magic, 2), Put(h.version, 1), Put(h.kind, 1));
    assert buf[..end] == PutFirst(h);
    end := AppendThree(buf, end, Put(h.blockId, 4), Put(h.shardIdx, 1), Put(h.k, 1));
    assert buf[..end] == PutFirst(h) + PutSecond(h);
    end := AppendThree(buf, end, Put(h.n, 1), Put(h.reserved, 1), Put(h.payloadLen, 2));
    assert buf[..end] == PutFirst(h) + PutSecond(h) + PutThird(h);
  }

  // The buffer of `transport_send_shard` and the length it sends.
  method SendShard(blockId: nat, shardIdx: nat, k: nat, n: nat, s: Shard<bv8>) returns (buf: array<bv8>, total: nat)
    requires k <= MAX_K && k <= |s.coeffs| && |s.data| <= MAX_PAYLOAD
    ensures total <= buf.Length && buf[..total] == DataBytes(blockId, shardIdx, k, n, s)
  {
    buf := new bv8[BUF_SIZE];
    total := FillHeader(buf, DataHeader(blockId, shardIdx, k, n, |s.data|));
    total := Append(buf, total, s.coeffs[..k]);
    total := Append(buf, total, s.data);
  }

  method SendProbe(kind: nat, timestamp: nat) returns (buf: array<bv8>)
    ensures buf[..] == ProbeBytes(kind, timestamp)
  {
    buf := new bv8[PROBE_SIZE];
    var h := ProbeHeader(kind);
    var end := FillHeader(buf, h);
    var hi, lo := Put(timestamp / 0x1_0000_0000, 4), Put(timestamp, 4);
    TwoWords(timestamp);
    end := Append(buf, end, hi);
    end := Append(buf, end, lo);
    WholeBuffer(buf, PutHeader(h), hi, lo);
  }

  lemma WholeBuffer(buf: array<bv8>, a: Bytes, b: Bytes, c: Bytes)
    requires |a| + |b| + |c| == buf.Length && buf[..buf.Length] == a + b + c
    ensures buf[..] == a + (b + c)
  {
  }

  // A time stamp is sent as two words.
  lemma TwoWords(v: nat)
    ensures Put(v / 0x1_0000_0000, 4) + Put(v, 4) == Put(v, 8)
  {
    var a := v / 0x100;
    var b := a / 0x100;
    var c := b / 0x100;
    assert Shifted(v, 4) == Shifted(a, 3) == Shifted(b, 2) == Shifted(c, 1) == Shifted(c / 0x100, 0);
    assert c / 0x100 == v / 0x1_0000_0000;
    PutSplit(v, 4, 4);
  }

  function Shifted(v: nat, n: nat): nat
  {
    if n == 0 then v else Shifted(v / 0x100, n - 1)
  }

  lemma {:induction false} PutSplit(v: nat, m: nat, n: nat)
    ensures Put(v, m + n) == Put(Shifted(v, n), m) + Put(v, n)
    decreases n
  {
    if n > 0 {
      PutSplit(v / 0x100, m, n - 1);
    }
  }

  // memcpy of bytes from..to out of the n bytes received.
  method CopyOut(buf: array<bv8>, from: nat, to: nat, ghost b: Bytes) returns (bytes: Bytes)
    requires from <= to <= |b| <= buf.Length && b == buf[..|b|]
    ensures bytes == b[from..to]
  {
    bytes := [];
    for i := from to to
      invariant bytes == b[from..i]
    {
      bytes := bytes + [buf[i]];
    }
  }

  // The parsing half of `transport_recv`, on the n bytes that the socket put into the buffer.
  method Receive(buf: array<bv8>, n: nat) returns (r: Option<Packet>)
    requires n <= buf.Length == BUF_SIZE
    ensures r == Parse(buf[..n])
  {
    ghost var b := buf[..n];
    KeptWhole(b);
    if n < HDR_SIZE {
      return None;
    }
    var head := CopyOut(buf, 0, HDR_SIZE, b);
    SameHeader(b, head);
    r := ReceiveBody(buf, n, GetHeader(head), b);
  }

  // What follows the header.
  method ReceiveBody(buf: array<bv8>, n: nat, h: Header, ghost b: Bytes) returns (r: Option<Packet>)
    requires HDR_SIZE <= n == |b| <= buf.Length && b == buf[..n] && b[..Min(|b|, BUF_SIZE)] == b
    requires h == GetHeader(b)
    ensures r == Parse(b)
  {
    if h.magic != MAGIC {
      return None;
    }
    if h.kind == TYPE_DATA {
      r := ReceiveData(buf, n, h, b);
    } else if h.kind == TYPE_PROBE || h.kind == TYPE_PROBE_ECHO {
      if n < PROBE_SIZE {
        return None;
      }
      var timestamp := ReceiveTimestamp(buf, b);
      r := Some(if h.kind == TYPE_PROBE then Probe(h, timestamp) else ProbeEcho(h, timestamp));
    } else {
      r := None;
    }
  }

  lemma SameHeader(b: Bytes, head: Bytes)
    requires |b| >= HDR_SIZE && head == b[0..HDR_SIZE]
    ensures |head| == HDR_SIZE && GetHeader(head) == GetHeader(b)
  {
    assert head[..4] == b[..4] && head[4..10] == b[4..10] && head[10..14] == b[10..14];
  }

  method ReceiveData(buf: array<bv8>, n: nat, h: Header, ghost b: Bytes) returns (r: Option<Packet>)
    requires HDR_SIZE <= n == |b| <= buf.Length && b == buf[..n]
    ensures r == ParseData(h, b)
  {
    if h.k > MAX_K || h.payloadLen > MAX_PAYLOAD || n < HDR_SIZE + h.k + h.payloadLen {
      return None;
    }
    var coeffs := CopyOut(buf, HDR_SIZE, HDR_SIZE + h.k, b);
    var data := CopyOut(buf, HDR_SIZE + h.k, HDR_SIZE + h.k + h.payloadLen, b);
    r := Some(Data(h, Shard(coeffs, data)));
  }

  // Two words in network order.
  method ReceiveTimestamp(buf: array<bv8>, ghost b: Bytes) returns (timestamp: nat)
    requires PROBE_SIZE <= |b| <= buf.Length && b == buf[..|b|]
    ensures timestamp == Get(b[HDR_SIZE..PROBE_SIZE])
  {
    var hi := CopyOut(buf, HDR_SIZE, HDR_SIZE + 4, b);
    var lo := CopyOut(buf, HDR_SIZE + 4, PROBE_SIZE, b);
    timestamp := Get(hi) * 0x1_0000_0000 + Get(lo);
    Powers();
    GetSplit(hi, lo);
    assert hi + lo == b[HDR_SIZE..PROBE_SIZE];
  }

  lemma {:induction false} GetSplit(a: Bytes, b: Bytes)
    ensures Get(a + b) == Get(a) * Power256(|b|) + Get(b)
    decreases |b|
  {
    if b == [] {
      assert a + b == a;
    } else {
      var m := |b| - 1;
      GetSplit(a, b[..m]);
      GetLast(a + b, a + b[..m], b[m]);
      GetLast(b, b[..m], b[m]);
      Shifting(Get(a), Power256(m), Get(b[..m]), b[m] as int);
    }
  }

  lemma GetLast(b: Bytes, high: Bytes, low: bv8)
    requires b == high + [low]
    ensures Get(b) == Get(high) * 0x100 + low as int
  {
    assert b[..|b| - 1] == high;
  }

  lemma Shifting(x: nat, p: nat, y: nat, z: int)
    ensures (x * p + y) * 0x100 + z == x * (0x100 * p) + (y * 0x100 + z)
  {
  }
}
