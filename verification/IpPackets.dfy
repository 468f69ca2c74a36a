/**
 How the receiver finds the end of a packet that was padded with zeros (`ip_packet_length` in
 src/rx.c): it trusts the length field of the IP header.
 */
module IpPackets {
  import opened Codec
  import opened Wire
  import opened Tx

  const V4_HEADER: nat := 20
  const V6_HEADER: nat := 40

  function Version(first: bv8): bv8
  {
    (first >> 4) & 0x0f
  }

  // uint16_t
  function Short(n: nat): nat
  {
    n % 0x10000
  }

  function IpPacketLength(pkt: Bytes): (len: nat)
    ensures len <= |pkt|
  {
    if |pkt| >= V4_HEADER && Version(pkt[0]) == 4 then
      var total := Short(Get(pkt[2..4]));
      if V4_HEADER <= total <= |pkt| then total else |pkt|
    else if |pkt| >= V6_HEADER && Version(pkt[0]) == 6 then
      var total := Short(Short(Get(pkt[4..6])) + V6_HEADER);
      if V6_HEADER <= total <= |pkt| then total else |pkt|
    else |pkt|
  }

  // What is written to the TUN device for a decoded row.
  function Written(row: Bytes): Bytes
  {
    row[..IpPacketLength(row)]
  }

  // The header says how long the packet is: a version in the high half of the first byte, and the
  // total length of version 4, or the length of what follows the forty bytes of header of version 6.
  predicate IsIp(p: Bytes)
  {
    || (|p| >= 20 && Value(p, 0) / 16 == 4 && Value2(p, 2) == |p|)
    || (|p| >= 40 && Value(p, 0) / 16 == 6 && Value2(p, 4) + 40 == |p|)
  }

  lemma HighHalf(b: bv8)
    ensures 0 <= b as int < 0x100
    ensures Version(b) == 4 <==> b as int / 16 == 4
    ensures Version(b) == 6 <==> b as int / 16 == 6
  {
  }

  lemma HeaderBytes(p: Bytes)
    requires |p| >= 20
    ensures Version(p[0]) == 4 <==> Value(p, 0) / 16 == 4
    ensures Version(p[0]) == 6 <==> Value(p, 0) / 16 == 6
    ensures Get(p[2..4]) == Value2(p, 2) && Get(p[4..6]) == Value2(p, 4)
  {
    HighHalf(p[0]);
    GetTwo(p, 2);
    GetTwo(p, 4);
  }

  lemma TwoBytes(b: Bytes)
    requires |b| == 2
    ensures Get(b) < 0x10000
  {
    PutAfterGet(b);
    Powers();
  }

  lemma PaddingKeepsHeader(p: Bytes, w: nat, i: nat)
    requires i + 2 <= |p| <= w
    ensures Padding(p, w)[..|p|] == p
    ensures Padding(p, w)[i..i + 2] == p[i..i + 2] && Padding(p, w)[0] == p[0]
  {
  }

  lemma IpPacketIsRecovered(p: Bytes, w: nat)
    requires |p| <= w <= MAX_PAYLOAD && IsIp(p)
    ensures Written(Padding(p, w)) == p
  {
    var row := Padding(p, w);
    HeaderBytes(p);
    PaddingKeepsHeader(p, w, 2);
    if Version(p[0]) == 4 {
      LengthOfV4(row, |p|);
    } else {
      PaddingKeepsHeader(p, w, 4);
      LengthOfV6(row, |p|);
    }
  }

  lemma LengthOfV4(row: Bytes, len: nat)
    requires V4_HEADER <= len <= |row| <= MAX_PAYLOAD && Version(row[0]) == 4 && Get(row[2..4]) == len
    ensures IpPacketLength(row) == len
  {
  }

  lemma LengthOfV6(row: Bytes, len: nat)
    requires V6_HEADER <= len <= |row| <= MAX_PAYLOAD && Version(row[0]) == 6 && Get(row[4..6]) + V6_HEADER == len
    ensures IpPacketLength(row) == len
  {
  }

  // A row is cut where its header says.
  lemma CutByHeader(row: Bytes)
    requires |row| >= V6_HEADER && IpPacketLength(row) < |row|
    ensures var len := IpPacketLength(row);
      || (V4_HEADER <= len && Version(row[0]) == 4 && Get(row[2..4]) == len)
      || (V6_HEADER <= len && Version(row[0]) == 6 && Get(row[4..6]) + V6_HEADER == len)
  {
    TwoBytes(row[2..4]);
    TwoBytes(row[4..6]);
    CutLength(Get(row[2..4]));
    CutLength(Get(row[4..6]));
  }

  lemma CutLength(v: nat)
    requires v < 0x10000
    ensures Short(v) == v && (Short(v + V6_HEADER) >= V6_HEADER ==> Short(v + V6_HEADER) == v + V6_HEADER)
  {
  }

  lemma RecoveredIsIp(p: Bytes)
    requires p != [] && |p| < MAX_PAYLOAD
    requires Written(Padding(p, MAX_PAYLOAD)) == p
    ensures IsIp(p)
  {
    var row := Padding(p, MAX_PAYLOAD);
    assert IpPacketLength(row) == |p|;
    CutByHeader(row);
    PaddingKeepsHeader(p, MAX_PAYLOAD, 2);
    PaddingKeepsHeader(p, MAX_PAYLOAD, 4);
    HeaderBytes(p);
  }

  // The header gives a length that is shorter than the packet.
  predicate IsCutShort(p: Bytes)
  {
    || (|p| >= 20 && Value(p, 0) / 16 == 4 && 20 <= Value2(p, 2) < |p|)
    || (|p| >= 40 && Value(p, 0) / 16 == 6 && Value2(p, 4) + 40 < |p|)
  }

  lemma WholeV4(p: Bytes, v: nat)
    requires |p| == MAX_PAYLOAD && Version(p[0]) == 4 && v == Get(p[2..4]) < 0x10000
    ensures IpPacketLength(p) == |p| <==> !(V4_HEADER <= v < |p|)
  {
    CutLength(v);
  }

  lemma WholeV6(p: Bytes, v: nat)
    requires |p| == MAX_PAYLOAD && Version(p[0]) == 6 && v == Get(p[4..6]) < 0x10000
    ensures IpPacketLength(p) == |p| <==> !(v + V6_HEADER < |p|)
  {
    CutLength(v);
  }

  lemma WholeOther(p: Bytes)
    requires |p| == MAX_PAYLOAD && Version(p[0]) != 4 && Version(p[0]) != 6
    ensures IpPacketLength(p) == |p|
  {
  }

  lemma WholeUnlessCutShort(p: Bytes)
    requires |p| == MAX_PAYLOAD
    ensures Written(p) == p <==> !IsCutShort(p)
  {
    WrittenWhole(p);
    HeaderBytes(p);
    if Version(p[0]) == 4 {
      TwoBytes(p[2..4]);
      WholeV4(p, Get(p[2..4]));
    } else if Version(p[0]) == 6 {
      TwoBytes(p[4..6]);
      WholeV6(p, Get(p[4..6]));
    } else {
      WholeOther(p);
    }
  }

  lemma WrittenWhole(p: Bytes)
    ensures Written(p) == p <==> IpPacketLength(p) == |p|
  {
    assert p[..|p|] == p;
  }

  // A packet survives padding to every width exactly when it is an IP packet whose header gives
  // its length; one that is too long to be padded, when its header gives no shorter length.
  lemma PaddingIsReversible(p: Bytes)
    requires p != [] && |p| <= MAX_PAYLOAD
    ensures (if |p| < MAX_PAYLOAD then IsIp(p) else !IsCutShort(p))
      <==> forall w :: |p| <= w <= MAX_PAYLOAD ==> Written(Padding(p, w)) == p
  {
    if |p| == MAX_PAYLOAD {
      assert Padding(p, |p|) == p;
      WholeUnlessCutShort(p);
    } else if IsIp(p) {
      forall w | |p| <= w <= MAX_PAYLOAD
        ensures Written(Padding(p, w)) == p
      {
        IpPacketIsRecovered(p, w);
      }
    } else {
      assert |p| <= MAX_PAYLOAD <= MAX_PAYLOAD;
      if Written(Padding(p, MAX_PAYLOAD)) == p {
        RecoveredIsIp(p);
      }
    }
  }

  // A filler row is written in full: a block flushed before it was full makes the receiver write
  // packets of zeros that nobody sent.
  lemma FillerIsWritten(w: nat)
    ensures Written(Padding([], w)) == ZeroBytes(w)
  {
    if w > 0 {
      ZeroBytesAt(w, 0);
      NoVersion();
    }
    assert Padding([], w) == ZeroBytes(w);
  }

  lemma NoVersion()
    ensures Version(0) == 0
  {
  }
}
