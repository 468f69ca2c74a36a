/**
 The sending side: block assembly (src/tx.c) and the order in which the event loop of
 src/main.c takes its steps.
 */
module Tx {
  import opened LinearAlgebra
  import opened Codec
  import opened Encoder
  import Gf256
  import opened Crypto
  import opened Wire
  import Window32
  import Scheduler
  import opened Strategy

  type u32 = Window32.u32

  // ---------------------------------------------------------------------------------------
  // What a flushed block is, as values.

  ghost function ZeroBytes(n: nat): (r: Bytes)
    ensures |r| == n
  {
    if n == 0 then [] else ZeroBytes(n - 1) + [0]
  }

  lemma {:induction false} ZeroBytesAt(n: nat, j: nat)
    requires j < n
    ensures ZeroBytes(n)[j] == 0
  {
    if j < n - 1 {
      ZeroBytesAt(n - 1, j);
    }
  }

  // A packet followed by zeros.
  ghost function Padding(p: Bytes, w: nat): (r: Bytes)
    requires |p| <= w
    ensures |r| == w
  {
    p + ZeroBytes(w - |p|)
  }

  ghost function Longest(ps: seq<Bytes>): (w: nat)
    ensures forall i :: 0 <= i < |ps| ==> |ps[i]| <= w
  {
    if ps == [] then 0
    else
      var w := Longest(ps[..|ps| - 1]);
      if |ps[|ps| - 1]| > w then |ps[|ps| - 1]| else w
  }

  lemma {:induction false} LongestIsReached(ps: seq<Bytes>) returns (i: nat)
    requires ps != []
    ensures i < |ps| && |ps[i]| == Longest(ps)
  {
    var m := |ps| - 1;
    if m == 0 || |ps[m]| > Longest(ps[..m]) {
      i := m;
    } else {
      i := LongestIsReached(ps[..m]);
    }
  }

  lemma {:induction false} LongestBelow(ps: seq<Bytes>, bound: nat)
    requires forall i :: 0 <= i < |ps| ==> |ps[i]| <= bound
    ensures Longest(ps) <= bound
  {
    if ps != [] {
      LongestBelow(ps[..|ps| - 1], bound);
    }
  }

  // The packets followed by zeros up to width w, and rows of zeros up to k.
  ghost function PaddedTo(ps: seq<Bytes>, w: nat, k: nat): (m: Matrix<bv8>)
    requires forall i :: 0 <= i < |ps| ==> |ps[i]| <= w
    ensures IsMatrix(m, k, w)
  {
    if k == 0 then []
    else PaddedTo(ps, w, k - 1) + [Padding(if k - 1 < |ps| then ps[k - 1] else [], w)]
  }

  lemma {:induction false} PaddedAt(ps: seq<Bytes>, w: nat, k: nat, i: nat)
    requires i < k && forall i :: 0 <= i < |ps| ==> |ps[i]| <= w
    ensures PaddedTo(ps, w, k)[i] == Padding(if i < |ps| then ps[i] else [], w)
  {
    if i < k - 1 {
      PaddedAt(ps, w, k - 1, i);
    }
  }

  lemma PaddingAt(p: Bytes, w: nat, j: nat)
    requires |p| <= w && j < w
    ensures Padding(p, w)[j] == if j < |p| then p[j] else 0
  {
    if j >= |p| {
      ZeroBytesAt(w - |p|, j - |p|);
    }
  }

  // `id` counts the blocks without wrapping around.
  datatype Block = Block(id: nat, packets: seq<Bytes>, k: nat, n: nat, draws: Matrix<bv8>)
  {
    ghost function Width(): nat
    {
      Longest(packets)
    }

    ghost function Source(): (m: Matrix<bv8>)
      ensures IsMatrix(m, k, Width())
    {
      PaddedTo(packets, Width(), k)
    }

    ghost predicate Valid()
    {
      && 1 <= |packets| <= k <= n <= MAX_N && k <= MAX_K
      && (forall i :: 0 <= i < |packets| ==> |packets[i]| <= MAX_PAYLOAD)
      && EnoughDraws(draws, k, MAX_N)
    }

    // The shards before encryption.
    ghost function Shards(): (r: seq<Shard<bv8>>)
      requires Valid()
      ensures |r| == n && AreSendable(r, k)
    {
      LongestBelow(packets, MAX_PAYLOAD);
      SendableEncoding(Source(), Width(), n, draws);
      Encoding(Gf256.Gf(), Source(), Width(), n, draws)
    }

    // The datagram that carries shard i, encrypted.
    ghost function DatagramOf(ctx: Ctx, i: nat): Bytes
      requires Valid() && i < n
    {
      DataBytes(Window32.Wrap(id), i, k, n, Window32.Decrypted(ctx, Window32.Wrap(id), i, Shards()[i]))
    }

    // The datagrams are those of the block.
    ghost predicate Carried(ctx: Ctx, datagrams: seq<Bytes>)
    {
      Valid() && |datagrams| == n && forall i {:trigger DatagramOf(ctx, i)} :: 0 <= i < n ==> datagrams[i] == DatagramOf(ctx, i)
    }
  }

  ghost predicate AreSendable(shards: seq<Shard<bv8>>, k: nat)
  {
    && k <= MAX_K && |shards| <= MAX_N
    && forall i :: 0 <= i < |shards| ==> |shards[i].coeffs| == k && |shards[i].data| <= MAX_PAYLOAD
  }

  lemma {:induction false} SendableEncoding(p: Matrix<bv8>, w: nat, n: nat, draws: Matrix<bv8>)
    requires IsMatrix(p, |p|, w) && EnoughDraws(draws, |p|, n) && |p| <= MAX_K && w <= MAX_PAYLOAD && n <= MAX_N
    ensures AreSendable(Encoding(Gf256.Gf(), p, w, n, draws), |p|)
  {
    if n > 0 {
      SendableEncoding(p, w, n - 1, draws);
    }
  }

  // The first m shards with their payloads encrypted.
  ghost function Sealed(ctx: Ctx, blockId: u32, shards: seq<Shard<bv8>>, m: nat): (r: seq<Shard<bv8>>)
    requires m <= |shards| <= MAX_N
    ensures |r| == m
  {
    if m == 0 then []
    else Sealed(ctx, blockId, shards, m - 1) + [Window32.Decrypted(ctx, blockId, m - 1, shards[m - 1])]
  }

  lemma {:induction false} SealedAt(ctx: Ctx, blockId: u32, shards: seq<Shard<bv8>>, m: nat, i: nat)
    requires i < m <= |shards| <= MAX_N
    ensures Sealed(ctx, blockId, shards, m)[i] == Window32.Decrypted(ctx, blockId, i, shards[i])
  {
    if i < m - 1 {
      SealedAt(ctx, blockId, shards, m - 1, i);
    }
  }

  lemma {:induction false} SealedSendable(ctx: Ctx, blockId: u32, shards: seq<Shard<bv8>>, m: nat, k: nat)
    requires AreSendable(shards, k) && m <= |shards|
    ensures AreSendable(Sealed(ctx, blockId, shards, m), k)
  {
    if m > 0 {
      SealedSendable(ctx, blockId, shards, m - 1, k);
    }
  }

  ghost function DatagramsFor(shards: seq<Shard<bv8>>, blockId: nat, k: nat, n: nat): (r: seq<Bytes>)
    requires AreSendable(shards, k)
    ensures |r| == |shards|
  {
    if shards == [] then []
    else
      var m := |shards| - 1;
      DatagramsFor(shards[..m], blockId, k, n) + [DataBytes(blockId, m, k, n, shards[m])]
  }

  lemma {:induction false} DatagramAt(shards: seq<Shard<bv8>>, blockId: nat, k: nat, n: nat, i: nat)
    requires AreSendable(shards, k) && i < |shards|
    ensures DatagramsFor(shards, blockId, k, n)[i] == DataBytes(blockId, i, k, n, shards[i])
  {
    if i < |shards| - 1 {
      DatagramAt(shards[..|shards| - 1], blockId, k, n, i);
    }
  }

  // A datagram and the path it takes.
  datatype Sent = Sent(path: int, bytes: Bytes)

  // Datagrams one after the other, each on the path that the scheduler picks for it.  Without a
  // usable path they are dropped.
  ghost function Dispatched(datagrams: seq<Bytes>, usable: seq<bool>, weights: seq<nat>, credits: seq<int>): (r: seq<Sent>)
    requires Scheduler.SameLength(usable, weights, credits)
  {
    if datagrams == [] || !Scheduler.SomeUsable(usable) then []
    else
      var m := |datagrams| - 1;
      Dispatched(datagrams[..m], usable, weights, credits) + [Sent(PathOf(usable, weights, credits, m), datagrams[m])]
  }

  // The path of datagram m.
  ghost function PathOf(usable: seq<bool>, weights: seq<nat>, credits: seq<int>, m: nat): (path: nat)
    requires Scheduler.SameLength(usable, weights, credits) && Scheduler.SomeUsable(usable)
    ensures path < |usable| && usable[path]
  {
    Scheduler.Pick(usable, weights, Scheduler.After(usable, weights, credits, m))
  }

  // The credits after m datagrams have been given a path.
  ghost function CreditsAfter(usable: seq<bool>, weights: seq<nat>, credits: seq<int>, m: nat): (r: seq<int>)
    requires Scheduler.SameLength(usable, weights, credits)
    ensures |r| == |credits|
  {
    if Scheduler.SomeUsable(usable) then Scheduler.After(usable, weights, credits, m) else credits
  }

  // (a - b) / 1000 with C's division, which truncates.
  function TruncatedThousandth(d: int): int
  {
    if d >= 0 then d / 1000 else -((-d) / 1000)
  }

  function ElapsedMs(sec: int, usec: int, fromSec: int, fromUsec: int): int
  {
    (sec - fromSec) * 1000 + TruncatedThousandth(usec - fromUsec)
  }

  // The block is overdue: the timeout has passed, or will within a millisecond and the microsecond
  // field has wrapped around.
  ghost predicate Overdue(sec: int, usec: int, fromSec: int, fromUsec: int, timeoutMs: int)
  {
    var us := (sec - fromSec) * 1000000 + (usec - fromUsec);
    us >= 1000 * timeoutMs || (usec < fromUsec && us > 1000 * (timeoutMs - 1))
  }

  // The truncated arithmetic of the source finds just that.
  lemma TimeoutExactly(sec: int, usec: int, fromSec: int, fromUsec: int, timeoutMs: int)
    ensures ElapsedMs(sec, usec, fromSec, fromUsec) >= timeoutMs <==> Overdue(sec, usec, fromSec, fromUsec, timeoutMs)
  {
  }

  // ---------------------------------------------------------------------------------------
  // struct tx_block

  class TxBlock {
    var blockId: u32
    const pkts: array2<bv8>
    const pktLen: array<nat>
    var pktCount: nat
    var firstSec: int
    var firstUsec: int

    ghost predicate Valid()
      reads this, pktLen
    {
      && pkts.Length0 == pktLen.Length == MAX_K && pkts.Length1 == MAX_PAYLOAD
      && pktCount <= MAX_K
      && forall i :: 0 <= i < MAX_K ==> pktLen[i] <= MAX_PAYLOAD
    }

    ghost function PacketsTo(n: nat): (ps: seq<Bytes>)
      requires Valid() && n <= MAX_K
      reads this, pkts, pktLen
      ensures |ps| == n
      ensures forall i :: 0 <= i < n ==> ps[i] == RowTo(pkts, i, pktLen[i])
    {
      if n == 0 then [] else PacketsTo(n - 1) + [RowTo(pkts, n - 1, pktLen[n - 1])]
    }

    // The packets collected so far.
    ghost function Packets(): (ps: seq<Bytes>)
      requires Valid()
      reads this, pkts, pktLen
      ensures |ps| == pktCount
      ensures forall i :: 0 <= i < pktCount ==> |ps[i]| <= MAX_PAYLOAD
    {
      PacketsTo(pktCount)
    }

    constructor (id: u32)
      ensures Valid() && fresh(pkts) && fresh(pktLen)
      ensures blockId == id && Packets() == []
    {
      pkts := new bv8[MAX_K, MAX_PAYLOAD];
      pktLen := new nat[MAX_K](_ => 0);
      blockId, pktCount, firstSec, firstUsec := id, 0, 0, 0;
    }

    // tx_block_init
    method Init(id: u32)
      requires Valid()
      modifies this, pkts, pktLen
      ensures Valid() && blockId == id && Packets() == []
    {
      for i := 0 to MAX_K
        invariant Valid()
      {
        Clear(i, 0, MAX_PAYLOAD);
        pktLen[i] := 0;
      }
      blockId, pktCount, firstSec, firstUsec := id, 0, 0, 0;
    }

    // memset(pkts[i] + from, 0, to - from)
    method Clear(i: nat, from: nat, to: nat)
      requires i < pkts.Length0 && from <= to <= pkts.Length1
      modifies pkts
      ensures forall x, y :: 0 <= x < pkts.Length0 && 0 <= y < pkts.Length1 ==>
        pkts[x, y] == if x == i && from <= y < to then 0 else old(pkts[x, y])
    {
      for j := from to to
        invariant forall x, y :: 0 <= x < pkts.Length0 && 0 <= y < pkts.Length1 ==>
          pkts[x, y] == if x == i && from <= y < j then 0 else old(pkts[x, y])
      {
        pkts[i, j] := 0;
      }
    }

    // memcpy(pkts[i], pkt, |pkt|)
    method CopyIn(i: nat, pkt: Bytes)
      requires i < pkts.Length0 && |pkt| <= pkts.Length1
      modifies pkts
      ensures RowTo(pkts, i, |pkt|) == pkt
      ensures forall x, y :: 0 <= x < pkts.Length0 && 0 <= y < pkts.Length1 && x != i ==> pkts[x, y] == old(pkts[x, y])
    {
      for j := 0 to |pkt|
        invariant forall x, y :: 0 <= x < pkts.Length0 && 0 <= y < pkts.Length1 ==>
          pkts[x, y] == if x == i && y < j then pkt[y] else old(pkts[x, y])
      {
        pkts[i, j] := pkt[j];
      }
    }

    // tx_block_add_pkt: tells whether the block is full.
    method AddPkt(pkt: Bytes, k: nat, sec: int, usec: int) returns (full: bool)
      requires Valid() && |pkt| <= MAX_PAYLOAD && k <= MAX_K
      modifies this, pkts, pktLen
      ensures Valid() && blockId == old(blockId)
      ensures Packets() == if old(pktCount) < k then old(Packets()) + [pkt] else old(Packets())
      ensures (firstSec, firstUsec) == if old(pktCount) == 0 then (sec, usec) else (old(firstSec), old(firstUsec))
      ensures full <==> pktCount >= k
    {
      if pktCount == 0 {
        firstSec, firstUsec := sec, usec;
      }
      if pktCount < k {
        ghost var before := Packets();
        CopyIn(pktCount, pkt);
        pktLen[pktCount] := |pkt|;
        pktCount := pktCount + 1;
        SamePackets(before, pktCount - 1);
      }
      full := pktCount >= k;
    }

    lemma SamePackets(ps: seq<Bytes>, n: nat)
      requires Valid() && |ps| == n <= MAX_K
      requires forall i :: 0 <= i < n ==> |ps[i]| == pktLen[i]
      requires forall i, j :: 0 <= i < n && 0 <= j < pktLen[i] ==> ps[i][j] == pkts[i, j]
      ensures PacketsTo(n) == ps
    {
      forall i | 0 <= i < n
        ensures PacketsTo(n)[i] == ps[i]
      {
      }
    }

    // tx_block_needs_flush
    method NeedsFlush(timeoutMs: int, sec: int, usec: int) returns (b: bool)
      ensures b <==> pktCount > 0 && Overdue(sec, usec, firstSec, firstUsec, timeoutMs)
    {
      if pktCount == 0 {
        return false;
      }
      TimeoutExactly(sec, usec, firstSec, firstUsec, timeoutMs);
      b := ElapsedMs(sec, usec, firstSec, firstUsec) >= timeoutMs;
    }

    // Zeros behind every packet, up to the longest.
    method PadPackets()
      requires Valid()
      modifies pkts
      ensures Valid()
      ensures var w := MaxLen(pktLen[..], pktCount);
        forall x, y :: 0 <= x < MAX_K && 0 <= y < MAX_PAYLOAD ==>
          pkts[x, y] == if x < pktCount && pktLen[x] <= y < w then 0 else old(pkts[x, y])
    {
      var w := LongestLen(pktLen, pktCount);
      if pktCount > 0 {
        ghost var i := MaxLenIsReached(pktLen[..], pktCount);
      }
      for i := 0 to pktCount
        invariant Valid()
        invariant forall x, y :: 0 <= x < MAX_K && 0 <= y < MAX_PAYLOAD ==>
          pkts[x, y] == if x < i && pktLen[x] <= y < w then 0 else old(pkts[x, y])
      {
        if pktLen[i] < w {
          Clear(i, pktLen[i], w);
        }
      }
    }

    // Packets of zeros in the slots up to k, said to be as long as the first packet.
    method FillSlots(k: nat)
      requires Valid() && 1 <= pktCount <= k <= MAX_K
      modifies pkts, pktLen
      ensures Valid()
      ensures forall x, y :: 0 <= x < MAX_K && 0 <= y < MAX_PAYLOAD ==>
        pkts[x, y] == if pktCount <= x < k then 0 else old(pkts[x, y])
      ensures forall x :: 0 <= x < MAX_K ==> pktLen[x] == if pktCount <= x < k then old(pktLen[0]) else old(pktLen[x])
    {
      for j := pktCount to k
        invariant Valid()
        invariant forall x, y :: 0 <= x < MAX_K && 0 <= y < MAX_PAYLOAD ==>
          pkts[x, y] == if pktCount <= x < j then 0 else old(pkts[x, y])
        invariant forall x :: 0 <= x < MAX_K ==> pktLen[x] == if pktCount <= x < j then old(pktLen[0]) else old(pktLen[x])
      {
        Clear(j, 0, MAX_PAYLOAD);
        pktLen[j] := pktLen[0];
      }
    }

    // The packets followed by zeros, in the first rows up to width w.
    ghost predicate HoldsPackets(ps: seq<Bytes>, w: nat)
      requires Valid() && |ps| <= MAX_K && w <= MAX_PAYLOAD
      reads this, pkts, pktLen
    {
      && (forall i :: 0 <= i < |ps| ==> |ps[i]| == pktLen[i] <= w)
      && (forall i, j :: 0 <= i < |ps| && 0 <= j < w ==> pkts[i, j] == if j < |ps[i]| then ps[i][j] else 0)
    }

    ghost predicate HoldsZeros(from: nat, k: nat, w: nat)
      requires Valid() && k <= MAX_K && w <= MAX_PAYLOAD
      reads this, pkts, pktLen
    {
      forall i, j :: from <= i < k && 0 <= j < w ==> pkts[i, j] == 0
    }

    method PadBlock(ghost ps: seq<Bytes>, ghost w: nat)
      requires Valid() && ps == Packets() && w == Longest(ps)
      modifies pkts
      ensures Valid() && w <= MAX_PAYLOAD && HoldsPackets(ps, w)
      ensures MaxLen(pktLen[..], pktCount) == w
    {
      SameLongest(pktLen[..], ps);
      PadPackets();
    }

    method FillBlock(k: nat, ghost ps: seq<Bytes>, ghost w: nat)
      requires Valid() && 1 <= pktCount == |ps| <= k <= MAX_K && w <= MAX_PAYLOAD && HoldsPackets(ps, w)
      requires MaxLen(pktLen[..], pktCount) == w
      modifies pkts, pktLen
      ensures Valid() && HoldsPackets(ps, w) && HoldsZeros(pktCount, k, w)
      ensures MaxLen(pktLen[..], k) == w
    {
      ghost var lens := pktLen[..];
      FillSlots(k);
      LongestWithFiller(lens, pktLen[..], pktCount, k);
    }

    // The rows that the encoder is given.
    method Prepare(k: nat, ghost ps: seq<Bytes>, ghost w: nat)
      requires Valid() && 1 <= pktCount <= k <= MAX_K && ps == Packets() && w == Longest(ps)
      modifies pkts, pktLen
      ensures Valid() && w <= MAX_PAYLOAD
      ensures MaxLen(pktLen[..], k) == w
      ensures Rows(pkts, k, w) == PaddedTo(ps, w, k)
      ensures Padded(Gf256.Gf(), pkts, pktLen, k, w)
    {
      PadBlock(ps, w);
      FillBlock(k, ps, w);
      HoldsPadded(ps, w, k);
    }

    lemma HoldsPadded(ps: seq<Bytes>, w: nat, k: nat)
      requires Valid() && |ps| <= k <= MAX_K && w <= MAX_PAYLOAD
      requires forall i :: 0 <= i < |ps| ==> |ps[i]| <= w
      requires HoldsPackets(ps, w) && HoldsZeros(|ps|, k, w)
      ensures Rows(pkts, k, w) == PaddedTo(ps, w, k)
      ensures Padded(Gf256.Gf(), pkts, pktLen, k, w)
    {
      var m, p := Rows(pkts, k, w), PaddedTo(ps, w, k);
      forall i, j | 0 <= i < k && 0 <= j < w
        ensures m[i][j] == p[i][j]
      {
        PaddedAt(ps, w, k, i);
        PaddingAt(if i < |ps| then ps[i] else [], w, j);
      }
      SameMatrix(m, p, k, w);
    }

    // Padding and encoding.
    method Encode(k: nat, n: nat, draws: Matrix<bv8>, ghost b: Block) returns (shards: seq<Shard<bv8>>)
      requires Valid() && pktCount > 0 && b.Valid() && b.packets == Packets()
      requires b.k == k && b.n == n && b.draws == draws
      modifies pkts, pktLen
      ensures Valid() && shards == b.Shards()
    {
      Prepare(k, b.packets, b.Width());
      Gf256.GfIsField();
      shards := EncodeBlock(Gf256.Gf(), pkts, pktLen, k, n, draws);
    }

    // The shards of the block, ready to be sent.
    method Seal(k: nat, n: nat, ctx: Ctx, draws: Matrix<bv8>, ghost b: Block)
      returns (sealed: seq<Shard<bv8>>, ghost datagrams: seq<Bytes>)
      requires Valid() && pktCount > 0 && b.Valid() && b.packets == Packets() && blockId == Window32.Wrap(b.id)
      requires b.k == k && b.n == n && b.draws == draws
      modifies pkts, pktLen
      ensures Valid() && |sealed| == n && AreSendable(sealed, k) && b.Carried(ctx, datagrams)
      ensures datagrams == DatagramsFor(sealed, blockId, k, n)
    {
      var shards := Encode(k, n, draws, b);
      sealed := EncryptShards(shards, ctx, blockId);
      SealedSendable(ctx, blockId, shards, n, k);
      SealedAreCarried(b, ctx, sealed);
      datagrams := DatagramsFor(sealed, blockId, k, n);
    }

    // tx_block_flush.  `id` is the number of the block without wrap-around, `datagrams` are the
    // shards of the block as they are sent.
    method Flush(strategy: Context, k: nat, ctx: Ctx, draws: Matrix<bv8>, ghost id: nat)
      returns (out: seq<Sent>, ghost n: nat, ghost datagrams: seq<Bytes>)
      requires Valid() && strategy.Valid() && blockId == Window32.Wrap(id)
      requires 1 <= k <= MAX_K && pktCount <= k && EnoughDraws(draws, k, MAX_N)
      modifies pkts, pktLen, strategy`credits
      ensures Valid() && strategy.Valid()
      ensures pktCount == 0 ==> out == [] && strategy.credits == old(strategy.credits) && Packets() == []
      ensures pktCount > 0 ==>
        && n == ShardsOf(strategy.Now(), k)
        && Block(id, old(Packets()), k, n, draws).Carried(ctx, datagrams)
        && out == Dispatched(datagrams, Usable(strategy.paths), Weights(strategy.paths), old(strategy.credits))
        && strategy.credits == CreditsAfter(Usable(strategy.paths), Weights(strategy.paths), old(strategy.credits), n)
    {
      if pktCount == 0 {
        return [], 0, [];
      }
      var count := strategy.ComputeN(k);
      n := count;
      CountInRange(strategy.Now(), k);
      ghost var b := PendingBlock(k, n, draws, id);
      out, datagrams := FlushBlock(strategy, k, count, ctx, draws, b);
    }

    lemma PendingBlock(k: nat, n: nat, draws: Matrix<bv8>, id: nat) returns (b: Block)
      requires Valid() && 1 <= pktCount <= k <= n <= MAX_N && k <= MAX_K && EnoughDraws(draws, k, MAX_N)
      ensures b == Block(id, Packets(), k, n, draws) && b.Valid()
    {
      b := Block(id, Packets(), k, n, draws);
    }

    method FlushBlock(strategy: Context, k: nat, n: nat, ctx: Ctx, draws: Matrix<bv8>, ghost b: Block)
      returns (out: seq<Sent>, ghost datagrams: seq<Bytes>)
      requires Valid() && strategy.Valid()
      requires pktCount > 0 && b.Valid() && b.packets == Packets() && blockId == Window32.Wrap(b.id)
      requires b.k == k && b.n == n && b.draws == draws
      modifies pkts, pktLen, strategy`credits
      ensures Valid() && strategy.Valid() && b.Carried(ctx, datagrams)
      ensures out == Dispatched(datagrams, Usable(strategy.paths), Weights(strategy.paths), old(strategy.credits))
      ensures strategy.credits == CreditsAfter(Usable(strategy.paths), Weights(strategy.paths), old(strategy.credits), n)
    {
      var sealed;
      sealed, datagrams := Seal(k, n, ctx, draws, b);
      out := SendShards(strategy, sealed, blockId, k, n);
    }
  }

  lemma SealedAreCarried(b: Block, ctx: Ctx, sealed: seq<Shard<bv8>>)
    requires b.Valid() && sealed == Sealed(ctx, Window32.Wrap(b.id), b.Shards(), b.n) && AreSendable(sealed, b.k)
    ensures b.Carried(ctx, DatagramsFor(sealed, Window32.Wrap(b.id), b.k, b.n))
  {
    forall i | 0 <= i < b.n
      ensures DatagramsFor(sealed, Window32.Wrap(b.id), b.k, b.n)[i] == b.DatagramOf(ctx, i)
    {
      DatagramAt(sealed, Window32.Wrap(b.id), b.k, b.n, i);
      SealedAt(ctx, Window32.Wrap(b.id), b.Shards(), b.n, i);
    }
  }

  // The number of shards of a block of k packets.
  ghost function ShardsOf(s: State, k: nat): int
    requires k >= 1
  {
    ShardCount(s.redundancy, AliveCount(s.paths, |s.paths|), EnabledCount(s.paths, |s.paths|), k)
  }

  lemma CountInRange(s: State, k: nat)
    requires 1 <= k <= MAX_K
    ensures k <= ShardsOf(s, k) <= MAX_N
  {
    ShardCountRange(s.redundancy, AliveCount(s.paths, |s.paths|), EnabledCount(s.paths, |s.paths|), k);
  }

  lemma {:induction false} SameMaxLen(lens: seq<nat>, ps: seq<Bytes>)
    requires |ps| <= |lens| && forall i :: 0 <= i < |ps| ==> lens[i] == |ps[i]|
    ensures MaxLen(lens, |ps|) == Longest(ps)
  {
    if ps != [] {
      SameMaxLen(lens, ps[..|ps| - 1]);
    }
  }

  lemma SameLongest(lens: seq<nat>, ps: seq<Bytes>)
    requires |ps| <= |lens| && forall i :: 0 <= i < |ps| ==> lens[i] == |ps[i]| <= MAX_PAYLOAD
    ensures MaxLen(lens, |ps|) == Longest(ps) <= MAX_PAYLOAD
  {
    SameMaxLen(lens, ps);
    LongestBelow(ps, MAX_PAYLOAD);
  }

  // Slots said to be as long as the first do not change the maximum.
  lemma {:induction false} LongestWithFiller(lens: seq<nat>, filled: seq<nat>, n: nat, k: nat)
    requires 1 <= n <= k <= |lens| == |filled|
    requires forall i :: 0 <= i < n ==> filled[i] == lens[i]
    requires forall i :: n <= i < k ==> filled[i] == lens[0]
    ensures MaxLen(filled, k) == MaxLen(lens, n)
  {
    if k > n {
      LongestWithFiller(lens, filled, n, k - 1);
    } else {
      SameMax(lens, filled, n);
    }
  }

  lemma {:induction false} SameMax(s: seq<nat>, t: seq<nat>, n: nat)
    requires n <= |s| && n <= |t| && forall i :: 0 <= i < n ==> s[i] == t[i]
    ensures MaxLen(s, n) == MaxLen(t, n)
  {
    if n > 0 {
      SameMax(s, t, n - 1);
    }
  }

  // Encrypts the payloads if a key is configured.
  method EncryptShards(shards: seq<Shard<bv8>>, ctx: Ctx, blockId: u32) returns (out: seq<Shard<bv8>>)
    requires |shards| <= MAX_N
    ensures out == Sealed(ctx, blockId, shards, |shards|)
  {
    out := [];
    for i := 0 to |shards|
      invariant out == Sealed(ctx, blockId, shards, i)
    {
      var shard := EncryptShard(shards[i], ctx, blockId, i);
      out := out + [shard];
    }
  }

  method EncryptShard(shard: Shard<bv8>, ctx: Ctx, blockId: u32, i: nat) returns (out: Shard<bv8>)
    requires i < MAX_N
    ensures out == Window32.Decrypted(ctx, blockId, i, shard)
  {
    if ctx.Disabled? {
      return shard;
    }
    var data := Window32.CryptPayload(ctx, shard.data, Window32.Nonce(blockId, i));
    out := Shard(shard.coeffs, data);
  }

  // Every shard on the path picked for it; a shard without a path is dropped.
  method SendShards(strategy: Context, shards: seq<Shard<bv8>>, blockId: u32, k: nat, n: nat) returns (out: seq<Sent>)
    requires AreSendable(shards, k) && strategy.Valid()
    modifies strategy`credits
    ensures strategy.Valid()
    ensures var u, w := Usable(strategy.paths), Weights(strategy.paths);
      && out == Dispatched(DatagramsFor(shards, blockId, k, n), u, w, old(strategy.credits))
      && strategy.credits == CreditsAfter(u, w, old(strategy.credits), |shards|)
  {
    ghost var u, w, c, bytes := Usable(strategy.paths), Weights(strategy.paths), strategy.credits, DatagramsFor(shards, blockId, k, n);
    out := [];
    for i := 0 to |shards|
      invariant strategy.Valid() && strategy.credits == CreditsAfter(u, w, c, i)
      invariant out == Dispatched(bytes[..i], u, w, c)
    {
      DispatchOneMore(bytes, u, w, c, i);
      DatagramAt(shards, blockId, k, n, i);
      var sent := SendOnPath(strategy, shards[i], blockId, i, k, n, u, w);
      out := out + sent;
    }
    assert bytes[..|shards|] == bytes;
  }

  lemma DispatchOneMore(bytes: seq<Bytes>, usable: seq<bool>, weights: seq<nat>, credits: seq<int>, m: nat)
    requires Scheduler.SameLength(usable, weights, credits) && m < |bytes|
    ensures var now := CreditsAfter(usable, weights, credits, m);
      && Dispatched(bytes[..m + 1], usable, weights, credits)
        == Dispatched(bytes[..m], usable, weights, credits) + OnPath(bytes[m], usable, weights, now)
      && CreditsAfter(usable, weights, credits, m + 1) == CreditsAfter(usable, weights, now, 1)
  {
    assert bytes[..m + 1][..m] == bytes[..m];
    if Scheduler.SomeUsable(usable) {
      Scheduler.RunsCompose(usable, weights, credits, m, 1, 0);
    }
  }

  ghost function OnPath(bytes: Bytes, usable: seq<bool>, weights: seq<nat>, credits: seq<int>): (r: seq<Sent>)
    requires Scheduler.SameLength(usable, weights, credits)
  {
    if Scheduler.SomeUsable(usable) then [Sent(Scheduler.Pick(usable, weights, credits), bytes)] else []
  }

  method SendOnPath(strategy: Context, shard: Shard<bv8>, blockId: u32, i: nat, k: nat, n: nat,
                    ghost u: seq<bool>, ghost w: seq<nat>) returns (out: seq<Sent>)
    requires |shard.coeffs| == k <= MAX_K && |shard.data| <= MAX_PAYLOAD
    requires strategy.Valid() && u == Usable(strategy.paths) && w == Weights(strategy.paths)
    modifies strategy`credits
    ensures strategy.Valid() && strategy.credits == CreditsAfter(u, w, old(strategy.credits), 1)
    ensures out == OnPath(DataBytes(blockId, i, k, n, shard), u, w, old(strategy.credits))
  {
    var path := strategy.NextPath();
    if path < 0 {
      return [];
    }
    var buf, total := SendShard(blockId, i, k, n, shard);
    out := [Sent(path, buf[..total])];
  }
}
