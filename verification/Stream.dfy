/**
 The tunnel as a whole, seen from its two TUN devices: the packets that the receiver delivers
 are packets that the sender read, each at most once and in the order of reading.
 */
module Stream {
  import opened LinearAlgebra
  import opened Codec
  import opened Wire
  import opened Tx
  import opened Turns
  import opened Sender
  import opened UnboundedWindow
  import opened Window32
  import opened EndToEnd
  import opened IpPackets
  import Paths
  import Liveness
  import WindowRuns
  import Crypto

  // s can be had from t by leaving elements out.
  ghost predicate IsSubsequence(s: seq<Bytes>, t: seq<Bytes>)
  {
    || s == []
    || (t != [] && (IsSubsequence(s, t[..|t| - 1])
                    || (s[|s| - 1] == t[|t| - 1] && IsSubsequence(s[..|s| - 1], t[..|t| - 1]))))
  }

  lemma {:induction false} LongerSource(s: seq<Bytes>, t: seq<Bytes>, more: seq<Bytes>)
    requires IsSubsequence(s, t)
    ensures IsSubsequence(s, t + more)
    decreases |more|
  {
    if more == [] {
      assert t + more == t;
    } else {
      LongerSource(s, t, more[..|more| - 1]);
      assert (t + more)[..|t + more| - 1] == t + more[..|more| - 1];
    }
  }

  lemma SameLast(s: seq<Bytes>, t: seq<Bytes>, x: Bytes)
    requires IsSubsequence(s, t)
    ensures IsSubsequence(s + [x], t + [x])
  {
    assert (s + [x])[..|s|] == s && (t + [x])[..|t|] == t;
  }

  lemma {:induction false} SameEnd(s: seq<Bytes>, t: seq<Bytes>, end: seq<Bytes>)
    requires IsSubsequence(s, t)
    ensures IsSubsequence(s + end, t + end)
    decreases |end|
  {
    if end == [] {
      assert s + end == s && t + end == t;
    } else {
      var m := |end| - 1;
      SameEnd(s, t, end[..m]);
      SameLast(s + end[..m], t + end[..m], end[m]);
      assert s + end == (s + end[..m]) + [end[m]] && t + end == (t + end[..m]) + [end[m]];
    }
  }

  ghost predicate AreDeliveries(log: seq<Block>, ds: seq<Delivery>)
  {
    forall j :: 0 <= j < |ds| ==> 0 <= ds[j].blockId < |log|
  }

  // The packets in the blocks delivered, fillers left out.
  ghost function PacketsDelivered(log: seq<Block>, ds: seq<Delivery>): (r: seq<Bytes>)
    requires AreDeliveries(log, ds)
  {
    if ds == [] then []
    else PacketsDelivered(log, ds[..|ds| - 1]) + log[ds[|ds| - 1].blockId].packets
  }

  lemma {:induction false} ShorterLog(log: seq<Block>, m: nat, ds: seq<Delivery>)
    requires m <= |log| && AreDeliveries(log[..m], ds)
    ensures AreDeliveries(log, ds) && PacketsDelivered(log[..m], ds) == PacketsDelivered(log, ds)
    decreases |ds|
  {
    if ds != [] {
      ShorterLog(log, m, ds[..|ds| - 1]);
    }
  }

  lemma {:induction false} DeliveredInOrder(log: seq<Block>, ds: seq<Delivery>)
    requires AreDeliveries(log, ds) && Ascending(ds)
    ensures IsSubsequence(PacketsDelivered(log, ds), PacketsOf(log))
    decreases |log|
  {
    if ds != [] {
      assert 0 <= ds[0].blockId < |log|;
      var m, e := |log| - 1, |ds| - 1;
      var before := log[..m];
      if ds[e].blockId == m {
        assert AreDeliveries(before, ds[..e]);
        DeliveredInOrder(before, ds[..e]);
        ShorterLog(log, m, ds[..e]);
        SameEnd(PacketsDelivered(log, ds[..e]), PacketsOf(before), log[m].packets);
      } else {
        assert AreDeliveries(before, ds);
        DeliveredInOrder(before, ds);
        ShorterLog(log, m, ds);
        LongerSource(PacketsDelivered(log, ds), PacketsOf(before), log[m].packets);
      }
    }
  }

  // ---------------------------------------------------------------------------------------
  // What reaches the receiver's TUN device.

  // The packets written for one block: its rows, cut where their headers say.
  function WrittenRows(rows: Matrix<bv8>): (r: seq<Bytes>)
    ensures |r| == |rows|
  {
    if rows == [] then [] else WrittenRows(rows[..|rows| - 1]) + [Written(rows[|rows| - 1])]
  }

  // And for all blocks, in order.
  function WrittenTo(ds: seq<Delivery>): (r: seq<Bytes>)
  {
    if ds == [] then [] else WrittenTo(ds[..|ds| - 1]) + WrittenRows(ds[|ds| - 1].packets)
  }

  predicate AllZero(p: Bytes)
  {
    forall j :: 0 <= j < |p| ==> p[j] == 0
  }

  // Without the packets of zeros that filler slots give.
  function NonZeroOnly(ps: seq<Bytes>): (r: seq<Bytes>)
  {
    if ps == [] then []
    else NonZeroOnly(ps[..|ps| - 1]) + if AllZero(ps[|ps| - 1]) then [] else [ps[|ps| - 1]]
  }

  lemma {:induction false} NonZeroOfBoth(a: seq<Bytes>, b: seq<Bytes>)
    ensures NonZeroOnly(a + b) == NonZeroOnly(a) + NonZeroOnly(b)
    decreases |b|
  {
    if b == [] {
      assert a + b == a;
    } else {
      assert (a + b)[..|a + b| - 1] == a + b[..|b| - 1];
      NonZeroOfBoth(a, b[..|b| - 1]);
    }
  }

  lemma IpIsNotZero(p: Bytes)
    requires IsIp(p)
    ensures !AllZero(p)
  {
    NoVersion();
  }

  lemma ZerosAreZero(w: nat)
    ensures AllZero(ZeroBytes(w))
  {
    forall j | 0 <= j < w
      ensures ZeroBytes(w)[j] == 0
    {
      ZeroBytesAt(w, j);
    }
  }

  ghost predicate AllIp(ps: seq<Bytes>)
  {
    forall i :: 0 <= i < |ps| ==> IsIp(ps[i])
  }

  lemma {:induction false} WrittenRowAt(rows: Matrix<bv8>, i: nat)
    requires i < |rows|
    ensures WrittenRows(rows)[i] == Written(rows[i])
  {
    if i < |rows| - 1 {
      WrittenRowAt(rows[..|rows| - 1], i);
    }
  }

  // Packets that are not zero, followed by zeros.
  ghost predicate ThenZeros(all: seq<Bytes>, ps: seq<Bytes>)
  {
    && (forall i :: 0 <= i < |ps| ==> !AllZero(ps[i]))
    && forall i :: 0 <= i < |all| ==> if i < |ps| then all[i] == ps[i] else AllZero(all[i])
  }

  lemma {:induction false} WithoutZeros(all: seq<Bytes>, ps: seq<Bytes>)
    requires ThenZeros(all, ps)
    ensures NonZeroOnly(all) == if |all| < |ps| then ps[..|all|] else ps
    decreases |all|
  {
    if all != [] {
      WithoutZeros(all[..|all| - 1], ps);
    }
  }

  lemma BlockIsWritten(b: Block)
    requires b.Valid() && AllIp(b.packets)
    ensures NonZeroOnly(WrittenRows(b.Source())) == b.packets
  {
    var all := WrittenRows(b.Source());
    forall i | 0 <= i < b.k
      ensures if i < |b.packets| then all[i] == b.packets[i] && !AllZero(b.packets[i]) else AllZero(all[i])
    {
      WrittenRowAt(b.Source(), i);
      Paths.WrittenPackets(b, i);
      ZerosAreZero(b.Width());
      if i < |b.packets| {
        IpIsNotZero(b.packets[i]);
      }
    }
    WithoutZeros(all, b.packets);
  }

  lemma {:induction false} PacketIsOfLog(log: seq<Block>, d: nat, i: nat)
    requires d < |log| && i < |log[d].packets|
    ensures log[d].packets[i] in PacketsOf(log)
    decreases |log|
  {
    if d < |log| - 1 {
      PacketIsOfLog(log[..|log| - 1], d, i);
    }
  }

  lemma {:induction false} WrittenIsDelivered(log: seq<Block>, ds: seq<Delivery>)
    requires AreBlocks(log) && Faithful(log, ds) && AreDeliveries(log, ds)
    requires forall d :: 0 <= d < |log| ==> AllIp(log[d].packets)
    ensures NonZeroOnly(WrittenTo(ds)) == PacketsDelivered(log, ds)
    decreases |ds|
  {
    if ds != [] {
      var e := |ds| - 1;
      var b := log[ds[e].blockId];
      WrittenIsDelivered(log, ds[..e]);
      NonZeroOfBoth(WrittenTo(ds[..e]), WrittenRows(ds[e].packets));
      BlockIsWritten(b);
    }
  }

  lemma LogIsIp(log: seq<Block>)
    requires AllIp(PacketsOf(log))
    ensures forall d :: 0 <= d < |log| ==> AllIp(log[d].packets)
  {
    forall d, i | 0 <= d < |log| && 0 <= i < |log[d].packets|
      ensures IsIp(log[d].packets[i])
    {
      PacketIsOfLog(log, d, i);
    }
  }

  // The receiver behind a sender that has taken the given turns and shut down.  It is handed any
  // datagrams that the sender sent, in any order and any number of times.  If IP packets are
  // read, what it writes to its TUN device, fillers aside, is a subsequence of what was read.
  method ReceiveStream(loop: TxLoop, win: RxWindow, inputs: seq<Input>, ghost turns: seq<Turn>) returns (out: seq<Delivery>)
    requires IsLog(loop.log, loop.ctx, loop.wire) && AllSent(loop.wire, loop.sent)
    requires PacketsOf(loop.log) == PacketsRead(turns) && |loop.log| <= HALF - MAX_WINDOW
    requires win.Valid() && 1 <= win.slots.Length <= MAX_WINDOW && win.abs == InitWindow(win.slots.Length)
    requires forall j :: 0 <= j < |inputs| ==> DatagramIn(inputs[j]).Some? ==>
      exists x :: 0 <= x < |loop.sent| && loop.sent[x].bytes == inputs[j].bytes
    modifies win, win.slots
    ensures AreDeliveries(loop.log, out)
    ensures forall j :: 0 <= j < |out| ==> out[j].packets == loop.log[out[j].blockId].Source()
    ensures IsSubsequence(PacketsDelivered(loop.log, out), PacketsRead(turns))
    ensures AllIp(PacketsRead(turns)) ==> IsSubsequence(NonZeroOnly(WrittenTo(out)), PacketsRead(turns))
  {
    out := Tunnel(win, inputs, loop.ctx, loop.log, loop.wire);
    DeliveredInOrder(loop.log, out);
    if AllIp(PacketsRead(turns)) {
      LogIsBlocks(loop.log, loop.ctx, loop.wire);
      LogIsIp(loop.log);
      WrittenIsDelivered(loop.log, out);
    }
  }

  // ---------------------------------------------------------------------------------------
  // When nothing is missing.

  ghost function SourceOf(log: seq<Block>, d: nat): Delivery
    requires d < |log|
  {
    Delivery(d, log[d].Source())
  }

  lemma {:induction false} OneMoreSource(log: seq<Block>, d: nat, n: nat)
    requires d + n < |log|
    ensures Liveness.Sources(log, d, n + 1) == Liveness.Sources(log, d, n) + [SourceOf(log, d + n)]
    decreases n
  {
    if n > 0 {
      OneMoreSource(log, d + 1, n - 1);
    }
  }

  lemma {:induction false} SourcesCarryAll(log: seq<Block>, n: nat)
    requires n <= |log|
    ensures var ds := Liveness.Sources(log, 0, n);
      AreDeliveries(log, ds) && PacketsDelivered(log, ds) == PacketsOf(log[..n])
  {
    if n > 0 {
      SourcesCarryAll(log, n - 1);
      OneMoreSource(log, 0, n - 1);
      var ds := Liveness.Sources(log, 0, n - 1);
      assert (ds + [SourceOf(log, n - 1)])[..|ds|] == ds;
      assert log[..n][..n - 1] == log[..n - 1];
    }
  }

  lemma FreshIsReady(log: seq<Block>, size: nat)
    requires AreBlocks(log) && size >= 1
    ensures var w := InitWindow(size);
      WindowRuns.Invariant(w) && Liveness.Ready(w, 0) && WindowHolds(log, w) && Within(log, w)
  {
    WindowRuns.InitInv(size);
    assert !InitWindow(size).slots[0].Occupied();
  }

  // The receiver behind an in-order channel: of every block enough shards arrive in time and
  // before the next block begins.  Then everything read is written, in order, and nothing else
  // but fillers.
  method ReceiveEverything(loop: TxLoop, win: RxWindow, inputs: seq<Input>,
                           ghost turns: seq<Turn>, ghost batches: seq<seq<Arrival>>) returns (out: seq<Delivery>)
    requires IsLog(loop.log, loop.ctx, loop.wire) && AreBlocks(loop.log)
    requires PacketsOf(loop.log) == PacketsRead(turns) && |loop.log| <= HALF - MAX_WINDOW
    requires win.Valid() && 1 <= win.slots.Length <= MAX_WINDOW && win.abs == InitWindow(win.slots.Length)
    requires Match(loop.log, loop.ctx, DatagramsIn(inputs), Liveness.Flat(batches))
    requires |batches| == |loop.log| && Liveness.InOrderChannel(loop.log, 0, batches)
    modifies win, win.slots
    ensures out == Liveness.Sources(loop.log, 0, |loop.log|)
    ensures AllIp(PacketsRead(turns)) ==> NonZeroOnly(WrittenTo(out)) == PacketsRead(turns)
  {
    ghost var log, arrivals := loop.log, Liveness.Flat(batches);
    EverythingIsReceivable(log, loop.ctx, win.slots.Length, DatagramsIn(inputs), batches);
    out := TunnelAcrossWrap(win, inputs, loop.ctx, log, arrivals);
    SourcesAreWritten(log);
  }

  lemma EverythingIsReceivable(log: seq<Block>, ctx: Crypto.Ctx, size: nat, ds: seq<Datagram>, batches: seq<seq<Arrival>>)
    requires AreBlocks(log) && |log| <= HALF - MAX_WINDOW && 1 <= size <= MAX_WINDOW
    requires Match(log, ctx, ds, Liveness.Flat(batches))
    requires |batches| == |log| && Liveness.InOrderChannel(log, 0, batches)
    ensures var w, arrivals := InitWindow(size), Liveness.Flat(batches);
      && WindowRuns.Invariant(w) && WindowHolds(log, w)
      && AllShards(log, arrivals) && AllReceivable(w, ctx, ds, arrivals)
      && WindowRuns.Run(w, arrivals).1 == Liveness.Sources(log, 0, |log|)
  {
    var w, arrivals := InitWindow(size), Liveness.Flat(batches);
    FreshIsReady(log, size);
    MatchedAreShards(log, ctx, ds, arrivals);
    ShortRunsAreReceivable(log, ctx, w, ds, arrivals);
    Liveness.InOrderChannelDelivers(log, w, 0, batches);
  }

  lemma {:induction false} SourcesAreWritten(log: seq<Block>)
    requires AreBlocks(log) && |log| <= HALF
    ensures var ds := Liveness.Sources(log, 0, |log|);
      && WrappedAll(ds) == ds
      && (Faithful(log, ds) && AllIp(PacketsOf(log)) ==> NonZeroOnly(WrittenTo(ds)) == PacketsOf(log))
  {
    var ds := Liveness.Sources(log, 0, |log|);
    SourcesCarryAll(log, |log|);
    assert log[..|log|] == log;
    NothingWraps(ds);
    if Faithful(log, ds) && AllIp(PacketsOf(log)) {
      LogIsIp(log);
      WrittenIsDelivered(log, ds);
    }
  }
}
