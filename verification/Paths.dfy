/**
 Shards, paths and losses together: when one path without losses is enough, and what the
 receiver writes to the TUN device.
 */
module Paths {
  import opened LinearAlgebra
  import opened Codec
  import opened Encoder
  import opened Erasure
  import opened Selection
  import Gf256
  import opened Wire
  import Scheduler
  import Service
  import opened Tx
  import opened UnboundedWindow
  import opened EndToEnd
  import opened IpPackets

  // How many of the datagrams take a path.
  ghost function CountOn(out: seq<Sent>, path: int): (r: nat)
  {
    if out == [] then 0 else CountOn(out[..|out| - 1], path) + if out[|out| - 1].path == path then 1 else 0
  }

  lemma CountOnOneMore(out: seq<Sent>, s: Sent, path: int)
    ensures CountOn(out + [s], path) == CountOn(out, path) + if s.path == path then 1 else 0
  {
    assert (out + [s])[..|out|] == out;
  }

  lemma {:induction false} CountPositive(out: seq<Sent>, path: int) returns (j: nat)
    requires CountOn(out, path) >= 1
    ensures j < |out| && out[j].path == path
  {
    var m := |out| - 1;
    if out[m].path == path {
      j := m;
    } else {
      j := CountPositive(out[..m], path);
    }
  }

  // The datagrams of a block go where the scheduler's run says.
  lemma {:induction false} DispatchFollowsPicks(bytes: seq<Bytes>, u: seq<bool>, w: seq<nat>, c: seq<int>, i: nat)
    requires Scheduler.SameLength(u, w, c) && Scheduler.SomeUsable(u)
    ensures |Dispatched(bytes, u, w, c)| == |bytes|
    ensures CountOn(Dispatched(bytes, u, w, c), i) == Scheduler.Picks(u, w, c, |bytes|, i)
    decreases |bytes|
  {
    if bytes != [] {
      var m := |bytes| - 1;
      DispatchFollowsPicks(bytes[..m], u, w, c, i);
      CountOnOneMore(Dispatched(bytes[..m], u, w, c), Sent(PathOf(u, w, c, m), bytes[m]), i);
      OneMorePick(u, w, c, m, i);
    }
  }

  lemma OneMorePick(u: seq<bool>, w: seq<nat>, c: seq<int>, m: nat, i: nat)
    requires Scheduler.SameLength(u, w, c) && Scheduler.SomeUsable(u)
    ensures Scheduler.Picks(u, w, c, m + 1, i) == Scheduler.Picks(u, w, c, m, i) + if PathOf(u, w, c, m) == i then 1 else 0
  {
    var now := Scheduler.After(u, w, c, m);
    Scheduler.RunsCompose(u, w, c, m, 1, i);
    assert Scheduler.Picks(u, w, Scheduler.Next(u, w, now), 0, i) == 0;
  }

  // They leave in order.
  lemma {:induction false} DispatchKeepsOrder(bytes: seq<Bytes>, u: seq<bool>, w: seq<nat>, c: seq<int>, j: nat)
    requires Scheduler.SameLength(u, w, c) && Scheduler.SomeUsable(u) && j < |bytes|
    ensures |Dispatched(bytes, u, w, c)| == |bytes| && Dispatched(bytes, u, w, c)[j].bytes == bytes[j]
    decreases |bytes|
  {
    var m := |bytes| - 1;
    DispatchFollowsPicks(bytes[..m], u, w, c, 0);
    if j < m {
      DispatchKeepsOrder(bytes[..m], u, w, c, j);
    }
  }

  // Path i carries a datagram of a block exactly when the block has more shards than the path
  // has to wait for.
  lemma PathIsUsed(bytes: seq<Bytes>, u: seq<bool>, w: seq<nat>, c: seq<int>, i: nat)
    requires Scheduler.InRange(u, w, c) && Scheduler.SomeUsable(u) && i < |u| && u[i]
    ensures CountOn(Dispatched(bytes, u, w, c), i) >= 1 <==> |bytes| > Service.Wait(u, w, c, i)
  {
    DispatchFollowsPicks(bytes, u, w, c, i);
    Service.ServedExactly(u, w, c, |bytes|, i);
  }

  // With k = 1 any shard of a block decodes it.
  lemma OneShardSuffices(b: Block, s: Slot, stray: Option<Matrix<bv8>>)
    requires b.Valid() && b.k == 1 && WellFormedSlot(s) && HoldsShards(b, s) && s.recvCount >= 1
    ensures Outcome(s, 1, stray) == Some(b.Source())
  {
    OneLossIsRecovered(b, s, stray);
  }

  // So with k = 1 a path that loses nothing is enough for every block with more shards than the
  // path's wait: one of them takes the path, and that one decodes.
  lemma LosslessPathSuffices(b: Block, bytes: seq<Bytes>, u: seq<bool>, w: seq<nat>, c: seq<int>, i: nat,
                             s: Slot, stray: Option<Matrix<bv8>>) returns (j: nat)
    requires b.Valid() && b.k == 1 && |bytes| == b.n
    requires Scheduler.InRange(u, w, c) && Scheduler.SomeUsable(u) && i < |u| && u[i]
    requires b.n > Service.Wait(u, w, c, i)
    requires WellFormedSlot(s) && HoldsShards(b, s)
    ensures j < b.n == |Dispatched(bytes, u, w, c)| && Dispatched(bytes, u, w, c)[j] == Sent(i, bytes[j])
    ensures s.received[j] ==> Outcome(s, 1, stray) == Some(b.Source())
  {
    PathIsUsed(bytes, u, w, c, i);
    DispatchFollowsPicks(bytes, u, w, c, i);
    j := CountPositive(Dispatched(bytes, u, w, c), i);
    DispatchKeepsOrder(bytes, u, w, c, j);
    if s.received[j] {
      CountReceived(s.received, j, |s.received|);
      OneShardSuffices(b, s, stray);
    }
  }

  // ---------------------------------------------------------------------------------------
  // The same for any k.

  // Which of the datagrams take a path.
  function PathFlags(out: seq<Sent>, path: int): (r: seq<bool>)
    ensures |r| == |out|
    ensures forall j :: 0 <= j < |out| ==> r[j] == (out[j].path == path)
  {
    if out == [] then [] else PathFlags(out[..|out| - 1], path) + [out[|out| - 1].path == path]
  }

  lemma {:induction false} SameCount(a: seq<bool>, b: seq<bool>, n: nat)
    requires n <= |a| && n <= |b| && forall j :: 0 <= j < n ==> a[j] == b[j]
    ensures Count(a, n) == Count(b, n)
  {
    if n > 0 {
      SameCount(a, b, n - 1);
    }
  }

  lemma {:induction false} FlagsCount(out: seq<Sent>, path: int)
    ensures Count(PathFlags(out, path), |out|) == CountOn(out, path)
  {
    if out != [] {
      var m := |out| - 1;
      FlagsCount(out[..m], path);
      SameCount(PathFlags(out, path), PathFlags(out[..m], path), m);
    }
  }

  // Whatever else arrives, these shards do.
  ghost predicate Includes(received: seq<bool>, flags: seq<bool>)
  {
    |received| == |flags| && forall j :: 0 <= j < |flags| && flags[j] ==> received[j]
  }

  lemma {:induction false} CountMonotone(received: seq<bool>, flags: seq<bool>, n: nat)
    requires Includes(received, flags) && n <= |flags|
    ensures Count(flags, n) <= Count(received, n)
  {
    if n > 0 {
      CountMonotone(received, flags, n - 1);
    }
  }

  // The shards on a path guarantee decoding, for every set of received shards that includes
  // them and every draw of the coefficients, exactly when there are at least k of them and they
  // lack at most one of the packets themselves.
  lemma LosslessPathExactly(k: nat, flags: seq<bool>)
    requires k <= |flags|
    ensures (forall received: seq<bool>, draws: Matrix<bv8> :: Includes(received, flags) && EnoughDraws(draws, k, |flags|) ==>
        LowestDecode(Gf256.Gf(), k, draws, received))
      <==> Count(flags, |flags|) >= k && AtMostOneLost(flags, k)
  {
    var f, n := Gf256.Gf(), |flags|;
    Gf256.GfIsField();
    if Count(flags, n) >= k && AtMostOneLost(flags, k) {
      forall received: seq<bool>, draws: Matrix<bv8> | Includes(received, flags) && EnoughDraws(draws, k, n)
        ensures LowestDecode(f, k, draws, received)
      {
        CountMonotone(received, flags, n);
        OneLossIsDecoded(f, k, n, draws, received);
      }
    } else {
      var draws := NotGuaranteed(k, flags);
      assert Includes(flags, flags);
    }
  }

  lemma NotGuaranteed(k: nat, flags: seq<bool>) returns (draws: Matrix<bv8>)
    requires k <= |flags| && !(Count(flags, |flags|) >= k && AtMostOneLost(flags, k))
    ensures EnoughDraws(draws, k, |flags|) && !LowestDecode(Gf256.Gf(), k, draws, flags)
  {
    var n := |flags|;
    Gf256.GfIsField();
    draws := OnesRows(Gf256.Gf(), k, n - k);
    ChosenCount(flags, n, k);
    if Count(flags, n) >= k {
      GuaranteedLoss(Gf256.Gf(), k, n, flags);
      draws :| EnoughDraws(draws, k, n) && Singular(Gf256.Gf(), ChosenRows(Gf256.Gf(), k, Chosen(flags, n, k), draws, k));
    }
  }

  // README.md (line 508): with k = 4 and eight shards over four paths of weight one, a path
  // carries two shards of a block sent when all credits are spent, as after every full round.
  // They reach every path, but a path without losses does not guarantee decoding.
  lemma TwoShardsAreNotFour(bytes: seq<Bytes>, path: nat)
    requires |bytes| == 8 && path < 4
    ensures var flags := PathFlags(Dispatched(bytes, FourPaths(), [1, 1, 1, 1], [0, 0, 0, 0]), path);
      && |flags| == 8 && Count(flags, 8) == 2
      && !(forall received: seq<bool>, draws: Matrix<bv8> :: Includes(received, flags) && EnoughDraws(draws, 4, |flags|) ==>
        LowestDecode(Gf256.Gf(), 4, draws, received))
  {
    var out := Dispatched(bytes, FourPaths(), [1, 1, 1, 1], [0, 0, 0, 0]);
    TwoOfEight(path, |bytes|);
    DispatchFollowsPicks(bytes, FourPaths(), [1, 1, 1, 1], [0, 0, 0, 0], path);
    FlagsCount(out, path);
    LosslessPathExactly(4, PathFlags(out, path));
  }

  lemma TwoOfEight(path: nat, n: nat)
    requires path < 4 && n == 8
    ensures Scheduler.SomeUsable(FourPaths())
    ensures Scheduler.Picks(FourPaths(), [1, 1, 1, 1], [0, 0, 0, 0], n, path) == 2
  {
    assert FourPaths()[0];
    FourShardsAPeriod();
    TwoPeriods(FourPaths(), [1, 1, 1, 1], [0, 0, 0, 0], path);
  }

  // From spent credits, two periods serve a path twice over.
  lemma TwoPeriods(u: seq<bool>, w: seq<nat>, c: seq<int>, i: nat)
    requires Scheduler.InRange(u, w, c) && Scheduler.SomeUsable(u) && Scheduler.Spent(u, c) && i < |u|
    ensures Scheduler.Period(u, w) >= 1
    ensures Scheduler.Picks(u, w, c, 2 * Scheduler.Period(u, w), i) == if u[i] then 2 * w[i] else 0
  {
    Scheduler.OnePeriod(u, w, c, i);
    var n := Scheduler.Period(u, w);
    Scheduler.RunsCompose(u, w, c, n, n, i);
  }

  function FourPaths(): seq<bool> { [true, true, true, true] }

  lemma FourShardsAPeriod()
    ensures Scheduler.Period(FourPaths(), [1, 1, 1, 1]) == 4
  {
    var u, w := FourPaths(), [1, 1, 1, 1];
    assert Scheduler.Total(u, w, 0) == 0 && Scheduler.Total(u, w, 1) == 1 && Scheduler.Total(u, w, 2) == 2;
    assert Scheduler.Total(u, w, 3) == 3;
  }

  // At the receiver: a slot that holds the shards of a path that are enough decodes.
  lemma LosslessPathDecodes(b: Block, flags: seq<bool>, s: Slot, stray: Option<Matrix<bv8>>)
    requires b.Valid() && WellFormedSlot(s) && HoldsShards(b, s) && Includes(s.received, flags)
    requires Count(flags, |flags|) >= b.k && AtMostOneLost(flags, b.k)
    ensures Outcome(s, b.k, stray) == Some(b.Source())
  {
    CountMonotone(s.received, flags, |flags|);
    OneLossIsRecovered(b, s, stray);
  }

  // A slot decodes whenever some k of its shards are independent, if it holds just k shards or at
  // most one packet was lost.
  lemma IndependentShardsDecode(b: Block, s: Slot, stray: Option<Matrix<bv8>>)
    requires b.Valid() && WellFormedSlot(s) && HoldsShards(b, s) && s.recvCount >= b.k
    requires s.recvCount == b.k || AtMostOneLost(s.received, b.k)
    requires Solvable(Gf256.Gf(), b.k, b.draws, s.received)
    ensures Outcome(s, b.k, stray) == Some(b.Source())
  {
    Gf256.GfIsField();
    ChoiceCannotFail(Gf256.Gf(), b.k, s.received, b.draws);
    OutcomeIsSource(b, s, stray);
  }

  lemma {:induction false} CountReceived(received: seq<bool>, j: nat, n: nat)
    requires j < n <= |received| && received[j]
    ensures Count(received, n) >= 1
  {
    if j < n - 1 {
      CountReceived(received, j, n - 1);
    }
  }

  // What the receiver writes for a block of IP packets: the packets, byte for byte, and for
  // every slot that was not filled a run of zeros.
  lemma WrittenPackets(b: Block, i: nat)
    requires b.Valid() && i < b.k
    requires forall j :: 0 <= j < |b.packets| ==> IsIp(b.packets[j])
    ensures Written(b.Source()[i]) == if i < |b.packets| then b.packets[i] else ZeroBytes(b.Width())
  {
    PaddedAt(b.packets, b.Width(), b.k, i);
    if i < |b.packets| {
      LongestBelow(b.packets, MAX_PAYLOAD);
      IpPacketIsRecovered(b.packets[i], b.Width());
    } else {
      FillerIsWritten(b.Width());
    }
  }
}
