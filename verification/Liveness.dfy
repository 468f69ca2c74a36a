/**
 When everything is delivered.  If no shard of a block arrives before enough of the block before
 it have, the receiver delivers every block of which enough shards arrive in time: at least k of
 them, with at most one of the packets themselves missing.  Shards left over may arrive at any
 time later.
 */
module Liveness {
  import opened LinearAlgebra
  import opened Codec
  import opened Erasure
  import opened Tx
  import opened UnboundedWindow
  import opened WindowRuns
  import opened EndToEnd

  // The flags of block d after more shards have been received.
  function Flags(received: seq<bool>, d: int, arrivals: seq<Arrival>): (r: seq<bool>)
    ensures |r| == |received|
    decreases |arrivals|
  {
    if arrivals == [] then received
    else
      var i := arrivals[0].shardIdx;
      Flags(if arrivals[0].blockId == d && i < |received| then received[i := true] else received, d, arrivals[1..])
  }

  ghost predicate Enough(received: seq<bool>, k: nat)
    requires k <= |received|
  {
    Count(received, |received|) >= k && AtMostOneLost(received, k)
  }

  // All arrivals are shards of block d, or of blocks before it.
  ghost predicate AreOf(log: seq<Block>, d: nat, arrivals: seq<Arrival>)
    requires AreBlocks(log)
  {
    d < |log| && forall i :: 0 <= i < |arrivals| ==> IsShard(log, arrivals[i]) && arrivals[i].blockId <= d
  }

  // No clock reading is 50 ms after t.
  ghost predicate Timely(arrivals: seq<Arrival>, t: nat)
  {
    forall i :: 0 <= i < |arrivals| ==> !Expired(Reading(arrivals[i].clock, 0), t)
  }

  // Block d does not time out, whichever of its shards arrives first.
  ghost predicate InTime(d: int, arrivals: seq<Arrival>)
  {
    forall i :: 0 <= i < |arrivals| && arrivals[i].blockId == d ==> Timely(arrivals[i..], arrivals[i].insertUs)
  }

  // Base is at d, and nothing of block d or a later one is held; there is room.
  ghost predicate Ready(w: Window, d: int)
  {
    && Invariant(w) && w.base == d
    && (forall j :: 0 <= j < |w.slots| && w.slots[j].Occupied() ==> w.slots[j].blockId < d)
    && exists j :: 0 <= j < |w.slots| && !w.slots[j].Occupied()
  }

  // The slot that block d has or would get.
  function Current(w: Window, d: int): Slot
    requires Find(w, d) < |w.slots|
  {
    Claimed(w.slots[Find(w, d)], d)
  }

  // Base is at d, and too little of block d has been received.
  ghost predicate Waiting(w: Window, d: int, k: nat)
  {
    && Invariant(w) && w.base == d && Find(w, d) < |w.slots|
    && |Current(w, d).received| == MAX_N && k <= MAX_N && !Enough(Current(w, d).received, k)
  }

  // ---------------------------------------------------------------------------------------
  // Shards that come after their block was delivered.

  lemma NothingToAdvance(w: Window, d: int, clock: seq<nat>)
    requires Ready(w, d)
    ensures Advance(w, clock, 0) == w
  {
    NothingAtOrAhead(w, Reading(clock, 0));
  }

  lemma {:induction false} LateShardsAreIgnored(log: seq<Block>, w: Window, d: nat, arrivals: seq<Arrival>)
    requires AreBlocks(log) && Ready(w, d + 1) && AreOf(log, d, arrivals)
    ensures Run(w, arrivals) == (w, [])
    decreases |arrivals|
  {
    if arrivals != [] {
      var a := arrivals[0];
      assert a.blockId <= d;
      OutsideIsIgnored(w, a);
      NothingToAdvance(w, d + 1, a.clock);
      assert AreOf(log, d, arrivals[1..]);
      LateShardsAreIgnored(log, w, d, arrivals[1..]);
      var none: seq<Delivery> := [];
      assert none + none == [];
    }
  }

  ghost function AsSeq(d: Option<Delivery>): (r: seq<Delivery>)
  {
    if d.Some? then [d.value] else []
  }

  lemma RunFirst(w: Window, a: Arrival, rest: seq<Arrival>)
    requires Invariant(w)
    ensures Invariant(Step(w, a).0)
    ensures Run(w, [a] + rest) == (Run(Step(w, a).0, rest).0, AsSeq(Step(w, a).1) + Run(Step(w, a).0, rest).1)
  {
    StepKeepsInv(w, a);
    assert ([a] + rest)[1..] == rest;
  }

  // ---------------------------------------------------------------------------------------
  // One block.

  lemma FilledFlags(w: Window, a: Arrival)
    requires Invariant(w) && a.blockId == w.base && Find(w, a.blockId) < |w.slots| && a.shardIdx < MAX_N
    ensures var c, s := Current(w, a.blockId), Filled(w, a);
      && |c.received| == MAX_N && !c.decoded
      && s.Occupied() && s.blockId == a.blockId && !s.decoded && s.received == c.received[a.shardIdx := true]
      && s.firstRecvUs == if c.Occupied() then c.firstRecvUs else a.insertUs
  {
    FreeSlotWellFormed();
    var c := Current(w, a.blockId);
    FilledWellFormed(w, a);
    CurrentCounts(c, a.shardIdx);
    if c.received[a.shardIdx] {
      assert c.received[a.shardIdx := true] == c.received;
    }
  }

  lemma CurrentCounts(c: Slot, i: nat)
    requires WellFormedSlot(c) && i < MAX_N
    ensures c.received[i] ==> c.recvCount > 0
  {
    if c.received[i] {
      CountHasOne(c.received, i, |c.received|);
    }
  }

  lemma {:induction false} CountHasOne(received: seq<bool>, i: nat, n: nat)
    requires i < n <= |received| && received[i]
    ensures Count(received, n) > 0
  {
    if i < n - 1 {
      CountHasOne(received, i, n - 1);
    }
  }

  // A shard that completes the block: it is delivered, and base moves on.
  lemma CompletingStep(log: seq<Block>, w: Window, a: Arrival)
    requires AreBlocks(log) && Invariant(w) && WindowHolds(log, w) && IsShard(log, a) && a.blockId == w.base
    requires Decodable(w, a)
    ensures var (u, d) := Step(w, a);
      Ready(u, w.base + 1) && WindowHolds(log, u) && d == Some(Delivery(w.base, log[a.blockId].Source()))
  {
    StepHolds(log, w, a);
    DecodedStepIsReady(w, a);
    StepIs(w, a);
  }

  lemma DecodedStepIsReady(w: Window, a: Arrival)
    requires Invariant(w) && a.blockId == w.base && a.k >= 1 && Decodable(w, a)
    ensures Ready(Step(w, a).0, w.base + 1)
  {
    StepIs(w, a);
    StepKeepsInv(w, a);
    StepDelivers(w, a);
    var i, v := Find(w, a.blockId), Received(w, a);
    FilledWellFormed(w, a);
    ReceivedDistinct(w, a);
    NoneAhead(w, a);
    assert DecodedAhead(v, i);
    AdvanceRemovesDecoded(v, a.clock, 0, i);
    AdvanceFrame(v, a.clock, 0);
    FramedBehind(v, Step(w, a).0, w.base);
  }

  lemma NoneAhead(w: Window, a: Arrival)
    requires Invariant(w) && a.blockId == w.base && Find(w, a.blockId) < |w.slots|
    ensures forall j :: 0 <= j < |w.slots| && Received(w, a).slots[j].Occupied() ==> Received(w, a).slots[j].blockId <= w.base
  {
    FilledWellFormed(w, a);
  }

  lemma FramedBehind(v: Window, u: Window, top: int)
    requires Frame(v, u) && forall j :: 0 <= j < |v.slots| && v.slots[j].Occupied() ==> v.slots[j].blockId <= top
    ensures forall j :: 0 <= j < |u.slots| && u.slots[j].Occupied() ==> u.slots[j].blockId < top + 1
  {
  }

  // A shard that does not: the window waits, one more shard received.
  lemma WaitingStep(log: seq<Block>, w: Window, a: Arrival)
    requires AreBlocks(log) && Invariant(w) && WindowHolds(log, w) && IsShard(log, a) && a.blockId == w.base
    requires Find(w, a.blockId) < |w.slots| && !Decodable(w, a)
    requires a.shardIdx < MAX_N && !Expired(Reading(a.clock, 0), Filled(w, a).firstRecvUs)
    ensures Step(w, a) == (Received(w, a), None)
    ensures var v := Received(w, a); Find(v, w.base) < |v.slots| && Current(v, w.base) == Filled(w, a)
    ensures Waiting(Received(w, a), w.base, log[a.blockId].k)
  {
    var i, s, v := Find(w, a.blockId), Filled(w, a), Received(w, a);
    StepIs(w, a);
    StepKeepsInv(w, a);
    FilledFlags(w, a);
    ReceivedDistinct(w, a);
    SlotOfDistinct(v.slots, w.base, i);
    assert AdvanceOnce(v, Reading(a.clock, 0)).None?;
    NotEnough(log[a.blockId], log, w, a);
  }

  lemma NotEnough(b: Block, log: seq<Block>, w: Window, a: Arrival)
    requires AreBlocks(log) && Invariant(w) && WindowHolds(log, w) && IsShard(log, a) && b == log[a.blockId]
    requires Find(w, a.blockId) < |w.slots| && !Decodable(w, a) && !Filled(w, a).decoded
    ensures |Filled(w, a).received| == MAX_N && !Enough(Filled(w, a).received, b.k)
  {
    FilledHolds(log, w, a);
    if Enough(Filled(w, a).received, b.k) {
      OneLossIsRecovered(b, Filled(w, a), a.stray);
    }
  }

  // The arrivals complete block d in time.
  ghost predicate Awaits(log: seq<Block>, w: Window, d: nat, arrivals: seq<Arrival>)
    requires AreBlocks(log)
  {
    forall e {:trigger Look(e)} :: Look(e) ==>
      && AreOf(log, d, arrivals) && Waiting(w, d, log[d].k) && WindowHolds(log, w)
      && Enough(Flags(Current(w, d).received, d, arrivals), log[d].k)
      && InTime(d, arrivals) && (Current(w, d).Occupied() ==> Timely(arrivals, Current(w, d).firstRecvUs))
  }

  lemma CompletingShard(log: seq<Block>, w: Window, d: nat, arrivals: seq<Arrival>)
    requires AreBlocks(log) && AreOf(log, d, arrivals) && arrivals != []
    requires Invariant(w) && w.base == d && WindowHolds(log, w)
    requires arrivals[0].blockId == d && Decodable(w, arrivals[0])
    ensures var (u, delivery) := Step(w, arrivals[0]);
      && Invariant(u) && Ready(u, d + 1) && Run(u, arrivals[1..]) == (u, [])
      && delivery == Some(Delivery(d, log[d].Source()))
  {
    var a := arrivals[0];
    assert IsShard(log, a) && a.blockId == d;
    CompletingStep(log, w, a);
    assert AreOf(log, d, arrivals[1..]);
    LateShardsAreIgnored(log, Step(w, a).0, d, arrivals[1..]);
  }

  lemma WaitingShard(log: seq<Block>, w: Window, d: nat, arrivals: seq<Arrival>)
    requires AreBlocks(log) && AreOf(log, d, arrivals) && Waiting(w, d, log[d].k) && WindowHolds(log, w)
    requires Enough(Flags(Current(w, d).received, d, arrivals), log[d].k)
    requires InTime(d, arrivals) && (Current(w, d).Occupied() ==> Timely(arrivals, Current(w, d).firstRecvUs))
    requires arrivals != [] && arrivals[0].blockId == d && !Decodable(w, arrivals[0])
    ensures Invariant(Step(w, arrivals[0]).0)
    ensures Step(w, arrivals[0]).1 == None && Awaits(log, Step(w, arrivals[0]).0, d, arrivals[1..])
  {
    var a := arrivals[0];
    assert IsShard(log, a) && a.blockId == d;
    FilledFlags(w, a);
    FlagsOfFirst(Current(w, d).received, d, arrivals);
    RestIsTimely(d, arrivals, Current(w, d), Filled(w, a));
    RestIsOf(log, d, arrivals);
    WaitingStep(log, w, a);
    StepHolds(log, w, a);
  }

  lemma RestIsOf(log: seq<Block>, d: nat, arrivals: seq<Arrival>)
    requires AreBlocks(log) && AreOf(log, d, arrivals) && arrivals != []
    ensures AreOf(log, d, arrivals[1..])
  {
  }

  // The first shard is in time for its slot, and the rest for the slot afterwards.
  lemma RestIsTimely(d: int, arrivals: seq<Arrival>, c: Slot, s: Slot)
    requires arrivals != [] && arrivals[0].blockId == d
    requires InTime(d, arrivals) && (c.Occupied() ==> Timely(arrivals, c.firstRecvUs))
    requires s.firstRecvUs == if c.Occupied() then c.firstRecvUs else arrivals[0].insertUs
    ensures !Expired(Reading(arrivals[0].clock, 0), s.firstRecvUs)
    ensures InTime(d, arrivals[1..]) && Timely(arrivals[1..], s.firstRecvUs)
  {
    RestInTime(d, arrivals);
  }

  lemma FlagsOfFirst(received: seq<bool>, d: int, arrivals: seq<Arrival>)
    requires arrivals != [] && arrivals[0].blockId == d && arrivals[0].shardIdx < |received|
    ensures Flags(received, d, arrivals) == Flags(received[arrivals[0].shardIdx := true], d, arrivals[1..])
  {
  }

  // A shard of an earlier block changes nothing.
  lemma LateStep(w: Window, d: int, k: nat, a: Arrival)
    requires Waiting(w, d, k) && a.blockId < d
    requires Current(w, d).Occupied() ==> !Expired(Reading(a.clock, 0), Current(w, d).firstRecvUs)
    ensures Step(w, a) == (w, None)
  {
    OutsideIsIgnored(w, a);
    var i := SlotOf(w.slots, d, 0);
    assert i < |w.slots| ==> Find(w, d) == i && Current(w, d) == w.slots[i] && !w.slots[i].decoded;
    assert AdvanceOnce(w, Reading(a.clock, 0)).None?;
  }

  lemma LateShard(log: seq<Block>, w: Window, d: nat, arrivals: seq<Arrival>)
    requires AreBlocks(log) && AreOf(log, d, arrivals) && Waiting(w, d, log[d].k) && WindowHolds(log, w)
    requires Enough(Flags(Current(w, d).received, d, arrivals), log[d].k)
    requires InTime(d, arrivals) && (Current(w, d).Occupied() ==> Timely(arrivals, Current(w, d).firstRecvUs))
    requires arrivals != [] && arrivals[0].blockId < d
    ensures Step(w, arrivals[0]) == (w, None) && Awaits(log, w, d, arrivals[1..])
  {
    LateStep(w, d, log[d].k, arrivals[0]);
    RestInTime(d, arrivals);
  }

  lemma NextShard(log: seq<Block>, w: Window, d: nat, arrivals: seq<Arrival>)
    requires AreBlocks(log) && d < |log| && Invariant(w) && Awaits(log, w, d, arrivals)
    ensures arrivals != []
    ensures var (u, delivery) := Step(w, arrivals[0]);
      && Invariant(u)
      && (delivery == Some(Delivery(d, log[d].Source())) || delivery == None)
      && (delivery.Some? ==> Run(u, arrivals[1..]) == (u, []) && Ready(u, d + 1))
      && (delivery.None? ==> Awaits(log, u, d, arrivals[1..]))
  {
    assert Look(true);
    if arrivals != [] && arrivals[0].blockId < d {
      LateShard(log, w, d, arrivals);
    } else if arrivals != [] && Decodable(w, arrivals[0]) {
      CompletingShard(log, w, d, arrivals);
    } else {
      WaitingShard(log, w, d, arrivals);
    }
  }

  lemma {:induction false} WaitingBlockIsDelivered(log: seq<Block>, w: Window, d: nat, arrivals: seq<Arrival>)
    requires AreBlocks(log) && d < |log| && Invariant(w) && Awaits(log, w, d, arrivals)
    ensures Ready(Run(w, arrivals).0, d + 1)
    ensures Run(w, arrivals).1 == [Delivery(d, log[d].Source())]
    decreases |arrivals|
  {
    NextShard(log, w, d, arrivals);
    assert arrivals == [arrivals[0]] + arrivals[1..];
    RunFirst(w, arrivals[0], arrivals[1..]);
    var (u, delivery) := Step(w, arrivals[0]);
    if delivery.None? {
      WaitingBlockIsDelivered(log, u, d, arrivals[1..]);
    }
  }

  lemma RestInTime(d: int, arrivals: seq<Arrival>)
    requires InTime(d, arrivals) && arrivals != []
    ensures InTime(d, arrivals[1..]) && (arrivals[0].blockId == d ==> Timely(arrivals, arrivals[0].insertUs))
    ensures forall t :: Timely(arrivals, t) ==> Timely(arrivals[1..], t)
  {
    assert arrivals[0..] == arrivals;
    forall i | 0 <= i < |arrivals| - 1 && arrivals[1..][i].blockId == d
      ensures Timely(arrivals[1..][i..], arrivals[1..][i].insertUs)
    {
      assert arrivals[1..][i..] == arrivals[i + 1..];
      assert arrivals[1..][i] == arrivals[i + 1];
    }
  }

  // ---------------------------------------------------------------------------------------
  // All blocks.

  // Batch x brings enough of block d + x in time, and any shards of blocks before it.
  ghost predicate InOrderChannel(log: seq<Block>, d: nat, batches: seq<seq<Arrival>>)
    requires AreBlocks(log)
  {
    forall x :: 0 <= x < |batches| ==>
      && AreOf(log, d + x, batches[x]) && InTime(d + x, batches[x])
      && log[d + x].k <= MAX_N && Enough(Flags(NoFlags(MAX_N), d + x, batches[x]), log[d + x].k)
  }

  ghost function Flat(batches: seq<seq<Arrival>>): seq<Arrival>
  {
    if batches == [] then [] else batches[0] + Flat(batches[1..])
  }

  // The deliveries of n blocks from d on.
  ghost function Sources(log: seq<Block>, d: nat, n: nat): seq<Delivery>
    requires d + n <= |log|
    decreases n
  {
    if n == 0 then [] else [Delivery(d, log[d].Source())] + Sources(log, d + 1, n - 1)
  }

  lemma ReadyIsWaiting(w: Window, d: int, k: nat)
    requires Ready(w, d) && 1 <= k <= MAX_N
    ensures Waiting(w, d, k) && !Current(w, d).Occupied() && Current(w, d).received == NoFlags(MAX_N)
  {
    NoSlotOf(w.slots, d, 0);
    CountNoFlags(NoFlags(MAX_N), |NoFlags(MAX_N)|);
  }

  lemma {:induction false} RunAppend(w: Window, first: seq<Arrival>, second: seq<Arrival>)
    requires Invariant(w)
    ensures Run(w, first + second).0 == Run(Run(w, first).0, second).0
    ensures Run(w, first + second).1 == Run(w, first).1 + Run(Run(w, first).0, second).1
    decreases |first|
  {
    if first == [] {
      assert first + second == second;
    } else {
      var a, rest := first[0], first[1..];
      assert first == [a] + rest && first + second == [a] + (rest + second);
      RunFirst(w, a, rest);
      RunFirst(w, a, rest + second);
      RunAppend(Step(w, a).0, rest, second);
      Associative(AsSeq(Step(w, a).1), Run(Step(w, a).0, rest).1, Run(Run(w, first).0, second).1);
    }
  }

  lemma Associative<T>(a: seq<T>, b: seq<T>, c: seq<T>)
    ensures (a + b) + c == a + (b + c)
  {
  }

  lemma FirstBatchIsDelivered(log: seq<Block>, w: Window, d: nat, batches: seq<seq<Arrival>>)
    requires AreBlocks(log) && Ready(w, d) && WindowHolds(log, w)
    requires batches != [] && d + |batches| <= |log| && InOrderChannel(log, d, batches)
    ensures Ready(Run(w, batches[0]).0, d + 1) && WindowHolds(log, Run(w, batches[0]).0)
    ensures Run(w, batches[0]).1 == [Delivery(d, log[d].Source())]
  {
    var first := batches[0];
    assert AreOf(log, d + 0, first) && InTime(d + 0, first) && Enough(Flags(NoFlags(MAX_N), d + 0, first), log[d].k);
    ReadyIsWaiting(w, d, log[d].k);
    assert Awaits(log, w, d, first);
    WaitingBlockIsDelivered(log, w, d, first);
    RunIsFaithful(log, w, first);
  }

  lemma RestInOrder(log: seq<Block>, d: nat, batches: seq<seq<Arrival>>)
    requires AreBlocks(log) && batches != [] && d + |batches| <= |log| && InOrderChannel(log, d, batches)
    ensures InOrderChannel(log, d + 1, batches[1..])
  {
    forall x | 0 <= x < |batches| - 1
      ensures batches[1..][x] == batches[x + 1] && d + 1 + x == d + (x + 1)
    {
    }
  }

  // Base is at d, and the batches bring the blocks from there on.
  ghost predicate Brings(log: seq<Block>, w: Window, d: nat, batches: seq<seq<Arrival>>)
    requires AreBlocks(log)
  {
    forall e {:trigger Look(e)} :: Look(e) ==> Ready(w, d) && WindowHolds(log, w) && InOrderChannel(log, d, batches)
  }

  // The run ends in window z after delivering ds.
  ghost predicate Arrives(w: Window, arrivals: seq<Arrival>, z: Window, ds: seq<Delivery>)
    requires Invariant(w)
  {
    forall e {:trigger LookAtRun(e)} :: LookAtRun(e) ==> Run(w, arrivals) == (z, ds)
  }

  // The trigger of `Arrives`.
  ghost predicate LookAtRun(e: bool) { true }

  lemma Chained(w: Window, first: seq<Arrival>, u: Window, d: seq<Delivery>, rest: seq<Arrival>, z: Window, ds: seq<Delivery>)
    requires Invariant(w) && Invariant(u)
    requires Arrives(w, first, u, d) && Arrives(u, rest, z, ds)
    ensures Arrives(w, first + rest, z, d + ds)
  {
    assert LookAtRun(true);
    RunAppend(w, first, rest);
  }

  lemma NothingArrives(w: Window)
    requires Invariant(w)
    ensures Arrives(w, [], w, [])
  {
  }

  lemma ChannelStep(log: seq<Block>, w: Window, d: nat, batches: seq<seq<Arrival>>) returns (u: Window)
    requires AreBlocks(log) && Invariant(w) && batches != [] && d + |batches| <= |log| && Brings(log, w, d, batches)
    ensures Invariant(u) && u.base == d + 1 && Brings(log, u, d + 1, batches[1..])
    ensures Arrives(w, batches[0], u, [Delivery(d, log[d].Source())])
  {
    assert Look(true);
    u := Run(w, batches[0]).0;
    FirstBatchIsDelivered(log, w, d, batches);
    RestInOrder(log, d, batches);
  }

  lemma {:induction false} ChannelRun(log: seq<Block>, w: Window, d: nat, batches: seq<seq<Arrival>>) returns (z: Window)
    requires AreBlocks(log) && Invariant(w) && w.base == d && d + |batches| <= |log| && Brings(log, w, d, batches)
    ensures Arrives(w, Flat(batches), z, Sources(log, d, |batches|)) && z.base == d + |batches|
    decreases |batches|
  {
    if batches == [] {
      z := w;
      NothingArrives(w);
    } else {
      var u := ChannelStep(log, w, d, batches);
      z := ChannelRun(log, u, d + 1, batches[1..]);
      Chained(w, batches[0], u, [Delivery(d, log[d].Source())], Flat(batches[1..]), z, Sources(log, d + 1, |batches[1..]|));
      assert Sources(log, d, |batches|) == [Delivery(d, log[d].Source())] + Sources(log, d + 1, |batches[1..]|);
    }
  }

  // Every block is delivered, in order, when enough of each arrives in time and before the next
  // block begins.  The shards that are left over may come at any time later.
  lemma InOrderChannelDelivers(log: seq<Block>, w: Window, d: nat, batches: seq<seq<Arrival>>)
    requires AreBlocks(log) && Ready(w, d) && WindowHolds(log, w)
    requires d + |batches| <= |log| && InOrderChannel(log, d, batches)
    ensures Run(w, Flat(batches)).1 == Sources(log, d, |batches|)
    ensures Run(w, Flat(batches)).0.base == d + |batches|
  {
    var z := ChannelRun(log, w, d, batches);
    assert LookAtRun(true);
  }
}
