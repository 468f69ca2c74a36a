/**
 The decoding attempts of a run: after every shard of the block at base, the receiver tries the k
 received shards of lowest index.  A run delivers the block exactly if one of these attempts
 succeeds, and so it depends on the order of arrival.
 */
module Attempts {
  import opened LinearAlgebra
  import opened Codec
  import opened Encoder
  import opened Erasure
  import opened Selection
  import Gf256
  import opened Tx
  import opened UnboundedWindow
  import opened WindowRuns
  import opened EndToEnd
  import opened Liveness

  function Indices(arrivals: seq<Arrival>): (r: seq<nat>)
    ensures |r| == |arrivals| && forall i :: 0 <= i < |arrivals| ==> r[i] == arrivals[i].shardIdx
  {
    if arrivals == [] then [] else [arrivals[0].shardIdx] + Indices(arrivals[1..])
  }

  // Shards of block d, which is at base, arrive before it can time out.
  ghost predicate Tries(log: seq<Block>, w: Window, d: nat, arrivals: seq<Arrival>)
    requires AreBlocks(log)
  {
    && d < |log| && Invariant(w) && w.base == d && Find(w, d) < |w.slots| && WindowHolds(log, w)
    && (forall i :: 0 <= i < |arrivals| ==> IsShard(log, arrivals[i]) && arrivals[i].blockId == d)
    && InTime(d, arrivals) && (Current(w, d).Occupied() ==> Timely(arrivals, Current(w, d).firstRecvUs))
  }

  // Whether one of the attempts over the arrivals succeeds.
  ghost predicate Succeeds(b: Block, flags: seq<bool>, order: seq<nat>)
  {
    && (forall i :: 0 <= i < |order| ==> order[i] < |flags|)
    && SomeAttempt(Gf256.Gf(), b.k, b.draws, flags, order)
  }

  // A slot is decoded exactly if its k lowest shards are independent.
  lemma DecodesExactly(b: Block, s: Slot, stray: Option<Matrix<bv8>>)
    requires b.Valid() && WellFormedSlot(s) && HoldsShards(b, s) && !s.decoded
    ensures CanDecode(s, b.k, stray) <==> LowestDecode(Gf256.Gf(), b.k, b.draws, s.received)
  {
    ChosenCount(s.received, |s.received|, b.k);
    if s.recvCount >= b.k {
      OutcomeIsSource(b, s, stray);
      NotDependent(b, Chosen(s.received, |s.received|, b.k));
    }
  }

  lemma NotDependent(b: Block, c: seq<nat>)
    requires b.Valid() && |c| == b.k && forall i :: 0 <= i < |c| ==> c[i] < MAX_N
    ensures Dependent(b, c) <==> !Independent(Gf256.Gf(), b.k, c, b.draws)
  {
  }

  lemma AttemptOfStep(log: seq<Block>, w: Window, d: nat, a: Arrival)
    requires AreBlocks(log) && d < |log| && Invariant(w) && w.base == d && Find(w, d) < |w.slots| && WindowHolds(log, w)
    requires IsShard(log, a) && a.blockId == d
    ensures a.shardIdx < MAX_N && |Current(w, d).received| == MAX_N
    ensures Filled(w, a).received == Current(w, d).received[a.shardIdx := true]
    ensures Decodable(w, a) <==> LowestDecode(Gf256.Gf(), log[d].k, log[d].draws, Filled(w, a).received)
  {
    FilledFlags(w, a);
    FilledHolds(log, w, a);
    DecodesExactly(log[d], Filled(w, a), a.stray);
  }

  lemma NextTry(log: seq<Block>, w: Window, d: nat, arrivals: seq<Arrival>)
    requires AreBlocks(log) && Tries(log, w, d, arrivals) && arrivals != [] && !Decodable(w, arrivals[0])
    ensures Step(w, arrivals[0]).1 == None && Tries(log, Step(w, arrivals[0]).0, d, arrivals[1..])
    ensures Current(Step(w, arrivals[0]).0, d) == Filled(w, arrivals[0])
  {
    var a := arrivals[0];
    AttemptOfStep(log, w, d, a);
    FilledFlags(w, a);
    RestInTime(d, arrivals);
    WaitingStep(log, w, a);
    StepHolds(log, w, a);
  }

  lemma LastTry(log: seq<Block>, w: Window, d: nat, arrivals: seq<Arrival>)
    requires AreBlocks(log) && Tries(log, w, d, arrivals) && arrivals != [] && Decodable(w, arrivals[0])
    ensures Step(w, arrivals[0]).1 == Some(Delivery(d, log[d].Source()))
    ensures Invariant(Step(w, arrivals[0]).0) && Run(Step(w, arrivals[0]).0, arrivals[1..]).1 == []
  {
    assert AreOf(log, d, arrivals);
    CompletingShard(log, w, d, arrivals);
  }

  // The run delivers the block exactly if an attempt succeeds.
  lemma {:induction false} RunDeliversExactly(log: seq<Block>, w: Window, d: nat, arrivals: seq<Arrival>)
    requires AreBlocks(log) && Tries(log, w, d, arrivals)
    ensures Run(w, arrivals).1 ==
      if Succeeds(log[d], Current(w, d).received, Indices(arrivals)) then [Delivery(d, log[d].Source())] else []
    decreases |arrivals|
  {
    if arrivals != [] {
      var a, rest := arrivals[0], arrivals[1..];
      assert arrivals == [a] + rest;
      AttemptOfStep(log, w, d, a);
      RunFirst(w, a, rest);
      OneMoreTry(log, d, Current(w, d).received, arrivals);
      if Decodable(w, a) {
        LastTry(log, w, d, arrivals);
      } else {
        NextTry(log, w, d, arrivals);
        RunDeliversExactly(log, Step(w, a).0, d, rest);
      }
    }
  }

  lemma OneMoreTry(log: seq<Block>, d: nat, flags: seq<bool>, arrivals: seq<Arrival>)
    requires AreBlocks(log) && d < |log| && |flags| == MAX_N && arrivals != []
    requires forall i :: 0 <= i < |arrivals| ==> IsShard(log, arrivals[i]) && arrivals[i].blockId == d
    ensures arrivals[0].shardIdx < MAX_N
    ensures var now := flags[arrivals[0].shardIdx := true];
      Succeeds(log[d], flags, Indices(arrivals)) <==>
        LowestDecode(Gf256.Gf(), log[d].k, log[d].draws, now) || Succeeds(log[d], now, Indices(arrivals[1..]))
  {
    IndicesInRange(log, arrivals);
    assert Indices(arrivals)[1..] == Indices(arrivals[1..]);
    OneMoreOfOrder(log[d], flags, Indices(arrivals));
  }

  lemma IndicesInRange(log: seq<Block>, arrivals: seq<Arrival>)
    requires AreBlocks(log) && forall i :: 0 <= i < |arrivals| ==> IsShard(log, arrivals[i])
    ensures forall i :: 0 <= i < |arrivals| ==> Indices(arrivals)[i] < MAX_N
  {
    forall i | 0 <= i < |arrivals|
      ensures Indices(arrivals)[i] < MAX_N
    {
      assert IsShard(log, arrivals[i]) && log[arrivals[i].blockId].Valid();
    }
  }

  lemma OneMoreOfOrder(b: Block, flags: seq<bool>, order: seq<nat>)
    requires order != [] && forall i :: 0 <= i < |order| ==> order[i] < |flags|
    ensures var now := flags[order[0] := true];
      Succeeds(b, flags, order) <==> LowestDecode(Gf256.Gf(), b.k, b.draws, now) || Succeeds(b, now, order[1..])
  {
  }

  // ---------------------------------------------------------------------------------------
  // The failing input as a run of a fresh window.

  // Shard i of the block, at time zero.
  ghost function ShardArrival(b: Block, i: nat): Arrival
    requires b.Valid() && i < b.n
  {
    Arrival(b.id, i, b.k, b.Shards()[i], 0, [], None)
  }

  ghost predicate FailingBlock(b: Block)
  {
    b.Valid() && b.id == 0 && b.k == 2 && b.n >= 5 && FailingDraws(b.draws, MAX_N)
  }

  function FailingInput(): Block
  {
    Block(0, [[69], [69]], 2, 5, seq(MAX_N - 2, i => if i == 2 then [1, 2] else [1, 1]))
  }

  lemma FailingInputFails()
    ensures FailingBlock(FailingInput())
  {
    var draws := FailingInput().draws;
    assert draws[0] == [1, 1] && draws[1] == [1, 1] && draws[2] == [1, 2];
  }

  // The shards arrive in this order.
  ghost function InThisOrder(b: Block, order: seq<nat>): (r: seq<Arrival>)
    requires b.Valid() && forall i :: 0 <= i < |order| ==> order[i] < b.n
    ensures |r| == |order| && forall i :: 0 <= i < |order| ==> r[i] == ShardArrival(b, order[i])
  {
    if order == [] then [] else [ShardArrival(b, order[0])] + InThisOrder(b, order[1..])
  }

  lemma FreshTries(b: Block, size: nat, order: seq<nat>)
    requires b.Valid() && b.id == 0 && size >= 1 && forall i :: 0 <= i < |order| ==> order[i] < b.n
    ensures AreBlocks([b]) && Tries([b], InitWindow(size), 0, InThisOrder(b, order))
    ensures Current(InitWindow(size), 0).received == NoFlags(MAX_N)
  {
    var w, arrivals := InitWindow(size), InThisOrder(b, order);
    InitInv(size);
    assert !w.slots[0].Occupied();
    ReadyIsWaiting(w, 0, b.k);
    forall i | 0 <= i < |arrivals|
      ensures Timely(arrivals[i..], arrivals[i].insertUs)
    {
      forall j | 0 <= j < |arrivals[i..]|
        ensures !Expired(Reading(arrivals[i..][j].clock, 0), arrivals[i].insertUs)
      {
        assert arrivals[i..][j] == arrivals[i + j];
      }
    }
  }

  // From a fresh window, the order alone decides.
  lemma FreshRun(b: Block, size: nat, order: seq<nat>)
    requires b.Valid() && b.id == 0 && size >= 1 && forall i :: 0 <= i < |order| ==> order[i] < b.n
    ensures Invariant(InitWindow(size))
    ensures Run(InitWindow(size), InThisOrder(b, order)).1
         == if Succeeds(b, NoFlags(MAX_N), order) then [Delivery(0, b.Source())] else []
  {
    InitInv(size);
    FreshTries(b, size, order);
    assert Indices(InThisOrder(b, order)) == order;
    RunDeliversExactly([b], InitWindow(size), 0, InThisOrder(b, order));
  }

  // Of a block of two packets, both lost, shards 2, 3 and 4 arrive, of which 2 and 4 would do.
  // In this order nothing is delivered.
  lemma RisingOrderFails(b: Block, size: nat, order: seq<nat>)
    requires FailingBlock(b) && size >= 1 && order == [2, 3, 4]
    ensures Invariant(InitWindow(size)) && Run(InitWindow(size), InThisOrder(b, order)).1 == []
  {
    LowestShardsCanFail(b.draws, MAX_N, order);
    FreshRun(b, size, order);
  }

  // If 3 comes last, the block is delivered.
  lemma OtherOrderDelivers(b: Block, size: nat, order: seq<nat>)
    requires FailingBlock(b) && size >= 1 && order == [2, 4, 3]
    ensures Invariant(InitWindow(size)) && Run(InitWindow(size), InThisOrder(b, order)).1 == [Delivery(0, b.Source())]
  {
    AnotherOrderDecodes(b.draws, MAX_N, order);
    FreshRun(b, size, order);
  }
}
