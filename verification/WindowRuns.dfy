/**
 What every run of the receive window keeps, whatever datagrams arrive in whatever order and
 whatever the clock reads.
 */
module WindowRuns {
  import opened LinearAlgebra
  import opened Codec
  import opened Erasure
  import opened UnboundedWindow

  ghost predicate Distinct(slots: seq<Slot>)
  {
    forall i, j :: 0 <= i < j < |slots| && slots[i].Occupied() && slots[j].Occupied() ==> slots[i].blockId != slots[j].blockId
  }

  // Between steps no block is ahead of base, and the one at base is not decoded.
  ghost predicate Settled(w: Window)
  {
    forall i :: 0 <= i < |w.slots| && w.slots[i].Occupied() ==>
      w.slots[i].blockId <= w.base && (w.slots[i].blockId == w.base ==> !w.slots[i].decoded)
  }

  ghost predicate Invariant(w: Window)
  {
    WellFormed(w) && Distinct(w.slots) && Settled(w)
  }

  // ---------------------------------------------------------------------------------------
  // The loop of rx_window_advance.

  // Slots behind base stay; the others stay or are freed as base passes them.
  ghost predicate Frame(v: Window, r: Window)
  {
    && |r.slots| == |v.slots| && v.base <= r.base
    && forall j :: 0 <= j < |v.slots| ==>
      r.slots[j] == v.slots[j]
      || (r.slots[j] == FreeSlot() && v.slots[j].Occupied() && v.base <= v.slots[j].blockId < r.base)
  }

  lemma {:induction false} AdvanceFrame(v: Window, clock: seq<nat>, i: nat)
    ensures Frame(v, Advance(v, clock, i))
    ensures Advance(v, clock, i).base - v.base <= Reach(v, |v.slots|)
    decreases Reach(v, |v.slots|)
  {
    var now := Reading(clock, i);
    if AdvanceOnce(v, now).Some? {
      RoundShortensReach(v, now);
      AdvanceFrame(AdvanceOnce(v, now).value, clock, i + 1);
    }
  }

  lemma {:induction false} AdvanceEnds(v: Window, clock: seq<nat>, i: nat) returns (now: nat)
    ensures AdvanceOnce(Advance(v, clock, i), now).None?
    decreases Reach(v, |v.slots|)
  {
    now := Reading(clock, i);
    if AdvanceOnce(v, now).Some? {
      RoundShortensReach(v, now);
      now := AdvanceEnds(AdvanceOnce(v, now).value, clock, i + 1);
    }
  }

  lemma EndedIsSettled(r: Window, now: nat)
    requires Distinct(r.slots) && AdvanceOnce(r, now).None?
    ensures Settled(r)
  {
    var b := SlotOf(r.slots, r.base, 0);
    forall i | 0 <= i < |r.slots| && r.slots[i].Occupied()
      ensures r.slots[i].blockId <= r.base && (r.slots[i].blockId == r.base ==> !r.slots[i].decoded)
    {
    }
  }

  lemma AdvanceKeepsInv(v: Window, clock: seq<nat>)
    requires WellFormed(v) && Distinct(v.slots)
    ensures Invariant(Advance(v, clock, 0))
  {
    var r := Advance(v, clock, 0);
    AdvanceFrame(v, clock, 0);
    FreeSlotWellFormed();
    var now := AdvanceEnds(v, clock, 0);
    EndedIsSettled(r, now);
  }

  // Slot t holds a decoded block at or ahead of base, and nothing is newer.
  ghost predicate DecodedAhead(v: Window, t: nat)
  {
    && t < |v.slots| && Distinct(v.slots)
    && v.slots[t].Occupied() && v.slots[t].decoded && v.slots[t].blockId >= v.base
    && forall j :: 0 <= j < |v.slots| && v.slots[j].Occupied() ==> v.slots[j].blockId <= v.slots[t].blockId
  }

  lemma RoundAtDecoded(v: Window, now: nat, t: nat)
    requires DecodedAhead(v, t) && v.slots[t].blockId == v.base
    ensures AdvanceOnce(v, now) == Some(Window(v.base + 1, v.slots[t := FreeSlot()]))
  {
    SlotOfIs(v.slots, v.base, 0, t);
  }

  lemma RoundBehindDecoded(v: Window, now: nat, t: nat)
    requires DecodedAhead(v, t) && v.slots[t].blockId > v.base
    ensures AdvanceOnce(v, now).Some? && DecodedAhead(AdvanceOnce(v, now).value, t)
    ensures AdvanceOnce(v, now).value.slots[t] == v.slots[t]
  {
    assert HasNewer(v);
  }

  lemma NothingAtOrAhead(u: Window, now: nat)
    requires forall j :: 0 <= j < |u.slots| && u.slots[j].Occupied() ==> u.slots[j].blockId < u.base
    ensures AdvanceOnce(u, now).None?
  {
  }

  // The loop reaches the decoded block and removes it.
  lemma {:induction false} AdvanceRemovesDecoded(v: Window, clock: seq<nat>, i: nat, t: nat)
    requires DecodedAhead(v, t)
    ensures Advance(v, clock, i).base == v.slots[t].blockId + 1
    ensures Advance(v, clock, i).slots[t] == FreeSlot()
    decreases Reach(v, |v.slots|)
  {
    var now := Reading(clock, i);
    if v.slots[t].blockId == v.base {
      RoundAtDecoded(v, now, t);
      NothingAtOrAhead(AdvanceOnce(v, now).value, Reading(clock, i + 1));
    } else {
      RoundBehindDecoded(v, now, t);
      RoundShortensReach(v, now);
      AdvanceRemovesDecoded(AdvanceOnce(v, now).value, clock, i + 1, t);
    }
  }

  // ---------------------------------------------------------------------------------------
  // A step.

  // The slot a datagram goes to, after insertion.
  function Filled(w: Window, a: Arrival): Slot
    requires WellFormed(w) && Find(w, a.blockId) < |w.slots|
  {
    FreeSlotWellFormed();
    Store(Claimed(w.slots[Find(w, a.blockId)], a.blockId), a.shardIdx, a.shard, a.insertUs)
  }

  lemma FilledWellFormed(w: Window, a: Arrival)
    requires WellFormed(w) && Find(w, a.blockId) < |w.slots|
    ensures WellFormedSlot(Filled(w, a)) && Filled(w, a).blockId == a.blockId
  {
    FreeSlotWellFormed();
    StoreWellFormed(Claimed(w.slots[Find(w, a.blockId)], a.blockId), a.shardIdx, a.shard, a.insertUs);
  }

  // Looking up the block again finds the same slot.
  lemma FindAgain(w: Window, a: Arrival)
    requires WellFormed(w) && Find(w, a.blockId) < |w.slots|
    ensures Find(Insert(w, a), a.blockId) == Find(w, a.blockId)
    ensures Claimed(Filled(w, a), a.blockId) == Filled(w, a)
  {
    var i := Find(w, a.blockId);
    var v := Insert(w, a);
    var s := SlotOf(w.slots, a.blockId, 0);
    if Filled(w, a).Occupied() {
      SlotOfIs(v.slots, a.blockId, 0, i);
    } else {
      NoSlotOf(v.slots, a.blockId, 0);
      FreeIndexIs(v.slots, 0, i);
    }
  }

  lemma SlotOfIs(slots: seq<Slot>, id: int, i: nat, t: nat)
    requires i <= t < |slots| && slots[t].Occupied() && slots[t].blockId == id
    requires forall j :: i <= j < t ==> !(slots[j].Occupied() && slots[j].blockId == id)
    ensures SlotOf(slots, id, i) == t
  {
    var r := SlotOf(slots, id, i);
    assert r <= t;
  }

  lemma NoSlotOf(slots: seq<Slot>, id: int, i: nat)
    requires i <= |slots|
    requires forall j :: i <= j < |slots| ==> !(slots[j].Occupied() && slots[j].blockId == id)
    ensures SlotOf(slots, id, i) == |slots|
  {
    var r := SlotOf(slots, id, i);
  }

  lemma FreeIndexIs(slots: seq<Slot>, i: nat, t: nat)
    requires i <= t < |slots| && !slots[t].Occupied()
    requires forall j :: i <= j < t ==> slots[j].Occupied()
    ensures FreeIndex(slots, i) == t
  {
    var r := FreeIndex(slots, i);
    assert r <= t;
  }

  // The window between decoding and advancing.
  ghost function Received(w: Window, a: Arrival): Window
    requires WellFormed(w)
  {
    var i := Find(w, a.blockId);
    if i == |w.slots| then w
    else
      FilledWellFormed(w, a);
      var s := Filled(w, a);
      w.(slots := w.slots[i := if CanDecode(s, a.k, a.stray) then s.(decoded := true) else s])
  }

  ghost predicate Decodable(w: Window, a: Arrival)
    requires WellFormed(w)
  {
    Find(w, a.blockId) < |w.slots| && (FilledWellFormed(w, a); CanDecode(Filled(w, a), a.k, a.stray))
  }

  // The packets of a decodable block.
  ghost function Packets(w: Window, a: Arrival): Matrix<bv8>
    requires WellFormed(w) && Decodable(w, a)
  {
    FilledWellFormed(w, a);
    Outcome(Filled(w, a), a.k, a.stray).value
  }

  lemma InsertedIs(w: Window, a: Arrival)
    requires WellFormed(w)
    ensures var i := Find(w, a.blockId);
      Insert(w, a) == if i == |w.slots| then w else w.(slots := w.slots[i := Filled(w, a)])
  {
  }

  lemma TryDecodeIs(w: Window, a: Arrival)
    requires WellFormed(w) && WellFormed(Insert(w, a))
    ensures TryDecode(Insert(w, a), a.blockId, a.k, a.stray)
         == (Received(w, a), if Decodable(w, a) then Some(Packets(w, a)) else None)
  {
    var i := Find(w, a.blockId);
    var v := Insert(w, a);
    InsertedIs(w, a);
    if i < |w.slots| {
      FilledWellFormed(w, a);
      FindAgain(w, a);
      var s := Filled(w, a);
      assert v.slots[i] == s;
      assert w.slots[i := s][i := s.(decoded := true)] == w.slots[i := s.(decoded := true)];
      assert w.slots[i := s][i := s] == w.slots[i := s];
    }
  }

  lemma StepIs(w: Window, a: Arrival)
    requires WellFormed(w)
    ensures Step(w, a) ==
      (Advance(Received(w, a), a.clock, 0), if Decodable(w, a) then Some(Delivery(a.blockId, Packets(w, a))) else None)
  {
    InsertWellFormed(w, a);
    TryDecodeIs(w, a);
  }

  lemma ReceivedWellFormed(w: Window, a: Arrival)
    requires WellFormed(w)
    ensures WellFormed(Received(w, a))
  {
    if Find(w, a.blockId) < |w.slots| {
      FilledWellFormed(w, a);
    }
  }

  lemma ReceivedDistinct(w: Window, a: Arrival)
    requires Invariant(w)
    ensures Distinct(Received(w, a).slots)
  {
    var i := Find(w, a.blockId);
    if i < |w.slots| {
      FilledWellFormed(w, a);
      forall j | 0 <= j < |w.slots| && j != i && w.slots[j].Occupied()
        ensures w.slots[j].blockId != a.blockId
      {
        if !w.slots[i].Occupied() {
          assert SlotOf(w.slots, a.blockId, 0) == |w.slots|;
        }
      }
    }
  }

  // Every step keeps the invariant.
  lemma StepKeepsInv(w: Window, a: Arrival)
    requires Invariant(w)
    ensures Invariant(Step(w, a).0)
  {
    StepIs(w, a);
    ReceivedWellFormed(w, a);
    ReceivedDistinct(w, a);
    AdvanceKeepsInv(Received(w, a), a.clock);
  }

  lemma ReachAtMost(v: Window, m: nat)
    requires forall j :: 0 <= j < |v.slots| && v.slots[j].Occupied() ==> v.slots[j].blockId < v.base + m
    ensures Reach(v, |v.slots|) <= m
  {
  }

  lemma ReachOfReceived(w: Window, a: Arrival)
    requires Invariant(w)
    ensures var v := Received(w, a); Reach(v, |v.slots|) <= |w.slots|
  {
    var v, i := Received(w, a), Find(w, a.blockId);
    if i < |w.slots| {
      FilledWellFormed(w, a);
      assert v.slots[i].blockId == a.blockId;
    }
    ReachAtMost(v, |w.slots|);
  }

  // A step moves base by at most the size of the window.
  lemma StepAdvancesAtMostSize(w: Window, a: Arrival)
    requires Invariant(w)
    ensures w.base <= Step(w, a).0.base <= w.base + |w.slots|
  {
    StepIs(w, a);
    AdvanceFrame(Received(w, a), a.clock, 0);
    ReachOfReceived(w, a);
  }

  // Delivering block d leaves base at d + 1, and d was not behind base.
  lemma StepDelivers(w: Window, a: Arrival)
    requires Invariant(w) && a.k >= 1
    requires Step(w, a).1.Some?
    ensures Step(w, a).1.value.blockId == a.blockId >= w.base
    ensures Step(w, a).0.base == a.blockId + 1
  {
    StepIs(w, a);
    DecodableIsAhead(w, a);
    AdvanceRemovesDecoded(Received(w, a), a.clock, 0, Find(w, a.blockId));
  }

  lemma DecodableIsAhead(w: Window, a: Arrival)
    requires Invariant(w) && a.k >= 1 && Decodable(w, a)
    ensures var i, v := Find(w, a.blockId), Received(w, a);
      i < |v.slots| && DecodedAhead(v, i) && v.slots[i].blockId == a.blockId
  {
    FilledWellFormed(w, a);
    ReceivedDistinct(w, a);
  }

  // A step leaves the slots of blocks behind base alone, and does not deliver those blocks.
  lemma StepKeepsAbandoned(w: Window, a: Arrival, j: nat)
    requires Invariant(w)
    requires j < |w.slots| && w.slots[j].Occupied() && w.slots[j].blockId < w.base
    ensures Step(w, a).0.slots[j] == w.slots[j]
    ensures Step(w, a).0.base >= w.base
  {
    StepIs(w, a);
    AdvanceFrame(Received(w, a), a.clock, 0);
    var i := Find(w, a.blockId);
    if i < |w.slots| {
      assert i != j;
    }
  }

  // A datagram behind the window or beyond it changes nothing before the window advances, and
  // delivers nothing.
  lemma OutsideIsIgnored(w: Window, a: Arrival)
    requires WellFormed(w)
    requires a.blockId < w.base || a.blockId >= w.base + |w.slots|
    ensures Step(w, a) == (Advance(w, a.clock, 0), None)
  {
    StepIs(w, a);
  }

  // The datagram starts or continues a block ahead of base.
  ghost predicate StoresNewer(w: Window, a: Arrival)
  {
    && w.base < a.blockId < w.base + |w.slots|
    && a.shardIdx < MAX_N
    && exists i :: 0 <= i < |w.slots| && !w.slots[i].Occupied()
  }

  lemma NewerAfterReceipt(w: Window, a: Arrival)
    requires Invariant(w)
    ensures HasNewer(Received(w, a)) <==> StoresNewer(w, a)
  {
    var v := Received(w, a);
    var i := Find(w, a.blockId);
    if StoresNewer(w, a) {
      NoSlotOf(w.slots, a.blockId, 0);
      FilledWellFormed(w, a);
      assert v.slots[i].Occupied() && v.slots[i].blockId > v.base;
    } else if i < |w.slots| {
      FilledWellFormed(w, a);
      forall j | 0 <= j < |v.slots| && v.slots[j].Occupied()
        ensures v.slots[j].blockId <= v.base
      {
      }
    }
  }

  // The block at base stays open exactly when it is not decoded by this datagram, has not
  // timed out, and no newer block is stored.  The last case is the one the documentation does
  // not expect: the block is given up although the window has room.
  lemma BaseStaysOpen(w: Window, a: Arrival, b: nat)
    requires Invariant(w)
    requires b < |w.slots| && w.slots[b].Occupied() && w.slots[b].blockId == w.base
    ensures Step(w, a).0.base == w.base <==>
      && !(a.blockId == w.base && Decodable(w, a))
      && !Expired(Reading(a.clock, 0), w.slots[b].firstRecvUs)
      && !StoresNewer(w, a)
  {
    StepIs(w, a);
    var v := Received(w, a);
    ReceivedDistinct(w, a);
    NewerAfterReceipt(w, a);
    SlotAfterReceipt(w, a, b);
    SlotOfDistinct(v.slots, w.base, b);
    var now := Reading(a.clock, 0);
    if AdvanceOnce(v, now).Some? {
      RoundShortensReach(v, now);
      AdvanceFrame(AdvanceOnce(v, now).value, a.clock, 1);
    }
  }

  lemma SlotOfDistinct(slots: seq<Slot>, id: int, t: nat)
    requires Distinct(slots) && t < |slots| && slots[t].Occupied() && slots[t].blockId == id
    ensures SlotOf(slots, id, 0) == t
  {
    SlotOfIs(slots, id, 0, t);
  }

  lemma SlotAfterReceipt(w: Window, a: Arrival, b: nat)
    requires Invariant(w)
    requires b < |w.slots| && w.slots[b].Occupied() && w.slots[b].blockId == w.base
    ensures var s := Received(w, a).slots[b];
      && s.Occupied() && s.blockId == w.base && s.firstRecvUs == w.slots[b].firstRecvUs
      && (s.decoded <==> a.blockId == w.base && Decodable(w, a))
  {
    var i := Find(w, a.blockId);
    if i < |w.slots| {
      FilledWellFormed(w, a);
      if a.blockId == w.base {
        SlotOfDistinct(w.slots, a.blockId, b);
      }
    }
  }

  // ---------------------------------------------------------------------------------------
  // The timeout, in numbers.

  // Slot b holds the block at base, undecoded and first filled at time t; nothing newer is held.
  ghost predicate OpenAtBase(v: Window, b: nat, t: nat)
  {
    && b < |v.slots| && Distinct(v.slots)
    && v.slots[b].Occupied() && v.slots[b].blockId == v.base && !v.slots[b].decoded && v.slots[b].firstRecvUs == t
    && forall j :: 0 <= j < |v.slots| && v.slots[j].Occupied() ==> v.slots[j].blockId <= v.base
  }

  // Unsigned 64-bit subtraction, spelt out.
  lemma ExpiredExactly(now: nat, t: nat)
    requires now < 0x1_0000_0000_0000_0000 && t < 0x1_0000_0000_0000_0000
    ensures Expired(now, t) <==> now >= t + 50000 || (now < t <= now + 0x1_0000_0000_0000_0000 - 50000)
  {
  }

  // Round i of the loop gives the block up exactly if it was first filled 50 ms ago or more, or if
  // the clock has gone back behind that moment (by anything that is not within 50 ms of 2^64);
  // then base moves by one and the slot is free.  Otherwise nothing changes.
  lemma AdvanceTimesOut(v: Window, clock: seq<nat>, i: nat, b: nat, t: nat)
    requires OpenAtBase(v, b, t) && i < |clock|
    requires t < 0x1_0000_0000_0000_0000 && clock[i] < 0x1_0000_0000_0000_0000
    ensures var now, r := clock[i], Advance(v, clock, i);
      if now >= t + 50000 || (now < t <= now + 0x1_0000_0000_0000_0000 - 50000)
      then r.base == v.base + 1 && !r.slots[b].Occupied() && forall j :: 0 <= j < |v.slots| && j != b ==> r.slots[j] == v.slots[j]
      else r == v
  {
    ExpiredExactly(clock[i], t);
    SlotOfDistinct(v.slots, v.base, b);
    assert !HasNewer(v);
    if Expired(clock[i], t) {
      RoundShortensReach(v, clock[i]);
      NothingAtOrAhead(AdvanceOnce(v, clock[i]).value, Reading(clock, i + 1));
    }
  }

  // The same for a step: whatever arrives, once the shard is stored and decoding has been tried,
  // an open block at base is given up by the clock alone.
  lemma StepTimesOut(w: Window, a: Arrival, b: nat, t: nat)
    requires Invariant(w) && OpenAtBase(Received(w, a), b, t) && a.clock != []
    requires t < 0x1_0000_0000_0000_0000 && a.clock[0] < 0x1_0000_0000_0000_0000
    ensures var now, u := a.clock[0], Step(w, a).0;
      if now >= t + 50000 || (now < t <= now + 0x1_0000_0000_0000_0000 - 50000)
      then u.base == w.base + 1 && !u.slots[b].Occupied()
      else u == Received(w, a)
  {
    StepIs(w, a);
    AdvanceTimesOut(Received(w, a), a.clock, 0, b, t);
  }

  // In particular a block at base that was first filled at t: no shard that neither completes it
  // nor stores a newer block makes a difference.
  lemma BaseTimesOut(w: Window, a: Arrival, b: nat)
    requires Invariant(w)
    requires b < |w.slots| && w.slots[b].Occupied() && w.slots[b].blockId == w.base
    requires !(a.blockId == w.base && Decodable(w, a)) && !StoresNewer(w, a)
    requires a.clock != [] && w.slots[b].firstRecvUs <= a.clock[0] < 0x1_0000_0000_0000_0000
    ensures var elapsed, u := a.clock[0] - w.slots[b].firstRecvUs, Step(w, a).0;
      && u.base == (if elapsed >= 50000 then w.base + 1 else w.base)
      && (elapsed >= 50000 <==> !u.slots[b].Occupied())
  {
    SlotAfterReceipt(w, a, b);
    ReceivedDistinct(w, a);
    NewerAfterReceipt(w, a);
    StepTimesOut(w, a, b, w.slots[b].firstRecvUs);
  }

  // ---------------------------------------------------------------------------------------
  // Runs.

  ghost function Run(w: Window, arrivals: seq<Arrival>): (r: (Window, seq<Delivery>))
    requires Invariant(w)
    ensures Invariant(r.0) && |r.0.slots| == |w.slots|
    decreases |arrivals|
  {
    if arrivals == [] then (w, [])
    else
      StepKeepsInv(w, arrivals[0]);
      var (w1, d) := Step(w, arrivals[0]);
      var (w2, ds) := Run(w1, arrivals[1..]);
      (w2, (if d.Some? then [d.value] else []) + ds)
  }

  // Block ids rise strictly and lie between the first and the last base.
  ghost predicate InOrder(ds: seq<Delivery>, from: int, to: int)
  {
    && (forall i :: 0 <= i < |ds| ==> from <= ds[i].blockId < to)
    && (forall i, j :: 0 <= i < j < |ds| ==> ds[i].blockId < ds[j].blockId)
  }

  ghost predicate HeadersFromSender(arrivals: seq<Arrival>)
  {
    forall i :: 0 <= i < |arrivals| ==> arrivals[i].k >= 1
  }

  lemma PrependDelivery(d: Option<Delivery>, ds: seq<Delivery>, from: int, mid: int, to: int)
    requires from <= mid <= to && InOrder(ds, mid, to)
    requires d.Some? ==> from <= d.value.blockId < mid
    ensures InOrder((if d.Some? then [d.value] else []) + ds, from, to)
  {
  }

  // Over every run blocks are delivered in order and at most once, and base never goes back.
  lemma {:induction false} RunDeliversInOrder(w: Window, arrivals: seq<Arrival>)
    requires Invariant(w) && HeadersFromSender(arrivals)
    ensures var (w1, ds) := Run(w, arrivals); w.base <= w1.base && InOrder(ds, w.base, w1.base)
    decreases |arrivals|
  {
    if arrivals != [] {
      var a := arrivals[0];
      var (u, d) := Step(w, a);
      StepKeepsInv(w, a);
      StepAdvancesAtMostSize(w, a);
      if d.Some? {
        StepDelivers(w, a);
      }
      RunDeliversInOrder(u, arrivals[1..]);
      var (u1, ds) := Run(u, arrivals[1..]);
      PrependDelivery(d, ds, w.base, u.base, u1.base);
    }
  }

  // Once base has passed a block, its slot never changes again.  By RunDeliversInOrder the block
  // is not delivered either.
  lemma {:induction false} RunKeepsAbandoned(w: Window, arrivals: seq<Arrival>, j: nat)
    requires Invariant(w)
    requires j < |w.slots| && w.slots[j].Occupied() && w.slots[j].blockId < w.base
    ensures Run(w, arrivals).0.slots[j] == w.slots[j]
    decreases |arrivals|
  {
    if arrivals != [] {
      StepKeepsInv(w, arrivals[0]);
      StepKeepsAbandoned(w, arrivals[0], j);
      RunKeepsAbandoned(Step(w, arrivals[0]).0, arrivals[1..], j);
    }
  }

  // Every slot holds a block that base has passed.
  ghost predicate Dead(w: Window)
  {
    forall j :: 0 <= j < |w.slots| ==> w.slots[j].Occupied() && w.slots[j].blockId < w.base
  }

  lemma DeadStep(w: Window, a: Arrival)
    requires Invariant(w) && Dead(w)
    ensures Step(w, a) == (w, None)
  {
    StepIs(w, a);
    if a.blockId >= w.base {
      NoSlotOf(w.slots, a.blockId, 0);
    }
    assert Find(w, a.blockId) == |w.slots|;
    NothingAtOrAhead(w, Reading(a.clock, 0));
    assert Received(w, a) == w && !Decodable(w, a);
    assert Advance(w, a.clock, 0) == w;
  }

  // A window full of abandoned blocks would be stuck: nothing that arrives changes it or is
  // delivered.
  lemma {:induction false} DeadForever(w: Window, arrivals: seq<Arrival>)
    requires Invariant(w) && Dead(w)
    ensures Run(w, arrivals) == (w, [])
    decreases |arrivals|
  {
    if arrivals != [] {
      DeadStep(w, arrivals[0]);
      DeadForever(w, arrivals[1..]);
      var none: seq<Delivery> := [];
      assert none + none == [];
    }
  }

  // A newer block that finds a slot while the block at base is neither decoded nor expired makes
  // base pass that block: its slot keeps what it holds and, by RunKeepsAbandoned, for good.
  lemma NewerBlockLeaksSlot(w: Window, a: Arrival, b: nat)
    requires Invariant(w)
    requires b < |w.slots| && w.slots[b].Occupied() && w.slots[b].blockId == w.base
    requires StoresNewer(w, a) && !Expired(Reading(a.clock, 0), w.slots[b].firstRecvUs)
    ensures Step(w, a).0.slots[b] == w.slots[b] && w.slots[b].blockId < Step(w, a).0.base
  {
    StepIs(w, a);
    var v, now := Received(w, a), Reading(a.clock, 0);
    ReceivedDistinct(w, a);
    NewerAfterReceipt(w, a);
    SlotAfterReceipt(w, a, b);
    SlotOfDistinct(v.slots, w.base, b);
    OtherSlotUntouched(w, a, b);
    RoundShortensReach(v, now);
    AdvanceFrame(AdvanceOnce(v, now).value, a.clock, 1);
  }

  lemma OtherSlotUntouched(w: Window, a: Arrival, b: nat)
    requires Invariant(w) && b < |w.slots| && w.slots[b].Occupied() && w.slots[b].blockId != a.blockId
    ensures Received(w, a).slots[b] == w.slots[b]
  {
  }

  lemma {:induction false} AdvanceKeepsSlot(v: Window, clock: seq<nat>, i: nat)
    requires !Dead(v)
    ensures !Dead(Advance(v, clock, i))
    decreases Reach(v, |v.slots|)
  {
    var now := Reading(clock, i);
    if AdvanceOnce(v, now).Some? {
      RoundShortensReach(v, now);
      RoundKeepsSlot(v, now);
      AdvanceKeepsSlot(AdvanceOnce(v, now).value, clock, i + 1);
    }
  }

  // Base moves only if a slot is freed or a newer block is held.
  lemma RoundKeepsSlot(v: Window, now: nat)
    requires AdvanceOnce(v, now).Some?
    ensures !Dead(AdvanceOnce(v, now).value)
  {
    var u := AdvanceOnce(v, now).value;
    var i := SlotOf(v.slots, v.base, 0);
    if i < |v.slots| && (v.slots[i].decoded || Expired(now, v.slots[i].firstRecvUs)) {
      assert !u.slots[i].Occupied();
    } else {
      var j :| 0 <= j < |v.slots| && v.slots[j].Occupied() && v.slots[j].blockId > v.base;
      assert u.slots[j].blockId >= u.base;
    }
  }

  lemma ReceivedKeepsSlot(w: Window, a: Arrival)
    requires WellFormed(w) && !Dead(w)
    ensures !Dead(Received(w, a))
  {
    var v, i := Received(w, a), Find(w, a.blockId);
    var j :| 0 <= j < |w.slots| && !(w.slots[j].Occupied() && w.slots[j].blockId < w.base);
    if i < |w.slots| {
      FilledWellFormed(w, a);
    }
    assert !(v.slots[j].Occupied() && v.slots[j].blockId < v.base);
  }

  // But never all of them: a window that has a slot left keeps one over every run.
  lemma {:induction false} RunKeepsSlot(w: Window, arrivals: seq<Arrival>)
    requires Invariant(w) && !Dead(w)
    ensures !Dead(Run(w, arrivals).0)
    decreases |arrivals|
  {
    if arrivals != [] {
      var a := arrivals[0];
      StepKeepsInv(w, a);
      StepIs(w, a);
      ReceivedKeepsSlot(w, a);
      AdvanceKeepsSlot(Received(w, a), a.clock, 0);
      RunKeepsSlot(Step(w, a).0, arrivals[1..]);
    }
  }

  // A fresh window satisfies the invariant.
  lemma InitInv(size: nat)
    ensures Invariant(InitWindow(size))
    ensures size >= 1 ==> !Dead(InitWindow(size))
  {
    FreeSlotWellFormed();
    if size >= 1 {
      assert !InitWindow(size).slots[0].Occupied();
    }
  }

  // ---------------------------------------------------------------------------------------
  // That one slot may be all that is left: one shard of each of as many blocks as the window has
  // slots leaves a slot behind for every block but the last.

  // Shard 0 of block d, at time zero, of a block that needs two.
  function OneShardOf(d: nat): Arrival
  {
    Arrival(d, 0, 2, Shard([], []), 0, [], None)
  }

  // One shard of each block from m on.
  function OneShardEach(m: nat, size: nat): (r: seq<Arrival>)
    decreases size - m
  {
    if m >= size then [] else [OneShardOf(m)] + OneShardEach(m + 1, size)
  }

  // The last of the first m blocks.
  function LastOf(m: nat): nat
  {
    if m == 0 then 0 else m - 1
  }

  // The slot after the shard.
  function OneShardSlot(d: nat): (s: Slot)
    ensures s.blockId == d && s.recvCount == 1 && !s.decoded && s.firstRecvUs == 0
  {
    Store(FreeSlot().(blockId := d), 0, Shard([], []), 0)
  }

  // The first m of these slots hold a shard.
  function OneShardSlots(m: nat, size: nat): (r: seq<Slot>)
    ensures |r| == size && forall j :: 0 <= j < size ==> r[j] == if j < m then OneShardSlot(j) else FreeSlot()
  {
    if size == 0 then [] else OneShardSlots(m, size - 1) + [if size - 1 < m then OneShardSlot(size - 1) else FreeSlot()]
  }

  // The window after the first m arrivals: base is the last block that arrived.
  function WindowAfter(m: nat, size: nat): Window
  {
    Window(LastOf(m), OneShardSlots(m, size))
  }

  lemma AfterInv(m: nat, size: nat)
    ensures Invariant(WindowAfter(m, size))
  {
    FreeSlotWellFormed();
    forall d: nat
      ensures WellFormedSlot(OneShardSlot(d))
    {
      StoreWellFormed(FreeSlot().(blockId := d), 0, Shard([], []), 0);
    }
  }

  lemma OneMoreReceived(m: nat, size: nat)
    requires m < size && WellFormed(WindowAfter(m, size))
    ensures var w := WindowAfter(m, size);
      !Decodable(w, OneShardOf(m)) && Received(w, OneShardOf(m)) == w.(slots := OneShardSlots(m + 1, size))
  {
    var w := WindowAfter(m, size);
    NoSlotOf(w.slots, m, 0);
    FreeIndexIs(w.slots, 0, m);
    assert Find(w, m) == m && Filled(w, OneShardOf(m)) == OneShardSlot(m);
    assert w.slots[m := OneShardSlot(m)] == OneShardSlots(m + 1, size);
  }

  lemma AtLast(m: nat, size: nat, i: nat)
    requires m < size
    ensures Advance(WindowAfter(m + 1, size), [], i) == WindowAfter(m + 1, size)
  {
    SlotOfIs(WindowAfter(m + 1, size).slots, m, 0, m);
  }

  lemma ToLast(m: nat, size: nat)
    requires 0 < m < size
    ensures Advance(Window(m - 1, OneShardSlots(m + 1, size)), [], 0) == WindowAfter(m + 1, size)
  {
    var v := Window(m - 1, OneShardSlots(m + 1, size));
    SlotOfIs(v.slots, m - 1, 0, m - 1);
    assert v.slots[m].Occupied() && HasNewer(v);
    RoundShortensReach(v, 0);
    AtLast(m, size, 1);
  }

  lemma OneMoreStep(m: nat, size: nat)
    requires m < size && WellFormed(WindowAfter(m, size))
    ensures Step(WindowAfter(m, size), OneShardOf(m)) == (WindowAfter(m + 1, size), None)
  {
    StepIs(WindowAfter(m, size), OneShardOf(m));
    OneMoreReceived(m, size);
    if m == 0 {
      AtLast(m, size, 0);
    } else {
      ToLast(m, size);
    }
  }

  lemma RunWithoutDelivery(w: Window, a: Arrival, rest: seq<Arrival>)
    requires Invariant(w) && Step(w, a).1 == None
    ensures Invariant(Step(w, a).0) && Run(w, [a] + rest) == Run(Step(w, a).0, rest)
  {
    StepKeepsInv(w, a);
    var all := [a] + rest;
    assert all[0] == a && all[1..] == rest;
    var ds := Run(Step(w, a).0, rest).1;
    assert [] + ds == ds;
  }

  lemma {:induction false} OneShardEachRun(m: nat, size: nat)
    requires m <= size
    ensures Invariant(WindowAfter(m, size))
    ensures Run(WindowAfter(m, size), OneShardEach(m, size)) == (WindowAfter(size, size), [])
    decreases size - m
  {
    AfterInv(m, size);
    if m < size {
      OneMoreStep(m, size);
      RunWithoutDelivery(WindowAfter(m, size), OneShardOf(m), OneShardEach(m + 1, size));
      OneShardEachRun(m + 1, size);
    }
  }

  // From a fresh window of any size a run leaves all slots but one behind base: RunKeepsSlot
  // cannot promise more.
  lemma RunLeaksAllButOne(size: nat)
    requires size >= 1
    ensures Invariant(InitWindow(size))
    ensures var (w, ds) := Run(InitWindow(size), OneShardEach(0, size));
      && ds == [] && |w.slots| == size
      && forall j :: 0 <= j < size - 1 ==> w.slots[j].Occupied() && w.slots[j].blockId < w.base
  {
    InitInv(size);
    OneShardEachRun(0, size);
    assert InitWindow(size) == WindowAfter(0, size);
  }
}
