/**
 The advance loop of `rx_window_advance` on the 32-bit ids themselves.  Within the horizon it is
 the loop of the machine over unbounded ids.  Beyond it, a slot that was never cleared turns the
 comparison of ids round: when base moves past such a slot by 2^31, the same call runs on for
 2^31 rounds.
 */
module StaleSlots {
  import opened LinearAlgebra
  import opened UnboundedWindow
  import opened Window32

  datatype Raw = Raw(base: u32, slots: seq<Slot>)

  function NextId(b: u32): u32
  {
    (b + 1) % TWO32
  }

  // b + m
  function LaterId(b: u32, m: nat): u32
  {
    (b + m) % TWO32
  }

  predicate IsRaw(w: Raw)
  {
    forall i :: 0 <= i < |w.slots| ==> 0 <= w.slots[i].blockId < TWO32
  }

  predicate RawHasNewer(w: Raw)
    requires IsRaw(w)
  {
    exists i :: 0 <= i < |w.slots| && w.slots[i].Occupied() && SignedDiff(w.slots[i].blockId, w.base) > 0
  }

  // The block at base is decoded or has timed out.
  predicate BaseIsDone(base: int, slots: seq<Slot>, now: nat)
  {
    var i := SlotOf(slots, base, 0);
    i < |slots| && (slots[i].decoded || Expired(now, slots[i].firstRecvUs))
  }

  // One round of the loop; None when it ends.
  function RawRound(w: Raw, now: nat): (r: Option<Raw>)
    requires IsRaw(w)
    ensures r.Some? ==> IsRaw(r.value) && |r.value.slots| == |w.slots| && r.value.base == NextId(w.base)
  {
    var i := SlotOf(w.slots, w.base, 0);
    if i < |w.slots| && (w.slots[i].decoded || Expired(now, w.slots[i].firstRecvUs)) then
      Some(Raw(NextId(w.base), w.slots[i := FreeSlot()]))
    else if RawHasNewer(w) then Some(w.(base := NextId(w.base)))
    else None
  }

  function WrappedSlots(slots: seq<Slot>): (r: seq<Slot>)
    ensures |r| == |slots|
    ensures forall i :: 0 <= i < |slots| ==> r[i] == Wrapped(slots[i])
  {
    if slots == [] then [] else WrappedSlots(slots[..|slots| - 1]) + [Wrapped(slots[|slots| - 1])]
  }

  function RawOf(w: Window): (r: Raw)
    ensures IsRaw(r)
  {
    Raw(Wrap(w.base), WrappedSlots(w.slots))
  }

  lemma {:induction false} WrappedSlotOf(slots: seq<Slot>, raw: seq<Slot>, id: int, i: nat)
    requires i <= |slots| == |raw| && forall j :: 0 <= j < |slots| ==> raw[j] == Wrapped(slots[j])
    requires forall j :: 0 <= j < |slots| && slots[j].Occupied() ==> -TWO32 < slots[j].blockId - id < TWO32
    ensures SlotOf(raw, Wrap(id), i) == SlotOf(slots, id, i)
    decreases |slots| - i
  {
    if i < |slots| {
      if slots[i].Occupied() {
        SameWrap(slots[i].blockId, id);
      }
      WrappedSlotOf(slots, raw, id, i + 1);
    }
  }

  // Nothing held is half the number space ahead of base, or all of it behind.
  ghost predicate NotAround(w: Window)
  {
    forall i :: 0 <= i < |w.slots| && w.slots[i].Occupied() ==> -TWO32 < w.slots[i].blockId - w.base < HALF
  }

  // Some block held is more than half the number space behind base.
  ghost predicate HasStale(w: Window)
  {
    exists i :: 0 <= i < |w.slots| && w.slots[i].Occupied() && w.slots[i].blockId - w.base < -HALF
  }

  // The loop sees a newer block exactly when there is one or a stale one.
  lemma RawNewer(w: Window)
    requires NotAround(w)
    ensures RawHasNewer(RawOf(w)) <==> HasNewer(w) || HasStale(w)
  {
    var r := RawOf(w);
    forall i | 0 <= i < |w.slots| && w.slots[i].Occupied()
      ensures SignedDiff(r.slots[i].blockId, r.base) > 0 <==>
        w.slots[i].blockId > w.base || w.slots[i].blockId - w.base < -HALF
    {
      DifferenceOfWrapped(w.slots[i].blockId, w.base);
    }
    if HasNewer(w) || HasStale(w) {
      var i :| 0 <= i < |w.slots| && w.slots[i].Occupied()
               && (w.slots[i].blockId > w.base || w.slots[i].blockId - w.base < -HALF);
      assert r.slots[i].Occupied();
    }
  }

  lemma DifferenceOfWrapped(id: int, base: int)
    requires -TWO32 < id - base < HALF
    ensures SignedDiff(Wrap(id), Wrap(base)) > 0 <==> id > base || id - base < -HALF
  {
    SignedDiffOfWrapped(id, base);
    if id - base < -HALF {
      StaleBlockLooksNewer(id, base);
    }
  }

  // The round of the machine over unbounded ids, with the ids wrapped.
  function WrappedRound(w: Window, now: nat): Option<Raw>
  {
    match AdvanceOnce(w, now)
    case None => None
    case Some(v) => Some(RawOf(v))
  }

  lemma SameDone(w: Window, now: nat)
    requires NotAround(w)
    ensures var r := RawOf(w);
      && SlotOf(r.slots, r.base, 0) == SlotOf(w.slots, w.base, 0)
      && (BaseIsDone(r.base, r.slots, now) <==> BaseIsDone(w.base, w.slots, now))
  {
    var r, i := RawOf(w), SlotOf(w.slots, w.base, 0);
    WrappedSlotOf(w.slots, r.slots, w.base, 0);
    if i < |w.slots| {
      assert r.slots[i] == Wrapped(w.slots[i]);
    }
  }

  lemma RoundOfDone(w: Window, now: nat)
    requires NotAround(w) && BaseIsDone(w.base, w.slots, now)
    ensures RawRound(RawOf(w), now) == WrappedRound(w, now)
  {
    SameDone(w, now);
    NextWrapped(w.base);
    WrappedCleared(w.slots, SlotOf(w.slots, w.base, 0));
  }

  lemma RoundOfOpen(w: Window, now: nat)
    requires NotAround(w) && !BaseIsDone(w.base, w.slots, now)
    ensures RawRound(RawOf(w), now) == if RawHasNewer(RawOf(w)) then Some(RawOf(w.(base := w.base + 1))) else None
    ensures WrappedRound(w, now) == if HasNewer(w) then Some(RawOf(w.(base := w.base + 1))) else None
  {
    SameDone(w, now);
    NextWrapped(w.base);
  }

  // The round on wrapped ids is that round exactly when base moves in any case or no block held
  // is more than 2^31 behind.
  lemma RawRoundExactly(w: Window, now: nat)
    requires NotAround(w)
    ensures RawRound(RawOf(w), now) == WrappedRound(w, now) <==>
      || BaseIsDone(w.base, w.slots, now)
      || HasNewer(w)
      || forall i :: 0 <= i < |w.slots| && w.slots[i].Occupied() ==> -HALF <= w.slots[i].blockId - w.base
  {
    if BaseIsDone(w.base, w.slots, now) {
      RoundOfDone(w, now);
    } else {
      RoundOfOpen(w, now);
      RawNewer(w);
    }
  }

  // So it is within the horizon.
  lemma RawRoundRefines(w: Window, now: nat)
    requires Horizon(w)
    ensures RawRound(RawOf(w), now) == WrappedRound(w, now)
  {
    RawRoundExactly(w, now);
  }

  lemma NextWrapped(a: int)
    ensures NextId(Wrap(a)) == Wrap(a + 1)
  {
    WrapNext(a);
  }

  lemma WrappedCleared(slots: seq<Slot>, i: nat)
    requires i < |slots|
    ensures WrappedSlots(slots)[i := FreeSlot()] == WrappedSlots(slots[i := FreeSlot()])
  {
    assert Wrapped(FreeSlot()) == FreeSlot();
  }

  // m rounds, or None if the loop ends before.
  function RawRounds(w: Raw, clock: seq<nat>, i: nat, m: nat): (r: Option<Raw>)
    requires IsRaw(w)
    decreases m
  {
    if m == 0 then Some(w)
    else
      match RawRound(w, Reading(clock, i))
      case None => None
      case Some(v) => RawRounds(v, clock, i + 1, m - 1)
  }

  lemma NearerByOne(a: u32, b: u32)
    requires SignedDiff(a, b) > 0
    ensures SignedDiff(a, NextId(b)) == SignedDiff(a, b) - 1 && a != b
  {
  }

  lemma RoundTowards(w: Raw, now: nat, j: nat)
    requires IsRaw(w) && j < |w.slots| && w.slots[j].Occupied() && SignedDiff(w.slots[j].blockId, w.base) > 0
    ensures RawRound(w, now).Some? && RawRound(w, now).value.slots[j] == w.slots[j]
  {
    NearerByOne(w.slots[j].blockId, w.base);
    assert RawHasNewer(w);
  }

  // While a slot holds a block that counts as newer, the loop goes on.
  lemma {:induction false} LoopRunsTo(w: Raw, clock: seq<nat>, i: nat, j: nat, m: nat)
    requires IsRaw(w) && j < |w.slots| && w.slots[j].Occupied() && SignedDiff(w.slots[j].blockId, w.base) >= m
    ensures RawRounds(w, clock, i, m).Some? && RawRounds(w, clock, i, m).value.base == LaterId(w.base, m)
    decreases m
  {
    if m > 0 {
      RoundTowards(w, Reading(clock, i), j);
      NearerByOne(w.slots[j].blockId, w.base);
      var v := RawRound(w, Reading(clock, i)).value;
      LoopRunsTo(v, clock, i + 1, j, m - 1);
      OneAndRest(w.base, m);
    }
  }

  lemma OneAndRest(b: u32, m: nat)
    requires m > 0
    ensures LaterId(NextId(b), m - 1) == LaterId(b, m)
  {
  }

  // No call begins with a stale slot: when the loop has ended there is none, and only the loop
  // moves base.
  lemma NoStaleAtEnd(w: Raw, now: nat, j: nat, id: int, base: int)
    requires IsRaw(w) && RawRound(w, now).None?
    requires j < |w.slots| && w.slots[j].Occupied() && w.slots[j].blockId == Wrap(id) && w.base == Wrap(base)
    ensures !(-TWO32 < id - base < -HALF)
  {
    if -TWO32 < id - base < -HALF {
      StaleBlockLooksNewer(id, base);
      RoundTowards(w, now, j);
    }
  }

  // But a slot can come to be 2^31 blocks behind.  Then a call that moves base at all, because
  // the block at base is done or a newer one is held, runs on until base has gone all the way
  // round to the old block, 2^31 ids forward.
  lemma StaleSlotDrivesBase(w: Raw, clock: seq<nat>, j: nat, id: int, base: int)
    requires IsRaw(w) && j < |w.slots| && w.slots[j].Occupied() && w.slots[j].blockId == Wrap(id) && w.base == Wrap(base)
    requires base - id == HALF
    ensures BaseIsDone(w.base, w.slots, Reading(clock, 0)) || RawHasNewer(w) ==>
      RawRounds(w, clock, 0, base - id).Some? && RawRounds(w, clock, 0, base - id).value.base == Wrap(id)
    ensures !(BaseIsDone(w.base, w.slots, Reading(clock, 0)) || RawHasNewer(w)) ==>
      RawRound(w, Reading(clock, 0)) == None
  {
    JustPassed(id, base);
    if RawRound(w, Reading(clock, 0)).Some? {
      PassingSlot(w, clock, j, base - id);
      WrapOfSum(base, id);
    }
  }

  // The round after which the slot counts as newer, and those that follow.
  lemma PassingSlot(w: Raw, clock: seq<nat>, j: nat, m: nat)
    requires IsRaw(w) && j < |w.slots| && w.slots[j].Occupied() && w.slots[j].blockId != w.base && m > 0
    requires RawRound(w, Reading(clock, 0)).Some? && SignedDiff(w.slots[j].blockId, NextId(w.base)) >= m - 1
    ensures RawRounds(w, clock, 0, m).Some? && RawRounds(w, clock, 0, m).value.base == LaterId(w.base, m)
  {
    var v := RawRound(w, Reading(clock, 0)).value;
    assert v.slots[j] == w.slots[j];
    LoopRunsTo(v, clock, 1, j, m - 1);
    OneAndRest(w.base, m);
  }

  lemma JustPassed(id: int, base: int)
    requires base - id == HALF
    ensures Wrap(id) != Wrap(base) && SignedDiff(Wrap(id), NextId(Wrap(base))) == HALF - 1
  {
    SameWrap(id, base);
    NextWrapped(base);
    StaleBlockLooksNewer(id, base + 1);
  }

  lemma WrapOfSum(base: int, id: int)
    requires base - id == HALF
    ensures LaterId(Wrap(base), base - id) == Wrap(id)
  {
  }
}
