/**
 The receive window of src/rx.c as a state machine over block ids that do not wrap around.
 Module `Window32` shows that the code, which keeps the ids in 32 bits, refines it.

 One step, as the event loop of src/main.c takes it for every data datagram, is: insert the
 shard, try to decode its block, advance the window.
 */
module UnboundedWindow {
  import opened Fields
  import opened LinearAlgebra
  import opened Gf256
  import opened Codec
  import opened Erasure

  type Bytes = seq<bv8>

  const BLOCK_TIMEOUT_US: nat := 50000
  const TWO64: nat := 0x1_0000_0000_0000_0000

  // `received[i]` says that `shards[i]` has arrived; `recvCount` is kept beside the flags.  A
  // slot with count 0 is free.
  datatype Slot = Slot(blockId: int, shards: seq<Shard<bv8>>, received: seq<bool>, recvCount: nat, decoded: bool,
                       firstRecvUs: nat)
  {
    predicate Occupied() { recvCount > 0 }
  }

  datatype Window = Window(base: int, slots: seq<Slot>)

  // A data datagram together with everything else a step depends on: the clock readings, and
  // what the decoder makes of a block whose shards disagree about k or about their length, where
  // the code reads bytes that no datagram supplied.
  datatype Arrival = Arrival(blockId: int, shardIdx: nat, k: nat, shard: Shard<bv8>, insertUs: nat, clock: seq<nat>,
                             stray: Option<Matrix<bv8>>)

  datatype Delivery = Delivery(blockId: int, packets: Matrix<bv8>)

  function NoShards(n: nat): (s: seq<Shard<bv8>>)
    ensures |s| == n
  {
    seq(n, _ => Shard([], []))
  }

  function NoFlags(n: nat): (s: seq<bool>)
    ensures |s| == n
    ensures forall i :: 0 <= i < n ==> !s[i]
  {
    seq(n, _ => false)
  }

  // A slot after memset.
  function FreeSlot(): Slot
  {
    Slot(0, NoShards(MAX_N), NoFlags(MAX_N), 0, false, 0)
  }

  function FreeSlots(n: nat): (s: seq<Slot>)
    ensures |s| == n
    ensures forall i :: 0 <= i < n ==> s[i] == FreeSlot()
  {
    if n == 0 then [] else FreeSlots(n - 1) + [FreeSlot()]
  }

  function InitWindow(size: nat): Window
  {
    Window(0, FreeSlots(size))
  }

  // ---------------------------------------------------------------------------------------
  // rx_find

  // The first occupied slot of the block, or |slots|.
  function SlotOf(slots: seq<Slot>, id: int, i: nat): (r: nat)
    requires i <= |slots|
    ensures i <= r <= |slots|
    ensures r < |slots| ==> slots[r].Occupied() && slots[r].blockId == id
    ensures forall j :: i <= j < r ==> !(slots[j].Occupied() && slots[j].blockId == id)
    decreases |slots| - i
  {
    if i == |slots| || (slots[i].Occupied() && slots[i].blockId == id) then i else SlotOf(slots, id, i + 1)
  }

  // The first free slot, or |slots|.
  function FreeIndex(slots: seq<Slot>, i: nat): (r: nat)
    requires i <= |slots|
    ensures i <= r <= |slots|
    ensures r < |slots| ==> !slots[r].Occupied()
    ensures forall j :: i <= j < r ==> slots[j].Occupied()
    decreases |slots| - i
  {
    if i == |slots| || !slots[i].Occupied() then i else FreeIndex(slots, i + 1)
  }

  // The slot that `rx_find` returns, or |slots| for NULL.
  function Find(w: Window, id: int): (r: nat)
    ensures r <= |w.slots|
  {
    if id - w.base < 0 || id - w.base >= |w.slots| then |w.slots|
    else
      var i := SlotOf(w.slots, id, 0);
      if i < |w.slots| then i else FreeIndex(w.slots, 0)
  }

  // The slot as `rx_find` leaves it: a free one is cleared and given the id.
  function Claimed(s: Slot, id: int): Slot
  {
    if s.Occupied() then s else FreeSlot().(blockId := id)
  }

  function Claim(w: Window, id: int): (r: Window)
    ensures |r.slots| == |w.slots|
  {
    var i := Find(w, id);
    if i == |w.slots| then w else w.(slots := w.slots[i := Claimed(w.slots[i], id)])
  }

  // ---------------------------------------------------------------------------------------
  // rx_window_insert

  // `decrypted` is the payload after decryption.
  function Store(s: Slot, idx: nat, shard: Shard<bv8>, now: nat): Slot
    requires |s.shards| == |s.received| == MAX_N
  {
    if s.decoded || idx >= MAX_N || s.received[idx] then s
    else s.(shards := s.shards[idx := shard], received := s.received[idx := true], recvCount := s.recvCount + 1,
            firstRecvUs := if s.recvCount == 0 then now else s.firstRecvUs)
  }

  ghost predicate WellFormed(w: Window)
  {
    forall i :: 0 <= i < |w.slots| ==> WellFormedSlot(w.slots[i])
  }

  // The count is the number of flags.
  ghost predicate WellFormedSlot(s: Slot)
  {
    |s.shards| == |s.received| == MAX_N && s.recvCount == Count(s.received, |s.received|)
  }

  function Insert(w: Window, a: Arrival): (r: Window)
    requires forall i :: 0 <= i < |w.slots| ==> |w.slots[i].shards| == |w.slots[i].received| == MAX_N
    ensures |r.slots| == |w.slots|
  {
    var i := Find(w, a.blockId);
    if i == |w.slots| then w
    else w.(slots := w.slots[i := Store(Claimed(w.slots[i], a.blockId), a.shardIdx, a.shard, a.insertUs)])
  }

  // ---------------------------------------------------------------------------------------
  // rx_window_try_decode

  // The k received shards of lowest index.
  function Selected(s: Slot, c: seq<nat>): (r: seq<Shard<bv8>>)
    requires forall i :: 0 <= i < |c| ==> c[i] < |s.shards|
    ensures |r| == |c|
    ensures forall i :: 0 <= i < |c| ==> r[i] == s.shards[c[i]]
  {
    if c == [] then [] else Selected(s, c[..|c| - 1]) + [s.shards[c[|c| - 1]]]
  }

  ghost function Width(shards: seq<Shard<bv8>>): nat
  {
    if shards == [] then 0 else |shards[0].data|
  }

  ghost predicate HasDecoding(shards: seq<Shard<bv8>>, k: nat, r: Option<Matrix<bv8>>)
    requires Uniform(shards, k, Width(shards))
  {
    var w := Width(shards);
    Decodes(Gf(), CoeffRows(shards, k, k), DataRows(shards, k, w), w, r)
  }

  lemma DecodingOf(shards: seq<Shard<bv8>>, k: nat) returns (r: Option<Matrix<bv8>>)
    requires Uniform(shards, k, Width(shards))
    ensures HasDecoding(shards, k, r)
  {
    var w := Width(shards);
    var m, d := CoeffRows(shards, k, k), DataRows(shards, k, w);
    GfIsField();
    r := DecodingExists(Gf(), m, d, m, d, w, 0);
  }

  lemma DecodingDefined(shards: seq<Shard<bv8>>, k: nat)
    requires Uniform(shards, k, Width(shards))
    ensures exists r :: HasDecoding(shards, k, r)
  {
    var r := DecodingOf(shards, k);
  }

  // What decoding k shards gives: the packets, or nothing if the coefficients are dependent.
  ghost function Decoding(shards: seq<Shard<bv8>>, k: nat, stray: Option<Matrix<bv8>>): (r: Option<Matrix<bv8>>)
    ensures Uniform(shards, k, Width(shards)) ==> HasDecoding(shards, k, r)
    ensures !Uniform(shards, k, Width(shards)) ==> r == stray
  {
    if Uniform(shards, k, Width(shards)) then
      DecodingDefined(shards, k);
      var r :| HasDecoding(shards, k, r);
      r
    else stray
  }

  ghost function Outcome(s: Slot, k: nat, stray: Option<Matrix<bv8>>): (r: Option<Matrix<bv8>>)
    requires WellFormedSlot(s)
  {
    Decoding(Selected(s, Chosen(s.received, |s.received|, k)), k, stray)
  }

  ghost predicate CanDecode(s: Slot, k: nat, stray: Option<Matrix<bv8>>)
    requires WellFormedSlot(s)
  {
    !s.decoded && s.recvCount >= k && Outcome(s, k, stray).Some?
  }

  // The window after the call, and the packets written if the block was decoded.
  ghost function TryDecode(w: Window, id: int, k: nat, stray: Option<Matrix<bv8>>): (r: (Window, Option<Matrix<bv8>>))
    requires WellFormed(w)
    ensures |r.0.slots| == |w.slots|
  {
    var i := Find(w, id);
    if i == |w.slots| then (w, None)
    else
      var s := Claimed(w.slots[i], id);
      FreeSlotWellFormed();
      if CanDecode(s, k, stray) then
        (w.(slots := w.slots[i := s.(decoded := true)]), Outcome(s, k, stray))
      else
        (w.(slots := w.slots[i := s]), None)
  }

  lemma InsertAfterClaim(w: Window, a: Arrival)
    requires WellFormed(w) && Find(w, a.blockId) < |w.slots|
    ensures var i, v := Find(w, a.blockId), Claim(w, a.blockId);
      && WellFormedSlot(v.slots[i])
      && Insert(w, a) == v.(slots := v.slots[i := Store(v.slots[i], a.shardIdx, a.shard, a.insertUs)])
  {
    FreeSlotWellFormed();
  }

  lemma TryDecodeAfterClaim(w: Window, id: int, k: nat, stray: Option<Matrix<bv8>>)
    requires WellFormed(w) && Find(w, id) < |w.slots|
    ensures var i, v := Find(w, id), Claim(w, id);
      && WellFormedSlot(v.slots[i])
      && TryDecode(w, id, k, stray) ==
        if CanDecode(v.slots[i], k, stray)
        then (v.(slots := v.slots[i := v.slots[i].(decoded := true)]), Outcome(v.slots[i], k, stray))
        else (v, None)
  {
    FreeSlotWellFormed();
    var i := Find(w, id);
    var s := Claimed(w.slots[i], id);
    assert w.slots[i := s][i := s.(decoded := true)] == w.slots[i := s.(decoded := true)];
  }

  lemma FreeSlotWellFormed()
    ensures WellFormedSlot(FreeSlot())
  {
    CountNoFlags(NoFlags(MAX_N), |NoFlags(MAX_N)|);
  }

  lemma {:induction false} CountNoFlags(flags: seq<bool>, n: nat)
    requires n <= |flags| && forall i :: 0 <= i < n ==> !flags[i]
    ensures Count(flags, n) == 0
  {
    if n > 0 {
      CountNoFlags(flags, n - 1);
    }
  }

  // ---------------------------------------------------------------------------------------
  // rx_window_advance

  // Unsigned 64-bit subtraction: a clock that runs backwards expires the block.
  predicate Expired(now: nat, firstRecvUs: nat)
  {
    (now - firstRecvUs) % TWO64 >= BLOCK_TIMEOUT_US
  }

  predicate HasNewer(w: Window)
  {
    exists i :: 0 <= i < |w.slots| && w.slots[i].Occupied() && w.slots[i].blockId > w.base
  }

  // One round of the loop; None when it ends.
  function AdvanceOnce(w: Window, now: nat): (r: Option<Window>)
    ensures r.Some? ==> |r.value.slots| == |w.slots| && r.value.base == w.base + 1
  {
    var i := SlotOf(w.slots, w.base, 0);
    if i < |w.slots| && (w.slots[i].decoded || Expired(now, w.slots[i].firstRecvUs)) then
      Some(Window(w.base + 1, w.slots[i := FreeSlot()]))
    else if HasNewer(w) then Some(w.(base := w.base + 1))
    else None
  }

  // How far the newest block of the first n slots lies ahead: the rounds the loop can take.
  function Reach(w: Window, n: nat): (r: nat)
    requires n <= |w.slots|
    ensures forall i :: 0 <= i < n && w.slots[i].Occupied() ==> w.slots[i].blockId - w.base < r
    ensures r > 0 ==> exists i :: 0 <= i < n && w.slots[i].Occupied() && w.slots[i].blockId - w.base + 1 == r
  {
    if n == 0 then 0
    else
      var m := Reach(w, n - 1);
      var s := w.slots[n - 1];
      if s.Occupied() && s.blockId - w.base + 1 > m then s.blockId - w.base + 1 else m
  }

  lemma RoundShortensReach(w: Window, now: nat)
    requires AdvanceOnce(w, now).Some?
    ensures Reach(w, |w.slots|) > 0
    ensures var v := AdvanceOnce(w, now).value; Reach(v, |v.slots|) < Reach(w, |w.slots|)
  {
    var v := AdvanceOnce(w, now).value;
    var r := Reach(v, |v.slots|);
    var i := SlotOf(w.slots, w.base, 0);
    if r > 0 {
      var j :| 0 <= j < |v.slots| && v.slots[j].Occupied() && v.slots[j].blockId - v.base + 1 == r;
      assert w.slots[j] == v.slots[j];
    }
  }

  function Reading(clock: seq<nat>, i: nat): nat
  {
    if i < |clock| then clock[i] else 0
  }

  // The whole loop; round i takes its clock reading from `clock`.
  function Advance(w: Window, clock: seq<nat>, i: nat): (r: Window)
    ensures |r.slots| == |w.slots|
    decreases Reach(w, |w.slots|)
  {
    match AdvanceOnce(w, Reading(clock, i))
    case None => w
    case Some(v) =>
      RoundShortensReach(w, Reading(clock, i));
      Advance(v, clock, i + 1)
  }

  // ---------------------------------------------------------------------------------------
  // A step of the event loop, and runs.

  ghost function Step(w: Window, a: Arrival): (r: (Window, Option<Delivery>))
    requires WellFormed(w)
    ensures |r.0.slots| == |w.slots|
  {
    var w1 := Insert(w, a);
    InsertWellFormed(w, a);
    var (w2, packets) := TryDecode(w1, a.blockId, a.k, a.stray);
    (Advance(w2, a.clock, 0), if packets.Some? then Some(Delivery(a.blockId, packets.value)) else None)
  }

  lemma StoreWellFormed(s: Slot, idx: nat, shard: Shard<bv8>, now: nat)
    requires WellFormedSlot(s)
    ensures WellFormedSlot(Store(s, idx, shard, now))
  {
    if !s.decoded && idx < MAX_N && !s.received[idx] {
      CountOneMore(s.received, idx, |s.received|);
    }
  }

  lemma {:induction false} CountOneMore(flags: seq<bool>, idx: nat, n: nat)
    requires idx < |flags| && !flags[idx] && n <= |flags|
    ensures Count(flags[idx := true], n) == Count(flags, n) + if idx < n then 1 else 0
  {
    if n > 0 {
      CountOneMore(flags, idx, n - 1);
    }
  }

  lemma InsertWellFormed(w: Window, a: Arrival)
    requires WellFormed(w)
    ensures WellFormed(Insert(w, a))
  {
    var i := Find(w, a.blockId);
    FreeSlotWellFormed();
    if i < |w.slots| {
      StoreWellFormed(Claimed(w.slots[i], a.blockId), a.shardIdx, a.shard, a.insertUs);
    }
  }
}
