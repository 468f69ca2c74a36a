/**
 The receive window as src/rx.c keeps it: block ids in 32 bits, compared by the sign of their
 difference (the ordering of section 3.2 of RFC 1982).

 Every method is proved to do to the window over unbounded ids (`abs`) what `UnboundedWindow` says, as
 long as the blocks held stay within 2^31 less the window size of base.  Wrap-around of the
 ids, of base included, is then not visible.
 */
module Window32 {
  import opened LinearAlgebra
  import Gf256
  import opened Codec
  import opened Erasure
  import opened UnboundedWindow
  import opened WindowRuns
  import opened Crypto

  const TWO32: int := 0x1_0000_0000
  const HALF: int := 0x8000_0000
  const MAX_WINDOW: int := 16

  type u32 = x: int | 0 <= x < TWO32

  function Wrap(id: int): u32
  {
    id % TWO32
  }

  // (int32_t)(a - b)
  function SignedDiff(a: u32, b: u32): int
  {
    var d := (a - b) % TWO32;
    if d < HALF then d else d - TWO32
  }

  // The signed difference of wrapped ids is the difference of the ids exactly when they are less
  // than half the number space apart.
  lemma SignedDiffOfWrapped(a: int, b: int)
    ensures SignedDiff(Wrap(a), Wrap(b)) == a - b <==> -HALF <= a - b < HALF
  {
    WrapOfDifference(a, b);
  }

  // Beyond that the comparison is wrong: a block held since more than 2^31 blocks counts as newer
  // than base.  Slots that base has passed are never cleared, so this horizon is a real limit.
  lemma StaleBlockLooksNewer(id: int, base: int)
    requires -TWO32 < id - base < -HALF
    ensures SignedDiff(Wrap(id), Wrap(base)) == id - base + TWO32 > 0
  {
    WrapOfDifference(id, base);
  }

  lemma WrapOfDifference(a: int, b: int)
    ensures (a % TWO32 - b % TWO32) % TWO32 == (a - b) % TWO32
  {
  }

  lemma SameWrap(a: int, b: int)
    requires -TWO32 < a - b < TWO32
    ensures Wrap(a) == Wrap(b) <==> a == b
  {
  }

  lemma WrapNext(a: int)
    ensures Wrap(a + 1) == (Wrap(a) + 1) % TWO32
  {
  }

  // A number below 2^64 as a word, bit by bit.
  function ToWord(v: nat): bv64
  {
    if v == 0 then 0 else Doubled(ToWord(v / 2), v % 2 == 1)
  }

  function Doubled(w: bv64, odd: bool): bv64
  {
    (w << 1) | (if odd then 1 else 0)
  }

  function Joined(high: bv64, low: bv64): bv64
  {
    (high << 8) | low
  }

  // ((uint64_t)block_id << 8) | idx
  function Nonce(blockId: u32, idx: nat): bv64
    requires idx < 0x100
  {
    Joined(ToWord(blockId), ToWord(idx))
  }

  function Wrapped(s: Slot): Slot
  {
    s.(blockId := Wrap(s.blockId))
  }

  // The shard as it is stored: decrypted.
  function Decrypted(ctx: Ctx, blockId: u32, idx: nat, s: Shard<bv8>): Shard<bv8>
    requires idx < 0x100
  {
    Shard(s.coeffs, Crypted(ctx, s.data, Nonce(blockId, idx)))
  }

  // No block held is so far from base that the differences taken while base moves could wrap.
  ghost predicate Horizon(w: Window)
  {
    && Reach(w, |w.slots|) <= HALF
    && forall i :: 0 <= i < |w.slots| && w.slots[i].Occupied() ==>
      -HALF + Reach(w, |w.slots|) <= w.slots[i].blockId - w.base < HALF
  }

  class RxWindow {
    const slots: array<Slot>
    var base: u32
    ghost var abs: Window

    ghost predicate Valid()
      reads this, slots
    {
      && WellFormed(abs) && |abs.slots| == slots.Length
      && base == Wrap(abs.base)
      && forall i :: 0 <= i < slots.Length ==> slots[i] == Wrapped(abs.slots[i])
    }

    constructor (size: nat)
      requires 1 <= size <= MAX_WINDOW
      ensures Valid() && fresh(slots) && abs == InitWindow(size)
    {
      slots := new Slot[size](_ => FreeSlot());
      base := 0;
      abs := InitWindow(size);
      new;
      FreeSlotWellFormed();
    }

    // The slot of a block, or the number of slots.
    method LookUp(blockId: u32, ghost id: int) returns (i: nat)
      requires Valid()
      requires blockId == Wrap(id)
      requires forall j :: 0 <= j < |abs.slots| && abs.slots[j].Occupied() ==> -TWO32 < abs.slots[j].blockId - id < TWO32
      ensures i == SlotOf(abs.slots, id, 0)
    {
      i := 0;
      while i < slots.Length
        invariant 0 <= i <= slots.Length
        invariant SlotOf(abs.slots, id, 0) == SlotOf(abs.slots, id, i)
      {
        if slots[i].Occupied() {
          SameWrap(abs.slots[i].blockId, id);
          if slots[i].blockId == blockId {
            return;
          }
        }
        i := i + 1;
      }
    }

    method FirstFree() returns (i: nat)
      requires Valid()
      ensures i == FreeIndex(abs.slots, 0)
    {
      i := 0;
      while i < slots.Length
        invariant 0 <= i <= slots.Length
        invariant FreeIndex(abs.slots, 0) == FreeIndex(abs.slots, i)
      {
        if !slots[i].Occupied() {
          return;
        }
        i := i + 1;
      }
    }

    // Replaces a slot here and in the window over unbounded ids.
    method Put(i: nat, s: Slot, ghost t: Slot)
      requires Valid() && i < slots.Length && s == Wrapped(t) && WellFormedSlot(t)
      modifies this`abs, slots
      ensures Valid() && abs == old(abs).(slots := old(abs.slots)[i := t])
    {
      slots[i] := s;
      abs := abs.(slots := abs.slots[i := t]);
    }

    // The id is within half the number space of base, and every block held within the horizon.
    ghost predicate InReach(blockId: u32, id: int)
      reads this
    {
      && Horizon(abs) && |abs.slots| <= MAX_WINDOW
      && blockId == Wrap(id) && -HALF <= id - abs.base < HALF
    }

    // rx_find: the index of the slot, or the number of slots for NULL.
    method RxFind(blockId: u32, ghost id: int) returns (r: nat)
      requires Valid() && InReach(blockId, id)
      modifies this`abs, slots
      ensures Valid() && abs == Claim(old(abs), id) && r == Find(old(abs), id)
    {
      SignedDiffOfWrapped(id, abs.base);
      if SignedDiff(blockId, base) < 0 || SignedDiff(blockId, base) >= slots.Length {
        return slots.Length;
      }
      r := LookUp(blockId, id);
      if r < slots.Length {
        assert abs.slots == abs.slots[r := Claimed(abs.slots[r], id)];
        return;
      }
      r := FirstFree();
      if r < slots.Length {
        FreeSlotWellFormed();
        Put(r, FreeSlot().(blockId := blockId), FreeSlot().(blockId := id));
      }
    }

    // rx_window_insert
    method Insert(blockId: u32, shardIdx: nat, shard: Shard<bv8>, ctx: Ctx, now: nat, ghost a: Arrival)
      requires Valid() && InReach(blockId, a.blockId)
      requires shardIdx < 0x100 && a.shardIdx == shardIdx && a.insertUs == now
      requires a.shard == Decrypted(ctx, blockId, shardIdx, shard)
      modifies this`abs, slots
      ensures Valid() && abs == UnboundedWindow.Insert(old(abs), a)
    {
      ghost var w := abs;
      var i := RxFind(blockId, a.blockId);
      if i == slots.Length {
        return;
      }
      InsertAfterClaim(w, a);
      var s := slots[i];
      ghost var t := abs.slots[i];
      if s.decoded || shardIdx >= MAX_N || s.received[shardIdx] {
        assert abs == abs.(slots := abs.slots[i := t]);
        return;
      }
      var data := CryptPayload(ctx, shard.data, Nonce(blockId, shardIdx));
      StoreWellFormed(t, shardIdx, a.shard, now);
      Put(i, Store(s, shardIdx, Shard(shard.coeffs, data), now), Store(t, shardIdx, a.shard, now));
    }

    // rx_window_try_decode.  `stray` stands for what the decoder makes of shards that disagree
    // about k or their length.
    method TryDecode(blockId: u32, k: nat, stray: Option<Matrix<bv8>>, ghost id: int) returns (packets: Option<Matrix<bv8>>)
      requires Valid() && InReach(blockId, id)
      modifies this`abs, slots
      ensures Valid() && (abs, packets) == UnboundedWindow.TryDecode(old(abs), id, k, stray)
    {
      ghost var w := abs;
      var i := RxFind(blockId, id);
      if i == slots.Length {
        return None;
      }
      TryDecodeAfterClaim(w, id, k, stray);
      ghost var t := abs.slots[i];
      packets := DecodeSlot(slots[i], k, stray, t);
      if packets.Some? {
        Put(i, slots[i].(decoded := true), t.(decoded := true));
      }
    }

    // rx_window_advance
    method Advance(clock: seq<nat>)
      requires Valid() && Horizon(abs) && Distinct(abs.slots)
      modifies this, slots
      ensures Valid() && abs == UnboundedWindow.Advance(old(abs), clock, 0)
    {
      var found, round := true, 0;
      while found
        invariant Valid() && Horizon(abs) && Distinct(abs.slots)
        invariant found ==> UnboundedWindow.Advance(old(abs), clock, 0) == UnboundedWindow.Advance(abs, clock, round)
        invariant !found ==> abs == UnboundedWindow.Advance(old(abs), clock, 0)
        decreases found, Reach(abs, |abs.slots|)
      {
        ghost var w := abs;
        found := AdvanceRound(Reading(clock, round));
        if found {
          RoundShortensReach(w, Reading(clock, round));
          round := round + 1;
        }
      }
    }

    // One round of the loop; tells whether it moved base.
    method AdvanceRound(now: nat) returns (found: bool)
      requires Valid() && Horizon(abs) && Distinct(abs.slots)
      modifies this, slots
      ensures Valid() && Horizon(abs) && Distinct(abs.slots)
      ensures found <==> AdvanceOnce(old(abs), now).Some?
      ensures abs == if found then AdvanceOnce(old(abs), now).value else old(abs)
    {
      ghost var w := abs;
      found := ClearOrSeek(now);
      if found {
        MoveBase();
        HorizonAfterRound(w, now);
      }
    }

    // The round but for the step of base.
    method ClearOrSeek(now: nat) returns (found: bool)
      requires Valid() && Horizon(abs)
      modifies this`abs, slots
      ensures Valid()
      ensures found <==> AdvanceOnce(old(abs), now).Some?
      ensures abs == if found then AdvanceOnce(old(abs), now).value.(base := old(abs.base)) else old(abs)
    {
      ghost var w := abs;
      found := ClearBase(now);
      ghost var v, cleared := abs, found;
      if !found {
        found := AnyNewer();
      }
      RoundResult(w, now, v, cleared);
    }

    // Frees the slot of the block at base if the block is decoded or has timed out.
    method ClearBase(now: nat) returns (done: bool)
      requires Valid() && Horizon(abs)
      modifies this`abs, slots
      ensures Valid()
      ensures var w := old(abs); var i := SlotOf(w.slots, w.base, 0);
        && (done <==> i < |w.slots| && (w.slots[i].decoded || Expired(now, w.slots[i].firstRecvUs)))
        && abs == if done then w.(slots := w.slots[i := FreeSlot()]) else w
    {
      var i := LookUp(base, abs.base);
      done := i < slots.Length && (slots[i].decoded || Expired(now, slots[i].firstRecvUs));
      if done {
        FreeSlotWellFormed();
        Put(i, FreeSlot(), FreeSlot());
      }
    }

    method MoveBase()
      requires Valid()
      modifies this
      ensures Valid() && abs == old(abs).(base := old(abs.base) + 1)
    {
      WrapNext(abs.base);
      base := (base + 1) % TWO32;
      abs := abs.(base := abs.base + 1);
    }

    method AnyNewer() returns (newer: bool)
      requires Valid() && Horizon(abs)
      ensures newer <==> HasNewer(abs)
    {
      for i := 0 to slots.Length
        invariant forall j :: 0 <= j < i && abs.slots[j].Occupied() ==> abs.slots[j].blockId <= abs.base
      {
        if slots[i].Occupied() {
          SignedDiffOfWrapped(abs.slots[i].blockId, abs.base);
          if SignedDiff(slots[i].blockId, base) > 0 {
            return true;
          }
        }
      }
      return false;
    }

    // One data datagram through the event loop.
    method Receive(d: Datagram, ctx: Ctx, ghost a: Arrival) returns (packets: Option<Matrix<bv8>>)
      requires Valid() && Invariant(abs) && Receivable(abs, ctx, d, a)
      modifies this, slots
      ensures Valid() && Invariant(abs)
      ensures abs == Step(old(abs), a).0
      ensures Step(old(abs), a).1 == if packets.Some? then Some(Delivery(a.blockId, packets.value)) else None
    {
      ghost var w := abs;
      HorizonDuringStep(w, a);
      InsertWellFormed(w, a);
      TryDecodeIs(w, a);
      StepKeepsInv(w, a);
      Insert(d.blockId, d.shardIdx, d.shard, ctx, d.insertUs, a);
      packets := TryDecode(d.blockId, d.k, d.stray, a.blockId);
      ReceivedDistinct(w, a);
      Advance(d.clock);
    }

    // The first datagram of a run; the rest of the run continues from the new state.
    method ReceiveFirst(d: Datagram, ctx: Ctx, ghost ds: seq<Datagram>, ghost arrivals: seq<Arrival>)
      returns (packets: Option<Matrix<bv8>>)
      requires Valid() && Invariant(abs) && AllReceivable(abs, ctx, ds, arrivals) && ds != [] && d == ds[0]
      modifies this, slots
      ensures Valid() && Invariant(abs) && |arrivals| == |ds| && AllReceivable(abs, ctx, ds[1..], arrivals[1..])
      ensures Run(old(abs), arrivals).0 == Run(abs, arrivals[1..]).0
      ensures WrappedAll(Run(old(abs), arrivals).1)
           == (if packets.Some? then [Delivery(d.blockId, packets.value)] else []) + WrappedAll(Run(abs, arrivals[1..]).1)
    {
      ghost var w := abs;
      NextReceivable(w, ctx, ds, arrivals);
      RunUnfold(w, arrivals);
      packets := Receive(d, ctx, arrivals[0]);
    }

    // A run of the event loop delivers the blocks that the window over unbounded ids delivers,
    // under their wrapped ids.
    method ReceiveAll(ds: seq<Datagram>, ctx: Ctx, ghost arrivals: seq<Arrival>) returns (out: seq<Delivery>)
      requires Valid() && Invariant(abs) && AllReceivable(abs, ctx, ds, arrivals)
      modifies this, slots
      ensures Valid() && Invariant(abs)
      ensures abs == Run(old(abs), arrivals).0
      ensures out == WrappedAll(Run(old(abs), arrivals).1)
      decreases |ds|
    {
      if ds == [] {
        return [];
      }
      var packets := ReceiveFirst(ds[0], ctx, ds, arrivals);
      out := ReceiveAll(ds[1..], ctx, arrivals[1..]);
      out := (if packets.Some? then [Delivery(ds[0].blockId, packets.value)] else []) + out;
    }
  }

  lemma NextReceivable(w: Window, ctx: Ctx, ds: seq<Datagram>, arrivals: seq<Arrival>)
    requires Invariant(w) && ds != [] && AllReceivable(w, ctx, ds, arrivals)
    ensures arrivals != [] && Receivable(w, ctx, ds[0], arrivals[0])
    ensures Invariant(Step(w, arrivals[0]).0)
    ensures AllReceivable(Step(w, arrivals[0]).0, ctx, ds[1..], arrivals[1..])
  {
    StepKeepsInv(w, arrivals[0]);
  }

  // A data datagram as it arrives: with a 32-bit id and an encrypted payload.
  datatype Datagram = Datagram(blockId: u32, shardIdx: nat, k: nat, shard: Shard<bv8>, insertUs: nat, clock: seq<nat>,
                               stray: Option<Matrix<bv8>>)

  // The arrival that a datagram is for the window over unbounded ids.
  ghost predicate IsArrival(ctx: Ctx, d: Datagram, a: Arrival)
  {
    && d.blockId == Wrap(a.blockId) && d.shardIdx == a.shardIdx < 0x100 && d.k == a.k
    && a.shard == Decrypted(ctx, d.blockId, d.shardIdx, d.shard)
    && d.insertUs == a.insertUs && d.clock == a.clock && d.stray == a.stray
  }

  // Every block held is less than 2^31 less the window size behind base, and the id that
  // arrives less than 2^31 away.
  ghost predicate Receivable(w: Window, ctx: Ctx, d: Datagram, a: Arrival)
  {
    && IsArrival(ctx, d, a)
    && 1 <= |w.slots| <= MAX_WINDOW
    && -HALF <= a.blockId - w.base < HALF
    && forall i :: 0 <= i < |w.slots| && w.slots[i].Occupied() ==> -HALF + MAX_WINDOW <= w.slots[i].blockId - w.base
  }

  ghost predicate AllReceivable(w: Window, ctx: Ctx, ds: seq<Datagram>, arrivals: seq<Arrival>)
    requires Invariant(w)
    decreases |ds|
  {
    |ds| == |arrivals| &&
    (ds == [] ||
     (Receivable(w, ctx, ds[0], arrivals[0]) &&
      (StepKeepsInv(w, arrivals[0]); AllReceivable(Step(w, arrivals[0]).0, ctx, ds[1..], arrivals[1..]))))
  }

  // The deliveries under their wrapped ids.
  function WrappedAll(ds: seq<Delivery>): (r: seq<Delivery>)
    ensures |r| == |ds|
  {
    if ds == [] then [] else [Delivery(Wrap(ds[0].blockId), ds[0].packets)] + WrappedAll(ds[1..])
  }

  lemma RunUnfold(w: Window, arrivals: seq<Arrival>)
    requires Invariant(w) && arrivals != []
    ensures Invariant(Step(w, arrivals[0]).0)
    ensures var (u, d) := Step(w, arrivals[0]);
      && Run(w, arrivals).0 == Run(u, arrivals[1..]).0
      && WrappedAll(Run(w, arrivals).1) ==
        (if d.Some? then [Delivery(Wrap(d.value.blockId), d.value.packets)] else []) + WrappedAll(Run(u, arrivals[1..]).1)
  {
    StepKeepsInv(w, arrivals[0]);
    var (u, d) := Step(w, arrivals[0]);
    var ds := Run(u, arrivals[1..]).1;
    if d.Some? {
      assert ([d.value] + ds)[1..] == ds;
    } else {
      assert [] + ds == ds;
    }
  }

  lemma HorizonDuringStep(w: Window, a: Arrival)
    requires Invariant(w) && 1 <= |w.slots| <= MAX_WINDOW && -HALF <= a.blockId - w.base < HALF
    requires forall i :: 0 <= i < |w.slots| && w.slots[i].Occupied() ==> -HALF + MAX_WINDOW <= w.slots[i].blockId - w.base
    ensures Horizon(w) && Horizon(Insert(w, a)) && Horizon(Received(w, a))
  {
    ReachOfReceived(w, a);
    ReceivedIsNear(w, a);
    InsertedIsNear(w, a);
    SameReach(Insert(w, a), Received(w, a), |w.slots|);
    assert Reach(w, |w.slots|) <= 1;
  }

  // No block held is too far behind or ahead.
  ghost predicate Near(w: Window)
  {
    forall i :: 0 <= i < |w.slots| && w.slots[i].Occupied() ==> -HALF + MAX_WINDOW <= w.slots[i].blockId - w.base < HALF
  }

  lemma ReceivedIsNear(w: Window, a: Arrival)
    requires Invariant(w) && |w.slots| <= MAX_WINDOW && Near(w)
    ensures Near(Received(w, a))
  {
    if Find(w, a.blockId) < |w.slots| {
      FilledWellFormed(w, a);
    }
  }

  // Insertion and decoding leave the same ids in the same slots.
  lemma InsertedIsNear(w: Window, a: Arrival)
    requires Invariant(w)
    ensures Insert(w, a).base == Received(w, a).base && |Insert(w, a).slots| == |Received(w, a).slots|
    ensures forall j :: 0 <= j < |w.slots| ==>
      && Insert(w, a).slots[j].Occupied() == Received(w, a).slots[j].Occupied()
      && Insert(w, a).slots[j].blockId == Received(w, a).slots[j].blockId
  {
    InsertedIs(w, a);
  }

  lemma {:induction false} SameReach(v: Window, u: Window, n: nat)
    requires v.base == u.base && n <= |v.slots| == |u.slots|
    requires forall j :: 0 <= j < n ==>
      v.slots[j].Occupied() == u.slots[j].Occupied() && v.slots[j].blockId == u.slots[j].blockId
    ensures Reach(v, n) == Reach(u, n)
  {
    if n > 0 {
      SameReach(v, u, n - 1);
    }
  }

  // A round is clearing the slot at base, if there is reason to, and moving base.
  lemma RoundResult(w: Window, now: nat, v: Window, cleared: bool)
    requires var i := SlotOf(w.slots, w.base, 0);
      && (cleared <==> i < |w.slots| && (w.slots[i].decoded || Expired(now, w.slots[i].firstRecvUs)))
      && v == if cleared then w.(slots := w.slots[i := FreeSlot()]) else w
    ensures AdvanceOnce(w, now) == if cleared || HasNewer(w) then Some(v.(base := w.base + 1)) else None
  {
  }

  lemma HorizonAfterRound(w: Window, now: nat)
    requires Horizon(w) && Distinct(w.slots) && AdvanceOnce(w, now).Some?
    ensures Horizon(AdvanceOnce(w, now).value) && Distinct(AdvanceOnce(w, now).value.slots)
  {
    RoundShortensReach(w, now);
  }

  method CryptPayload(ctx: Ctx, payload: seq<bv8>, nonce: bv64) returns (plain: seq<bv8>)
    ensures plain == Crypted(ctx, payload, nonce)
  {
    var data := new bv8[|payload|];
    for i := 0 to |payload|
      invariant data[..i] == payload[..i]
    {
      data[i] := payload[i];
    }
    assert data[..|payload|] == payload;
    CryptoXor(ctx, data, |payload|, nonce);
    plain := data[..];
  }

  // try_decode, on the contents of a slot; `t` is the same slot with its unbounded id.
  method DecodeSlot(s: Slot, k: nat, stray: Option<Matrix<bv8>>, ghost t: Slot) returns (packets: Option<Matrix<bv8>>)
    requires s == Wrapped(t) && WellFormedSlot(t)
    ensures packets == if CanDecode(t, k, stray) then Outcome(t, k, stray) else None
  {
    if s.decoded || s.recvCount < k {
      return None;
    }
    var shards := Collect(s, k);
    assert shards == Selected(t, Chosen(t.received, |t.received|, k));
    packets := DecodeShards(shards, k, stray);
  }

  // The k received shards of lowest index.
  method Collect(s: Slot, k: nat) returns (shards: seq<Shard<bv8>>)
    requires |s.shards| == |s.received| == MAX_N
    ensures shards == Selected(s, Chosen(s.received, |s.received|, k))
  {
    ghost var c := [];
    shards := [];
    var i := 0;
    while i < MAX_N && |shards| < k
      invariant 0 <= i <= MAX_N
      invariant c == Chosen(s.received, i, k) && |shards| == |c|
      invariant shards == Selected(s, c)
    {
      if s.received[i] {
        c := c + [i];
        shards := shards + [s.shards[i]];
      }
      i := i + 1;
    }
    ChosenIsFull(s.received, i, |s.received|, k);
  }

  method DecodeShards(shards: seq<Shard<bv8>>, k: nat, stray: Option<Matrix<bv8>>) returns (r: Option<Matrix<bv8>>)
    ensures r == Decoding(shards, k, stray)
  {
    var uniform := IsUniform(shards, k);
    if !uniform {
      return stray;
    }
    Gf256.GfIsField();
    var w := if shards == [] then 0 else |shards[0].data|;
    r := DecodeBlock(Gf256.Gf(), shards, k, w);
    DecodingIsUnique(Gf256.Gf(), CoeffRows(shards, k, k), DataRows(shards, k, w), w, r, Decoding(shards, k, stray));
  }

  // Scanning on after k shards are collected changes nothing.
  lemma {:induction false} ChosenIsFull(received: seq<bool>, i: nat, n: nat, k: nat)
    requires i <= n <= |received|
    requires i == n || |Chosen(received, i, k)| >= k
    ensures Chosen(received, n, k) == Chosen(received, i, k)
    decreases n - i
  {
    if i < n {
      ChosenIsFull(received, i, n - 1, k);
    }
  }

  method IsUniform(shards: seq<Shard<bv8>>, k: nat) returns (r: bool)
    ensures r <==> Uniform(shards, k, Width(shards))
  {
    if k > |shards| {
      return false;
    }
    for i := 0 to k
      invariant forall j :: 0 <= j < i ==> k <= |shards[j].coeffs| && |shards[j].data| == Width(shards)
    {
      if |shards[i].coeffs| < k || |shards[i].data| != |shards[0].data| {
        return false;
      }
    }
    return true;
  }
}
