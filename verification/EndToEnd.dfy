/**
 From the sender's packets to the receiver's: encoding, encryption, the wire, the receive
 window, decoding.  The network may drop, repeat and reorder datagrams of blocks that were
 flushed; it does not invent any.
 */
module EndToEnd {
  import opened LinearAlgebra
  import opened Codec
  import opened Encoder
  import opened Erasure
  import Gf256
  import opened Crypto
  import Wire
  import opened Tx
  import opened Turns
  import opened Sender
  import opened UnboundedWindow
  import opened WindowRuns
  import opened Window32

  // ---------------------------------------------------------------------------------------
  // A datagram on its way.

  // What arrives as shard i of block b.
  ghost predicate ArrivesAs(b: Block, ctx: Ctx, i: nat, h: Wire.Header, s: Shard<bv8>)
    requires b.Valid() && i < b.n
  {
    && h.blockId == Wrap(b.id) && h.shardIdx == i && h.k == b.k
    && Decrypted(ctx, Wrap(b.id), i, s) == b.Shards()[i]
  }

  lemma DecryptedTwice(ctx: Ctx, blockId: u32, i: nat, s: Shard<bv8>)
    requires i < 0x100
    ensures Decrypted(ctx, blockId, i, Decrypted(ctx, blockId, i, s)) == s
    ensures Decrypted(ctx, blockId, i, s).coeffs == s.coeffs && |Decrypted(ctx, blockId, i, s).data| == |s.data|
  {
    CryptedTwice(ctx, s.data, Nonce(blockId, i));
  }

  lemma SentShardParses(blockId: u32, ctx: Ctx, i: nat, k: nat, n: nat, s: Shard<bv8>)
    requires i < 0x100 && n < 0x100 && |s.coeffs| == k <= MAX_K && |s.data| <= MAX_PAYLOAD
    ensures var sealed := Decrypted(ctx, blockId, i, s);
      && |sealed.coeffs| == k
      && Wire.Parse(Wire.DataBytes(blockId, i, k, n, sealed))
        == Some(Wire.Data(Wire.DataHeader(blockId, i, k, n, |s.data|), sealed))
      && Decrypted(ctx, blockId, i, sealed) == s
  {
    DecryptedTwice(ctx, blockId, i, s);
    Wire.DataRoundTrip(blockId, i, k, n, Decrypted(ctx, blockId, i, s));
  }

  // A datagram of a block parses, and decrypts to the shard that was encoded.
  lemma SentArrives(b: Block, ctx: Ctx, i: nat) returns (h: Wire.Header, s: Shard<bv8>)
    requires b.Valid() && i < b.n
    ensures Wire.Parse(b.DatagramOf(ctx, i)) == Some(Wire.Data(h, s))
    ensures ArrivesAs(b, ctx, i, h, s)
  {
    var shard := b.Shards()[i];
    SentShardParses(Wrap(b.id), ctx, i, b.k, b.n, shard);
    h, s := Wire.DataHeader(Wrap(b.id), i, b.k, b.n, |shard.data|), Decrypted(ctx, Wrap(b.id), i, shard);
  }

  // A datagram of a block, byte for byte: the coefficients in the clear, the payload encrypted under
  // the nonce of block and shard.
  lemma DatagramBytes(b: Block, ctx: Ctx, i: nat)
    requires b.Valid() && i < b.n
    ensures var d, s := b.DatagramOf(ctx, i), b.Shards()[i];
      && |d| == 14 + b.k + |s.data|
      && Wire.Value(d, 0) == 0xc0 && Wire.Value(d, 1) == 0xde && Wire.Value(d, 2) == 1 && Wire.Value(d, 3) == 1
      && Wire.Value4(d, 4) == Wrap(b.id) && Wire.Value(d, 8) == i && Wire.Value(d, 9) == b.k && Wire.Value(d, 10) == b.n
      && Wire.Value2(d, 12) == |s.data|
      && d[14..14 + b.k] == s.coeffs && d[14 + b.k..] == Crypted(ctx, s.data, Nonce(Wrap(b.id), i))
  {
    var s := b.Shards()[i];
    HiddenBytes(Wrap(b.id), ctx, i, b.k, b.n, s);
  }

  lemma HiddenBytes(blockId: u32, ctx: Ctx, i: nat, k: nat, n: nat, s: Shard<bv8>)
    requires i < 0x100 && n < 0x100 && |s.coeffs| == k <= MAX_K && |s.data| <= MAX_PAYLOAD
    ensures var d := Wire.DataBytes(blockId, i, k, n, Decrypted(ctx, blockId, i, s));
      && |d| == 14 + k + |s.data|
      && Wire.Value(d, 0) == 0xc0 && Wire.Value(d, 1) == 0xde && Wire.Value(d, 2) == 1 && Wire.Value(d, 3) == 1
      && Wire.Value4(d, 4) == blockId && Wire.Value(d, 8) == i && Wire.Value(d, 9) == k && Wire.Value(d, 10) == n
      && Wire.Value2(d, 12) == |s.data|
      && d[14..14 + k] == s.coeffs && d[14 + k..] == Crypted(ctx, s.data, Nonce(blockId, i))
  {
    Wire.DataLayout(blockId, i, k, n, Decrypted(ctx, blockId, i, s));
  }

  // ---------------------------------------------------------------------------------------
  // What the receive window holds.

  ghost predicate AreBlocks(log: seq<Block>)
  {
    forall d :: 0 <= d < |log| ==> log[d].Valid() && log[d].id == d
  }

  // The arrival is a shard of one of the blocks.
  ghost predicate IsShard(log: seq<Block>, a: Arrival)
    requires AreBlocks(log)
  {
    && 0 <= a.blockId < |log|
    && a.shardIdx < log[a.blockId].n && a.k == log[a.blockId].k
    && a.shard == log[a.blockId].Shards()[a.shardIdx]
  }

  ghost predicate AllShards(log: seq<Block>, arrivals: seq<Arrival>)
    requires AreBlocks(log)
  {
    forall i :: 0 <= i < |arrivals| ==> IsShard(log, arrivals[i])
  }

  // What a slot has received are shards of block b.
  ghost predicate HoldsShards(b: Block, s: Slot)
    requires b.Valid() && WellFormedSlot(s)
  {
    forall i {:trigger s.received[i]} :: 0 <= i < MAX_N && s.received[i] ==> i < b.n && s.shards[i] == b.Shards()[i]
  }

  ghost predicate SlotHolds(log: seq<Block>, s: Slot)
    requires AreBlocks(log) && WellFormedSlot(s)
  {
    s.Occupied() ==> 0 <= s.blockId < |log| && HoldsShards(log[s.blockId], s)
  }

  ghost predicate WindowHolds(log: seq<Block>, w: Window)
    requires AreBlocks(log) && WellFormed(w)
  {
    forall j :: 0 <= j < |w.slots| ==> SlotHolds(log, w.slots[j])
  }

  // ---------------------------------------------------------------------------------------
  // Decoding a slot.

  ghost predicate Dependent(b: Block, c: seq<nat>)
    requires b.Valid() && |c| == b.k && forall i :: 0 <= i < |c| ==> c[i] < MAX_N
  {
    Singular(Gf256.Gf(), ChosenRows(Gf256.Gf(), b.k, c, b.draws, |c|))
  }

  lemma ChosenAreShards(b: Block, s: Slot)
    requires b.Valid() && WellFormedSlot(s) && HoldsShards(b, s) && s.recvCount >= b.k
    ensures var c := Chosen(s.received, |s.received|, b.k);
      && |c| == b.k
      && AreShardsOf(Gf256.Gf(), b.Source(), b.Width(), b.draws, c, Selected(s, c))
      && Uniform(Selected(s, c), b.k, b.Width()) && Width(Selected(s, c)) == b.Width()
  {
    var c := Chosen(s.received, |s.received|, b.k);
    ChosenCount(s.received, |s.received|, b.k);
    var shards := Selected(s, c);
    forall i | 0 <= i < |c|
      ensures shards[i] == EncodedShard(Gf256.Gf(), b.Source(), b.Width(), c[i], b.draws)
    {
      assert s.received[c[i]];
      EncodingAt(Gf256.Gf(), b.Source(), b.Width(), b.n, b.draws, c[i]);
      assert b.Shards()[c[i]] == shards[i];
    }
  }

  lemma OutcomeDecodes(shards: seq<Shard<bv8>>, k: nat, w: nat, stray: Option<Matrix<bv8>>)
    requires Uniform(shards, k, w) && Width(shards) == w
    ensures Decodes(Gf256.Gf(), CoeffRows(shards, k, k), DataRows(shards, k, w), w, Decoding(shards, k, stray))
  {
    assert HasDecoding(shards, k, Decoding(shards, k, stray));
  }

  lemma DecodingIsSource(p: Matrix<bv8>, w: nat, draws: Matrix<bv8>, c: seq<nat>, shards: seq<Shard<bv8>>, stray: Option<Matrix<bv8>>)
    requires IsMatrix(p, |p|, w) && |c| == |p| && forall i :: 0 <= i < |c| ==> EnoughDraws(draws, |p|, c[i] + 1)
    requires AreShardsOf(Gf256.Gf(), p, w, draws, c, shards) && Uniform(shards, |p|, w) && Width(shards) == w
    ensures Decoding(shards, |p|, stray)
         == if Singular(Gf256.Gf(), ChosenRows(Gf256.Gf(), |p|, c, draws, |c|)) then None else Some(p)
  {
    Gf256.GfIsField();
    OutcomeDecodes(shards, |p|, w, stray);
    ChosenDecodeExactly(Gf256.Gf(), p, w, draws, c, shards, Decoding(shards, |p|, stray));
  }

  // Decoding a slot of block b returns its source, or fails because the coefficients of the
  // shards chosen are dependent.
  lemma OutcomeIsSource(b: Block, s: Slot, stray: Option<Matrix<bv8>>)
    requires b.Valid() && WellFormedSlot(s) && HoldsShards(b, s) && s.recvCount >= b.k
    ensures |Chosen(s.received, |s.received|, b.k)| == b.k
    ensures Outcome(s, b.k, stray) == if Dependent(b, Chosen(s.received, |s.received|, b.k)) then None else Some(b.Source())
  {
    var c, p := Chosen(s.received, |s.received|, b.k), b.Source();
    ChosenAreShards(b, s);
    assert |p| == b.k && IsMatrix(p, |p|, b.Width());
    DecodingIsSource(p, b.Width(), b.draws, c, Selected(s, c), stray);
  }

  // With k shards and at most one packet lost, decoding succeeds.
  lemma OneLossIsRecovered(b: Block, s: Slot, stray: Option<Matrix<bv8>>)
    requires b.Valid() && WellFormedSlot(s) && HoldsShards(b, s)
    requires s.recvCount >= b.k && AtMostOneLost(s.received, b.k)
    ensures Outcome(s, b.k, stray) == Some(b.Source())
  {
    OutcomeIsSource(b, s, stray);
    Gf256.GfIsField();
    OneLossIsDecoded(Gf256.Gf(), b.k, |s.received|, b.draws, s.received);
  }

  // ---------------------------------------------------------------------------------------
  // Runs.

  lemma FilledHolds(log: seq<Block>, w: Window, a: Arrival)
    requires AreBlocks(log) && Invariant(w) && WindowHolds(log, w) && IsShard(log, a)
    requires Find(w, a.blockId) < |w.slots|
    ensures WellFormedSlot(Filled(w, a)) && HoldsShards(log[a.blockId], Filled(w, a))
  {
    FilledWellFormed(w, a);
    FreeSlotWellFormed();
    assert SlotHolds(log, w.slots[Find(w, a.blockId)]);
  }

  // A step leaves only shards of the blocks in the window, and delivers the packets of a block
  // exactly as they were encoded.
  lemma StepHolds(log: seq<Block>, w: Window, a: Arrival)
    requires AreBlocks(log) && Invariant(w) && WindowHolds(log, w) && IsShard(log, a)
    ensures Invariant(Step(w, a).0) && WindowHolds(log, Step(w, a).0)
    ensures Step(w, a).1.Some? ==> Step(w, a).1.value == Delivery(a.blockId, log[a.blockId].Source())
  {
    StepKeepsInv(w, a);
    StepIs(w, a);
    ReceivedWellFormed(w, a);
    var i := Find(w, a.blockId);
    if i < |w.slots| {
      FilledHolds(log, w, a);
      FilledWellFormed(w, a);
      ReplacedHolds(log, w, i, Received(w, a).slots[i]);
    }
    FramedHolds(log, Received(w, a), Step(w, a).0, a.clock);
    DeliveryIsSource(log, w, a);
  }

  lemma FramedHolds(log: seq<Block>, v: Window, u: Window, clock: seq<nat>)
    requires AreBlocks(log) && WellFormed(v) && WindowHolds(log, v) && WellFormed(u) && u == Advance(v, clock, 0)
    ensures WindowHolds(log, u)
  {
    AdvanceFrame(v, clock, 0);
    FreeSlotWellFormed();
  }

  lemma DeliveryIsSource(log: seq<Block>, w: Window, a: Arrival)
    requires AreBlocks(log) && Invariant(w) && WindowHolds(log, w) && IsShard(log, a)
    ensures Decodable(w, a) ==> Packets(w, a) == log[a.blockId].Source()
  {
    if Decodable(w, a) {
      FilledHolds(log, w, a);
      OutcomeIsSource(log[a.blockId], Filled(w, a), a.stray);
    }
  }

  lemma ReplacedHolds(log: seq<Block>, w: Window, i: nat, s: Slot)
    requires AreBlocks(log) && WellFormed(w) && WindowHolds(log, w)
    requires i < |w.slots| && WellFormedSlot(s) && SlotHolds(log, s)
    ensures var v := w.(slots := w.slots[i := s]); WellFormed(v) && WindowHolds(log, v)
  {
  }

  // Every delivery is a block as it was flushed: its packets, zero-padded.
  ghost predicate Faithful(log: seq<Block>, ds: seq<Delivery>)
  {
    forall j :: 0 <= j < |ds| ==> 0 <= ds[j].blockId < |log| && ds[j].packets == log[ds[j].blockId].Source()
  }

  // Integrity over every run.
  lemma {:induction false} RunIsFaithful(log: seq<Block>, w: Window, arrivals: seq<Arrival>)
    requires AreBlocks(log) && Invariant(w) && WindowHolds(log, w) && AllShards(log, arrivals)
    ensures WindowHolds(log, Run(w, arrivals).0) && Faithful(log, Run(w, arrivals).1)
    decreases |arrivals|
  {
    if arrivals != [] {
      var (u, d) := Step(w, arrivals[0]);
      assert IsShard(log, arrivals[0]);
      StepHolds(log, w, arrivals[0]);
      RunIsFaithful(log, u, arrivals[1..]);
      FaithfulFirst(log, d, Run(u, arrivals[1..]).1);
    }
  }

  lemma FaithfulFirst(log: seq<Block>, d: Option<Delivery>, ds: seq<Delivery>)
    requires AreBlocks(log) && Faithful(log, ds)
    requires d.Some? ==> 0 <= d.value.blockId < |log| && d.value.packets == log[d.value.blockId].Source()
    ensures Faithful(log, (if d.Some? then [d.value] else []) + ds)
  {
  }

  // ---------------------------------------------------------------------------------------
  // With the code's 32-bit ids.

  // A datagram that arrives, with the clock readings and the decoder's choice for its step.
  datatype Input = Input(bytes: Wire.Bytes, insertUs: nat, clock: seq<nat>, stray: Option<Matrix<bv8>>)

  // The data datagram in it, if that is what it is.
  function DatagramIn(input: Input): (r: Option<Datagram>)
  {
    match Wire.Parse(input.bytes)
    case Some(Data(h, s)) =>
      Wire.ParsedDataIsPrefix(input.bytes, h, s);
      Some(Datagram(h.blockId, h.shardIdx, h.k, s, input.insertUs, input.clock, input.stray))
    case _ => None
  }

  // Probes and everything else that is no data datagram are passed over.
  function DatagramsIn(inputs: seq<Input>): (r: seq<Datagram>)
  {
    if inputs == [] then []
    else
      var d := DatagramIn(inputs[0]);
      (if d.Some? then [d.value] else []) + DatagramsIn(inputs[1..])
  }

  // The data datagrams among the inputs, by their places.
  ghost function DataPlaces(inputs: seq<Input>, n: nat): set<nat>
    requires n <= |inputs|
  {
    set j: nat | j < n && DatagramIn(inputs[j]).Some?
  }

  lemma DatagramsFirst(input: Input, rest: seq<Input>)
    ensures DatagramsIn([input] + rest) == DatagramsIn([input]) + DatagramsIn(rest)
  {
    assert ([input] + rest)[1..] == rest && [input][1..] == [];
  }

  lemma Reassociated(a: seq<Datagram>, b: seq<Datagram>, c: seq<Datagram>)
    ensures (a + b) + c == a + (b + c)
  {
  }

  lemma {:induction false} DatagramsAppend(inputs: seq<Input>, more: seq<Input>)
    ensures DatagramsIn(inputs + more) == DatagramsIn(inputs) + DatagramsIn(more)
    decreases |inputs|
  {
    if inputs == [] {
      assert inputs + more == more;
    } else {
      var a, rest := inputs[0], inputs[1..];
      assert inputs == [a] + rest && inputs + more == [a] + (rest + more);
      DatagramsFirst(a, rest);
      DatagramsFirst(a, rest + more);
      DatagramsAppend(rest, more);
      Reassociated(DatagramsIn([a]), DatagramsIn(rest), DatagramsIn(more));
    }
  }

  lemma OneInput(input: Input)
    ensures DatagramsIn([input]) == if DatagramIn(input).Some? then [DatagramIn(input).value] else []
  {
    assert [input][1..] == [];
  }

  lemma LastDatagram(inputs: seq<Input>, m: nat)
    requires m < |inputs|
    ensures DatagramsIn(inputs[..m + 1]) == DatagramsIn(inputs[..m]) + DatagramsIn([inputs[m]])
  {
    assert inputs[..m + 1] == inputs[..m] + [inputs[m]];
    DatagramsAppend(inputs[..m], [inputs[m]]);
  }

  lemma LastPlace(inputs: seq<Input>, m: nat)
    requires m < |inputs|
    ensures |DataPlaces(inputs, m + 1)| == |DataPlaces(inputs, m)| + if DatagramIn(inputs[m]).Some? then 1 else 0
  {
    assert DataPlaces(inputs, m + 1) == if DatagramIn(inputs[m]).Some? then DataPlaces(inputs, m) + {m} else DataPlaces(inputs, m);
  }

  // Every one of them is received, and no other.
  lemma {:induction false} DatagramsAreCounted(inputs: seq<Input>, n: nat)
    requires n <= |inputs|
    ensures |DatagramsIn(inputs[..n])| == |DataPlaces(inputs, n)|
  {
    if n == 0 {
      assert inputs[..0] == [];
    } else {
      DatagramsAreCounted(inputs, n - 1);
      LastDatagram(inputs, n - 1);
      OneInput(inputs[n - 1]);
      LastPlace(inputs, n - 1);
    }
  }

  // In the order of arrival.
  lemma DatagramsInOrder(before: seq<Input>, input: Input, after: seq<Input>)
    requires DatagramIn(input).Some?
    ensures DatagramsIn(before + ([input] + after)) == DatagramsIn(before) + ([DatagramIn(input).value] + DatagramsIn(after))
  {
    DatagramsAppend(before, [input] + after);
    DatagramsFirst(input, after);
    OneInput(input);
  }

  // The network delivers data datagrams of the sender only.
  ghost predicate Genuine(wire: seq<seq<Wire.Bytes>>, inputs: seq<Input>)
  {
    forall j :: 0 <= j < |inputs| ==> DatagramIn(inputs[j]).Some? ==> IsSent(wire, inputs[j].bytes)
  }

  lemma LogIsBlocks(log: seq<Block>, ctx: Ctx, wire: seq<seq<Wire.Bytes>>)
    requires IsLog(log, ctx, wire)
    ensures AreBlocks(log)
  {
    forall d | 0 <= d < |log|
      ensures log[d].Valid() && log[d].id == d
    {
      assert log[d].Carried(ctx, wire[d]);
    }
  }

  lemma InputArrives(b: Block, ctx: Ctx, i: nat, input: Input, h: Wire.Header, s: Shard<bv8>)
    requires b.Valid() && i < b.n
    requires Wire.Parse(input.bytes) == Some(Wire.Data(h, s)) && ArrivesAs(b, ctx, i, h, s)
    ensures DatagramIn(input).Some?
    ensures IsArrival(ctx, DatagramIn(input).value,
                      Arrival(b.id, i, b.k, b.Shards()[i], input.insertUs, input.clock, input.stray))
  {
  }

  // Every genuine datagram is the arrival of a shard of some block.
  lemma ArrivalOf(log: seq<Block>, ctx: Ctx, wire: seq<seq<Wire.Bytes>>, input: Input) returns (a: Arrival)
    requires IsLog(log, ctx, wire) && AreBlocks(log) && IsSent(wire, input.bytes)
    ensures IsShard(log, a) && DatagramIn(input).Some? && IsArrival(ctx, DatagramIn(input).value, a)
  {
    var d :| 0 <= d < |wire| && input.bytes in wire[d];
    var i :| 0 <= i < |wire[d]| && wire[d][i] == input.bytes;
    var b := log[d];
    assert b.Carried(ctx, wire[d]);
    assert wire[d][i] == b.DatagramOf(ctx, i);
    var h, s := SentArrives(b, ctx, i);
    InputArrives(b, ctx, i, input, h, s);
    a := Arrival(d, i, b.k, b.Shards()[i], input.insertUs, input.clock, input.stray);
  }

  // Nothing has been sent beyond the log, so base cannot be beyond it either.
  ghost predicate Within(log: seq<Block>, w: Window)
  {
    0 <= w.base <= |log| && forall j :: 0 <= j < |w.slots| && w.slots[j].Occupied() ==> 0 <= w.slots[j].blockId < |log|
  }

  lemma AdvanceStaysWithin(log: seq<Block>, v: Window, clock: seq<nat>)
    requires Within(log, v)
    ensures Within(log, Advance(v, clock, 0))
  {
    AdvanceFrame(v, clock, 0);
    var r := Reach(v, |v.slots|);
    if r > 0 {
      var j :| 0 <= j < |v.slots| && v.slots[j].Occupied() && v.slots[j].blockId - v.base + 1 == r;
    }
  }

  lemma ReceivedStaysWithin(log: seq<Block>, w: Window, a: Arrival)
    requires WellFormed(w) && Within(log, w) && 0 <= a.blockId < |log|
    ensures Within(log, Received(w, a))
  {
    if Find(w, a.blockId) < |w.slots| {
      FilledWellFormed(w, a);
    }
  }

  lemma StepStaysWithin(log: seq<Block>, w: Window, a: Arrival)
    requires Invariant(w) && Within(log, w) && 0 <= a.blockId < |log|
    ensures Within(log, Step(w, a).0)
  {
    StepIs(w, a);
    ReceivedStaysWithin(log, w, a);
    AdvanceStaysWithin(log, Received(w, a), a.clock);
  }

  lemma WithinIsReceivable(log: seq<Block>, w: Window, ctx: Ctx, d: Datagram, a: Arrival)
    requires Within(log, w) && |log| <= HALF - MAX_WINDOW && 1 <= |w.slots| <= MAX_WINDOW
    requires 0 <= a.blockId < |log| && IsArrival(ctx, d, a)
    ensures Receivable(w, ctx, d, a)
  {
  }

  // A trigger: mentioning it lets the verifier look into predicates that quantify over it.
  ghost predicate Look(e: bool) { true }

  // The datagram is the arrival of a shard.
  ghost predicate Fits(log: seq<Block>, ctx: Ctx, d: Datagram, a: Arrival)
    requires AreBlocks(log)
  {
    forall e {:trigger Look(e)} :: Look(e) ==> IsArrival(ctx, d, a) && IsShard(log, a)
  }

  lemma FitsIs(log: seq<Block>, ctx: Ctx, d: Datagram, a: Arrival)
    requires AreBlocks(log)
    ensures Fits(log, ctx, d, a) <==> IsArrival(ctx, d, a) && IsShard(log, a)
  {
    assert Look(true);
  }

  // So are all datagrams, one by one.
  ghost predicate Match(log: seq<Block>, ctx: Ctx, ds: seq<Datagram>, arrivals: seq<Arrival>)
    requires AreBlocks(log)
  {
    |ds| == |arrivals| && forall i :: 0 <= i < |ds| ==> Fits(log, ctx, ds[i], arrivals[i])
  }

  lemma OneMoreMatch(log: seq<Block>, ctx: Ctx, d: Datagram, ds: seq<Datagram>, a: Arrival, rest: seq<Arrival>)
    requires AreBlocks(log) && Match(log, ctx, ds, rest) && Fits(log, ctx, d, a)
    ensures Match(log, ctx, [d] + ds, [a] + rest)
  {
    forall i | 0 <= i < |ds| + 1
      ensures Fits(log, ctx, ([d] + ds)[i], ([a] + rest)[i])
    {
      if i > 0 {
        assert ([d] + ds)[i] == ds[i - 1] && ([a] + rest)[i] == rest[i - 1];
        assert Fits(log, ctx, ds[i - 1], rest[i - 1]);
      }
    }
  }

  lemma RestMatches(log: seq<Block>, ctx: Ctx, ds: seq<Datagram>, arrivals: seq<Arrival>)
    requires AreBlocks(log) && Match(log, ctx, ds, arrivals) && ds != []
    ensures Match(log, ctx, ds[1..], arrivals[1..]) && Fits(log, ctx, ds[0], arrivals[0])
  {
    forall i | 0 <= i < |ds| - 1
      ensures Fits(log, ctx, ds[1..][i], arrivals[1..][i])
    {
      assert ds[1..][i] == ds[i + 1] && arrivals[1..][i] == arrivals[i + 1];
    }
  }

  lemma MatchedAreShards(log: seq<Block>, ctx: Ctx, ds: seq<Datagram>, arrivals: seq<Arrival>)
    requires AreBlocks(log) && Match(log, ctx, ds, arrivals)
    ensures AllShards(log, arrivals)
  {
    forall i | 0 <= i < |arrivals|
      ensures IsShard(log, arrivals[i])
    {
      FitsIs(log, ctx, ds[i], arrivals[i]);
    }
  }

  // The arrivals that the inputs are for the window over unbounded ids.
  lemma {:induction false} ArrivalsOf(log: seq<Block>, ctx: Ctx, wire: seq<seq<Wire.Bytes>>, inputs: seq<Input>)
    returns (arrivals: seq<Arrival>)
    requires IsLog(log, ctx, wire) && AreBlocks(log) && Genuine(wire, inputs)
    ensures Match(log, ctx, DatagramsIn(inputs), arrivals)
  {
    arrivals := [];
    if inputs != [] {
      assert Genuine(wire, inputs[1..]);
      var rest := ArrivalsOf(log, ctx, wire, inputs[1..]);
      if DatagramIn(inputs[0]).Some? {
        var a := ArrivalOf(log, ctx, wire, inputs[0]);
        FitsIs(log, ctx, DatagramIn(inputs[0]).value, a);
        arrivals := [a] + rest;
        OneMoreMatch(log, ctx, DatagramIn(inputs[0]).value, DatagramsIn(inputs[1..]), a, rest);
      } else {
        arrivals := rest;
      }
    }
  }

  // As long as fewer than 2^31 - 16 blocks have been sent, no wrapped difference is ambiguous.
  lemma {:induction false} ShortRunsAreReceivable(log: seq<Block>, ctx: Ctx, w: Window, ds: seq<Datagram>, arrivals: seq<Arrival>)
    requires AreBlocks(log) && |log| <= HALF - MAX_WINDOW && Match(log, ctx, ds, arrivals)
    requires Invariant(w) && Within(log, w) && 1 <= |w.slots| <= MAX_WINDOW
    ensures AllReceivable(w, ctx, ds, arrivals)
    decreases |ds|
  {
    if ds != [] {
      var a := arrivals[0];
      RestMatches(log, ctx, ds, arrivals);
      FitsIs(log, ctx, ds[0], a);
      StepStaysWithin(log, w, a);
      StepKeepsInv(w, a);
      WithinIsReceivable(log, w, ctx, ds[0], a);
      ShortRunsAreReceivable(log, ctx, Step(w, a).0, ds[1..], arrivals[1..]);
    }
  }

  // Ids this small are their own wrapped ids.
  lemma {:induction false} NothingWraps(ds: seq<Delivery>)
    requires forall j :: 0 <= j < |ds| ==> 0 <= ds[j].blockId < TWO32
    ensures WrappedAll(ds) == ds
  {
    if ds != [] {
      NothingWraps(ds[1..]);
    }
  }

  ghost predicate Ascending(ds: seq<Delivery>)
  {
    forall i, j :: 0 <= i < j < |ds| ==> ds[i].blockId < ds[j].blockId
  }

  lemma RunIsTrue(log: seq<Block>, w: Window, arrivals: seq<Arrival>)
    requires AreBlocks(log) && Invariant(w) && WindowHolds(log, w) && AllShards(log, arrivals)
    ensures Faithful(log, Run(w, arrivals).1) && Ascending(Run(w, arrivals).1)
  {
    RunIsFaithful(log, w, arrivals);
    forall i | 0 <= i < |arrivals|
      ensures arrivals[i].k >= 1
    {
      assert IsShard(log, arrivals[i]);
    }
    RunDeliversInOrder(w, arrivals);
  }

  // The receiver from any state and for any number of blocks, ids wrapping around: as long as
  // the blocks held stay within the horizon, what comes out are blocks as they were flushed, in
  // order, under their wrapped ids.
  method TunnelAcrossWrap(win: RxWindow, inputs: seq<Input>, ctx: Ctx, ghost log: seq<Block>, ghost arrivals: seq<Arrival>)
    returns (out: seq<Delivery>)
    requires AreBlocks(log) && win.Valid() && Invariant(win.abs) && WindowHolds(log, win.abs)
    requires AllShards(log, arrivals) && AllReceivable(win.abs, ctx, DatagramsIn(inputs), arrivals)
    modifies win, win.slots
    ensures win.Valid() && Invariant(win.abs) && WindowHolds(log, win.abs)
    ensures var ds := Run(old(win.abs), arrivals).1; out == WrappedAll(ds) && Faithful(log, ds) && Ascending(ds)
  {
    RunIsTrue(log, win.abs, arrivals);
    RunIsFaithful(log, win.abs, arrivals);
    out := win.ReceiveAll(DatagramsIn(inputs), ctx, arrivals);
  }

  // The whole tunnel.  Whatever the network drops, repeats or reorders, the receiver delivers
  // each block at most once, in the order of sending, and with the packets that were flushed.
  method Tunnel(win: RxWindow, inputs: seq<Input>, ctx: Ctx, ghost log: seq<Block>, ghost wire: seq<seq<Wire.Bytes>>)
    returns (out: seq<Delivery>)
    requires win.Valid() && 1 <= win.slots.Length <= MAX_WINDOW && win.abs == InitWindow(win.slots.Length)
    requires IsLog(log, ctx, wire) && |log| <= HALF - MAX_WINDOW && Genuine(wire, inputs)
    modifies win, win.slots
    ensures Faithful(log, out) && Ascending(out)
  {
    LogIsBlocks(log, ctx, wire);
    InitInv(win.slots.Length);
    ghost var w := win.abs;
    ghost var arrivals := ArrivalsOf(log, ctx, wire, inputs);
    MatchedAreShards(log, ctx, DatagramsIn(inputs), arrivals);
    ShortRunsAreReceivable(log, ctx, w, DatagramsIn(inputs), arrivals);
    out := TunnelAcrossWrap(win, inputs, ctx, log, arrivals);
    NothingWraps(Run(w, arrivals).1);
  }
}
