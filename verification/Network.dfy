/**
 From TUN device to TUN device over a network that loses shards but no block: of every block
 enough datagrams arrive, in any order and some of them perhaps repeatedly, within 50 ms and
 before those of the next block.  Then everything read is written.
 */
module Network {
  import opened Codec
  import opened Erasure
  import opened Crypto
  import opened Wire
  import opened Tx
  import opened Turns
  import opened Sender
  import opened UnboundedWindow
  import opened Window32
  import opened EndToEnd
  import opened Selection
  import opened Liveness
  import opened Stream

  // The datagrams of a block that arrive are those at these places among all that were sent.
  ghost predicate Carries(group: seq<Input>, datagrams: seq<Bytes>, places: seq<nat>)
  {
    |group| == |places| && forall i :: 0 <= i < |group| ==> places[i] < |datagrams| && group[i].bytes == datagrams[places[i]]
  }

  // At no reading of the clock has the block waited for 50 ms.
  ghost predicate Prompt(group: seq<Input>)
  {
    forall i, j :: 0 <= i <= j < |group| ==> group[j].clock != [] && group[i].insertUs <= group[j].clock[0] < group[i].insertUs + 50000
  }

  ghost function Distinct(places: seq<nat>): set<nat>
  {
    set i | 0 <= i < |places| :: places[i]
  }

  // k different datagrams, and at most one of the first k is missing.
  ghost predicate Suffice(places: seq<nat>, k: nat)
  {
    && |Distinct(places)| >= k
    && forall i, j :: 0 <= i < j < k ==> i in places || j in places
  }

  // ---------------------------------------------------------------------------------------
  // One block.

  ghost function ArrivalAt(b: Block, place: nat, input: Input): Arrival
    requires b.Valid() && place < b.n
  {
    Arrival(b.id, place, b.k, b.Shards()[place], input.insertUs, input.clock, input.stray)
  }

  ghost function BatchOf(b: Block, group: seq<Input>, places: seq<nat>): (r: seq<Arrival>)
    requires b.Valid() && |group| == |places| && forall i :: 0 <= i < |places| ==> places[i] < b.n
    ensures |r| == |group|
    decreases |group|
  {
    if group == [] then [] else [ArrivalAt(b, places[0], group[0])] + BatchOf(b, group[1..], places[1..])
  }

  lemma {:induction false} BatchAt(b: Block, group: seq<Input>, places: seq<nat>, i: nat)
    requires b.Valid() && |group| == |places| && forall j :: 0 <= j < |places| ==> places[j] < b.n
    requires i < |group|
    ensures BatchOf(b, group, places)[i] == ArrivalAt(b, places[i], group[i])
    decreases i
  {
    if i > 0 {
      BatchAt(b, group[1..], places[1..], i - 1);
    }
  }

  lemma PlaceArrives(log: seq<Block>, ctx: Ctx, wire: seq<seq<Bytes>>, d: nat, place: nat, input: Input)
    requires IsLog(log, ctx, wire) && AreBlocks(log) && d < |log| && place < |wire[d]| && input.bytes == wire[d][place]
    ensures log[d].Valid() && place < log[d].n && DatagramIn(input).Some?
    ensures Fits(log, ctx, DatagramIn(input).value, ArrivalAt(log[d], place, input))
  {
    var b := log[d];
    assert b.Carried(ctx, wire[d]);
    assert wire[d][place] == b.DatagramOf(ctx, place);
    var h, s := SentArrives(b, ctx, place);
    InputArrives(b, ctx, place, input, h, s);
    FitsIs(log, ctx, DatagramIn(input).value, ArrivalAt(b, place, input));
  }

  lemma BlockHasDatagrams(log: seq<Block>, ctx: Ctx, wire: seq<seq<Bytes>>, d: nat)
    requires IsLog(log, ctx, wire) && d < |log|
    ensures log[d].Valid() && |wire[d]| == log[d].n
  {
    assert log[d].Carried(ctx, wire[d]);
  }

  lemma {:induction false} GroupArrives(log: seq<Block>, ctx: Ctx, wire: seq<seq<Bytes>>, d: nat, group: seq<Input>, places: seq<nat>)
    requires IsLog(log, ctx, wire) && AreBlocks(log) && d < |log| && Carries(group, wire[d], places)
    requires log[d].Valid() && |wire[d]| == log[d].n
    ensures Match(log, ctx, DatagramsIn(group), BatchOf(log[d], group, places))
    decreases |group|
  {
    if group != [] {
      var a, rest := group[0], group[1..];
      PlaceArrives(log, ctx, wire, d, places[0], a);
      GroupArrives(log, ctx, wire, d, rest, places[1..]);
      assert group == [a] + rest;
      DatagramsFirst(a, rest);
      OneInput(a);
      OneMoreMatch(log, ctx, DatagramIn(a).value, DatagramsIn(rest), ArrivalAt(log[d], places[0], a), BatchOf(log[d], rest, places[1..]));
    }
  }

  lemma {:induction false} FlagsOfBatch(b: Block, group: seq<Input>, places: seq<nat>, received: seq<bool>)
    requires b.Valid() && |group| == |places| && forall i :: 0 <= i < |places| ==> places[i] < b.n
    requires |received| == MAX_N
    ensures Flags(received, b.id, BatchOf(b, group, places)) == FlagsAfter(received, places)
    decreases |group|
  {
    if group != [] {
      var all, rest := BatchOf(b, group, places), BatchOf(b, group[1..], places[1..]);
      assert all[1..] == rest && all[0] == ArrivalAt(b, places[0], group[0]);
      FlagsOfBatch(b, group[1..], places[1..], received[places[0] := true]);
    }
  }

  lemma {:induction false} FlagsAfterAt(flags: seq<bool>, order: seq<nat>, j: nat)
    requires (forall i :: 0 <= i < |order| ==> order[i] < |flags|) && j < |flags|
    ensures FlagsAfter(flags, order)[j] <==> flags[j] || j in order
    decreases |order|
  {
    if order != [] {
      FlagsAfterAt(flags[order[0] := true], order[1..], j);
      assert j in order <==> j == order[0] || j in order[1..];
    }
  }

  ghost function Set(flags: seq<bool>, n: nat): set<nat>
    requires n <= |flags|
  {
    set j: nat | j < n && flags[j]
  }

  lemma {:induction false} CountIsSize(flags: seq<bool>, n: nat)
    requires n <= |flags|
    ensures Count(flags, n) == |Set(flags, n)|
  {
    if n > 0 {
      CountIsSize(flags, n - 1);
      assert Set(flags, n) == if flags[n - 1] then Set(flags, n - 1) + {n - 1} else Set(flags, n - 1);
    }
  }

  lemma SufficeIsEnough(places: seq<nat>, k: nat)
    requires Suffice(places, k) && k <= MAX_N && forall i :: 0 <= i < |places| ==> places[i] < MAX_N
    ensures Enough(FlagsAfter(NoFlags(MAX_N), places), k)
  {
    var flags := FlagsAfter(NoFlags(MAX_N), places);
    forall j: nat | j < MAX_N
      ensures flags[j] <==> j in places
    {
      FlagsAfterAt(NoFlags(MAX_N), places, j);
    }
    CountIsSize(flags, MAX_N);
    assert Set(flags, MAX_N) == Distinct(places);
  }

  lemma PromptAt(b: Block, group: seq<Input>, places: seq<nat>, i: nat, j: nat)
    requires b.Valid() && |group| == |places| && forall x :: 0 <= x < |places| ==> places[x] < b.n
    requires Prompt(group) && i <= j < |group|
    ensures var batch := BatchOf(b, group, places); !Expired(Reading(batch[j].clock, 0), batch[i].insertUs)
  {
    BatchAt(b, group, places, i);
    BatchAt(b, group, places, j);
    InTimeAt(group[j].clock, group[i].insertUs);
  }

  lemma InTimeAt(clock: seq<nat>, t: nat)
    requires clock != [] && t <= clock[0] < t + 50000
    ensures !Expired(Reading(clock, 0), t)
  {
  }

  lemma PromptIsInTime(b: Block, group: seq<Input>, places: seq<nat>)
    requires b.Valid() && |group| == |places| && forall i :: 0 <= i < |places| ==> places[i] < b.n
    requires Prompt(group)
    ensures InTime(b.id, BatchOf(b, group, places))
  {
    var batch := BatchOf(b, group, places);
    forall i, j | 0 <= i <= j < |batch|
      ensures !Expired(Reading(batch[j].clock, 0), batch[i].insertUs)
    {
      PromptAt(b, group, places, i, j);
    }
    TimelyFromEach(b.id, batch);
  }

  lemma TimelyFromEach(d: int, batch: seq<Arrival>)
    requires forall i, j :: 0 <= i <= j < |batch| ==> !Expired(Reading(batch[j].clock, 0), batch[i].insertUs)
    ensures InTime(d, batch)
  {
    forall i, j | 0 <= i < |batch| && 0 <= j < |batch[i..]|
      ensures !Expired(Reading(batch[i..][j].clock, 0), batch[i].insertUs)
    {
      assert batch[i..][j] == batch[i + j];
    }
  }

  lemma BatchIsOf(log: seq<Block>, d: nat, group: seq<Input>, places: seq<nat>)
    requires AreBlocks(log) && d < |log| && |group| == |places| && forall i :: 0 <= i < |places| ==> places[i] < log[d].n
    ensures log[d].Valid() && AreOf(log, d, BatchOf(log[d], group, places))
  {
    forall i | 0 <= i < |group|
      ensures IsShard(log, BatchOf(log[d], group, places)[i]) && BatchOf(log[d], group, places)[i].blockId == d
    {
      BatchAt(log[d], group, places, i);
    }
  }

  // ---------------------------------------------------------------------------------------
  // All blocks.

  ghost function Inputs(groups: seq<seq<Input>>): (r: seq<Input>)
  {
    if groups == [] then [] else groups[0] + Inputs(groups[1..])
  }

  // Enough of every block arrives in time, and of one block after the other.
  ghost predicate Passes(log: seq<Block>, wire: seq<seq<Bytes>>, groups: seq<seq<Input>>, places: seq<seq<nat>>)
  {
    && |log| == |wire| == |groups| == |places|
    && forall d :: 0 <= d < |log| ==> Carries(groups[d], wire[d], places[d]) && Prompt(groups[d]) && Suffice(places[d], log[d].k)
  }

  // The batch is what the group brings of block d, and it is enough.
  ghost predicate BatchFits(log: seq<Block>, ctx: Ctx, d: nat, group: seq<Input>, batch: seq<Arrival>)
    requires AreBlocks(log) && d < |log|
  {
    forall e {:trigger Look(e)} :: Look(e) ==>
      && Match(log, ctx, DatagramsIn(group), batch)
      && AreOf(log, d, batch) && InTime(d, batch)
      && log[d].k <= MAX_N && Enough(Flags(NoFlags(MAX_N), d, batch), log[d].k)
  }

  lemma BatchFor(log: seq<Block>, ctx: Ctx, wire: seq<seq<Bytes>>, d: nat, group: seq<Input>, places: seq<nat>)
    returns (batch: seq<Arrival>)
    requires IsLog(log, ctx, wire) && AreBlocks(log) && d < |log|
    requires Carries(group, wire[d], places) && Prompt(group) && Suffice(places, log[d].k)
    ensures BatchFits(log, ctx, d, group, batch)
  {
    BlockHasDatagrams(log, ctx, wire, d);
    batch := BatchOf(log[d], group, places);
    GroupArrives(log, ctx, wire, d, group, places);
    BatchIsOf(log, d, group, places);
    PromptIsInTime(log[d], group, places);
    FlagsOfBatch(log[d], group, places, NoFlags(MAX_N));
    SufficeIsEnough(places, log[d].k);
  }

  // The first |batches| groups.
  ghost predicate AllFit(log: seq<Block>, ctx: Ctx, groups: seq<seq<Input>>, batches: seq<seq<Arrival>>)
    requires AreBlocks(log)
  {
    |batches| <= |log| == |groups| && forall d :: 0 <= d < |batches| ==> BatchFits(log, ctx, d, groups[d], batches[d])
  }

  lemma {:induction false} BatchesFor(log: seq<Block>, ctx: Ctx, wire: seq<seq<Bytes>>, groups: seq<seq<Input>>,
                                      places: seq<seq<nat>>, n: nat) returns (batches: seq<seq<Arrival>>)
    requires IsLog(log, ctx, wire) && AreBlocks(log) && Passes(log, wire, groups, places) && n <= |log|
    ensures |batches| == n && AllFit(log, ctx, groups, batches)
  {
    batches := [];
    if n > 0 {
      batches := BatchesFor(log, ctx, wire, groups, places, n - 1);
      GroupPasses(log, wire, groups, places, n - 1);
      var batch := BatchFor(log, ctx, wire, n - 1, groups[n - 1], places[n - 1]);
      OneMoreFits(log, ctx, groups, batches, batch);
      batches := batches + [batch];
    }
  }

  lemma GroupPasses(log: seq<Block>, wire: seq<seq<Bytes>>, groups: seq<seq<Input>>, places: seq<seq<nat>>, d: nat)
    requires Passes(log, wire, groups, places) && d < |log|
    ensures Carries(groups[d], wire[d], places[d]) && Prompt(groups[d]) && Suffice(places[d], log[d].k)
  {
  }

  lemma OneMoreFits(log: seq<Block>, ctx: Ctx, groups: seq<seq<Input>>, batches: seq<seq<Arrival>>, batch: seq<Arrival>)
    requires AreBlocks(log) && AllFit(log, ctx, groups, batches) && |batches| < |log|
    requires BatchFits(log, ctx, |batches|, groups[|batches|], batch)
    ensures AllFit(log, ctx, groups, batches + [batch])
  {
  }

  lemma MatchBoth(log: seq<Block>, ctx: Ctx, ds: seq<Datagram>, a: seq<Arrival>, es: seq<Datagram>, b: seq<Arrival>)
    requires AreBlocks(log) && Match(log, ctx, ds, a) && Match(log, ctx, es, b)
    ensures Match(log, ctx, ds + es, a + b)
  {
    forall i | 0 <= i < |ds| + |es|
      ensures Fits(log, ctx, (ds + es)[i], (a + b)[i])
    {
      if i >= |ds| {
        assert Fits(log, ctx, es[i - |ds|], b[i - |ds|]);
      }
    }
  }

  lemma FlatFrom(batches: seq<seq<Arrival>>, d: nat)
    requires d < |batches|
    ensures Flat(batches[d..]) == batches[d] + Flat(batches[d + 1..])
  {
    assert batches[d..][1..] == batches[d + 1..];
  }

  lemma InputsFrom(groups: seq<seq<Input>>, d: nat)
    requires d < |groups|
    ensures Inputs(groups[d..]) == groups[d] + Inputs(groups[d + 1..])
  {
    assert groups[d..][1..] == groups[d + 1..];
  }

  lemma FitIsMatch(log: seq<Block>, ctx: Ctx, d: nat, group: seq<Input>, batch: seq<Arrival>)
    requires AreBlocks(log) && d < |log| && BatchFits(log, ctx, d, group, batch)
    ensures Match(log, ctx, DatagramsIn(group), batch)
  {
    assert Look(true);
  }

  lemma {:induction false} AllArrive(log: seq<Block>, ctx: Ctx, groups: seq<seq<Input>>, batches: seq<seq<Arrival>>, d: nat)
    requires AreBlocks(log) && |batches| == |log| && AllFit(log, ctx, groups, batches) && d <= |log|
    ensures Match(log, ctx, DatagramsIn(Inputs(groups[d..])), Flat(batches[d..]))
    decreases |log| - d
  {
    if d == |log| {
      assert groups[d..] == [] && batches[d..] == [];
    } else {
      AllArrive(log, ctx, groups, batches, d + 1);
      InputsFrom(groups, d);
      FlatFrom(batches, d);
      DatagramsAppend(groups[d], Inputs(groups[d + 1..]));
      FitIsMatch(log, ctx, d, groups[d], batches[d]);
      MatchBoth(log, ctx, DatagramsIn(groups[d]), batches[d], DatagramsIn(Inputs(groups[d + 1..])), Flat(batches[d + 1..]));
    }
  }

  lemma FitIsInOrder(log: seq<Block>, ctx: Ctx, groups: seq<seq<Input>>, batches: seq<seq<Arrival>>)
    requires AreBlocks(log) && |batches| == |log| && AllFit(log, ctx, groups, batches)
    ensures InOrderChannel(log, 0, batches)
  {
    forall x | 0 <= x < |batches|
      ensures AreOf(log, 0 + x, batches[x]) && InTime(0 + x, batches[x])
      ensures log[0 + x].k <= MAX_N && Enough(Flags(NoFlags(MAX_N), 0 + x, batches[x]), log[0 + x].k)
    {
      assert BatchFits(log, ctx, x, groups[x], batches[x]);
      assert Look(true);
    }
  }

  // Such a network is an in-order channel.
  lemma NetworkIsChannel(log: seq<Block>, ctx: Ctx, wire: seq<seq<Bytes>>, groups: seq<seq<Input>>, places: seq<seq<nat>>)
    returns (batches: seq<seq<Arrival>>)
    requires IsLog(log, ctx, wire) && AreBlocks(log) && Passes(log, wire, groups, places)
    ensures |batches| == |log| && InOrderChannel(log, 0, batches)
    ensures Match(log, ctx, DatagramsIn(Inputs(groups)), Flat(batches))
  {
    batches := BatchesFor(log, ctx, wire, groups, places, |log|);
    AllArrive(log, ctx, groups, batches, 0);
    assert groups[0..] == groups && batches[0..] == batches;
    FitIsInOrder(log, ctx, groups, batches);
  }

  lemma {:induction false} SourceAt(log: seq<Block>, d: nat, n: nat, i: nat)
    requires d + n <= |log| && i < n
    ensures |Sources(log, d, n)| == n && Sources(log, d, n)[i] == SourceOf(log, d + i)
    decreases n
  {
    var rest := Sources(log, d + 1, n - 1);
    if i > 0 {
      SourceAt(log, d + 1, n - 1, i - 1);
      assert Sources(log, d, n)[i] == rest[i - 1];
    } else if n > 1 {
      SourceAt(log, d + 1, n - 1, 0);
    }
  }

  // Every block is delivered, once and in its place.
  ghost predicate IsComplete(log: seq<Block>, ds: seq<Delivery>)
  {
    |ds| == |log| && forall d :: 0 <= d < |log| ==> ds[d] == Delivery(d, log[d].Source())
  }

  lemma {:induction false} SourcesAreComplete(log: seq<Block>)
    ensures IsComplete(log, Sources(log, 0, |log|))
  {
    var ds := Sources(log, 0, |log|);
    forall d | 0 <= d < |log|
      ensures |ds| == |log| && ds[d] == Delivery(d, log[d].Source())
    {
      SourceAt(log, 0, |log|, d);
    }
    if log == [] {
      assert ds == [];
    } else {
      SourceAt(log, 0, |log|, 0);
    }
  }

  // The receiver at the end of such a network: every block is delivered, in order.
  method ReceiveFromNetwork(loop: TxLoop, win: RxWindow, inputs: seq<Input>, ghost turns: seq<Turn>,
                            ghost groups: seq<seq<Input>>, ghost places: seq<seq<nat>>) returns (out: seq<Delivery>)
    requires IsLog(loop.log, loop.ctx, loop.wire) && AreBlocks(loop.log) && PacketsOf(loop.log) == PacketsRead(turns)
    requires |loop.log| <= HALF - MAX_WINDOW
    requires win.Valid() && 1 <= win.slots.Length <= MAX_WINDOW && win.abs == InitWindow(win.slots.Length)
    requires Passes(loop.log, loop.wire, groups, places) && inputs == Inputs(groups)
    modifies win, win.slots
    ensures IsComplete(loop.log, out)
    ensures AllIp(PacketsRead(turns)) ==> NonZeroOnly(WrittenTo(out)) == PacketsRead(turns)
  {
    ghost var batches := NetworkIsChannel(loop.log, loop.ctx, loop.wire, groups, places);
    out := ReceiveEverything(loop, win, inputs, turns, batches);
    SourcesAreComplete(loop.log);
  }
}
