/**
 The sending half of the event loop of src/main.c: packets are read from the TUN device into a
 block, full or overdue blocks are flushed, and what is pending at shutdown is flushed last.
 */
module Sender {
  import opened LinearAlgebra
  import opened Codec
  import opened Encoder
  import opened Crypto
  import opened Wire
  import Window32
  import opened Strategy
  import opened Tx
  import opened Turns

  // The packets of all blocks, in order.
  ghost function PacketsOf(log: seq<Block>): (r: seq<Bytes>)
  {
    if log == [] then [] else PacketsOf(log[..|log| - 1]) + log[|log| - 1].packets
  }

  // The blocks are numbered one after the other, none is empty, and `wire` holds the datagrams
  // of each.
  ghost predicate IsLog(log: seq<Block>, ctx: Ctx, wire: seq<seq<Bytes>>)
  {
    && |wire| == |log|
    && forall d :: 0 <= d < |log| ==> log[d].id == d && log[d].Carried(ctx, wire[d])
  }

  ghost predicate IsSent(wire: seq<seq<Bytes>>, bytes: Bytes)
  {
    exists d :: 0 <= d < |wire| && bytes in wire[d]
  }

  ghost predicate AllSent(wire: seq<seq<Bytes>>, sent: seq<Sent>)
  {
    forall j :: 0 <= j < |sent| ==> IsSent(wire, sent[j].bytes)
  }

  // Block d was flushed at moments[d] with as many shards as the strategy asked for then, and
  // its datagrams took the paths that it picked.
  ghost predicate IsRecord(log: seq<Block>, moments: seq<State>, wire: seq<seq<Bytes>>, sent: seq<Sent>, k: nat)
    requires k >= 1
  {
    && |moments| == |wire| == |log| && AllSound(moments) && sent == SentOf(moments, wire)
    && forall d :: 0 <= d < |log| ==> log[d].k == k && log[d].n == ShardsOf(moments[d], k)
  }

  // A block of n shards was flushed in state s, or none if n is zero.
  ghost predicate Grown(log: seq<Block>, moments: seq<State>, s: State, n: nat, next: seq<Block>, after: seq<State>)
  {
    if n == 0 then next == log && after == moments
    else |next| == |log| + 1 && next[..|log|] == log && next[|log|].n == n && after == moments + [s]
  }

  // A trigger: mentioning it opens `Recorded`.
  ghost predicate Opened(e: bool) { true }

  class TxLoop {
    const tx: TxBlock
    const strategy: Context
    const ctx: Ctx
    const k: nat
    var nextId: u32
    // What has been read, flushed and sent so far, and the strategy at each flush.
    ghost var read: seq<Bytes>
    ghost var log: seq<Block>
    ghost var wire: seq<seq<Bytes>>
    ghost var sent: seq<Sent>
    ghost var moments: seq<State>

    // What was flushed was sent.
    ghost predicate Recorded()
      reads this`log, this`wire, this`sent, this`moments
    {
      k >= 1 && forall e {:trigger Opened(e)} :: Opened(e) ==>
        IsLog(log, ctx, wire) && AllSent(wire, sent) && IsRecord(log, moments, wire, sent, k)
    }

    // The block being filled comes after those flushed, and nothing read is lost.
    ghost predicate Holds()
      reads this, tx, tx.pkts, tx.pktLen, strategy
    {
      && 1 <= k <= MAX_K && tx.Valid() && strategy.Valid() && NoLoss(strategy.Now())
      && Recorded()
      && tx.blockId == Window32.Wrap(|log|) && nextId == Window32.Wrap(|log| + 1)
      && tx.pktCount <= k
      && read == PacketsOf(log) + tx.Packets()
    }

    // Between turns the block is not full.
    ghost predicate Valid()
      reads this, tx, tx.pkts, tx.pktLen, strategy
    {
      Holds() && tx.pktCount < k
    }

    ghost function Waiting(): Pending
      reads tx
    {
      if tx.pktCount == 0 then Empty else Pending(tx.pktCount, Time(tx.firstSec, tx.firstUsec))
    }

    constructor (strategy: Context, ctx: Ctx, k: nat)
      requires strategy.Valid() && NoLoss(strategy.Now()) && 1 <= k <= MAX_K
      ensures Valid() && fresh(tx) && fresh(tx.pkts) && fresh(tx.pktLen)
      ensures this.strategy == strategy && this.ctx == ctx && this.k == k
      ensures read == [] && log == [] && wire == [] && sent == [] && moments == []
    {
      tx := new TxBlock(0);
      this.strategy, this.ctx, this.k := strategy, ctx, k;
      nextId := 1;
      read, log, wire, sent, moments := [], [], [], [], [];
    }

    // tx_block_flush
    method Flush(draws: Matrix<bv8>) returns (ghost n: nat)
      requires Holds() && tx.pktCount > 0 && EnoughDraws(draws, k, MAX_N)
      modifies this`log, this`wire, this`sent, this`moments, tx.pkts, tx.pktLen, strategy`credits
      ensures tx.Valid() && strategy.Valid() && NoLoss(strategy.Now()) && Recorded() && read == PacketsOf(log)
      ensures n > 0 && Grown(old(log), old(moments), old(strategy.Now()), n, log, moments)
      ensures |wire| == |old(wire)| + 1 && wire[..|old(wire)|] == old(wire)
      ensures sent == old(sent) + DispatchedAt(old(strategy.Now()), wire[|old(wire)|])
      ensures strategy.Now() == After(old(strategy.Now()), Sends(n))
    {
      ghost var s := strategy.Now();
      var out;
      ghost var b, datagrams;
      out, b, datagrams := FlushTx(draws);
      n := b.n;
      Record(b, datagrams, s, out);
    }

    ghost method Record(b: Block, datagrams: seq<Bytes>, s: State, out: seq<Sent>)
      requires Recorded() && b.id == |log| && b.Carried(ctx, datagrams)
      requires b.k == k && Sound(s) && b.n == ShardsOf(s, k) && out == DispatchedAt(s, datagrams)
      modifies this`log, this`wire, this`sent, this`moments
      ensures Recorded() && log == old(log) + [b] && wire == old(wire) + [datagrams]
      ensures moments == old(moments) + [s] && sent == old(sent) + out
      ensures PacketsOf(log) == PacketsOf(old(log)) + b.packets
    {
      assert Opened(true);
      RecordGrows(log, b, ctx, wire, datagrams, moments, s, sent, out, k);
      OneMore(log, b, wire, datagrams);
      log := log + [b];
      wire := wire + [datagrams];
      moments := moments + [s];
      sent := sent + out;
    }

    // The block that is flushed and its datagrams.
    method FlushTx(draws: Matrix<bv8>) returns (out: seq<Sent>, ghost b: Block, ghost datagrams: seq<Bytes>)
      requires tx.Valid() && strategy.Valid() && NoLoss(strategy.Now()) && 1 <= k <= MAX_K && EnoughDraws(draws, k, MAX_N)
      requires 0 < tx.pktCount <= k && tx.blockId == Window32.Wrap(|log|)
      modifies tx.pkts, tx.pktLen, strategy`credits
      ensures tx.Valid() && strategy.Valid() && NoLoss(strategy.Now())
      ensures b.id == |log| && b.packets == old(tx.Packets()) && b.k == k && b.Carried(ctx, datagrams)
      ensures b.n > 0 && b.n == ShardsOf(old(strategy.Now()), k)
      ensures out == DispatchedAt(old(strategy.Now()), datagrams)
      ensures strategy.Now() == After(old(strategy.Now()), Sends(b.n))
    {
      ghost var s, ps := strategy.Now(), tx.Packets();
      ghost var n;
      out, n, datagrams := tx.Flush(strategy, k, ctx, draws, |log|);
      b := Block(|log|, ps, k, n, draws);
      CountInRange(s, k);
      FlushedState(s, strategy.Now(), n);
      SendsKeepPaths(s, n);
    }

    method FlushAndInit(draws: Matrix<bv8>) returns (ghost n: nat)
      requires Holds() && tx.pktCount > 0 && EnoughDraws(draws, k, MAX_N)
      modifies this`log, this`wire, this`sent, this`moments, this`nextId, tx, tx.pkts, tx.pktLen, strategy`credits
      ensures Valid() && read == old(read) && tx.pktCount == 0
      ensures n > 0 && Grown(old(log), old(moments), old(strategy.Now()), n, log, moments)
      ensures strategy.Now() == After(old(strategy.Now()), Sends(n))
    {
      n := Flush(draws);
      Renew();
      assert PacketsOf(log) + [] == PacketsOf(log);
    }

    // The next block.
    method Renew()
      requires tx.Valid() && nextId == Window32.Wrap(|log|)
      modifies this`nextId, tx, tx.pkts, tx.pktLen
      ensures tx.Valid() && tx.pktCount == 0 && tx.Packets() == []
      ensures tx.blockId == Window32.Wrap(|log|) && nextId == Window32.Wrap(|log| + 1)
    {
      tx.Init(nextId);
      Window32.WrapNext(|log|);
      nextId := (nextId + 1) % Window32.TWO32;
      assert |tx.Packets()| == 0;
    }

    method Add(packet: Bytes, sec: int, usec: int) returns (full: bool)
      requires Valid() && 0 < |packet| <= MAX_PAYLOAD
      modifies this`read, tx, tx.pkts, tx.pktLen
      ensures Holds() && tx.pktCount == old(tx.pktCount) + 1 && read == old(read) + [packet]
      ensures full <==> tx.pktCount >= k
      ensures !full ==> Waiting() == AfterPacket(old(Waiting()), packet, Time(sec, usec), k)
    {
      ghost var before := tx.Packets();
      full := tx.AddPkt(packet, k, sec, usec);
      read := read + [packet];
      assert |tx.Packets()| == tx.pktCount && |before| == old(tx.pktCount);
      Appended(PacketsOf(log), before, packet);
    }

    // A packet from the TUN device.  The result is the number of shards flushed.
    method OnPacket(packet: Bytes, sec: int, usec: int, draws: Matrix<bv8>) returns (ghost n: nat)
      requires Valid() && |packet| <= MAX_PAYLOAD && EnoughDraws(draws, k, MAX_N)
      modifies this`read, this`log, this`wire, this`sent, this`moments, this`nextId, tx, tx.pkts, tx.pktLen, strategy`credits
      ensures Valid()
      ensures read == old(read) + if packet == [] then [] else [packet]
      ensures n > 0 <==> packet != [] && old(tx.pktCount) + 1 >= k
      ensures Waiting() == AfterPacket(old(Waiting()), packet, Time(sec, usec), k)
      ensures Grown(old(log), old(moments), old(strategy.Now()), n, log, moments)
      ensures strategy.Now() == After(old(strategy.Now()), Sends(n))
    {
      n := 0;
      if |packet| > 0 {
        var full := Add(packet, sec, usec);
        if full {
          n := FlushAndInit(draws);
        }
      }
    }

    // The block timeout.
    method OnTimer(timeoutMs: int, sec: int, usec: int, draws: Matrix<bv8>) returns (ghost n: nat)
      requires Valid() && EnoughDraws(draws, k, MAX_N)
      modifies this`log, this`wire, this`sent, this`moments, this`nextId, tx, tx.pkts, tx.pktLen, strategy`credits
      ensures Valid() && read == old(read)
      ensures n > 0 <==> old(tx.pktCount) > 0 && Overdue(sec, usec, old(tx.firstSec), old(tx.firstUsec), timeoutMs)
      ensures n > 0 <==> Late(old(Waiting()), Time(sec, usec), timeoutMs)
      ensures Waiting() == AfterTimer(old(Waiting()), Time(sec, usec), timeoutMs)
      ensures Grown(old(log), old(moments), old(strategy.Now()), n, log, moments)
      ensures strategy.Now() == After(old(strategy.Now()), Sends(n))
    {
      n := 0;
      var due := tx.NeedsFlush(timeoutMs, sec, usec);
      if due {
        n := FlushAndInit(draws);
      }
    }

    // A new configuration.
    method Configure(cfg: Config)
      requires Valid()
      modifies strategy
      ensures Valid() && strategy.Now() == ReloadedState(old(strategy.Now()), cfg) && Waiting() == old(Waiting())
    {
      ReloadKeepsNoLoss(strategy.Now(), cfg);
      strategy.Reload(cfg);
    }

    // The answer to a probe, if there is one.
    method OnEcho(echo: Option<Echo>)
      requires Valid()
      modifies strategy
      ensures Valid() && strategy.Now() == EchoState(old(strategy.Now()), echo) && Waiting() == old(Waiting())
    {
      if echo.Some? {
        AnswerNeverKills(strategy.Now(), echo.value.path, echo.value.rttUs);
        strategy.UpdateProbe(echo.value.path, echo.value.rttUs, true);
      }
    }

    method ReadPacket(turn: Turn) returns (ghost n: nat)
      requires Valid() && IsTurn(turn, k) && turn.Turn?
      modifies this`read, this`log, this`wire, this`sent, this`moments, this`nextId, tx, tx.pkts, tx.pktLen, strategy`credits
      ensures Valid() && read == old(read) + ReadIn(turn)
      ensures Waiting() == PacketRead(old(Waiting()), turn, k)
      ensures n > 0 <==> HasPacket(turn) && CountOf(old(Waiting())) + 1 >= k
      ensures Grown(old(log), old(moments), old(strategy.Now()), n, log, moments)
      ensures strategy.Now() == After(old(strategy.Now()), Sends(n))
    {
      n := 0;
      if turn.packet.Some? {
        n := OnPacket(turn.packet.value, turn.read.sec, turn.read.usec, turn.first);
      }
    }

    // The packet and the timeout of a turn; at most one of them flushes a block.
    method TakePacket(turn: Turn) returns (ghost n: nat)
      requires Valid() && IsTurn(turn, k) && turn.Turn?
      modifies this`read, this`log, this`wire, this`sent, this`moments, this`nextId, tx, tx.pkts, tx.pktLen, strategy`credits
      ensures Valid() && read == old(read) + ReadIn(turn)
      ensures Waiting() == TurnPending(old(Waiting()), turn, k) && (n > 0 <==> Flushes(old(Waiting()), turn, k))
      ensures Grown(old(log), old(moments), old(strategy.Now()), n, log, moments)
      ensures strategy.Now() == After(old(strategy.Now()), Sends(n))
    {
      n := ReadPacket(turn);
      ghost var p := old(Waiting());
      ghost var m := OnTimer(turn.timeoutMs, turn.checked.sec, turn.checked.usec, turn.second);
      OneOfBoth(p, turn, k, n, m);
      n := n + m;
    }

    method Take(turn: Turn) returns (ghost n: nat)
      requires Valid() && IsTurn(turn, k)
      modifies this`read, this`log, this`wire, this`sent, this`moments, this`nextId, tx, tx.pkts, tx.pktLen, strategy
      ensures Valid() && read == old(read) + ReadIn(turn)
      ensures Waiting() == TurnPending(old(Waiting()), turn, k) && (n > 0 <==> Flushes(old(Waiting()), turn, k))
      ensures Grown(old(log), old(moments), old(strategy.Now()), n, log, moments)
      ensures strategy.Now() == TurnState(old(strategy.Now()), turn, n)
    {
      n := 0;
      match turn
      case Reload(cfg) =>
        Configure(cfg);
      case Turn(_, _, _, _, echo, _, _) =>
        n := TakePacket(turn);
        OnEcho(echo);
    }

    // The drain at shutdown.
    method Drain(last: Matrix<bv8>) returns (ghost n: nat)
      requires Valid() && EnoughDraws(last, k, MAX_N)
      modifies this`log, this`wire, this`sent, this`moments, tx.pkts, tx.pktLen, strategy`credits
      ensures Recorded() && PacketsOf(log) == read
      ensures n > 0 <==> tx.pktCount > 0
      ensures Grown(old(log), old(moments), old(strategy.Now()), n, log, moments)
      ensures strategy.Now() == After(old(strategy.Now()), Sends(n))
    {
      n := 0;
      if tx.pktCount > 0 {
        n := Flush(last);
      } else {
        assert tx.Packets() == [];
      }
    }

    // The turns one after the other; turn j flushes a block of loads[j] shards, if that is not zero.
    method TakeAll(turns: seq<Turn>) returns (ghost loads: seq<nat>)
      requires Valid() && log == [] && read == []
      requires forall j :: 0 <= j < |turns| ==> IsTurn(turns[j], k)
      modifies this`read, this`log, this`wire, this`sent, this`moments, this`nextId, tx, tx.pkts, tx.pktLen, strategy
      ensures Valid() && read == PacketsRead(turns)
      ensures |loads| == |turns| && moments == MomentsOf(old(strategy.Now()), turns, loads)
      ensures strategy.Now() == StateAfter(old(strategy.Now()), turns, loads)
      ensures Waiting() == PendingAfter(turns, k) && AsDue(turns, loads, k)
    {
      loads := [];
      assert Opened(true);
      ghost var s := strategy.Now();
      for j := 0 to |turns|
        invariant Valid() && read == PacketsRead(turns[..j])
        invariant |loads| == j && moments == MomentsOf(s, turns[..j], loads)
        invariant strategy.Now() == StateAfter(s, turns[..j], loads)
        invariant Waiting() == PendingAfter(turns[..j], k) && AsDue(turns[..j], loads, k)
      {
        ghost var n := Take(turns[j]);
        NextTurn(s, turns, loads, j, n, k);
        loads := loads + [n];
      }
      assert turns[..|turns|] == turns;
    }

    // A whole run, with the drain at shutdown: the packets read are, in order, the packets of
    // the blocks flushed, and nothing is left over.  Every block gets as many shards as the strategy
    // then asks for, and is sent if some path is in use, but nothing else is.  Without a reload no
    // path goes out of use, so that everything is sent if there is one at first.
    method Run(turns: seq<Turn>, last: Matrix<bv8>) returns (ghost loads: seq<nat>, ghost rest: nat)
      requires Valid() && log == [] && read == [] && EnoughDraws(last, k, MAX_N)
      requires forall j :: 0 <= j < |turns| ==> IsTurn(turns[j], k)
      modifies this`read, this`log, this`wire, this`sent, this`moments, this`nextId, tx, tx.pkts, tx.pktLen, strategy
      ensures IsLog(log, ctx, wire) && AllSent(wire, sent) && IsRecord(log, moments, wire, sent, k)
      ensures PacketsOf(log) == PacketsRead(turns)
      ensures |loads| == |turns| && IsHistory(old(strategy.Now()), turns, loads, rest, moments, strategy.Now())
      ensures AsDue(turns, loads, k) && (rest > 0 <==> PendingAfter(turns, k).Pending?)
      ensures BytesOf(sent) == Passed(moments, wire)
      ensures NoReload(turns) && old(strategy.threshold) >= 0.0 ==> AliveKept(old(strategy.paths), strategy.paths)
      ensures NoReload(turns) && old(strategy.threshold) >= 0.0 && SomeInUse(old(strategy.Now())) ==> BytesOf(sent) == Joined(wire)
    {
      ghost var s := strategy.Now();
      loads := TakeAll(turns);
      rest := Drain(last);
      assert Opened(true);
      SentExactly(moments, wire);
      HistoryLasts(s, turns, loads, rest, moments, strategy.Now(), wire);
    }
  }

  // A block that has just been flushed is not flushed by the timer.
  lemma OneOfBoth(p: Pending, turn: Turn, k: nat, n: nat, m: nat)
    requires turn.Turn?
    requires n > 0 <==> HasPacket(turn) && CountOf(p) + 1 >= k
    requires m > 0 <==> Late(PacketRead(p, turn, k), turn.checked, turn.timeoutMs)
    ensures n == 0 || m == 0
    ensures n + m > 0 <==> Flushes(p, turn, k)
  {
  }

  lemma NextTurn(s: State, turns: seq<Turn>, loads: seq<nat>, j: nat, n: nat, k: nat)
    requires Sound(s) && |loads| == j < |turns|
    ensures PendingAfter(turns[..j + 1], k) == TurnPending(PendingAfter(turns[..j], k), turns[j], k)
    ensures AsDue(turns[..j + 1], loads + [n], k) <==>
      AsDue(turns[..j], loads, k) && (n > 0 <==> Flushes(PendingAfter(turns[..j], k), turns[j], k))
    ensures PacketsRead(turns[..j + 1]) == PacketsRead(turns[..j]) + ReadIn(turns[j])
    ensures StateAfter(s, turns[..j + 1], loads + [n]) == TurnState(StateAfter(s, turns[..j], loads), turns[j], n)
    ensures MomentsOf(s, turns[..j + 1], loads + [n])
         == MomentsOf(s, turns[..j], loads) + if n > 0 then [StateAfter(s, turns[..j], loads)] else []
  {
    assert turns[..j + 1][..j] == turns[..j] && (loads + [n])[..j] == loads;
  }

  lemma OneMore(log: seq<Block>, b: Block, wire: seq<seq<Bytes>>, datagrams: seq<Bytes>)
    ensures (log + [b])[..|log|] == log && (wire + [datagrams])[..|wire|] == wire
  {
  }

  // What a flush does to the strategy.
  lemma FlushedState(s: State, t: State, n: nat)
    requires Sound(s) && t == s.(credits := CreditsAfter(Usable(s.paths), Weights(s.paths), s.credits, n))
    ensures t == After(s, Sends(n))
  {
    if AnyPath(s) {
      AfterSends(s, n);
    } else {
      UnusableStays(s, n);
    }
  }

  lemma RecordGrows(log: seq<Block>, b: Block, ctx: Ctx, wire: seq<seq<Bytes>>, more: seq<Bytes>, moments: seq<State>, s: State,
                    sent: seq<Sent>, out: seq<Sent>, k: nat)
    requires k >= 1 && IsLog(log, ctx, wire) && AllSent(wire, sent) && IsRecord(log, moments, wire, sent, k)
    requires b.id == |log| && b.Carried(ctx, more) && b.k == k && Sound(s) && b.n == ShardsOf(s, k)
    requires out == DispatchedAt(s, more)
    ensures IsLog(log + [b], ctx, wire + [more]) && AllSent(wire + [more], sent + out)
    ensures IsRecord(log + [b], moments + [s], wire + [more], sent + out, k)
  {
    DispatchedFrom(more, Usable(s.paths), Weights(s.paths), s.credits);
    LogGrows(log, b, ctx, wire, more);
    SentGrows(wire, more, sent, out);
    assert (moments + [s])[..|log|] == moments && (wire + [more])[..|log|] == wire;
  }

  lemma Appended(a: seq<Bytes>, b: seq<Bytes>, x: Bytes)
    ensures (a + b) + [x] == a + (b + [x])
  {
  }

  ghost predicate AllFrom(bytes: seq<Bytes>, out: seq<Sent>)
  {
    forall j :: 0 <= j < |out| ==> out[j].bytes in bytes
  }

  lemma {:induction false} DispatchedFrom(bytes: seq<Bytes>, u: seq<bool>, w: seq<nat>, c: seq<int>)
    requires Scheduler.SameLength(u, w, c)
    ensures AllFrom(bytes, Dispatched(bytes, u, w, c))
  {
    if bytes != [] && Scheduler.SomeUsable(u) {
      DispatchedFrom(bytes[..|bytes| - 1], u, w, c);
    }
  }

  lemma StillSent(wire: seq<seq<Bytes>>, more: seq<Bytes>, bytes: Bytes)
    requires IsSent(wire, bytes) || bytes in more
    ensures IsSent(wire + [more], bytes)
  {
    var all := wire + [more];
    if IsSent(wire, bytes) {
      var d :| 0 <= d < |wire| && bytes in wire[d];
      assert all[d] == wire[d];
    } else {
      assert all[|wire|] == more;
    }
  }

  // Flushing one more block keeps what is known of the log.
  lemma LogGrows(log: seq<Block>, b: Block, ctx: Ctx, wire: seq<seq<Bytes>>, more: seq<Bytes>)
    requires IsLog(log, ctx, wire) && b.id == |log| && b.Carried(ctx, more)
    ensures IsLog(log + [b], ctx, wire + [more])
  {
    forall d | 0 <= d < |log + [b]|
      ensures (log + [b])[d].id == d && (log + [b])[d].Carried(ctx, (wire + [more])[d])
    {
      if d < |log| {
        assert log[d].Carried(ctx, wire[d]);
      }
    }
  }

  lemma SentGrows(wire: seq<seq<Bytes>>, more: seq<Bytes>, sent: seq<Sent>, out: seq<Sent>)
    requires AllSent(wire, sent) && AllFrom(more, out)
    ensures AllSent(wire + [more], sent + out)
  {
    forall j | 0 <= j < |sent + out|
      ensures IsSent(wire + [more], (sent + out)[j].bytes)
    {
      StillSent(wire, more, (sent + out)[j].bytes);
    }
  }
}
