/**
 What the turns of the event loop of src/main.c do to the paths: which of them are alive, what the
 strategy goes through, and what becomes of the datagrams of the blocks flushed meanwhile.
 */
module Turns {
  import opened LinearAlgebra
  import opened Codec
  import opened Encoder
  import opened Wire
  import Scheduler
  import opened Strategy
  import opened Tx

  // What one turn of the event loop finds: new configuration, or a packet to read, the clock when
  // the packet is read and when the timeout is checked, and the answer to a probe.  `first` and
  // `second` are the coefficients that a flush draws.
  datatype Turn =
    | Reload(cfg: Config)
    | Turn(packet: Option<Bytes>, read: Time, checked: Time, timeoutMs: int, echo: Option<Echo>,
           first: Matrix<bv8>, second: Matrix<bv8>)

  datatype Time = Time(sec: int, usec: int)

  datatype Echo = Echo(path: int, rttUs: nat)

  // The packets that the turns read; the device returns no more than the buffer holds.
  ghost function PacketsRead(turns: seq<Turn>): (r: seq<Bytes>)
  {
    if turns == [] then [] else PacketsRead(turns[..|turns| - 1]) + ReadIn(turns[|turns| - 1])
  }

  ghost function ReadIn(turn: Turn): (r: seq<Bytes>)
  {
    if turn.Turn? && turn.packet.Some? && turn.packet.value != [] then [turn.packet.value] else []
  }

  ghost predicate HasPacket(turn: Turn)
  {
    turn.Turn? && turn.packet.Some? && turn.packet.value != []
  }

  ghost function WithPacket(turns: seq<Turn>): set<nat>
  {
    set j: nat | j < |turns| && HasPacket(turns[j])
  }

  // One packet for every turn that finds one.
  lemma {:induction false} ReadOncePerTurn(turns: seq<Turn>)
    ensures |PacketsRead(turns)| == |WithPacket(turns)|
    decreases |turns|
  {
    if turns != [] {
      var m := |turns| - 1;
      ReadOncePerTurn(turns[..m]);
      assert WithPacket(turns) == if HasPacket(turns[m]) then WithPacket(turns[..m]) + {m} else WithPacket(turns[..m]);
    }
  }

  // The packet of turn j comes after those of the turns before it.
  lemma {:induction false} ReadInOrder(turns: seq<Turn>, j: nat)
    requires j < |turns| && HasPacket(turns[j])
    ensures |PacketsRead(turns[..j])| < |PacketsRead(turns)|
    ensures PacketsRead(turns)[|PacketsRead(turns[..j])|] == turns[j].packet.value
    decreases |turns|
  {
    var m := |turns| - 1;
    if j < m {
      ReadInOrder(turns[..m], j);
      assert turns[..m][..j] == turns[..j];
    }
  }

  ghost predicate IsTurn(turn: Turn, k: nat)
  {
    turn.Turn? ==>
      && (turn.packet.Some? ==> |turn.packet.value| <= MAX_PAYLOAD)
      && EnoughDraws(turn.first, k, MAX_N) && EnoughDraws(turn.second, k, MAX_N)
  }

  ghost predicate NoReload(turns: seq<Turn>)
  {
    forall j :: 0 <= j < |turns| ==> turns[j].Turn?
  }

  // ---------------------------------------------------------------------------------------
  // When blocks are flushed.

  // How many packets wait in the block being filled, and since when the first of them does.
  datatype Pending = Empty | Pending(count: nat, first: Time)

  function CountOf(p: Pending): nat
  {
    if p.Empty? then 0 else p.count
  }

  function AfterPacket(p: Pending, packet: Bytes, at: Time, k: nat): Pending
  {
    if packet == [] then p
    else if CountOf(p) + 1 >= k then Empty
    else Pending(CountOf(p) + 1, if p.Empty? then at else p.first)
  }

  ghost predicate Late(p: Pending, at: Time, timeoutMs: int)
  {
    p.Pending? && Overdue(at.sec, at.usec, p.first.sec, p.first.usec, timeoutMs)
  }

  ghost function AfterTimer(p: Pending, at: Time, timeoutMs: int): Pending
  {
    if Late(p, at, timeoutMs) then Empty else p
  }

  ghost function PacketRead(p: Pending, turn: Turn, k: nat): Pending
    requires turn.Turn?
  {
    if turn.packet.Some? then AfterPacket(p, turn.packet.value, turn.read, k) else p
  }

  ghost function TurnPending(p: Pending, turn: Turn, k: nat): Pending
  {
    if turn.Reload? then p else AfterTimer(PacketRead(p, turn, k), turn.checked, turn.timeoutMs)
  }

  // The packet read fills the block, or the first one has waited too long.
  ghost predicate Flushes(p: Pending, turn: Turn, k: nat)
  {
    turn.Turn? && ((HasPacket(turn) && CountOf(p) + 1 >= k) || Late(PacketRead(p, turn, k), turn.checked, turn.timeoutMs))
  }

  ghost function PendingAfter(turns: seq<Turn>, k: nat): Pending
  {
    if turns == [] then Empty else TurnPending(PendingAfter(turns[..|turns| - 1], k), turns[|turns| - 1], k)
  }

  // The turns that flush are those that the rules above say.
  ghost predicate AsDue(turns: seq<Turn>, loads: seq<nat>, k: nat)
    requires |turns| == |loads|
    decreases |turns|
  {
    turns == [] ||
    var m := |turns| - 1;
    AsDue(turns[..m], loads[..m], k) && (loads[m] > 0 <==> Flushes(PendingAfter(turns[..m], k), turns[m], k))
  }

  // What waits is less than a block, and has not waited too long when the clock was last read.
  lemma NothingIsOverdue(turns: seq<Turn>, k: nat)
    requires turns != [] && turns[|turns| - 1].Turn? && PendingAfter(turns, k).Pending?
    ensures var p, last := PendingAfter(turns, k), turns[|turns| - 1];
      !Overdue(last.checked.sec, last.checked.usec, p.first.sec, p.first.usec, last.timeoutMs)
  {
  }

  lemma {:induction false} LessThanBlock(turns: seq<Turn>, k: nat)
    requires k >= 1
    ensures CountOf(PendingAfter(turns, k)) < k
    decreases |turns|
  {
    if turns != [] {
      LessThanBlock(turns[..|turns| - 1], k);
    }
  }

  lemma ReadOneMore(turns: seq<Turn>, j: nat)
    requires j < |turns|
    ensures PacketsRead(turns[j..]) == PacketsRead(turns[..|turns| - 1][j..]) + ReadIn(turns[|turns| - 1])
  {
    assert turns[j..][..|turns[j..]| - 1] == turns[..|turns| - 1][j..];
  }

  // The packets that wait are the last ones read, and the wait began when the first of them was.
  lemma {:induction false} WaitingSince(turns: seq<Turn>, k: nat) returns (j: nat)
    requires k >= 1 && PendingAfter(turns, k).Pending?
    ensures j < |turns| && HasPacket(turns[j]) && turns[j].read == PendingAfter(turns, k).first
    ensures |PacketsRead(turns[j..])| == PendingAfter(turns, k).count
    decreases |turns|
  {
    var m := |turns| - 1;
    if PendingAfter(turns[..m], k).Pending? {
      j := WaitingSince(turns[..m], k);
      ReadOneMore(turns, j);
    } else {
      j := m;
      ReadOneMore(turns, m);
      assert turns[..m][m..] == [];
    }
  }

  // ---------------------------------------------------------------------------------------
  // Which paths are alive.

  // What decides about a path: whether it is alive, and the threshold in force.
  datatype Standing = Standing(alive: bool, threshold: real)

  function Standings(paths: seq<PathState>, threshold: real): (r: seq<Standing>)
    ensures |r| == |paths|
  {
    if paths == [] then [] else Standings(paths[..|paths| - 1], threshold) + [Standing(paths[|paths| - 1].alive, threshold)]
  }

  lemma {:induction false} StandingAt(paths: seq<PathState>, threshold: real, i: nat)
    requires i < |paths|
    ensures Standings(paths, threshold)[i] == Standing(paths[i].alive, threshold)
  {
    if i < |paths| - 1 {
      StandingAt(paths[..|paths| - 1], threshold, i);
    }
  }

  // After the answer to a probe.  No probe is counted as lost, so the loss rate is zero.
  function Answered(s: Standing): Standing
  {
    s.(alive := if s.threshold > 0.0 then true else if s.threshold < 0.0 then false else s.alive)
  }

  predicate Answers(turn: Turn, i: nat)
  {
    turn.Turn? && turn.echo.Some? && turn.echo.value.path == i
  }

  predicate Disables(turn: Turn, i: nat)
  {
    turn.Reload? && i < |turn.cfg.paths| && !turn.cfg.paths[i].enabled
  }

  function AfterTurn(s: Standing, i: nat, turn: Turn): Standing
  {
    if turn.Reload? then Standing(s.alive && !Disables(turn, i), turn.cfg.lossThreshold)
    else if Answers(turn, i) then Answered(s)
    else s
  }

  // All paths after a turn, and after a run.
  function AllAfterTurn(ss: seq<Standing>, turn: Turn): (r: seq<Standing>)
    ensures |r| == |ss|
  {
    if ss == [] then [] else AllAfterTurn(ss[..|ss| - 1], turn) + [AfterTurn(ss[|ss| - 1], |ss| - 1, turn)]
  }

  lemma {:induction false} AfterTurnAt(ss: seq<Standing>, turn: Turn, i: nat)
    requires i < |ss|
    ensures AllAfterTurn(ss, turn)[i] == AfterTurn(ss[i], i, turn)
  {
    if i < |ss| - 1 {
      AfterTurnAt(ss[..|ss| - 1], turn, i);
    }
  }

  lemma PathsAfterTurn(before: seq<PathState>, threshold: real, after: seq<PathState>, last: real, turn: Turn)
    requires |after| == |before|
    requires forall i :: 0 <= i < |after| ==>
      Standing(after[i].alive, last) == AfterTurn(Standing(before[i].alive, threshold), i, turn)
    ensures Standings(after, last) == AllAfterTurn(Standings(before, threshold), turn)
  {
    var ss := Standings(before, threshold);
    forall i | 0 <= i < |ss|
      ensures Standings(after, last)[i] == AllAfterTurn(ss, turn)[i]
    {
      StandingAt(before, threshold, i);
      StandingAt(after, last, i);
      AfterTurnAt(ss, turn, i);
    }
  }

  function AllAfter(ss: seq<Standing>, turns: seq<Turn>): (r: seq<Standing>)
    ensures |r| == |ss|
  {
    if turns == [] then ss else AllAfterTurn(AllAfter(ss, turns[..|turns| - 1]), turns[|turns| - 1])
  }

  lemma AnswerStandings(s: State, e: Echo, turn: Turn)
    requires Sound(s) && NoLoss(s) && turn.Turn? && turn.echo == Some(e)
    ensures Standings(Probed(s, e.path, e.rttUs, true).paths, s.threshold) == AllAfterTurn(Standings(s.paths, s.threshold), turn)
  {
    var r := Probed(s, e.path, e.rttUs, true);
    forall i | 0 <= i < |s.paths|
      ensures |r.paths| == |s.paths|
      ensures Standing(r.paths[i].alive, s.threshold) == AfterTurn(Standing(s.paths[i].alive, s.threshold), i, turn)
    {
      AnswerKeepsZero(s.alpha, s.paths[i].loss);
    }
    PathsAfterTurn(s.paths, s.threshold, r.paths, s.threshold, turn);
  }

  lemma ReloadKeepsNoLoss(s: State, cfg: Config)
    requires Sound(s) && NoLoss(s)
    ensures NoLoss(ReloadedState(s, cfg))
  {
    var r := ReloadedState(s, cfg);
    forall j | 0 <= j < |r.paths|
      ensures r.paths[j].loss == 0.0
    {
      ReloadedAt(s, cfg, |s.paths|, j);
    }
  }

  lemma ConfiguredStandings(s: State, cfg: Config)
    requires Sound(s) && NoLoss(s)
    ensures var r := ReloadedState(s, cfg);
      NoLoss(r) && Standings(r.paths, r.threshold) == AllAfterTurn(Standings(s.paths, s.threshold), Reload(cfg))
  {
    var r := ReloadedState(s, cfg);
    ReloadKeepsNoLoss(s, cfg);
    forall j | 0 <= j < |r.paths|
      ensures Standing(r.paths[j].alive, r.threshold) == AfterTurn(Standing(s.paths[j].alive, s.threshold), j, Reload(cfg))
    {
      ReloadedAt(s, cfg, |s.paths|, j);
    }
    PathsAfterTurn(s.paths, s.threshold, r.paths, r.threshold, Reload(cfg));
  }

  lemma NoAnswerStandings(paths: seq<PathState>, threshold: real, turn: Turn)
    requires turn.Turn? && turn.echo.None?
    ensures AllAfterTurn(Standings(paths, threshold), turn) == Standings(paths, threshold)
  {
    PathsAfterTurn(paths, threshold, paths, threshold, turn);
  }

  lemma {:induction false} RisesWithoutReload(ss: seq<Standing>, threshold: real, turns: seq<Turn>)
    requires NoReload(turns) && threshold >= 0.0 && forall i :: 0 <= i < |ss| ==> ss[i].threshold == threshold
    ensures forall i :: 0 <= i < |ss| ==> var r := AllAfter(ss, turns)[i]; r.threshold == threshold && (ss[i].alive ==> r.alive)
    decreases |turns|
  {
    if turns != [] {
      var before, m := AllAfter(ss, turns[..|turns| - 1]), |turns| - 1;
      RisesWithoutReload(ss, threshold, turns[..m]);
      forall i | 0 <= i < |ss|
        ensures AllAfter(ss, turns)[i] == AfterTurn(before[i], i, turns[m])
      {
        AfterTurnAt(before, turns[m], i);
      }
    }
  }

  lemma KeptWithoutReload(before: seq<PathState>, threshold: real, after: seq<PathState>, last: real, turns: seq<Turn>)
    requires NoReload(turns) && threshold >= 0.0
    requires Standings(after, last) == AllAfter(Standings(before, threshold), turns)
    ensures AliveKept(before, after)
  {
    forall i | 0 <= i < |before|
      ensures Standings(before, threshold)[i] == Standing(before[i].alive, threshold)
    {
      StandingAt(before, threshold, i);
    }
    RisesWithoutReload(Standings(before, threshold), threshold, turns);
    forall i | 0 <= i < |before| && before[i].alive
      ensures i < |after| && after[i].alive
    {
      assert |Standings(after, last)| == |after|;
      StandingAt(after, last, i);
    }
  }
  // ---------------------------------------------------------------------------------------
  // Over runs with reloads.

  function AfterTurns(s: Standing, i: nat, turns: seq<Turn>): Standing
  {
    if turns == [] then s else AfterTurn(AfterTurns(s, i, turns[..|turns| - 1]), i, turns[|turns| - 1])
  }

  // The paths do not depend on each other.
  lemma {:induction false} EachPath(ss: seq<Standing>, turns: seq<Turn>, i: nat)
    requires i < |ss|
    ensures AllAfter(ss, turns)[i] == AfterTurns(ss[i], i, turns)
    decreases |turns|
  {
    if turns != [] {
      EachPath(ss, turns[..|turns| - 1], i);
      AfterTurnAt(AllAfter(ss, turns[..|turns| - 1]), turns[|turns| - 1], i);
    }
  }

  // Turn p sends probes, and path i gets one: it is alive when the turn ends.
  ghost predicate ProbedAt(s: Standing, i: nat, turns: seq<Turn>, p: nat)
  {
    p < |turns| && turns[p].Turn? && AfterTurns(s, i, turns[..p + 1]).alive
  }

  // Whatever answer comes in on path i, a probe was sent there before.
  ghost predicate AnswersProbes(s: Standing, i: nat, turns: seq<Turn>)
  {
    forall j :: 0 <= j < |turns| && Answers(turns[j], i) ==> ProbedBefore(s, i, turns, j)
  }

  ghost predicate ProbedBefore(s: Standing, i: nat, turns: seq<Turn>, j: nat)
  {
    exists p: nat :: p < j && ProbedAt(s, i, turns, p)
  }

  // A path comes to life only by an answer.
  lemma ComesToLife(s: Standing, i: nat, turns: seq<Turn>, j: nat)
    requires j < |turns| && !AfterTurns(s, i, turns[..j]).alive && AfterTurns(s, i, turns[..j + 1]).alive
    ensures Answers(turns[j], i)
  {
    assert turns[..j + 1][..j] == turns[..j];
  }

  lemma {:induction false} ComesToLifeAt(s: Standing, i: nat, turns: seq<Turn>, m: nat, n: nat) returns (j: nat)
    requires m <= n <= |turns| && !AfterTurns(s, i, turns[..m]).alive && AfterTurns(s, i, turns[..n]).alive
    ensures m <= j < n && Answers(turns[j], i)
    ensures forall e :: m <= e <= j ==> !AfterTurns(s, i, turns[..e]).alive
    decreases n - m
  {
    j := m;
    if AfterTurns(s, i, turns[..m + 1]).alive {
      ComesToLife(s, i, turns, m);
    } else {
      j := ComesToLifeAt(s, i, turns, m + 1, n);
    }
  }

  // If a path that is dead after m turns is alive later, then the answer to a probe sent before
  // has come in since.
  lemma RevivedByOldProbe(s: Standing, i: nat, turns: seq<Turn>, m: nat, n: nat) returns (p: nat, j: nat)
    requires m <= n <= |turns| && AnswersProbes(s, i, turns)
    requires !AfterTurns(s, i, turns[..m]).alive && AfterTurns(s, i, turns[..n]).alive
    ensures p + 1 < m <= j < n && ProbedAt(s, i, turns, p) && Answers(turns[j], i)
  {
    j := ComesToLifeAt(s, i, turns, m, n);
    assert ProbedBefore(s, i, turns, j);
    p :| p < j && ProbedAt(s, i, turns, p);
  }

  // So a path that is disabled at the start gets no probe, and stays dead over the whole run,
  // even if a reload enables it.
  lemma DeadStaysDead(s: Standing, i: nat, turns: seq<Turn>)
    requires !s.alive && AnswersProbes(s, i, turns)
    ensures !AfterTurns(s, i, turns).alive
  {
    assert turns[..0] == [] && turns[..|turns|] == turns;
    if AfterTurns(s, i, turns).alive {
      var p, j := RevivedByOldProbe(s, i, turns, 0, |turns|);
    }
  }

  ghost predicate PositiveThresholds(s: Standing, turns: seq<Turn>)
  {
    s.threshold > 0.0 && forall j :: 0 <= j < |turns| && turns[j].Reload? ==> turns[j].cfg.lossThreshold > 0.0
  }

  // Turn j answers a probe of path i, and no later turn disables the path.
  ghost predicate LastsFrom(turns: seq<Turn>, i: nat, j: nat)
  {
    j < |turns| && Answers(turns[j], i) && forall r :: j < r < |turns| ==> !Disables(turns[r], i)
  }

  // Under positive thresholds a path is alive exactly if it was at first and no reload has
  // disabled it, or a probe has been answered since the last reload that did.
  lemma {:induction false} AliveExactly(s: Standing, i: nat, turns: seq<Turn>)
    requires PositiveThresholds(s, turns)
    ensures AfterTurns(s, i, turns).threshold > 0.0
    ensures AfterTurns(s, i, turns).alive <==>
      || (s.alive && forall r :: 0 <= r < |turns| ==> !Disables(turns[r], i))
      || exists j :: LastsFrom(turns, i, j)
    decreases |turns|
  {
    if turns != [] {
      var m := |turns| - 1;
      var before := turns[..m];
      AliveExactly(s, i, before);
      if Answers(turns[m], i) {
        assert LastsFrom(turns, i, m);
      } else if !Disables(turns[m], i) {
        forall j
          ensures LastsFrom(turns, i, j) <==> LastsFrom(before, i, j)
        {
        }
      }
    }
  }

  // ---------------------------------------------------------------------------------------
  // What the strategy goes through.

  // A turn in which a block of n shards is flushed, or none if n is zero.
  ghost function TurnState(s: State, turn: Turn, n: nat): (r: State)
    requires Sound(s)
    ensures Sound(r)
  {
    match turn
    case Reload(cfg) => ReloadedSound(s, cfg); ReloadedState(s, cfg)
    case Turn(_, _, _, _, echo, _, _) => EchoState(After(s, Sends(n)), echo)
  }

  ghost function EchoState(s: State, echo: Option<Echo>): (r: State)
    requires Sound(s)
    ensures Sound(r)
  {
    if echo.None? then s
    else
      ProbedSound(s, echo.value.path, echo.value.rttUs, true);
      Probed(s, echo.value.path, echo.value.rttUs, true)
  }

  // loads[j] is the number of shards flushed in turn j.
  ghost function StateAfter(s: State, turns: seq<Turn>, loads: seq<nat>): (r: State)
    requires Sound(s) && |turns| == |loads|
    ensures Sound(r)
    decreases |turns|
  {
    if turns == [] then s
    else
      var m := |turns| - 1;
      TurnState(StateAfter(s, turns[..m], loads[..m]), turns[m], loads[m])
  }

  // The strategy just before each flush.
  ghost function MomentsOf(s: State, turns: seq<Turn>, loads: seq<nat>): (r: seq<State>)
    requires Sound(s) && |turns| == |loads|
    decreases |turns|
  {
    if turns == [] then []
    else
      var m := |turns| - 1;
      MomentsOf(s, turns[..m], loads[..m]) + if loads[m] > 0 then [StateAfter(s, turns[..m], loads[..m])] else []
  }

  ghost predicate AllSound(moments: seq<State>)
  {
    forall d :: 0 <= d < |moments| ==> Sound(moments[d])
  }

  lemma SendsKeepPaths(s: State, n: nat)
    requires Sound(s)
    ensures After(s, Sends(n)).paths == s.paths && After(s, Sends(n)).threshold == s.threshold
  {
    if AnyPath(s) {
      AfterSends(s, n);
    } else {
      UnusableStays(s, n);
    }
  }

  lemma TurnStandings(s: State, turn: Turn, n: nat)
    requires Sound(s) && NoLoss(s)
    ensures var r := TurnState(s, turn, n);
      NoLoss(r) && Standings(r.paths, r.threshold) == AllAfterTurn(Standings(s.paths, s.threshold), turn)
  {
    match turn
    case Reload(cfg) => ConfiguredStandings(s, cfg);
    case Turn(_, _, _, _, echo, _, _) =>
      SendsKeepPaths(s, n);
      var t := After(s, Sends(n));
      if echo.Some? {
        AnswerNeverKills(t, echo.value.path, echo.value.rttUs);
        AnswerStandings(t, echo.value, turn);
      } else {
        NoAnswerStandings(t.paths, t.threshold, turn);
      }
  }

  // Reloads and answers alone decide which paths are alive.
  lemma {:induction false} StandingsFollow(s: State, turns: seq<Turn>, loads: seq<nat>)
    requires Sound(s) && NoLoss(s) && |turns| == |loads|
    ensures var r := StateAfter(s, turns, loads);
      NoLoss(r) && Standings(r.paths, r.threshold) == AllAfter(Standings(s.paths, s.threshold), turns)
    decreases |turns|
  {
    if turns != [] {
      var m := |turns| - 1;
      StandingsFollow(s, turns[..m], loads[..m]);
      TurnStandings(StateAfter(s, turns[..m], loads[..m]), turns[m], loads[m]);
    }
  }

  // ---------------------------------------------------------------------------------------
  // What becomes of the datagrams.

  ghost function DispatchedAt(s: State, datagrams: seq<Bytes>): (r: seq<Sent>)
    requires Sound(s)
  {
    Dispatched(datagrams, Usable(s.paths), Weights(s.paths), s.credits)
  }

  // wire[d] are the datagrams of block d, flushed at moments[d].
  ghost function SentOf(moments: seq<State>, wire: seq<seq<Bytes>>): (r: seq<Sent>)
    requires |moments| == |wire| && AllSound(moments)
    decreases |wire|
  {
    if wire == [] then []
    else
      var m := |wire| - 1;
      SentOf(moments[..m], wire[..m]) + DispatchedAt(moments[m], wire[m])
  }

  ghost function BytesOf(sent: seq<Sent>): (r: seq<Bytes>)
    ensures |r| == |sent|
  {
    if sent == [] then [] else BytesOf(sent[..|sent| - 1]) + [sent[|sent| - 1].bytes]
  }

  // The datagrams of all blocks flushed while some path was in use.
  ghost function Passed(moments: seq<State>, wire: seq<seq<Bytes>>): (r: seq<Bytes>)
    requires |moments| == |wire|
    decreases |wire|
  {
    if wire == [] then []
    else
      var m := |wire| - 1;
      Passed(moments[..m], wire[..m]) + if SomeInUse(moments[m]) then wire[m] else []
  }

  ghost predicate SomeInUse(s: State)
  {
    exists i :: 0 <= i < |s.paths| && s.paths[i].enabled && s.paths[i].alive
  }

  lemma SomeInUseIsAny(s: State)
    ensures SomeInUse(s) <==> AnyPath(s)
  {
    if SomeInUse(s) {
      var i :| 0 <= i < |s.paths| && s.paths[i].enabled && s.paths[i].alive;
      assert Usable(s.paths)[i];
    }
  }

  lemma {:induction false} BytesOfBoth(a: seq<Sent>, b: seq<Sent>)
    ensures BytesOf(a + b) == BytesOf(a) + BytesOf(b)
    decreases |b|
  {
    if b == [] {
      assert a + b == a;
    } else {
      assert (a + b)[..|a + b| - 1] == a + b[..|b| - 1];
      BytesOfBoth(a, b[..|b| - 1]);
    }
  }

  lemma {:induction false} DispatchedBytes(datagrams: seq<Bytes>, u: seq<bool>, w: seq<nat>, c: seq<int>)
    requires Scheduler.SameLength(u, w, c)
    ensures BytesOf(Dispatched(datagrams, u, w, c)) == if Scheduler.SomeUsable(u) then datagrams else []
  {
    if datagrams != [] && Scheduler.SomeUsable(u) {
      var m := |datagrams| - 1;
      DispatchedBytes(datagrams[..m], u, w, c);
      BytesOfBoth(Dispatched(datagrams[..m], u, w, c), [Sent(PathOf(u, w, c, m), datagrams[m])]);
    }
  }

  // Everything flushed while some path was in use is sent, in order, and nothing else.
  lemma {:induction false} SentExactly(moments: seq<State>, wire: seq<seq<Bytes>>)
    requires |moments| == |wire| && AllSound(moments)
    ensures BytesOf(SentOf(moments, wire)) == Passed(moments, wire)
    decreases |wire|
  {
    if wire != [] {
      var m := |wire| - 1;
      SentExactly(moments[..m], wire[..m]);
      var s := moments[m];
      SomeInUseIsAny(s);
      DispatchedBytes(wire[m], Usable(s.paths), Weights(s.paths), s.credits);
      BytesOfBoth(SentOf(moments[..m], wire[..m]), DispatchedAt(s, wire[m]));
    }
  }

  ghost function Joined(wire: seq<seq<Bytes>>): (r: seq<Bytes>)
  {
    if wire == [] then [] else Joined(wire[..|wire| - 1]) + wire[|wire| - 1]
  }

  lemma {:induction false} AllPass(moments: seq<State>, wire: seq<seq<Bytes>>)
    requires |moments| == |wire| && forall d :: 0 <= d < |moments| ==> SomeInUse(moments[d])
    ensures Passed(moments, wire) == Joined(wire)
    decreases |wire|
  {
    if wire != [] {
      AllPass(moments[..|wire| - 1], wire[..|wire| - 1]);
    }
  }

  // A path in use, a threshold that is not negative, and no probe lost.
  ghost predicate Lasting(s: State, i: nat)
  {
    Sound(s) && NoLoss(s) && s.threshold >= 0.0 && i < |s.paths| && s.paths[i].enabled && s.paths[i].alive
  }

  lemma TurnLasts(s: State, turn: Turn, n: nat, i: nat)
    requires Lasting(s, i) && turn.Turn?
    ensures Lasting(TurnState(s, turn, n), i)
  {
    SendsKeepPaths(s, n);
    TurnStandings(s, turn, n);
    var t := After(s, Sends(n));
    if turn.echo.Some? {
      AnswerNeverKills(t, turn.echo.value.path, turn.echo.value.rttUs);
    }
  }

  // Without a reload, a path in use stays in use, and so every block is flushed while one is.
  lemma {:induction false} RunLasts(s: State, turns: seq<Turn>, loads: seq<nat>, i: nat)
    requires Lasting(s, i) && NoReload(turns) && |turns| == |loads|
    ensures Lasting(StateAfter(s, turns, loads), i)
    ensures forall d :: 0 <= d < |MomentsOf(s, turns, loads)| ==> SomeInUse(MomentsOf(s, turns, loads)[d])
    decreases |turns|
  {
    if turns != [] {
      var m := |turns| - 1;
      RunLasts(s, turns[..m], loads[..m], i);
      TurnLasts(StateAfter(s, turns[..m], loads[..m]), turns[m], loads[m], i);
    }
  }

  // From s the turns, and then the flush of what is left, lead to t by way of these flushes.
  ghost predicate IsHistory(s: State, turns: seq<Turn>, loads: seq<nat>, rest: nat, moments: seq<State>, t: State)
    requires Sound(s) && |turns| == |loads|
  {
    && moments == MomentsOf(s, turns, loads) + (if rest > 0 then [StateAfter(s, turns, loads)] else [])
    && t == After(StateAfter(s, turns, loads), Sends(rest))
  }

  lemma HistoryLasts(s: State, turns: seq<Turn>, loads: seq<nat>, rest: nat, moments: seq<State>, t: State, wire: seq<seq<Bytes>>)
    requires Sound(s) && NoLoss(s) && |turns| == |loads| && IsHistory(s, turns, loads, rest, moments, t) && |moments| == |wire|
    ensures NoReload(turns) && s.threshold >= 0.0 ==> AliveKept(s.paths, t.paths)
    ensures NoReload(turns) && s.threshold >= 0.0 && SomeInUse(s) ==> Passed(moments, wire) == Joined(wire)
  {
    if NoReload(turns) && s.threshold >= 0.0 {
      var r := StateAfter(s, turns, loads);
      StandingsFollow(s, turns, loads);
      SendsKeepPaths(r, rest);
      KeptWithoutReload(s.paths, s.threshold, r.paths, r.threshold, turns);
      if SomeInUse(s) {
        var i: nat :| i < |s.paths| && s.paths[i].enabled && s.paths[i].alive;
        RunLasts(s, turns, loads, i);
        AllPass(moments, wire);
      }
    }
  }
}
