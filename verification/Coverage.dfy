/**
 Which blocks reach which paths: the scheduler of module `Service` in the states that the
 context of src/strategy.c can really get into.  Probe answers refill single credits, so they
 can keep one path waiting while others are served.
 */
module Coverage {
  import Scheduler
  import opened Service
  import opened Strategy

  // The next n shards include one for path i, if it is in use.
  ghost predicate Served(s: State, n: nat, i: nat)
    requires Sound(s)
  {
    i < |s.paths| && s.paths[i].Usable() ==>
      (UsableSome(s, i); Scheduler.Picks(Usable(s.paths), Weights(s.paths), s.credits, n, i) >= 1)
  }

  lemma UsableSome(s: State, i: nat)
    requires Sound(s) && i < |s.paths| && s.paths[i].Usable()
    ensures Scheduler.SameLength(Usable(s.paths), Weights(s.paths), s.credits) && Scheduler.SomeUsable(Usable(s.paths))
  {
    assert Usable(s.paths)[i];
  }

  // ---------------------------------------------------------------------------------------
  // Fewer paths in use wait no longer.

  lemma {:induction false} FewerOthers(u: seq<bool>, v: seq<bool>, w: seq<nat>, i: nat, n: nat)
    requires |u| == |v| == |w| && n <= |w| && i < |w|
    requires forall j :: 0 <= j < |u| && v[j] ==> u[j]
    ensures Others(v, w, i, n) <= Others(u, w, i, n)
    ensures Ahead(v, w, i, n) <= Ahead(u, w, i, n)
  {
    if n > 0 {
      FewerOthers(u, v, w, i, n - 1);
    }
  }

  lemma SameWeights(s: State, t: State)
    requires |s.paths| == |t.paths|
    requires forall j :: 0 <= j < |s.paths| ==> s.paths[j].weight == t.paths[j].weight
    ensures Weights(s.paths) == Weights(t.paths)
  {
  }

  // Whatever happened since the start, more shards than the longest wait reach path i.
  lemma LongBlocksReach(s: State, events: seq<Event>, n: nat, i: nat)
    requires Fresh(s) && i < |s.paths| && n > LongestWait(Usable(s.paths), Weights(s.paths), i)
    ensures Served(After(s, events), n, i)
  {
    var t := After(s, events);
    RunKeepsConfig(s, events);
    if t.paths[i].Usable() {
      var u, v, w := Usable(s.paths), Usable(t.paths), Weights(t.paths);
      UsableSome(t, i);
      SameWeights(s, t);
      SoundInRange(t);
      FewerOthers(u, v, w, i, |w|);
      WaitBound(v, w, t.credits, i);
      ServedExactly(v, w, t.credits, n, i);
    }
  }

  // ---------------------------------------------------------------------------------------
  // How the longest wait comes about.

  // Answers to probes of the first n paths in use, path i left out.
  function Answers(usable: seq<bool>, i: nat, n: nat): (r: seq<Event>)
    requires n <= |usable|
  {
    if n == 0 then []
    else Answers(usable, i, n - 1) + if usable[n - 1] && n - 1 != i then [Probe(n - 1, 0, true)] else []
  }

  // The credits after those answers.
  function Refilling(usable: seq<bool>, weights: seq<nat>, credits: seq<int>, i: nat, n: nat): (r: seq<int>)
    requires |usable| == |weights| == |credits| && n <= |usable|
    ensures |r| == |credits|
  {
    if n == 0 then credits
    else
      var r := Refilling(usable, weights, credits, i, n - 1);
      if usable[n - 1] && n - 1 != i then r[n - 1 := weights[n - 1]] else r
  }

  lemma {:induction false} RefillingAt(usable: seq<bool>, weights: seq<nat>, credits: seq<int>, i: nat, n: nat)
    requires |usable| == |weights| == |credits| && n <= |usable|
    ensures var r := Refilling(usable, weights, credits, i, n);
      forall j :: 0 <= j < |credits| ==> r[j] == if j < n && j != i && usable[j] then weights[j] else credits[j]
  {
    if n > 0 {
      RefillingAt(usable, weights, credits, i, n - 1);
    }
  }

  // The paths in use and their weights are u and w, and no probe has been lost.
  ghost predicate Quiet(s: State, u: seq<bool>, w: seq<nat>)
  {
    Sound(s) && NoLoss(s) && s.threshold > 0.0 && Usable(s.paths) == u && Weights(s.paths) == w
  }

  lemma AfterAnswer(s: State, u: seq<bool>, w: seq<nat>, j: nat)
    requires Quiet(s, u, w) && j < |u| && u[j]
    ensures var t := After(s, [Probe(j, 0, true)]);
      Quiet(t, u, w) && t.credits == s.credits[j := w[j]]
  {
    ProbedSound(s, j, 0, true);
    AnswerNeverKills(s, j, 0);
    AnswerKeepsZero(s.alpha, s.paths[j].loss);
    OneEvent(s, Probe(j, 0, true));
  }

  lemma OneMoreAnswer(s: State, u: seq<bool>, w: seq<nat>, before: seq<Event>, j: nat)
    requires Sound(s) && Quiet(After(s, before), u, w) && j < |u| && u[j]
    ensures var t := After(s, before + [Probe(j, 0, true)]);
      Quiet(t, u, w) && t.credits == After(s, before).credits[j := w[j]]
  {
    RunAppend(s, before, [Probe(j, 0, true)]);
    AfterAnswer(After(s, before), u, w, j);
  }

  lemma {:induction false} AfterAnswers(s: State, u: seq<bool>, w: seq<nat>, i: nat, n: nat)
    requires Quiet(s, u, w) && n <= |u| == |w| == |s.credits|
    ensures var t := After(s, Answers(u, i, n)); Quiet(t, u, w) && t.credits == Refilling(u, w, s.credits, i, n)
  {
    if n > 0 {
      AfterAnswers(s, u, w, i, n - 1);
      var before := Answers(u, i, n - 1);
      if u[n - 1] && n - 1 != i {
        var event := Probe(n - 1, 0, true);
        assert Answers(u, i, n) == before + [event];
        OneMoreAnswer(s, u, w, before, n - 1);
        assert Refilling(u, w, s.credits, i, n) == Refilling(u, w, s.credits, i, n - 1)[n - 1 := w[n - 1]];
      } else {
        assert Answers(u, i, n) == before;
        assert Refilling(u, w, s.credits, i, n) == Refilling(u, w, s.credits, i, n - 1);
      }
    }
  }

  lemma OneEvent(s: State, e: Event)
    requires Sound(s)
    ensures After(s, [e]) == Stepped(s, e)
  {
    assert [e][..0] == [];
  }

  lemma FullCredits(s: State)
    requires Fresh(s)
    ensures s.credits == Weights(s.paths)
    ensures Scheduler.InRange(Usable(s.paths), Weights(s.paths), s.credits)
  {
    SoundInRange(s);
  }

  // One period of calls from full credits spends the credit of every path in use.
  lemma SpentByPeriod(u: seq<bool>, w: seq<nat>, c: seq<int>)
    requires Scheduler.InRange(u, w, c) && Scheduler.SomeUsable(u) && c == w
    ensures Scheduler.Period(u, w) >= 0
    ensures var r := Scheduler.After(u, w, c, Scheduler.Period(u, w));
      Scheduler.Spent(u, r) && forall j :: 0 <= j < |u| && !u[j] ==> r[j] == w[j]
  {
    Scheduler.TotalSame(u, c, w, |u|);
    Scheduler.RunReachesRefill(u, w, c);
    Scheduler.RunKeepsRange(u, w, c, Scheduler.Period(u, w));
  }

  lemma StarvedIsWorst(u: seq<bool>, w: seq<nat>, spent: seq<int>, i: nat)
    requires |u| == |w| == |spent| && i < |u| && u[i] && Scheduler.Spent(u, spent)
    requires forall j :: 0 <= j < |u| && !u[j] ==> spent[j] == w[j]
    ensures Refilling(u, w, spent, i, |u|) == w[i := 0]
  {
    RefillingAt(u, w, spent, i, |u|);
  }

  // Any number of periods from spent credits leaves them as they are.
  lemma {:induction false} SpentStays(u: seq<bool>, w: seq<nat>, c: seq<int>, n: nat, m: nat)
    requires Scheduler.InRange(u, w, c) && Scheduler.SomeUsable(u) && Scheduler.Spent(u, c)
    requires Scheduler.Period(u, w) == n
    ensures Scheduler.After(u, w, c, n * m) == c
    decreases m
  {
    if m > 0 {
      SpentStays(u, w, c, n, m - 1);
      var i :| 0 <= i < |u| && u[i];
      Scheduler.OnePeriod(u, w, c, i);
      assert n * m == n + n * (m - 1);
      Scheduler.RunsCompose(u, w, c, n, n * (m - 1), i);
    }
  }

  // So do one or more from full credits leave them spent.
  lemma SpentByPeriods(u: seq<bool>, w: seq<nat>, c: seq<int>, n: nat, m: nat)
    requires Scheduler.InRange(u, w, c) && Scheduler.SomeUsable(u) && c == w && m >= 1
    requires Scheduler.Period(u, w) == n
    ensures var r := Scheduler.After(u, w, c, n * m);
      Scheduler.Spent(u, r) && forall j :: 0 <= j < |u| && !u[j] ==> r[j] == w[j]
  {
    SpentByPeriod(u, w, c);
    Scheduler.RunKeepsRange(u, w, c, n);
    SpentStays(u, w, Scheduler.After(u, w, c, n), n, m - 1);
    assert n * m == n + n * (m - 1);
    Scheduler.RunsCompose(u, w, c, n, n * (m - 1), 0);
  }

  // len calls spend all credit of the paths in use.
  ghost predicate Spends(u: seq<bool>, w: seq<nat>, len: nat)
  {
    && Scheduler.InRange(u, w, w) && Scheduler.SomeUsable(u)
    && var r := Scheduler.After(u, w, w, len); Scheduler.Spent(u, r) && forall j :: 0 <= j < |u| && !u[j] ==> r[j] == w[j]
  }

  lemma StarvedFrom(s: State, u: seq<bool>, w: seq<nat>, i: nat, len: nat)
    requires Quiet(s, u, w) && s.credits == w && i < |u| && u[i] && Spends(u, w, len)
    ensures var t := After(s, Sends(len) + Answers(u, i, |u|)); Quiet(t, u, w) && t.credits == w[i := 0]
  {
    AfterSends(s, len);
    var mid := After(s, Sends(len));
    AfterAnswers(mid, u, w, i, |u|);
    RunAppend(s, Sends(len), Answers(u, i, |u|));
    StarvedIsWorst(u, w, mid.credits, i);
  }

  // ---------------------------------------------------------------------------------------
  // Shards are sent in whole blocks, and probes are answered or lost between blocks.

  datatype Happening = Flushed | Heard(path: int, rttUs: nat, received: bool)

  // The events of a history of blocks of n shards.
  function Unrolled(history: seq<Happening>, n: nat): (r: seq<Event>)
  {
    if history == [] then []
    else
      var e := history[|history| - 1];
      Unrolled(history[..|history| - 1], n) + if e.Flushed? then Sends(n) else [Probe(e.path, e.rttUs, e.received)]
  }

  lemma {:induction false} UnrolledBoth(a: seq<Happening>, b: seq<Happening>, n: nat)
    ensures Unrolled(a + b, n) == Unrolled(a, n) + Unrolled(b, n)
    decreases |b|
  {
    if b == [] {
      assert a + b == a;
    } else {
      assert (a + b)[..|a + b| - 1] == a + b[..|b| - 1];
      UnrolledBoth(a, b[..|b| - 1], n);
    }
  }

  function Blocks(m: nat): (r: seq<Happening>)
    ensures |r| == m
  {
    if m == 0 then [] else Blocks(m - 1) + [Flushed]
  }

  lemma {:induction false} MoreSends(m: nat, n: nat)
    ensures Sends(m) + Sends(n) == Sends(m + n)
    decreases n
  {
    if n > 0 {
      MoreSends(m, n - 1);
    }
  }

  lemma {:induction false} UnrolledBlocks(m: nat, n: nat)
    ensures Unrolled(Blocks(m), n) == Sends(m * n)
  {
    if m > 0 {
      UnrolledBlocks(m - 1, n);
      assert Blocks(m)[..m - 1] == Blocks(m - 1);
      MoreSends((m - 1) * n, n);
      assert m * n == (m - 1) * n + n;
    }
  }

  // The answers as a history.
  function Echoes(usable: seq<bool>, i: nat, m: nat): (r: seq<Happening>)
    requires m <= |usable|
  {
    if m == 0 then []
    else Echoes(usable, i, m - 1) + if usable[m - 1] && m - 1 != i then [Heard(m - 1, 0, true)] else []
  }

  lemma {:induction false} UnrolledEchoes(usable: seq<bool>, i: nat, m: nat, n: nat)
    requires m <= |usable|
    ensures Unrolled(Echoes(usable, i, m), n) == Answers(usable, i, m)
  {
    if m > 0 {
      UnrolledEchoes(usable, i, m - 1, n);
      if usable[m - 1] && m - 1 != i {
        var e := Heard(m - 1, 0, true);
        UnrolledBoth(Echoes(usable, i, m - 1), [e], n);
        UnrolledEcho(e, n);
      } else {
        assert Echoes(usable, i, m) == Echoes(usable, i, m - 1);
        assert Answers(usable, i, m) == Answers(usable, i, m - 1);
      }
    }
  }

  lemma UnrolledEcho(e: Happening, n: nat)
    requires e.Heard?
    ensures Unrolled([e], n) == [Probe(e.path, e.rttUs, e.received)]
  {
    assert [e][..0] == [];
  }

  // As many blocks as the weights add up to spend every credit; then answers refill all but that
  // of path i.
  ghost function Starving(u: seq<bool>, w: seq<nat>, i: nat): (r: seq<Happening>)
    requires |u| == |w| && Scheduler.Period(u, w) >= 0
  {
    Blocks(Scheduler.Period(u, w)) + Echoes(u, i, |u|)
  }

  // The longest wait comes about.
  lemma StarvedCredits(s: State, n: nat, i: nat)
    requires Fresh(s) && s.threshold > 0.0 && i < |s.paths| && s.paths[i].enabled && n >= 1
    ensures Scheduler.Period(Usable(s.paths), Weights(s.paths)) >= 0
    ensures var u, w := Usable(s.paths), Weights(s.paths); var t := After(s, Unrolled(Starving(u, w, i), n));
      Quiet(t, u, w) && t.credits == w[i := 0]
  {
    var u, w := Usable(s.paths), Weights(s.paths);
    assert u[i];
    FullCredits(s);
    SpentByPeriod(u, w, s.credits);
    var period := Scheduler.Period(u, w);
    UnrolledBoth(Blocks(period), Echoes(u, i, |u|), n);
    UnrolledBlocks(period, n);
    UnrolledEchoes(u, i, |u|, n);
    SpentByPeriods(u, w, s.credits, period, n);
    StarvedFrom(s, u, w, i, period * n);
  }

  // Every block of n shards reaches path i whenever the path is in use, whatever blocks of n shards
  // were sent and whichever probes were answered or lost between them since the start, exactly when
  // n exceeds the longest wait.  Without a positive threshold, no probe refills a credit
  // (ProbesRefillAboveZeroOnly), and the longest wait need not come about.
  lemma CoverageReachably(s: State, n: nat, i: nat)
    requires Fresh(s) && s.threshold > 0.0 && i < |s.paths| && s.paths[i].enabled
    ensures (forall history: seq<Happening> :: Served(After(s, Unrolled(history, n)), n, i))
      <==> n > LongestWait(Usable(s.paths), Weights(s.paths), i)
  {
    var u, w := Usable(s.paths), Weights(s.paths);
    if n > LongestWait(u, w, i) {
      forall history: seq<Happening>
        ensures Served(After(s, Unrolled(history, n)), n, i)
      {
        LongBlocksReach(s, Unrolled(history, n), n, i);
      }
    } else if n == 0 {
      NothingServes(s, i);
    } else {
      StarvedCredits(s, n, i);
      StarvedIsNotServed(After(s, Unrolled(Starving(u, w, i), n)), n, i);
    }
  }

  lemma NothingServes(s: State, i: nat)
    requires Fresh(s) && i < |s.paths| && s.paths[i].enabled
    ensures !Served(After(s, Unrolled([], 0)), 0, i)
  {
  }

  lemma StarvedIsNotServed(t: State, n: nat, i: nat)
    requires Sound(t) && i < |t.paths| && t.credits == Weights(t.paths)[i := 0] && Usable(t.paths)[i]
    requires n <= LongestWait(Usable(t.paths), Weights(t.paths), i)
    ensures !Served(t, n, i)
  {
    var u, w := Usable(t.paths), Weights(t.paths);
    UsableSome(t, i);
    SoundInRange(t);
    SumBound(u, w, t.credits, i, |u|);
    ServedExactly(u, w, t.credits, n, i);
  }

  // README.md (line 508) expects k * ratio >= N shards to reach all N paths.  They do not even
  // with two paths of weight one: a block of two shards is sent, a probe of the first path is
  // answered, and the next block of two shards misses the second path.
  lemma TwoShardsMissThePath(s: State, events: seq<Event>)
    requires events == [Send, Send, Probe(0, 0, true)]
    requires Fresh(s) && s.threshold > 0.0 && |s.paths| == 2
    requires s.paths[0].enabled && s.paths[1].enabled && Shares(s.paths[0].weight) == 1 == Shares(s.paths[1].weight)
    ensures var t := After(s, events);
      && t.credits == [1, 0] && |t.paths| == 2 && t.paths[1].Usable()
      && !Served(t, 2, 1)
  {
    var u, w := Usable(s.paths), Weights(s.paths);
    assert u == [true, true] && w == [1, 1];
    FullCredits(s);
    TwoPaths();
    SpentByPeriods(u, w, s.credits, 2, 1);
    StarvedFrom(s, u, w, 1, 2);
    StarvingTwo();
    assert w[1 := 0] == [1, 0];
    var t := After(s, events);
    assert Usable(t.paths)[1];
    StarvedIsNotServed(t, 2, 1);
  }

  lemma StarvingTwo()
    ensures Sends(2) + Answers([true, true], 1, 2) == [Send, Send, Probe(0, 0, true)]
  {
    var u := [true, true];
    assert Sends(1) == [Send];
    assert Answers(u, 1, 0) == [] && Answers(u, 1, 1) == [Probe(0, 0, true)];
  }

  lemma TwoPaths()
    ensures Scheduler.Period([true, true], [1, 1]) == 2
    ensures LongestWait([true, true], [1, 1], 1) == 2
  {
    var u, w := [true, true], [1, 1];
    assert Scheduler.Total(u, w, 0) == 0 && Scheduler.Total(u, w, 1) == 1;
    assert Others(u, w, 1, 0) == 0 && Others(u, w, 1, 1) == 1 && Others(u, w, 1, 2) == 1;
    assert Lead(u, w, 1, 0) == 1 && Lead(u, w, 1, 1) == 0;
    assert Ahead(u, w, 1, 0) == 0 && Ahead(u, w, 1, 1) == 1;
  }
}
