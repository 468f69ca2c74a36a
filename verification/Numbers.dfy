/**
 The numbers of src/strategy.c, spelt out in terms of the configuration: what a weight is worth,
 how many shards a block gets, and what probes measure.
 */
module Numbers {
  import opened Codec
  import Scheduler
  import opened Strategy
  import Tx

  // ---------------------------------------------------------------------------------------
  // Weights.

  // The whole number nearest to a weight, halves going up, but at least one.
  ghost predicate IsNearest(n: nat, weight: real)
  {
    if weight < 0.5 then n == 1 else n as real - 0.5 <= weight < n as real + 0.5
  }

  // That is what a weight is worth.
  lemma SharesExactly(weight: real, n: nat)
    ensures n == Shares(weight) <==> IsNearest(n, weight)
  {
    if weight >= 0.5 {
      FloorOf(weight + 0.5);
    } else if weight < 0.0 {
      FloorOf(0.5 - weight);
    }
  }

  lemma FloorOf(x: real)
    ensures x.Floor as real <= x < x.Floor as real + 1.0
  {
  }

  lemma WholeWeight(w: nat)
    requires w >= 1
    ensures Shares(w as real) == w
  {
    SharesExactly(w as real, w);
  }

  // The path is in use and its weight is the whole number w.
  ghost predicate HasWeight(s: State, i: nat, w: nat)
  {
    i < |s.paths| && s.paths[i].enabled && s.paths[i].alive && s.paths[i].weight == w as real && w >= 1
  }

  // How often the next n calls of `strategy_next_path` return path i.
  ghost function Served(s: State, n: nat, i: nat): nat
    requires Sound(s)
  {
    if AnyPath(s) then Scheduler.Picks(Usable(s.paths), Weights(s.paths), s.credits, n, i) else 0
  }

  // The sum of the weights, as whole numbers, of the paths in use.
  ghost function WeightSum(s: State): int
  {
    Scheduler.Period(Usable(s.paths), Weights(s.paths))
  }

  ghost predicate SpentBy(s: State, m: nat)
    requires Sound(s)
  {
    Scheduler.CreditSum(Usable(s.paths), s.credits) <= m
  }

  // Weighted round robin in terms of the configured weights: once the initial credit is spent,
  // every stretch of as many calls as the weights add up to returns each path in use as often as
  // its weight says.
  lemma WeightedFairness(s: State, m: nat, i: nat)
    requires Sound(s) && SpentBy(s, m) && i < |s.paths| && s.paths[i].Usable()
    ensures WeightSum(s) >= 1 && IsNearest(Served(After(s, Sends(m)), WeightSum(s), i), s.paths[i].weight)
  {
    assert Usable(s.paths)[i];
    SoundInRange(s);
    AfterSends(s, m);
    SharesExactly(s.paths[i].weight, Shares(s.paths[i].weight));
    Scheduler.Fairness(Usable(s.paths), Weights(s.paths), s.credits, m, i);
  }

  // Every path in use has full credit, as after initialisation and after a reload.
  ghost predicate FullCredit(s: State)
    requires Sound(s)
  {
    forall i :: 0 <= i < |s.paths| && s.paths[i].Usable() ==> s.credits[i] == Shares(s.paths[i].weight)
  }

  // Then the first such stretch does so too.
  lemma FirstPeriodIsFair(s: State, i: nat)
    requires Sound(s) && FullCredit(s) && i < |s.paths| && s.paths[i].Usable()
    ensures WeightSum(s) >= 1 && IsNearest(Served(s, WeightSum(s), i), s.paths[i].weight)
  {
    var u, ws, n := Usable(s.paths), Weights(s.paths), WeightSum(s);
    assert u[i];
    SoundInRange(s);
    SharesExactly(s.paths[i].weight, Shares(s.paths[i].weight));
    Scheduler.PeriodPositive(u, ws, s.credits);
    Scheduler.TotalSame(u, s.credits, ws, |s.credits|);
    Scheduler.RunSpendsCredit(u, ws, s.credits, n, i);
    Scheduler.RunKeepsRange(u, ws, s.credits, n);
    Scheduler.SumOfCredits(u, ws, Scheduler.After(u, ws, s.credits, n));
  }

  lemma NearestIsWhole(n: nat, w: nat)
    requires w >= 1 && IsNearest(n, w as real)
    ensures n == w
  {
  }

  lemma ServedInTurn(s: State, m: nat, n: nat, i: nat)
    requires Sound(s)
    ensures Served(s, m + n, i) == Served(s, m, i) + Served(After(s, Sends(m)), n, i)
  {
    if AnyPath(s) {
      AfterSends(s, m);
      Scheduler.RunsCompose(Usable(s.paths), Weights(s.paths), s.credits, m, n, i);
    } else {
      UnusableStays(s, m);
    }
  }

  lemma CreditIsSpent(s: State)
    requires Sound(s)
    ensures SpentBy(s, if WeightSum(s) < 0 then 0 else WeightSum(s))
  {
    SoundInRange(s);
    Scheduler.SumOfCredits(Usable(s.paths), Weights(s.paths), s.credits);
  }

  // The first two periods.
  lemma TwoPeriods(s: State, i: nat, p: nat, w: nat)
    requires Sound(s) && FullCredit(s) && HasWeight(s, i, w) && p == WeightSum(s)
    ensures Served(s, p + p, i) == w + w
  {
    FirstPeriodIsFair(s, i);
    NearestIsWhole(Served(s, p, i), w);
    CreditIsSpent(s);
    WeightedFairness(s, p, i);
    NearestIsWhole(Served(After(s, Sends(p)), p, i), w);
    ServedInTurn(s, p, p, i);
  }

  // Two paths of weight 2 and 1: of the first six calls, four return the first path and two the
  // second.
  lemma TwoToOne(s: State, n: nat)
    requires Sound(s) && FullCredit(s) && |s.paths| == 2 && HasWeight(s, 0, 2) && HasWeight(s, 1, 1) && n == 6
    ensures Served(s, n, 0) == 4 && Served(s, n, 1) == 2
  {
    WholeWeight(2);
    WholeWeight(1);
    SumOfTwo(Usable(s.paths), Weights(s.paths));
    assert n == WeightSum(s) + WeightSum(s);
    TwoPeriods(s, 0, WeightSum(s), 2);
    TwoPeriods(s, 1, WeightSum(s), 1);
  }

  lemma SumOfTwo(u: seq<bool>, ws: seq<nat>)
    requires u == [true, true] && |ws| == 2
    ensures Scheduler.Period(u, ws) == ws[0] + ws[1]
  {
    assert Scheduler.Total(u, ws, 0) == 0;
    assert Scheduler.Total(u, ws, 1) == ws[0];
  }

  // ---------------------------------------------------------------------------------------
  // Redundancy.

  lemma CeilExactly(x: real, m: int)
    ensures Ceil(x) <= m <==> x <= m as real
  {
    FloorOf(-x);
  }

  lemma CountAtMost(k: nat, ratio: real, m: nat)
    requires 1 <= k <= m < 32
    ensures ShardsFor(k, ratio) <= m <==> k as real * ratio <= m as real
  {
    CeilExactly(k as real * ratio, m);
  }

  lemma Regrouped(k: real, r: real, q: real, a: real)
    ensures (k * (r * q)) * a == (k * r) * (q * a)
  {
  }

  lemma TimesPositive(x: real, y: real, a: real)
    requires a > 0.0
    ensures x <= y <==> x * a <= y * a
  {
  }

  lemma TimesThree(k: nat, y: real, m: nat)
    requires k >= 1
    ensures k as real * AtMost(y, 3.0) <= m as real <==> k as real * y <= m as real || 3 * k <= m
  {
    if y > 3.0 {
      TimesMonotone(k as real, 3.0, y);
    } else {
      TimesMonotone(k as real, y, 3.0);
    }
  }

  lemma ScaledQuotient(k: nat, redundancy: real, alive: nat, total: nat, m: nat)
    requires alive > 0
    ensures k as real * Scaled(redundancy, Quotient(total, alive)) <= m as real
      <==> (k as real * redundancy) * total as real <= m as real * alive as real
  {
    var q, a := Quotient(total, alive), alive as real;
    QuotientTimes(total, alive);
    Regrouped(k as real, redundancy, q, a);
    TimesPositive(k as real * Scaled(redundancy, q), m as real, a);
  }

  ghost function InUse(paths: seq<PathState>, n: nat): set<nat>
    requires n <= |paths|
  {
    set i: nat | i < n && paths[i].enabled && paths[i].alive
  }

  ghost function Configured(paths: seq<PathState>, n: nat): set<nat>
    requires n <= |paths|
  {
    set i: nat | i < n && paths[i].enabled
  }

  lemma {:induction false} AliveCountIsSize(paths: seq<PathState>, n: nat)
    requires n <= |paths|
    ensures AliveCount(paths, n) == |InUse(paths, n)|
  {
    if n > 0 {
      var m := n - 1;
      AliveCountIsSize(paths, m);
      assert InUse(paths, n) == if paths[m].enabled && paths[m].alive then InUse(paths, m) + {m} else InUse(paths, m);
    }
  }

  lemma {:induction false} EnabledCountIsSize(paths: seq<PathState>, n: nat)
    requires n <= |paths|
    ensures EnabledCount(paths, n) == |Configured(paths, n)|
  {
    if n > 0 {
      var m := n - 1;
      EnabledCountIsSize(paths, m);
      assert Configured(paths, n) == if paths[m].enabled then Configured(paths, m) + {m} else Configured(paths, m);
    }
  }

  // For which m a block gets at most m shards.
  ghost predicate AtMostShards(k: nat, redundancy: real, alive: nat, total: nat, m: nat)
  {
    if alive == 0 then m >= 3 * k
    else if alive < total then (k as real * redundancy) * total as real <= m as real * alive as real || m >= 3 * k
    else k as real * redundancy <= m as real
  }

  // The number of shards of a block, up to the largest that fits: the redundancy grows with the
  // share of the paths that are down, up to three, which is also what it is when none is left.
  lemma ShardCountExactly(paths: seq<PathState>, redundancy: real, k: nat, m: nat)
    requires 1 <= k <= m < 32
    ensures ShardCount(redundancy, AliveCount(paths, |paths|), EnabledCount(paths, |paths|), k) <= m
      <==> AtMostShards(k, redundancy, |InUse(paths, |paths|)|, |Configured(paths, |paths|)|, m)
  {
    AliveCountIsSize(paths, |paths|);
    EnabledCountIsSize(paths, |paths|);
    AliveAreEnabled(paths, |paths|);
    CountForCounts(redundancy, AliveCount(paths, |paths|), EnabledCount(paths, |paths|), k, m);
  }

  lemma CountForCounts(redundancy: real, alive: nat, total: nat, k: nat, m: nat)
    requires 1 <= k <= m < 32 && alive <= total
    ensures ShardCount(redundancy, alive, total, k) <= m <==> AtMostShards(k, redundancy, alive, total, m)
  {
    CountAtMost(k, Ratio(redundancy, alive, total), m);
    if alive == 0 {
      assert k as real * 3.0 == (3 * k) as real;
    } else if alive < total {
      TimesThree(k, Scaled(redundancy, Quotient(total, alive)), m);
      ScaledQuotient(k, redundancy, alive, total, m);
    }
  }

  // So it is for a block that is flushed in state s.
  lemma BlockCountExactly(s: State, k: nat, m: nat)
    requires 1 <= k <= m < 32
    ensures Tx.ShardsOf(s, k) <= m
      <==> AtMostShards(k, s.redundancy, |InUse(s.paths, |s.paths|)|, |Configured(s.paths, |s.paths|)|, m)
  {
    ShardCountExactly(s.paths, s.redundancy, k, m);
  }

  // A ratio of 1.5 with one of two paths down: six shards for two packets instead of three.
  lemma HalfThePathsDown(paths: seq<PathState>)
    requires |InUse(paths, |paths|)| == 1 && |Configured(paths, |paths|)| == 2
    ensures ShardCount(1.5, AliveCount(paths, |paths|), EnabledCount(paths, |paths|), 2) == 6
  {
    ShardCountExactly(paths, 1.5, 2, 5);
    ShardCountExactly(paths, 1.5, 2, 6);
  }

  // ---------------------------------------------------------------------------------------
  // Reloads.

  // A path that the new configuration names takes over weight and switch, dies if it is disabled,
  // and has full credit if it is not; what was measured is kept.  Other paths are left alone.
  lemma ReloadTakesOver(s: State, cfg: Config, i: nat)
    requires Sound(s) && i < |s.paths|
    ensures var r := ReloadedState(s, cfg);
      && r.redundancy == cfg.redundancy && r.threshold == cfg.lossThreshold
      && |r.paths| == |r.credits| == |s.paths|
      && (i >= |cfg.paths| ==> r.paths[i] == s.paths[i] && r.credits[i] == s.credits[i])
      && (i < |cfg.paths| ==>
        var p, q := s.paths[i], r.paths[i];
        && q.weight == cfg.paths[i].weight && q.enabled == cfg.paths[i].enabled
        && (q.alive <==> p.alive && cfg.paths[i].enabled)
        && q.loss == p.loss && q.rttMs == p.rttMs && q.probesSent == p.probesSent && q.probesRecv == p.probesRecv
        && if q.enabled then r.credits[i] >= 0 && IsNearest(r.credits[i], cfg.paths[i].weight) else r.credits[i] == s.credits[i])
  {
    ReloadedAt(s, cfg, |s.paths|, i);
    if i < |cfg.paths| {
      SharesExactly(cfg.paths[i].weight, Shares(cfg.paths[i].weight));
    }
  }

  // The path is enabled by the new configuration and was alive.
  ghost predicate StaysInUse(s: State, cfg: Config, i: nat)
  {
    i < |s.paths| && i < |cfg.paths| && cfg.paths[i].enabled && s.paths[i].alive
  }

  // If all paths are named, the next period of calls serves each by its new weight.
  lemma NextPeriodIsNew(s: State, cfg: Config, i: nat)
    requires Sound(s) && |s.paths| <= |cfg.paths| && StaysInUse(s, cfg, i)
    ensures var r := ReloadedState(s, cfg);
      Sound(r) && WeightSum(r) >= 1 && IsNearest(Served(r, WeightSum(r), i), cfg.paths[i].weight)
  {
    var r := ReloadedState(s, cfg);
    ReloadedSound(s, cfg);
    forall j | 0 <= j < |r.paths| && r.paths[j].Usable()
      ensures r.credits[j] == Shares(r.paths[j].weight)
    {
      ReloadedAt(s, cfg, |s.paths|, j);
    }
    ReloadTakesOver(s, cfg, i);
    FirstPeriodIsFair(r, i);
  }

  // And the next block gets its shards by the new ratio and the new switches.
  lemma NextBlockIsNew(s: State, cfg: Config, k: nat, m: nat)
    requires Sound(s) && |s.paths| <= |cfg.paths| && 1 <= k <= m < 32
    ensures var r := ReloadedState(s, cfg);
      ShardCount(r.redundancy, AliveCount(r.paths, |r.paths|), EnabledCount(r.paths, |r.paths|), k) <= m
      <==> AtMostShards(k, cfg.redundancy,
                        |set i: nat | i < |s.paths| && StaysInUse(s, cfg, i)|,
                        |set i: nat | i < |s.paths| && cfg.paths[i].enabled|, m)
  {
    var r := ReloadedState(s, cfg);
    forall i: nat | i < |s.paths|
      ensures r.paths[i].enabled == cfg.paths[i].enabled && (r.paths[i].Usable() <==> StaysInUse(s, cfg, i))
    {
      ReloadTakesOver(s, cfg, i);
    }
    ShardCountExactly(r.paths, r.redundancy, k, m);
    assert InUse(r.paths, |r.paths|) == set i: nat | i < |s.paths| && StaysInUse(s, cfg, i);
    assert Configured(r.paths, |r.paths|) == set i: nat | i < |s.paths| && cfg.paths[i].enabled;
  }

  // ---------------------------------------------------------------------------------------
  // Smoothing.

  // A factor in (0,1] is kept, and every other one replaced by 0.2.
  lemma AlphaExactly(alpha: real)
    ensures CheckedAlpha(alpha) == if alpha <= 0.0 || alpha > 1.0 then 0.2 else alpha
  {
  }

  // The answers of path i, in order: their round-trip times.
  function Answers(i: nat, events: seq<Event>): (r: seq<nat>)
  {
    if events == [] then []
    else
      var r, e := Answers(i, events[..|events| - 1]), events[|events| - 1];
      if e.Probe? && e.path == i && e.received then r + [e.rttUs] else r
  }

  // Over every run of sends and probes of all paths the counters count, and answers alone move the
  // smoothed round-trip time.
  lemma {:induction false} ProbesAreCounted(s: State, events: seq<Event>, i: nat)
    requires Sound(s) && i < |s.paths|
    ensures var r := After(s, events);
      && |r.paths| == |s.paths|
      && r.paths[i].probesSent == s.paths[i].probesSent + |OutcomesOf(i, events)|
      && r.paths[i].probesRecv == s.paths[i].probesRecv + |Answers(i, events)|
    decreases |events|
  {
    if events != [] {
      ProbesAreCounted(s, events[..|events| - 1], i);
    }
  }

  ghost predicate AllTake(us: seq<nat>, rttUs: nat)
  {
    forall j :: 0 <= j < |us| ==> us[j] == rttUs
  }

  lemma Approach(alpha: real, prior: real, target: real)
    ensures Smoothed(alpha, prior, target) - target == Scaled(1.0 - alpha, prior - target)
  {
  }

  // How far the smoothed round-trip time is from what the answers measure, in milliseconds.
  ghost function Distance(p: PathState, rttUs: nat): real
  {
    p.rttMs - rttUs as real / 1000.0
  }

  lemma AnswerApproaches(s: State, e: Event, i: nat)
    requires Sound(s) && i < |s.paths|
    ensures |Stepped(s, e).paths| == |s.paths| && Stepped(s, e).alpha == s.alpha
    ensures Stepped(s, e).paths[i].rttMs
         == if e.Probe? && e.path == i && e.received then Smoothed(s.alpha, s.paths[i].rttMs, e.rttUs as real / 1000.0)
            else s.paths[i].rttMs
  {
  }

  // Answers that all take the same time bring the smoothed time closer to it, by the same factor
  // each; lost probes and those of other paths leave it alone.
  lemma {:induction false} RoundTripConverges(s: State, events: seq<Event>, i: nat, rttUs: nat)
    requires Sound(s) && i < |s.paths| && AllTake(Answers(i, events), rttUs)
    ensures var r := After(s, events);
      && |r.paths| == |s.paths| && r.alpha == s.alpha
      && Distance(r.paths[i], rttUs) == Decayed(1.0 - s.alpha, Distance(s.paths[i], rttUs), |Answers(i, events)|)
    decreases |events|
  {
    if events != [] {
      var before, e := events[..|events| - 1], events[|events| - 1];
      var us := Answers(i, before);
      assert us <= Answers(i, events);
      RoundTripConverges(s, before, i, rttUs);
      AnswerApproaches(After(s, before), e, i);
      if e.Probe? && e.path == i && e.received {
        assert Answers(i, events)[|us|] == e.rttUs;
        Approach(s.alpha, After(s, before).paths[i].rttMs, rttUs as real / 1000.0);
      }
    }
  }
}
