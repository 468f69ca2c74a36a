/**
 The context of src/strategy.c: which path takes the next shard, how many shards a block gets,
 and what probes do to the health of a path.  Floating-point numbers are modelled as reals.

 `State` is the context as a value; the class updates it in place as the source does.  A run
 interleaves picks and probe results in any way.
 */
module Strategy {
  import opened Codec
  import opened Scheduler

  const MAX_REDUNDANCY: real := 3.0
  const DEFAULT_ALPHA: real := 0.2

  datatype PathConfig = PathConfig(weight: real, enabled: bool)

  datatype Config = Config(paths: seq<PathConfig>, redundancy: real, lossThreshold: real, ewmaAlpha: real)

  // `loss` is the smoothed loss rate, `rttMs` the smoothed round-trip time.
  datatype PathState = PathState(weight: real, enabled: bool, alive: bool, loss: real, rttMs: real, probesSent: nat, probesRecv: nat)
  {
    predicate Usable() { enabled && alive }
  }

  datatype State = State(paths: seq<PathState>, credits: seq<int>, redundancy: real, threshold: real, alpha: real)

  // roundf: halves go away from zero.
  function Round(x: real): int
  {
    if x >= 0.0 then (x + 0.5).Floor else -((0.5 - x).Floor)
  }

  function Ceil(x: real): int
  {
    -((-x).Floor)
  }

  // The credit that a weight is worth.
  function Shares(weight: real): (r: nat)
    ensures r >= 1
  {
    if Round(weight) < 1 then 1 else Round(weight)
  }

  function CheckedAlpha(alpha: real): (r: real)
    ensures 0.0 < r <= 1.0
  {
    if 0.0 < alpha <= 1.0 then alpha else DEFAULT_ALPHA
  }

  function Usable(paths: seq<PathState>): (r: seq<bool>)
    ensures |r| == |paths|
    ensures forall i :: 0 <= i < |paths| ==> r[i] == paths[i].Usable()
  {
    if paths == [] then [] else Usable(paths[..|paths| - 1]) + [paths[|paths| - 1].Usable()]
  }

  function Weights(paths: seq<PathState>): (r: seq<nat>)
    ensures |r| == |paths|
    ensures forall i :: 0 <= i < |paths| ==> r[i] == Shares(paths[i].weight)
  {
    if paths == [] then [] else Weights(paths[..|paths| - 1]) + [Shares(paths[|paths| - 1].weight)]
  }

  // Loss rates are rates; an enabled path has no more credit than its weight is worth, and no
  // credit is negative.  (A disabled path may keep credit from a former weight.)
  ghost predicate Sound(s: State)
  {
    && |s.credits| == |s.paths|
    && 0.0 < s.alpha <= 1.0
    && forall i :: 0 <= i < |s.paths| ==>
      && 0.0 <= s.paths[i].loss <= 1.0
      && 0 <= s.credits[i]
      && (s.paths[i].enabled ==> s.credits[i] <= Shares(s.paths[i].weight))
  }

  // No probe has been lost.
  ghost predicate NoLoss(s: State)
  {
    forall i :: 0 <= i < |s.paths| ==> s.paths[i].loss == 0.0
  }

  // No path that was alive is marked dead.
  ghost predicate AliveKept(before: seq<PathState>, after: seq<PathState>)
  {
    |before| == |after| && forall j :: 0 <= j < |before| && before[j].alive ==> after[j].alive
  }

  // As initialised: every enabled path is alive, and every credit is full.
  ghost predicate Fresh(s: State)
  {
    && Sound(s) && NoLoss(s)
    && (forall i :: 0 <= i < |s.paths| ==> s.paths[i].alive == s.paths[i].enabled)
    && forall i :: 0 <= i < |s.paths| ==> s.credits[i] == Shares(s.paths[i].weight)
  }

  lemma SoundInRange(s: State)
    requires Sound(s)
    ensures InRange(Usable(s.paths), Weights(s.paths), s.credits)
  {
  }

  // ---------------------------------------------------------------------------------------
  // strategy_next_path

  ghost predicate AnyPath(s: State)
  {
    SomeUsable(Usable(s.paths))
  }

  ghost function Picked(s: State): (r: State)
    requires Sound(s)
  {
    if AnyPath(s) then s.(credits := Next(Usable(s.paths), Weights(s.paths), s.credits)) else s
  }

  // ---------------------------------------------------------------------------------------
  // strategy_update_probe

  function Smoothed(alpha: real, prior: real, observed: real): real
  {
    alpha * observed + (1.0 - alpha) * prior
  }

  function Scaled(b: real, x: real): real
  {
    b * x
  }

  function Loss(received: bool): real
  {
    if received then 0.0 else 1.0
  }

  // What one probe result does to the loss rate and to `alive`.
  datatype Health = Health(alive: bool, loss: real)

  function Observed(h: Health, alpha: real, threshold: real, received: bool): Health
  {
    var loss := Smoothed(alpha, h.loss, Loss(received));
    Health(if loss < threshold * 0.5 then true else if loss > threshold then false else h.alive, loss)
  }

  function HealthOf(p: PathState): Health
  {
    Health(p.alive, p.loss)
  }

  function ProbedPath(p: PathState, alpha: real, threshold: real, rttUs: nat, received: bool): (q: PathState)
    ensures HealthOf(q) == Observed(HealthOf(p), alpha, threshold, received)
    ensures q.weight == p.weight && q.enabled == p.enabled
  {
    var h := Observed(HealthOf(p), alpha, threshold, received);
    p.(alive := h.alive, loss := h.loss,
       rttMs := if received then Smoothed(alpha, p.rttMs, rttUs as real / 1000.0) else p.rttMs,
       probesSent := p.probesSent + 1, probesRecv := p.probesRecv + if received then 1 else 0)
  }

  function Probed(s: State, i: int, rttUs: nat, received: bool): (r: State)
    requires |s.credits| == |s.paths|
  {
    if i < 0 || i >= |s.paths| then s
    else
      var p := ProbedPath(s.paths[i], s.alpha, s.threshold, rttUs, received);
      s.(paths := s.paths[i := p],
         credits := if p.loss < s.threshold * 0.5 then s.credits[i := Shares(p.weight)] else s.credits)
  }

  lemma ProductNonNegative(a: real, b: real)
    requires 0.0 <= a && 0.0 <= b
    ensures 0.0 <= a * b
  {
  }

  lemma TimesMonotone(c: real, x: real, y: real)
    requires 0.0 <= c && x <= y
    ensures c * x <= c * y
  {
    ProductNonNegative(c, y - x);
    assert c * (y - x) == c * y - c * x;
  }

  lemma Complement(b: real, y: real)
    ensures b * (1.0 - y) == b - b * y
  {
  }

  // A success lets the loss decay, a loss lets its complement decay.
  lemma SmoothedDecays(alpha: real, b: real, loss: real, received: bool)
    requires b == 1.0 - alpha
    ensures Smoothed(alpha, loss, Loss(received)) == if received then b * loss else 1.0 - b * (1.0 - loss)
  {
  }

  lemma LowStep(alpha: real, b: real, low: real, loss: real, received: bool)
    requires 0.0 <= b < 1.0 && b == 1.0 - alpha && low <= loss
    ensures Scaled(b, low) <= Smoothed(alpha, loss, Loss(received))
    ensures received && loss == low ==> Smoothed(alpha, loss, Loss(received)) == Scaled(b, low)
  {
    SmoothedDecays(alpha, b, loss, received);
    TimesMonotone(b, low, loss);
    Complement(b, loss);
  }

  lemma HighStep(alpha: real, b: real, high: real, loss: real, received: bool)
    requires 0.0 <= b < 1.0 && b == 1.0 - alpha && high <= 1.0 - loss
    ensures Smoothed(alpha, loss, Loss(received)) <= 1.0 - Scaled(b, high)
    ensures !received && high == 1.0 - loss ==> Smoothed(alpha, loss, Loss(received)) == 1.0 - Scaled(b, high)
  {
    SmoothedDecays(alpha, b, loss, received);
    TimesMonotone(b, high, 1.0 - loss);
    Complement(b, loss);
  }

  lemma SmoothedBetween(alpha: real, loss: real, received: bool)
    requires 0.0 < alpha <= 1.0 && 0.0 <= loss <= 1.0
    ensures 0.0 <= Smoothed(alpha, loss, Loss(received)) <= 1.0
  {
    LowStep(alpha, 1.0 - alpha, 0.0, loss, received);
    HighStep(alpha, 1.0 - alpha, 0.0, loss, received);
  }

  lemma ProbedSound(s: State, i: int, rttUs: nat, received: bool)
    requires Sound(s)
    ensures Sound(Probed(s, i, rttUs, received))
  {
    if 0 <= i < |s.paths| {
      SmoothedBetween(s.alpha, s.paths[i].loss, received);
    }
  }

  lemma PickedSound(s: State)
    requires Sound(s)
    ensures Sound(Picked(s))
  {
    if AnyPath(s) {
      SoundInRange(s);
      NextSound(s);
    }
  }

  lemma NextSound(s: State)
    requires Sound(s) && InRange(Usable(s.paths), Weights(s.paths), s.credits) && AnyPath(s)
    ensures Sound(s.(credits := Next(Usable(s.paths), Weights(s.paths), s.credits)))
  {
    var u, w := Usable(s.paths), Weights(s.paths);
    CallKeepsRange(u, w, s.credits);
    var c := Next(u, w, s.credits);
    forall i | 0 <= i < |s.paths|
      ensures 0 <= c[i] && (s.paths[i].enabled ==> c[i] <= Shares(s.paths[i].weight))
    {
      if u[i] {
        assert c[i] <= w[i];
      } else {
        assert c[i] == s.credits[i];
      }
    }
  }

  // ---------------------------------------------------------------------------------------
  // The class.

  class Context {
    var paths: seq<PathState>
    var credits: seq<int>
    var redundancy: real
    var threshold: real
    var alpha: real

    ghost function Now(): State
      reads this
    {
      State(paths, credits, redundancy, threshold, alpha)
    }

    ghost predicate Valid()
      reads this
    {
      Sound(Now())
    }

    // strategy_init
    constructor (cfg: Config)
      ensures Valid() && Fresh(Now())
      ensures redundancy == cfg.redundancy && threshold == cfg.lossThreshold && alpha == CheckedAlpha(cfg.ewmaAlpha)
      ensures |paths| == |cfg.paths|
      ensures forall i :: 0 <= i < |cfg.paths| ==>
        && paths[i] == PathState(cfg.paths[i].weight, cfg.paths[i].enabled, cfg.paths[i].enabled, 0.0, 5.0, 0, 0)
        && credits[i] == Shares(cfg.paths[i].weight)
    {
      redundancy := cfg.redundancy;
      threshold := cfg.lossThreshold;
      alpha := CheckedAlpha(cfg.ewmaAlpha);
      paths, credits := [], [];
      new;
      for i := 0 to |cfg.paths|
        invariant |paths| == |credits| == i
        invariant redundancy == cfg.redundancy && threshold == cfg.lossThreshold && alpha == CheckedAlpha(cfg.ewmaAlpha)
        invariant forall j :: 0 <= j < i ==>
          && paths[j] == PathState(cfg.paths[j].weight, cfg.paths[j].enabled, cfg.paths[j].enabled, 0.0, 5.0, 0, 0)
          && credits[j] == Shares(cfg.paths[j].weight)
      {
        var p := cfg.paths[i];
        paths := paths + [PathState(p.weight, p.enabled, p.enabled, 0.0, 5.0, 0, 0)];
        credits := credits + [Shares(p.weight)];
      }
    }

    // strategy_next_path: the index of a path, or -1.
    method NextPath() returns (best: int)
      requires Valid()
      modifies this`credits
      ensures Valid() && Now() == Picked(old(Now()))
      ensures best == if AnyPath(old(Now())) then Pick(Usable(paths), Weights(paths), old(credits)) else -1
    {
      ghost var s, u, w := Now(), Usable(paths), Weights(paths);
      PickedSound(s);
      var any := IsAnyUsable();
      if !any {
        return -1;
      }
      Refill();
      best := HighestCredit();
      BestIsHighest(u, credits, |credits|);
      credits := credits[best := credits[best] - 1];
    }

    method IsAnyUsable() returns (any: bool)
      ensures any <==> AnyPath(Now())
    {
      for i := 0 to |paths|
        invariant forall j :: 0 <= j < i ==> !paths[j].Usable()
      {
        if paths[i].Usable() {
          assert Usable(paths)[i];
          return true;
        }
      }
      return false;
    }

    method IsSpent() returns (spent: bool)
      requires |credits| == |paths|
      ensures spent <==> NeedsRefill(Usable(paths), credits)
    {
      for i := 0 to |paths|
        invariant forall j :: 0 <= j < i && paths[j].Usable() ==> credits[j] <= 0
      {
        if paths[i].Usable() && credits[i] > 0 {
          assert Usable(paths)[i];
          return false;
        }
      }
      return true;
    }

    // Refills the credits of all usable paths if none is left.
    method Refill()
      requires |credits| == |paths|
      modifies this`credits
      ensures credits == Topped(Usable(paths), Weights(paths), old(credits))
    {
      var spent := IsSpent();
      if spent {
        ghost var u, w, before := Usable(paths), Weights(paths), credits;
        for i := 0 to |paths|
          invariant |credits| == |paths| && credits == Refilled(u, w, before, i)
        {
          if paths[i].Usable() {
            credits := credits[i := Shares(paths[i].weight)];
          }
        }
      }
    }

    method HighestCredit() returns (best: int)
      requires |credits| == |paths|
      ensures best == Best(Usable(paths), credits, |paths|)
    {
      best := -1;
      for i := 0 to |paths|
        invariant best == Best(Usable(paths), credits, i)
      {
        if paths[i].Usable() && (best == -1 || credits[i] > credits[best]) {
          best := i;
        }
      }
    }

    // strategy_compute_n
    method ComputeN(k: int) returns (n: int)
      ensures n == if k < 1 then -1 else ShardCount(redundancy, AliveCount(paths, |paths|), EnabledCount(paths, |paths|), k)
    {
      if k < 1 {
        return -1;
      }
      var alive, total := 0, 0;
      for i := 0 to |paths|
        invariant alive == AliveCount(paths, i) && total == EnabledCount(paths, i)
      {
        if paths[i].enabled {
          total := total + 1;
          if paths[i].alive {
            alive := alive + 1;
          }
        }
      }
      var ratio := EffectiveRatio(alive, total);
      n := Shards(k, ratio);
    }

    // The number of shards at a ratio: rounded up, not below k, and not more than fit.
    method Shards(k: int, ratio: real) returns (n: int)
      requires k >= 1
      ensures n == ShardsFor(k, ratio)
    {
      n := Ceil(k as real * ratio);
      if n < k {
        n := k;
      }
      if n > MAX_N {
        n := MAX_N;
      }
    }

    method EffectiveRatio(alive: nat, total: nat) returns (ratio: real)
      ensures ratio == Ratio(redundancy, alive, total)
    {
      ratio := redundancy;
      if alive == 0 {
        ratio := MAX_REDUNDANCY;
      } else if alive < total {
        ratio := redundancy * (total as real / alive as real);
        if ratio > MAX_REDUNDANCY {
          ratio := MAX_REDUNDANCY;
        }
      }
    }

    // strategy_update_probe
    method UpdateProbe(i: int, rttUs: nat, received: bool)
      requires Valid()
      modifies this`paths, this`credits
      ensures Valid() && Now() == Probed(old(Now()), i, rttUs, received)
    {
      ProbedSound(Now(), i, rttUs, received);
      if i < 0 || i >= |paths| {
        return;
      }
      var p := paths[i].(probesSent := paths[i].probesSent + 1);
      if received {
        p := p.(probesRecv := p.probesRecv + 1, rttMs := Smoothed(alpha, p.rttMs, rttUs as real / 1000.0));
      }
      var observed := Loss(received);
      p := p.(loss := Smoothed(alpha, p.loss, observed));
      if p.loss > threshold {
        p := p.(alive := false);
      }
      if p.loss < threshold * 0.5 {
        p := p.(alive := true);
        credits := credits[i := Shares(p.weight)];
      }
      paths := paths[i := p];
    }

    // strategy_reload: runtime state is kept, and credits are refilled for the new weights.
    method Reload(cfg: Config)
      requires Valid()
      modifies this
      ensures Valid() && Now() == ReloadedState(old(Now()), cfg)
    {
      redundancy := cfg.redundancy;
      threshold := cfg.lossThreshold;
      alpha := CheckedAlpha(cfg.ewmaAlpha);
      var i := 0;
      while i < |paths| && i < |cfg.paths|
        invariant 0 <= i <= |cfg.paths|
        invariant |paths| == |credits| == |old(paths)| && i <= |paths|
        invariant redundancy == cfg.redundancy && threshold == cfg.lossThreshold && alpha == CheckedAlpha(cfg.ewmaAlpha)
        invariant forall j :: 0 <= j < |paths| ==>
          (paths[j], credits[j]) == ReloadedPath(old(paths[j]), old(credits[j]), cfg.paths, j, i)
      {
        var c := cfg.paths[i];
        var p := paths[i].(weight := c.weight, enabled := c.enabled);
        if !c.enabled {
          p := p.(alive := false);
        } else {
          credits := credits[i := Shares(c.weight)];
        }
        paths := paths[i := p];
        i := i + 1;
      }
      ReloadedAll(old(Now()), Now(), cfg);
    }
  }

  // The first n paths with their entries of a new configuration, and their credits.
  function ReloadedPaths(s: State, cfg: Config, n: nat): (r: seq<PathState>)
    requires n <= |s.paths| == |s.credits|
    ensures |r| == n
  {
    if n == 0 then []
    else ReloadedPaths(s, cfg, n - 1) + [ReloadedPath(s.paths[n - 1], s.credits[n - 1], cfg.paths, n - 1, |cfg.paths|).0]
  }

  function ReloadedCredits(s: State, cfg: Config, n: nat): (r: seq<int>)
    requires n <= |s.paths| == |s.credits|
    ensures |r| == n
  {
    if n == 0 then []
    else ReloadedCredits(s, cfg, n - 1) + [ReloadedPath(s.paths[n - 1], s.credits[n - 1], cfg.paths, n - 1, |cfg.paths|).1]
  }

  function ReloadedState(s: State, cfg: Config): State
    requires |s.paths| == |s.credits|
  {
    State(ReloadedPaths(s, cfg, |s.paths|), ReloadedCredits(s, cfg, |s.paths|),
          cfg.redundancy, cfg.lossThreshold, CheckedAlpha(cfg.ewmaAlpha))
  }

  lemma {:induction false} ReloadedAt(s: State, cfg: Config, n: nat, j: nat)
    requires j < n <= |s.paths| == |s.credits|
    ensures (ReloadedPaths(s, cfg, n)[j], ReloadedCredits(s, cfg, n)[j])
         == ReloadedPath(s.paths[j], s.credits[j], cfg.paths, j, |cfg.paths|)
  {
    if j < n - 1 {
      ReloadedAt(s, cfg, n - 1, j);
    }
  }

  lemma ReloadedAll(s: State, r: State, cfg: Config)
    requires |s.credits| == |s.paths| == |r.paths| == |r.credits|
    requires r.redundancy == cfg.redundancy && r.threshold == cfg.lossThreshold && r.alpha == CheckedAlpha(cfg.ewmaAlpha)
    requires forall j :: 0 <= j < |r.paths| ==>
      (r.paths[j], r.credits[j]) == ReloadedPath(s.paths[j], s.credits[j], cfg.paths, j, |cfg.paths|)
    ensures r == ReloadedState(s, cfg)
  {
    var t := ReloadedState(s, cfg);
    forall j | 0 <= j < |r.paths|
      ensures r.paths[j] == t.paths[j] && r.credits[j] == t.credits[j]
    {
      ReloadedAt(s, cfg, |s.paths|, j);
    }
    assert r.paths == t.paths && r.credits == t.credits;
  }

  // What a path takes over, and what it keeps.
  lemma ReloadedSound(s: State, cfg: Config)
    requires Sound(s)
    ensures Sound(ReloadedState(s, cfg))
  {
    var r := ReloadedState(s, cfg);
    forall j | 0 <= j < |s.paths|
      ensures 0.0 <= r.paths[j].loss <= 1.0 && 0 <= r.credits[j]
      ensures r.paths[j].enabled ==> r.credits[j] <= Shares(r.paths[j].weight)
    {
      ReloadedAt(s, cfg, |s.paths|, j);
    }
  }

  // A path and its credit after the first n entries of a new configuration are taken over.
  function ReloadedPath(p: PathState, credit: int, cs: seq<PathConfig>, j: nat, n: nat): (PathState, int)
    requires n <= |cs|
  {
    if j >= n then (p, credit)
    else
      (p.(weight := cs[j].weight, enabled := cs[j].enabled, alive := p.alive && cs[j].enabled),
       if cs[j].enabled then Shares(cs[j].weight) else credit)
  }

  // ---------------------------------------------------------------------------------------
  // How many shards a block gets.

  function EnabledCount(paths: seq<PathState>, n: nat): (r: nat)
    requires n <= |paths|
  {
    if n == 0 then 0 else EnabledCount(paths, n - 1) + if paths[n - 1].enabled then 1 else 0
  }

  function AliveCount(paths: seq<PathState>, n: nat): (r: nat)
    requires n <= |paths|
  {
    if n == 0 then 0 else AliveCount(paths, n - 1) + if paths[n - 1].Usable() then 1 else 0
  }

  lemma {:induction false} AliveAreEnabled(paths: seq<PathState>, n: nat)
    requires n <= |paths|
    ensures AliveCount(paths, n) <= EnabledCount(paths, n)
  {
    if n > 0 {
      AliveAreEnabled(paths, n - 1);
    }
  }

  function Ratio(redundancy: real, alive: nat, total: nat): real
  {
    if alive == 0 then MAX_REDUNDANCY
    else if alive < total then AtMost(Scaled(redundancy, Quotient(total, alive)), MAX_REDUNDANCY)
    else redundancy
  }

  function Quotient(total: nat, alive: nat): real
    requires alive > 0
  {
    total as real / alive as real
  }

  function AtMost(x: real, bound: real): real
  {
    if x > bound then bound else x
  }

  function Clamped(n: int, k: nat): int
  {
    var m := if n < k then k else n;
    if m > MAX_N then MAX_N else m
  }

  function ShardsFor(k: int, ratio: real): int
    requires k >= 1
  {
    Clamped(Ceil(k as real * ratio), k)
  }

  function ShardCount(redundancy: real, alive: nat, total: nat, k: int): int
    requires k >= 1
  {
    ShardsFor(k, Ratio(redundancy, alive, total))
  }

  // A block is never encoded into fewer than k shards, nor into more than fit.
  lemma ShardCountRange(redundancy: real, alive: nat, total: nat, k: nat)
    requires 1 <= k <= MAX_K
    ensures k <= ShardCount(redundancy, alive, total, k) <= MAX_N
  {
  }

  lemma CeilMonotone(x: real, y: real)
    requires x <= y
    ensures Ceil(x) <= Ceil(y)
  {
  }

  // q * a = t = p * b
  lemma QuotientTimes(total: nat, alive: nat)
    requires alive > 0
    ensures Scaled(Quotient(total, alive), alive as real) == total as real
  {
  }

  lemma LargerQuotient(q: real, p: real, a: real, b: real)
    requires 0.0 < a <= b && 0.0 <= q && Scaled(q, b) == Scaled(p, a)
    ensures q <= p
  {
    if p < q {
      SmallerProduct(p, q, a);
      ScaledMonotone(q, a, b);
    }
  }

  lemma SmallerProduct(p: real, q: real, a: real)
    requires p < q && 0.0 < a
    ensures Scaled(p, a) < Scaled(q, a)
  {
  }

  lemma QuotientNonNegative(total: nat, alive: nat)
    requires alive > 0
    ensures Quotient(total, alive) >= 0.0
  {
  }

  lemma Quotients(total: nat, fewer: nat, more: nat)
    requires 0 < fewer <= more <= total
    ensures 1.0 <= Quotient(total, more) <= Quotient(total, fewer)
  {
    QuotientTimes(total, fewer);
    QuotientTimes(total, more);
    QuotientNonNegative(total, more);
    LargerQuotient(Quotient(total, more), Quotient(total, fewer), fewer as real, more as real);
    LargerQuotient(1.0, Quotient(total, more), more as real, total as real);
  }

  lemma ScaledByMore(c: real, x: real)
    requires 0.0 <= c && 1.0 <= x
    ensures c <= Scaled(c, x)
  {
    ScaledMonotone(c, 1.0, x);
  }

  lemma NegativeTimes(c: real, x: real)
    requires c <= 0.0 && 0.0 <= x
    ensures c * x <= 0.0
  {
    ProductNonNegative(-c, x);
    assert (-c) * x == -(c * x);
  }

  // A negative ratio asks for no shard beyond the k packets.
  lemma NegativeRatio(redundancy: real, alive: nat, total: nat)
    requires redundancy <= 0.0 && 0 < alive <= total
    ensures Ratio(redundancy, alive, total) <= 0.0
  {
    QuotientNonNegative(total, alive);
    NegativeTimes(redundancy, Quotient(total, alive));
  }

  lemma RatioMonotone(redundancy: real, fewer: nat, more: nat, total: nat)
    requires fewer <= more <= total && 0.0 <= redundancy <= MAX_REDUNDANCY
    ensures Ratio(redundancy, fewer, total) >= Ratio(redundancy, more, total)
  {
    if fewer > 0 {
      Quotients(total, fewer, more);
      ScaledMonotone(redundancy, Quotient(total, more), Quotient(total, fewer));
      ScaledByMore(redundancy, Quotient(total, fewer));
    }
  }

  lemma CountMonotone(k: nat, x: real, y: real)
    requires k >= 1 && x <= y
    ensures ShardsFor(k, x) <= ShardsFor(k, y)
  {
    TimesMonotone(k as real, x, y);
    CeilMonotone(k as real * x, k as real * y);
  }

  lemma NothingExtra(k: nat, x: real)
    requires k >= 1 && x <= 0.0
    ensures ShardsFor(k, x) == Clamped(k, k)
  {
    NegativeTimes(x, k as real);
    assert x * k as real == k as real * x;
  }

  lemma CountOfMaximum(k: nat)
    requires k >= 1
    ensures ShardsFor(k, MAX_REDUNDANCY) == Clamped(3 * k, k)
  {
    assert k as real * MAX_REDUNDANCY == (3 * k) as real;
  }

  lemma CountBeyondMaximum(k: nat, x: real)
    requires k >= 1 && x > MAX_REDUNDANCY
    ensures Ceil(k as real * x) > 3 * k
  {
    var d := x - MAX_REDUNDANCY;
    assert k as real * d == k as real * x - (3 * k) as real;
    assert k as real * d >= d by {
      TimesMonotone(d, 1.0, k as real);
    }
  }

  // Up to a ratio of 3, fewer usable paths never mean fewer shards.
  lemma FewerPathsMoreShards(redundancy: real, fewer: nat, more: nat, total: nat, k: nat)
    requires fewer <= more <= total && 1 <= k <= MAX_K
    requires redundancy <= MAX_REDUNDANCY
    ensures ShardCount(redundancy, fewer, total, k) >= ShardCount(redundancy, more, total, k)
  {
    if redundancy >= 0.0 {
      RatioMonotone(redundancy, fewer, more, total);
      HigherRatioCount(redundancy, fewer, more, total, k, Ratio(redundancy, more, total), Ratio(redundancy, fewer, total));
    } else {
      NegativeRatioCount(redundancy, fewer, more, total, k);
    }
  }

  lemma HigherRatioCount(redundancy: real, fewer: nat, more: nat, total: nat, k: nat, x: real, y: real)
    requires k >= 1 && x == Ratio(redundancy, more, total) <= y == Ratio(redundancy, fewer, total)
    ensures ShardCount(redundancy, fewer, total, k) >= ShardCount(redundancy, more, total, k)
  {
    CountMonotone(k, x, y);
  }

  lemma NegativeRatioCount(redundancy: real, fewer: nat, more: nat, total: nat, k: nat)
    requires fewer <= more <= total && 1 <= k <= MAX_K && redundancy < 0.0
    ensures ShardCount(redundancy, fewer, total, k) >= ShardCount(redundancy, more, total, k)
  {
    if more > 0 {
      NegativeRatio(redundancy, more, total);
      NothingExtra(k, Ratio(redundancy, more, total));
      ShardCountRange(redundancy, fewer, total, k);
    }
  }

  lemma BigRatioCount(redundancy: real, alive: nat, total: nat, k: nat)
    requires alive <= total && 1 <= k && redundancy > MAX_REDUNDANCY
    ensures alive < total || total == 0 ==> ShardCount(redundancy, alive, total, k) == Clamped(3 * k, k)
    ensures alive == total > 0 ==> ShardCount(redundancy, alive, total, k) > 3 * k || ShardCount(redundancy, alive, total, k) == MAX_N
  {
    CountOfMaximum(k);
    CountBeyondMaximum(k, redundancy);
    if 0 < alive < total {
      Quotients(total, alive, alive);
      ScaledByMore(redundancy, Quotient(total, alive));
    }
  }

  // Losing paths never lowers the number of shards exactly when the configured ratio is at most
  // 3 or the clamp at MAX_N hides the difference: the ratio itself is capped only while some
  // path is down.
  lemma LosingPathsExactly(redundancy: real, total: nat, k: nat)
    requires 1 <= k <= MAX_K
    ensures (forall fewer: nat, more: nat :: fewer <= more <= total ==>
        ShardCount(redundancy, fewer, total, k) >= ShardCount(redundancy, more, total, k))
      <==> redundancy <= MAX_REDUNDANCY || 3 * k >= MAX_N || total == 0
  {
    if redundancy <= MAX_REDUNDANCY {
      forall fewer: nat, more: nat | fewer <= more <= total
        ensures ShardCount(redundancy, fewer, total, k) >= ShardCount(redundancy, more, total, k)
      {
        FewerPathsMoreShards(redundancy, fewer, more, total, k);
      }
    } else if 3 * k >= MAX_N || total == 0 {
      forall fewer: nat, more: nat | fewer <= more <= total
        ensures ShardCount(redundancy, fewer, total, k) >= ShardCount(redundancy, more, total, k)
      {
        BigRatioCount(redundancy, fewer, total, k);
        ShardCountRange(redundancy, more, total, k);
      }
    } else {
      BigRatioCount(redundancy, total, total, k);
      BigRatioCount(redundancy, 0, total, k);
      assert ShardCount(redundancy, 0, total, k) < ShardCount(redundancy, total, total, k);
    }
  }

  lemma {:induction false} CountsAfterLoss(s: seq<PathState>, t: seq<PathState>, n: nat)
    requires |s| == |t| && n <= |s|
    requires forall i :: 0 <= i < |s| ==> s[i].enabled == t[i].enabled && (t[i].alive ==> s[i].alive)
    ensures EnabledCount(s, n) == EnabledCount(t, n) && AliveCount(t, n) <= AliveCount(s, n)
  {
    if n > 0 {
      CountsAfterLoss(s, t, n - 1);
    }
  }

  // The same for any pattern of enabled and alive paths, some of which die.
  lemma LosingPathsNeverLowersN(s: seq<PathState>, t: seq<PathState>, redundancy: real, k: nat)
    requires |s| == |t| && 1 <= k <= MAX_K
    requires forall i :: 0 <= i < |s| ==> s[i].enabled == t[i].enabled && (t[i].alive ==> s[i].alive)
    requires redundancy <= MAX_REDUNDANCY || 3 * k >= MAX_N || EnabledCount(s, |s|) == 0
    ensures ShardCount(redundancy, AliveCount(t, |t|), EnabledCount(t, |t|), k)
         >= ShardCount(redundancy, AliveCount(s, |s|), EnabledCount(s, |s|), k)
  {
    CountsAfterLoss(s, t, |s|);
    AliveAreEnabled(s, |s|);
    LosingPathsExactly(redundancy, EnabledCount(s, |s|), k);
  }

  // ---------------------------------------------------------------------------------------
  // Hysteresis.

  // The health of a path after a run of probe results.
  function HealthAfter(h: Health, alpha: real, threshold: real, outcomes: seq<bool>): (r: Health)
  {
    if outcomes == [] then h
    else
      var m := |outcomes| - 1;
      Observed(HealthAfter(h, alpha, threshold, outcomes[..m]), alpha, threshold, outcomes[m])
  }

  function Power(x: real, m: nat): real
  {
    if m == 0 then 1.0 else x * Power(x, m - 1)
  }

  // x multiplied m times by b.
  function Decayed(b: real, x: real, m: nat): real
  {
    if m == 0 then x else Scaled(b, Decayed(b, x, m - 1))
  }

  lemma {:induction false} DecayedIsPower(b: real, x: real, m: nat)
    ensures Decayed(b, x, m) == Power(b, m) * x
  {
    if m > 0 {
      DecayedIsPower(b, x, m - 1);
      assert b * (Power(b, m - 1) * x) == (b * Power(b, m - 1)) * x;
    }
  }

  lemma DecayStep(b: real, d: real)
    requires 0.0 <= b <= 1.0 && 0.0 <= d
    ensures 0.0 <= Scaled(b, d) <= d
  {
    ProductNonNegative(b, d);
    TimesMonotone(d, b, 1.0);
  }

  lemma {:induction false} DecayedRange(b: real, x: real, m: nat)
    requires 0.0 <= b <= 1.0 && 0.0 <= x
    ensures 0.0 <= Decayed(b, x, m) <= x
    ensures m > 0 ==> Decayed(b, x, m) <= Decayed(b, x, m - 1)
  {
    if m > 0 {
      DecayedRange(b, x, m - 1);
      DecayStep(b, Decayed(b, x, m - 1));
    }
  }

  lemma ScaledMonotone(b: real, x: real, y: real)
    requires 0.0 <= b && x <= y
    ensures Scaled(b, x) <= Scaled(b, y)
  {
    TimesMonotone(b, x, y);
  }

  lemma {:induction false} DecayedMonotone(b: real, x: real, y: real, m: nat)
    requires 0.0 <= b <= 1.0 && x <= y
    ensures Decayed(b, x, m) <= Decayed(b, y, m)
  {
    if m > 0 {
      DecayedMonotone(b, x, y, m - 1);
      ScaledMonotone(b, Decayed(b, x, m - 1), Decayed(b, y, m - 1));
    }
  }

  ghost predicate AllAre(outcomes: seq<bool>, received: bool)
  {
    forall j :: 0 <= j < |outcomes| ==> outcomes[j] == received
  }

  // The loss falls at most geometrically, and does so over successes.
  lemma {:induction false} LossAbove(h: Health, alpha: real, b: real, threshold: real, outcomes: seq<bool>)
    requires 0.0 < alpha <= 1.0 && b == 1.0 - alpha
    ensures var m, l := |outcomes|, HealthAfter(h, alpha, threshold, outcomes).loss;
      && Decayed(b, h.loss, m) <= l
      && (AllAre(outcomes, true) ==> l == Decayed(b, h.loss, m))
  {
    if outcomes != [] {
      var m := |outcomes| - 1;
      var before := outcomes[..m];
      LossAbove(h, alpha, b, threshold, before);
      LowStep(alpha, b, Decayed(b, h.loss, m), HealthAfter(h, alpha, threshold, before).loss, outcomes[m]);
    }
  }

  // The loss rises at most geometrically, and does so over losses.
  lemma {:induction false} LossBelow(h: Health, alpha: real, b: real, threshold: real, outcomes: seq<bool>)
    requires 0.0 < alpha <= 1.0 && b == 1.0 - alpha
    ensures var m, l := |outcomes|, HealthAfter(h, alpha, threshold, outcomes).loss;
      && l <= 1.0 - Decayed(b, 1.0 - h.loss, m)
      && (AllAre(outcomes, false) ==> l == 1.0 - Decayed(b, 1.0 - h.loss, m))
  {
    if outcomes != [] {
      var m := |outcomes| - 1;
      var before := outcomes[..m];
      LossBelow(h, alpha, b, threshold, before);
      HighStep(alpha, b, Decayed(b, 1.0 - h.loss, m), HealthAfter(h, alpha, threshold, before).loss, outcomes[m]);
    }
  }

  // After any update, a dead path has at least half the threshold in loss, and a path that is
  // alive at most the threshold.
  lemma UpdateIsInBand(h: Health, alpha: real, threshold: real, received: bool)
    requires threshold >= 0.0
    ensures var g := Observed(h, alpha, threshold, received);
      (g.alive ==> g.loss <= threshold) && (!g.alive ==> g.loss >= threshold * 0.5)
  {
  }

  lemma {:induction false} RevivalNeedsDecay(h: Health, alpha: real, b: real, threshold: real, outcomes: seq<bool>)
    requires 0.0 < alpha <= 1.0 && b == 1.0 - alpha && 0.0 <= h.loss && !h.alive
    requires HealthAfter(h, alpha, threshold, outcomes).alive
    ensures Decayed(b, h.loss, |outcomes|) < threshold * 0.5
  {
    var m := |outcomes|;
    if m > 0 {
      DecayedRange(b, h.loss, m);
      LossAbove(h, alpha, b, threshold, outcomes);
      if HealthAfter(h, alpha, threshold, outcomes[..m - 1]).alive {
        RevivalNeedsDecay(h, alpha, b, threshold, outcomes[..m - 1]);
      }
    }
  }

  // A path that was just marked dead comes back only when the old loss has decayed to less than
  // half, whatever the probes say.
  lemma RevivalTakesTime(h: Health, alpha: real, threshold: real, outcomes: seq<bool>)
    requires 0.0 < alpha <= 1.0 && 0.0 < threshold < h.loss <= 1.0 && !h.alive
    requires HealthAfter(h, alpha, threshold, outcomes).alive
    ensures Power(1.0 - alpha, |outcomes|) < 0.5
  {
    RevivalNeedsDecay(h, alpha, 1.0 - alpha, threshold, outcomes);
    DecayedIsPower(1.0 - alpha, h.loss, |outcomes|);
    DecayedBelowHalf(Power(1.0 - alpha, |outcomes|), threshold, h.loss);
  }

  lemma DecayedBelowHalf(p: real, threshold: real, loss: real)
    requires 0.0 < threshold < loss && p * loss < threshold * 0.5
    ensures p < 0.5
  {
    if p >= 0.5 {
      TimesMonotone(loss, 0.5, p);
    }
  }

  // Straight successes revive a dead path exactly when the decayed loss falls below half the
  // threshold.
  lemma {:induction false} RevivedExactly(h: Health, alpha: real, threshold: real, outcomes: seq<bool>)
    requires 0.0 < alpha <= 1.0 && 0.0 < threshold && !h.alive && threshold * 0.5 <= h.loss <= 1.0
    requires AllAre(outcomes, true)
    ensures HealthAfter(h, alpha, threshold, outcomes).alive
      <==> Decayed(1.0 - alpha, h.loss, |outcomes|) < threshold * 0.5
  {
    LossAbove(h, alpha, 1.0 - alpha, threshold, outcomes);
    if outcomes != [] {
      var m := |outcomes| - 1;
      RevivedExactly(h, alpha, threshold, outcomes[..m]);
      DecayedRange(1.0 - alpha, h.loss, m + 1);
    }
  }

  // So m successes in a row always suffice once (1 - alpha)^m is below half the threshold.
  lemma SuccessesRevive(h: Health, alpha: real, threshold: real, outcomes: seq<bool>)
    requires 0.0 < alpha <= 1.0 && 0.0 < threshold && !h.alive && threshold * 0.5 <= h.loss <= 1.0
    requires AllAre(outcomes, true)
    requires Power(1.0 - alpha, |outcomes|) < threshold * 0.5
    ensures HealthAfter(h, alpha, threshold, outcomes).alive
  {
    RevivedExactly(h, alpha, threshold, outcomes);
    DecayedMonotone(1.0 - alpha, h.loss, 1.0, |outcomes|);
    DecayedIsPower(1.0 - alpha, 1.0, |outcomes|);
  }

  // Straight losses kill a live path exactly when the loss rate they build up exceeds the
  // threshold.
  lemma {:induction false} KilledExactly(h: Health, alpha: real, threshold: real, outcomes: seq<bool>)
    requires 0.0 < alpha <= 1.0 && 0.0 <= threshold && h.alive && 0.0 <= h.loss <= 1.0 && h.loss <= threshold
    requires AllAre(outcomes, false)
    ensures !HealthAfter(h, alpha, threshold, outcomes).alive
      <==> 1.0 - Decayed(1.0 - alpha, 1.0 - h.loss, |outcomes|) > threshold
  {
    LossBelow(h, alpha, 1.0 - alpha, threshold, outcomes);
    if outcomes != [] {
      var m := |outcomes| - 1;
      KilledExactly(h, alpha, threshold, outcomes[..m]);
      DecayedRange(1.0 - alpha, 1.0 - h.loss, m + 1);
    }
  }

  // ---------------------------------------------------------------------------------------
  // Runs of the context, without a reload.

  datatype Event = Send | Probe(path: int, rttUs: nat, received: bool)

  ghost function Stepped(s: State, e: Event): (r: State)
    requires Sound(s)
    ensures Sound(r)
  {
    match e
    case Send => PickedSound(s); Picked(s)
    case Probe(i, rttUs, received) => ProbedSound(s, i, rttUs, received); Probed(s, i, rttUs, received)
  }

  ghost function After(s: State, events: seq<Event>): (r: State)
    requires Sound(s)
    ensures Sound(r)
    decreases |events|
  {
    if events == [] then s else Stepped(After(s, events[..|events| - 1]), events[|events| - 1])
  }

  // n calls of `strategy_next_path`.
  function Sends(n: nat): (r: seq<Event>)
    ensures |r| == n
  {
    if n == 0 then [] else Sends(n - 1) + [Send]
  }

  lemma {:induction false} UnusableStays(s: State, n: nat)
    requires Sound(s) && !AnyPath(s)
    ensures After(s, Sends(n)) == s
  {
    if n > 0 {
      UnusableStays(s, n - 1);
      assert Sends(n)[..n - 1] == Sends(n - 1);
    }
  }

  lemma {:induction false} AfterSends(s: State, n: nat)
    requires Sound(s) && AnyPath(s)
    ensures SameLength(Usable(s.paths), Weights(s.paths), s.credits)
    ensures After(s, Sends(n)) == s.(credits := Scheduler.After(Usable(s.paths), Weights(s.paths), s.credits, n))
  {
    if n > 0 {
      AfterSends(s, n - 1);
      assert Sends(n)[..n - 1] == Sends(n - 1);
      RunsCompose(Usable(s.paths), Weights(s.paths), s.credits, n - 1, 1, 0);
    }
  }

  // The probe results of path i, in order.
  function OutcomesOf(i: nat, events: seq<Event>): (r: seq<bool>)
  {
    if events == [] then []
    else
      var r, e := OutcomesOf(i, events[..|events| - 1]), events[|events| - 1];
      if e.Probe? && e.path == i then r + [e.received] else r
  }

  // The health of a path depends on nothing but the probes of that path.
  lemma {:induction false} RunHealth(s: State, events: seq<Event>, i: nat)
    requires Sound(s) && i < |s.paths|
    ensures var r := After(s, events);
      && |r.paths| == |s.paths| && r.alpha == s.alpha && r.threshold == s.threshold
      && HealthOf(r.paths[i]) == HealthAfter(HealthOf(s.paths[i]), s.alpha, s.threshold, OutcomesOf(i, events))
    decreases |events|
  {
    if events != [] {
      var before, e := events[..|events| - 1], events[|events| - 1];
      RunHealth(s, before, i);
      if e.Probe? && e.path == i {
        var o := OutcomesOf(i, before);
        assert OutcomesOf(i, events)[..|o|] == o;
      }
    }
  }

  // Hysteresis over every run: a path marked dead stays out of use until enough of its own
  // probes have been answered or lost.
  lemma DeadPathStaysDown(s: State, events: seq<Event>, i: nat)
    requires Sound(s) && i < |s.paths| && 0.0 < s.threshold < s.paths[i].loss && !s.paths[i].alive
    requires |After(s, events).paths| == |s.paths| && After(s, events).paths[i].alive
    ensures Power(1.0 - s.alpha, |OutcomesOf(i, events)|) < 0.5
  {
    RunHealth(s, events, i);
    RevivalTakesTime(HealthOf(s.paths[i]), s.alpha, s.threshold, OutcomesOf(i, events));
  }

  // No run changes the configuration.
  lemma {:induction false} RunKeepsConfig(s: State, events: seq<Event>)
    requires Sound(s)
    ensures var r := After(s, events);
      && |r.paths| == |s.paths| && r.alpha == s.alpha && r.threshold == s.threshold
      && forall i :: 0 <= i < |s.paths| ==> r.paths[i].enabled == s.paths[i].enabled && r.paths[i].weight == s.paths[i].weight
    decreases |events|
  {
    if events != [] {
      RunKeepsConfig(s, events[..|events| - 1]);
    }
  }

  lemma {:induction false} RunAppend(s: State, first: seq<Event>, second: seq<Event>)
    requires Sound(s)
    ensures After(s, first + second) == After(After(s, first), second)
    decreases |second|
  {
    if second == [] {
      assert first + second == first;
    } else {
      var m := |second| - 1;
      assert (first + second)[..|first + second| - 1] == first + second[..m];
      RunAppend(s, first, second[..m]);
    }
  }

  // An answered probe leaves a loss rate of zero at zero.
  lemma AnswerKeepsZero(alpha: real, loss: real)
    requires loss == 0.0
    ensures Smoothed(alpha, loss, Loss(true)) == 0.0
  {
  }

  // The event loop reports answered probes only, and a timed-out probe is never counted.  So no
  // path is ever marked dead by probes, as long as the threshold is not negative.
  lemma AnswerNeverKills(s: State, i: int, rttUs: nat)
    requires Sound(s) && NoLoss(s)
    ensures var r := Probed(s, i, rttUs, true);
      && |r.paths| == |s.paths| && NoLoss(r) && (s.threshold >= 0.0 ==> AliveKept(s.paths, r.paths))
  {
    if 0 <= i < |s.paths| {
      AnswerKeepsZero(s.alpha, s.paths[i].loss);
    }
  }

  ghost predicate AllAnswered(events: seq<Event>)
  {
    forall j :: 0 <= j < |events| && events[j].Probe? ==> events[j].received
  }

  lemma {:induction false} AnswersNeverKill(s: State, events: seq<Event>)
    requires Sound(s) && NoLoss(s) && AllAnswered(events)
    ensures var r := After(s, events);
      && r.threshold == s.threshold && NoLoss(r) && (s.threshold >= 0.0 ==> AliveKept(s.paths, r.paths))
    decreases |events|
  {
    if events != [] {
      var before, e := events[..|events| - 1], events[|events| - 1];
      RunKeepsConfig(s, before);
      AnswersNeverKill(s, before);
      if e.Probe? {
        AnswerNeverKills(After(s, before), e.path, e.rttUs);
      }
    }
  }

  // Without a positive threshold, no probe refills a credit.
  lemma ProbesRefillAboveZeroOnly(s: State, i: int, rttUs: nat, received: bool)
    requires Sound(s) && s.threshold <= 0.0
    ensures Probed(s, i, rttUs, received).credits == s.credits
  {
    if 0 <= i < |s.paths| {
      SmoothedBetween(s.alpha, s.paths[i].loss, received);
    }
  }
}
