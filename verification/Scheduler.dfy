/**
 The weighted round robin of `strategy_next_path` in src/strategy.c, on values.

 Every usable path has a credit, refilled to its weight when all credits are used up; the path
 with the highest credit is picked and pays one.  Without probe updates in between, the picks
 are periodic, and any stretch of as many picks as the weights add up to serves every path by
 its weight, wherever the stretch begins.
 */
module Scheduler {

  // usable[i]: path i is enabled and alive.
  ghost predicate SameLength(usable: seq<bool>, weights: seq<nat>, credits: seq<int>)
  {
    |usable| == |weights| == |credits|
  }

  // Credits of usable paths lie between zero and the weight, and no weight is zero.
  ghost predicate InRange(usable: seq<bool>, weights: seq<nat>, credits: seq<int>)
  {
    && SameLength(usable, weights, credits)
    && (forall i :: 0 <= i < |usable| && usable[i] ==> 1 <= weights[i] && 0 <= credits[i] <= weights[i])
  }

  ghost predicate SomeUsable(usable: seq<bool>)
  {
    exists i :: 0 <= i < |usable| && usable[i]
  }

  predicate NeedsRefill(usable: seq<bool>, credits: seq<int>)
    requires |usable| == |credits|
  {
    forall i :: 0 <= i < |usable| && usable[i] ==> credits[i] <= 0
  }

  // The first n credits refilled.
  function Refilled(usable: seq<bool>, weights: seq<nat>, credits: seq<int>, n: nat): (r: seq<int>)
    requires |usable| == |weights| == |credits| && n <= |credits|
    ensures |r| == |credits|
  {
    if n == 0 then credits
    else
      var r := Refilled(usable, weights, credits, n - 1);
      if usable[n - 1] then r[n - 1 := weights[n - 1]] else r
  }

  lemma {:induction false} RefilledAt(usable: seq<bool>, weights: seq<nat>, credits: seq<int>, n: nat)
    requires |usable| == |weights| == |credits| && n <= |credits|
    ensures var r := Refilled(usable, weights, credits, n);
      forall i :: 0 <= i < |credits| ==> r[i] == if i < n && usable[i] then weights[i] else credits[i]
  {
    if n > 0 {
      RefilledAt(usable, weights, credits, n - 1);
    }
  }

  // The usable path of highest credit among the first n, the lowest index of them; -1 if none.
  function Best(usable: seq<bool>, credits: seq<int>, n: nat): (b: int)
    requires |usable| == |credits| && n <= |credits|
    ensures -1 <= b < n
  {
    if n == 0 then -1
    else
      var b := Best(usable, credits, n - 1);
      if usable[n - 1] && (b == -1 || credits[n - 1] > credits[b]) then n - 1 else b
  }

  lemma {:induction false} BestIsHighest(usable: seq<bool>, credits: seq<int>, n: nat)
    requires |usable| == |credits| && n <= |credits|
    ensures var b := Best(usable, credits, n);
      && (b == -1 <==> forall i :: 0 <= i < n ==> !usable[i])
      && (b >= 0 ==> usable[b])
      && (b >= 0 ==> forall i :: 0 <= i < n && usable[i] ==> credits[i] <= credits[b])
      && (b >= 0 ==> forall i :: 0 <= i < b && usable[i] ==> credits[i] < credits[b])
  {
    if n > 0 {
      BestIsHighest(usable, credits, n - 1);
    }
  }

  function Topped(usable: seq<bool>, weights: seq<nat>, credits: seq<int>): (r: seq<int>)
    requires |usable| == |weights| == |credits|
    ensures |r| == |credits|
  {
    if NeedsRefill(usable, credits) then Refilled(usable, weights, credits, |credits|) else credits
  }

  // The path that a call picks.
  function Pick(usable: seq<bool>, weights: seq<nat>, credits: seq<int>): (b: nat)
    requires |usable| == |weights| == |credits| && SomeUsable(usable)
    ensures b < |usable| && usable[b]
  {
    BestIsHighest(usable, Topped(usable, weights, credits), |credits|);
    Best(usable, Topped(usable, weights, credits), |credits|)
  }

  // The credits after a call.
  function Next(usable: seq<bool>, weights: seq<nat>, credits: seq<int>): (r: seq<int>)
    requires |usable| == |weights| == |credits| && SomeUsable(usable)
    ensures |r| == |credits|
  {
    var c, b := Topped(usable, weights, credits), Pick(usable, weights, credits);
    c[b := c[b] - 1]
  }

  // ---------------------------------------------------------------------------------------
  // Runs of calls.

  ghost function After(usable: seq<bool>, weights: seq<nat>, credits: seq<int>, n: nat): (r: seq<int>)
    requires SameLength(usable, weights, credits) && SomeUsable(usable)
    ensures |r| == |credits|
    decreases n
  {
    if n == 0 then credits else After(usable, weights, Next(usable, weights, credits), n - 1)
  }

  // How often the next n calls pick path i.
  ghost function Picks(usable: seq<bool>, weights: seq<nat>, credits: seq<int>, n: nat, i: nat): (r: nat)
    requires SameLength(usable, weights, credits) && SomeUsable(usable)
    decreases n
  {
    if n == 0 then 0
    else (if Pick(usable, weights, credits) == i then 1 else 0) + Picks(usable, weights, Next(usable, weights, credits), n - 1, i)
  }

  // The sum of a sequence over the usable paths among the first n.
  ghost function Total(usable: seq<bool>, s: seq<int>, n: nat): int
    requires |usable| == |s| && n <= |s|
  {
    if n == 0 then 0 else Total(usable, s, n - 1) + if usable[n - 1] then s[n - 1] else 0
  }

  ghost function CreditSum(usable: seq<bool>, credits: seq<int>): int
    requires |usable| == |credits|
  {
    Total(usable, credits, |credits|)
  }

  // The period: the sum of the weights.
  ghost function Period(usable: seq<bool>, weights: seq<nat>): int
    requires |usable| == |weights|
  {
    Total(usable, weights, |weights|)
  }

  lemma {:induction false} TotalUpdate(usable: seq<bool>, s: seq<int>, t: seq<int>, n: nat, b: nat)
    requires |usable| == |s| == |t| && n <= |s| && b < |s| && usable[b]
    requires t == s[b := s[b] - 1]
    ensures Total(usable, t, n) == Total(usable, s, n) - if b < n then 1 else 0
  {
    if n > 0 {
      TotalUpdate(usable, s, t, n - 1, b);
    }
  }

  lemma {:induction false} TotalSame(usable: seq<bool>, s: seq<int>, t: seq<int>, n: nat)
    requires |usable| == |s| == |t| && n <= |s|
    requires forall i :: 0 <= i < n && usable[i] ==> s[i] == t[i]
    ensures Total(usable, s, n) == Total(usable, t, n)
  {
    if n > 0 {
      TotalSame(usable, s, t, n - 1);
    }
  }

  lemma {:induction false} TotalBounds(usable: seq<bool>, s: seq<int>, t: seq<int>, n: nat)
    requires |usable| == |s| == |t| && n <= |s|
    requires forall i :: 0 <= i < n && usable[i] ==> 0 <= s[i] <= t[i]
    ensures 0 <= Total(usable, s, n) <= Total(usable, t, n)
    ensures Total(usable, s, n) == 0 <==> forall i :: 0 <= i < n && usable[i] ==> s[i] == 0
    ensures forall i :: 0 <= i < n && usable[i] ==> s[i] <= Total(usable, s, n)
  {
    if n > 0 {
      TotalBounds(usable, s, t, n - 1);
    }
  }

  // Without credit left, a call first refills.
  ghost predicate Spent(usable: seq<bool>, credits: seq<int>)
    requires |usable| == |credits|
  {
    forall i :: 0 <= i < |usable| && usable[i] ==> credits[i] == 0
  }

  lemma SumOfCredits(usable: seq<bool>, weights: seq<nat>, credits: seq<int>)
    requires InRange(usable, weights, credits)
    ensures 0 <= CreditSum(usable, credits) <= Period(usable, weights)
    ensures CreditSum(usable, credits) == 0 <==> Spent(usable, credits)
    ensures NeedsRefill(usable, credits) <==> Spent(usable, credits)
  {
    TotalBounds(usable, credits, weights, |credits|);
  }

  lemma PeriodPositive(usable: seq<bool>, weights: seq<nat>, credits: seq<int>)
    requires InRange(usable, weights, credits) && SomeUsable(usable)
    ensures Period(usable, weights) >= 1
    ensures forall i :: 0 <= i < |usable| && usable[i] ==> weights[i] <= Period(usable, weights)
  {
    TotalBounds(usable, weights, weights, |weights|);
    var i :| 0 <= i < |usable| && usable[i];
    assert weights[i] >= 1;
  }

  // A call with credit left spends one credit of the path it picks.
  lemma CallWithCredit(usable: seq<bool>, weights: seq<nat>, credits: seq<int>)
    requires InRange(usable, weights, credits) && SomeUsable(usable)
    requires CreditSum(usable, credits) > 0
    ensures var b := Pick(usable, weights, credits);
      && Next(usable, weights, credits) == credits[b := credits[b] - 1]
      && credits[b] >= 1
    ensures InRange(usable, weights, Next(usable, weights, credits))
    ensures CreditSum(usable, Next(usable, weights, credits)) == CreditSum(usable, credits) - 1
  {
    SumOfCredits(usable, weights, credits);
    var b := Pick(usable, weights, credits);
    BestIsHighest(usable, credits, |credits|);
    TotalUpdate(usable, credits, Next(usable, weights, credits), |credits|, b);
  }

  lemma RefillInRange(usable: seq<bool>, weights: seq<nat>, credits: seq<int>)
    requires InRange(usable, weights, credits) && SomeUsable(usable)
    ensures var full := Refilled(usable, weights, credits, |credits|);
      InRange(usable, weights, full) && CreditSum(usable, full) == Period(usable, weights) >= 1
  {
    var full := Refilled(usable, weights, credits, |credits|);
    RefilledAt(usable, weights, credits, |credits|);
    PeriodPositive(usable, weights, credits);
    TotalSame(usable, full, weights, |credits|);
  }

  // A call without credit does what it would do after a refill.
  lemma CallWithoutCredit(usable: seq<bool>, weights: seq<nat>, credits: seq<int>)
    requires InRange(usable, weights, credits) && SomeUsable(usable)
    requires Spent(usable, credits)
    ensures var full := Refilled(usable, weights, credits, |credits|);
      && Next(usable, weights, credits) == Next(usable, weights, full)
      && Pick(usable, weights, credits) == Pick(usable, weights, full)
  {
    var full := Refilled(usable, weights, credits, |credits|);
    RefillInRange(usable, weights, credits);
    SumOfCredits(usable, weights, full);
    assert Topped(usable, weights, credits) == full == Topped(usable, weights, full);
  }

  // Credits never become negative, and never exceed the weights.
  lemma CallKeepsRange(usable: seq<bool>, weights: seq<nat>, credits: seq<int>)
    requires InRange(usable, weights, credits) && SomeUsable(usable)
    ensures InRange(usable, weights, Next(usable, weights, credits))
    ensures forall i :: 0 <= i < |usable| && !usable[i] ==> Next(usable, weights, credits)[i] == credits[i]
  {
    SumOfCredits(usable, weights, credits);
    if Spent(usable, credits) {
      CallWithoutCredit(usable, weights, credits);
      RefillInRange(usable, weights, credits);
      RefilledAt(usable, weights, credits, |credits|);
      CallWithCredit(usable, weights, Refilled(usable, weights, credits, |credits|));
    } else {
      CallWithCredit(usable, weights, credits);
    }
  }

  lemma {:induction false} RunKeepsRange(usable: seq<bool>, weights: seq<nat>, credits: seq<int>, n: nat)
    requires InRange(usable, weights, credits) && SomeUsable(usable)
    ensures InRange(usable, weights, After(usable, weights, credits, n))
    ensures forall i :: 0 <= i < |usable| && !usable[i] ==> After(usable, weights, credits, n)[i] == credits[i]
    decreases n
  {
    if n > 0 {
      CallKeepsRange(usable, weights, credits);
      RunKeepsRange(usable, weights, Next(usable, weights, credits), n - 1);
    }
  }

  lemma {:induction false} RunsCompose(usable: seq<bool>, weights: seq<nat>, credits: seq<int>, m: nat, n: nat, i: nat)
    requires SameLength(usable, weights, credits) && SomeUsable(usable)
    ensures After(usable, weights, credits, m + n) == After(usable, weights, After(usable, weights, credits, m), n)
    ensures Picks(usable, weights, credits, m + n, i)
         == Picks(usable, weights, credits, m, i) + Picks(usable, weights, After(usable, weights, credits, m), n, i)
    decreases m
  {
    if m > 0 {
      RunsCompose(usable, weights, Next(usable, weights, credits), m - 1, n, i);
    }
  }

  // As long as the credit lasts, every path is picked as often as its credit falls.
  lemma {:induction false} RunSpendsCredit(usable: seq<bool>, weights: seq<nat>, credits: seq<int>, n: nat, i: nat)
    requires InRange(usable, weights, credits) && SomeUsable(usable)
    requires n <= CreditSum(usable, credits)
    requires i < |usable|
    ensures CreditSum(usable, After(usable, weights, credits, n)) == CreditSum(usable, credits) - n
    ensures Picks(usable, weights, credits, n, i) == credits[i] - After(usable, weights, credits, n)[i]
    decreases n
  {
    if n > 0 {
      CallWithCredit(usable, weights, credits);
      RunSpendsCredit(usable, weights, Next(usable, weights, credits), n - 1, i);
    }
  }

  // All credit is spent after as many calls as there is credit, at most one period.
  lemma RunReachesRefill(usable: seq<bool>, weights: seq<nat>, credits: seq<int>)
    requires InRange(usable, weights, credits) && SomeUsable(usable)
    ensures 0 <= CreditSum(usable, credits) <= Period(usable, weights)
    ensures Spent(usable, After(usable, weights, credits, CreditSum(usable, credits)))
  {
    SumOfCredits(usable, weights, credits);
    var i :| 0 <= i < |usable| && usable[i];
    var n := CreditSum(usable, credits);
    RunSpendsCredit(usable, weights, credits, n, i);
    RunKeepsRange(usable, weights, credits, n);
    SumOfCredits(usable, weights, After(usable, weights, credits, n));
  }

  // From spent credits, one period of calls serves every path by its weight and spends all
  // credit again.
  lemma OnePeriod(usable: seq<bool>, weights: seq<nat>, credits: seq<int>, i: nat)
    requires InRange(usable, weights, credits) && SomeUsable(usable) && Spent(usable, credits)
    requires i < |usable|
    ensures Period(usable, weights) >= 1
    ensures After(usable, weights, credits, Period(usable, weights)) == credits
    ensures Picks(usable, weights, credits, Period(usable, weights), i) == if usable[i] then weights[i] else 0
  {
    var n := Period(usable, weights);
    var full := Refilled(usable, weights, credits, |credits|);
    CallWithoutCredit(usable, weights, credits);
    RefillInRange(usable, weights, credits);
    RefilledAt(usable, weights, credits, |credits|);
    var end := After(usable, weights, full, n);
    assert After(usable, weights, credits, n) == end;
    assert Picks(usable, weights, credits, n, i) == Picks(usable, weights, full, n, i);
    RunSpendsCredit(usable, weights, full, n, i);
    RunKeepsRange(usable, weights, full, n);
    SumOfCredits(usable, weights, end);
    assert end == credits;
  }

  // After m calls, m at least the initial credit, the scheduler repeats itself every period.
  ghost predicate Settled(usable: seq<bool>, weights: seq<nat>, credits: seq<int>, m: nat)
    requires InRange(usable, weights, credits)
  {
    CreditSum(usable, credits) <= m
  }

  // The period may begin r calls after the credit was spent.
  lemma ShiftedPeriod(usable: seq<bool>, weights: seq<nat>, zero: seq<int>, r: nat, i: nat)
    requires InRange(usable, weights, zero) && SomeUsable(usable) && Spent(usable, zero)
    requires i < |usable|
    ensures Period(usable, weights) >= 1
    ensures var now := After(usable, weights, zero, r);
      && Picks(usable, weights, now, Period(usable, weights), i) == (if usable[i] then weights[i] else 0)
      && After(usable, weights, now, Period(usable, weights)) == now
  {
    OnePeriod(usable, weights, zero, i);
    var n := Period(usable, weights);
    RunsCompose(usable, weights, zero, r, n, i);
    RunsCompose(usable, weights, zero, n, r, i);
    assert r + n == n + r;
  }

  // Once the initial credit is spent, the state is one that a run from spent credits reaches.
  lemma SettledOrigin(usable: seq<bool>, weights: seq<nat>, credits: seq<int>, m: nat) returns (zero: seq<int>, r: nat)
    requires InRange(usable, weights, credits) && SomeUsable(usable) && Settled(usable, weights, credits, m)
    ensures InRange(usable, weights, zero) && Spent(usable, zero)
    ensures After(usable, weights, credits, m) == After(usable, weights, zero, r)
  {
    var t := CreditSum(usable, credits);
    RunReachesRefill(usable, weights, credits);
    RunKeepsRange(usable, weights, credits, t);
    zero, r := After(usable, weights, credits, t), m - t;
    RunsCompose(usable, weights, credits, t, r, 0);
  }

  // Fairness.  In every stretch of one period of calls, beginning anywhere once the initial
  // credit is spent, path i is picked exactly as often as its weight says, and the credits
  // return to where they were.
  lemma Fairness(usable: seq<bool>, weights: seq<nat>, credits: seq<int>, m: nat, i: nat)
    requires InRange(usable, weights, credits) && SomeUsable(usable) && Settled(usable, weights, credits, m)
    requires i < |usable|
    ensures Period(usable, weights) >= 1
    ensures var now := After(usable, weights, credits, m);
      && Picks(usable, weights, now, Period(usable, weights), i) == (if usable[i] then weights[i] else 0)
      && After(usable, weights, now, Period(usable, weights)) == now
  {
    var zero, r := SettledOrigin(usable, weights, credits, m);
    ShiftedPeriod(usable, weights, zero, r, i);
  }

  // The picks themselves repeat.
  lemma PicksArePeriodic(usable: seq<bool>, weights: seq<nat>, credits: seq<int>, m: nat)
    requires InRange(usable, weights, credits) && SomeUsable(usable) && Settled(usable, weights, credits, m)
    ensures Period(usable, weights) >= 1
    ensures Pick(usable, weights, After(usable, weights, credits, m + Period(usable, weights)))
         == Pick(usable, weights, After(usable, weights, credits, m))
  {
    var i :| 0 <= i < |usable| && usable[i];
    Fairness(usable, weights, credits, m, i);
    RunsCompose(usable, weights, credits, m, Period(usable, weights), i);
  }

  // A block of at least one period of shards puts its weight in shards on every usable path.
  lemma Coverage(usable: seq<bool>, weights: seq<nat>, credits: seq<int>, m: nat, n: nat, i: nat)
    requires InRange(usable, weights, credits) && SomeUsable(usable) && Settled(usable, weights, credits, m)
    requires i < |usable| && usable[i] && n >= Period(usable, weights)
    ensures Picks(usable, weights, After(usable, weights, credits, m), n, i) >= weights[i] >= 1
  {
    Fairness(usable, weights, credits, m, i);
    var now := After(usable, weights, credits, m);
    RunsCompose(usable, weights, now, Period(usable, weights), n - Period(usable, weights), i);
  }
}
