/**
 How long a path waits for its next shard, whatever the credits are when a block is sent: what
 the coverage of paths depends on, since probe echoes refill credits at any time.
 */
module Service {
  import opened Scheduler

  // The calls that path j takes before path i is next, while path i has credit.
  function Lead(usable: seq<bool>, credits: seq<int>, i: nat, j: nat): (r: nat)
    requires |usable| == |credits| && i < |credits| && j < |credits|
  {
    var d := credits[j] - credits[i] + if j < i then 1 else 0;
    if j == i || !usable[j] || d < 0 then 0 else d
  }

  // The same for the first n paths together.
  function Ahead(usable: seq<bool>, credits: seq<int>, i: nat, n: nat): (r: nat)
    requires |usable| == |credits| && i < |credits| && n <= |credits|
  {
    if n == 0 then 0 else Ahead(usable, credits, i, n - 1) + Lead(usable, credits, i, n - 1)
  }

  lemma {:induction false} AheadUpdate(usable: seq<bool>, s: seq<int>, t: seq<int>, i: nat, b: nat, n: nat)
    requires |usable| == |s| == |t| && n <= |s| && b < |s| && i < |s| && i != b
    requires t == s[b := s[b] - 1] && Lead(usable, s, i, b) > 0
    ensures Ahead(usable, t, i, n) == Ahead(usable, s, i, n) - if b < n then 1 else 0
  {
    if n > 0 {
      AheadUpdate(usable, s, t, i, b, n - 1);
    }
  }

  lemma {:induction false} AheadSame(usable: seq<bool>, s: seq<int>, t: seq<int>, i: nat, n: nat)
    requires |usable| == |s| == |t| && n <= |s| && i < |s| && usable[i]
    requires forall j :: 0 <= j < |s| && usable[j] ==> s[j] == t[j]
    ensures Ahead(usable, s, i, n) == Ahead(usable, t, i, n)
  {
    if n > 0 {
      AheadSame(usable, s, t, i, n - 1);
    }
  }

  lemma {:induction false} AheadZero(usable: seq<bool>, s: seq<int>, i: nat, n: nat)
    requires |usable| == |s| && n <= |s| && i < |s|
    ensures Ahead(usable, s, i, n) == 0 <==> forall j :: 0 <= j < n ==> Lead(usable, s, i, j) == 0
  {
    if n > 0 {
      AheadZero(usable, s, i, n - 1);
    }
  }

  // Either nothing is ahead of path i, or the path picked is.
  lemma PickIsAhead(usable: seq<bool>, credits: seq<int>, i: nat)
    requires |usable| == |credits| && i < |credits| && usable[i]
    ensures var b := Best(usable, credits, |credits|);
      && b >= 0
      && (b == i <==> Ahead(usable, credits, i, |credits|) == 0)
      && (b != i ==> Lead(usable, credits, i, b) > 0)
  {
    BestIsHighest(usable, credits, |credits|);
    AheadZero(usable, credits, i, |credits|);
    var b := Best(usable, credits, |credits|);
    if b == i {
      assert forall j :: 0 <= j < |credits| ==> Lead(usable, credits, i, j) == 0;
    } else {
      assert Lead(usable, credits, i, b) > 0;
    }
  }

  lemma {:induction false} ServedFromCredit(usable: seq<bool>, weights: seq<nat>, credits: seq<int>, n: nat, i: nat)
    requires InRange(usable, weights, credits) && SomeUsable(usable)
    requires i < |usable| && usable[i] && credits[i] >= 1
    ensures Picks(usable, weights, credits, n, i) >= 1 <==> n > Ahead(usable, credits, i, |credits|)
    decreases n
  {
    if n > 0 {
      var b := Pick(usable, weights, credits);
      PickIsAhead(usable, credits, i);
      CallKeepsRange(usable, weights, credits);
      if b != i {
        AheadUpdate(usable, credits, Next(usable, weights, credits), i, b, |credits|);
        ServedFromCredit(usable, weights, Next(usable, weights, credits), n - 1, i);
      }
    }
  }

  // The calls that go to other paths before path i is served.
  ghost function Wait(usable: seq<bool>, weights: seq<nat>, credits: seq<int>, i: nat): int
    requires SameLength(usable, weights, credits) && i < |usable|
  {
    if credits[i] >= 1 then Ahead(usable, credits, i, |credits|)
    else CreditSum(usable, credits) + Ahead(usable, weights, i, |credits|)
  }

  lemma ServedFromSpent(usable: seq<bool>, weights: seq<nat>, credits: seq<int>, n: nat, i: nat)
    requires InRange(usable, weights, credits) && SomeUsable(usable) && Spent(usable, credits)
    requires i < |usable| && usable[i]
    ensures Picks(usable, weights, credits, n, i) >= 1 <==> n > Ahead(usable, weights, i, |credits|)
  {
    var full := Refilled(usable, weights, credits, |credits|);
    CallWithoutCredit(usable, weights, credits);
    RefillInRange(usable, weights, credits);
    RefilledAt(usable, weights, credits, |credits|);
    AheadSame(usable, full, weights, i, |credits|);
    ServedFromCredit(usable, weights, full, n, i);
    if n > 0 {
      assert Picks(usable, weights, credits, n, i) == Picks(usable, weights, full, n, i);
    }
  }

  // From any credits, path i is served within n calls exactly when n exceeds its wait.
  lemma ServedExactly(usable: seq<bool>, weights: seq<nat>, credits: seq<int>, n: nat, i: nat)
    requires InRange(usable, weights, credits) && SomeUsable(usable)
    requires i < |usable| && usable[i]
    ensures Picks(usable, weights, credits, n, i) >= 1 <==> n > Wait(usable, weights, credits, i)
  {
    if credits[i] >= 1 {
      ServedFromCredit(usable, weights, credits, n, i);
    } else {
      ServedAfterRefill(usable, weights, credits, n, i);
    }
  }

  lemma ServedAfterRefill(usable: seq<bool>, weights: seq<nat>, credits: seq<int>, n: nat, i: nat)
    requires InRange(usable, weights, credits) && SomeUsable(usable)
    requires i < |usable| && usable[i] && credits[i] == 0
    ensures Picks(usable, weights, credits, n, i) >= 1 <==> n > Wait(usable, weights, credits, i)
  {
    SumOfCredits(usable, weights, credits);
    var t := CreditSum(usable, credits);
    if n <= t {
      NotServedBeforeRefill(usable, weights, credits, n, i);
    } else {
      NotServedBeforeRefill(usable, weights, credits, t, i);
      RunReachesRefill(usable, weights, credits);
      RunKeepsRange(usable, weights, credits, t);
      RunsCompose(usable, weights, credits, t, n - t, i);
      ServedFromSpent(usable, weights, After(usable, weights, credits, t), n - t, i);
    }
  }

  lemma NotServedBeforeRefill(usable: seq<bool>, weights: seq<nat>, credits: seq<int>, n: nat, i: nat)
    requires InRange(usable, weights, credits) && SomeUsable(usable)
    requires i < |usable| && usable[i] && credits[i] == 0 && n <= CreditSum(usable, credits)
    ensures Picks(usable, weights, credits, n, i) == 0
  {
    RunSpendsCredit(usable, weights, credits, n, i);
    RunKeepsRange(usable, weights, credits, n);
  }

  // The sum of the weights of the other usable paths among the first n.
  ghost function Others(usable: seq<bool>, weights: seq<nat>, i: nat, n: nat): (r: nat)
    requires |usable| == |weights| && n <= |weights|
  {
    if n == 0 then 0 else Others(usable, weights, i, n - 1) + if usable[n - 1] && i != n - 1 then weights[n - 1] else 0
  }

  // The longest that path i can have to wait: it has just spent its credit, and probe echoes
  // have refilled that of every other path.
  ghost function LongestWait(usable: seq<bool>, weights: seq<nat>, i: nat): nat
    requires |usable| == |weights| && i < |weights|
  {
    Others(usable, weights, i, |weights|) + Ahead(usable, weights, i, |weights|)
  }

  lemma {:induction false} AheadBound(usable: seq<bool>, weights: seq<nat>, credits: seq<int>, i: nat, n: nat)
    requires InRange(usable, weights, credits) && i < |usable| && n <= |usable|
    requires credits[i] >= 1
    ensures Ahead(usable, credits, i, n) <= Others(usable, weights, i, n)
  {
    if n > 0 {
      AheadBound(usable, weights, credits, i, n - 1);
    }
  }

  lemma {:induction false} SumBound(usable: seq<bool>, weights: seq<nat>, credits: seq<int>, i: nat, n: nat)
    requires InRange(usable, weights, credits) && i < |usable| && n <= |usable|
    requires credits[i] == 0
    ensures Total(usable, credits, n) <= Others(usable, weights, i, n)
    ensures (forall j :: 0 <= j < n && j != i ==> credits[j] == weights[j]) ==> Total(usable, credits, n) == Others(usable, weights, i, n)
  {
    if n > 0 {
      SumBound(usable, weights, credits, i, n - 1);
    }
  }

  lemma WaitBound(usable: seq<bool>, weights: seq<nat>, credits: seq<int>, i: nat)
    requires InRange(usable, weights, credits) && i < |usable| && usable[i]
    ensures Wait(usable, weights, credits, i) <= LongestWait(usable, weights, i)
  {
    if credits[i] >= 1 {
      AheadBound(usable, weights, credits, i, |credits|);
    } else {
      SumBound(usable, weights, credits, i, |credits|);
    }
  }

  // The credits of the longest wait.
  lemma WorstCredits(usable: seq<bool>, weights: seq<nat>, i: nat) returns (credits: seq<int>)
    requires |usable| == |weights| && i < |usable| && usable[i]
    requires forall j :: 0 <= j < |usable| && usable[j] ==> weights[j] >= 1
    ensures InRange(usable, weights, credits)
    ensures Wait(usable, weights, credits, i) == LongestWait(usable, weights, i)
  {
    credits := weights[i := 0];
    SumBound(usable, weights, credits, i, |credits|);
  }

  // Every block of n shards reaches path i, whatever credits in range it starts from, exactly when
  // n exceeds the longest wait.  Module `Coverage` says it of the credits that come about.
  lemma CoverageExactly(usable: seq<bool>, weights: seq<nat>, n: nat, i: nat)
    requires |usable| == |weights| && i < |usable| && usable[i] && SomeUsable(usable)
    requires forall j :: 0 <= j < |usable| && usable[j] ==> weights[j] >= 1
    ensures (forall credits :: InRange(usable, weights, credits) ==> Picks(usable, weights, credits, n, i) >= 1)
      <==> n > LongestWait(usable, weights, i)
  {
    if n > LongestWait(usable, weights, i) {
      forall credits | InRange(usable, weights, credits)
        ensures Picks(usable, weights, credits, n, i) >= 1
      {
        WaitBound(usable, weights, credits, i);
        ServedExactly(usable, weights, credits, n, i);
      }
    } else {
      var credits := WorstCredits(usable, weights, i);
      ServedExactly(usable, weights, credits, n, i);
    }
  }
}
