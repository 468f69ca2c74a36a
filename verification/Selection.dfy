/**
 What the choice of the k lowest shards costs.  The receiver tries to decode after every shard,
 but never looks beyond the k received shards of lowest index (`try_decode` in src/rx.c), so it
 can fail although other shards it holds would have decoded the block.  This module says exactly
 when, for one attempt and over all orders of arrival.
 */
module Selection {
  import opened Fields
  import opened LinearAlgebra
  import opened Codec
  import opened Encoder
  import opened Erasure
  import Gf256
  import UnboundedWindow

  // The indices of k received shards.
  ghost predicate IsChoice(received: seq<bool>, c: seq<nat>, k: nat)
  {
    |c| == k && Increasing(c) && forall r :: 0 <= r < |c| ==> c[r] < |received| && received[c[r]]
  }

  // The rows of the shards c can be solved.
  ghost predicate Independent<E(!new)>(f: Field<E>, k: nat, c: seq<nat>, draws: Matrix<E>)
  {
    && |c| == k && (forall i :: 0 <= i < |c| ==> EnoughDraws(draws, k, c[i] + 1))
    && !Singular(f, ChosenRows(f, k, c, draws, k))
  }

  // Some k received shards would decode the block.
  ghost predicate Solvable<E(!new)>(f: Field<E>, k: nat, draws: Matrix<E>, received: seq<bool>)
  {
    exists c :: IsChoice(received, c, k) && Independent(f, k, c, draws)
  }

  // The k received shards of lowest index do.
  ghost predicate LowestDecode<E(!new)>(f: Field<E>, k: nat, draws: Matrix<E>, received: seq<bool>)
  {
    Independent(f, k, Chosen(received, |received|, k), draws)
  }

  // ---------------------------------------------------------------------------------------
  // What is chosen when more, or fewer, shards are looked at.

  lemma {:induction false} ChosenPrefix(received: seq<bool>, n: nat, k: nat)
    requires n <= |received|
    ensures var d := Chosen(received, n, k + 1); Chosen(received, n, k) == if |d| > k then d[..k] else d
  {
    if n > 0 {
      ChosenPrefix(received, n - 1, k);
      var d := Chosen(received, n - 1, k + 1);
      if |d| == k {
        assert (d + [n - 1])[..k] == d;
      }
    }
  }

  lemma {:induction false} ChosenExtends(received: seq<bool>, j: nat, n: nat, k: nat)
    requires j <= n <= |received|
    ensures var c, d := Chosen(received, j, k), Chosen(received, n, k);
      |c| <= |d| && d[..|c|] == c && forall r :: |c| <= r < |d| ==> d[r] >= j
    decreases n - j
  {
    if j < n {
      ChosenExtends(received, j, n - 1, k);
    }
  }

  // No choice is larger than the number of received shards, and one that is as large is what the
  // receiver chooses.
  lemma {:induction false} ChoiceIsChosen(received: seq<bool>, n: nat, c: seq<nat>)
    requires n <= |received| && Increasing(c)
    requires forall r :: 0 <= r < |c| ==> c[r] < n && received[c[r]]
    ensures |c| <= Count(received, n)
    ensures |c| == Count(received, n) ==> c == Chosen(received, n, |c|)
    decreases n, 1
  {
    if n > 0 {
      if c != [] && c[|c| - 1] == n - 1 {
        ChoiceWithLast(received, n, c);
      } else {
        assert forall r :: 0 <= r < |c| - 1 ==> c[r] < c[|c| - 1];
        ChoiceIsChosen(received, n - 1, c);
      }
    }
  }

  lemma {:induction false} ChoiceWithLast(received: seq<bool>, n: nat, c: seq<nat>)
    requires 0 < n <= |received| && Increasing(c) && c != [] && c[|c| - 1] == n - 1
    requires forall r :: 0 <= r < |c| ==> c[r] < n && received[c[r]]
    ensures |c| <= Count(received, n)
    ensures |c| == Count(received, n) ==> c == Chosen(received, n, |c|)
    decreases n, 0
  {
    var e := |c| - 1;
    var d := c[..e];
    assert received[c[e]];
    assert c == d + [n - 1];
    ChoiceIsChosen(received, n - 1, d);
    if |c| == Count(received, n) {
      ChosenPrefix(received, n - 1, e);
      ChosenCount(received, n - 1, e + 1);
    }
  }

  // The packets lost among the first n, lowest first.
  function Lost(received: seq<bool>, n: nat): (l: seq<nat>)
    requires n <= |received|
  {
    if n == 0 then [] else Lost(received, n - 1) + if received[n - 1] then [] else [n - 1]
  }

  lemma {:induction false} LostAreLost(received: seq<bool>, n: nat)
    requires n <= |received|
    ensures var l := Lost(received, n);
      && |l| + Count(received, n) == n
      && Increasing(l)
      && forall t :: 0 <= t < |l| ==> l[t] < n && !received[l[t]]
  {
    if n > 0 {
      LostAreLost(received, n - 1);
    }
  }

  lemma {:induction false} LostIsListed(received: seq<bool>, n: nat, j: nat) returns (t: nat)
    requires j < n <= |received| && !received[j]
    ensures t < |Lost(received, n)| && Lost(received, n)[t] == j
  {
    if j == n - 1 {
      t := |Lost(received, n)| - 1;
    } else {
      t := LostIsListed(received, n - 1, j);
    }
  }

  // ---------------------------------------------------------------------------------------
  // Draws that defeat the choice: the two lowest coded shards are equal, and each of the others
  // tells one more lost packet apart.

  // The place of shard s in c.
  function Place(c: seq<nat>, s: nat): (i: nat)
    ensures i <= |c|
  {
    if c == [] then 0
    else if Place(c[..|c| - 1], s) < |c| - 1 then Place(c[..|c| - 1], s)
    else if c[|c| - 1] == s then |c| - 1
    else |c|
  }

  lemma {:induction false} PlaceOf(c: seq<nat>, i: nat)
    requires Increasing(c) && i < |c|
    ensures Place(c, c[i]) == i
  {
    var e := |c| - 1;
    if i < e {
      PlaceOf(c[..e], i);
    } else {
      NoPlace(c[..e], c[e]);
    }
  }

  lemma {:induction false} NoPlace(c: seq<nat>, s: nat)
    requires forall r :: 0 <= r < |c| ==> c[r] != s
    ensures Place(c, s) == |c|
  {
    if c != [] {
      NoPlace(c[..|c| - 1], s);
    }
  }

  // Ones, but one more than one for the t-th lost packet.
  ghost function Bumped<E>(f: Field<E>, k: nat, lost: seq<nat>, a: E, t: int): (r: Vec<E>)
    requires forall j :: 0 <= j < |lost| ==> lost[j] < k
    ensures |r| == k
  {
    if 1 <= t < |lost| then Ones(f, k)[lost[t] := f.Add(f.one, a)] else Ones(f, k)
  }

  // Rows for the shards k, ..., k + n - 1; the first coded shard of c is at place m.
  ghost function Defeating<E>(f: Field<E>, k: nat, c: seq<nat>, m: nat, lost: seq<nat>, a: E, n: nat): (d: Matrix<E>)
    requires forall j :: 0 <= j < |lost| ==> lost[j] < k
    ensures IsMatrix(d, n, k)
    ensures forall i :: 0 <= i < n ==> d[i] == Bumped(f, k, lost, a, Place(c, k + i) - m - 1)
  {
    if n == 0 then []
    else Defeating(f, k, c, m, lost, a, n - 1) + [Bumped(f, k, lost, a, Place(c, k + n - 1) - m - 1)]
  }

  lemma BumpedNonZero<E(!new)>(f: Field<E>, k: nat, lost: seq<nat>, a: E, t: int)
    requires Laws(f) && a != f.one
    requires forall j :: 0 <= j < |lost| ==> lost[j] < k
    ensures NonZero(f, Bumped(f, k, lost, a, t), k) == Bumped(f, k, lost, a, t)
  {
    OneIsNotZero(f);
    AddCancel(f, f.one, a, a);
  }

  lemma {:induction false} DotBump<E(!new)>(f: Field<E>, u: Vec<E>, x: Vec<E>, l: nat, a: E, n: nat)
    requires Laws(f)
    requires n <= |u| == |x| && l < |u|
    ensures Dot(f, u[l := f.Add(u[l], a)], x, n) == f.Add(Dot(f, u, x, n), if l < n then f.Mul(a, x[l]) else f.zero)
  {
    if n == 0 {
      AddZero(f, f.zero);
    } else {
      DotBump(f, u, x, l, a, n - 1);
      var s, p := Dot(f, u, x, n - 1), f.Mul(u[n - 1], x[n - 1]);
      AddZero(f, s);
      AddZero(f, f.Add(s, p));
      if l < n - 1 {
        AddAssoc(f, s, f.Mul(a, x[l]), p);
        AddComm(f, f.Mul(a, x[l]), p);
        AddAssoc(f, s, p, f.Mul(a, x[l]));
      } else if l == n - 1 {
        Distribute(f, x[l], u[l], a);
        AddAssoc(f, s, p, f.Mul(a, x[l]));
      }
    }
  }

  lemma DotBumped<E(!new)>(f: Field<E>, k: nat, lost: seq<nat>, a: E, t: int, x: Vec<E>)
    requires Laws(f) && |x| == k
    requires forall j :: 0 <= j < |lost| ==> lost[j] < k
    ensures Dot(f, Bumped(f, k, lost, a, t), x, k)
         == if 1 <= t < |lost| then f.Add(Dot(f, Ones(f, k), x, k), f.Mul(a, x[lost[t]])) else Dot(f, Ones(f, k), x, k)
  {
    if 1 <= t < |lost| {
      DotBump(f, Ones(f, k), x, lost[t], a, k);
    }
  }

  // ---------------------------------------------------------------------------------------
  // The situation: more than k shards received, at least two packets lost.

  // j is among the first n of c.
  ghost predicate Listed(c: seq<nat>, n: nat, j: nat)
    requires n <= |c|
  {
    exists r :: 0 <= r < n && c[r] == j
  }

  // c are the k + 1 lowest received shards, the first m of them packets.
  ghost predicate Surplus(received: seq<bool>, k: nat, c: seq<nat>, m: nat, lost: seq<nat>)
  {
    && |c| == k + 1 && k <= |received| && IsChoice(received, c, k + 1)
    && m + |lost| == k && |lost| >= 2
    && (forall r :: 0 <= r < m ==> c[r] < k) && (forall r :: m <= r <= k ==> c[r] >= k)
    && Increasing(lost) && (forall t :: 0 <= t < |lost| ==> lost[t] < k && !received[lost[t]])
    && (forall j :: 0 <= j < k ==> if received[j] then Listed(c, m, j) else Listed(lost, |lost|, j))
    && c[..k] == Chosen(received, |received|, k)
  }

  lemma SurplusOf(received: seq<bool>, k: nat) returns (c: seq<nat>, m: nat, lost: seq<nat>)
    requires k <= |received| && Count(received, |received|) > k && !AtMostOneLost(received, k)
    ensures Surplus(received, k, c, m, lost)
  {
    c, m := SurplusChoice(received, k);
    lost := TwoLost(received, k);
  }

  lemma SurplusChoice(received: seq<bool>, k: nat) returns (c: seq<nat>, m: nat)
    requires k <= |received| && Count(received, |received|) > k
    ensures IsChoice(received, c, k + 1) && c[..k] == Chosen(received, |received|, k)
    ensures m == Count(received, k) <= k
    ensures (forall r :: 0 <= r < m ==> c[r] < k) && (forall r :: m <= r <= k ==> c[r] >= k)
    ensures forall j :: 0 <= j < k && received[j] ==> Listed(c, m, j)
  {
    c, m := Chosen(received, |received|, k + 1), |Chosen(received, k, k + 1)|;
    ChosenCount(received, |received|, k + 1);
    ChosenCount(received, k, k + 1);
    CountBound(received, k);
    ChosenIncreasing(received, |received|, k + 1);
    ChosenPrefix(received, |received|, k);
    LowPart(received, k, c, m);
    forall j | 0 <= j < k && received[j]
      ensures Listed(c, m, j)
    {
      var r := LowIsListed(received, k, j);
      assert c[r] == c[..m][r];
    }
  }

  lemma TwoLost(received: seq<bool>, k: nat) returns (lost: seq<nat>)
    requires k <= |received| && !AtMostOneLost(received, k)
    ensures |lost| >= 2 && |lost| + Count(received, k) == k
    ensures Increasing(lost) && forall t :: 0 <= t < |lost| ==> lost[t] < k && !received[lost[t]]
    ensures forall j :: 0 <= j < k && !received[j] ==> Listed(lost, |lost|, j)
  {
    lost := Lost(received, k);
    LostAreLost(received, k);
    forall j | 0 <= j < k && !received[j]
      ensures Listed(lost, |lost|, j)
    {
      var t := LostIsListed(received, k, j);
    }
    var i, j :| 0 <= i < k && 0 <= j < k && !received[i] && !received[j] && i != j;
    var s := LostIsListed(received, k, i);
    var t := LostIsListed(received, k, j);
  }

  // The first m chosen shards are those below k.
  lemma LowPart(received: seq<bool>, k: nat, c: seq<nat>, m: nat)
    requires k <= |received| && c == Chosen(received, |received|, k + 1) && m == |Chosen(received, k, k + 1)|
    ensures m <= |c| && c[..m] == Chosen(received, k, k + 1)
    ensures forall r :: 0 <= r < m ==> c[r] < k
    ensures forall r :: m <= r < |c| ==> c[r] >= k
  {
    ChosenExtends(received, k, |received|, k + 1);
    var low := Chosen(received, k, k + 1);
    assert forall r :: 0 <= r < m ==> c[r] == c[..m][r] == low[r];
  }

  lemma LowIsListed(received: seq<bool>, k: nat, j: nat) returns (r: nat)
    requires j < k <= |received| && received[j]
    ensures r < |Chosen(received, k, k + 1)| && Chosen(received, k, k + 1)[r] == j
  {
    ChosenCount(received, k, k + 1);
    CountBound(received, k);
    ChosenAreLowest(received, k, k + 1, j);
    var c := Chosen(received, k, k + 1);
    r :| 0 <= r < |c| && c[r] == j;
  }

  lemma {:induction false} CountBound(received: seq<bool>, n: nat)
    requires n <= |received|
    ensures Count(received, n) <= n
  {
    if n > 0 {
      CountBound(received, n - 1);
    }
  }

  // c without place m.
  function Without(c: seq<nat>, m: nat): (d: seq<nat>)
    requires m < |c|
    ensures |d| == |c| - 1
    ensures forall i :: 0 <= i < |d| ==> d[i] == if i < m then c[i] else c[i + 1]
  {
    c[..m] + c[m + 1..]
  }

  // The row of the shard at place i of c.
  lemma RowAt<E(!new)>(f: Field<E>, received: seq<bool>, k: nat, c: seq<nat>, m: nat, lost: seq<nat>, a: E, i: nat)
    requires Laws(f) && a != f.one && Surplus(received, k, c, m, lost) && i <= k
    ensures var draws := Defeating(f, k, c, m, lost, a, |received| - k);
      && EnoughDraws(draws, k, c[i] + 1)
      && CoeffRow(f, k, c[i], draws) == if i < m then Unit(f, k, c[i]) else Bumped(f, k, lost, a, i - m - 1)
  {
    if i >= m {
      PlaceOf(c, i);
      BumpedNonZero(f, k, lost, a, i - m - 1);
    }
  }

  lemma BumpedIsBlind<E(!new)>(f: Field<E>, k: nat, lost: seq<nat>, a: E, t: int)
    requires Laws(f) && |lost| >= 2 && Increasing(lost) && (forall j :: 0 <= j < |lost| ==> lost[j] < k) && t < |lost| - 1
    ensures Dot(f, Bumped(f, k, lost, a, t), Pair(f, k, lost[0], lost[|lost| - 1]), k) == f.zero
  {
    var p, q := lost[0], lost[|lost| - 1];
    var x := Pair(f, k, p, q);
    DotOnesPair(f, Ones(f, k), x, p, q, k);
    DotBumped(f, k, lost, a, t, x);
    MulZero(f, a);
    AddZero(f, f.zero);
  }

  lemma UnitIsBlind<E(!new)>(f: Field<E>, k: nat, j: nat, p: nat, q: nat)
    requires Laws(f) && j < k && j != p && j != q
    ensures Dot(f, Unit(f, k, j), Pair(f, k, p, q), k) == f.zero
  {
    DotUnit(f, Unit(f, k, j), Pair(f, k, p, q), j, k);
  }

  // No row of the k lowest tells the first lost packet from the last.
  lemma RowIsBlind<E(!new)>(f: Field<E>, received: seq<bool>, k: nat, c: seq<nat>, m: nat, lost: seq<nat>, a: E, r: nat)
    requires Laws(f) && a != f.one && Surplus(received, k, c, m, lost) && r < k
    ensures var draws := Defeating(f, k, c, m, lost, a, |received| - k);
      && EnoughDraws(draws, k, c[r] + 1)
      && Dot(f, CoeffRow(f, k, c[r], draws), Pair(f, k, lost[0], lost[|lost| - 1]), k) == f.zero
  {
    RowAt(f, received, k, c, m, lost, a, r);
    if r < m {
      assert received[c[r]];
      UnitIsBlind(f, k, c[r], lost[0], lost[|lost| - 1]);
    } else {
      BumpedIsBlind(f, k, lost, a, r - m - 1);
    }
  }

  lemma RowsAreSingular<E(!new)>(f: Field<E>, k: nat, c: seq<nat>, draws: Matrix<E>, x: Vec<E>)
    requires |c| == k == |x| && !IsZero(f, x) && forall i :: 0 <= i < |c| ==> EnoughDraws(draws, k, c[i] + 1)
    requires forall i :: 0 <= i < |c| ==> Dot(f, CoeffRow(f, k, c[i], draws), x, k) == f.zero
    ensures Singular(f, ChosenRows(f, k, c, draws, k))
  {
    assert IsKernelVector(f, ChosenRows(f, k, c, draws, k), x);
  }

  // So the k lowest are dependent.
  lemma LowestAreSingular<E(!new)>(f: Field<E>, received: seq<bool>, k: nat, c: seq<nat>, m: nat, lost: seq<nat>, a: E)
    requires Laws(f) && a != f.one && Surplus(received, k, c, m, lost)
    ensures !LowestDecode(f, k, Defeating(f, k, c, m, lost, a, |received| - k), received)
  {
    var draws := Defeating(f, k, c, m, lost, a, |received| - k);
    var d, x := c[..k], Pair(f, k, lost[0], lost[|lost| - 1]);
    forall r | 0 <= r < k
      ensures EnoughDraws(draws, k, d[r] + 1) && Dot(f, CoeffRow(f, k, d[r], draws), x, k) == f.zero
    {
      RowIsBlind(f, received, k, c, m, lost, a, r);
    }
    OneIsNotZero(f);
    assert x[lost[0]] == f.one;
    RowsAreSingular(f, k, d, draws, x);
  }

  // x is sent to zero by the row of the shard at place i of c.
  ghost predicate Annihilated<E>(f: Field<E>, n: nat, k: nat, c: seq<nat>, m: nat, lost: seq<nat>, a: E, x: Vec<E>, i: nat)
    requires k <= n && |x| == k && i < |c| && forall j :: 0 <= j < |lost| ==> lost[j] < k
  {
    var draws := Defeating(f, k, c, m, lost, a, n - k);
    EnoughDraws(draws, k, c[i] + 1) && Dot(f, CoeffRow(f, k, c[i], draws), x, k) == f.zero
  }

  lemma PacketIsZero<E(!new)>(f: Field<E>, received: seq<bool>, k: nat, c: seq<nat>, m: nat, lost: seq<nat>, a: E, x: Vec<E>, r: nat)
    requires Laws(f) && a != f.one && Surplus(received, k, c, m, lost) && |x| == k && r < m
    requires Annihilated(f, |received|, k, c, m, lost, a, x, r)
    ensures x[c[r]] == f.zero
  {
    RowAt(f, received, k, c, m, lost, a, r);
    DotUnit(f, Unit(f, k, c[r]), x, c[r], k);
  }

  lemma SumIsZero<E(!new)>(f: Field<E>, received: seq<bool>, k: nat, c: seq<nat>, m: nat, lost: seq<nat>, a: E, x: Vec<E>)
    requires Laws(f) && a != f.one && Surplus(received, k, c, m, lost) && |x| == k
    requires Annihilated(f, |received|, k, c, m, lost, a, x, m + 1)
    ensures Dot(f, Ones(f, k), x, k) == f.zero
  {
    RowOfLost(f, received, k, c, m, lost, a, 0);
  }

  lemma LostIsZero<E(!new)>(f: Field<E>, received: seq<bool>, k: nat, c: seq<nat>, m: nat, lost: seq<nat>, a: E, x: Vec<E>, t: nat)
    requires Laws(f) && a != f.one && a != f.zero && Surplus(received, k, c, m, lost) && |x| == k && 1 <= t < |lost|
    requires Annihilated(f, |received|, k, c, m, lost, a, x, m + 1 + t)
    requires Dot(f, Ones(f, k), x, k) == f.zero
    ensures x[lost[t]] == f.zero
  {
    RowOfLost(f, received, k, c, m, lost, a, t);
    BumpedFindsZero(f, k, lost, a, t, x);
  }

  lemma RowOfLost<E(!new)>(f: Field<E>, received: seq<bool>, k: nat, c: seq<nat>, m: nat, lost: seq<nat>, a: E, t: nat)
    requires Laws(f) && a != f.one && Surplus(received, k, c, m, lost) && t < |lost|
    ensures var draws := Defeating(f, k, c, m, lost, a, |received| - k);
      EnoughDraws(draws, k, c[m + 1 + t] + 1) && CoeffRow(f, k, c[m + 1 + t], draws) == Bumped(f, k, lost, a, t)
  {
    var i := m + 1 + t;
    assert i - m - 1 == t;
    RowAt(f, received, k, c, m, lost, a, i);
  }

  lemma BumpedFindsZero<E(!new)>(f: Field<E>, k: nat, lost: seq<nat>, a: E, t: nat, x: Vec<E>)
    requires Laws(f) && a != f.zero && |x| == k && 1 <= t < |lost|
    requires forall j :: 0 <= j < |lost| ==> lost[j] < k
    requires Dot(f, Ones(f, k), x, k) == f.zero == Dot(f, Bumped(f, k, lost, a, t), x, k)
    ensures x[lost[t]] == f.zero
  {
    DotBumped(f, k, lost, a, t, x);
    AddZero(f, f.Mul(a, x[lost[t]]));
    MulNonZero(f, a, x[lost[t]]);
  }

  // Without the lowest coded shard, the others determine every packet.
  lemma OthersDetermineAll<E(!new)>(f: Field<E>, received: seq<bool>, k: nat, c: seq<nat>, m: nat, lost: seq<nat>, a: E, x: Vec<E>)
    requires Laws(f) && a != f.one && a != f.zero && Surplus(received, k, c, m, lost) && |x| == k
    requires forall i :: 0 <= i <= k && i != m ==> Annihilated(f, |received|, k, c, m, lost, a, x, i)
    ensures IsZero(f, x)
  {
    SumIsZero(f, received, k, c, m, lost, a, x);
    forall j | 0 <= j < k && j != lost[0]
      ensures x[j] == f.zero
    {
      if received[j] {
        assert Listed(c, m, j);
        var r :| 0 <= r < m && c[r] == j;
        PacketIsZero(f, received, k, c, m, lost, a, x, r);
      } else {
        assert Listed(lost, |lost|, j);
        var t :| 0 <= t < |lost| && lost[t] == j;
        LostIsZero(f, received, k, c, m, lost, a, x, t);
      }
    }
    DotOnly(f, Ones(f, k), x, lost[0], k);
    MulOne(f, x[lost[0]]);
  }

  lemma OthersAreIndependent<E(!new)>(f: Field<E>, received: seq<bool>, k: nat, c: seq<nat>, m: nat, lost: seq<nat>, a: E)
    requires Laws(f) && a != f.one && a != f.zero && Surplus(received, k, c, m, lost)
    ensures Solvable(f, k, Defeating(f, k, c, m, lost, a, |received| - k), received)
  {
    var draws, d := Defeating(f, k, c, m, lost, a, |received| - k), Without(c, m);
    WithoutIsChoice(received, k, c, m, lost);
    assert EnoughDraws(draws, k, |received|);
    var rows := ChosenRows(f, k, d, draws, k);
    if Singular(f, rows) {
      var x :| IsKernelVector(f, rows, x);
      OthersAnnihilate(f, received, k, c, m, lost, a, x);
    }
    assert Independent(f, k, d, draws);
  }

  lemma WithoutIsChoice(received: seq<bool>, k: nat, c: seq<nat>, m: nat, lost: seq<nat>)
    requires Surplus(received, k, c, m, lost)
    ensures IsChoice(received, Without(c, m), k)
  {
  }

  lemma RowAnnihilates<E(!new)>(f: Field<E>, k: nat, d: seq<nat>, draws: Matrix<E>, x: Vec<E>, r: nat)
    requires r < k == |d| == |x| && (forall i :: 0 <= i < k ==> EnoughDraws(draws, k, d[i] + 1))
    requires Annihilates(f, ChosenRows(f, k, d, draws, k), x)
    ensures Dot(f, CoeffRow(f, k, d[r], draws), x, k) == f.zero
  {
    assert ChosenRows(f, k, d, draws, k)[r] == CoeffRow(f, k, d[r], draws);
  }

  lemma OtherAnnihilates<E(!new)>(f: Field<E>, received: seq<bool>, k: nat, c: seq<nat>, m: nat, lost: seq<nat>, a: E, x: Vec<E>, r: nat)
    requires Laws(f) && a != f.one && Surplus(received, k, c, m, lost) && |x| == k && r < k
    requires var draws, d := Defeating(f, k, c, m, lost, a, |received| - k), Without(c, m);
      && (forall i :: 0 <= i < k ==> EnoughDraws(draws, k, d[i] + 1))
      && Annihilates(f, ChosenRows(f, k, d, draws, k), x)
    ensures Annihilated(f, |received|, k, c, m, lost, a, x, if r < m then r else r + 1)
  {
    var draws, d := Defeating(f, k, c, m, lost, a, |received| - k), Without(c, m);
    assert d[r] == c[if r < m then r else r + 1];
    RowAnnihilates(f, k, d, draws, x, r);
  }

  lemma OthersAnnihilate<E(!new)>(f: Field<E>, received: seq<bool>, k: nat, c: seq<nat>, m: nat, lost: seq<nat>, a: E, x: Vec<E>)
    requires Laws(f) && a != f.one && a != f.zero && Surplus(received, k, c, m, lost) && |x| == k
    requires var draws, d := Defeating(f, k, c, m, lost, a, |received| - k), Without(c, m);
      && (forall i :: 0 <= i < k ==> EnoughDraws(draws, k, d[i] + 1))
      && Annihilates(f, ChosenRows(f, k, d, draws, k), x)
    ensures IsZero(f, x)
  {
    forall i | 0 <= i <= k && i != m
      ensures Annihilated(f, |received|, k, c, m, lost, a, x, i)
    {
      OtherAnnihilates(f, received, k, c, m, lost, a, x, if i < m then i else i - 1);
    }
    OthersDetermineAll(f, received, k, c, m, lost, a, x);
  }

  // With more than k shards received and two packets lost, there are draws for which some k of
  // the shards would decode the block and the k lowest do not.
  lemma ChoiceCanFail<E(!new)>(f: Field<E>, k: nat, received: seq<bool>, a: E) returns (draws: Matrix<E>)
    requires Laws(f) && a != f.zero && a != f.one
    requires k <= |received| && Count(received, |received|) > k && !AtMostOneLost(received, k)
    ensures EnoughDraws(draws, k, |received|)
    ensures Solvable(f, k, draws, received) && !LowestDecode(f, k, draws, received)
  {
    var c, m, lost := SurplusOf(received, k);
    draws := Defeating(f, k, c, m, lost, a, |received| - k);
    LowestAreSingular(f, received, k, c, m, lost, a);
    OthersAreIndependent(f, received, k, c, m, lost, a);
  }

  lemma ChoiceCannotFail<E(!new)>(f: Field<E>, k: nat, received: seq<bool>, draws: Matrix<E>)
    requires Laws(f)
    requires k <= |received| && EnoughDraws(draws, k, |received|)
    requires Count(received, |received|) == k || AtMostOneLost(received, k)
    requires Solvable(f, k, draws, received)
    ensures LowestDecode(f, k, draws, received)
  {
    var c :| IsChoice(received, c, k) && Independent(f, k, c, draws);
    ChoiceIsChosen(received, |received|, c);
    if Count(received, |received|) != k {
      OneLossIsDecoded(f, k, |received|, draws, received);
    }
  }

  // For one attempt, on the shards received so far: any k independent ones being enough holds for
  // all draws exactly when no more than k shards were received or at most one packet was lost.
  // Over fields with an element besides zero and one, that is, with a choice of coefficients.
  lemma AnyIndependentSufficeExactly<E(!new)>(f: Field<E>, k: nat, received: seq<bool>, a: E)
    requires Laws(f) && a != f.zero && a != f.one
    requires k <= |received| && Count(received, |received|) >= k
    ensures (forall draws: Matrix<E> :: EnoughDraws(draws, k, |received|) && Solvable(f, k, draws, received) ==>
        LowestDecode(f, k, draws, received))
      <==> Count(received, |received|) == k || AtMostOneLost(received, k)
  {
    if Count(received, |received|) == k || AtMostOneLost(received, k) {
      forall draws: Matrix<E> | EnoughDraws(draws, k, |received|) && Solvable(f, k, draws, received)
        ensures LowestDecode(f, k, draws, received)
      {
        ChoiceCannotFail(f, k, received, draws);
      }
    } else {
      var draws := ChoiceCanFail(f, k, received, a);
    }
  }

  // ---------------------------------------------------------------------------------------
  // Attempts after every shard.

  // The flags after the shards of an order have arrived too.
  function FlagsAfter(flags: seq<bool>, order: seq<nat>): (r: seq<bool>)
    requires forall i :: 0 <= i < |order| ==> order[i] < |flags|
    ensures |r| == |flags|
    decreases |order|
  {
    if order == [] then flags else FlagsAfter(flags[order[0] := true], order[1..])
  }

  // The received shards arrive in this order, some perhaps more than once.
  ghost predicate IsOrder(order: seq<nat>, received: seq<bool>)
  {
    && (forall i :: 0 <= i < |order| ==> order[i] < |received|)
    && FlagsAfter(UnboundedWindow.NoFlags(|received|), order) == received
  }

  // One of the attempts, after each shard of the order, decodes.
  ghost predicate SomeAttempt<E(!new)>(f: Field<E>, k: nat, draws: Matrix<E>, flags: seq<bool>, order: seq<nat>)
    requires forall i :: 0 <= i < |order| ==> order[i] < |flags|
    decreases |order|
  {
    order != [] &&
    var now := flags[order[0] := true];
    LowestDecode(f, k, draws, now) || SomeAttempt(f, k, draws, now, order[1..])
  }

  // If nothing else, the last attempt counts.
  lemma {:induction false} LastAttempt<E(!new)>(f: Field<E>, k: nat, draws: Matrix<E>, flags: seq<bool>, order: seq<nat>)
    requires forall i :: 0 <= i < |order| ==> order[i] < |flags|
    requires order != [] && LowestDecode(f, k, draws, FlagsAfter(flags, order))
    ensures SomeAttempt(f, k, draws, flags, order)
    decreases |order|
  {
    var now := flags[order[0] := true];
    if |order| > 1 {
      LastAttempt(f, k, draws, now, order[1..]);
    } else {
      assert FlagsAfter(now, order[1..]) == now;
    }
  }

  // Flags that are set for the elements of c and for nothing else.
  ghost predicate FlagsOf(flags: seq<bool>, c: seq<nat>)
  {
    && (forall r :: 0 <= r < |c| ==> c[r] < |flags| && flags[c[r]])
    && forall j :: 0 <= j < |flags| && flags[j] ==> Listed(c, |c|, j)
  }

  lemma {:induction false} ChosenShorter(received: seq<bool>, n: nat, k: nat, m: nat)
    requires n <= |received| && k <= m <= |Chosen(received, n, m)|
    ensures Chosen(received, n, k) == Chosen(received, n, m)[..k]
    decreases m - k
  {
    if k < m {
      ChosenPrefix(received, n, m - 1);
      ChosenShorter(received, n, k, m - 1);
    }
  }

  lemma {:induction false} CountOfFlags(flags: seq<bool>, c: seq<nat>, n: nat)
    requires FlagsOf(flags, c) && Increasing(c) && n <= |flags|
    requires forall r :: 0 <= r < |c| ==> c[r] < n
    requires forall j :: n <= j < |flags| ==> !flags[j]
    ensures Count(flags, n) <= |c|
    decreases n
  {
    ChosenCount(flags, n, |c| + 1);
    var d := Chosen(flags, n, |c| + 1);
    ChosenIncreasing(flags, n, |c| + 1);
    if |d| > |c| {
      SubsetNoLonger(d, c);
    }
  }

  // An increasing sequence of elements of another is no longer.
  lemma {:induction false} SubsetNoLonger(d: seq<nat>, c: seq<nat>)
    requires Increasing(d) && Increasing(c)
    requires forall r :: 0 <= r < |d| ==> Listed(c, |c|, d[r])
    ensures |d| <= |c|
    decreases |d|
  {
    if d != [] {
      var e := |d| - 1;
      assert Listed(c, |c|, d[e]);
      var t :| 0 <= t < |c| && c[t] == d[e];
      forall r | 0 <= r < e
        ensures Listed(c[..t], t, d[..e][r])
      {
        assert Listed(c, |c|, d[r]);
        var q :| 0 <= q < |c| && c[q] == d[r];
        assert d[r] < d[e];
        assert c[..t][q] == d[r];
      }
      SubsetNoLonger(d[..e], c[..t]);
    }
  }

  // The scan collects the first k elements of c.
  lemma ChosenOfFlags(flags: seq<bool>, c: seq<nat>, k: nat)
    requires FlagsOf(flags, c) && Increasing(c)
    ensures Chosen(flags, |flags|, k) == if k <= |c| then c[..k] else c
  {
    ChoiceIsChosen(flags, |flags|, c);
    CountOfFlags(flags, c, |flags|);
    if k <= |c| {
      ChosenShorter(flags, |flags|, k, |c|);
    } else {
      MoreThanAll(flags, c, k);
    }
  }

  lemma {:induction false} MoreThanAll(flags: seq<bool>, c: seq<nat>, k: nat)
    requires c == Chosen(flags, |flags|, |c|) && Count(flags, |flags|) == |c| <= k
    ensures Chosen(flags, |flags|, k) == c
    decreases k
  {
    if |c| < k {
      MoreThanAll(flags, c, k - 1);
      ChosenPrefix(flags, |flags|, k - 1);
      ChosenCount(flags, |flags|, k);
    }
  }

  // In increasing order every attempt looks at the same k shards.
  lemma {:induction false} IncreasingOrder<E(!new)>(f: Field<E>, k: nat, draws: Matrix<E>, flags: seq<bool>, c: seq<nat>, m: nat)
    requires Increasing(c) && m <= |c| && FlagsOf(flags, c[..m]) && forall r :: 0 <= r < |c| ==> c[r] < |flags|
    requires |c| >= k && !Independent(f, k, c[..k], draws)
    ensures !SomeAttempt(f, k, draws, flags, c[m..])
    ensures FlagsOf(FlagsAfter(flags, c[m..]), c)
    decreases |c| - m
  {
    if m == |c| {
      assert c[..m] == c;
    } else {
      var now := flags[c[m] := true];
      assert c[m..][0] == c[m] && c[m..][1..] == c[m + 1..];
      OneMoreFlag(flags, c, m);
      LowestStay(f, k, draws, now, c, m + 1);
      IncreasingOrder(f, k, draws, now, c, m + 1);
    }
  }

  lemma LowestStay<E(!new)>(f: Field<E>, k: nat, draws: Matrix<E>, flags: seq<bool>, c: seq<nat>, m: nat)
    requires Increasing(c) && m <= |c| && FlagsOf(flags, c[..m])
    requires |c| >= k && !Independent(f, k, c[..k], draws)
    ensures !LowestDecode(f, k, draws, flags)
  {
    ChosenOfFlags(flags, c[..m], k);
    if k <= m {
      assert c[..m][..k] == c[..k];
    }
  }

  lemma OneMoreFlag(flags: seq<bool>, c: seq<nat>, m: nat)
    requires m < |c| && c[m] < |flags| && FlagsOf(flags, c[..m])
    ensures FlagsOf(flags[c[m] := true], c[..m + 1])
  {
    var now, d := flags[c[m] := true], c[..m + 1];
    forall j | 0 <= j < |now| && now[j]
      ensures Listed(d, |d|, j)
    {
      if j == c[m] {
        assert d[m] == j;
      } else {
        assert Listed(c[..m], m, j);
        var r :| 0 <= r < m && c[..m][r] == j;
        assert d[r] == j;
      }
    }
  }

  lemma SameFlags(a: seq<bool>, b: seq<bool>, c: seq<nat>)
    requires |a| == |b| && FlagsOf(a, c) && FlagsOf(b, c)
    ensures a == b
  {
    forall j | 0 <= j < |a|
      ensures a[j] == b[j]
    {
      if a[j] {
        assert Listed(c, |c|, j);
      }
      if b[j] {
        assert Listed(c, |c|, j);
      }
    }
  }

  lemma AllReceived(received: seq<bool>) returns (c: seq<nat>)
    ensures FlagsOf(received, c) && Increasing(c) && |c| == Count(received, |received|)
  {
    var n := |received|;
    c := Chosen(received, n, n + 1);
    ChosenCount(received, n, n + 1);
    ChosenIncreasing(received, n, n + 1);
    CountBound(received, n);
    forall j | 0 <= j < n && received[j]
      ensures Listed(c, |c|, j)
    {
      ChosenAreLowest(received, n, n + 1, j);
    }
  }

  // The order from the lowest shard to the highest is no better than its first k shards.
  lemma LowestFirstFails<E(!new)>(f: Field<E>, k: nat, draws: Matrix<E>, received: seq<bool>) returns (order: seq<nat>)
    requires Count(received, |received|) >= k && !LowestDecode(f, k, draws, received)
    ensures IsOrder(order, received) && !SomeAttempt(f, k, draws, UnboundedWindow.NoFlags(|received|), order)
  {
    var none := UnboundedWindow.NoFlags(|received|);
    order := AllReceived(received);
    ChosenOfFlags(received, order, k);
    assert order[..0] == [] && order[0..] == order;
    IncreasingOrder(f, k, draws, none, order, 0);
    SameFlags(FlagsAfter(none, order), received, order);
  }

  // Any k independent received shards being enough, as README.md (line 147) has it, holds for all
  // draws and all orders of arrival exactly when just k shards were received or at most one packet
  // was lost.
  lemma AnyOrderSufficesExactly<E(!new)>(f: Field<E>, k: nat, received: seq<bool>, a: E)
    requires Laws(f) && a != f.zero && a != f.one
    requires 1 <= k <= |received| && Count(received, |received|) >= k
    ensures (forall draws: Matrix<E>, order: seq<nat> ::
        EnoughDraws(draws, k, |received|) && Solvable(f, k, draws, received) && IsOrder(order, received) ==>
        SomeAttempt(f, k, draws, UnboundedWindow.NoFlags(|received|), order))
      <==> Count(received, |received|) == k || AtMostOneLost(received, k)
  {
    if Count(received, |received|) == k || AtMostOneLost(received, k) {
      forall draws: Matrix<E>, order: seq<nat>
        | EnoughDraws(draws, k, |received|) && Solvable(f, k, draws, received) && IsOrder(order, received)
        ensures SomeAttempt(f, k, draws, UnboundedWindow.NoFlags(|received|), order)
      {
        ChoiceCannotFail(f, k, received, draws);
        SomeArrive(received, order, k);
        LastAttempt(f, k, draws, UnboundedWindow.NoFlags(|received|), order);
      }
    } else {
      var draws := ChoiceCanFail(f, k, received, a);
      var order := LowestFirstFails(f, k, draws, received);
    }
  }

  lemma SomeArrive(received: seq<bool>, order: seq<nat>, k: nat)
    requires IsOrder(order, received) && Count(received, |received|) >= k >= 1
    ensures order != []
  {
    UnboundedWindow.CountNoFlags(UnboundedWindow.NoFlags(|received|), |received|);
  }

  // The same for the field of the code.
  lemma AnyIndependentBytesSufficeExactly(k: nat, received: seq<bool>)
    requires 1 <= k <= |received| && Count(received, |received|) >= k
    ensures (forall draws: Matrix<bv8>, order: seq<nat> ::
        EnoughDraws(draws, k, |received|) && Solvable(Gf256.Gf(), k, draws, received) && IsOrder(order, received) ==>
        SomeAttempt(Gf256.Gf(), k, draws, UnboundedWindow.NoFlags(|received|), order))
      <==> Count(received, |received|) == k || AtMostOneLost(received, k)
  {
    Gf256.GfIsField();
    AnyOrderSufficesExactly(Gf256.Gf(), k, received, 2);
  }

  // ---------------------------------------------------------------------------------------
  // An input on which the code fails: two packets, both lost, and three coded shards of which
  // the first two have equal coefficients.

  ghost predicate FailingDraws(draws: Matrix<bv8>, n: nat)
  {
    && n >= 5 && EnoughDraws(draws, 2, n)
    && draws[0][..2] == [1, 1] == draws[1][..2] && draws[2][..2] == [1, 2]
  }

  lemma FailingRows(draws: Matrix<bv8>, n: nat)
    requires FailingDraws(draws, n)
    ensures CoeffRow(Gf256.Gf(), 2, 2, draws) == [1, 1] == CoeffRow(Gf256.Gf(), 2, 3, draws)
    ensures CoeffRow(Gf256.Gf(), 2, 4, draws) == [1, 2]
  {
    assert draws[0][0] == draws[0][..2][0] && draws[0][1] == draws[0][..2][1];
    assert draws[1][0] == draws[1][..2][0] && draws[1][1] == draws[1][..2][1];
    assert draws[2][0] == draws[2][..2][0] && draws[2][1] == draws[2][..2][1];
  }

  lemma DotOfTwo<E(!new)>(f: Field<E>, u: Vec<E>, x: Vec<E>)
    requires Laws(f) && |u| == |x| == 2
    ensures Dot(f, u, x, 2) == f.Add(f.Mul(u[0], x[0]), f.Mul(u[1], x[1]))
  {
    assert Dot(f, u, x, 0) == f.zero;
    assert Dot(f, u, x, 1) == f.Add(f.zero, f.Mul(u[0], x[0]));
    AddZero(f, f.Mul(u[0], x[0]));
  }

  lemma FailingLowest(draws: Matrix<bv8>, n: nat)
    requires FailingDraws(draws, n)
    ensures !Independent(Gf256.Gf(), 2, [2, 3], draws)
  {
    var f, x: Vec<bv8> := Gf256.Gf(), [1, 1];
    Gf256.GfIsField();
    FailingRows(draws, n);
    DotOfTwo(f, x, x);
    MulOne(f, 1);
    AddSelf(f, 1);
    assert x[0] != f.zero;
    RowsAreSingular(f, 2, [2, 3], draws, x);
  }

  lemma FailingOthers(draws: Matrix<bv8>, n: nat)
    requires FailingDraws(draws, n)
    ensures Independent(Gf256.Gf(), 2, [2, 4], draws)
  {
    var f := Gf256.Gf();
    FailingRows(draws, n);
    var others := ChosenRows(f, 2, [2, 4], draws, 2);
    if Singular(f, others) {
      var x :| IsKernelVector(f, others, x);
      assert Dot(f, others[0], x, 2) == 0 == Dot(f, others[1], x, 2);
      FailingRowsAreIndependent(x);
    }
  }

  // x + y = 0 and x + 2y = 0 leave only zero.
  lemma FailingRowsAreIndependent(x: Vec<bv8>)
    requires |x| == 2
    requires Dot(Gf256.Gf(), [1, 1], x, 2) == 0 == Dot(Gf256.Gf(), [1, 2], x, 2)
    ensures IsZero(Gf256.Gf(), x)
  {
    var f := Gf256.Gf();
    Gf256.GfIsField();
    DotOfTwo(f, [1, 1], x);
    DotOfTwo(f, [1, 2], x);
    MulOne(f, x[0]);
    MulOne(f, x[1]);
    AddCancel(f, x[0], x[1], x[1]);
    AddCancel(f, x[0], f.Mul(2, x[1]), x[1]);
    Distribute(f, x[1], 1, 2);
    AddCancel(f, x[1], f.Mul(2, x[1]), x[1]);
    MulNonZero(f, f.Add(1, 2), x[1]);
    Gf256.GfOps(1, 2);
  }

  // Shards 2 and 4 would do, but when 2, 3 and 4 arrive in this order, every attempt looks at 2
  // and 3.
  lemma LowestShardsCanFail(draws: Matrix<bv8>, n: nat, c: seq<nat>)
    requires FailingDraws(draws, n) && c == [2, 3, 4]
    ensures var none, f := UnboundedWindow.NoFlags(n), Gf256.Gf();
      && Solvable(f, 2, draws, FlagsAfter(none, c))
      && !SomeAttempt(f, 2, draws, none, c)
  {
    var none := UnboundedWindow.NoFlags(n);
    FailingLowest(draws, n);
    FailingOthers(draws, n);
    assert c[..0] == [] && c[0..] == c && c[..2] == [2, 3];
    IncreasingOrder(Gf256.Gf(), 2, draws, none, c, 0);
    assert c[0] == 2 && c[2] == 4;
    assert IsChoice(FlagsAfter(none, c), [2, 4], 2);
  }

  lemma TwoAndFourDecode(draws: Matrix<bv8>, flags: seq<bool>, c: seq<nat>)
    requires FailingDraws(draws, |flags|) && c == [2, 4]
    requires forall j :: 0 <= j < |flags| ==> (flags[j] <==> j == 2 || j == 4)
    ensures LowestDecode(Gf256.Gf(), 2, draws, flags)
  {
    FailingOthers(draws, |flags|);
    assert c[0] == 2 && c[1] == 4 && c[..2] == c;
    ChosenOfFlags(flags, c, 2);
  }

  // The order matters: 2, 4, 3 decodes at the second shard.
  lemma AnotherOrderDecodes(draws: Matrix<bv8>, n: nat, order: seq<nat>)
    requires FailingDraws(draws, n) && order == [2, 4, 3]
    ensures SomeAttempt(Gf256.Gf(), 2, draws, UnboundedWindow.NoFlags(n), order)
  {
    var none := UnboundedWindow.NoFlags(n);
    var one := none[2 := true];
    TwoAndFourDecode(draws, one[4 := true], [2, 4]);
    assert order[1..][0] == 4;
    assert SomeAttempt(Gf256.Gf(), 2, draws, one, order[1..]);
  }
}
