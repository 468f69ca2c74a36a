/**
 Which losses the code survives.  The receiver decodes from the k received shards of lowest
 index (`try_decode` in src/rx.c), and no coefficient of a combined shard is zero.  So one lost
 packet is always made good, whatever was drawn, and two are not.
 */
module Erasure {
  import opened Fields
  import opened LinearAlgebra
  import opened Codec
  import opened Encoder

  // The indices that the scan has collected after the first n flags: received, lowest first, at
  // most k.
  function Chosen(received: seq<bool>, n: nat, k: nat): (c: seq<nat>)
    requires n <= |received|
    ensures |c| <= k
    ensures forall r :: 0 <= r < |c| ==> c[r] < n && received[c[r]]
  {
    if n == 0 then []
    else
      var c := Chosen(received, n - 1, k);
      if |c| < k && received[n - 1] then c + [n - 1] else c
  }

  ghost predicate Increasing(c: seq<nat>)
  {
    forall r, s :: 0 <= r < s < |c| ==> c[r] < c[s]
  }

  lemma {:induction false} ChosenIncreasing(received: seq<bool>, n: nat, k: nat)
    requires n <= |received|
    ensures Increasing(Chosen(received, n, k))
  {
    if n > 0 {
      ChosenIncreasing(received, n - 1, k);
    }
  }

  function Count(received: seq<bool>, n: nat): (c: nat)
    requires n <= |received|
  {
    if n == 0 then 0 else Count(received, n - 1) + if received[n - 1] then 1 else 0
  }

  lemma {:induction false} ChosenCount(received: seq<bool>, n: nat, k: nat)
    requires n <= |received|
    ensures |Chosen(received, n, k)| == if Count(received, n) < k then Count(received, n) else k
  {
    if n > 0 {
      ChosenCount(received, n - 1, k);
    }
  }

  // A received index is passed over only when k lower ones were there.
  lemma {:induction false} ChosenAreLowest(received: seq<bool>, n: nat, k: nat, j: nat)
    requires n <= |received| && j < n && received[j]
    ensures var c := Chosen(received, n, k);
      j in c || (|c| == k && forall r :: 0 <= r < |c| ==> c[r] < j)
  {
    if j < n - 1 {
      ChosenAreLowest(received, n - 1, k, j);
      var c, d := Chosen(received, n, k), Chosen(received, n - 1, k);
      if j in d {
        var r :| 0 <= r < |d| && d[r] == j;
        assert c[r] == j;
      }
    } else {
      var c, d := Chosen(received, n, k), Chosen(received, n - 1, k);
      if |d| < k {
        assert c[|d|] == j;
      }
    }
  }

  lemma {:induction false} AtLeastIndex(c: seq<nat>, r: nat)
    requires Increasing(c)
    requires r < |c|
    ensures c[r] >= r
  {
    if r > 0 {
      AtLeastIndex(c, r - 1);
    }
  }

  // Increasing indices that end below their number are 0, 1, 2, ...
  lemma {:induction false} FilledUp(c: seq<nat>, r: nat)
    requires Increasing(c)
    requires |c| > 0 && c[|c| - 1] < |c| && r < |c|
    ensures c[r] == r
    decreases |c| - r
  {
    AtLeastIndex(c, r);
    if r < |c| - 1 {
      FilledUp(c, r + 1);
    }
  }

  // ---------------------------------------------------------------------------------------
  // Decoding chosen shards.

  ghost function ChosenRows<E>(f: Field<E>, k: nat, c: seq<nat>, draws: Matrix<E>, n: nat): (m: Matrix<E>)
    requires n <= |c| && forall i :: 0 <= i < |c| ==> EnoughDraws(draws, k, c[i] + 1)
    ensures IsMatrix(m, n, k)
    ensures forall i :: 0 <= i < n ==> m[i] == CoeffRow(f, k, c[i], draws)
  {
    if n == 0 then [] else ChosenRows(f, k, c, draws, n - 1) + [CoeffRow(f, k, c[n - 1], draws)]
  }

  // A decoder input whose i-th shard is shard c[i] of the block.
  ghost predicate AreShardsOf<E>(f: Field<E>, p: Matrix<E>, w: nat, draws: Matrix<E>, c: seq<nat>, shards: seq<Shard<E>>)
    requires IsMatrix(p, |p|, w) && forall i :: 0 <= i < |c| ==> EnoughDraws(draws, |p|, c[i] + 1)
  {
    |shards| == |c| && forall i :: 0 <= i < |c| ==> shards[i] == EncodedShard(f, p, w, c[i], draws)
  }

  lemma ChosenCoefficients<E>(f: Field<E>, p: Matrix<E>, w: nat, draws: Matrix<E>, c: seq<nat>, shards: seq<Shard<E>>)
    requires IsMatrix(p, |p|, w) && forall i :: 0 <= i < |c| ==> EnoughDraws(draws, |p|, c[i] + 1)
    requires AreShardsOf(f, p, w, draws, c, shards) && |c| == |p|
    ensures Uniform(shards, |p|, w)
    ensures CoeffRows(shards, |p|, |p|) == ChosenRows(f, |p|, c, draws, |c|)
  {
    var m, e := CoeffRows(shards, |p|, |p|), ChosenRows(f, |p|, c, draws, |c|);
    forall i | 0 <= i < |p|
      ensures m[i] == e[i]
    {
      assert shards[i] == EncodedShard(f, p, w, c[i], draws);
    }
  }

  lemma ChosenProduct<E>(f: Field<E>, p: Matrix<E>, w: nat, draws: Matrix<E>, c: seq<nat>, shards: seq<Shard<E>>)
    requires IsMatrix(p, |p|, w) && forall i :: 0 <= i < |c| ==> EnoughDraws(draws, |p|, c[i] + 1)
    requires AreShardsOf(f, p, w, draws, c, shards) && |c| == |p|
    requires Uniform(shards, |p|, w)
    ensures IsProduct(f, CoeffRows(shards, |p|, |p|), p, DataRows(shards, |p|, w), w)
  {
    var m, d := CoeffRows(shards, |p|, |p|), DataRows(shards, |p|, w);
    forall t, i | 0 <= t < w && 0 <= i < |p|
      ensures d[i][t] == Dot(f, m[i], Column(p, t), |p|)
    {
      var shard := EncodedShard(f, p, w, c[i], draws);
      assert shards[i] == shard && d[i] == shard.data && m[i] == shard.coeffs;
      EncodedAt(f, p, w, c[i], draws, t);
    }
  }

  lemma EncodedAt<E>(f: Field<E>, p: Matrix<E>, w: nat, s: nat, draws: Matrix<E>, t: nat)
    requires IsMatrix(p, |p|, w) && EnoughDraws(draws, |p|, s + 1) && t < w
    ensures var shard := EncodedShard(f, p, w, s, draws);
      |shard.coeffs| == |p| && |shard.data| == w && shard.data[t] == Dot(f, shard.coeffs, Column(p, t), |p|)
  {
  }

  // Whatever shards of a block are chosen, decoding them returns the block or fails because
  // their coefficient rows are dependent.
  lemma ChosenDecodeExactly<E(!new)>(f: Field<E>, p: Matrix<E>, w: nat, draws: Matrix<E>, c: seq<nat>,
                                     shards: seq<Shard<E>>, r: Option<Matrix<E>>)
    requires IsMatrix(p, |p|, w) && forall i :: 0 <= i < |c| ==> EnoughDraws(draws, |p|, c[i] + 1)
    requires AreShardsOf(f, p, w, draws, c, shards) && |c| == |p|
    requires Uniform(shards, |p|, w)
    requires Decodes(f, CoeffRows(shards, |p|, |p|), DataRows(shards, |p|, w), w, r)
    ensures r == if Singular(f, ChosenRows(f, |p|, c, draws, |c|)) then None else Some(p)
  {
    ChosenCoefficients(f, p, w, draws, c, shards);
    ChosenProduct(f, p, w, draws, c, shards);
    DecodingIsExact(f, CoeffRows(shards, |p|, |p|), p, DataRows(shards, |p|, w), w, r);
  }

  // ---------------------------------------------------------------------------------------
  // One lost packet.

  ghost predicate AtMostOneLost(received: seq<bool>, k: nat)
    requires k <= |received|
  {
    forall i, j :: 0 <= i < k && 0 <= j < k && !received[i] && !received[j] ==> i == j
  }

  // Only the unknown m can contribute.
  lemma {:induction false} DotOnly<E(!new)>(f: Field<E>, u: Vec<E>, x: Vec<E>, m: nat, n: nat)
    requires Laws(f)
    requires n <= |u| && n <= |x| && m < |u| && m < |x|
    requires forall j :: 0 <= j < n && j != m ==> x[j] == f.zero
    ensures Dot(f, u, x, n) == if m < n then f.Mul(u[m], x[m]) else f.zero
  {
    if n > 0 {
      DotOnly(f, u, x, m, n - 1);
      MulZero(f, u[n - 1]);
      AddZero(f, f.Mul(u[n - 1], x[n - 1]));
      AddZero(f, Dot(f, u, x, n - 1));
    }
  }

  // A received packet is among the chosen shards, so its unknown is determined.
  lemma ReceivedPacketIsChosen(received: seq<bool>, n: nat, k: nat, j: nat)
    returns (r: nat)
    requires n == |received| && k <= n && j < k && received[j]
    requires Count(received, n) >= k
    ensures r < |Chosen(received, n, k)| == k && Chosen(received, n, k)[r] == j
  {
    var c := Chosen(received, n, k);
    ChosenCount(received, n, k);
    ChosenIncreasing(received, n, k);
    ChosenAreLowest(received, n, k, j);
    AtLeastIndex(c, k - 1);
    assert j in c;
    r :| 0 <= r < |c| && c[r] == j;
  }

  // If packet m was lost, the last chosen shard is a combination.
  lemma CombinationIsChosen(received: seq<bool>, n: nat, k: nat, m: nat)
    requires n == |received| && k <= n && m < k && !received[m]
    requires Count(received, n) >= k
    ensures |Chosen(received, n, k)| == k && Chosen(received, n, k)[k - 1] >= k
  {
    var c := Chosen(received, n, k);
    ChosenCount(received, n, k);
    ChosenIncreasing(received, n, k);
    if c[k - 1] < k {
      FilledUp(c, m);
    }
  }

  lemma OneLossDeterminesAll<E(!new)>(f: Field<E>, k: nat, n: nat, draws: Matrix<E>, received: seq<bool>, x: Vec<E>)
    requires Laws(f)
    requires n == |received| && k <= n && EnoughDraws(draws, k, n)
    requires Count(received, n) >= k
    requires AtMostOneLost(received, k)
    requires |x| == k == |Chosen(received, n, k)|
    requires Annihilates(f, ChosenRows(f, k, Chosen(received, n, k), draws, k), x)
    ensures IsZero(f, x)
  {
    var m := ChosenRows(f, k, Chosen(received, n, k), draws, k);
    forall j | 0 <= j < k && received[j]
      ensures x[j] == f.zero
    {
      var r := ReceivedPacketIsChosen(received, n, k, j);
      assert Dot(f, m[r], x, k) == f.zero;
      DotUnit(f, m[r], x, j, k);
    }
    forall l | 0 <= l < k && !received[l]
      ensures x[l] == f.zero
    {
      CombinationIsChosen(received, n, k, l);
      var u := m[k - 1];
      assert Dot(f, u, x, k) == f.zero;
      DotOnly(f, u, x, l, k);
      OneIsNotZero(f);
      MulNonZero(f, u[l], x[l]);
    }
  }

  lemma OneLossIsDecoded<E(!new)>(f: Field<E>, k: nat, n: nat, draws: Matrix<E>, received: seq<bool>)
    requires Laws(f)
    requires n == |received| && k <= n && EnoughDraws(draws, k, n)
    requires Count(received, n) >= k
    requires AtMostOneLost(received, k)
    ensures var c := Chosen(received, n, k); |c| == k && !Singular(f, ChosenRows(f, k, c, draws, k))
  {
    ChosenCount(received, n, k);
    var m := ChosenRows(f, k, Chosen(received, n, k), draws, k);
    if Singular(f, m) {
      var x :| IsKernelVector(f, m, x);
      OneLossDeterminesAll(f, k, n, draws, received, x);
    }
  }

  // ---------------------------------------------------------------------------------------
  // Two lost packets.

  ghost function Ones<E>(f: Field<E>, k: nat): (r: Vec<E>)
    ensures |r| == k && forall i :: 0 <= i < k ==> r[i] == f.one
  {
    if k == 0 then [] else Ones(f, k - 1) + [f.one]
  }

  ghost function OnesRows<E>(f: Field<E>, k: nat, n: nat): (m: Matrix<E>)
    ensures IsMatrix(m, n, k) && forall i :: 0 <= i < n ==> m[i] == Ones(f, k)
  {
    if n == 0 then [] else OnesRows(f, k, n - 1) + [Ones(f, k)]
  }

  // The vector with ones at a and b only.
  ghost function Pair<E>(f: Field<E>, k: nat, a: nat, b: nat): (r: Vec<E>)
    ensures |r| == k && forall i :: 0 <= i < k ==> r[i] == if i == a || i == b then f.one else f.zero
  {
    if k == 0 then [] else Pair(f, k - 1, a, b) + [if k - 1 == a || k - 1 == b then f.one else f.zero]
  }

  lemma {:induction false} DotOnesPair<E(!new)>(f: Field<E>, u: Vec<E>, x: Vec<E>, a: nat, b: nat, n: nat)
    requires Laws(f)
    requires a < b && n <= |u| && n <= |x|
    requires forall j :: 0 <= j < n ==> u[j] == f.one
    requires forall j :: 0 <= j < n ==> x[j] == if j == a || j == b then f.one else f.zero
    ensures Dot(f, u, x, n) == if a < n <= b then f.one else f.zero
  {
    if n > 0 {
      DotOnesPair(f, u, x, a, b, n - 1);
      MulOne(f, x[n - 1]);
      AddZero(f, f.zero);
      AddZero(f, f.one);
      AddSelf(f, f.one);
    }
  }

  // With every draw equal to one, two lost packets cannot be told apart.
  lemma TwoLossesCanFail<E(!new)>(f: Field<E>, k: nat, n: nat, received: seq<bool>, a: nat, b: nat)
    requires Laws(f)
    requires n == |received| && k <= n
    requires Count(received, n) >= k
    requires a < b < k && !received[a] && !received[b]
    ensures var c := Chosen(received, n, k);
      |c| == k && Singular(f, ChosenRows(f, k, c, OnesRows(f, k, n - k), k))
  {
    var c, draws := Chosen(received, n, k), OnesRows(f, k, n - k);
    ChosenCount(received, n, k);
    var m, x := ChosenRows(f, k, c, draws, k), Pair(f, k, a, b);
    OneIsNotZero(f);
    forall r | 0 <= r < k
      ensures Dot(f, m[r], x, k) == f.zero
    {
      if c[r] < k {
        DotUnit(f, m[r], x, c[r], k);
      } else {
        DotOnesPair(f, m[r], x, a, b, k);
      }
    }
    assert x[a] == f.one;
    assert IsKernelVector(f, m, x);
  }

  // Decoding from k or more received shards succeeds for every draw of the coefficients exactly
  // when at most one of the packets themselves was lost.
  lemma GuaranteedLoss<E(!new)>(f: Field<E>, k: nat, n: nat, received: seq<bool>)
    requires Laws(f)
    requires n == |received| && k <= n
    requires Count(received, n) >= k
    ensures |Chosen(received, n, k)| == k
    ensures AtMostOneLost(received, k) <==>
      forall draws: Matrix<E> :: EnoughDraws(draws, k, n) ==> !Singular(f, ChosenRows(f, k, Chosen(received, n, k), draws, k))
  {
    var c := Chosen(received, n, k);
    ChosenCount(received, n, k);
    if AtMostOneLost(received, k) {
      forall draws: Matrix<E> | EnoughDraws(draws, k, n)
        ensures !Singular(f, ChosenRows(f, k, c, draws, k))
      {
        OneLossIsDecoded(f, k, n, draws, received);
      }
    } else {
      var a, b :| 0 <= a < k && 0 <= b < k && !received[a] && !received[b] && a != b;
      TwoLossesCanFail(f, k, n, received, if a < b then a else b, if a < b then b else a);
      assert EnoughDraws(OnesRows(f, k, n - k), k, n);
    }
  }
}
