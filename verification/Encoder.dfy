/**
 The encoder of src/codec.c, and what its shards are good for.

 Shards 0..k-1 are the packets themselves; every later shard combines all packets with
 coefficients that are drawn at random and are never zero.  The draws are an input here: row
 s - k of `draws` holds the values drawn for shard s.
 */
module Encoder {
  import opened Fields
  import opened LinearAlgebra
  import opened Codec

  ghost function Unit<E>(f: Field<E>, k: nat, s: nat): (r: Vec<E>)
    ensures |r| == k
    ensures forall i :: 0 <= i < k ==> r[i] == if i == s then f.one else f.zero
  {
    if k == 0 then [] else Unit(f, k - 1, s) + [if k - 1 == s then f.one else f.zero]
  }

  ghost function NonZero<E>(f: Field<E>, drawn: Vec<E>, k: nat): (r: Vec<E>)
    requires k <= |drawn|
    ensures |r| == k
    ensures forall i :: 0 <= i < k ==> r[i] == if drawn[i] == f.zero then f.one else drawn[i]
  {
    if k == 0 then []
    else NonZero(f, drawn, k - 1) + [if drawn[k - 1] == f.zero then f.one else drawn[k - 1]]
  }

  ghost predicate EnoughDraws<E>(draws: Matrix<E>, k: nat, n: nat)
  {
    n <= k + |draws| && forall s :: 0 <= s < |draws| ==> k <= |draws[s]|
  }

  // The coefficients of shard s of a block of k packets.
  ghost function CoeffRow<E>(f: Field<E>, k: nat, s: nat, draws: Matrix<E>): (r: Vec<E>)
    requires EnoughDraws(draws, k, s + 1)
    ensures |r| == k
  {
    if s < k then Unit(f, k, s) else NonZero(f, draws[s - k], k)
  }

  // Byte t of the combination, for t < n, is the product of the coefficients with byte t of
  // every packet.
  ghost function Combine<E>(f: Field<E>, coeffs: Vec<E>, p: Matrix<E>, w: nat, n: nat): (r: Vec<E>)
    requires IsMatrix(p, |coeffs|, w) && n <= w
    ensures |r| == n
    ensures forall t :: 0 <= t < n ==> r[t] == Dot(f, coeffs, Column(p, t), |coeffs|)
  {
    if n == 0 then []
    else Combine(f, coeffs, p, w, n - 1) + [Dot(f, coeffs, Column(p, n - 1), |coeffs|)]
  }

  ghost function EncodedShard<E>(f: Field<E>, p: Matrix<E>, w: nat, s: nat, draws: Matrix<E>): (r: Shard<E>)
    requires IsMatrix(p, |p|, w) && EnoughDraws(draws, |p|, s + 1)
    ensures |r.coeffs| == |p| && |r.data| == w
  {
    var row := CoeffRow(f, |p|, s, draws);
    Shard(row, Combine(f, row, p, w, w))
  }

  ghost function Encoding<E>(f: Field<E>, p: Matrix<E>, w: nat, n: nat, draws: Matrix<E>): (r: seq<Shard<E>>)
    requires IsMatrix(p, |p|, w) && EnoughDraws(draws, |p|, n)
    ensures |r| == n
  {
    if n == 0 then [] else Encoding(f, p, w, n - 1, draws) + [EncodedShard(f, p, w, n - 1, draws)]
  }

  lemma {:induction false} EncodingAt<E>(f: Field<E>, p: Matrix<E>, w: nat, n: nat, draws: Matrix<E>, s: nat)
    requires IsMatrix(p, |p|, w) && EnoughDraws(draws, |p|, n) && s < n
    ensures Encoding(f, p, w, n, draws)[s] == EncodedShard(f, p, w, s, draws)
  {
    if s < n - 1 {
      EncodingAt(f, p, w, n - 1, draws, s);
    }
  }

  // A systematic shard carries its packet.
  lemma SystematicShard<E(!new)>(f: Field<E>, p: Matrix<E>, w: nat, s: nat, draws: Matrix<E>)
    requires Laws(f)
    requires IsMatrix(p, |p|, w) && s < |p| && EnoughDraws(draws, |p|, s + 1)
    ensures EncodedShard(f, p, w, s, draws).data == p[s]
  {
    var row := Unit(f, |p|, s);
    forall t | 0 <= t < w
      ensures Dot(f, row, Column(p, t), |p|) == p[s][t]
    {
      DotUnit(f, row, Column(p, t), s, |p|);
    }
  }

  // ---------------------------------------------------------------------------------------
  // encode_block

  ghost function MaxLen(lens: seq<nat>, n: nat): (w: nat)
    requires n <= |lens|
    ensures forall i :: 0 <= i < n ==> lens[i] <= w
  {
    if n == 0 then 0
    else if lens[n - 1] > MaxLen(lens, n - 1) then lens[n - 1]
    else MaxLen(lens, n - 1)
  }

  lemma {:induction false} MaxLenIsReached(lens: seq<nat>, n: nat) returns (i: nat)
    requires 0 < n <= |lens|
    ensures i < n && lens[i] == MaxLen(lens, n)
  {
    if n == 1 || lens[n - 1] > MaxLen(lens, n - 1) {
      i := n - 1;
    } else {
      i := MaxLenIsReached(lens, n - 1);
    }
  }

  method LongestLen(lens: array<nat>, n: nat) returns (w: nat)
    requires n <= lens.Length
    ensures w == MaxLen(lens[..], n)
  {
    w := 0;
    for i := 0 to n
      invariant w == MaxLen(lens[..], i)
    {
      if lens[i] > w {
        w := lens[i];
      }
    }
  }

  // Every packet is followed by zeros up to width w.
  ghost predicate Padded<E>(f: Field<E>, src: array2<E>, lens: array<nat>, k: nat, w: nat)
    requires k <= src.Length0 && k <= lens.Length && w <= src.Length1
    reads src, lens
  {
    forall i, j :: 0 <= i < k && lens[i] <= j < w ==> src[i, j] == f.zero
  }

  method EncodeBlock<E(==,0,!new)>(f: Field<E>, src: array2<E>, lens: array<nat>, k: nat, n: nat, draws: Matrix<E>)
    returns (out: seq<Shard<E>>)
    requires Laws(f)
    requires k <= src.Length0 && k <= lens.Length && MaxLen(lens[..], k) <= src.Length1
    requires Padded(f, src, lens, k, MaxLen(lens[..], k))
    requires EnoughDraws(draws, k, n)
    ensures var w := MaxLen(lens[..], k); out == Encoding(f, Rows(src, k, w), w, n, draws)
  {
    var w := LongestLen(lens, k);
    ghost var p := Rows(src, k, w);
    out := [];
    for s := 0 to n
      invariant out == Encoding(f, p, w, s, draws)
    {
      var shard;
      if s < k {
        shard := SystematicOf(f, src, lens, k, w, s, draws, p);
      } else {
        shard := CombinationOf(f, src, k, w, s, draws, p);
      }
      out := out + [shard];
    }
  }

  method SystematicOf<E(==,0,!new)>(f: Field<E>, src: array2<E>, lens: array<nat>, k: nat, w: nat, s: nat,
                                    ghost draws: Matrix<E>, ghost p: Matrix<E>)
    returns (shard: Shard<E>)
    requires Laws(f)
    requires k <= src.Length0 && k <= lens.Length && w <= src.Length1 && s < k && lens[s] <= w
    requires Padded(f, src, lens, k, w) && p == Rows(src, k, w)
    requires EnoughDraws(draws, k, s + 1)
    ensures shard == EncodedShard(f, p, w, s, draws)
  {
    var coeffs := [];
    for i := 0 to k
      invariant coeffs == Unit(f, i, s)
    {
      coeffs := coeffs + [if i == s then f.one else f.zero];
    }
    var data := [];
    for t := 0 to w
      invariant |data| == t && forall j :: 0 <= j < t ==> data[j] == src[s, j]
    {
      data := data + [if t < lens[s] then src[s, t] else f.zero];
    }
    SystematicShard(f, p, w, s, draws);
    assert data == p[s];
    shard := Shard(coeffs, data);
  }

  // The combination of the first i packets.
  ghost predicate CombinesFirst<E>(f: Field<E>, data: array2<E>, row: Vec<E>, p: Matrix<E>, w: nat, i: nat)
    requires data.Length0 == 1 && data.Length1 == w
    requires IsMatrix(p, |row|, w) && i <= |row|
    reads data
  {
    forall t :: 0 <= t < w ==> data[0, t] == Dot(f, row, Column(p, t), i)
  }

  method CombinationOf<E(==,0,!new)>(f: Field<E>, src: array2<E>, k: nat, w: nat, s: nat, draws: Matrix<E>, ghost p: Matrix<E>)
    returns (shard: Shard<E>)
    requires k <= src.Length0 && w <= src.Length1 && k <= s
    requires EnoughDraws(draws, k, s + 1) && p == Rows(src, k, w)
    ensures shard == EncodedShard(f, p, w, s, draws)
  {
    ghost var row := CoeffRow(f, k, s, draws);
    var coeffs := [];
    var data := ZeroBuffer(f, w);
    for i := 0 to k
      invariant coeffs == NonZero(f, draws[s - k], i)
      invariant CombinesFirst(f, data, row, p, w, i)
    {
      var c := draws[s - k][i];
      if c == f.zero {
        c := f.one;
      }
      coeffs := coeffs + [c];
      Accumulate(f, data, c, src, i, w, row, p);
    }
    var bytes := ReadRow(data);
    CombinedData(f, bytes, row, p, w);
    shard := Shard(coeffs, bytes);
  }

  lemma CombinedData<E>(f: Field<E>, bytes: Vec<E>, row: Vec<E>, p: Matrix<E>, w: nat)
    requires IsMatrix(p, |row|, w) && |bytes| == w
    requires forall t :: 0 <= t < w ==> bytes[t] == Dot(f, row, Column(p, t), |row|)
    ensures bytes == Combine(f, row, p, w, w)
  {
  }

  method ZeroBuffer<E(0)>(f: Field<E>, w: nat) returns (data: array2<E>)
    ensures fresh(data) && data.Length0 == 1 && data.Length1 == w
    ensures forall t :: 0 <= t < w ==> data[0, t] == f.zero
  {
    data := new E[1, w];
    for t := 0 to w
      invariant forall j :: 0 <= j < t ==> data[0, j] == f.zero
    {
      data[0, t] := f.zero;
    }
  }

  method ReadRow<E>(data: array2<E>) returns (bytes: Vec<E>)
    requires data.Length0 == 1
    ensures |bytes| == data.Length1
    ensures forall t :: 0 <= t < data.Length1 ==> bytes[t] == data[0, t]
  {
    bytes := [];
    for t := 0 to data.Length1
      invariant |bytes| == t && forall j :: 0 <= j < t ==> bytes[j] == data[0, j]
    {
      bytes := bytes + [data[0, t]];
    }
  }

  // Adds packet i with its coefficient.
  method Accumulate<E>(f: Field<E>, data: array2<E>, c: E, src: array2<E>, i: nat, w: nat, ghost row: Vec<E>, ghost p: Matrix<E>)
    requires data != src && data.Length0 == 1 && data.Length1 == w
    requires |row| <= src.Length0 && w <= src.Length1 && p == Rows(src, |row|, w)
    requires i < |row| && c == row[i]
    requires CombinesFirst(f, data, row, p, w, i)
    modifies data
    ensures CombinesFirst(f, data, row, p, w, i + 1)
  {
    GfVecAxpy(f, data, 0, c, src, i, w);
  }
}
