/**
 The erasure codec of src/codec.c.

 A shard is a row of coefficients and the data they combine.  `EncodeBlock` produces shards of
 a block of packets; `DecodeBlock` recovers the block from k of them by Gauss-Jordan
 elimination in place.
 */
module Codec {
  import opened Fields
  import opened LinearAlgebra

  const MAX_K: nat := 16
  const MAX_N: nat := 32
  const MAX_PAYLOAD: nat := 1400

  // The `len` field of the source is the length of `data`.
  datatype Shard<E> = Shard(coeffs: Vec<E>, data: Vec<E>)

  // ---------------------------------------------------------------------------------------
  // Two-dimensional buffers and the rows they hold.

  ghost function RowTo<E>(a: array2<E>, i: nat, n: nat): (r: Vec<E>)
    requires i < a.Length0 && n <= a.Length1
    reads a
    ensures |r| == n
    ensures forall j :: 0 <= j < n ==> r[j] == a[i, j]
  {
    if n == 0 then [] else RowTo(a, i, n - 1) + [a[i, n - 1]]
  }

  // The first `rows` rows of a buffer, cut at `columns`.
  ghost function Rows<E>(a: array2<E>, rows: nat, columns: nat): (m: Matrix<E>)
    requires rows <= a.Length0 && columns <= a.Length1
    reads a
    ensures IsMatrix(m, rows, columns)
    ensures forall i, j :: 0 <= i < rows && 0 <= j < columns ==> m[i][j] == a[i, j]
  {
    if rows == 0 then [] else Rows(a, rows - 1, columns) + [RowTo(a, rows - 1, columns)]
  }

  lemma SameMatrix<E>(p: Matrix<E>, q: Matrix<E>, rows: nat, columns: nat)
    requires IsMatrix(p, rows, columns) && IsMatrix(q, rows, columns)
    requires forall i, j :: 0 <= i < rows && 0 <= j < columns ==> p[i][j] == q[i][j]
    ensures p == q
  {
    forall i | 0 <= i < rows
      ensures p[i] == q[i]
    {
    }
  }

  // dst[r][..len] += c * src[i][..len], where the rows are different.
  method GfVecAxpy<E>(f: Field<E>, dst: array2<E>, r: nat, c: E, src: array2<E>, i: nat, len: nat)
    requires r < dst.Length0 && len <= dst.Length1
    requires i < src.Length0 && len <= src.Length1
    requires dst == src ==> r != i
    modifies dst
    ensures forall x, y :: 0 <= x < dst.Length0 && 0 <= y < dst.Length1 ==>
      dst[x, y] == if x == r && y < len then f.Add(old(dst[r, y]), f.Mul(c, old(src[i, y]))) else old(dst[x, y])
  {
    for j := 0 to len
      invariant forall x, y :: 0 <= x < dst.Length0 && 0 <= y < dst.Length1 ==>
        dst[x, y] == if x == r && y < j then f.Add(old(dst[r, y]), f.Mul(c, old(src[i, y]))) else old(dst[x, y])
    {
      dst[r, j] := f.Add(dst[r, j], f.Mul(c, src[i, j]));
    }
  }

  ghost function Contents<E>(a: array2<E>): (m: Matrix<E>)
    reads a
    ensures IsMatrix(m, a.Length0, a.Length1)
  {
    Rows(a, a.Length0, a.Length1)
  }

  // The same on whole rows of one buffer.
  method AddRow<E>(f: Field<E>, a: array2<E>, r: nat, c: E, i: nat)
    requires r < a.Length0 && i < a.Length0 && r != i
    modifies a
    ensures Contents(a) == var m := old(Contents(a)); m[r := Axpy(f, m[r], c, m[i])]
  {
    ghost var m := Contents(a);
    GfVecAxpy(f, a, r, c, a, i, a.Length1);
    SameMatrix(Contents(a), m[r := Axpy(f, m[r], c, m[i])], a.Length0, a.Length1);
  }

  method ExchangeRows<E>(a: array2<E>, r: nat, i: nat)
    requires r < a.Length0 && i < a.Length0
    modifies a
    ensures Contents(a) == SwapRows(old(Contents(a)), r, i)
  {
    ghost var m := Contents(a);
    for j := 0 to a.Length1
      invariant forall x, y :: 0 <= x < a.Length0 && 0 <= y < a.Length1 ==>
        a[x, y] == if y >= j then old(a[x, y]) else if x == i then old(a[r, y]) else if x == r then old(a[i, y]) else old(a[x, y])
    {
      var tmp := a[r, j];
      a[r, j] := a[i, j];
      a[i, j] := tmp;
    }
    SameMatrix(Contents(a), SwapRows(m, r, i), a.Length0, a.Length1);
  }

  method MultiplyRow<E>(f: Field<E>, a: array2<E>, r: nat, c: E)
    requires r < a.Length0
    modifies a
    ensures Contents(a) == ScaleRow(f, old(Contents(a)), r, c)
  {
    ghost var m := Contents(a);
    for j := 0 to a.Length1
      invariant forall x, y :: 0 <= x < a.Length0 && 0 <= y < a.Length1 ==>
        a[x, y] == if x == r && y < j then f.Mul(c, old(a[x, y])) else old(a[x, y])
    {
      a[r, j] := f.Mul(c, a[r, j]);
    }
    SameMatrix(Contents(a), ScaleRow(f, m, r, c), a.Length0, a.Length1);
  }

  // ---------------------------------------------------------------------------------------
  // Decoding.

  ghost function CoeffRows<E>(shards: seq<Shard<E>>, n: nat, k: nat): (m: Matrix<E>)
    requires n <= |shards| && forall i :: 0 <= i < n ==> k <= |shards[i].coeffs|
    ensures IsMatrix(m, n, k)
    ensures forall i :: 0 <= i < n ==> m[i] == shards[i].coeffs[..k]
  {
    if n == 0 then [] else CoeffRows(shards, n - 1, k) + [shards[n - 1].coeffs[..k]]
  }

  ghost function DataRows<E>(shards: seq<Shard<E>>, n: nat, w: nat): (m: Matrix<E>)
    requires n <= |shards| && forall i :: 0 <= i < n ==> |shards[i].data| == w
    ensures IsMatrix(m, n, w)
    ensures forall i :: 0 <= i < n ==> m[i] == shards[i].data
  {
    if n == 0 then [] else DataRows(shards, n - 1, w) + [shards[n - 1].data]
  }

  // The first k shards supply k coefficients each and data of one length.
  ghost predicate Uniform<E>(shards: seq<Shard<E>>, k: nat, w: nat)
  {
    k <= |shards| && forall i :: 0 <= i < k ==> k <= |shards[i].coeffs| && |shards[i].data| == w
  }

  // memcpy of a row into a buffer.
  method CopyRow<E>(a: array2<E>, i: nat, row: Vec<E>)
    requires i < a.Length0 && a.Length1 <= |row|
    modifies a
    ensures forall x, y :: 0 <= x < a.Length0 && 0 <= y < a.Length1 ==> a[x, y] == if x == i then row[y] else old(a[x, y])
  {
    for j := 0 to a.Length1
      invariant forall x, y :: 0 <= x < a.Length0 && 0 <= y < a.Length1 ==>
        a[x, y] == if x == i && y < j then row[y] else old(a[x, y])
    {
      a[i, j] := row[j];
    }
  }

  method LoadShards<E(0)>(shards: seq<Shard<E>>, k: nat, w: nat) returns (mat: array2<E>, dat: array2<E>)
    requires Uniform(shards, k, w)
    ensures fresh(mat) && fresh(dat) && mat != dat
    ensures mat.Length0 == k && mat.Length1 == k && dat.Length0 == k && dat.Length1 == w
    ensures Contents(mat) == CoeffRows(shards, k, k) && Contents(dat) == DataRows(shards, k, w)
  {
    mat := new E[k, k];
    dat := new E[k, w];
    for i := 0 to k
      invariant forall x, y :: 0 <= x < i && 0 <= y < k ==> mat[x, y] == shards[x].coeffs[y]
      invariant forall x, y :: 0 <= x < i && 0 <= y < w ==> dat[x, y] == shards[x].data[y]
    {
      CopyRow(mat, i, shards[i].coeffs);
      CopyRow(dat, i, shards[i].data);
    }
    SameMatrix(Contents(mat), CoeffRows(shards, k, k), k, k);
    SameMatrix(Contents(dat), DataRows(shards, k, w), k, w);
  }

  // The first row at or below `col` with a non-zero entry in that column, or -1.
  method FindPivot<E(==)>(f: Field<E>, mat: array2<E>, col: nat) returns (pivot: int)
    requires mat.Length0 == mat.Length1 && col < mat.Length0
    ensures pivot == -1 || col <= pivot < mat.Length0
    ensures Pivot(f, Contents(mat), col, col) == if pivot == -1 then mat.Length0 else pivot
  {
    pivot := -1;
    var row := col;
    while row < mat.Length0
      invariant col <= row <= mat.Length0
      invariant Pivot(f, Contents(mat), col, col) == Pivot(f, Contents(mat), col, row)
    {
      if mat[row, col] != f.zero {
        pivot := row;
        return;
      }
      row := row + 1;
    }
  }

  method ClearRow<E(==)>(f: Field<E>, mat: array2<E>, dat: array2<E>, row: nat, col: nat)
    requires mat != dat && mat.Length0 == mat.Length1 == dat.Length0 && col < mat.Length0 && row < mat.Length0
    modifies mat, dat
    ensures Contents(mat) == var m := old(Contents(mat)); m[row := ClearedRow(f, m, m, col, |m|, row)]
    ensures Contents(dat) == var m, d := old(Contents(mat)), old(Contents(dat));
      d[row := ClearedRow(f, m, d, col, dat.Length1, row)]
  {
    ghost var m, d := Contents(mat), Contents(dat);
    if row == col || mat[row, col] == f.zero {
      assert m[row := m[row]] == m && d[row := d[row]] == d;
      return;
    }
    var factor := mat[row, col];
    AddRow(f, mat, row, factor, col);
    AddRow(f, dat, row, factor, col);
  }

  // A row that the elimination has not reached is cleared as it would have been at first.
  lemma ClearInOrder<E>(f: Field<E>, m: Matrix<E>, d: Matrix<E>, w: nat, col: nat, n: nat)
    requires IsMatrix(m, |m|, |m|) && IsMatrix(d, |m|, w) && col < |m| && n < |m|
    ensures var m1, d1 := Eliminate(f, m, m, col, |m|, n), Eliminate(f, m, d, col, w, n);
      && m1[n := ClearedRow(f, m1, m1, col, |m1|, n)] == Eliminate(f, m, m, col, |m|, n + 1)
      && d1[n := ClearedRow(f, m1, d1, col, w, n)] == Eliminate(f, m, d, col, w, n + 1)
  {
    var m1, d1 := Eliminate(f, m, m, col, |m|, n), Eliminate(f, m, d, col, w, n);
    assert m1[n] == m[n] && m1[col] == m[col] && d1[n] == d[n] && d1[col] == d[col];
  }

  // Clears column `col` of every row but row `col`, in the matrix and in the data.
  method EliminateColumn<E(==)>(f: Field<E>, mat: array2<E>, dat: array2<E>, col: nat)
    requires mat != dat && mat.Length0 == mat.Length1 == dat.Length0 && col < mat.Length0
    modifies mat, dat
    ensures Contents(mat) == var m := old(Contents(mat)); Eliminate(f, m, m, col, |m|, |m|)
    ensures Contents(dat) == var m := old(Contents(mat)); Eliminate(f, m, old(Contents(dat)), col, dat.Length1, |m|)
  {
    ghost var m, d := Contents(mat), Contents(dat);
    for row := 0 to mat.Length0
      invariant Contents(mat) == Eliminate(f, m, m, col, |m|, row)
      invariant Contents(dat) == Eliminate(f, m, d, col, dat.Length1, row)
    {
      ClearInOrder(f, m, d, dat.Length1, col, row);
      ClearRow(f, mat, dat, row, col);
    }
  }

  // The work on one column: bring the pivot into place, scale its row, clear the column.
  method ReduceColumn<E(==)>(f: Field<E>, mat: array2<E>, dat: array2<E>, col: nat, pivot: nat)
    requires mat != dat && mat.Length0 == mat.Length1 == dat.Length0 && col <= pivot < mat.Length0
    modifies mat, dat
    ensures Contents(mat) == var m := old(Contents(mat)); StepRows(f, m, col, pivot, m, |m|)
    ensures Contents(dat) == StepRows(f, old(Contents(mat)), col, pivot, old(Contents(dat)), dat.Length1)
  {
    ghost var m, d := Contents(mat), Contents(dat);
    if pivot != col {
      ExchangeRows(mat, col, pivot);
      ExchangeRows(dat, col, pivot);
    }
    assert Contents(mat) == SwapRows(m, col, pivot) && Contents(dat) == SwapRows(d, col, pivot);
    var inv := f.Inv(mat[col, col]);
    assert mat[col, col] == Contents(mat)[col][col];
    MultiplyRow(f, mat, col, inv);
    MultiplyRow(f, dat, col, inv);
    assert Contents(mat) == Prepare(f, m, col, pivot, m, |m|);
    assert Contents(dat) == Prepare(f, m, col, pivot, d, dat.Length1);
    EliminateColumn(f, mat, dat, col);
  }

  // Recovers the block, or reports that the coefficient rows are linearly dependent.
  method DecodeBlock<E(==,0,!new)>(f: Field<E>, shards: seq<Shard<E>>, k: nat, w: nat) returns (r: Option<Matrix<E>>)
    requires Laws(f)
    requires Uniform(shards, k, w)
    ensures Decodes(f, CoeffRows(shards, k, k), DataRows(shards, k, w), w, r)
  {
    var mat, dat := LoadShards(shards, k, w);
    ghost var m0, d0 := Contents(mat), Contents(dat);
    for col := 0 to k
      invariant SameSystem(f, m0, d0, Contents(mat), Contents(dat), w)
      invariant Reduced(f, Contents(mat), col)
    {
      ghost var m, d := Contents(mat), Contents(dat);
      var pivot := FindPivot(f, mat, col);
      if pivot == -1 {
        FailedElimination(f, m0, d0, m, d, w, col);
        return None;
      }
      ReduceColumn(f, mat, dat, col, pivot);
      ghost var m1, d1 := NextSystem(f, m0, d0, m, d, w, col, pivot);
    }
    FinishedElimination(f, m0, d0, Contents(mat), Contents(dat), w);
    var rows := ReadRows(dat);
    r := Some(rows);
  }

  method ReadRows<E>(a: array2<E>) returns (m: Matrix<E>)
    ensures m == Contents(a)
  {
    m := [];
    for i := 0 to a.Length0
      invariant m == Rows(a, i, a.Length1)
    {
      var row := [];
      for j := 0 to a.Length1
        invariant row == RowTo(a, i, j)
      {
        row := row + [a[i, j]];
      }
      m := m + [row];
    }
  }
}
