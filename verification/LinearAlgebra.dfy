/**
 Gauss-Jordan elimination on values: what `decode_block` of src/codec.c computes, and why it
 is right.  A row of unknowns x satisfies a system before a step exactly when it does after
 it, so the rows left when the matrix has become the identity are the only solution; when a
 pivot is missing, the columns already reduced give a vector that the matrix sends to zero.
 */
module LinearAlgebra {
  import opened Fields

  type Vec<E> = seq<E>
  type Matrix<E> = seq<seq<E>>

  datatype Option<+T> = None | Some(value: T)

  // ---------------------------------------------------------------------------------------
  // Rows.

  ghost function Dot<E>(f: Field<E>, u: Vec<E>, x: Vec<E>, n: nat): E
    requires n <= |u| && n <= |x|
  {
    if n == 0 then f.zero else f.Add(Dot(f, u, x, n - 1), f.Mul(u[n - 1], x[n - 1]))
  }

  ghost function Scale<E>(f: Field<E>, c: E, u: Vec<E>): (r: Vec<E>)
    ensures |r| == |u|
    ensures forall i :: 0 <= i < |u| ==> r[i] == f.Mul(c, u[i])
  {
    if u == [] then [] else Scale(f, c, u[..|u| - 1]) + [f.Mul(c, u[|u| - 1])]
  }

  // u + a * v
  ghost function Axpy<E>(f: Field<E>, u: Vec<E>, a: E, v: Vec<E>): (r: Vec<E>)
    requires |u| == |v|
    ensures |r| == |u|
    ensures forall i :: 0 <= i < |u| ==> r[i] == f.Add(u[i], f.Mul(a, v[i]))
  {
    if u == [] then []
    else Axpy(f, u[..|u| - 1], a, v[..|u| - 1]) + [f.Add(u[|u| - 1], f.Mul(a, v[|u| - 1]))]
  }

  ghost predicate IsMatrix<E>(m: Matrix<E>, rows: nat, columns: nat)
  {
    |m| == rows && forall r :: 0 <= r < rows ==> |m[r]| == columns
  }

  ghost function Column<E>(m: Matrix<E>, t: nat): (x: Vec<E>)
    requires forall r :: 0 <= r < |m| ==> t < |m[r]|
    ensures |x| == |m|
    ensures forall r :: 0 <= r < |m| ==> x[r] == m[r][t]
  {
    if m == [] then [] else Column(m[..|m| - 1], t) + [m[|m| - 1][t]]
  }

  lemma {:induction false} DotScale<E(!new)>(f: Field<E>, c: E, u: Vec<E>, x: Vec<E>, n: nat)
    requires Laws(f)
    requires n <= |u| && n <= |x|
    ensures Dot(f, Scale(f, c, u), x, n) == f.Mul(c, Dot(f, u, x, n))
  {
    if n == 0 {
      MulZero(f, c);
    } else {
      DotScale(f, c, u, x, n - 1);
      MulAssoc(f, c, u[n - 1], x[n - 1]);
      Distribute(f, c, Dot(f, u, x, n - 1), f.Mul(u[n - 1], x[n - 1]));
    }
  }

  lemma {:induction false} DotAxpy<E(!new)>(f: Field<E>, u: Vec<E>, a: E, v: Vec<E>, x: Vec<E>, n: nat)
    requires Laws(f)
    requires |u| == |v| && n <= |u| && n <= |x|
    ensures Dot(f, Axpy(f, u, a, v), x, n) == f.Add(Dot(f, u, x, n), f.Mul(a, Dot(f, v, x, n)))
  {
    if n == 0 {
      MulZero(f, a);
      AddZero(f, f.zero);
    } else {
      DotAxpy(f, u, a, v, x, n - 1);
      Distribute(f, x[n - 1], u[n - 1], f.Mul(a, v[n - 1]));
      MulAssoc(f, a, v[n - 1], x[n - 1]);
      Distribute(f, a, Dot(f, v, x, n - 1), f.Mul(v[n - 1], x[n - 1]));
      Exchange(f, Dot(f, u, x, n - 1), f.Mul(a, Dot(f, v, x, n - 1)),
               f.Mul(u[n - 1], x[n - 1]), f.Mul(a, f.Mul(v[n - 1], x[n - 1])));
    }
  }

  // A row that is a unit vector as far as n picks out one unknown.
  lemma {:induction false} DotUnit<E(!new)>(f: Field<E>, u: Vec<E>, x: Vec<E>, i: nat, n: nat)
    requires Laws(f)
    requires n <= |u| && n <= |x| && i < |x|
    requires forall j :: 0 <= j < n ==> u[j] == (if j == i then f.one else f.zero)
    ensures Dot(f, u, x, n) == (if i < n then x[i] else f.zero)
  {
    if n > 0 {
      DotUnit(f, u, x, i, n - 1);
      MulOne(f, x[n - 1]);
      MulZero(f, x[n - 1]);
      AddZero(f, x[n - 1]);
      AddZero(f, Dot(f, u, x, n - 1));
    }
  }

  // Unknowns that are zero from n on contribute nothing.
  lemma {:induction false} DotZeroTail<E(!new)>(f: Field<E>, u: Vec<E>, x: Vec<E>, n: nat, m: nat)
    requires Laws(f)
    requires n <= m <= |u| && m <= |x|
    requires forall j :: n <= j < m ==> x[j] == f.zero
    ensures Dot(f, u, x, m) == Dot(f, u, x, n)
    decreases m
  {
    if n < m {
      DotZeroTail(f, u, x, n, m - 1);
      MulZero(f, u[m - 1]);
      AddZero(f, Dot(f, u, x, n));
    }
  }

  // ---------------------------------------------------------------------------------------
  // Steps of the elimination.  They are chosen by the matrix and applied to any rows: the
  // matrix itself, or the data beside it.

  ghost function SwapRows<T>(rows: seq<T>, i: nat, j: nat): (r: seq<T>)
    requires i < |rows| && j < |rows|
  {
    rows[i := rows[j]][j := rows[i]]
  }

  ghost function ScaleRow<E>(f: Field<E>, rows: Matrix<E>, i: nat, c: E): Matrix<E>
    requires i < |rows|
  {
    rows[i := Scale(f, c, rows[i])]
  }

  // Row i with its entry in column `col` cleared by a multiple of row `col`.
  ghost function ClearedRow<E>(f: Field<E>, m: Matrix<E>, rows: Matrix<E>, col: nat, w: nat, i: nat): (r: Vec<E>)
    requires IsMatrix(m, |m|, |m|) && IsMatrix(rows, |m|, w) && col < |m| && i < |m|
    ensures |r| == w
  {
    if i == col || m[i][col] == f.zero then rows[i] else Axpy(f, rows[i], m[i][col], rows[col])
  }

  // Clears column `col` of the first n rows, row `col` excepted.
  ghost function Eliminate<E>(f: Field<E>, m: Matrix<E>, rows: Matrix<E>, col: nat, w: nat, n: nat): (r: Matrix<E>)
    requires IsMatrix(m, |m|, |m|) && IsMatrix(rows, |m|, w) && col < |m| && n <= |m|
    ensures IsMatrix(r, |m|, w)
    ensures forall i :: 0 <= i < n ==> r[i] == ClearedRow(f, m, rows, col, w, i)
    ensures forall i :: n <= i < |m| ==> r[i] == rows[i]
  {
    if n == 0 then rows
    else Eliminate(f, m, rows, col, w, n - 1)[n - 1 := ClearedRow(f, m, rows, col, w, n - 1)]
  }

  // The first row at or below `row` with a non-zero entry in column `col`; |m| if there is none.
  ghost function Pivot<E>(f: Field<E>, m: Matrix<E>, col: nat, row: nat): (p: nat)
    requires IsMatrix(m, |m|, |m|) && col < |m| && row <= |m|
    ensures row <= p <= |m|
    ensures forall i :: row <= i < p ==> m[i][col] == f.zero
    ensures p < |m| ==> m[p][col] != f.zero
    decreases |m| - row
  {
    if row == |m| || m[row][col] != f.zero then row else Pivot(f, m, col, row + 1)
  }

  // The matrix with its pivot in place and scaled to one.
  ghost function Prepare<E>(f: Field<E>, m: Matrix<E>, col: nat, p: nat, rows: Matrix<E>, w: nat): (r: Matrix<E>)
    requires IsMatrix(m, |m|, |m|) && IsMatrix(rows, |m|, w) && col <= p < |m|
    ensures IsMatrix(r, |m|, w)
  {
    ScaleRow(f, SwapRows(rows, col, p), col, f.Inv(m[p][col]))
  }

  // The rows after the whole step at column `col`; `rows` is the matrix itself or the data.
  ghost function StepRows<E>(f: Field<E>, m: Matrix<E>, col: nat, p: nat, rows: Matrix<E>, w: nat): (r: Matrix<E>)
    requires IsMatrix(m, |m|, |m|) && IsMatrix(rows, |m|, w) && col <= p < |m|
    ensures IsMatrix(r, |m|, w)
  {
    Eliminate(f, Prepare(f, m, col, p, m, |m|), Prepare(f, m, col, p, rows, w), col, w, |m|)
  }

  // ---------------------------------------------------------------------------------------
  // Solutions.

  // The unknowns x satisfy every equation whose right-hand sides are column t of d.
  ghost predicate Agrees<E>(f: Field<E>, m: Matrix<E>, d: Matrix<E>, w: nat, x: Vec<E>, t: nat)
    requires IsMatrix(m, |x|, |x|) && IsMatrix(d, |x|, w) && t < w
  {
    forall r :: 0 <= r < |x| ==> d[r][t] == Dot(f, m[r], x, |x|)
  }

  lemma SwapAgrees<E(!new)>(f: Field<E>, m: Matrix<E>, d: Matrix<E>, w: nat, x: Vec<E>, t: nat, i: nat, j: nat)
    requires IsMatrix(m, |x|, |x|) && IsMatrix(d, |x|, w) && t < w && i < |x| && j < |x|
    ensures Agrees(f, SwapRows(m, i, j), SwapRows(d, i, j), w, x, t) <==> Agrees(f, m, d, w, x, t)
  {
    var m1, d1 := SwapRows(m, i, j), SwapRows(d, i, j);
    assert m == SwapRows(m1, i, j) && d == SwapRows(d1, i, j);
    if Agrees(f, m1, d1, w, x, t) {
      forall r | 0 <= r < |x|
        ensures d[r][t] == Dot(f, m[r], x, |x|)
      {
        var s := if r == i then j else if r == j then i else r;
        assert d1[s][t] == Dot(f, m1[s], x, |x|);
      }
    }
  }

  lemma ScaleAgrees<E(!new)>(f: Field<E>, m: Matrix<E>, d: Matrix<E>, w: nat, x: Vec<E>, t: nat, i: nat, c: E)
    requires Laws(f)
    requires IsMatrix(m, |x|, |x|) && IsMatrix(d, |x|, w) && t < w && i < |x|
    requires c != f.zero
    ensures Agrees(f, ScaleRow(f, m, i, c), ScaleRow(f, d, i, c), w, x, t) <==> Agrees(f, m, d, w, x, t)
  {
    var m1, d1 := ScaleRow(f, m, i, c), ScaleRow(f, d, i, c);
    DotScale(f, c, m[i], x, |x|);
    CancelFactor(f, c, d[i][t], Dot(f, m[i], x, |x|));
    if Agrees(f, m1, d1, w, x, t) {
      assert d1[i][t] == Dot(f, m1[i], x, |x|);
      forall r | 0 <= r < |x|
        ensures d[r][t] == Dot(f, m[r], x, |x|)
      {
        assert d1[r][t] == Dot(f, m1[r], x, |x|);
      }
    }
  }

  lemma CancelFactor<E(!new)>(f: Field<E>, c: E, a: E, b: E)
    requires Laws(f)
    requires c != f.zero
    ensures f.Mul(c, a) == f.Mul(c, b) <==> a == b
  {
    MulInverse(f, c);
    MulAssoc(f, f.Inv(c), c, a);
    MulAssoc(f, f.Inv(c), c, b);
    MulOne(f, a);
    MulOne(f, b);
  }

  lemma EliminateAgrees<E(!new)>(f: Field<E>, m: Matrix<E>, d: Matrix<E>, w: nat, x: Vec<E>, t: nat, col: nat)
    requires Laws(f)
    requires IsMatrix(m, |x|, |x|) && IsMatrix(d, |x|, w) && t < w && col < |x|
    ensures Agrees(f, Eliminate(f, m, m, col, |m|, |m|), Eliminate(f, m, d, col, w, |m|), w, x, t)
       <==> Agrees(f, m, d, w, x, t)
  {
    var m1, d1 := Eliminate(f, m, m, col, |m|, |m|), Eliminate(f, m, d, col, w, |m|);
    assert m1[col] == m[col] && d1[col] == d[col];
    if d[col][t] == Dot(f, m[col], x, |x|) {
      forall r | 0 <= r < |x|
        ensures d1[r][t] == Dot(f, m1[r], x, |x|) <==> d[r][t] == Dot(f, m[r], x, |x|)
      {
        if r != col && m[r][col] != f.zero {
          DotAxpy(f, m[r], m[r][col], m[col], x, |x|);
          AddCancel(f, d[r][t], Dot(f, m[r], x, |x|), f.Mul(m[r][col], d[col][t]));
        }
      }
    }
  }

  // One column of the elimination keeps the solutions.
  lemma StepAgrees<E(!new)>(f: Field<E>, m: Matrix<E>, d: Matrix<E>, w: nat, x: Vec<E>, t: nat, col: nat, p: nat)
    requires Laws(f)
    requires IsMatrix(m, |x|, |x|) && IsMatrix(d, |x|, w) && t < w && col <= p < |x|
    requires m[p][col] != f.zero
    ensures Agrees(f, StepRows(f, m, col, p, m, |m|), StepRows(f, m, col, p, d, w), w, x, t) <==> Agrees(f, m, d, w, x, t)
  {
    var c := f.Inv(m[p][col]);
    MulInverse(f, m[p][col]);
    SwapAgrees(f, m, d, w, x, t, col, p);
    ScaleAgrees(f, SwapRows(m, col, p), SwapRows(d, col, p), w, x, t, col, c);
    EliminateAgrees(f, Prepare(f, m, col, p, m, |m|), Prepare(f, m, col, p, d, w), w, x, t, col);
  }

  // The first c columns are those of the identity.
  ghost predicate Reduced<E>(f: Field<E>, m: Matrix<E>, c: nat)
    requires IsMatrix(m, |m|, |m|) && c <= |m|
  {
    forall r, j :: 0 <= r < |m| && 0 <= j < c ==> m[r][j] == if r == j then f.one else f.zero
  }

  lemma PrepareKeepsReduced<E(!new)>(f: Field<E>, m: Matrix<E>, col: nat, p: nat)
    requires Laws(f)
    requires IsMatrix(m, |m|, |m|) && col <= p < |m| && m[p][col] != f.zero
    requires Reduced(f, m, col)
    ensures var m1 := Prepare(f, m, col, p, m, |m|); Reduced(f, m1, col) && m1[col][col] == f.one
  {
    var c := f.Inv(m[p][col]);
    MulInverse(f, m[p][col]);
    MulZero(f, c);
  }

  lemma EliminateReduces<E(!new)>(f: Field<E>, m: Matrix<E>, col: nat)
    requires Laws(f)
    requires IsMatrix(m, |m|, |m|) && col < |m|
    requires Reduced(f, m, col) && m[col][col] == f.one
    ensures Reduced(f, Eliminate(f, m, m, col, |m|, |m|), col + 1)
  {
    var m1 := Eliminate(f, m, m, col, |m|, |m|);
    forall r, j | 0 <= r < |m| && 0 <= j < col + 1
      ensures m1[r][j] == if r == j then f.one else f.zero
    {
      var a := m[r][col];
      MulZero(f, a);
      MulOne(f, a);
      AddZero(f, m[r][j]);
      AddSelf(f, a);
    }
  }

  lemma StepReduces<E(!new)>(f: Field<E>, m: Matrix<E>, col: nat, p: nat)
    requires Laws(f)
    requires IsMatrix(m, |m|, |m|) && col <= p < |m| && m[p][col] != f.zero
    requires Reduced(f, m, col)
    ensures Reduced(f, StepRows(f, m, col, p, m, |m|), col + 1)
  {
    PrepareKeepsReduced(f, m, col, p);
    EliminateReduces(f, Prepare(f, m, col, p, m, |m|), col);
  }

  // ---------------------------------------------------------------------------------------
  // Failure.

  ghost predicate IsZero<E>(f: Field<E>, x: Vec<E>)
  {
    forall i :: 0 <= i < |x| ==> x[i] == f.zero
  }

  // m * x = 0
  ghost predicate Annihilates<E>(f: Field<E>, m: Matrix<E>, x: Vec<E>)
    requires IsMatrix(m, |x|, |x|)
  {
    forall r :: 0 <= r < |x| ==> Dot(f, m[r], x, |x|) == f.zero
  }

  ghost predicate Singular<E(!new)>(f: Field<E>, m: Matrix<E>)
    requires IsMatrix(m, |m|, |m|)
  {
    exists x: Vec<E> :: IsKernelVector(f, m, x)
  }

  // A non-zero vector that m sends to zero.
  ghost predicate IsKernelVector<E>(f: Field<E>, m: Matrix<E>, x: Vec<E>)
    requires IsMatrix(m, |m|, |m|)
  {
    |x| == |m| && Annihilates(f, m, x) && !IsZero(f, x)
  }

  // Right-hand sides that are all zero.
  ghost function Zeros<E>(f: Field<E>, rows: nat): (d: Matrix<E>)
    ensures IsMatrix(d, rows, 1) && forall r :: 0 <= r < rows ==> d[r] == [f.zero]
  {
    if rows == 0 then [] else Zeros(f, rows - 1) + [[f.zero]]
  }

  lemma PrepareZeros<E(!new)>(f: Field<E>, m: Matrix<E>, col: nat, p: nat)
    requires Laws(f)
    requires IsMatrix(m, |m|, |m|) && col <= p < |m|
    ensures Prepare(f, m, col, p, Zeros(f, |m|), 1) == Zeros(f, |m|)
  {
    var z := Zeros(f, |m|);
    var e := Prepare(f, m, col, p, z, 1);
    ScaleZero(f, f.Inv(m[p][col]));
    forall r | 0 <= r < |m|
      ensures e[r] == z[r]
    {
    }
  }

  lemma ScaleZero<E(!new)>(f: Field<E>, c: E)
    requires Laws(f)
    ensures Scale(f, c, [f.zero]) == [f.zero]
  {
    MulZero(f, c);
  }

  lemma EliminateZeros<E(!new)>(f: Field<E>, m: Matrix<E>, col: nat)
    requires Laws(f)
    requires IsMatrix(m, |m|, |m|) && col < |m|
    ensures Eliminate(f, m, Zeros(f, |m|), col, 1, |m|) == Zeros(f, |m|)
  {
    var z := Zeros(f, |m|);
    var e := Eliminate(f, m, z, col, 1, |m|);
    forall r | 0 <= r < |m|
      ensures e[r] == z[r]
    {
      AxpyZero(f, m[r][col]);
    }
  }

  lemma AxpyZero<E(!new)>(f: Field<E>, a: E)
    requires Laws(f)
    ensures Axpy(f, [f.zero], a, [f.zero]) == [f.zero]
  {
    MulZero(f, a);
    AddZero(f, f.zero);
  }

  lemma AnnihilatesIsAgrees<E>(f: Field<E>, m: Matrix<E>, x: Vec<E>)
    requires IsMatrix(m, |x|, |x|)
    ensures Annihilates(f, m, x) <==> Agrees(f, m, Zeros(f, |x|), 1, x, 0)
  {
  }

  // The vector that a matrix reduced before `col` sends to zero when it has no pivot there.
  ghost function NullVector<E>(f: Field<E>, m: Matrix<E>, col: nat): (x: Vec<E>)
    requires IsMatrix(m, |m|, |m|) && col < |m|
    ensures |x| == |m| && x[col] == f.one
    ensures forall j :: 0 <= j < col ==> x[j] == m[j][col]
    ensures forall j :: col < j < |m| ==> x[j] == f.zero
  {
    Column(m[..col], col) + [f.one] + Column(Zeros(f, |m| - col - 1), 0)
  }

  lemma NoPivot<E(!new)>(f: Field<E>, m: Matrix<E>, col: nat)
    requires Laws(f)
    requires IsMatrix(m, |m|, |m|) && col < |m|
    requires Reduced(f, m, col)
    requires forall r :: col <= r < |m| ==> m[r][col] == f.zero
    ensures Singular(f, m)
  {
    var x := NullVector(f, m, col);
    forall r | 0 <= r < |m|
      ensures Dot(f, m[r], x, |m|) == f.zero
    {
      DotZeroTail(f, m[r], x, col + 1, |m|);
      DotUnit(f, m[r], x, r, col);
      MulOne(f, m[r][col]);
      AddSelf(f, m[r][col]);
      AddZero(f, f.zero);
    }
    AddSelf(f, f.one);
    OneIsNotZero(f);
    assert IsKernelVector(f, m, x);
  }

  lemma OneIsNotZero<E(!new)>(f: Field<E>)
    requires Laws(f)
    ensures f.one != f.zero
  {
    assert At(f.one, f.one, f.one);
  }

  lemma StepAnnihilates<E(!new)>(f: Field<E>, m: Matrix<E>, col: nat, p: nat, x: Vec<E>)
    requires Laws(f)
    requires IsMatrix(m, |x|, |x|) && col <= p < |x| && m[p][col] != f.zero
    ensures Annihilates(f, StepRows(f, m, col, p, m, |m|), x) <==> Annihilates(f, m, x)
  {
    PrepareZeros(f, m, col, p);
    EliminateZeros(f, Prepare(f, m, col, p, m, |m|), col);
    StepAgrees(f, m, Zeros(f, |x|), 1, x, 0, col, p);
    AnnihilatesIsAgrees(f, m, x);
    AnnihilatesIsAgrees(f, StepRows(f, m, col, p, m, |m|), x);
  }

  lemma StepKeepsSingular<E(!new)>(f: Field<E>, m: Matrix<E>, m1: Matrix<E>, col: nat, p: nat)
    requires Laws(f)
    requires IsMatrix(m, |m|, |m|) && col <= p < |m| && m[p][col] != f.zero
    requires m1 == StepRows(f, m, col, p, m, |m|)
    ensures |m1| == |m|
    ensures Singular(f, m1) <==> Singular(f, m)
  {
    if Singular(f, m1) {
      var x :| IsKernelVector(f, m1, x);
      StepAnnihilates(f, m, col, p, x);
      assert IsKernelVector(f, m, x) && IsKernelVector(f, m1, x);
    }
    if Singular(f, m) {
      var x :| IsKernelVector(f, m, x);
      StepAnnihilates(f, m, col, p, x);
      assert IsKernelVector(f, m, x) && IsKernelVector(f, m1, x);
    }
  }

  lemma IdentityNotSingular<E(!new)>(f: Field<E>, m: Matrix<E>)
    requires Laws(f)
    requires IsMatrix(m, |m|, |m|) && Reduced(f, m, |m|)
    ensures !Singular(f, m)
  {
    if Singular(f, m) {
      var x :| IsKernelVector(f, m, x);
      forall r | 0 <= r < |x|
        ensures x[r] == f.zero
      {
        DotUnit(f, m[r], x, r, |x|);
        assert Dot(f, m[r], x, |x|) == f.zero;
      }
    }
  }

  // ---------------------------------------------------------------------------------------
  // The whole elimination.

  // m1 and d1 have the solutions of m and d, and m1 is singular exactly when m is.
  ghost predicate SameSystem<E(!new)>(f: Field<E>, m: Matrix<E>, d: Matrix<E>, m1: Matrix<E>, d1: Matrix<E>, w: nat)
  {
    && IsMatrix(m, |m|, |m|) && IsMatrix(d, |m|, w) && IsMatrix(m1, |m|, |m|) && IsMatrix(d1, |m|, w)
    && (Singular(f, m1) <==> Singular(f, m))
    && forall x: Vec<E>, t: nat {:trigger Agrees(f, m, d, w, x, t)} {:trigger Agrees(f, m1, d1, w, x, t)} ::
      |x| == |m| && t < w ==> (Agrees(f, m1, d1, w, x, t) <==> Agrees(f, m, d, w, x, t))
  }

  lemma StepKeepsSystem<E(!new)>(f: Field<E>, m: Matrix<E>, d: Matrix<E>, w: nat, col: nat, p: nat)
    requires Laws(f)
    requires IsMatrix(m, |m|, |m|) && IsMatrix(d, |m|, w) && col <= p < |m| && m[p][col] != f.zero
    ensures SameSystem(f, m, d, StepRows(f, m, col, p, m, |m|), StepRows(f, m, col, p, d, w), w)
  {
    var m1, d1 := StepRows(f, m, col, p, m, |m|), StepRows(f, m, col, p, d, w);
    StepKeepsSingular(f, m, m1, col, p);
    forall x: Vec<E>, t: nat | |x| == |m| && t < w
      ensures Agrees(f, m1, d1, w, x, t) <==> Agrees(f, m, d, w, x, t)
    {
      StepAgrees(f, m, d, w, x, t, col, p);
    }
  }

  lemma SameSystemTransitive<E(!new)>(f: Field<E>, m: Matrix<E>, d: Matrix<E>, m1: Matrix<E>, d1: Matrix<E>,
                                      m2: Matrix<E>, d2: Matrix<E>, w: nat)
    requires SameSystem(f, m, d, m1, d1, w) && SameSystem(f, m1, d1, m2, d2, w)
    ensures SameSystem(f, m, d, m2, d2, w)
  {
  }

  // `p` solves the system, and nothing else does.
  ghost predicate IsOnlySolution<E(!new)>(f: Field<E>, m: Matrix<E>, d: Matrix<E>, w: nat, p: Matrix<E>)
    requires IsMatrix(m, |m|, |m|) && IsMatrix(d, |m|, w)
  {
    && IsMatrix(p, |m|, w)
    && forall x: Vec<E>, t: nat {:trigger Agrees(f, m, d, w, x, t)} ::
      |x| == |m| && t < w ==> (Agrees(f, m, d, w, x, t) <==> x == Column(p, t))
  }

  // What decoding the data d under the matrix m gives.  There is one such result.
  ghost predicate Decodes<E(!new)>(f: Field<E>, m: Matrix<E>, d: Matrix<E>, w: nat, r: Option<Matrix<E>>)
    requires IsMatrix(m, |m|, |m|) && IsMatrix(d, |m|, w)
  {
    match r
    case None => Singular(f, m)
    case Some(p) => !Singular(f, m) && IsOnlySolution(f, m, d, w, p)
  }

  lemma IdentitySolves<E(!new)>(f: Field<E>, m: Matrix<E>, d: Matrix<E>, w: nat)
    requires Laws(f)
    requires IsMatrix(m, |m|, |m|) && IsMatrix(d, |m|, w)
    requires Reduced(f, m, |m|)
    ensures IsOnlySolution(f, m, d, w, d)
  {
    forall x: Vec<E>, t: nat | |x| == |m| && t < w
      ensures Agrees(f, m, d, w, x, t) <==> x == Column(d, t)
    {
      forall r | 0 <= r < |x|
        ensures Dot(f, m[r], x, |x|) == x[r]
      {
        DotUnit(f, m[r], x, r, |x|);
      }
    }
  }

  // The elimination, started on m and d, has reached m1 and d1 with all columns reduced.
  lemma FinishedElimination<E(!new)>(f: Field<E>, m: Matrix<E>, d: Matrix<E>, m1: Matrix<E>, d1: Matrix<E>, w: nat)
    requires Laws(f)
    requires SameSystem(f, m, d, m1, d1, w) && Reduced(f, m1, |m1|)
    ensures Decodes(f, m, d, w, Some(d1))
  {
    IdentityNotSingular(f, m1);
    IdentitySolves(f, m1, d1, w);
  }

  // ... or column `col` without a pivot.
  lemma FailedElimination<E(!new)>(f: Field<E>, m: Matrix<E>, d: Matrix<E>, m1: Matrix<E>, d1: Matrix<E>, w: nat, col: nat)
    requires Laws(f)
    requires SameSystem(f, m, d, m1, d1, w) && col < |m1| && Reduced(f, m1, col)
    requires Pivot(f, m1, col, col) == |m1|
    ensures Decodes(f, m, d, w, None)
  {
    NoPivot(f, m1, col);
  }

  // Every system has a result: the elimination run as a proof.
  lemma {:induction false} DecodingExists<E(!new)>(f: Field<E>, m: Matrix<E>, d: Matrix<E>, m1: Matrix<E>, d1: Matrix<E>, w: nat, col: nat)
    returns (r: Option<Matrix<E>>)
    requires Laws(f)
    requires SameSystem(f, m, d, m1, d1, w) && col <= |m1| && Reduced(f, m1, col)
    ensures Decodes(f, m, d, w, r)
    decreases |m1| - col
  {
    if col == |m1| {
      FinishedElimination(f, m, d, m1, d1, w);
      r := Some(d1);
      return;
    }
    var p := Pivot(f, m1, col, col);
    if p == |m1| {
      FailedElimination(f, m, d, m1, d1, w, col);
      r := None;
    } else {
      var m2, d2 := NextSystem(f, m, d, m1, d1, w, col, p);
      r := DecodingExists(f, m, d, m2, d2, w, col + 1);
    }
  }

  lemma NextSystem<E(!new)>(f: Field<E>, m: Matrix<E>, d: Matrix<E>, m1: Matrix<E>, d1: Matrix<E>, w: nat, col: nat, p: nat)
    returns (m2: Matrix<E>, d2: Matrix<E>)
    requires Laws(f)
    requires SameSystem(f, m, d, m1, d1, w) && col <= p < |m1| && Reduced(f, m1, col) && m1[p][col] != f.zero
    ensures m2 == StepRows(f, m1, col, p, m1, |m1|) && d2 == StepRows(f, m1, col, p, d1, w)
    ensures |m2| == |m1| && SameSystem(f, m, d, m2, d2, w) && Reduced(f, m2, col + 1)
  {
    m2, d2 := StepRows(f, m1, col, p, m1, |m1|), StepRows(f, m1, col, p, d1, w);
    StepReduces(f, m1, col, p);
    StepKeepsSystem(f, m1, d1, w, col, p);
    SameSystemTransitive(f, m, d, m1, d1, m2, d2, w);
  }

  lemma SameRows<E>(p: Matrix<E>, q: Matrix<E>, rows: nat, w: nat)
    requires IsMatrix(p, rows, w) && IsMatrix(q, rows, w)
    requires forall t :: 0 <= t < w ==> Column(p, t) == Column(q, t)
    ensures p == q
  {
    forall r | 0 <= r < rows
      ensures p[r] == q[r]
    {
      forall t | 0 <= t < w
        ensures p[r][t] == q[r][t]
      {
        assert Column(p, t)[r] == Column(q, t)[r];
      }
    }
  }

  lemma DecodingIsUnique<E(!new)>(f: Field<E>, m: Matrix<E>, d: Matrix<E>, w: nat, r: Option<Matrix<E>>, s: Option<Matrix<E>>)
    requires IsMatrix(m, |m|, |m|) && IsMatrix(d, |m|, w)
    requires Decodes(f, m, d, w, r) && Decodes(f, m, d, w, s)
    ensures r == s
  {
    if r.Some? && s.Some? {
      forall t | 0 <= t < w
        ensures Column(r.value, t) == Column(s.value, t)
      {
        assert Agrees(f, m, d, w, Column(r.value, t), t);
      }
      SameRows(r.value, s.value, |m|, w);
    }
  }

  // The data are the products of the matrix with the rows of p.
  ghost predicate IsProduct<E>(f: Field<E>, m: Matrix<E>, p: Matrix<E>, d: Matrix<E>, w: nat)
    requires IsMatrix(m, |m|, |m|) && IsMatrix(d, |m|, w) && IsMatrix(p, |m|, w)
  {
    forall t :: 0 <= t < w ==> Agrees(f, m, d, w, Column(p, t), t)
  }

  // Decoding undoes multiplication: it returns the rows that were multiplied, or fails because
  // the matrix is singular.
  lemma DecodingIsExact<E(!new)>(f: Field<E>, m: Matrix<E>, p: Matrix<E>, d: Matrix<E>, w: nat, r: Option<Matrix<E>>)
    requires IsMatrix(m, |m|, |m|) && IsMatrix(d, |m|, w) && IsMatrix(p, |m|, w)
    requires IsProduct(f, m, p, d, w)
    requires Decodes(f, m, d, w, r)
    ensures r == if Singular(f, m) then None else Some(p)
  {
    if r.Some? {
      forall t | 0 <= t < w
        ensures Column(r.value, t) == Column(p, t)
      {
        assert Agrees(f, m, d, w, Column(p, t), t);
      }
      SameRows(r.value, p, |m|, w);
    }
  }
}
