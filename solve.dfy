/** The triangular solves with a factored AIJ matrix: MatSolve_AIJ,
    MatSolveAdd_AIJ, MatSolveTrans_AIJ and MatSolveTransAdd_AIJ. Each
    refuses a matrix that does not hold an LU factor, runs its two sweeps
    in the matrix's solve work vector, and writes (or adds) the result into
    x through a permutation. */
module Solve {
  import opened Sparse
  import opened Aij
  import opened Numeric
  import opened SolveSpec

  /** What the solves rely on in a factored matrix without checking: a
      square factor pattern with its values, row and column permutations
      of 0..n-1, and a work vector of n entries of its own. */
  ghost predicate Solvable(mat: Mat)
    reads mat
  {
    && mat.m == mat.n
    && FactorPattern(mat.Pat())
    && mat.a.Length == |mat.aj|
    && IsPermutation(mat.row, mat.n) && IsPermutation(mat.col, mat.n)
    && mat.solveWork.Length == mat.n && mat.solveWork != mat.a
  }

  /** Row 0 of a factor has nothing left of its diagonal. */
  lemma FirstRowHasNoLower(P: Pattern)
    requires FactorPattern(P) && P.n >= 1
    ensures LowerCount(P, 0) == 0
  {
    SplitAtDiagonal(P, 0);
    assert P.aj[P.ai[0] - 1] >= 1;
  }

  // ---------------------------------------------------------------------
  // MatSolve_AIJ and MatSolveAdd_AIJ.

  /** The running sum of row i's lower part against the finished entries. */
  method ForwardRow(fa: array<real>, P: Pattern, tmp: array<real>, i: int, s: real) returns (sum: real)
    requires Stored(P, fa[..]) && 0 <= i < P.n && tmp.Length == P.n
    ensures sum == ForwardSum(P, fa[..], tmp[..i], s, i, LowerCount(P, i))
  {
    SplitAtDiagonal(P, i);
    sum := s;
    for p := P.ai[i] - 1 to P.diag[i] - 1
      invariant sum == ForwardSum(P, fa[..], tmp[..i], s, i, p - (P.ai[i] - 1))
    {
      assert tmp[P.aj[p] - 1] == tmp[..i][P.aj[p] - 1];
      assert ForwardSum(P, fa[..], tmp[..i], s, i, p + 1 - (P.ai[i] - 1)) ==
             Less(sum, fa[p], tmp[..i][P.aj[p] - 1]);
      sum := sum - fa[p] * tmp[P.aj[p] - 1];
    }
  }

  /** Forward solve with L: tmp[0] = b[r[0]], then row by row
      tmp[i] = b[r[i]] less row i of L times tmp. */
  method ForwardSweep(fa: array<real>, P: Pattern, r: seq<int>, b: seq<real>, tmp: array<real>)
    requires Stored(P, fa[..]) && P.n >= 1 && IndexMap(r, P.n) && |b| == P.n
    requires tmp.Length == P.n && tmp != fa
    modifies tmp
    ensures tmp[..] == Forward(P, fa[..], Gather(b, r), P.n)
  {
    ghost var c := Gather(b, r);
    FirstRowHasNoLower(P);
    tmp[0] := b[r[0]];
    assert tmp[..1] == Forward(P, fa[..], c, 1);
    for i := 1 to P.n
      invariant tmp[..i] == Forward(P, fa[..], c, i)
    {
      var sum := ForwardRow(fa, P, tmp, i, b[r[i]]);
      tmp[i] := sum;
      assert tmp[..i + 1] == tmp[..i] + [sum];
    }
    assert tmp[..] == tmp[..P.n];
  }

  /** The running sum of row i's upper part against tmp, from tmp[i]. */
  method BackwardRow(fa: array<real>, P: Pattern, tmp: array<real>, i: int) returns (sum: real)
    requires Stored(P, fa[..]) && 0 <= i < P.n && tmp.Length == P.n
    ensures sum == BackwardSum(P, fa[..], tmp[..], tmp[i], i, UpperCount(P, i))
  {
    SplitAtDiagonal(P, i);
    sum := tmp[i];
    for q := P.diag[i] to P.ai[i + 1] - 1
      invariant sum == BackwardSum(P, fa[..], tmp[..], tmp[i], i, q - P.diag[i])
    {
      sum := sum - fa[q] * tmp[P.aj[q] - 1];
    }
  }

  /** Backward solve with U, rows n-1 down to 0: tmp[i] becomes (tmp[i]
      less row i of U right of the diagonal times tmp) times the stored
      1/pivot, and is written to x[c[i]] (or added to it). */
  method BackwardSweep(fa: array<real>, P: Pattern, c: seq<int>, tmp: array<real>, x: array<real>, add: bool)
    requires Stored(P, fa[..]) && IsPermutation(c, P.n)
    requires tmp.Length == P.n && x.Length == P.n
    requires tmp != fa && x != fa && x != tmp
    modifies tmp, x
    ensures tmp[..] == Backward(P, fa[..], old(tmp[..]), 0)
    ensures forall k :: 0 <= k < P.n ==> x[c[k]] == if add then old(x[c[k]]) + tmp[k] else tmp[k]
  {
    ghost var y := tmp[..];
    ghost var X := x[..];
    for i := P.n downto 0
      invariant tmp[..] == Backward(P, fa[..], y, i)
      invariant forall k :: i <= k < P.n ==> x[c[k]] == if add then X[c[k]] + tmp[k] else tmp[k]
      invariant forall k :: 0 <= k < i ==> x[c[k]] == X[c[k]]
    {
      BackwardEntry(fa, P, tmp, i, y);
      if add {
        x[c[i]] := x[c[i]] + tmp[i];
      } else {
        x[c[i]] := tmp[i];
      }
    }
  }

  /** Step i of the backward sweep: tmp[i] becomes its running sum times
      the stored 1/pivot. */
  method BackwardEntry(fa: array<real>, P: Pattern, tmp: array<real>, i: int, ghost y: seq<real>)
    requires Stored(P, fa[..]) && 0 <= i < P.n && tmp.Length == P.n && |y| == P.n && tmp != fa
    requires tmp[..] == Backward(P, fa[..], y, i + 1)
    modifies tmp
    ensures tmp[..] == Backward(P, fa[..], y, i)
  {
    SplitAtDiagonal(P, i);
    ghost var V, z := fa[..], tmp[..];
    var sum := BackwardRow(fa, P, tmp, i);
    tmp[i] := sum * fa[P.diag[i] - 1];
    ghost var e := Scale(BackwardSum(P, V, z, z[i], i, UpperCount(P, i)), V[P.diag[i] - 1]);
    assert tmp[i] == e;
    assert forall k :: 0 <= k < P.n && k != i ==> tmp[k] == z[k];
    assert tmp[..] == z[i := e];
  }

  /** MatSolve_AIJ: x with A x = b, through the factor stored in mat. */
  method MatSolve(mat: Mat, b: seq<real>, x: array<real>) returns (res: Result<()>)
    requires mat.factor == FactorLU ==>
      Solvable(mat) && mat.n >= 1 && |b| == mat.n && x.Length == mat.n && x != mat.a && x != mat.solveWork
    modifies mat.solveWork, x
    ensures res == if mat.factor == FactorLU then Ok(()) else Err(NotFactored)
    ensures res.Err? ==> unchanged(mat.solveWork) && unchanged(x)
    ensures res.Ok? ==>
      var z := SolveValues(mat.Pat(), mat.a[..], mat.row, b);
      && mat.solveWork[..] == z
      && forall k :: 0 <= k < mat.n ==> x[mat.col[k]] == z[k]
  {
    if mat.factor != FactorLU {
      return Err(NotFactored);
    }
    var P := Pattern(mat.n, mat.ai, mat.aj, mat.diag);
    ForwardSweep(mat.a, P, mat.row, b, mat.solveWork);
    BackwardSweep(mat.a, P, mat.col, mat.solveWork, x, false);
    res := Ok(());
  }

  /** MatSolveAdd_AIJ: x = y + A^-1 b; y is copied into x first unless
      they are the same vector. */
  method MatSolveAdd(mat: Mat, b: seq<real>, y: array<real>, x: array<real>) returns (res: Result<()>)
    requires mat.factor == FactorLU ==>
      && Solvable(mat) && mat.n >= 1 && |b| == mat.n && x.Length == mat.n && y.Length == mat.n
      && x != mat.a && x != mat.solveWork && y != mat.solveWork
    modifies mat.solveWork, x
    ensures res == if mat.factor == FactorLU then Ok(()) else Err(NotFactored)
    ensures res.Err? ==> unchanged(mat.solveWork) && unchanged(x)
    ensures res.Ok? ==>
      var z := SolveValues(mat.Pat(), mat.a[..], mat.row, b);
      && mat.solveWork[..] == z
      && forall k :: 0 <= k < mat.n ==> x[mat.col[k]] == old(y[mat.col[k]]) + z[k]
  {
    if mat.factor != FactorLU {
      return Err(NotFactored);
    }
    if y != x {
      forall k | 0 <= k < x.Length {
        x[k] := y[k];
      }
    }
    var P := Pattern(mat.n, mat.ai, mat.aj, mat.diag);
    ForwardSweep(mat.a, P, mat.row, b, mat.solveWork);
    BackwardSweep(mat.a, P, mat.col, mat.solveWork, x, true);
    res := Ok(());
  }

  // ---------------------------------------------------------------------
  // MatSolveTrans_AIJ and MatSolveTransAdd_AIJ.

  /** tmp[cinv[i]] = b[i] for every i: b gathered through the column
      permutation. */
  method TransLoad(tmp: array<real>, col: seq<int>, cinv: seq<int>, b: seq<real>)
    requires IsPermutation(col, |col|) && cinv == Inverse(col)
    requires tmp.Length == |col| && |b| == |col|
    modifies tmp
    ensures tmp[..] == Gather(b, col)
  {
    InverseIsPermutation(col);
    for i := 0 to |col|
      invariant forall j :: 0 <= j < i ==> tmp[cinv[j]] == b[j]
    {
      tmp[cinv[i]] := b[i];
    }
    forall k | 0 <= k < |col|
      ensures tmp[k] == b[col[k]]
    {
      assert cinv[col[k]] == k;
    }
  }

  /** Forward solve with U^T, rows 0 to n-1: scale tmp[i] by the stored
      1/pivot, then subtract it times row i's upper part from the columns
      that part names. */
  method UpperTransSweep(fa: array<real>, P: Pattern, tmp: array<real>)
    requires Stored(P, fa[..]) && tmp.Length == P.n && tmp != fa
    modifies tmp
    ensures tmp[..] == TransForward(P, fa[..], old(tmp[..]), P.n)
  {
    ghost var c := tmp[..];
    for i := 0 to P.n
      invariant tmp[..] == TransForward(P, fa[..], c, i)
    {
      UpperTransRow(fa, P, tmp, i);
    }
  }

  method UpperTransRow(fa: array<real>, P: Pattern, tmp: array<real>, i: int)
    requires Stored(P, fa[..]) && tmp.Length == P.n && tmp != fa && 0 <= i < P.n
    modifies tmp
    ensures tmp[..] == UpperTransStep(P, fa[..], old(tmp[..]), i)
  {
    ghost var V := fa[..];
    ghost var w := tmp[..];
    SplitAtDiagonal(P, i);
    tmp[i] := tmp[i] * fa[P.diag[i] - 1];
    ghost var m := Scale(w[i], V[P.diag[i] - 1]);
    assert tmp[i] == m;
    assert forall k :: 0 <= k < P.n && k != i ==> tmp[k] == w[k];
    assert tmp[..] == w[i := m];
    for q := P.diag[i] to P.ai[i + 1] - 1
      invariant tmp[..] == SubUpper(P, V, w[i := m], m, i, q - P.diag[i])
      invariant tmp[i] == m
    {
      ghost var v := tmp[..];
      var col := P.aj[q] - 1;
      assert fa[q] * tmp[i] == m * V[q];
      tmp[col] := tmp[col] - fa[q] * tmp[i];
      assert tmp[col] == Less(v[col], m, V[q]);
      assert forall k :: 0 <= k < P.n && k != col ==> tmp[k] == v[k];
      assert tmp[..] == v[col := Less(v[col], m, V[q])];
    }
  }

  /** Backward solve with L^T, rows n-1 down to 0: subtract tmp[i] times
      row i's lower part, walked leftwards from the diagonal, from the
      columns that part names. */
  method LowerTransSweep(fa: array<real>, P: Pattern, tmp: array<real>)
    requires Stored(P, fa[..]) && tmp.Length == P.n && tmp != fa
    modifies tmp
    ensures tmp[..] == TransBackward(P, fa[..], old(tmp[..]), 0)
  {
    ghost var z := tmp[..];
    for i := P.n downto 0
      invariant tmp[..] == TransBackward(P, fa[..], z, i)
    {
      LowerTransRow(fa, P, tmp, i);
    }
  }

  method LowerTransRow(fa: array<real>, P: Pattern, tmp: array<real>, i: int)
    requires Stored(P, fa[..]) && tmp.Length == P.n && tmp != fa && 0 <= i < P.n
    modifies tmp
    ensures tmp[..] == LowerTransStep(P, fa[..], old(tmp[..]), i)
  {
    ghost var V := fa[..];
    ghost var w := tmp[..];
    SplitAtDiagonal(P, i);
    for p := P.diag[i] - 1 downto P.ai[i] - 1
      invariant tmp[..] == SubLower(P, V, w, w[i], i, P.diag[i] - 1 - p)
      invariant tmp[i] == w[i]
    {
      ghost var v := tmp[..];
      var col := P.aj[p] - 1;
      assert fa[p] * tmp[i] == w[i] * V[p];
      tmp[col] := tmp[col] - fa[p] * tmp[i];
      assert tmp[col] == Less(v[col], w[i], V[p]);
      assert forall k :: 0 <= k < P.n && k != col ==> tmp[k] == v[k];
      assert tmp[..] == v[col := Less(v[col], w[i], V[p])];
    }
  }

  /** x[p[i]] = tmp[i] (or x[p[i]] += tmp[i]) for every i. */
  method PlaceOut(tmp: array<real>, p: seq<int>, x: array<real>, add: bool)
    requires IsPermutation(p, |p|) && tmp.Length == |p| && x.Length == |p| && x != tmp
    modifies x
    ensures forall i :: 0 <= i < |p| ==> x[p[i]] == if add then old(x[p[i]]) + tmp[i] else tmp[i]
  {
    ghost var X := x[..];
    for i := 0 to |p|
      invariant forall j :: 0 <= j < i ==> x[p[j]] == if add then X[p[j]] + tmp[j] else tmp[j]
      invariant forall j :: i <= j < |p| ==> x[p[j]] == X[p[j]]
    {
      if add {
        x[p[i]] := x[p[i]] + tmp[i];
      } else {
        x[p[i]] := tmp[i];
      }
    }
  }

  /** The two transposed sweeps in the work vector: b gathered through the
      column permutation, then U^T, then L^T. */
  method TransSweeps(mat: Mat, b: seq<real>)
    requires Solvable(mat) && |b| == mat.n
    modifies mat.solveWork
    ensures mat.solveWork[..] == TransValues(mat.Pat(), mat.a[..], mat.col, b)
  {
    var P := Pattern(mat.n, mat.ai, mat.aj, mat.diag);
    var cinv := InvertPermutation(mat.col);
    TransLoad(mat.solveWork, mat.col, cinv, b);
    UpperTransSweep(mat.a, P, mat.solveWork);
    LowerTransSweep(mat.a, P, mat.solveWork);
  }

  /** MatSolveTrans_AIJ, with the result placed through the row
      permutation: x with A^T x = b. */
  method MatSolveTrans(mat: Mat, b: seq<real>, x: array<real>) returns (res: Result<()>)
    requires mat.factor == FactorLU ==>
      Solvable(mat) && |b| == mat.n && x.Length == mat.n && x != mat.a && x != mat.solveWork
    modifies mat.solveWork, x
    ensures res == if mat.factor == FactorLU then Ok(()) else Err(NotFactored)
    ensures res.Err? ==> unchanged(mat.solveWork) && unchanged(x)
    ensures res.Ok? ==>
      var z := TransValues(mat.Pat(), mat.a[..], mat.col, b);
      && mat.solveWork[..] == z
      && forall i :: 0 <= i < mat.n ==> x[mat.row[i]] == z[i]
  {
    if mat.factor != FactorLU {
      return Err(NotFactored);
    }
    TransSweeps(mat, b);
    PlaceOut(mat.solveWork, mat.row, x, false);
    res := Ok(());
  }

  /** MatSolveTransAdd_AIJ, with the result placed through the row
      permutation: x = y + A^-T b; y is copied into x first unless they are
      the same vector. */
  method MatSolveTransAdd(mat: Mat, b: seq<real>, y: array<real>, x: array<real>) returns (res: Result<()>)
    requires mat.factor == FactorLU ==>
      && Solvable(mat) && |b| == mat.n && x.Length == mat.n && y.Length == mat.n
      && x != mat.a && x != mat.solveWork && y != mat.solveWork
    modifies mat.solveWork, x
    ensures res == if mat.factor == FactorLU then Ok(()) else Err(NotFactored)
    ensures res.Err? ==> unchanged(mat.solveWork) && unchanged(x)
    ensures res.Ok? ==>
      var z := TransValues(mat.Pat(), mat.a[..], mat.col, b);
      && mat.solveWork[..] == z
      && forall i :: 0 <= i < mat.n ==> x[mat.row[i]] == old(y[mat.row[i]]) + z[i]
  {
    if mat.factor != FactorLU {
      return Err(NotFactored);
    }
    if y != x {
      forall k | 0 <= k < x.Length {
        x[k] := y[k];
      }
    }
    TransSweeps(mat, b);
    PlaceOut(mat.solveWork, mat.row, x, true);
    res := Ok(());
  }

  /** MatSolveTrans_AIJ as written: the result is placed through the
      inverse of the row permutation. */
  method MatSolveTransAsWritten(mat: Mat, b: seq<real>, x: array<real>) returns (res: Result<()>)
    requires mat.factor == FactorLU ==>
      Solvable(mat) && |b| == mat.n && x.Length == mat.n && x != mat.a && x != mat.solveWork
    modifies mat.solveWork, x
    ensures res == if mat.factor == FactorLU then Ok(()) else Err(NotFactored)
    ensures res.Err? ==> unchanged(mat.solveWork) && unchanged(x)
    ensures res.Ok? ==>
      var z := TransValues(mat.Pat(), mat.a[..], mat.col, b);
      && mat.solveWork[..] == z
      && forall i :: 0 <= i < mat.n ==> x[Inverse(mat.row)[i]] == z[i]
  {
    if mat.factor != FactorLU {
      return Err(NotFactored);
    }
    var rinv := InvertPermutation(mat.row);
    InverseIsPermutation(mat.row);
    TransSweeps(mat, b);
    PlaceOut(mat.solveWork, rinv, x, false);
    res := Ok(());
  }

  /** MatSolveTransAdd_AIJ as written: the result is added through the
      inverse of the row permutation. */
  method MatSolveTransAddAsWritten(mat: Mat, b: seq<real>, y: array<real>, x: array<real>) returns (res: Result<()>)
    requires mat.factor == FactorLU ==>
      && Solvable(mat) && |b| == mat.n && x.Length == mat.n && y.Length == mat.n
      && x != mat.a && x != mat.solveWork && y != mat.solveWork
    modifies mat.solveWork, x
    ensures res == if mat.factor == FactorLU then Ok(()) else Err(NotFactored)
    ensures res.Err? ==> unchanged(mat.solveWork) && unchanged(x)
    ensures res.Ok? ==>
      var z := TransValues(mat.Pat(), mat.a[..], mat.col, b);
      && mat.solveWork[..] == z
      && forall i :: 0 <= i < mat.n ==> x[Inverse(mat.row)[i]] == old(y[Inverse(mat.row)[i]]) + z[i]
  {
    if mat.factor != FactorLU {
      return Err(NotFactored);
    }
    if y != x {
      forall k | 0 <= k < x.Length {
        x[k] := y[k];
      }
    }
    var rinv := InvertPermutation(mat.row);
    InverseIsPermutation(mat.row);
    TransSweeps(mat, b);
    PlaceOut(mat.solveWork, rinv, x, true);
    res := Ok(());
  }
}
