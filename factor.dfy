/** The factorization entry points on matrix objects: the symbolic phases
    assemble a factor matrix from the pattern they predict, and
    MatLUFactor_AIJ factors a matrix in place, the matrix taking over the
    factor's arrays. */
module Factor {
  import opened Sparse
  import opened Aij
  import opened Symbolic
  import opened ILU
  import opened Numeric
  import opened Solve

  // ---------------------------------------------------------------------
  // When a predicted pattern can be factored numerically.

  /** Every row of the permuted matrix stores its diagonal entry: row r[k]
      of A has an entry in column c[k]. */
  ghost predicate StructuralDiagonal(A: Csr, r: seq<int>, ic: seq<int>)
    requires WellFormed(A) && IsPermutation(r, A.m) && |ic| == A.n
  {
    forall k :: 0 <= k < A.m ==> k in PermRow(A, r, ic, k)
  }

  /** The facts about row k of a pattern that make it a factor row. */
  ghost predicate DiagonalRow(P: Pattern, k: int)
    requires Shaped(P) && 0 <= k < P.n
  {
    && SplitAt(RowOf(P, k), k, P.diag[k] - P.ai[k])
    && Increasing(RowOf(P, k))
    && ColumnsIn(RowOf(P, k), P.n)
    && k in RowOf(P, k)
  }

  /** An increasing row split at k that holds k has k right at the split,
      and only larger entries after it. */
  lemma SplitPivot(R: seq<int>, k: int, d: int)
    requires SplitAt(R, k, d) && Increasing(R) && k in R
    ensures d < |R| && R[d] == k
    ensures forall p :: d < p < |R| ==> R[p] > k
  {
    var t :| 0 <= t < |R| && R[t] == k;
    assert d <= t;
    assert R[d] >= k;
    forall p | d < p < |R|
      ensures R[p] > k
    {
      assert R[d] < R[p];
    }
  }

  /** So in a pattern row holding its diagonal, the diagonal pointer names
      column k, the entries before it lie left of k and those after it
      right of k. */
  lemma RowHoldsDiagonal(P: Pattern, k: int)
    requires Shaped(P) && 0 <= k < P.n && DiagonalRow(P, k)
    ensures 1 <= P.ai[k] <= P.diag[k] < P.ai[k + 1] <= P.ai[P.n]
    ensures P.aj[P.diag[k] - 1] == k + 1
    ensures forall p :: P.ai[k] - 1 <= p < P.diag[k] - 1 ==> P.aj[p] - 1 < k
    ensures forall p :: P.diag[k] <= p < P.ai[k + 1] - 1 ==> P.aj[p] - 1 > k
    ensures forall p :: P.ai[k] - 1 <= p < P.ai[k + 1] - 1 ==> 1 <= P.aj[p] <= P.n
  {
    SplitPivot(RowOf(P, k), k, P.diag[k] - P.ai[k]);
    PivotInRow(P, k);
  }

  /** RowHoldsDiagonal once the split of the row is known, read back into
      pointer and column-array terms. */
  lemma PivotInRow(P: Pattern, k: int)
    requires Shaped(P) && 0 <= k < P.n
    requires var R, d := RowOf(P, k), P.diag[k] - P.ai[k];
      && SplitAt(R, k, d) && ColumnsIn(R, P.n) && d < |R| && R[d] == k
      && (forall p :: d < p < |R| ==> R[p] > k)
    ensures 1 <= P.ai[k] <= P.diag[k] < P.ai[k + 1] <= P.ai[P.n]
    ensures P.aj[P.diag[k] - 1] == k + 1
    ensures forall p :: P.ai[k] - 1 <= p < P.diag[k] - 1 ==> P.aj[p] - 1 < k
    ensures forall p :: P.diag[k] <= p < P.ai[k + 1] - 1 ==> P.aj[p] - 1 > k
    ensures forall p :: P.ai[k] - 1 <= p < P.ai[k + 1] - 1 ==> 1 <= P.aj[p] <= P.n
  {
    var R := RowOf(P, k);
    var lo := P.ai[k] - 1;
    PatternPointersLe(P, k, k + 1);
    PatternPointersLe(P, k + 1, P.n);
    forall p | lo <= p < P.ai[k + 1] - 1
      ensures P.aj[p] - 1 == R[p - lo]
    {
    }
  }

  /** Row p of the column array lies in some row of the pattern. */
  lemma {:induction false} RowContaining(P: Pattern, p: int, k: int) returns (j: int)
    requires Shaped(P) && 0 <= k < P.n && P.ai[k] - 1 <= p < |P.aj|
    ensures k <= j < P.n && P.ai[j] - 1 <= p < P.ai[j + 1] - 1
    decreases P.n - k
  {
    if p < P.ai[k + 1] - 1 {
      j := k;
    } else {
      j := RowContaining(P, p, k + 1);
    }
  }

  /** A pattern whose every row holds its diagonal is a factor pattern. */
  lemma DiagonalPattern(P: Pattern)
    requires Shaped(P)
    requires forall k :: 0 <= k < P.n ==> DiagonalRow(P, k)
    ensures FactorPattern(P)
  {
    forall k {:trigger P.diag[k]} | 0 <= k < P.n
      ensures 1 <= P.ai[k] <= P.diag[k] < P.ai[k + 1] <= P.ai[P.n]
      ensures P.aj[P.diag[k] - 1] == k + 1
    {
      RowHoldsDiagonal(P, k);
    }
    forall k, p | 0 <= k < P.n && P.ai[k] - 1 <= p < P.diag[k] - 1
      ensures P.aj[p] - 1 < k
    {
      RowHoldsDiagonal(P, k);
    }
    forall k, p | 0 <= k < P.n && P.diag[k] <= p < P.ai[k + 1] - 1
      ensures P.aj[p] - 1 > k
    {
      RowHoldsDiagonal(P, k);
    }
    forall p | 0 <= p < |P.aj|
      ensures 1 <= P.aj[p] <= P.n
    {
      var j := RowContaining(P, p, 0);
      RowHoldsDiagonal(P, j);
    }
  }

  /** Row k of rows holds column k, for every k. */
  ghost predicate HoldsDiagonals(rows: seq<seq<int>>)
  {
    forall k :: 0 <= k < |rows| ==> k in rows[k]
  }

  /** Every row of the LU pattern of A holds its diagonal, whether the
      permuted row stores it or fill from an earlier row supplies it. */
  ghost predicate LUDiagonal(A: Csr, r: seq<int>, ic: seq<int>)
    requires WellFormed(A) && IsPermutation(r, A.m) && |ic| == A.n
  {
    forall rows {:trigger HoldsDiagonals(rows)} :: |rows| == A.m && RowsBuilt(A, r, ic, rows) ==> HoldsDiagonals(rows)
  }

  /** An LU pattern whose rows hold their diagonals is a factor pattern. */
  lemma LUDiagonalIsFactorPattern(A: Csr, r: seq<int>, ic: seq<int>, P: Pattern)
    requires WellFormed(A) && IsPermutation(r, A.m) && |ic| == A.n
    requires IsLUPattern(A, r, ic, P) && LUDiagonal(A, r, ic)
    ensures FactorPattern(P)
  {
    LUDiagonalRows(A, r, ic, P);
    var rows := seq(P.n, k => if 0 <= k < P.n then RowOf(P, k) else []);
    forall k | 0 <= k < P.n
      ensures DiagonalRow(P, k)
    {
      assert RowBuilt(A, r, ic, rows, k);
    }
    DiagonalPattern(P);
  }

  /** LUDiagonal read on the rows of one LU pattern. */
  lemma LUDiagonalRows(A: Csr, r: seq<int>, ic: seq<int>, P: Pattern)
    requires WellFormed(A) && IsPermutation(r, A.m) && |ic| == A.n
    requires IsLUPattern(A, r, ic, P) && LUDiagonal(A, r, ic)
    ensures forall k :: 0 <= k < P.n ==> k in RowOf(P, k)
  {
    var rows := seq(P.n, k => if 0 <= k < P.n then RowOf(P, k) else []);
    assert |rows| == A.m && RowsBuilt(A, r, ic, rows);
    assert HoldsDiagonals(rows);
    forall k | 0 <= k < P.n
      ensures k in RowOf(P, k)
    {
      assert rows[k] == RowOf(P, k);
    }
  }

  /** A matrix that stores its (permuted) diagonal has it in every row of
      its LU pattern, which keeps the original entries. */
  lemma StructuralDiagonalSuffices(A: Csr, r: seq<int>, ic: seq<int>)
    requires WellFormed(A) && IsPermutation(r, A.m) && |ic| == A.n
    requires StructuralDiagonal(A, r, ic)
    ensures LUDiagonal(A, r, ic)
  {
    forall rows | |rows| == A.m && RowsBuilt(A, r, ic, rows)
      ensures HoldsDiagonals(rows)
    {
      forall k | 0 <= k < A.m
        ensures k in rows[k]
      {
        assert RowBuilt(A, r, ic, rows, k);
        assert k in PermRow(A, r, ic, k);
      }
    }
  }

  /** The LU pattern of a matrix that stores its (permuted) diagonal is a
      factor pattern: the original entries include the diagonal. */
  lemma LUPatternIsFactorPattern(A: Csr, r: seq<int>, ic: seq<int>, P: Pattern)
    requires WellFormed(A) && IsPermutation(r, A.m) && |ic| == A.n
    requires IsLUPattern(A, r, ic, P) && StructuralDiagonal(A, r, ic)
    ensures FactorPattern(P)
  {
    StructuralDiagonalSuffices(A, r, ic);
    LUDiagonalIsFactorPattern(A, r, ic, P);
  }

  /** Likewise for the ILU(levels) pattern, which keeps every original entry. */
  lemma ILUPatternIsFactorPattern(A: Csr, r: seq<int>, ic: seq<int>, levels: int, P: Pattern, levs: seq<seq<int>>)
    requires WellFormed(A) && IsPermutation(r, A.m) && |ic| == A.n
    requires IsILUPattern(A, r, ic, levels, P, levs) && StructuralDiagonal(A, r, ic)
    ensures FactorPattern(P)
  {
    var rows := seq(P.n, k => if 0 <= k < P.n then RowOf(P, k) else []);
    forall k | 0 <= k < P.n
      ensures DiagonalRow(P, k)
    {
      assert ILURowBuilt(A, r, ic, levels, rows, levs, k);
      assert rows[k] == RowOf(P, k);
      assert k in PermRow(A, r, ic, k);
    }
    DiagonalPattern(P);
  }

  /** A 2x2 matrix whose row 1 stores only column 0: its diagonal entry
      (1,1) is fill from row 0, so it lacks a structural diagonal yet its
      LU pattern holds every diagonal. */
  const FillDiagonalA := Csr(2, 2, [1, 3, 4], [1, 2, 1], [1.0, 1.0, 1.0])
  const FillDiagonalId: seq<int> := [0, 1]

  /** Row 1 of the example does not store its diagonal. */
  lemma FillDiagonalNotStructural()
    requires WellFormed(FillDiagonalA) && IsPermutation(FillDiagonalId, 2)
    requires PermRow(FillDiagonalA, FillDiagonalId, FillDiagonalId, 1) == [0]
    ensures !StructuralDiagonal(FillDiagonalA, FillDiagonalId, FillDiagonalId)
  {
    assert 1 !in PermRow(FillDiagonalA, FillDiagonalId, FillDiagonalId, 1);
  }

  /** Yet every LU pattern of the example holds both diagonals. */
  lemma FillSuppliesDiagonal()
    ensures WellFormed(FillDiagonalA) && IsPermutation(FillDiagonalId, 2)
    ensures LUDiagonal(FillDiagonalA, FillDiagonalId, FillDiagonalId)
  {
    FillDiagonalRows();
    forall rows | |rows| == FillDiagonalA.m && RowsBuilt(FillDiagonalA, FillDiagonalId, FillDiagonalId, rows)
      ensures HoldsDiagonals(rows)
    {
      FillDiagonalBuilt(rows);
    }
  }

  /** The example is well formed, and its permuted rows are {0, 1} and {0}. */
  lemma FillDiagonalRows()
    ensures WellFormed(FillDiagonalA) && IsPermutation(FillDiagonalId, 2)
    ensures PermRow(FillDiagonalA, FillDiagonalId, FillDiagonalId, 0) == [0, 1]
    ensures PermRow(FillDiagonalA, FillDiagonalId, FillDiagonalId, 1) == [0]
  {
    var A, id := FillDiagonalA, FillDiagonalId;
    assert RowPointersIn(A.ai, A.m, |A.aj|);
    assert id[0] == 0 && id[1] == 1;
    assert RowColumns(A, 0) == [1, 2];
    assert RowColumns(A, 1) == [1];
  }

  /** Row 0 of its LU pattern holds column 1, so row 1, which references
      row 0, holds it too. */
  lemma FillDiagonalBuilt(rows: seq<seq<int>>)
    requires WellFormed(FillDiagonalA) && IsPermutation(FillDiagonalId, 2)
    requires PermRow(FillDiagonalA, FillDiagonalId, FillDiagonalId, 0) == [0, 1]
    requires PermRow(FillDiagonalA, FillDiagonalId, FillDiagonalId, 1) == [0]
    requires |rows| == FillDiagonalA.m && RowsBuilt(FillDiagonalA, FillDiagonalId, FillDiagonalId, rows)
    ensures HoldsDiagonals(rows)
  {
    FillDiagonalRowZero(rows);
    FillDiagonalRowOne(rows);
    forall k | 0 <= k < |rows|
      ensures k in rows[k]
    {
      if k == 0 {
        assert 0 in rows[0];
      } else {
        assert k == 1 && 1 in rows[1];
      }
    }
  }

  lemma FillDiagonalRowZero(rows: seq<seq<int>>)
    requires WellFormed(FillDiagonalA) && IsPermutation(FillDiagonalId, 2) && |rows| == 2
    requires PermRow(FillDiagonalA, FillDiagonalId, FillDiagonalId, 0) == [0, 1]
    requires RowBuilt(FillDiagonalA, FillDiagonalId, FillDiagonalId, rows, 0)
    ensures 0 in rows[0] && 1 in rows[0]
  {
    assert 0 in PermRow(FillDiagonalA, FillDiagonalId, FillDiagonalId, 0);
    assert 1 in PermRow(FillDiagonalA, FillDiagonalId, FillDiagonalId, 0);
  }

  lemma FillDiagonalRowOne(rows: seq<seq<int>>)
    requires WellFormed(FillDiagonalA) && IsPermutation(FillDiagonalId, 2) && |rows| == 2
    requires PermRow(FillDiagonalA, FillDiagonalId, FillDiagonalId, 1) == [0]
    requires 1 in rows[0] && RowBuilt(FillDiagonalA, FillDiagonalId, FillDiagonalId, rows, 1)
    ensures 1 in rows[1]
  {
    assert 0 in PermRow(FillDiagonalA, FillDiagonalId, FillDiagonalId, 1);
    assert 0 in rows[1];
  }

  // ---------------------------------------------------------------------
  // The entry points.

  /** MatLUFactorSymbolic_AIJ on a matrix object: the symbolic phase, then
      a new factor matrix holding the pattern, the permutations, a value
      array of nz entries, a work vector and the FACTOR_LU flag. */
  method MatLUFactorSymbolic(mat: Mat, isrow: Option<seq<int>>, iscol: Option<seq<int>>)
      returns (res: Result<Mat>)
    requires WellFormed(mat.Data()) && NoDuplicateColumns(mat.Data())
    requires mat.m == mat.n && isrow.Some? && iscol.Some? ==>
               IsPermutation(isrow.value, mat.m) && IsPermutation(iscol.value, mat.m)
    ensures mat.m != mat.n ==> res == Err(NotSquare)
    ensures mat.m == mat.n && isrow.None? ==> res == Err(MissingRowPermutation)
    ensures mat.m == mat.n && isrow.Some? && iscol.None? ==> res == Err(MissingColumnPermutation)
    ensures mat.m == mat.n && isrow.Some? && iscol.Some? ==>
              && res.Ok? && fresh(res.value) && fresh(res.value.a) && fresh(res.value.solveWork)
              && IsLUPattern(mat.Data(), isrow.value, Inverse(iscol.value), res.value.Pat())
              && res.value.row == isrow.value && res.value.col == iscol.value
              && res.value.m == res.value.n == mat.n && res.value.factor == FactorLU
              && res.value.a.Length == |res.value.aj| && res.value.solveWork.Length == mat.n
              && res.value.solveWork != res.value.a
  {
    var A := Csr(mat.m, mat.n, mat.ai, mat.aj, mat.a[..]);
    var sym := LUFactorSymbolic(A, isrow, iscol);
    if sym.Err? {
      return Err(sym.error);
    }
    var fact := new Mat.Factor(sym.value, isrow.value, iscol.value);
    res := Ok(fact);
  }

  /** MatILUFactorSymbolic_AIJ on a matrix object, assembling the factor
      matrix as MatLUFactorSymbolic does. */
  method MatILUFactorSymbolic(mat: Mat, isrow: Option<seq<int>>, iscol: Option<seq<int>>, levels: int)
      returns (res: Result<Mat>, ghost levs: seq<seq<int>>)
    requires WellFormed(mat.Data()) && NoDuplicateColumns(mat.Data())
    requires mat.m == mat.n && isrow.Some? && iscol.Some? ==>
               IsPermutation(isrow.value, mat.m) && IsPermutation(iscol.value, mat.m)
    ensures mat.m != mat.n ==> res == Err(NotSquare)
    ensures mat.m == mat.n && isrow.None? ==> res == Err(MissingRowPermutation)
    ensures mat.m == mat.n && isrow.Some? && iscol.None? ==> res == Err(MissingColumnPermutation)
    ensures mat.m == mat.n && isrow.Some? && iscol.Some? ==>
              && res.Ok? && fresh(res.value) && fresh(res.value.a) && fresh(res.value.solveWork)
              && IsILUPattern(mat.Data(), isrow.value, Inverse(iscol.value), levels, res.value.Pat(), levs)
              && res.value.row == isrow.value && res.value.col == iscol.value
              && res.value.m == res.value.n == mat.n && res.value.factor == FactorLU
              && res.value.a.Length == |res.value.aj| && res.value.solveWork.Length == mat.n
              && res.value.solveWork != res.value.a
  {
    var A := Csr(mat.m, mat.n, mat.ai, mat.aj, mat.a[..]);
    var sym;
    sym, levs := ILUFactorSymbolic(A, isrow, iscol, levels);
    if sym.Err? {
      return Err(sym.error), levs;
    }
    var fact := new Mat.Factor(sym.value, isrow.value, iscol.value);
    res := Ok(fact);
  }

  /** MatLUFactor_AIJ: the symbolic and numeric factorizations, after which
      the matrix holds the factor in place of its own arrays. */
  method MatLUFactor(mat: Mat, isrow: Option<seq<int>>, iscol: Option<seq<int>>)
      returns (res: Result<()>)
    requires WellFormed(mat.Data()) && NoDuplicateColumns(mat.Data())
    requires mat.m == mat.n && isrow.Some? && iscol.Some? ==>
               && IsPermutation(isrow.value, mat.m) && IsPermutation(iscol.value, mat.m)
               && LUDiagonal(mat.Data(), isrow.value, Inverse(iscol.value))
    modifies mat
    ensures old(mat.m) != old(mat.n) ==> res == Err(NotSquare)
    ensures old(mat.m) == old(mat.n) && isrow.None? ==> res == Err(MissingRowPermutation)
    ensures old(mat.m) == old(mat.n) && isrow.Some? && iscol.None? ==> res == Err(MissingColumnPermutation)
    ensures res.Err? ==> unchanged(mat)
    ensures old(mat.m) == old(mat.n) && isrow.Some? && iscol.Some? ==>
              && res.Ok? && mat.factor == FactorLU && Solvable(mat)
              && mat.row == isrow.value && mat.col == iscol.value
              && IsLUPattern(old(mat.Data()), isrow.value, Inverse(iscol.value), mat.Pat())
              && mat.a[..] == FactorValues(old(mat.Data()), isrow.value, Inverse(iscol.value), mat.Pat(), mat.n)
  {
    ghost var A0 := mat.Data();
    var sym := MatLUFactorSymbolic(mat, isrow, iscol);
    if sym.Err? {
      return Err(sym.error);
    }
    var fact := sym.value;
    ghost var r, ic := isrow.value, Inverse(iscol.value);
    InverseIsPermutation(iscol.value);
    LUDiagonalIsFactorPattern(A0, r, ic, fact.Pat());
    LUFactorNumeric(mat, fact);
    assert mat.Data() == A0;
    assert Solvable(fact);
    assert IsLUPattern(A0, r, ic, fact.Pat());
    assert fact.a[..] == FactorValues(A0, r, ic, fact.Pat(), fact.n);
    TakeOver(mat, fact);
    assert mat.Pat() == fact.Pat();
    res := Ok(());
  }

  /** The matrix takes over every field of the factor. */
  method TakeOver(mat: Mat, fact: Mat)
    modifies mat
    ensures mat.m == fact.m && mat.n == fact.n && mat.ai == fact.ai && mat.aj == fact.aj
    ensures mat.a == fact.a && mat.diag == fact.diag && mat.row == fact.row && mat.col == fact.col
    ensures mat.solveWork == fact.solveWork && mat.factor == fact.factor
    ensures mat != fact ==> unchanged(fact)
  {
    mat.m, mat.n, mat.ai, mat.aj, mat.a := fact.m, fact.n, fact.ai, fact.aj, fact.a;
    mat.diag, mat.row, mat.col := fact.diag, fact.row, fact.col;
    mat.solveWork, mat.factor := fact.solveWork, fact.factor;
  }
}
