/** A 3x3 example of the transposed solves' output placement.

    A is the permutation matrix with A[0][2] = A[1][0] = A[2][1] = 1. With
    row permutation r = [1, 2, 0] and the identity column permutation, the
    numeric factorization of A is the identity factor. For b = [1, 2, 3]
    the transposed sweeps give z = [1, 2, 3]; placing z through r gives
    x = [3, 1, 2], which solves A^T x = b, while placing it through the
    inverse of r, as MatSolveTrans_AIJ and MatSolveTransAdd_AIJ do, gives
    x = [2, 3, 1], for which A^T x = [3, 1, 2]. */
module TransFinding {
  import opened Sparse
  import opened Numeric
  import opened SolveSpec
  import opened NumericTheory

  /** A^T x over the stored entries of the first k rows of A. */
  ghost function TransposeTimes(A: Csr, x: seq<real>, k: int): (y: seq<real>)
    requires WellFormed(A) && A.n >= 0 && |x| == A.m && 0 <= k <= A.m
    ensures |y| == A.n
    decreases k
  {
    if k == 0 then Zeros(A.n)
    else AddRow(A, x, k - 1, TransposeTimes(A, x, k - 1), A.ai[k] - A.ai[k - 1])
  }

  /** y plus x[i] times the first t stored entries of row i of A, each at
      its column. */
  ghost function AddRow(A: Csr, x: seq<real>, i: int, y: seq<real>, t: int): (v: seq<real>)
    requires WellFormed(A) && |x| == A.m && 0 <= i < A.m && |y| == A.n
    requires 0 <= t <= A.ai[i + 1] - A.ai[i]
    ensures |v| == A.n
    decreases t
  {
    if t == 0 then y
    else
      var p := A.ai[i] - 1 + t - 1;
      var v := AddRow(A, x, i, y, t - 1);
      v[A.aj[p] - 1 := v[A.aj[p] - 1] + A.a[p] * x[i]]
  }

  const ExampleA := Csr(3, 3, Ramp(4), seq(3, p => if p == 0 then 3 else p), Ones(3))
  const ExampleP := Pattern(3, Ramp(4), Ramp(3), Ramp(3))
  const ExampleRow := seq(3, i => if i == 2 then 0 else i + 1)
  const ExampleCol := seq(3, i => i)
  const ExampleB: seq<real> := [1.0, 2.0, 3.0]

  /** 1, 2, ..., n. */
  function Ramp(n: nat): seq<int>
  {
    seq(n, j => j + 1)
  }

  function Ones(n: nat): seq<real>
  {
    seq(n, _ => 1.0)
  }

  lemma ExampleWellFormed()
    ensures WellFormed(ExampleA) && FactorPattern(ExampleP)
  {
  }

  lemma ExamplePermutations()
    ensures IsPermutation(ExampleRow, 3) && IsPermutation(ExampleCol, 3)
    ensures Inverse(ExampleRow) == [2, 0, 1] && Inverse(ExampleCol) == ExampleCol
  {
    assert ExampleRow[2] == 0 && ExampleRow[0] == 1 && ExampleRow[1] == 2;
    assert ExampleCol[0] == 0 && ExampleCol[1] == 1 && ExampleCol[2] == 2;
    var q := Inverse(ExampleRow);
    assert ExampleRow[q[0]] == 0 && ExampleRow[q[1]] == 1 && ExampleRow[q[2]] == 2;
    var ic := Inverse(ExampleCol);
    assert ExampleCol[ic[0]] == 0 && ExampleCol[ic[1]] == 1 && ExampleCol[ic[2]] == 2;
  }

  lemma ExampleReady()
    ensures Ready(ExampleA, ExampleRow, ExampleCol, ExampleP)
  {
    ExampleWellFormed();
    ExamplePermutations();
  }

  /** A factor row holding only its pivot, over a permuted row that is the
      unit row at that pivot, stores the single value 1. */
  lemma UnitRowValues(A: Csr, r: seq<int>, ic: seq<int>, P: Pattern, V: seq<real>, i: int)
    requires Ready(A, r, ic, P) && 0 <= i < P.n && P.ai[i] - 1 <= |V|
    requires P.ai[i + 1] - P.ai[i] == 1 && LowerCount(P, i) == 0
    requires PermutedRow(A, r, ic, P, i) == Zeros(P.n)[i := 1.0]
    ensures RowValues(A, r, ic, P, V, i) == [1.0]
  {
    var w := Elim(A, r, ic, P, V, i, 0);
    assert ColAt(P, i, 0) == i;
    var f := Finished(P, w, i);
    assert f[0] == w[i := Recip(w[i])][i];
  }

  /** Row i of the permuted example is the unit row at i. */
  lemma ExamplePermutedRow(i: int)
    requires 0 <= i < 3
    requires Ready(ExampleA, ExampleRow, ExampleCol, ExampleP)
    ensures PermutedRow(ExampleA, ExampleRow, ExampleCol, ExampleP, i) == Zeros(3)[i := 1.0]
  {
    var A, r, ic, P := ExampleA, ExampleRow, ExampleCol, ExampleP;
    assert A.ai[r[i] + 1] - A.ai[r[i]] == 1;
    var p := A.ai[r[i]] - 1;
    assert Loaded(A, r, ic, P, i, 1) == Zeros(3)[ic[A.aj[p] - 1] := A.a[p]];
    assert ic[A.aj[p] - 1] == i && A.a[p] == 1.0;
  }

  /** The factor of a matrix whose permuted rows are the unit rows, on the
      diagonal pattern, stores all ones. */
  lemma {:induction false} UnitFactor(A: Csr, r: seq<int>, ic: seq<int>, P: Pattern, k: int)
    requires Ready(A, r, ic, P) && 0 <= k <= P.n
    requires forall i :: 0 <= i < P.n ==> P.ai[i + 1] - P.ai[i] == 1 && LowerCount(P, i) == 0
    requires forall i :: 0 <= i < P.n ==> PermutedRow(A, r, ic, P, i) == Zeros(P.n)[i := 1.0]
    ensures FactorValues(A, r, ic, P, k) == Ones(k)
  {
    if k > 0 {
      UnitFactor(A, r, ic, P, k - 1);
      UnitRowValues(A, r, ic, P, Ones(k - 1), k - 1);
      assert Ones(k) == Ones(k - 1) + [1.0];
    }
  }

  /** The example's factor stores 1 at each pivot. */
  lemma ExampleFactor()
    ensures Ready(ExampleA, ExampleRow, ExampleCol, ExampleP)
    ensures FactorValues(ExampleA, ExampleRow, ExampleCol, ExampleP, 3) == Ones(3)
  {
    ExampleReady();
    var P := ExampleP;
    forall i | 0 <= i < 3
      ensures P.ai[i + 1] - P.ai[i] == 1 && LowerCount(P, i) == 0
      ensures PermutedRow(ExampleA, ExampleRow, ExampleCol, P, i) == Zeros(3)[i := 1.0]
    {
      ExamplePermutedRow(i);
    }
    UnitFactor(ExampleA, ExampleRow, ExampleCol, P, 3);
  }

  /** On a pattern with no entries off the diagonal and unit stored
      reciprocals, the U^T sweep changes nothing. */
  lemma {:induction false} UnitTransForward(P: Pattern, V: seq<real>, c: seq<real>, k: int)
    requires Stored(P, V) && |c| == P.n && 0 <= k <= P.n
    requires forall i :: 0 <= i < P.n ==> UpperCount(P, i) == 0 && V[P.diag[i] - 1] == 1.0
    ensures TransForward(P, V, c, k) == c
    decreases k
  {
    if k > 0 {
      UnitTransForward(P, V, c, k - 1);
      assert Scale(c[k - 1], V[P.diag[k - 1] - 1]) == c[k - 1];
    }
  }

  /** On a pattern with no entries left of the diagonal, the L^T sweep
      changes nothing. */
  lemma {:induction false} UnitTransBackward(P: Pattern, V: seq<real>, z: seq<real>, k: int)
    requires Stored(P, V) && |z| == P.n && 0 <= k <= P.n
    requires forall i :: 0 <= i < P.n ==> LowerCount(P, i) == 0
    ensures TransBackward(P, V, z, k) == z
    decreases P.n - k
  {
    if k < P.n {
      UnitTransBackward(P, V, z, k + 1);
    }
  }

  /** On a diagonal factor with unit stored reciprocals the transposed
      sweeps return b gathered by the column permutation. */
  lemma UnitTransValues(P: Pattern, V: seq<real>, c: seq<int>, b: seq<real>)
    requires Stored(P, V) && IndexMap(c, P.n) && |b| == P.n
    requires forall i :: 0 <= i < P.n ==> UpperCount(P, i) == 0 && LowerCount(P, i) == 0
    requires forall i :: 0 <= i < P.n ==> V[P.diag[i] - 1] == 1.0
    ensures TransValues(P, V, c, b) == Gather(b, c)
  {
    UnitTransForward(P, V, Gather(b, c), P.n);
    UnitTransBackward(P, V, Gather(b, c), 0);
  }

  /** The example's pattern is diagonal, and Ones(3) stores unit
      reciprocals on it. */
  lemma ExampleDiagonal()
    ensures Stored(ExampleP, Ones(3))
    ensures forall i :: 0 <= i < 3 ==> UpperCount(ExampleP, i) == 0 && LowerCount(ExampleP, i) == 0
    ensures forall i :: 0 <= i < 3 ==> Ones(3)[ExampleP.diag[i] - 1] == 1.0
  {
    ExampleWellFormed();
    var P := ExampleP;
    forall i | 0 <= i < 3
      ensures UpperCount(P, i) == 0 && LowerCount(P, i) == 0
    {
      OnlyPivot(P, i);
    }
  }

  /** A row whose one entry is its pivot has no entries left or right of it. */
  lemma OnlyPivot(P: Pattern, i: int)
    requires FactorPattern(P) && 0 <= i < P.n
    requires P.ai[i] == i + 1 && P.ai[i + 1] == i + 2 && P.diag[i] == i + 1
    ensures UpperCount(P, i) == 0 && LowerCount(P, i) == 0
  {
  }

  /** The identity column permutation gathers b unchanged. */
  lemma ExampleGather()
    ensures IndexMap(ExampleCol, 3)
    ensures Gather(ExampleB, ExampleCol) == ExampleB
  {
    var g := Gather(ExampleB, ExampleCol);
    assert g[0] == 1.0 && g[1] == 2.0 && g[2] == 3.0;
  }

  /** The transposed sweeps over the identity factor on the example's
      pattern return b itself. */
  lemma ExampleUnitTransValues()
    ensures Stored(ExampleP, Ones(3)) && IndexMap(ExampleCol, 3)
    ensures TransValues(ExampleP, Ones(3), ExampleCol, ExampleB) == ExampleB
  {
    ExampleDiagonal();
    ExampleGather();
    UnitTransValues(ExampleP, Ones(3), ExampleCol, ExampleB);
  }

  /** The transposed sweeps over the example's factor return b itself. */
  lemma ExampleTransValues()
    ensures Ready(ExampleA, ExampleRow, ExampleCol, ExampleP)
    ensures Stored(ExampleP, FactorValues(ExampleA, ExampleRow, ExampleCol, ExampleP, 3))
    ensures TransValues(ExampleP, FactorValues(ExampleA, ExampleRow, ExampleCol, ExampleP, 3), ExampleCol, ExampleB) == ExampleB
  {
    ExampleFactor();
    ExampleUnitTransValues();
  }

  /** A^T x for a 3x3 A with one entry 1 per row, at columns 2, 0, 1. */
  lemma RotationTransposeTimes(A: Csr, x: seq<real>)
    requires A.m == 3 && A.n == 3 && A.ai == [1, 2, 3, 4] && A.aj == [3, 1, 2] && A.a == [1.0, 1.0, 1.0]
    requires |x| == 3
    ensures WellFormed(A)
    ensures TransposeTimes(A, x, 3) == [x[1], x[2], x[0]]
  {
    assert WellFormed(A);
    var y1 := TransposeTimes(A, x, 1);
    UnitRowAdds(A, x, 0, Zeros(3));
    var y2 := TransposeTimes(A, x, 2);
    UnitRowAdds(A, x, 1, y1);
    UnitRowAdds(A, x, 2, y2);
  }

  /** A row holding the single entry 1 adds x[i] at its column. */
  lemma UnitRowAdds(A: Csr, x: seq<real>, i: int, y: seq<real>)
    requires WellFormed(A) && |x| == A.m && 0 <= i < A.m && |y| == A.n
    requires A.ai[i + 1] - A.ai[i] == 1 && A.a[A.ai[i] - 1] == 1.0
    ensures var c := A.aj[A.ai[i] - 1] - 1;
      0 <= c < A.n && AddRow(A, x, i, y, 1) == y[c := y[c] + x[i]]
  {
  }

  /** The example matrix written out. */
  lemma ExampleEntries()
    ensures ExampleA == Csr(3, 3, [1, 2, 3, 4], [3, 1, 2], [1.0, 1.0, 1.0])
    ensures ExampleRow == [1, 2, 0]
  {
    assert ExampleA.ai == [1, 2, 3, 4];
    assert ExampleA.aj == [3, 1, 2];
    assert ExampleA.a == [1.0, 1.0, 1.0];
    assert ExampleRow == [1, 2, 0];
  }

  lemma ExampleTransposeTimes(x: seq<real>)
    requires |x| == 3
    ensures WellFormed(ExampleA)
    ensures TransposeTimes(ExampleA, x, 3) == [x[1], x[2], x[0]]
  {
    ExampleEntries();
    RotationTransposeTimes(ExampleA, x);
  }

  /** x[p[i]] = z[i] through p = [1, 2, 0]. */
  lemma PlacedByRow(x: seq<real>, p: seq<int>, z: seq<real>)
    requires |x| == 3 && |z| == 3 && p == [1, 2, 0]
    requires forall i :: 0 <= i < 3 ==> x[p[i]] == z[i]
    ensures x == [z[2], z[0], z[1]]
  {
    assert x[p[0]] == z[0] && x[p[1]] == z[1] && x[p[2]] == z[2];
  }

  /** x[q[i]] = z[i] through q = [2, 0, 1], the inverse of [1, 2, 0]. */
  lemma PlacedByInverse(x: seq<real>, q: seq<int>, z: seq<real>)
    requires |x| == 3 && |z| == 3 && q == [2, 0, 1]
    requires forall i :: 0 <= i < 3 ==> x[q[i]] == z[i]
    ensures x == [z[1], z[2], z[0]]
  {
    assert x[q[0]] == z[0] && x[q[1]] == z[1] && x[q[2]] == z[2];
  }

  /** The placement MatSolveTrans_AIJ makes, x[Inverse(r)[i]] = z[i], does
      not solve A^T x = b on the example. */
  lemma TransPlacementCounterexample(x: seq<real>)
    requires |x| == 3
    requires Ready(ExampleA, ExampleRow, ExampleCol, ExampleP)
    requires Stored(ExampleP, FactorValues(ExampleA, ExampleRow, ExampleCol, ExampleP, 3))
    requires IsPermutation(ExampleRow, 3)
    requires forall i :: 0 <= i < 3 ==>
      x[Inverse(ExampleRow)[i]] == TransValues(ExampleP, FactorValues(ExampleA, ExampleRow, ExampleCol, ExampleP, 3), ExampleCol, ExampleB)[i]
    ensures x == [2.0, 3.0, 1.0]
    ensures WellFormed(ExampleA) && TransposeTimes(ExampleA, x, 3) == [3.0, 1.0, 2.0]
    ensures TransposeTimes(ExampleA, x, 3) != ExampleB
  {
    ExampleTransValues();
    ExamplePermutations();
    var z := TransValues(ExampleP, FactorValues(ExampleA, ExampleRow, ExampleCol, ExampleP, 3), ExampleCol, ExampleB);
    assert z == [1.0, 2.0, 3.0];
    PlacedByInverse(x, Inverse(ExampleRow), z);
    assert x == [2.0, 3.0, 1.0];
    ExampleTransposeTimes(x);
  }

  /** x[r[i]] = b[i] on the example solves A^T x = b. */
  lemma PlacedByRowSolves(x: seq<real>)
    requires |x| == 3
    requires forall i :: 0 <= i < 3 ==> x[ExampleRow[i]] == ExampleB[i]
    ensures x == [3.0, 1.0, 2.0]
    ensures WellFormed(ExampleA) && TransposeTimes(ExampleA, x, 3) == ExampleB
  {
    ExampleEntries();
    PlacedByRow(x, ExampleRow, ExampleB);
    ExampleTransposeTimes(x);
  }

  /** Placing through r itself, x[r[i]] = z[i], solves A^T x = b. */
  lemma TransPlacementIntended(x: seq<real>)
    requires |x| == 3
    requires Ready(ExampleA, ExampleRow, ExampleCol, ExampleP)
    requires Stored(ExampleP, FactorValues(ExampleA, ExampleRow, ExampleCol, ExampleP, 3))
    requires forall i :: 0 <= i < 3 ==>
      x[ExampleRow[i]] == TransValues(ExampleP, FactorValues(ExampleA, ExampleRow, ExampleCol, ExampleP, 3), ExampleCol, ExampleB)[i]
    ensures x == [3.0, 1.0, 2.0]
    ensures WellFormed(ExampleA) && TransposeTimes(ExampleA, x, 3) == ExampleB
  {
    ExampleTransValues();
    PlacedByRowSolves(x);
  }

  // ---------------------------------------------------------------------
  // The corrected placement, for every input.

  /** The sum of the entries of s. */
  ghost function Sum(s: seq<real>): real
  {
    if s == [] then 0.0 else Sum(s[..|s| - 1]) + s[|s| - 1]
  }

  /** Taking one entry out of a sum. */
  lemma {:induction false} SumRemove(s: seq<real>, k: int)
    requires 0 <= k < |s|
    ensures Sum(s) == Sum(s[..k] + s[k + 1..]) + s[k]
    decreases |s|
  {
    var last := |s| - 1;
    var t := s[..k] + s[k + 1..];
    if k < last {
      SumRemove(s[..last], k);
      assert t[..|t| - 1] == s[..last][..k] + s[..last][k + 1..];
      assert t[|t| - 1] == s[last];
    } else {
      assert t == s[..last];
    }
  }

  /** A permutation of 0..n-1 with its entry at position k (the one
      holding n-1) taken out is a permutation of 0..n-2. */
  lemma PermutationRemove(r: seq<int>, k: int)
    requires |r| > 0 && IsPermutation(r, |r|) && 0 <= k < |r| && r[k] == |r| - 1
    ensures IsPermutation(r[..k] + r[k + 1..], |r| - 1)
  {
    var n := |r|;
    var r' := r[..k] + r[k + 1..];
    assert forall i :: 0 <= i < n - 1 ==> r'[i] == (if i < k then r[i] else r[i + 1]);
    forall m | 0 <= m < n - 1
      ensures m in r'
    {
      assert m in r;
      var j :| 0 <= j < n && r[j] == m;
      if j < k {
        assert r'[j] == m;
      } else {
        assert r'[j - 1] == m;
      }
    }
  }

  /** w read v through r; with position k (where r holds |v|-1) taken out
      of both w and r, w still reads the rest of v through the rest of r. */
  lemma RemovedReads(v: seq<real>, w: seq<real>, r: seq<int>, k: int, v': seq<real>, w': seq<real>, r': seq<int>)
    requires |v| > 0 && IsPermutation(r, |v|) && |w| == |v| && 0 <= k < |v| && r[k] == |v| - 1
    requires forall i :: 0 <= i < |w| ==> w[i] == v[r[i]]
    requires r' == r[..k] + r[k + 1..] && w' == w[..k] + w[k + 1..] && v' == v[..|v| - 1]
    ensures IsPermutation(r', |v| - 1) && |w'| == |v'|
    ensures forall i :: 0 <= i < |w'| ==> w'[i] == v'[r'[i]]
  {
    var n := |v|;
    PermutationRemove(r, k);
    forall i | 0 <= i < n - 1
      ensures w'[i] == v'[r'[i]]
    {
      if i < k {
        assert w'[i] == w[i] && r'[i] == r[i];
      } else {
        assert w'[i] == w[i + 1] && r'[i] == r[i + 1];
      }
    }
  }

  /** Summing a sequence read through a permutation gives the same sum. */
  lemma {:induction false} SumReindex(v: seq<real>, w: seq<real>, r: seq<int>)
    requires IsPermutation(r, |v|) && |w| == |v|
    requires forall i :: 0 <= i < |w| ==> w[i] == v[r[i]]
    ensures Sum(w) == Sum(v)
    decreases |v|
  {
    var n := |v|;
    if n > 0 {
      assert n - 1 in r;
      var k :| 0 <= k < n && r[k] == n - 1;
      var r', w', v' := r[..k] + r[k + 1..], w[..k] + w[k + 1..], v[..n - 1];
      PermutationRemove(r, k);
      RemovedReads(v, w, r, k, v', w', r');
      SumRemove(w, k);
      SumReindex(v', w', r');
    }
  }

  /** x[i] times the entries among the first t stored in row i of A that
      lie in column col. */
  ghost function RowHit(A: Csr, x: seq<real>, i: int, col: int, t: int): real
    requires WellFormed(A) && |x| == A.m && 0 <= i < A.m
    requires 0 <= t <= A.ai[i + 1] - A.ai[i]
    decreases t
  {
    if t == 0 then 0.0
    else
      var p := A.ai[i] - 1 + t - 1;
      RowHit(A, x, i, col, t - 1) + (if A.aj[p] - 1 == col then Times(A.a[p], x[i]) else 0.0)
  }

  /** x[i] times the entries of row i of A that lie in column col. */
  ghost function RowTotal(A: Csr, x: seq<real>, i: int, col: int): real
    requires WellFormed(A) && |x| == A.m && 0 <= i < A.m
  {
    CsrPointersLe(A, i, i + 1);
    RowHit(A, x, i, col, A.ai[i + 1] - A.ai[i])
  }

  /** Adding row i into y adds its hits at every column. */
  lemma {:induction false} AddRowAt(A: Csr, x: seq<real>, i: int, y: seq<real>, t: int, col: int)
    requires WellFormed(A) && |x| == A.m && 0 <= i < A.m && |y| == A.n
    requires 0 <= t <= A.ai[i + 1] - A.ai[i] && 0 <= col < A.n
    ensures AddRow(A, x, i, y, t)[col] == y[col] + RowHit(A, x, i, col, t)
    decreases t
  {
    if t > 0 {
      AddRowAt(A, x, i, y, t - 1, col);
    }
  }

  /** The hits of every row of A at column col. */
  ghost function ColumnHits(A: Csr, x: seq<real>, col: int): (h: seq<real>)
    requires WellFormed(A) && |x| == A.m
    ensures |h| == A.m
    ensures forall j :: 0 <= j < A.m ==> h[j] == RowTotal(A, x, j, col)
  {
    seq(A.m, j => if 0 <= j < A.m then RowTotal(A, x, j, col) else 0.0)
  }

  /** Entry col of A^T x over the first k rows sums their hits at col. */
  lemma {:induction false} TransposeTimesAt(A: Csr, x: seq<real>, k: int, col: int)
    requires WellFormed(A) && A.n >= 0 && |x| == A.m && 0 <= k <= A.m && 0 <= col < A.n
    ensures TransposeTimes(A, x, k)[col] == Sum(ColumnHits(A, x, col)[..k])
    decreases k
  {
    if k > 0 {
      var H := ColumnHits(A, x, col);
      var i := k - 1;
      var len := A.ai[i + 1] - A.ai[i];
      TransposeTimesAt(A, x, i, col);
      assert TransposeTimes(A, x, k) == AddRow(A, x, i, TransposeTimes(A, x, i), len);
      AddRowAt(A, x, i, TransposeTimes(A, x, i), len, col);
      assert H[i] == RowTotal(A, x, i, col) == RowHit(A, x, i, col, len);
      assert H[..k] == H[..i] + [H[i]];
      assert H[..k][..i] == H[..i];
    }
  }

  /** z[i] times the entries among the first t stored in row r[i] of A
      whose column j lands at column k = ic[j] of the permuted matrix. */
  ghost function PermRowHit(A: Csr, r: seq<int>, ic: seq<int>, z: seq<real>, i: int, k: int, t: int): real
    requires WellFormed(A) && IsPermutation(r, A.m) && |ic| == A.n && |z| == A.m && 0 <= i < A.m
    requires 0 <= t <= A.ai[r[i] + 1] - A.ai[r[i]]
    decreases t
  {
    if t == 0 then 0.0
    else
      var p := A.ai[r[i]] - 1 + t - 1;
      PermRowHit(A, r, ic, z, i, k, t - 1) + (if ic[A.aj[p] - 1] == k then Times(A.a[p], z[i]) else 0.0)
  }

  /** z[i] times the entries of row i of the permuted matrix at column k. */
  ghost function PermRowTotal(A: Csr, r: seq<int>, ic: seq<int>, z: seq<real>, i: int, k: int): real
    requires WellFormed(A) && IsPermutation(r, A.m) && |ic| == A.n && |z| == A.m && 0 <= i < A.m
  {
    CsrPointersLe(A, r[i], r[i] + 1);
    PermRowHit(A, r, ic, z, i, k, A.ai[r[i] + 1] - A.ai[r[i]])
  }

  /** Entry k of F^T z, for F the permuted matrix whose row i is row r[i]
      of A with column j of A moved to column ic[j]: F[i][k] = A[r[i]][c[k]]
      when ic is the inverse of c. */
  ghost function PermutedTransposeAt(A: Csr, r: seq<int>, ic: seq<int>, z: seq<real>, k: int): real
    requires WellFormed(A) && IsPermutation(r, A.m) && |ic| == A.n && |z| == A.m
  {
    Sum(PermColumnHits(A, r, ic, z, k))
  }

  /** The hits of every row of the permuted matrix at column k. */
  ghost function PermColumnHits(A: Csr, r: seq<int>, ic: seq<int>, z: seq<real>, k: int): (h: seq<real>)
    requires WellFormed(A) && IsPermutation(r, A.m) && |ic| == A.n && |z| == A.m
    ensures |h| == A.m
    ensures forall i :: 0 <= i < A.m ==> h[i] == PermRowTotal(A, r, ic, z, i, k)
  {
    seq(A.m, i => if 0 <= i < A.m then PermRowTotal(A, r, ic, z, i, k) else 0.0)
  }

  /** With x[r[i]] = z[i], row i of F hits column ic[col] exactly where
      row r[i] of A hits column col. */
  lemma {:induction false} PermHitIsHit(A: Csr, r: seq<int>, ic: seq<int>, z: seq<real>, x: seq<real>,
                                        i: int, col: int, t: int)
    requires WellFormed(A) && IsPermutation(r, A.m) && IsPermutation(ic, A.n) && |z| == A.m && |x| == A.m
    requires 0 <= i < A.m && x[r[i]] == z[i] && 0 <= col < A.n
    requires 0 <= t <= A.ai[r[i] + 1] - A.ai[r[i]]
    ensures PermRowHit(A, r, ic, z, i, ic[col], t) == RowHit(A, x, r[i], col, t)
    decreases t
  {
    if t > 0 {
      PermHitIsHit(A, r, ic, z, x, i, col, t - 1);
      var p := A.ai[r[i]] - 1 + t - 1;
      assert ic[A.aj[p] - 1] == ic[col] <==> A.aj[p] - 1 == col;
    }
  }

  /** The corrected placement solves A^T x = b for every input: if z solves
      F^T z = b∘c for the permuted matrix F[i][k] = A[r[i]][c[k]] (the
      system the transposed sweeps solve when L·U = F), then x with
      x[r[i]] = z[i] satisfies A^T x = b. */
  lemma TransPlacementSolves(A: Csr, r: seq<int>, c: seq<int>, z: seq<real>, b: seq<real>, x: seq<real>)
    requires WellFormed(A) && A.m == A.n && IsPermutation(r, A.n) && IsPermutation(c, A.n)
    requires |z| == A.n && |b| == A.n && |x| == A.n
    requires forall k :: 0 <= k < A.n ==> PermutedTransposeAt(A, r, Inverse(c), z, k) == b[c[k]]
    requires forall i :: 0 <= i < A.n ==> x[r[i]] == z[i]
    ensures TransposeTimes(A, x, A.n) == b
  {
    var n := A.n;
    var ic := Inverse(c);
    InverseIsPermutation(c);
    forall col | 0 <= col < n
      ensures TransposeTimes(A, x, n)[col] == b[col]
    {
      PlacedColumn(A, r, ic, z, x, col);
      assert c[ic[col]] == col;
    }
  }

  /** Entry col of A^T x is entry ic[col] of F^T z. */
  lemma PlacedColumn(A: Csr, r: seq<int>, ic: seq<int>, z: seq<real>, x: seq<real>, col: int)
    requires WellFormed(A) && A.m == A.n && IsPermutation(r, A.n) && IsPermutation(ic, A.n)
    requires |z| == A.n && |x| == A.n && 0 <= col < A.n
    requires forall i :: 0 <= i < A.n ==> x[r[i]] == z[i]
    ensures TransposeTimes(A, x, A.n)[col] == PermutedTransposeAt(A, r, ic, z, ic[col])
  {
    var n := A.n;
    var H := ColumnHits(A, x, col);
    TransposeTimesAt(A, x, n, col);
    assert H[..n] == H;
    var w := PermColumnHits(A, r, ic, z, ic[col]);
    forall i | 0 <= i < n
      ensures w[i] == H[r[i]]
    {
      HitRead(A, r, ic, z, x, col, i, H, w);
    }
    SumReindex(H, w, r);
  }

  /** Row i of the permuted matrix and row r[i] of A hit the matching columns. */
  lemma HitRead(A: Csr, r: seq<int>, ic: seq<int>, z: seq<real>, x: seq<real>, col: int, i: int,
                H: seq<real>, w: seq<real>)
    requires WellFormed(A) && A.m == A.n && IsPermutation(r, A.n) && IsPermutation(ic, A.n)
    requires |z| == A.n && |x| == A.n && 0 <= col < A.n && 0 <= i < A.n && x[r[i]] == z[i]
    requires H == ColumnHits(A, x, col) && w == PermColumnHits(A, r, ic, z, ic[col])
    ensures w[i] == H[r[i]]
  {
    var j := r[i];
    var len := A.ai[j + 1] - A.ai[j];
    assert w[i] == PermRowTotal(A, r, ic, z, i, ic[col]);
    assert H[j] == RowTotal(A, x, j, col);
    PermHitIsHit(A, r, ic, z, x, i, col, len);
  }
}
