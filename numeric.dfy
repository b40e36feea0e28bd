/** The numeric LU factorization MatLUFactorNumeric_AIJ: row by row, the
    permuted row of A is scattered into a dense work row, eliminated against
    the finished rows that its lower part names, and copied into the
    factor's value array with the reciprocal of the pivot on the diagonal.

    The ghost functions below give the value of each row over a work row
    that starts at zero; the method's work row starts with whatever the
    previous rows left in it, and agrees with the ghost row on the columns
    of the factor row, which are the only ones it reads. */
module Numeric {
  import opened Sparse
  import opened Aij

  // ---------------------------------------------------------------------
  // Dense rows.

  function Zeros(n: nat): (z: seq<real>)
    ensures |z| == n && forall c :: 0 <= c < n ==> z[c] == 0.0
  {
    seq(n, _ => 0.0)
  }

  /** w - m*u, entry by entry. */
  function Axpy(w: seq<real>, m: real, u: seq<real>): (v: seq<real>)
    requires |w| == |u|
    ensures |v| == |w|
  {
    seq(|w|, c => if 0 <= c < |w| then w[c] - m * u[c] else 0.0)
  }

  /** The reciprocal the factor stores for a pivot (a zero pivot gives 0). */
  function Recip(x: real): real
  {
    if x == 0.0 then 0.0 else 1.0 / x
  }

  // ---------------------------------------------------------------------
  // The factorization, one row at a time, on values.

  /** What the numeric factorization assumes of its inputs: a square A, a
      factor pattern whose rows hold their diagonal, and row and column
      maps into 0..n-1 (the permutations, in use). */
  ghost predicate Ready(A: Csr, r: seq<int>, ic: seq<int>, P: Pattern)
  {
    && WellFormed(A) && A.m == P.n && A.n == P.n
    && FactorPattern(P)
    && IndexMap(r, P.n) && IndexMap(ic, P.n)
  }

  /** The first t entries of row r[i] of A, each stored at column ic[col],
      over a zero row. */
  ghost function Loaded(A: Csr, r: seq<int>, ic: seq<int>, P: Pattern, i: int, t: int): (w: seq<real>)
    requires Ready(A, r, ic, P) && 0 <= i < P.n
    requires 0 <= t <= A.ai[r[i] + 1] - A.ai[r[i]]
    ensures |w| == P.n
    decreases t
  {
    if t == 0 then Zeros(P.n)
    else
      var p := A.ai[r[i]] - 1 + t - 1;
      Loaded(A, r, ic, P, i, t - 1)[ic[A.aj[p] - 1] := A.a[p]]
  }

  /** Row i of the permuted matrix: row r[i] of A with column x moved to ic[x]. */
  ghost function PermutedRow(A: Csr, r: seq<int>, ic: seq<int>, P: Pattern, i: int): (w: seq<real>)
    requires Ready(A, r, ic, P) && 0 <= i < P.n
    ensures |w| == P.n
  {
    Loaded(A, r, ic, P, i, A.ai[r[i] + 1] - A.ai[r[i]])
  }

  /** The number of stored entries right of the diagonal in row j. */
  ghost function UpperCount(P: Pattern, j: int): int
    requires FactorPattern(P) && 0 <= j < P.n
  {
    P.ai[j + 1] - 1 - P.diag[j]
  }

  /** The first t entries right of the diagonal of factor row j, from the
      values V, as a dense row. */
  ghost function UpperPart(P: Pattern, V: seq<real>, j: int, t: int): (u: seq<real>)
    requires FactorPattern(P) && 0 <= j < P.n && P.ai[j + 1] - 1 <= |V|
    requires 0 <= t <= UpperCount(P, j)
    ensures |u| == P.n
    decreases t
  {
    if t == 0 then Zeros(P.n)
    else
      var q := P.diag[j] + t - 1;
      var u := UpperPart(P, V, j, t - 1);
      u[P.aj[q] - 1 := u[P.aj[q] - 1] + V[q]]
  }

  /** w after m times each of the first t entries right of the diagonal of
      factor row j is subtracted at its column. */
  ghost function SubUpper(P: Pattern, V: seq<real>, w: seq<real>, m: real, j: int, t: int): (v: seq<real>)
    requires FactorPattern(P) && 0 <= j < P.n && P.ai[j + 1] - 1 <= |V| && |w| == P.n
    requires 0 <= t <= UpperCount(P, j)
    ensures |v| == P.n
    decreases t
  {
    if t == 0 then w
    else
      var q := P.diag[j] + t - 1;
      var v := SubUpper(P, V, w, m, j, t - 1);
      v[P.aj[q] - 1 := Less(v[P.aj[q] - 1], m, V[q])]
  }

  /** a - m*x. */
  function Less(a: real, m: real, x: real): real
  {
    a - m * x
  }

  /** One elimination step against the finished row j: when w[j] is not
      zero, the multiplier w[j]/pivot (the factor stores 1/pivot) replaces
      w[j] and the multiplier times row j's upper part is subtracted. */
  ghost function EliminateOne(P: Pattern, V: seq<real>, w: seq<real>, j: int): (v: seq<real>)
    requires FactorPattern(P) && 0 <= j < P.n && P.ai[j + 1] - 1 <= |V| && |w| == P.n
    ensures |v| == P.n
  {
    if w[j] == 0.0 then w
    else
      var m := Multiplier(P, V, w, j);
      SubUpper(P, V, w[j := m], m, j, UpperCount(P, j))
  }

  /** The multiplier of an elimination step: w[j] times the stored 1/pivot. */
  ghost function Multiplier(P: Pattern, V: seq<real>, w: seq<real>, j: int): real
    requires FactorPattern(P) && 0 <= j < P.n && P.ai[j + 1] - 1 <= |V| && |w| == P.n
  {
    w[j] * V[P.diag[j] - 1]
  }

  /** The number of stored entries left of the diagonal in row i. */
  ghost function LowerCount(P: Pattern, i: int): int
    requires FactorPattern(P) && 0 <= i < P.n
  {
    P.diag[i] - P.ai[i]
  }

  /** The column of the s-th stored entry of row i, 0-based. */
  ghost function ColAt(P: Pattern, i: int, s: int): int
    requires FactorPattern(P) && 0 <= i < P.n && 0 <= s < P.ai[i + 1] - P.ai[i]
  {
    P.aj[P.ai[i] - 1 + s] - 1
  }

  /** Row i after eliminating against the rows named by its first s lower
      entries, in stored order; V holds the values of the rows above i. */
  ghost function Elim(A: Csr, r: seq<int>, ic: seq<int>, P: Pattern, V: seq<real>, i: int, s: int): (w: seq<real>)
    requires Ready(A, r, ic, P) && 0 <= i < P.n && P.ai[i] - 1 <= |V|
    requires 0 <= s <= LowerCount(P, i)
    ensures |w| == P.n
    decreases s
  {
    if s == 0 then PermutedRow(A, r, ic, P, i)
    else
      SplitAtDiagonal(P, i);
      var j := ColAt(P, i, s - 1);
      assert 0 <= j < i;
      PatternPointersLe(P, j + 1, i);
      EliminateOne(P, V, Elim(A, r, ic, P, V, i, s - 1), j)
  }

  /** One more elimination step is EliminateOne against the row named by
      the s-th lower entry. */
  lemma ElimStep(A: Csr, r: seq<int>, ic: seq<int>, P: Pattern, V: seq<real>, i: int, s: int)
    requires Ready(A, r, ic, P) && 0 <= i < P.n && P.ai[i] - 1 <= |V| && 0 < s <= LowerCount(P, i)
    ensures ColAt(P, i, s - 1) < i && P.ai[ColAt(P, i, s - 1) + 1] <= P.ai[i]
    ensures Elim(A, r, ic, P, V, i, s) == EliminateOne(P, V, Elim(A, r, ic, P, V, i, s - 1), ColAt(P, i, s - 1))
  {
    SplitAtDiagonal(P, i);
    var j := ColAt(P, i, s - 1);
    assert 0 <= j < i;
    PatternPointersLe(P, j + 1, i);
  }

  /** The values stored for row i from its eliminated work row w: the
      entries at the row's columns, the pivot replaced by its reciprocal. */
  ghost function Finished(P: Pattern, w: seq<real>, i: int): (vs: seq<real>)
    requires FactorPattern(P) && 0 <= i < P.n && |w| == P.n
    ensures |vs| == P.ai[i + 1] - P.ai[i]
  {
    var w2 := w[i := Recip(w[i])];
    seq(P.ai[i + 1] - P.ai[i], t => if 0 <= t < P.ai[i + 1] - P.ai[i] then w2[ColAt(P, i, t)] else 0.0)
  }

  /** The stored values of factor row i, given those of the rows above. */
  ghost function RowValues(A: Csr, r: seq<int>, ic: seq<int>, P: Pattern, V: seq<real>, i: int): (vs: seq<real>)
    requires Ready(A, r, ic, P) && 0 <= i < P.n && P.ai[i] - 1 <= |V|
    ensures |vs| == P.ai[i + 1] - P.ai[i]
  {
    Finished(P, Elim(A, r, ic, P, V, i, LowerCount(P, i)), i)
  }

  /** The stored values of the first k factor rows. */
  ghost function FactorValues(A: Csr, r: seq<int>, ic: seq<int>, P: Pattern, k: int): (V: seq<real>)
    requires Ready(A, r, ic, P) && 0 <= k <= P.n
    ensures |V| == P.ai[k] - 1
  {
    if k == 0 then []
    else
      var V := FactorValues(A, r, ic, P, k - 1);
      V + RowValues(A, r, ic, P, V, k - 1)
  }

  // ---------------------------------------------------------------------
  // The work row.

  /** The work row rt (n+1 entries) holds w at every column of factor row i. */
  ghost predicate AgreeOn(rt: seq<real>, P: Pattern, i: int, w: seq<real>)
    requires FactorPattern(P) && 0 <= i < P.n && |rt| == P.n + 1 && |w| == P.n
  {
    SplitAtDiagonal(P, i);
    forall p :: P.ai[i] - 1 <= p < P.ai[i + 1] - 1 ==> rt[P.aj[p] - 1] == w[P.aj[p] - 1]
  }

  /** One more upper entry subtracts one more term. */
  lemma AxpyStep(w: seq<real>, m: real, u: seq<real>, c: int, x: real, mx: real)
    requires |w| == |u| && 0 <= c < |w| && mx == m * x
    ensures Axpy(w, m, u[c := u[c] + x]) == Axpy(w, m, u)[c := Axpy(w, m, u)[c] - mx]
  {
    var v := Axpy(w, m, u);
    var v' := Axpy(w, m, u[c := u[c] + x]);
    forall k | 0 <= k < |w|
      ensures v'[k] == v[c := v[c] - mx][k]
    {
    }
  }

  /** rt[c] = x, mirrored on the ghost row. */
  method SetColumn(rt: array<real>, P: Pattern, i: int, ghost w: seq<real>, c: int, x: real)
    requires FactorPattern(P) && 0 <= i < P.n && rt.Length == P.n + 1 && |w| == P.n
    requires AgreeOn(rt[..], P, i, w) && 0 <= c < P.n
    modifies rt
    ensures rt[c] == x
    ensures AgreeOn(rt[..], P, i, w[c := x])
  {
    SplitAtDiagonal(P, i);
    rt[c] := x;
    forall p | P.ai[i] - 1 <= p < P.ai[i + 1] - 1
      ensures rt[P.aj[p] - 1] == w[c := x][P.aj[p] - 1]
    {
    }
  }

  /** rt[c] -= d, mirrored on the ghost row. */
  method SubColumn(rt: array<real>, P: Pattern, i: int, ghost w: seq<real>, c: int, d: real)
    requires FactorPattern(P) && 0 <= i < P.n && rt.Length == P.n + 1 && |w| == P.n
    requires AgreeOn(rt[..], P, i, w) && 0 <= c < P.n
    modifies rt
    ensures AgreeOn(rt[..], P, i, w[c := w[c] - d])
  {
    SplitAtDiagonal(P, i);
    rt[c] := rt[c] - d;
    forall p | P.ai[i] - 1 <= p < P.ai[i + 1] - 1
      ensures rt[P.aj[p] - 1] == w[c := w[c] - d][P.aj[p] - 1]
    {
    }
  }

  /** rtmp[ajtmp[j]-1] = 0.0 over the columns of row i. */
  method ClearRow(rtmp: array<real>, P: Pattern, i: int)
    requires FactorPattern(P) && 0 <= i < P.n && rtmp.Length == P.n + 1
    modifies rtmp
    ensures AgreeOn(rtmp[..], P, i, Zeros(P.n))
  {
    SplitAtDiagonal(P, i);
    var lo := P.ai[i] - 1;
    for j := 0 to P.ai[i + 1] - P.ai[i]
      invariant forall p :: lo <= p < lo + j ==> rtmp[P.aj[p] - 1] == 0.0
    {
      rtmp[P.aj[lo + j] - 1] := 0.0;
    }
  }

  /** rtmp[ic[ajtmpold[j]-1]] = v[j] over row r[i] of the unfactored matrix. */
  method ScatterRow(rtmp: array<real>, mat: Mat, r: seq<int>, ic: seq<int>, P: Pattern, i: int)
    requires Ready(mat.Data(), r, ic, P) && 0 <= i < P.n
    requires rtmp.Length == P.n + 1 && rtmp != mat.a
    requires AgreeOn(rtmp[..], P, i, Zeros(P.n))
    modifies rtmp
    ensures AgreeOn(rtmp[..], P, i, PermutedRow(mat.Data(), r, ic, P, i))
  {
    ghost var A := mat.Data();
    assert 0 <= r[i] < A.m;
    CsrPointersLe(A, r[i] + 1, A.m);
    var lo := mat.ai[r[i]] - 1;
    for j := 0 to mat.ai[r[i] + 1] - mat.ai[r[i]]
      invariant AgreeOn(rtmp[..], P, i, Loaded(A, r, ic, P, i, j))
    {
      SetColumn(rtmp, P, i, Loaded(A, r, ic, P, i, j), ic[mat.aj[lo + j] - 1], mat.a[lo + j]);
    }
  }

  /** The elimination step against row `row` when rtmp[row] is not zero:
      the multiplier replaces rtmp[row], then row's upper part is subtracted. */
  method EliminateWith(rtmp: array<real>, fa: array<real>, P: Pattern, ghost V: seq<real>, i: int, row: int, ghost w: seq<real>)
    requires FactorPattern(P) && 0 <= row < i < P.n
    requires rtmp.Length == P.n + 1 && fa.Length == |P.aj| && rtmp != fa
    requires P.ai[row + 1] <= P.ai[i] && V == fa[..P.ai[i] - 1]
    requires |w| == P.n && AgreeOn(rtmp[..], P, i, w) && rtmp[row] == w[row] != 0.0
    modifies rtmp
    ensures AgreeOn(rtmp[..], P, i, EliminateOne(P, V, w, row))
  {
    SplitAtDiagonal(P, row);
    var m := rtmp[row] * fa[P.diag[row] - 1];
    assert m == Multiplier(P, V, w, row);
    SetColumn(rtmp, P, i, w, row, m);
    ghost var w1 := w[row := m];
    var q := P.diag[row];
    while q < P.ai[row + 1] - 1
      invariant P.diag[row] <= q <= P.ai[row + 1] - 1
      invariant AgreeOn(rtmp[..], P, i, SubUpper(P, V, w1, m, row, q - P.diag[row]))
    {
      SubtractUpper(rtmp, fa, P, V, i, row, w1, m, q);
      q := q + 1;
    }
  }

  /** rtmp[aj[q]-1] -= multiplier * a[q], for the upper entry q of row `row`. */
  method SubtractUpper(rtmp: array<real>, fa: array<real>, P: Pattern, ghost V: seq<real>, i: int, row: int,
                       ghost w1: seq<real>, m: real, q: int)
    requires FactorPattern(P) && 0 <= row < i < P.n
    requires rtmp.Length == P.n + 1 && fa.Length == |P.aj| && rtmp != fa
    requires P.ai[row + 1] <= P.ai[i] && V == fa[..P.ai[i] - 1] && |w1| == P.n
    requires P.diag[row] <= q < P.ai[row + 1] - 1
    requires AgreeOn(rtmp[..], P, i, SubUpper(P, V, w1, m, row, q - P.diag[row]))
    modifies rtmp
    ensures AgreeOn(rtmp[..], P, i, SubUpper(P, V, w1, m, row, q + 1 - P.diag[row]))
  {
    ghost var t := q - P.diag[row];
    ghost var v := SubUpper(P, V, w1, m, row, t);
    var c := P.aj[q] - 1;
    assert fa[q] == V[q];
    assert SubUpper(P, V, w1, m, row, q + 1 - P.diag[row]) == v[c := Less(v[c], m, V[q])];
    SubColumn(rtmp, P, i, v, c, m * fa[q]);
  }

  /** The walk `row = *ajtmp++ - 1; while (row < i)` over the lower entries
      of row i, in stored order, eliminating against each named row. */
  method EliminateRow(rtmp: array<real>, fa: array<real>, ghost A: Csr, r: seq<int>, ic: seq<int>, P: Pattern, i: int)
    requires Ready(A, r, ic, P) && 0 <= i < P.n
    requires rtmp.Length == P.n + 1 && fa.Length == |P.aj| && rtmp != fa
    requires AgreeOn(rtmp[..], P, i, PermutedRow(A, r, ic, P, i))
    modifies rtmp
    ensures AgreeOn(rtmp[..], P, i, Elim(A, r, ic, P, fa[..P.ai[i] - 1], i, LowerCount(P, i)))
  {
    SplitAtDiagonal(P, i);
    ghost var V := fa[..P.ai[i] - 1];
    var p := P.ai[i] - 1;
    var row := P.aj[p] - 1;
    ghost var s := 0;
    while row < i
      invariant P.ai[i] - 1 <= p <= P.diag[i] - 1 && row == P.aj[p] - 1 && s == p - (P.ai[i] - 1)
      invariant p < P.diag[i] - 1 ==> row < i
      invariant AgreeOn(rtmp[..], P, i, Elim(A, r, ic, P, V, i, s))
      decreases P.diag[i] - p
    {
      EliminateAt(rtmp, fa, A, r, ic, P, V, i, p, s);
      p, s := p + 1, s + 1;
      row := P.aj[p] - 1;
    }
    assert s == LowerCount(P, i);
  }

  /** One pass of the walk: the lower entry at position p names row `row`,
      which is eliminated against when rtmp[row] is not zero. */
  method EliminateAt(rtmp: array<real>, fa: array<real>, ghost A: Csr, r: seq<int>, ic: seq<int>, P: Pattern,
                     ghost V: seq<real>, i: int, p: int, ghost s: int)
    requires Ready(A, r, ic, P) && 0 <= i < P.n
    requires rtmp.Length == P.n + 1 && fa.Length == |P.aj| && rtmp != fa
    requires V == fa[..P.ai[i] - 1] && P.ai[i] - 1 <= p < P.diag[i] - 1 && s == p - (P.ai[i] - 1)
    requires AgreeOn(rtmp[..], P, i, Elim(A, r, ic, P, V, i, s))
    modifies rtmp
    ensures AgreeOn(rtmp[..], P, i, Elim(A, r, ic, P, V, i, s + 1))
  {
    ghost var w := Elim(A, r, ic, P, V, i, s);
    var row := P.aj[p] - 1;
    ElimStep(A, r, ic, P, V, i, s + 1);
    assert row == ColAt(P, i, s);
    assert rtmp[row] == w[row];
    if rtmp[row] != 0.0 {
      EliminateWith(rtmp, fa, P, V, i, row, w);
    } else {
      assert EliminateOne(P, V, w, row) == w;
    }
  }

  /** rtmp[i] = 1.0/rtmp[i], then the row's columns are copied out into
      the factor's values. */
  method StoreRow(rtmp: array<real>, fa: array<real>, P: Pattern, i: int, ghost w: seq<real>)
    requires FactorPattern(P) && 0 <= i < P.n
    requires rtmp.Length == P.n + 1 && fa.Length == |P.aj| && rtmp != fa
    requires |w| == P.n && AgreeOn(rtmp[..], P, i, w)
    modifies rtmp, fa
    ensures fa[..P.ai[i + 1] - 1] == old(fa[..P.ai[i] - 1]) + Finished(P, w, i)
  {
    SplitAtDiagonal(P, i);
    assert rtmp[P.aj[P.diag[i] - 1] - 1] == w[i];
    SetColumn(rtmp, P, i, w, i, Recip(rtmp[i]));
    ghost var w2 := w[i := Recip(w[i])];
    ghost var F := Finished(P, w, i);
    var lo := P.ai[i] - 1;
    assert AgreeOn(rtmp[..], P, i, w2);
    for j := 0 to P.ai[i + 1] - P.ai[i]
      invariant AgreeOn(rtmp[..], P, i, w2)
      invariant fa[..lo] == old(fa[..lo])
      invariant forall t :: 0 <= t < j ==> fa[lo + t] == F[t]
    {
      assert rtmp[P.aj[lo + j] - 1] == w2[P.aj[lo + j] - 1] == F[j];
      fa[lo + j] := rtmp[P.aj[lo + j] - 1];
    }
    assert fa[..P.ai[i + 1] - 1] == fa[..lo] + F;
  }

  /** MatLUFactorNumeric_AIJ: the factor's values become those of the LU
      factors of the permuted matrix, and the factor is flagged FACTOR_LU. */
  method LUFactorNumeric(mat: Mat, fact: Mat)
    requires mat.a != fact.a
    requires IsPermutation(fact.col, fact.n)
    requires Ready(mat.Data(), fact.row, Inverse(fact.col), fact.Pat())
    requires fact.a.Length == |fact.aj|
    modifies fact.a, fact`factor
    ensures fact.a[..] == FactorValues(mat.Data(), fact.row, Inverse(fact.col), fact.Pat(), fact.n)
    ensures fact.factor == FactorLU
  {
    var P := Pattern(fact.n, fact.ai, fact.aj, fact.diag);
    var ic := InvertPermutation(fact.col);
    FactorRows(mat, fact.a, fact.row, ic, P);
    fact.factor := FactorLU;
  }

  /** The outer loop of the numeric factorization, over the rows in order,
      with its scratch row rtmp of n+1 entries. */
  method FactorRows(mat: Mat, fa: array<real>, r: seq<int>, ic: seq<int>, P: Pattern)
    requires Ready(mat.Data(), r, ic, P)
    requires fa.Length == |P.aj| && fa != mat.a
    modifies fa
    ensures fa[..] == FactorValues(mat.Data(), r, ic, P, P.n)
  {
    ghost var A := mat.Data();
    var rtmp := new real[P.n + 1];
    for i := 0 to P.n
      invariant mat.Data() == A
      invariant fa[..P.ai[i] - 1] == FactorValues(A, r, ic, P, i)
    {
      FactorRow(rtmp, mat, fa, r, ic, P, i);
    }
    assert fa[..] == fa[..P.ai[P.n] - 1];
  }

  /** One pass of the outer loop: row i of the factor is computed from the
      rows above it and stored. */
  method FactorRow(rtmp: array<real>, mat: Mat, fa: array<real>, r: seq<int>, ic: seq<int>, P: Pattern, i: int)
    requires Ready(mat.Data(), r, ic, P) && 0 <= i < P.n
    requires rtmp.Length == P.n + 1 && fa.Length == |P.aj|
    requires rtmp != fa && rtmp != mat.a && fa != mat.a
    requires fa[..P.ai[i] - 1] == FactorValues(mat.Data(), r, ic, P, i)
    modifies rtmp, fa
    ensures fa[..P.ai[i + 1] - 1] == FactorValues(mat.Data(), r, ic, P, i + 1)
  {
    ghost var A := mat.Data();
    ClearRow(rtmp, P, i);
    ScatterRow(rtmp, mat, r, ic, P, i);
    ghost var V := fa[..P.ai[i] - 1];
    EliminateRow(rtmp, fa, A, r, ic, P, i);
    StoreRow(rtmp, fa, P, i, Elim(A, r, ic, P, V, i, LowerCount(P, i)));
    assert fa[..P.ai[i + 1] - 1] == V + RowValues(A, r, ic, P, V, i);
  }
}
