/** The sequential AIJ matrix object as the factorization routines see it:
    the compressed-row arrays, and for a factor also the diagonal pointers,
    the permutations it was factored with, the solve work vector and the
    factor flag. */
module Aij {
  import opened Sparse

  /** The matrix's factor flag: 0 until, and FACTOR_LU once, a (symbolic or numeric)
      factorization has been stored in it. */
  datatype FactorKind = FactorNone | FactorLU

  class Mat {
    var m: int
    var n: int
    /** 1-based row pointers (m+1 of them). */
    var ai: seq<int>
    /** 1-based column indices. */
    var aj: seq<int>
    /** The values, one per stored entry. */
    var a: array<real>
    /** 1-based positions of the diagonal entries (factors only). */
    var diag: seq<int>
    /** The row and column permutations of the factorization (factors only). */
    var row: seq<int>
    var col: seq<int>
    /** Scratch vector of the triangular solves (factors only). */
    var solveWork: array<real>
    var factor: FactorKind

    /** An unfactored matrix holding A. */
    constructor FromCsr(A: Csr)
      ensures m == A.m && n == A.n && ai == A.ai && aj == A.aj && a[..] == A.a
      ensures factor == FactorNone && fresh(a) && fresh(solveWork)
    {
      m, n, ai, aj := A.m, A.n, A.ai, A.aj;
      a := new real[|A.a|](t requires 0 <= t < |A.a| => A.a[t]);
      diag, row, col := [], [], [];
      solveWork := new real[0];
      factor := FactorNone;
    }

    /** The factor matrix assembled at the end of a symbolic factorization:
        the pattern, an uninitialised value array of nz = ai[n]-1 entries,
        the permutations, a work vector of n entries, and FACTOR_LU. */
    constructor Factor(P: Pattern, isrow: seq<int>, iscol: seq<int>)
      requires Shaped(P)
      ensures m == P.n && n == P.n && ai == P.ai && aj == P.aj && diag == P.diag
      ensures row == isrow && col == iscol && factor == FactorLU
      ensures a.Length == P.ai[P.n] - 1 && solveWork.Length == P.n
      ensures fresh(a) && fresh(solveWork) && a != solveWork
    {
      m, n, ai, aj, diag := P.n, P.n, P.ai, P.aj, P.diag;
      row, col := isrow, iscol;
      a := new real[P.ai[P.n] - 1];
      solveWork := new real[P.n];
      factor := FactorLU;
    }

    /** The matrix's compressed-row contents. */
    ghost function Data(): Csr
      reads this, a
    {
      Csr(m, n, ai, aj, a[..])
    }

    /** The factor pattern it stores. */
    ghost function Pat(): Pattern
      reads this
    {
      Pattern(n, ai, aj, diag)
    }
  }
}
