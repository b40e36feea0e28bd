/** Shared vocabulary of the AIJ factorization model: the compressed-row
    input matrix, the symbolic factor pattern, permutations and their
    inverses, error codes, and the helpers that lay rows out end to end
    in a column array. */
module Sparse {

  datatype Option<T> = None | Some(value: T)

  /** The SETERRQ conditions of the factorization and solve routines. */
  datatype Error =
    | NotSquare                 // "Mat must be square"
    | MissingRowPermutation     // "Must have row permutation"
    | MissingColumnPermutation  // "Must have column permutation"
    | NotFactored               // "Cannot solve with factor"

  datatype Result<T> = Ok(value: T) | Err(error: Error)

  /** A sequential AIJ matrix: `m` rows, `n` columns, 1-based row pointers
      `ai` (row k occupies 1-based positions ai[k] .. ai[k+1]-1), 1-based
      column indices `aj` and values `a`. */
  datatype Csr = Csr(m: int, n: int, ai: seq<int>, aj: seq<int>, a: seq<real>)

  /** What the factorization routines rely on without checking: row pointers
      that stay inside `aj`, and column indices in 1..n. */
  ghost predicate WellFormed(A: Csr)
  {
    && A.m >= 0
    && |A.ai| == A.m + 1
    && |A.a| == |A.aj|
    && RowPointersIn(A.ai, A.m, |A.aj|)
    && (forall p :: 0 <= p < |A.aj| ==> 1 <= A.aj[p] <= A.n)
  }

  /** The row pointers of a well-formed matrix never decrease. */
  lemma CsrPointersLe(A: Csr, j: int, k: int)
    requires WellFormed(A) && 0 <= j <= k <= A.m
    ensures A.ai[j] <= A.ai[k]
  {
    PointersMonotoneFrom(A.ai, A.m, |A.aj|, j, k);
  }

  /** 1-based row pointers that never decrease and stay inside an array of
      `len` entries. */
  ghost predicate RowPointersIn(ai: seq<int>, m: int, len: int)
    requires 0 <= m && |ai| == m + 1
  {
    && (forall k :: 0 <= k <= m ==> 1 <= ai[k] <= len + 1)
    && (forall k {:trigger ai[k], ai[k + 1]} :: 0 <= k < m ==> ai[k] <= ai[k + 1])
  }

  /** Row pointers that never decrease from one row to the next never
      decrease over any range of rows. */
  lemma PointersMonotone(ai: seq<int>, m: int, len: int)
    requires 0 <= m && |ai| == m + 1 && RowPointersIn(ai, m, len)
    ensures forall j, k :: 0 <= j <= k <= m ==> ai[j] <= ai[k]
  {
    forall j, k | 0 <= j <= k <= m
      ensures ai[j] <= ai[k]
    {
      PointersMonotoneFrom(ai, m, len, j, k);
    }
  }

  lemma {:induction false} PointersMonotoneFrom(ai: seq<int>, m: int, len: int, j: int, k: int)
    requires 0 <= m && |ai| == m + 1 && RowPointersIn(ai, m, len) && 0 <= j <= k <= m
    ensures ai[j] <= ai[k]
    decreases k - j
  {
    if j < k {
      PointersMonotoneFrom(ai, m, len, j + 1, k);
      assert ai[j] <= ai[j + 1];
    }
  }

  /** The stored 1-based column indices of row k of A. */
  function RowColumns(A: Csr, k: int): seq<int>
    requires WellFormed(A) && 0 <= k < A.m
  {
    A.aj[A.ai[k] - 1 .. A.ai[k + 1] - 1]
  }

  ghost predicate Distinct(s: seq<int>)
  {
    forall p, q :: 0 <= p < q < |s| ==> s[p] != s[q]
  }

  /** No row of A stores the same column twice. */
  ghost predicate NoDuplicateColumns(A: Csr)
    requires WellFormed(A)
  {
    forall k :: 0 <= k < A.m ==> Distinct(RowColumns(A, k))
  }

  ghost predicate Increasing(s: seq<int>)
  {
    forall p, q :: 0 <= p < q < |s| ==> s[p] < s[q]
  }

  /** A sequence without repeats has as many elements as entries. */
  lemma {:induction false} DistinctCard(s: seq<int>)
    requires Distinct(s)
    ensures |set x | x in s| == |s|
  {
    if s != [] {
      var init := s[..|s| - 1];
      DistinctCard(init);
      assert s == init + [s[|s| - 1]];
      assert (set x | x in s) == (set x | x in init) + {s[|s| - 1]};
      assert s[|s| - 1] !in init;
    }
  }

  /** Two sequences without repeats that hold the same columns have the
      same length. */
  lemma SameColumnsSameLength(s: seq<int>, t: seq<int>)
    requires Distinct(s) && Distinct(t)
    requires forall x :: x in s <==> x in t
    ensures |s| == |t|
  {
    DistinctCard(s);
    DistinctCard(t);
    assert (set x | x in s) == (set x | x in t);
  }

  ghost predicate ColumnsIn(s: seq<int>, n: int)
  {
    forall p :: 0 <= p < |s| ==> 0 <= s[p] < n
  }

  /** The first `d` entries of `s` are below `k`, the remaining ones are not. */
  ghost predicate SplitAt(s: seq<int>, k: int, d: int)
  {
    && 0 <= d <= |s|
    && (forall p :: 0 <= p < d ==> s[p] < k)
    && (forall p :: d <= p < |s| ==> s[p] >= k)
  }

  // ---------------------------------------------------------------------
  // Permutations (index sets).

  /** A bijection of 0..n-1. */
  ghost predicate IsPermutation(p: seq<int>, n: int)
  {
    && |p| == n
    && (forall i :: 0 <= i < n ==> 0 <= p[i] < n)
    && (forall i, j :: 0 <= i < j < n ==> p[i] != p[j])
    && (forall k :: 0 <= k < n ==> k in p)
  }

  /** n indices, each in 0..n-1. */
  ghost predicate IndexMap(p: seq<int>, n: int)
  {
    |p| == n && forall i :: 0 <= i < n ==> 0 <= p[i] < n
  }

  /** The inverse of a permutation. */
  ghost function Inverse(p: seq<int>): (q: seq<int>)
    requires IsPermutation(p, |p|)
    ensures |q| == |p|
    ensures forall k :: 0 <= k < |p| ==> 0 <= q[k] < |p| && p[q[k]] == k
  {
    seq(|p|, k => if 0 <= k < |p| then assert k in p; var i :| 0 <= i < |p| && p[i] == k; i else 0)
  }

  /** The inverse undoes the permutation in both directions and is itself a
      permutation. */
  lemma InverseIsPermutation(p: seq<int>)
    requires IsPermutation(p, |p|)
    ensures forall i :: 0 <= i < |p| ==> Inverse(p)[p[i]] == i
    ensures IsPermutation(Inverse(p), |p|)
  {
    var q := Inverse(p);
    var n := |p|;
    forall i | 0 <= i < n
      ensures q[p[i]] == i
    {
      assert p[q[p[i]]] == p[i];
    }
    forall k | 0 <= k < n
      ensures k in q
    {
      assert q[p[k]] == k;
    }
    forall i, j | 0 <= i < j < n
      ensures q[i] != q[j]
    {
      assert p[q[i]] == i && p[q[j]] == j;
    }
  }

  /** ISInvertPermutation: q[p[i]] := i for every i. */
  method InvertPermutation(p: seq<int>) returns (q: seq<int>)
    requires IsPermutation(p, |p|)
    ensures q == Inverse(p)
  {
    var n := |p|;
    var inv := new int[n];
    for i := 0 to n
      invariant forall j :: 0 <= j < i ==> inv[p[j]] == j
    {
      inv[p[i]] := i;
    }
    q := inv[..];
    InverseIsPermutation(p);
    forall k | 0 <= k < n
      ensures q[k] == Inverse(p)[k]
    {
      var i := Inverse(p)[k];
      assert p[i] == k;
    }
  }

  // ---------------------------------------------------------------------
  // Rows laid end to end in a column array.

  /** Every entry of `s` moved by `delta`. */
  function Shift(s: seq<int>, delta: int): (r: seq<int>)
    ensures |r| == |s|
    ensures forall t :: 0 <= t < |s| ==> r[t] == s[t] + delta
  {
    seq(|s|, t => if 0 <= t < |s| then s[t] + delta else 0)
  }

  /** The rows concatenated, each entry moved by `delta` (delta = 1 turns
      0-based columns into the stored 1-based ones). */
  ghost function Flat(rows: seq<seq<int>>, delta: int): seq<int>
  {
    if rows == [] then [] else Flat(rows[..|rows| - 1], delta) + Shift(rows[|rows| - 1], delta)
  }

  /** Where row k starts (0-based) in Flat(rows, _). */
  ghost function Off(rows: seq<seq<int>>, k: int): int
    requires 0 <= k <= |rows|
  {
    |Flat(rows[..k], 0)|
  }

  lemma FlatLength(rows: seq<seq<int>>, d1: int, d2: int)
    ensures |Flat(rows, d1)| == |Flat(rows, d2)|
  {
    if rows != [] {
      FlatLength(rows[..|rows| - 1], d1, d2);
    }
  }

  /** Row pointers are cumulative: row k+1 starts |rows[k]| after row k. */
  lemma {:induction false} OffStep(rows: seq<seq<int>>, k: int)
    requires 0 <= k < |rows|
    ensures Off(rows, k + 1) == Off(rows, k) + |rows[k]|
  {
    assert rows[..k + 1][..k] == rows[..k];
  }

  lemma {:induction false} OffAll(rows: seq<seq<int>>, delta: int)
    ensures Off(rows, |rows|) == |Flat(rows, delta)|
  {
    assert rows[..|rows|] == rows;
    FlatLength(rows, 0, delta);
  }

  /** Off is unchanged by appending a row. */
  lemma OffAppend(rows: seq<seq<int>>, L: seq<int>, k: int)
    requires 0 <= k <= |rows|
    ensures Off(rows + [L], k) == Off(rows, k)
  {
    assert (rows + [L])[..k] == rows[..k];
  }

  lemma {:induction false} OffMono(rows: seq<seq<int>>, j: int, k: int)
    requires 0 <= j <= k <= |rows|
    ensures Off(rows, j) <= Off(rows, k)
  {
    if j < k {
      OffMono(rows, j, k - 1);
      OffStep(rows, k - 1);
    }
  }

  /** Entry t of row k sits at position Off(rows, k) + t of the flat array. */
  lemma {:induction false} FlatAt(rows: seq<seq<int>>, delta: int, k: int, t: int)
    requires 0 <= k < |rows| && 0 <= t < |rows[k]|
    ensures Off(rows, k) + t < |Flat(rows, delta)|
    ensures Flat(rows, delta)[Off(rows, k) + t] == rows[k][t] + delta
  {
    var last := |rows| - 1;
    var init := rows[..last];
    assert Flat(rows, delta) == Flat(init, delta) + Shift(rows[last], delta);
    if k == last {
      assert rows[..k] == init;
      FlatLength(init, 0, delta);
    } else {
      FlatAt(init, delta, k, t);
      assert init[..k] == rows[..k];
    }
  }

  lemma FlatAppend(rows: seq<seq<int>>, L: seq<int>, delta: int)
    ensures Flat(rows + [L], delta) == Flat(rows, delta) + Shift(L, delta)
  {
    assert (rows + [L])[..|rows|] == rows;
  }

  // ---------------------------------------------------------------------
  // The factor's structure.

  /** The symbolic factor of an n x n matrix: 1-based row pointers `ai`
      (n+1 of them), 1-based column indices `aj` (nz = ai[n]-1 of them) and
      1-based diagonal pointers `diag` (one per row). */
  datatype Pattern = Pattern(n: int, ai: seq<int>, aj: seq<int>, diag: seq<int>)

  /** Cumulative 1-based row pointers starting at 1 and covering all of `aj`. */
  ghost predicate Shaped(P: Pattern)
  {
    && P.n >= 0
    && |P.ai| == P.n + 1
    && P.ai[0] == 1
    && RowPointersIn(P.ai, P.n, |P.aj|)
    && P.ai[P.n] - 1 == |P.aj|
    && |P.diag| == P.n
  }

  /** The row pointers of a shaped pattern never decrease. */
  lemma PatternPointersLe(P: Pattern, j: int, k: int)
    requires Shaped(P) && 0 <= j <= k <= P.n
    ensures P.ai[j] <= P.ai[k]
  {
    PointersMonotoneFrom(P.ai, P.n, |P.aj|, j, k);
  }

  /** A pattern the numeric factorization and the solves can work on:
      columns in 1..n, and in every row k the entries before the diagonal
      pointer lie left of column k, the diagonal pointer holds column k, and
      the entries after it lie right of column k. */
  ghost predicate FactorPattern(P: Pattern)
  {
    && Shaped(P)
    && (forall p :: 0 <= p < |P.aj| ==> 1 <= P.aj[p] <= P.n)
    && (forall k {:trigger P.diag[k]} :: 0 <= k < P.n ==> 1 <= P.ai[k] <= P.diag[k] < P.ai[k + 1] <= P.ai[P.n])
    && (forall k :: 0 <= k < P.n ==> P.aj[P.diag[k] - 1] == k + 1)
    && (forall k :: 0 <= k < P.n ==> DiagonalSplit(P, k))
  }

  /** In row k, the entries before the diagonal pointer lie left of column
      k and those after it right of column k. */
  ghost predicate DiagonalSplit(P: Pattern, k: int)
    requires Shaped(P) && 0 <= k < P.n
  {
    && (forall p :: P.ai[k] - 1 <= p < P.diag[k] - 1 && 0 <= p < |P.aj| ==> P.aj[p] - 1 < k)
    && (forall p :: P.diag[k] <= p < P.ai[k + 1] - 1 && 0 <= p < |P.aj| ==> P.aj[p] - 1 > k)
  }

  /** Row k of a factor pattern: its diagonal pointer lies inside the row,
      and the row's entries lie left of column k before it and right of
      column k after it. */
  lemma SplitAtDiagonal(P: Pattern, k: int)
    requires FactorPattern(P) && 0 <= k < P.n
    ensures 1 <= P.ai[k] <= P.diag[k] < P.ai[k + 1] <= P.ai[P.n]
    ensures forall p :: P.ai[k] - 1 <= p < P.diag[k] - 1 ==> P.aj[p] - 1 < k
    ensures forall p :: P.diag[k] <= p < P.ai[k + 1] - 1 ==> P.aj[p] - 1 > k
  {
    assert DiagonalSplit(P, k);
  }

  /** The 0-based columns of row k of the factor. */
  ghost function RowOf(P: Pattern, k: int): seq<int>
    requires Shaped(P) && 0 <= k < P.n
  {
    Shift(P.aj[P.ai[k] - 1 .. P.ai[k + 1] - 1], -1)
  }

  /** Row pointers and columns laid out from `rows` give back those rows. */
  lemma RowOfFlat(P: Pattern, rows: seq<seq<int>>)
    requires Shaped(P) && |rows| == P.n && P.aj == Flat(rows, 1)
    requires forall k :: 0 <= k <= P.n ==> P.ai[k] == 1 + Off(rows, k)
    ensures forall k :: 0 <= k < P.n ==> RowOf(P, k) == rows[k]
  {
    forall k | 0 <= k < P.n
      ensures RowOf(P, k) == rows[k]
    {
      FlatRow(rows, 1, k);
    }
  }

  /** Row k occupies positions Off(rows, k) .. Off(rows, k+1) of the flat array. */
  lemma {:induction false} FlatRow(rows: seq<seq<int>>, delta: int, k: int)
    requires 0 <= k < |rows|
    ensures Off(rows, k) + |rows[k]| == Off(rows, k + 1) <= |Flat(rows, delta)|
    ensures Flat(rows, delta)[Off(rows, k) .. Off(rows, k + 1)] == Shift(rows[k], delta)
  {
    var last := |rows| - 1;
    var init := rows[..last];
    OffStep(rows, k);
    assert Flat(rows, delta) == Flat(init, delta) + Shift(rows[last], delta);
    if k == last {
      assert rows[..k] == init;
      FlatLength(init, 0, delta);
    } else {
      FlatRow(init, delta, k);
      assert init[..k] == rows[..k] && init[..k + 1] == rows[..k + 1];
    }
  }
}
