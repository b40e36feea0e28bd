/** Symbolic LU factorization (MatLUFactorSymbolic_AIJ): predicts the fill
    pattern of the factor of the permuted matrix row by row, merging the
    upper parts of earlier factor rows into a sorted linked list. */
module Symbolic {
  import opened Sparse
  import opened FillList

  /** Row i of the permuted matrix as 0-based factor columns: the columns of
      original row r[i], each mapped through the inverse column permutation. */
  ghost function PermRow(A: Csr, r: seq<int>, ic: seq<int>, i: int): seq<int>
    requires WellFormed(A) && IsPermutation(r, A.m) && |ic| == A.n && 0 <= i < A.m
  {
    var cols := RowColumns(A, r[i]);
    seq(|cols|, t => if 0 <= t < |cols| then ic[cols[t] - 1] else 0)
  }

  /** The permuted row repeats no column when A's rows do not. */
  lemma PermRowDistinct(A: Csr, r: seq<int>, ic: seq<int>, i: int)
    requires WellFormed(A) && NoDuplicateColumns(A) && IsPermutation(r, A.m)
    requires IsPermutation(ic, A.n) && 0 <= i < A.m
    ensures Distinct(PermRow(A, r, ic, i)) && ColumnsIn(PermRow(A, r, ic, i), A.n)
  {
    var cols := RowColumns(A, r[i]);
    var PR := PermRow(A, r, ic, i);
    assert Distinct(cols);
    forall p, q | 0 <= p < q < |PR|
      ensures PR[p] != PR[q]
    {
      var a, b := cols[p] - 1, cols[q] - 1;
      assert cols[p] != cols[q];
      if a < b { assert ic[a] != ic[b]; } else { assert ic[b] != ic[a]; }
    }
  }

  /** What row k of a factor built from `rows` must satisfy: increasing
      columns in 0..n-1, every column of the permuted original row, closure
      under the upper parts of the earlier rows it references, and no entry
      that is neither original nor such fill. */
  ghost predicate RowBuilt(A: Csr, r: seq<int>, ic: seq<int>, rows: seq<seq<int>>, k: int)
    requires WellFormed(A) && IsPermutation(r, A.m) && |ic| == A.n
    requires 0 <= k < |rows| && k < A.m
  {
    && Increasing(rows[k])
    && ColumnsIn(rows[k], A.n)
    && (forall x :: x in PermRow(A, r, ic, k) ==> x in rows[k])
    && (forall j, y :: 0 <= j < k && j in rows[k] && y in rows[j] && j <= y ==> y in rows[k])
    && (forall x :: x in rows[k] ==>
          x in PermRow(A, r, ic, k) || exists j :: 0 <= j < k && j in rows[k] && j < x && x in rows[j])
  }

  ghost predicate RowsBuilt(A: Csr, r: seq<int>, ic: seq<int>, rows: seq<seq<int>>)
    requires WellFormed(A) && IsPermutation(r, A.m) && |ic| == A.n && |rows| <= A.m
  {
    forall k :: 0 <= k < |rows| ==> RowBuilt(A, r, ic, rows, k)
  }

  lemma RowsBuiltAppend(A: Csr, r: seq<int>, ic: seq<int>, rows: seq<seq<int>>, L: seq<int>)
    requires WellFormed(A) && IsPermutation(r, A.m) && |ic| == A.n && |rows| < A.m
    requires RowsBuilt(A, r, ic, rows) && RowBuilt(A, r, ic, rows + [L], |rows|)
    ensures RowsBuilt(A, r, ic, rows + [L])
  {
    forall k | 0 <= k < |rows|
      ensures RowBuilt(A, r, ic, rows + [L], k)
    {
      assert RowBuilt(A, r, ic, rows, k);
      assert forall j :: 0 <= j <= k ==> (rows + [L])[j] == rows[j];
    }
  }

  /** The factor pattern promised for the LU factorization of A under the row
      permutation r and the inverse column permutation ic. */
  ghost predicate IsLUPattern(A: Csr, r: seq<int>, ic: seq<int>, P: Pattern)
    requires WellFormed(A) && IsPermutation(r, A.m) && |ic| == A.n
  {
    && Shaped(P)
    && P.n == A.n == A.m
    && (forall k :: 0 <= k < P.n ==> SplitAt(RowOf(P, k), k, P.diag[k] - P.ai[k]))
    && RowsBuilt(A, r, ic, seq(P.n, k => if 0 <= k < P.n then RowOf(P, k) else []))
  }

  // ---------------------------------------------------------------------
  // The steps of one row.

  /** Loads the permuted original row into the (emptied) list; nnz starts
      at the row's own count. */
  method LoadRow(fill: array<int>, A: Csr, r: seq<int>, ic: seq<int>, i: int)
      returns (nnz: int, ghost L: seq<int>)
    requires WellFormed(A) && NoDuplicateColumns(A) && A.m == A.n
    requires IsPermutation(r, A.n) && IsPermutation(ic, A.n)
    requires fill.Length == A.n + 1 && 0 <= i < A.n
    modifies fill
    ensures IsList(fill[..], A.n, L) && nnz == |L|
    ensures forall x :: x in L <==> x in PermRow(A, r, ic, i)
  {
    var n := A.n;
    var lo := A.ai[r[i]] - 1;
    var nz := A.ai[r[i] + 1] - A.ai[r[i]];
    nnz := nz;
    ghost var PR := PermRow(A, r, ic, i);
    PermRowDistinct(A, r, ic, i);
    fill[n] := n;
    L := [];
    var p := 0;
    while p < nz
      invariant 0 <= p <= nz == |PR|
      invariant IsList(fill[..], n, L) && |L| == p
      invariant forall x :: x in L <==> x in PR[..p]
    {
      var idx := ic[A.aj[lo + p] - 1];
      assert idx == PR[p];
      assert idx !in L by {
        assert forall q :: 0 <= q < p ==> PR[q] != PR[p];
      }
      var m, fm, pos := Scan(fill, n, L, idx);
      assert fm != idx by {
        if pos < |L| { assert L[pos] in L; }
      }
      ghost var L0 := L;
      L := Splice(fill, n, L, m, fm, idx, pos);
      InsertMembers(L0, idx, pos);
      assert PR[..p + 1] == PR[..p] + [idx];
      p := p + 1;
    }
    assert PR[..nz] == PR;
  }

  lemma InsertMembers(L: seq<int>, idx: int, pos: nat)
    requires pos <= |L|
    ensures forall x :: x in L[..pos] + [idx] + L[pos..] <==> x in L || x == idx
  {
    assert L == L[..pos] + L[pos..];
  }

  /** Merges the upper part U of an earlier factor row (the list entry at
      position t) into the list: every column not yet present is spliced in
      and counted in nnz; columns already present are left alone. */
  method MergeUpper(fill: array<int>, n: int, ghost L0: seq<int>, ghost t: nat, nnz0: int,
                    ajnew: array<int>, lo: int, hi: int, ghost U: seq<int>)
      returns (nnz: int, ghost L: seq<int>)
    requires IsList(fill[..], n, L0) && t < |L0| && nnz0 == |L0| && ajnew != fill
    requires 0 <= lo <= hi <= ajnew.Length && ajnew[lo..hi] == Shift(U, 1)
    requires forall s :: 0 <= s < |U| ==> L0[t] <= U[s] < n
    modifies fill
    ensures IsList(fill[..], n, L) && nnz == |L|
    ensures t < |L| && L[..t + 1] == L0[..t + 1]
    ensures forall x :: x in L <==> x in L0 || x in U
  {
    L := L0;
    nnz := nnz0;
    var q := lo;
    while q < hi
      invariant lo <= q <= hi
      invariant IsList(fill[..], n, L) && nnz == |L| && t < |L|
      invariant L[..t + 1] == L0[..t + 1]
      invariant forall x :: x in L <==> x in L0 || x in U[..q - lo]
    {
      var idx := ajnew[q] - 1;
      assert idx == U[q - lo] by {
        assert ajnew[lo..hi][q - lo] == ajnew[q];
      }
      assert L[t] == L0[t] <= idx;
      var m, fm, pos := Scan(fill, n, L, idx);
      if fm != idx {
        assert pos > t by {
          assert forall u :: 0 <= u < t ==> L[u] < L[t];
        }
        ghost var L1 := L;
        L := Splice(fill, n, L, m, fm, idx, pos);
        InsertMembers(L1, idx, pos);
        assert L[..t + 1] == L1[..t + 1];
        nnz := nnz + 1;
      } else {
        assert idx in L by {
          assert pos < |L| && L[pos] == idx;
        }
      }
      assert U[..q + 1 - lo] == U[..q - lo] + [idx];
      q := q + 1;
    }
    assert U[..hi - lo] == U;
  }

  /** Copies the list into the column array from `start` on, as 1-based
      columns, counting the entries below the diagonal in nzi. */
  method WriteRow(fill: array<int>, n: int, ghost L: seq<int>, nnz: int, ajnew: array<int>, start: int, i: int)
      returns (nzi: int)
    requires IsList(fill[..], n, L) && nnz == |L| && ajnew != fill
    requires 0 <= start && start + nnz <= ajnew.Length
    modifies ajnew
    ensures ajnew[..start] == old(ajnew[..start])
    ensures ajnew[start .. start + nnz] == Shift(L, 1)
    ensures SplitAt(L, i, nzi)
  {
    var fm := fill[n];
    nzi := 0;
    var k := 0;
    while k < nnz
      invariant 0 <= k <= nnz && fm == Succ(L, n, k)
      invariant ajnew[..start] == old(ajnew[..start])
      invariant forall s :: 0 <= s < k ==> ajnew[start + s] == L[s] + 1
      invariant 0 <= nzi <= k
      invariant forall s :: 0 <= s < nzi ==> L[s] < i
      invariant forall s :: nzi <= s < k ==> L[s] >= i
      invariant nzi < k ==> L[k - 1] >= i
    {
      if fm < i {
        assert nzi == k;
        nzi := nzi + 1;
      }
      ajnew[start + k] := fm + 1;
      fm := fill[fm];
      k := k + 1;
    }
    assert ajnew[start .. start + nnz] == Shift(L, 1);
  }

  /** The capacity after `jmax += nnz*(n-i)`: it always covers the row that
      did not fit, since at least one row (this one) remains. */
  function GrowCapacity(jmax: int, used: int, nnz: int, n: int, i: int): (cap: int)
    requires 0 <= i < n && 0 <= nnz && used <= jmax
    ensures cap >= used + nnz
  {
    MulAtLeast(nnz, n - i);
    jmax + nnz * (n - i)
  }

  lemma {:induction false} MulAtLeast(a: nat, b: int)
    requires b >= 1
    ensures a * b >= a
  {
    if b > 1 {
      MulAtLeast(a, b - 1);
      assert a * b == a * (b - 1) + a;
    }
  }

  /** The allocate-copy-free of the column array: a fresh array of `cap`
      entries whose first `keep` entries are those already written. */
  method Grow(ajold: array<int>, keep: int, cap: int) returns (ajnew: array<int>)
    requires 0 <= keep <= ajold.Length && keep <= cap
    ensures fresh(ajnew) && ajnew.Length == cap
    ensures ajnew[..keep] == ajold[..keep]
  {
    ajnew := new int[cap];
    for k := 0 to keep
      invariant ajnew[..k] == ajold[..k]
    {
      ajnew[k] := ajold[k];
    }
  }

  /** What the walk over the first t list entries has established: they are
      below i, the permuted row is loaded, the upper rows of the walked
      entries are merged, and every entry is justified. */
  ghost predicate Walked(A: Csr, r: seq<int>, ic: seq<int>, rows: seq<seq<int>>, L: seq<int>, t: int)
    requires WellFormed(A) && IsPermutation(r, A.m) && |ic| == A.n && |rows| < A.m
  {
    var i := |rows|;
    && 0 <= t <= |L|
    && (forall s :: 0 <= s < t ==> L[s] < i)
    && (forall x :: x in PermRow(A, r, ic, i) ==> x in L)
    && (forall s, y :: 0 <= s < t && 0 <= L[s] < i && y in rows[L[s]] && L[s] <= y ==> y in L)
    && (forall x :: x in L ==>
          x in PermRow(A, r, ic, i) || exists j :: 0 <= j < i && j in L && j < x && x in rows[j])
  }

  /** Merging the upper part of row L0[t] into the list extends the walk by one entry. */
  lemma WalkStep(A: Csr, r: seq<int>, ic: seq<int>, rows: seq<seq<int>>, L0: seq<int>, L: seq<int>,
                 t: int, d: int)
    requires WellFormed(A) && IsPermutation(r, A.m) && |ic| == A.n && |rows| < A.m
    requires Walked(A, r, ic, rows, L0, t) && t < |L0| && 0 <= L0[t] < |rows|
    requires Increasing(L0)
    requires SplitAt(rows[L0[t]], L0[t], d)
    requires t < |L| && L[..t + 1] == L0[..t + 1]
    requires forall x :: x in L <==> x in L0 || x in rows[L0[t]][d..]
    ensures Walked(A, r, ic, rows, L, t + 1)
  {
    var i := |rows|;
    var row := L0[t];
    forall s | 0 <= s < t + 1
      ensures L[s] == L0[s]
    {
      assert L[..t + 1][s] == L0[..t + 1][s];
    }
    UpperMerged(rows[row], row, d, L);
    MergedJustified(PermRow(A, r, ic, i), rows, L0, L, row, d);
  }

  /** Once the part of row R from the split on is in L, every entry of R
      not left of `row` is in L. */
  lemma UpperMerged(R: seq<int>, row: int, d: int, L: seq<int>)
    requires SplitAt(R, row, d)
    requires forall x :: x in R[d..] ==> x in L
    ensures forall y :: y in R && row <= y ==> y in L
  {
    forall y | y in R && row <= y
      ensures y in L
    {
      var q :| 0 <= q < |R| && R[q] == y;
      assert R[d..][q - d] == y;
    }
  }

  /** Every entry the merge adds lies in the row of an earlier list entry,
      right of it, so the list stays justified. */
  lemma MergedJustified(PR: seq<int>, rows: seq<seq<int>>, L0: seq<int>, L: seq<int>, row: int, d: int)
    requires 0 <= row < |rows| && row in L0 && SplitAt(rows[row], row, d)
    requires forall x :: x in L <==> x in L0 || x in rows[row][d..]
    requires forall x :: x in L0 ==>
               x in PR || exists j :: 0 <= j < |rows| && j in L0 && j < x && x in rows[j]
    ensures forall x :: x in L ==>
              x in PR || exists j :: 0 <= j < |rows| && j in L && j < x && x in rows[j]
  {
    forall x | x in L
      ensures x in PR || exists j :: 0 <= j < |rows| && j in L && j < x && x in rows[j]
    {
      if x in L0 {
        if x !in PR {
          var j :| 0 <= j < |rows| && j in L0 && j < x && x in rows[j];
          assert j in L;
        }
      } else {
        var q :| 0 <= q < |rows[row][d..]| && rows[row][d..][q] == x;
        assert rows[row][d + q] == x;
        assert row in L;
      }
    }
  }

  /** A walk that reached the first entry not below i has built row i. */
  lemma WalkDone(A: Csr, r: seq<int>, ic: seq<int>, rows: seq<seq<int>>, L: seq<int>, t: int)
    requires WellFormed(A) && IsPermutation(r, A.m) && |ic| == A.n && |rows| < A.m
    requires Walked(A, r, ic, rows, L, t) && Increasing(L) && ColumnsIn(L, A.n)
    requires t == |L| || L[t] >= |rows|
    ensures RowBuilt(A, r, ic, rows + [L], |rows|)
  {
    var i := |rows|;
    forall j | 0 <= j < i && j in L
      ensures exists s :: 0 <= s < t && L[s] == j
    {
      var s :| 0 <= s < |L| && L[s] == j;
      assert forall u :: 0 <= u < s ==> L[u] < L[s];
    }
    var rows' := rows + [L];
    assert rows'[i] == L;
    assert forall j :: 0 <= j < i ==> rows'[j] == rows[j];
  }

  /** The finished rows laid out in 1-based row pointers `ai`, the column
      array `aj` and the diagonal pointers `id`. */
  ghost predicate LaidOut(rows: seq<seq<int>>, ai: seq<int>, aj: seq<int>, id: seq<int>)
  {
    var i := |rows|;
    && i < |ai| && i <= |id|
    && (forall k :: 0 <= k <= i ==> ai[k] == 1 + Off(rows, k))
    && ai[i] - 1 <= |aj| && aj[..ai[i] - 1] == Flat(rows, 1)
    && (forall k :: 0 <= k < i ==> SplitAt(rows[k], k, id[k] - ai[k]))
  }

  /** Where the upper part of an earlier row lies in the column array. */
  lemma UpperOf(rows: seq<seq<int>>, ai: seq<int>, aj: seq<int>, id: seq<int>, row: int, lo: int, hi: int, d: int)
    requires LaidOut(rows, ai, aj, id) && 0 <= row < |rows|
    requires lo == id[row] - 1 && hi == ai[row + 1] - 1 && d == id[row] - ai[row]
    ensures SplitAt(rows[row], row, d)
    ensures 0 <= lo <= hi <= ai[|rows|] - 1 <= |aj|
    ensures aj[lo..hi] == Shift(rows[row][d..], 1)
  {
    assert ai[row] == 1 + Off(rows, row) && ai[row + 1] == 1 + Off(rows, row + 1);
    RowUpperSlice(rows, aj, row, lo, hi, d);
  }

  /** Row `row` from its d-th entry on, as stored in a column array that
      begins with the flattened rows. */
  lemma RowUpperSlice(rows: seq<seq<int>>, aj: seq<int>, row: int, lo: int, hi: int, d: int)
    requires 0 <= row < |rows| && 0 <= d <= |rows[row]|
    requires |Flat(rows, 1)| <= |aj| && aj[..|Flat(rows, 1)|] == Flat(rows, 1)
    requires lo == Off(rows, row) + d && hi == Off(rows, row + 1)
    ensures Off(rows, row) + |rows[row]| == Off(rows, row + 1) <= |Flat(rows, 1)|
    ensures aj[lo..hi] == Shift(rows[row][d..], 1)
  {
    FlatRow(rows, 1, row);
    RowSliceOf(aj, Flat(rows, 1), rows[row], Off(rows, row), lo, hi, d);
  }

  /** The entries from d on of a row stored shifted at F[b..hi], read
      through a column array that begins with F. */
  lemma RowSliceOf(aj: seq<int>, F: seq<int>, R: seq<int>, b: int, lo: int, hi: int, d: int)
    requires |F| <= |aj| && aj[..|F|] == F && 0 <= b <= hi <= |F| && lo == b + d
    requires hi - b == |R| && 0 <= d <= |R| && F[b..hi] == Shift(R, 1)
    ensures aj[lo..hi] == Shift(R[d..], 1)
  {
    PrefixSlice(aj, F, lo, hi);
    assert F[lo..hi] == F[b..hi][d..];
    ShiftDrop(R, d, 1);
  }

  lemma PrefixSlice(s: seq<int>, F: seq<int>, lo: int, hi: int)
    requires |F| <= |s| && s[..|F|] == F && 0 <= lo <= hi <= |F|
    ensures s[lo..hi] == F[lo..hi]
  {
    assert forall u :: lo <= u < hi ==> s[u] == s[..|F|][u];
  }

  /** A prefix followed by the slice after it is the longer prefix. */
  lemma PrefixExtend(s: seq<int>, F: seq<int>, G: seq<int>)
    requires |F| + |G| <= |s| && s[..|F|] == F && s[|F| .. |F| + |G|] == G
    ensures s[..|F| + |G|] == F + G
  {
    assert forall u :: 0 <= u < |F| ==> s[u] == s[..|F|][u];
    assert forall u :: |F| <= u < |F| + |G| ==> s[u] == s[|F| .. |F| + |G|][u - |F|];
  }

  lemma ShiftDrop(s: seq<int>, d: int, delta: int)
    requires 0 <= d <= |s|
    ensures Shift(s, delta)[d..] == Shift(s[d..], delta)
  {
  }

  /** Writing the next row after the finished ones keeps the layout. */
  lemma LaidOutAppend(rows: seq<seq<int>>, ai: seq<int>, aj: seq<int>, id: seq<int>, L: seq<int>, nzi: int,
                      ai': seq<int>, aj': seq<int>, id': seq<int>)
    requires LaidOut(rows, ai, aj, id) && |rows| + 1 < |ai| && |rows| < |id|
    requires SplitAt(L, |rows|, nzi)
    requires ai' == ai[|rows| + 1 := ai[|rows|] + |L|]
    requires id' == id[|rows| := ai[|rows|] + nzi]
    requires ai[|rows|] - 1 + |L| <= |aj'|
    requires aj'[..ai[|rows|] - 1] == aj[..ai[|rows|] - 1]
    requires aj'[ai[|rows|] - 1 .. ai[|rows|] - 1 + |L|] == Shift(L, 1)
    ensures LaidOut(rows + [L], ai', aj', id')
  {
    var i := |rows|;
    AppendPointers(rows, ai, L, ai');
    AppendColumns(rows, aj, L, aj', ai[i] - 1);
    AppendSplits(rows, ai, id, L, nzi, ai', id');
  }

  /** The row pointers after the next row is appended. */
  lemma AppendPointers(rows: seq<seq<int>>, ai: seq<int>, L: seq<int>, ai': seq<int>)
    requires |rows| + 1 < |ai| && forall k :: 0 <= k <= |rows| ==> ai[k] == 1 + Off(rows, k)
    requires ai' == ai[|rows| + 1 := ai[|rows|] + |L|]
    ensures forall k :: 0 <= k <= |rows| + 1 ==> ai'[k] == 1 + Off(rows + [L], k)
  {
    var i := |rows|;
    var rows' := rows + [L];
    forall k | 0 <= k <= i
      ensures ai'[k] == 1 + Off(rows', k)
    {
      OffAppend(rows, L, k);
    }
    OffStep(rows', i);
    assert rows'[i] == L;
  }

  /** The column array after the next row is written behind the flattened
      earlier rows. */
  lemma AppendColumns(rows: seq<seq<int>>, aj: seq<int>, L: seq<int>, aj': seq<int>, b: int)
    requires 0 <= b <= |aj| && aj[..b] == Flat(rows, 1)
    requires b + |L| <= |aj'| && aj'[..b] == aj[..b] && aj'[b .. b + |L|] == Shift(L, 1)
    ensures aj'[..b + |L|] == Flat(rows + [L], 1)
  {
    FlatAppend(rows, L, 1);
    PrefixExtend(aj', Flat(rows, 1), Shift(L, 1));
  }

  /** The diagonal pointers after the next row is appended. */
  lemma AppendSplits(rows: seq<seq<int>>, ai: seq<int>, id: seq<int>, L: seq<int>, nzi: int,
                     ai': seq<int>, id': seq<int>)
    requires |rows| + 1 < |ai| && |rows| < |id|
    requires forall k :: 0 <= k < |rows| ==> SplitAt(rows[k], k, id[k] - ai[k])
    requires SplitAt(L, |rows|, nzi)
    requires ai' == ai[|rows| + 1 := ai[|rows|] + |L|]
    requires id' == id[|rows| := ai[|rows|] + nzi]
    ensures forall k :: 0 <= k < |rows| + 1 ==> SplitAt((rows + [L])[k], k, id'[k] - ai'[k])
  {
    var i := |rows|;
    var rows' := rows + [L];
    forall k | 0 <= k < i + 1
      ensures SplitAt(rows'[k], k, id'[k] - ai'[k])
    {
      if k < i { assert rows'[k] == rows[k]; }
    }
  }

  /** The finished layout is the pattern of the factor. */
  lemma LaidOutPattern(rows: seq<seq<int>>, ai: seq<int>, aj: seq<int>, id: seq<int>)
    requires LaidOut(rows, ai, aj, id) && |ai| == |rows| + 1
    ensures var P := Pattern(|rows|, ai, aj[..ai[|rows|] - 1], id[..|rows|]);
      && Shaped(P)
      && (forall k :: 0 <= k < P.n ==> SplitAt(RowOf(P, k), k, P.diag[k] - P.ai[k]))
      && seq(P.n, k => if 0 <= k < P.n then RowOf(P, k) else []) == rows
  {
    var n := |rows|;
    var P := Pattern(n, ai, aj[..ai[n] - 1], id[..n]);
    OffAll(rows, 1);
    assert Off(rows, 0) == 0;
    forall k | 0 <= k <= n
      ensures 1 <= ai[k] <= ai[n]
    {
      OffMono(rows, 0, k);
      OffMono(rows, k, n);
    }
    forall k | 0 <= k < n
      ensures ai[k] <= ai[k + 1]
    {
      OffMono(rows, k, k + 1);
    }
    assert Shaped(P);
    RowOfFlat(P, rows);
    RowsOfPattern(P, rows);
  }

  /** A pattern whose rows are `rows` lists them in order. */
  lemma RowsOfPattern(P: Pattern, rows: seq<seq<int>>)
    requires Shaped(P) && |rows| == P.n
    requires forall k :: 0 <= k < P.n ==> RowOf(P, k) == rows[k]
    ensures seq(P.n, k => if 0 <= k < P.n then RowOf(P, k) else []) == rows
  {
  }

  /** Load, then walk the list's entries below i in increasing order, merging
      each one's upper factor row; fill added by a merge is walked too. */
  method BuildRow(fill: array<int>, A: Csr, r: seq<int>, ic: seq<int>, i: int,
                  ainew: array<int>, ajnew: array<int>, idnew: array<int>, ghost rows: seq<seq<int>>)
      returns (nnz: int, ghost L: seq<int>)
    requires WellFormed(A) && NoDuplicateColumns(A) && A.m == A.n
    requires IsPermutation(r, A.n) && IsPermutation(ic, A.n)
    requires fill.Length == A.n + 1 && 0 <= i < A.n && |rows| == i
    requires ajnew != fill && ainew != fill && idnew != fill
    requires LaidOut(rows, ainew[..], ajnew[..], idnew[..])
    requires RowsBuilt(A, r, ic, rows)
    modifies fill
    ensures IsList(fill[..], A.n, L) && nnz == |L|
    ensures RowBuilt(A, r, ic, rows + [L], i)
  {
    var n := A.n;
    nnz, L := LoadRow(fill, A, r, ic, i);
    var row := fill[n];
    ghost var t: nat := 0;
    while row < i
      invariant IsList(fill[..], n, L) && nnz == |L| && t <= |L| && row == Succ(L, n, t)
      invariant Walked(A, r, ic, rows, L, t)
      decreases n - row
    {
      assert t < |L| && L[t] == row;
      nnz, L := MergeRow(fill, A, r, ic, i, ainew, ajnew, idnew, rows, L, t, nnz, row);
      row := fill[row];
      t := t + 1;
    }
    WalkDone(A, r, ic, rows, L, t);
  }

  /** One pass of the walk: merges the upper part of factor row L[t] into
      the list, which keeps its first t + 1 entries. */
  method MergeRow(fill: array<int>, A: Csr, r: seq<int>, ic: seq<int>, i: int,
                  ainew: array<int>, ajnew: array<int>, idnew: array<int>, ghost rows: seq<seq<int>>,
                  ghost L0: seq<int>, ghost t: nat, nnz0: int, row: int)
      returns (nnz: int, ghost L: seq<int>)
    requires WellFormed(A) && A.m == A.n && IsPermutation(r, A.n) && |ic| == A.n
    requires fill.Length == A.n + 1 && 0 <= i < A.n && |rows| == i
    requires ajnew != fill && ainew != fill && idnew != fill
    requires LaidOut(rows, ainew[..], ajnew[..], idnew[..])
    requires RowsBuilt(A, r, ic, rows)
    requires IsList(fill[..], A.n, L0) && nnz0 == |L0| && t < |L0| && L0[t] == row < i
    requires Walked(A, r, ic, rows, L0, t)
    modifies fill
    ensures IsList(fill[..], A.n, L) && nnz == |L|
    ensures t < |L| && L[t] == row
    ensures Walked(A, r, ic, rows, L, t + 1)
  {
    var lo := idnew[row] - 1;
    var hi := ainew[row + 1] - 1;
    ghost var d := idnew[row] - ainew[row];
    UpperOf(rows, ainew[..], ajnew[..], idnew[..], row, lo, hi, d);
    UpperColumns(A, r, ic, rows, row, d);
    assert ajnew[lo..hi] == ajnew[..][lo..hi];
    nnz, L := MergeUpper(fill, A.n, L0, t, nnz0, ajnew, lo, hi, rows[row][d..]);
    WalkStep(A, r, ic, rows, L0, L, t, d);
    assert L[t] == row by {
      assert L[..t + 1][t] == L0[..t + 1][t];
    }
  }

  /** The upper part of a built row lies between its own index and n. */
  lemma UpperColumns(A: Csr, r: seq<int>, ic: seq<int>, rows: seq<seq<int>>, row: int, d: int)
    requires WellFormed(A) && IsPermutation(r, A.m) && |ic| == A.n && |rows| <= A.m
    requires RowsBuilt(A, r, ic, rows) && 0 <= row < |rows| && SplitAt(rows[row], row, d)
    ensures forall s :: 0 <= s < |rows[row][d..]| ==> row <= rows[row][d..][s] < A.n
  {
    assert RowBuilt(A, r, ic, rows, row);
  }

  /** Sets the next row pointer, grows the column array when the row does
      not fit, copies the row in and sets its diagonal pointer. */
  method StoreRow(fill: array<int>, n: int, ghost L: seq<int>, nnz: int,
                  ainew: array<int>, ajold: array<int>, idnew: array<int>, i: int, jmax0: int,
                  ghost rows: seq<seq<int>>)
      returns (ajnew: array<int>, jmax: int)
    requires IsList(fill[..], n, L) && nnz == |L|
    requires ajold != fill && ajold != ainew && ajold != idnew && ainew != fill && idnew != fill && ainew != idnew
    requires |rows| == i < n && ainew.Length == n + 1 && idnew.Length == n + 1
    requires jmax0 == ajold.Length && LaidOut(rows, ainew[..], ajold[..], idnew[..])
    modifies ainew, idnew, ajold
    ensures ajnew == ajold || fresh(ajnew)
    ensures ajnew != fill && ajnew != ainew && ajnew != idnew && jmax == ajnew.Length
    ensures LaidOut(rows + [L], ainew[..], ajnew[..], idnew[..])
  {
    ghost var ai0, aj0, id0 := ainew[..], ajold[..], idnew[..];
    var start := ainew[i] - 1;
    ainew[i + 1] := ainew[i] + nnz;
    ajnew, jmax := ajold, jmax0;
    if ainew[i + 1] > jmax + 1 {
      jmax := GrowCapacity(jmax, start, nnz, n, i);
      ajnew := Grow(ajold, start, jmax);
    }
    var nzi := WriteRow(fill, n, L, nnz, ajnew, start, i);
    idnew[i] := ainew[i] + nzi;
    assert ainew[..] == ai0[i + 1 := ai0[i] + nnz];
    assert idnew[..] == id0[i := ai0[i] + nzi];
    LaidOutAppend(rows, ai0, aj0, id0, L, nzi, ainew[..], ajnew[..], idnew[..]);
  }

  // ---------------------------------------------------------------------
  // The factorization.

  /** MatLUFactorSymbolic_AIJ. Fails on a non-square matrix or a missing
      permutation; otherwise returns the factor's pattern. */
  method LUFactorSymbolic(A: Csr, isrow: Option<seq<int>>, iscol: Option<seq<int>>)
      returns (res: Result<Pattern>)
    requires WellFormed(A) && NoDuplicateColumns(A)
    requires A.m == A.n && isrow.Some? && iscol.Some? ==>
               IsPermutation(isrow.value, A.m) && IsPermutation(iscol.value, A.m)
    ensures A.m != A.n ==> res == Err(NotSquare)
    ensures A.m == A.n && isrow.None? ==> res == Err(MissingRowPermutation)
    ensures A.m == A.n && isrow.Some? && iscol.None? ==> res == Err(MissingColumnPermutation)
    ensures A.m == A.n && isrow.Some? && iscol.Some? ==>
              res.Ok? && IsLUPattern(A, isrow.value, Inverse(iscol.value), res.value)
  {
    if A.m != A.n {
      return Err(NotSquare);
    }
    if isrow.None? {
      return Err(MissingRowPermutation);
    }
    if iscol.None? {
      return Err(MissingColumnPermutation);
    }
    var ic := InvertPermutation(iscol.value);
    InverseIsPermutation(iscol.value);
    var P := SymbolicRows(A, isrow.value, ic);
    return Ok(P);
  }

  /** The row loop of MatLUFactorSymbolic_AIJ, once the checks have passed
      and the column permutation is inverted. */
  method SymbolicRows(A: Csr, r: seq<int>, ic: seq<int>) returns (P: Pattern)
    requires WellFormed(A) && NoDuplicateColumns(A) && A.m == A.n
    requires IsPermutation(r, A.n) && IsPermutation(ic, A.n)
    ensures IsLUPattern(A, r, ic, P)
  {
    var n := A.n;
    var ainew := new int[n + 1];
    ainew[0] := 1;
    var jmax := 2 * A.ai[n];
    var ajnew := new int[jmax];
    var fill := new int[n + 1];
    var idnew := new int[n + 1];
    idnew[0] := 1;
    ghost var rows: seq<seq<int>> := [];
    assert Off(rows, 0) == 0;

    for i := 0 to n
      invariant |rows| == i
      invariant fresh(ajnew) && ajnew != fill && ajnew != ainew && ajnew != idnew
      invariant ainew != idnew && ainew != fill && idnew != fill
      invariant jmax == ajnew.Length
      invariant LaidOut(rows, ainew[..], ajnew[..], idnew[..])
      invariant RowsBuilt(A, r, ic, rows)
    {
      ghost var L;
      ajnew, jmax, L := SymbolicRow(fill, A, r, ic, i, ainew, ajnew, idnew, jmax, rows);
      rows := rows + [L];
    }
    LUPatternOf(A, r, ic, rows, ainew[..], ajnew[..], idnew[..]);
    P := Pattern(n, ainew[..], ajnew[..ainew[n] - 1], idnew[..n]);
  }

  /** One pass of the row loop: build row i in the list, then store it. */
  method SymbolicRow(fill: array<int>, A: Csr, r: seq<int>, ic: seq<int>, i: int,
                     ainew: array<int>, ajold: array<int>, idnew: array<int>, jmax0: int,
                     ghost rows: seq<seq<int>>)
      returns (ajnew: array<int>, jmax: int, ghost L: seq<int>)
    requires WellFormed(A) && NoDuplicateColumns(A) && A.m == A.n
    requires IsPermutation(r, A.n) && IsPermutation(ic, A.n)
    requires fill.Length == A.n + 1 && 0 <= i < A.n && |rows| == i
    requires ajold != fill && ajold != ainew && ajold != idnew
    requires ainew != fill && idnew != fill && ainew != idnew
    requires ainew.Length == A.n + 1 && idnew.Length == A.n + 1 && jmax0 == ajold.Length
    requires LaidOut(rows, ainew[..], ajold[..], idnew[..])
    requires RowsBuilt(A, r, ic, rows)
    modifies fill, ainew, idnew, ajold
    ensures ajnew == ajold || fresh(ajnew)
    ensures ajnew != fill && ajnew != ainew && ajnew != idnew && jmax == ajnew.Length
    ensures LaidOut(rows + [L], ainew[..], ajnew[..], idnew[..])
    ensures RowsBuilt(A, r, ic, rows + [L])
  {
    var nnz;
    nnz, L := BuildRow(fill, A, r, ic, i, ainew, ajold, idnew, rows);
    RowsBuiltAppend(A, r, ic, rows, L);
    ajnew, jmax := StoreRow(fill, A.n, L, nnz, ainew, ajold, idnew, i, jmax0, rows);
  }

  /** The finished arrays hold the LU pattern. */
  lemma LUPatternOf(A: Csr, r: seq<int>, ic: seq<int>, rows: seq<seq<int>>,
                    ai: seq<int>, aj: seq<int>, id: seq<int>)
    requires WellFormed(A) && A.m == A.n && IsPermutation(r, A.n) && |ic| == A.n
    requires |rows| == A.n && |ai| == A.n + 1
    requires LaidOut(rows, ai, aj, id) && RowsBuilt(A, r, ic, rows)
    ensures IsLUPattern(A, r, ic, Pattern(A.n, ai, aj[..ai[A.n] - 1], id[..A.n]))
  {
    LaidOutPattern(rows, ai, aj, id);
  }
}
